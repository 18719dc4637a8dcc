/** `OtpService`, one call at a time, over the in-memory storage. Where the storage or the delivery may
    fail is a parameter of the call. */
module OtpService {
  import opened Options
  import opened Text
  import opened Codes
  import opened Issuing
  import opened Quotients
  import opened StorageKeys
  import opened Redaction
  import opened RedactionLaws
  import opened ErrorNodes
  import opened ErrorChain
  import opened MemoryStorage
  import OtpScope
  import C = CooldownLog
  import L = OtpLifecycle

  /** Something that was thrown: an error, or any other value with its string form. */
  datatype Thrown = Raised(node: ErrorNode) | Value(text: Option<string>)

  ghost predicate Thrownable(t: Thrown, h: Heap) {
    t.Raised? ==> t.node in h
  }

  /** Of the texts made of digits and capital letters, only the letter E can be read in "Error". */
  lemma ReadInError(value: string)
    requires value != "" && forall i :: 0 <= i < |value| ==> IsCodeChar(value[i])
    ensures Contains("Error", value) <==> value == "E"
  {
    if value == "E" {
      assert OccursAt("Error", value, 0);
    }
    forall at ensures OccursAt("Error", value, at) ==> at == 0 && |value| == 1 {
      CharOf("Error", value, at, 0);
      if |value| > 1 {
        CharOf("Error", value, at, 1);
      }
    }
  }

  /** Redaction removes every generated code, and only the letter E is part of the name of a withheld error. */
  lemma CodesAreHideable(code: string, length: int, codeType: CodeType)
    requires IsCode(code, length, codeType) && ValidLength(length)
    ensures Removable(code) && (Contains("Error", code) <==> code == "E")
  {
    CodesAreRedactable(code, length, codeType);
    forall i | 0 <= i < |code| ensures IsCodeChar(code[i]) {
      CharsetsAvoid(codeType, code[i]);
    }
    ReadInError(code);
  }

  /** Nobody who follows the causes of what was thrown can read `value` anywhere. */
  ghost predicate CarriesNothing(t: Thrown, h: Heap, value: string) {
    match t
    case Value(text) => text.Some? && !Contains(text.value, value)
    case Raised(node) => node in h && forall k: nat :: ShowsNothingAt(h, node, k, value)
  }

  ghost predicate ShowsNothingAt(h: Heap, n: ErrorNode, k: nat, value: string) {
    var reached := Follow(h, n, k);
    reached.Some? ==> reached.value in h && ShowsNothingOf(h[reached.value], value)
  }

  /** No error that is reached from what was thrown keeps `value` through a scrub. */
  ghost predicate KeepsNone(t: Thrown, h: Heap, clean: Cleaner, value: string) {
    t.Raised? ==> forall k: nat :: KeepsNoneAt(h, t.node, k, clean, value)
  }

  ghost predicate KeepsNoneAt(h: Heap, n: ErrorNode, k: nat, clean: Cleaner, value: string) {
    var reached := FollowOriginal(h, n, k, clean);
    reached.Some? ==> reached.value in h && !Keeps(h[reached.value], clean, value)
  }

  function AsCause(t: Thrown): Cause {
    if t.Raised? then Link(t.node) else Other(t.text)
  }

  /** An error with the cause attached, if it has none, takes one, and can be inspected. */
  function WithCause(v: View, cause: Thrown): View {
    if v.traits.unreadable || v.cause != Absent || v.traits.cause != Accepts then v else v.(cause := AsCause(cause))
  }

  /** `attachCauseIfAbsent`: gives the error a cause if it has none and takes one. */
  method AttachCauseIfAbsent(target: Thrown, cause: Thrown)
    modifies if target.Raised? then {target.node} else {}
    ensures target.Raised? ==> target.node.Look() == WithCause(old(target.node.Look()), cause)
  {
    if target.Raised? && !target.node.traits.unreadable && target.node.cause == Absent && target.node.traits.cause == Accepts {
      target.node.cause := AsCause(cause);
    }
  }

  /** The failure to report: a failed release supersedes what failed. */
  function Reported(error: Thrown, cleanup: L.Cleanup, cleanupError: Thrown): Thrown {
    if cleanup == L.Released then error else cleanupError
  }

  /** The errors once a failed release has taken what failed as its cause. */
  ghost function Attached(h: Heap, error: Thrown, cleanup: L.Cleanup, cleanupError: Thrown): Heap {
    if cleanup != L.Released && cleanupError.Raised? && cleanupError.node in h then
      h[cleanupError.node := WithCause(h[cleanupError.node], error)]
    else h
  }

  /** An error takes `error` as its cause if it is the one that supersedes it, can be inspected, has no cause and
      takes one; nothing else of it changes, nor of any other. */
  predicate AttachedAt(v: View, w: View, supersedes: bool, error: Thrown) {
    && w.texts == v.texts && w.extras == v.extras && w.contract == v.contract && w.traits == v.traits
    && if supersedes && !v.traits.unreadable && v.cause == Absent && v.traits.cause == Accepts then
         match error
         case Raised(node) => w.cause == Link(node)
         case Value(text) => w.cause == Other(text)
       else
         w.cause == v.cause
  }

  /** Chooses the failure to report, and keeps the other one as its cause. */
  method FailureToReport(error: Thrown, cleanup: L.Cleanup, cleanupError: Thrown, ghost before: Heap)
    returns (failure: Thrown, ghost seen: Heap)
    requires Thrownable(error, before) && Thrownable(cleanupError, before) && Closed(before) && Shows(before)
    modifies before.Keys
    ensures failure == Reported(error, cleanup, cleanupError) && seen == Attached(before, error, cleanup, cleanupError)
    ensures Thrownable(failure, seen) && Closed(seen) && Shows(seen) && seen.Keys == before.Keys
    // In so many words: what failed, and nothing touched, if the release went through; else its own failure.
    ensures cleanup == L.Released ==> failure == error && seen == before
    ensures cleanup != L.Released ==> failure == cleanupError
    ensures forall n :: n in before ==> AttachedAt(before[n], seen[n], cleanup != L.Released && cleanupError == Raised(n), error)
  {
    failure, seen := Reported(error, cleanup, cleanupError), Attached(before, error, cleanup, cleanupError);
    StillClosed(before, error, cleanup, cleanupError);
    if cleanup != L.Released {
      AttachCauseIfAbsent(cleanupError, error);
    }
  }

  /** Linking one error of a closed heap to another keeps it closed. */
  lemma StillClosed(before: Heap, error: Thrown, cleanup: L.Cleanup, cleanupError: Thrown)
    requires Closed(before) && Thrownable(error, before)
    ensures Closed(Attached(before, error, cleanup, cleanupError))
  {
    var seen := Attached(before, error, cleanup, cleanupError);
    forall n {:trigger seen[n].cause.node} | n in seen && seen[n].cause.Link? ensures seen[n].cause.node in seen {
      if before[n].cause.Link? {
        assert before[n].cause.node in before;
      }
    }
  }

  /** The errors after a scrub, and which of them stands for which. */
  datatype Report = Report(after: Heap, rep: map<ErrorNode, ErrorNode>)

  /** `outgoing` is the scrub of `failure`: its representative, or its redacted string form. */
  ghost predicate IsScrubOf(outgoing: Thrown, failure: Thrown, before: Heap, report: Report, code: string) {
    match failure
    case Raised(node) =>
      Scrubbed(before, report.after, report.rep, Redactor(ValueSet([code]))) && node in report.rep && outgoing == Raised(report.rep[node])
    case Value(text) => outgoing == Value(Some(CleanOther(text, Redactor(ValueSet([code])))))
  }

  /** What goes out carries the code nowhere, if and only if no error of what failed keeps it. */
  ghost predicate HidesIff(outgoing: Thrown, failure: Thrown, before: Heap, report: Report, code: string) {
    CarriesNothing(outgoing, report.after, code) <==> KeepsNone(failure, before, Redactor(ValueSet([code])), code)
  }

  /** `failedOutgoing`, apart from the release of the scope. */
  method Outgoing(error: Thrown, cleanup: L.Cleanup, cleanupError: Thrown, code: string, ghost before: Heap)
    returns (outgoing: Thrown, ghost report: Report)
    requires Thrownable(error, before) && Thrownable(cleanupError, before) && Closed(before) && Shows(before)
    modifies before.Keys
    ensures Shows(report.after)
    ensures IsScrubOf(outgoing, Reported(error, cleanup, cleanupError), Attached(before, error, cleanup, cleanupError), report, code)
    ensures Removable(code) ==>
      HidesIff(outgoing, Reported(error, cleanup, cleanupError), Attached(before, error, cleanup, cleanupError), report, code)
  {
    var failure;
    ghost var seen;
    failure, seen := FailureToReport(error, cleanup, cleanupError, before);
    outgoing, report := ScrubOutgoing(failure, code, seen);
  }

  /** What the caller of a failed `generate` is thrown. */
  method ScrubOutgoing(failure: Thrown, code: string, ghost before: Heap) returns (outgoing: Thrown, ghost report: Report)
    requires Thrownable(failure, before) && Closed(before) && Shows(before)
    modifies before.Keys
    ensures Shows(report.after) && IsScrubOf(outgoing, failure, before, report, code)
    ensures Removable(code) ==> HidesIff(outgoing, failure, before, report, code)
  {
    match failure {
      case Raised(node) =>
        var head;
        ghost var rep, after, walked;
        head, rep, after, walked := ScrubValuesFromErrorChain(node, [code], before);
        outgoing, report := Raised(head), Report(after, rep);
        ScrubHidesIff(before, after, rep, node, code);
      case Value(text) =>
        var flat := CoerceRedacted(text, [code], Redactor(ValueSet([code])));
        outgoing, report := Value(Some(flat)), Report(before, map[]);
        FlatCarriesNothing(text, code);
    }
  }

  /** The result of a scrub carries the code nowhere, if and only if no error of the original chain keeps it. */
  lemma ScrubHidesIff(before: Heap, after: Heap, rep: map<ErrorNode, ErrorNode>, n: ErrorNode, code: string)
    requires Scrubbed(before, after, rep, Redactor(ValueSet([code]))) && n in rep
    ensures Removable(code) ==>
      (CarriesNothing(Raised(rep[n]), after, code) <==> KeepsNone(Raised(n), before, Redactor(ValueSet([code])), code))
  {
    assert code in ValueSet([code]);
    assert ScrubbedAt(before, after, rep, Redactor(ValueSet([code])), n);
    if Removable(code) {
      forall k: nat ensures ShowsNothingAt(after, rep[n], k, code) <==> KeepsNoneAt(before, n, k, Redactor(ValueSet([code])), code) {
        ChainShowsIff(before, after, rep, ValueSet([code]), n, k, code);
      }
    }
  }

  lemma FlatCarriesNothing(text: Option<string>, code: string)
    ensures Removable(code) ==> !Contains(CleanOther(text, Redactor(ValueSet([code]))), code)
  {
    assert code in ValueSet([code]);
    if Removable(code) {
      CauseShowsNothing(text, ValueSet([code]), code);
    }
  }

  // ---------- Which codes stay readable ----------

  /** An error that cannot be inspected is replaced by one whose name is fixed. */
  lemma WithheldNameIsRead(n: ErrorNode, copy: ErrorNode) returns (before: Heap, after: Heap, rep: map<ErrorNode, ErrorNode>)
    requires n != copy
    ensures before == map[n := Seen(Texts("", "", None), Absent, [], None, PLAIN.(unreadable := true))]
    ensures Scrubbed(before, after, rep, Redactor(ValueSet(["E"]))) && n in rep && !CarriesNothing(Raised(rep[n]), after, "E")
  {
    before := map[n := Seen(Texts("", "", None), Absent, [], None, PLAIN.(unreadable := true))];
    after := map[copy := Seen(Texts("Error", MARKER, None), Absent, [], None, PLAIN)];
    rep := map[n := copy];
    assert ScrubbedAt(before, after, rep, Redactor(ValueSet(["E"])), n);
    assert OccursAt("Error", "E", 0);
    assert Follow(after, copy, 0) == Some(copy);
    assert !ShowsNothingAt(after, copy, 0, "E");
  }

  /** An exception that takes every write keeps its code and its status. */
  lemma KeptContractIsRead(n: ErrorNode, message: string, contract: Contract, code: string)
    returns (before: Heap, after: Heap, rep: map<ErrorNode, ErrorNode>)
    requires Contains(contract.code, code) || Contains(contract.status, code)
    ensures before == map[n := Seen(Texts("NotificationException", message, None), Absent, [], Some(contract), PLAIN)]
    ensures Scrubbed(before, after, rep, Redactor(ValueSet([code]))) && n in rep && !CarriesNothing(Raised(rep[n]), after, code)
  {
    var clean := Redactor(ValueSet([code]));
    var v := Seen(Texts("NotificationException", message, None), Absent, [], Some(contract), PLAIN);
    before, rep := map[n := v], map[n := n];
    after := map[n := Seen(RedactedTexts(v.texts, clean), Absent, [], Stripped(v.contract, clean), PLAIN)];
    assert FateOf(v, clean) == InPlace;
    assert ScrubbedAt(before, after, rep, clean, n);
    assert Follow(after, n, 0) == Some(n);
    assert !ShowsNothingAt(after, n, 0, code);
  }

  /** The exception of a failed delivery keeps the status 502, which is a code of three digits. */
  lemma StatusIsRead(n: ErrorNode, response: seq<Shown>) returns (before: Heap, after: Heap, rep: map<ErrorNode, ErrorNode>)
    ensures IsCode("502", 3, Numeric) && n in before
    ensures before[n].contract == Some(Contract("notification.email_send_failed", "502", response, []))
    ensures Scrubbed(before, after, rep, Redactor(ValueSet(["502"]))) && n in rep && !CarriesNothing(Raised(rep[n]), after, "502")
  {
    assert OccursAt("502", "502", 0);
    var contract := Contract("notification.email_send_failed", "502", response, []);
    before, after, rep := KeptContractIsRead(n, "Failed to send email", contract, "502");
  }

  /** Any code is kept by an exception that was given it as its own code. */
  lemma OwnCodeIsRead(n: ErrorNode, contract: Contract, code: string) returns (before: Heap, after: Heap, rep: map<ErrorNode, ErrorNode>)
    requires contract.code == code
    ensures n in before && before[n].contract == Some(contract)
    ensures Scrubbed(before, after, rep, Redactor(ValueSet([code]))) && n in rep && !CarriesNothing(Raised(rep[n]), after, code)
  {
    assert OccursAt(code, code, 0);
    before, after, rep := KeptContractIsRead(n, "", contract, code);
  }

  /** An exception as its constructor makes it: a code without digits and capital letters, and one of the
      statuses in use. */
  ghost predicate FromCatalog(c: Contract, statuses: set<string>) {
    c.status in statuses && forall i :: 0 <= i < |c.code| ==> !IsCodeChar(c.code[i])
  }

  ghost predicate AllFromCatalog(h: Heap, statuses: set<string>) {
    forall n {:trigger h[n].contract} :: n in h && h[n].contract.Some? ==> FromCatalog(h[n].contract.value, statuses)
  }

  /** What an exception of the catalog keeps of a code, or a withheld error does. */
  lemma CatalogKeeps(v: View, statuses: set<string>, code: string, length: int, codeType: CodeType)
    requires IsCode(code, length, codeType) && ValidLength(length)
    requires v.contract.Some? ==> FromCatalog(v.contract.value, statuses)
    requires code != "E" && forall status :: status in statuses ==> !Contains(status, code)
    ensures !Keeps(v, Redactor(ValueSet([code])), code)
  {
    CodesAreHideable(code, length, codeType);
    CharsetsAvoid(codeType, code[0]);
    if v.contract.Some? {
      forall at ensures !OccursAt(v.contract.value.code, code, at) {
        if OccursAt(v.contract.value.code, code, at) {
          CharOf(v.contract.value.code, code, at, 0);
        }
      }
    }
  }

  /** A generated code can be read nowhere in any scrubbed chain whose exceptions are of the catalog, if and
      only if it is not the letter E and not part of a status in use. */
  lemma EveryScrubHidesIff(code: string, length: int, codeType: CodeType, statuses: set<string>, n: ErrorNode, copy: ErrorNode)
    requires IsCode(code, length, codeType) && ValidLength(length) && n != copy
    ensures (forall before: Heap, after: Heap, rep: map<ErrorNode, ErrorNode>, m: ErrorNode ::
               Scrubbed(before, after, rep, Redactor(ValueSet([code]))) && AllFromCatalog(before, statuses) && m in rep ==>
                 CarriesNothing(Raised(rep[m]), after, code))
      <==> code != "E" && forall status :: status in statuses ==> !Contains(status, code)
  {
    if code == "E" {
      var before, after, rep := WithheldNameIsRead(n, copy);
      assert AllFromCatalog(before, statuses);
    } else if status :| status in statuses && Contains(status, code) {
      var before, after, rep := KeptContractIsRead(n, "", Contract("", status, [], []), code);
      assert AllFromCatalog(before, statuses);
    } else {
      forall before: Heap, after: Heap, rep: map<ErrorNode, ErrorNode>, m: ErrorNode |
        Scrubbed(before, after, rep, Redactor(ValueSet([code]))) && AllFromCatalog(before, statuses) && m in rep
        ensures CarriesNothing(Raised(rep[m]), after, code)
      {
        CatalogIsHidden(before, after, rep, statuses, m, code, length, codeType);
      }
    }
  }

  lemma CatalogIsHidden(before: Heap, after: Heap, rep: map<ErrorNode, ErrorNode>, statuses: set<string>, m: ErrorNode,
                        code: string, length: int, codeType: CodeType)
    requires IsCode(code, length, codeType) && ValidLength(length)
    requires Scrubbed(before, after, rep, Redactor(ValueSet([code]))) && AllFromCatalog(before, statuses) && m in rep
    requires code != "E" && forall status :: status in statuses ==> !Contains(status, code)
    ensures CarriesNothing(Raised(rep[m]), after, code)
  {
    CodesAreHideable(code, length, codeType);
    var clean := Redactor(ValueSet([code]));
    forall k: nat ensures KeepsNoneAt(before, m, k, clean, code) {
      ShapeKept(before, after, rep, clean, m, k);
      var reached := FollowOriginal(before, m, k, clean);
      if reached.Some? {
        assert ScrubbedAt(before, after, rep, clean, reached.value);
        CatalogKeeps(before[reached.value], statuses, code, length, codeType);
      }
    }
    ScrubHidesIff(before, after, rep, m, code);
  }

  // ---------- The service ----------

  /** Whom a call is about. */
  datatype Ref = Ref(tenant: string, recipient: string, purpose: string)

  datatype Refusal = NotConfigured | BlankScope | ManualDeliveryUnavailable

  datatype GenerateOutcome =
    | Refused(why: Refusal)
    | Generated(expiresAt: int, cooldown: int)
    | Blocked(remaining: int)
    | BadLength
    | Failed(outgoing: Thrown)

  datatype VerifyOutcome = VerifyRefused(why: Refusal) | Answered(result: L.VerifyResult)

  class OtpService {
    const storage: InMemoryOtpStorage
    /** The configuration of every purpose, or that there is none. */
    const otp: Option<string -> Config>
    const hash: string -> string
    const normalizeRecipient: string -> string
    const emailConfigured: bool

    constructor (storage: InMemoryOtpStorage, otp: Option<string -> Config>, hash: string -> string, normalizeRecipient: string -> string,
                 emailConfigured: bool)
      ensures this.storage == storage && this.otp == otp && this.hash == hash && this.normalizeRecipient == normalizeRecipient
      ensures this.emailConfigured == emailConfigured
    {
      this.storage, this.otp, this.hash, this.normalizeRecipient, this.emailConfigured :=
        storage, otp, hash, normalizeRecipient, emailConfigured;
    }

    function KeyOf(ref: Ref): string {
      MemoryKey(hash, ref.tenant, normalizeRecipient(ref.recipient), ref.purpose)
    }

    /** Two scopes that differ in the tenant, the purpose or the normalised recipient, and between which the
        hash does not collide. */
    ghost predicate Apart(ref: Ref, other: Ref) {
      var r, q := normalizeRecipient(ref.recipient), normalizeRecipient(other.recipient);
      && (ref.tenant != other.tenant || r != q || ref.purpose != other.purpose)
      && TellsApart(hash, ref.tenant, r, other.tenant, q)
    }

    /** Spellings of one recipient share their scopes, and scopes apart have keys of their own. */
    lemma ScopesOfRefs(ref: Ref)
      ensures forall other: Ref :: Apart(ref, other) ==> KeyOf(other) != KeyOf(ref)
      ensures forall other: Ref ::
        (other.tenant, normalizeRecipient(other.recipient), other.purpose) == (ref.tenant, normalizeRecipient(ref.recipient), ref.purpose)
        ==> KeyOf(other) == KeyOf(ref)
    {
      forall other: Ref | Apart(ref, other) ensures KeyOf(other) != KeyOf(ref) {
        MemoryScopesApart(hash, ref.tenant, normalizeRecipient(ref.recipient), ref.purpose,
                          other.tenant, normalizeRecipient(other.recipient), other.purpose);
      }
    }

    /** What is stored for the scopes apart from this one stays as it was. */
    twostate predicate OthersKept(ref: Ref)
      reads storage, storage.store.Values
    {
      forall other: Ref :: Apart(ref, other) ==> storage.ScopeOf(KeyOf(other)) == old(storage.ScopeOf(KeyOf(other)))
    }

    /** The checks that come before any storage call. */
    function Precheck(ref: Ref): Option<Refusal> {
      if otp == None then Some(NotConfigured)
      else if !Identifies(ref.tenant) || !Identifies(ref.recipient) then Some(BlankScope)
      else None
    }

    // ---------- generate ----------

    /** Undoes a `generate`, as far as the storage lets it. */
    method ReleaseOtp(key: string, cleanup: L.Cleanup)
      requires storage.Separate()
      modifies storage
      ensures storage.Separate() && storage.OnlyAt(key)
      ensures storage.ScopeOf(key) == L.Release(old(storage.ScopeOf(key)), cleanup)
    {
      if cleanup != L.CooldownStuck {
        storage.ClearCooldown(key);
        if cleanup != L.EntryStuck {
          storage.Delete(key);
        }
      }
    }

    /** Releases the scope and returns what the caller must be thrown: what failed, or the failure of the
        release with that as its cause; in either case scrubbed of the code. */
    method FailedOutgoing(key: string, error: Thrown, cleanup: L.Cleanup, cleanupError: Thrown, code: string, ghost before: Heap)
      returns (outgoing: Thrown, ghost report: Report)
      requires storage.Separate()
      requires Thrownable(error, before) && Thrownable(cleanupError, before) && Closed(before) && Shows(before)
      modifies storage, before.Keys
      ensures storage.Separate() && storage.OnlyAt(key)
      ensures storage.ScopeOf(key) == L.Release(old(storage.ScopeOf(key)), cleanup)
      ensures Shows(report.after)
      ensures IsScrubOf(outgoing, Reported(error, cleanup, cleanupError), Attached(before, error, cleanup, cleanupError), report, code)
      ensures Removable(code) ==>
        HidesIff(outgoing, Reported(error, cleanup, cleanupError), Attached(before, error, cleanup, cleanupError), report, code)
    {
      ReleaseOtp(key, cleanup);
      outgoing, report := Outgoing(error, cleanup, cleanupError, code, before);
    }

    /** What happens to a delivery; a manual one is left to the caller of `generate`. */
    function FaultOf(byEmail: bool, fault: L.Fault): (f: L.Fault)
      ensures f.StoreFails? <==> fault.StoreFails?
      ensures f.StoreFails? ==> f == fault
      ensures f == L.DeliveryFails <==> byEmail && !fault.StoreFails? && (!emailConfigured || fault == L.DeliveryFails)
    {
      if fault.StoreFails? then fault
      else if !byEmail then L.NoFault
      else if !emailConfigured then L.DeliveryFails
      else fault
    }

    /** Stores the entry, unless the storage fails before it has written. */
    method Persist(key: string, cfg: Config, now: int, code: string, fault: L.Fault)
      requires storage.Separate()
      modifies storage
      ensures storage.Separate() && storage.OnlyAt(key)
      ensures storage.ScopeOf(key) == L.Persisted(cfg, old(storage.ScopeOf(key)), now, code, fault)
    {
      if fault != L.StoreFails(false) {
        var entry := new OtpEntry(StoredForm(code, cfg.hmac), now + cfg.ttl, 0, cfg.maxAttempts, false);
        storage.Set(key, entry);
      }
    }

    /** Stores the entry and delivers the code; whatever fails, the scope is released. */
    method PersistAndDeliver(key: string, cfg: Config, now: int, code: string, fault: L.Fault, cleanup: L.Cleanup,
                             error: Thrown, cleanupError: Thrown, ghost before: Heap)
      returns (thrown: Option<Thrown>, ghost report: Report)
      requires storage.Separate()
      requires Thrownable(error, before) && Thrownable(cleanupError, before) && Closed(before) && Shows(before)
      modifies storage, before.Keys
      ensures storage.Separate() && storage.OnlyAt(key)
      ensures var persisted := L.Persisted(cfg, old(storage.ScopeOf(key)), now, code, fault);
        storage.ScopeOf(key) == if fault == L.NoFault then persisted else L.Release(persisted, cleanup)
      ensures thrown == None <==> fault == L.NoFault
      ensures thrown.Some? ==> Shows(report.after)
      ensures thrown.Some? && Removable(code) ==>
        HidesIff(thrown.value, Reported(error, cleanup, cleanupError), Attached(before, error, cleanup, cleanupError), report, code)
      ensures thrown.Some? ==>
        IsScrubOf(thrown.value, Reported(error, cleanup, cleanupError), Attached(before, error, cleanup, cleanupError), report, code)
    {
      report := Report(before, map[]);
      Persist(key, cfg, now, code, fault);
      if fault == L.NoFault {
        return None, report;
      }
      var outgoing;
      outgoing, report := FailedOutgoing(key, error, cleanup, cleanupError, code, before);
      thrown := Some(outgoing);
    }

    /** Takes the cooldown, or says how long it still lasts. */
    method AcquireCooldownOrThrow(key: string, now: int, cooldown: int) returns (remaining: Option<int>)
      modifies storage
      ensures storage.OnlyAt(key) && (old(storage.Separate()) ==> storage.Separate())
      ensures var (locked, won) := OtpScope.TryAcquireCooldown(old(storage.ScopeOf(key)), now, cooldown);
        if won then remaining == None && storage.ScopeOf(key) == locked
        else remaining == Some(OtpScope.GetCooldown(locked, now).1) && storage.ScopeOf(key) == OtpScope.GetCooldown(locked, now).0
    {
      var acquired := storage.TryAcquireCooldown(key, now, cooldown);
      if acquired {
        return None;
      }
      var seconds := storage.GetCooldown(key, now);
      remaining := Some(seconds);
    }

    /** Draws a code, stores it and delivers it. */
    method IssueCode(key: string, cfg: Config, now: int, random: (nat, nat) -> nat, fault: L.Fault, cleanup: L.Cleanup,
                     error: Thrown, cleanupError: Thrown, ghost before: Heap)
      returns (outcome: GenerateOutcome, ghost code: string, ghost report: Report)
      requires storage.Separate()
      requires forall i: nat, bound: nat :: bound > 0 ==> random(i, bound) < bound
      requires Thrownable(error, before) && Thrownable(cleanupError, before) && Closed(before) && Shows(before)
      modifies storage, before.Keys
      ensures storage.Separate() && storage.OnlyAt(key)
      ensures IssuesAs(cfg, old(storage.ScopeOf(key)), now, code, fault, cleanup, outcome, storage.ScopeOf(key))
      ensures outcome.Failed? || outcome.Generated? ==> Drawn(code, cfg.length, cfg.codeType, random)
      ensures outcome.Failed? ==> Shows(report.after)
      ensures outcome.Failed? ==>
        HidesIff(outcome.outgoing, Reported(error, cleanup, cleanupError), Attached(before, error, cleanup, cleanupError), report, code)
      ensures outcome.Failed? ==>
        IsScrubOf(outcome.outgoing, Reported(error, cleanup, cleanupError), Attached(before, error, cleanup, cleanupError), report, code)
    {
      code, report := "", Report(before, map[]);
      var drawn := GenerateOtpCode(cfg.length, cfg.codeType, random);
      if drawn == None {
        return BadLength, code, report;
      }
      code := drawn.value;
      CodesAreHideable(code, cfg.length, cfg.codeType);
      var thrown;
      thrown, report := PersistAndDeliver(key, cfg, now, drawn.value, fault, cleanup, error, cleanupError, before);
      outcome := if thrown.Some? then Failed(thrown.value) else Generated(now + cfg.ttl, cfg.cooldown);
    }

    /** `generate`: issues a code for the scope. */
    method Generate(ref: Ref, byEmail: bool, now: int, random: (nat, nat) -> nat, fault: L.Fault, cleanup: L.Cleanup,
                    error: Thrown, cleanupError: Thrown, ghost before: Heap)
      returns (outcome: GenerateOutcome, ghost code: string, ghost report: Report)
      requires storage.Separate()
      requires forall i: nat, bound: nat :: bound > 0 ==> random(i, bound) < bound
      requires Thrownable(error, before) && Thrownable(cleanupError, before) && Closed(before) && Shows(before)
      modifies storage, before.Keys
      ensures storage.Separate() && OthersKept(ref) && storage.OnlyAt(KeyOf(ref))
      ensures match outcome
        case Refused(NotConfigured) => otp == None
        case Refused(BlankScope) => otp.Some? && !(Identifies(ref.tenant) && Identifies(ref.recipient))
        case Refused(ManualDeliveryUnavailable) =>
          otp.Some? && Identifies(ref.tenant) && Identifies(ref.recipient) && !byEmail && otp.value(ref.purpose).hmac.Some?
        case _ =>
          otp.Some? && Identifies(ref.tenant) && Identifies(ref.recipient) && (byEmail || otp.value(ref.purpose).hmac == None)
      ensures outcome.Refused? ==> storage.ScopeOf(KeyOf(ref)) == old(storage.ScopeOf(KeyOf(ref)))
      ensures !outcome.Refused? ==>
        GeneratesAs(otp.value(ref.purpose), old(storage.ScopeOf(KeyOf(ref))), now, code, FaultOf(byEmail, fault), cleanup,
                    outcome, storage.ScopeOf(KeyOf(ref)))
      // A store that fails is a failure; so is a delivery by email that fails, or that there is no provider for.
      ensures outcome.Generated? ==> !fault.StoreFails? && (byEmail ==> emailConfigured && fault == L.NoFault)
      ensures outcome.Failed? ==> fault.StoreFails? || (byEmail && (!emailConfigured || fault == L.DeliveryFails))
      ensures outcome.Failed? || outcome.Generated? ==> Drawn(code, otp.value(ref.purpose).length, otp.value(ref.purpose).codeType, random)
      ensures outcome.Failed? ==> Shows(report.after)
      ensures outcome.Failed? ==>
        HidesIff(outcome.outgoing, Reported(error, cleanup, cleanupError), Attached(before, error, cleanup, cleanupError), report, code)
      ensures outcome.Failed? ==>
        IsScrubOf(outcome.outgoing, Reported(error, cleanup, cleanupError), Attached(before, error, cleanup, cleanupError), report, code)
    {
      code, report := "", Report(before, map[]);
      ScopesOfRefs(ref);
      var refusal := Precheck(ref);
      if refusal.Some? {
        return Refused(refusal.value), code, report;
      }
      var cfg, key := otp.value(ref.purpose), KeyOf(ref);
      if cfg.hmac.Some? && !byEmail {
        return Refused(ManualDeliveryUnavailable), code, report;
      }
      var remaining := AcquireCooldownOrThrow(key, now, cfg.cooldown);
      if remaining.Some? {
        return Blocked(remaining.value), code, report;
      }
      outcome, code, report :=
        IssueCode(key, cfg, now, random, FaultOf(byEmail, fault), cleanup, error, cleanupError, before);
    }

    // ---------- verify and consume ----------

    /** The number of this attempt, or `None` when no code is live. */
    method CountAttempt(key: string, now: int, ttl: int) returns (attempt: Option<nat>)
      requires storage.Separate()
      modifies storage
      ensures storage.Separate() && storage.OnlyAt(key) && storage.store.Values <= old(storage.store.Values)
      ensures var s := OtpScope.Evict(old(storage.ScopeOf(key)), now);
        if s.entry == None then attempt == None && storage.ScopeOf(key) == s
        else attempt == Some(OtpScope.RecordFailure(s, now, ttl).1) && storage.ScopeOf(key) == OtpScope.RecordFailure(s, now, ttl).0
    {
      var live := storage.Get(key, now);
      if live == None {
        return None;
      }
      var count := storage.RecordFailure(key, now, ttl);
      attempt := Some(count);
    }

    /** Clears the counter, then consumes the entry or marks it validated. */
    method FinalizeVerifySuccess(key: string, entry: OtpEntry, consumeOnVerify: bool)
      requires storage.Separate() && key in storage.store && storage.store[key] == entry
      modifies storage
      ensures storage.Separate() && storage.OnlyAt(key)
      ensures storage.ScopeOf(key) == L.Finalized(old(storage.ScopeOf(key)), old(entry.Value()), consumeOnVerify)
    {
      storage.ClearFailures(key);
      if consumeOnVerify {
        storage.Delete(key);
        storage.ClearCooldown(key);
      } else {
        var validated := new OtpEntry(entry.code, entry.expiresAt, entry.attempts, entry.maxAttempts, true);
        storage.Update(key, validated);
      }
    }

    /** Consumes an attempt of the entry and compares the guess. */
    method Compare(key: string, cfg: Config, now: int, guess: string, attempt: nat) returns (result: L.VerifyResult)
      requires storage.Separate()
      modifies storage, storage.store.Values
      ensures storage.Separate() && storage.OnlyAt(key)
      ensures (storage.ScopeOf(key), result) == L.Compare(cfg, old(storage.ScopeOf(key)), now, guess, attempt)
    {
      var consumption := storage.ConsumeAttempt(key, now);
      match consumption {
        case NoEntry => return L.NoCode;
        case Exhausted => return L.TooMany;
        case Ok(entry) =>
          if !MatchesStoredCode(entry.code, guess, cfg.hmac) {
            return L.InvalidCode(Min(entry.maxAttempts - entry.attempts, cfg.maxAttempts - attempt));
          }
          FinalizeVerifySuccess(key, entry, cfg.consumeOnVerify);
          result := L.Valid;
      }
    }

    /** `verify`: checks a guess. */
    method Verify(ref: Ref, guess: string, now: int) returns (outcome: VerifyOutcome)
      requires storage.Separate()
      modifies storage, storage.store.Values
      ensures storage.Separate() && OthersKept(ref) && storage.OnlyAt(KeyOf(ref))
      ensures otp == None <==> outcome == VerifyRefused(NotConfigured)
      ensures otp.Some? && !(Identifies(ref.tenant) && Identifies(ref.recipient)) <==> outcome == VerifyRefused(BlankScope)
      ensures match outcome
        case VerifyRefused(why) => why != ManualDeliveryUnavailable && storage.ScopeOf(KeyOf(ref)) == old(storage.ScopeOf(KeyOf(ref)))
        case Answered(_) =>
          var (after, result) := L.Verify(otp.value(ref.purpose), old(storage.ScopeOf(KeyOf(ref))), now, guess);
          outcome == Answered(result) && storage.ScopeOf(KeyOf(ref)) == after
    {
      ScopesOfRefs(ref);
      var refusal := Precheck(ref);
      if refusal.Some? {
        return VerifyRefused(refusal.value);
      }
      var cfg, key := otp.value(ref.purpose), KeyOf(ref);
      var attempt := CountAttempt(key, now, cfg.ttl);
      if attempt == None {
        return Answered(L.NoCode);
      }
      if attempt.value > cfg.maxAttempts {
        return Answered(L.TooMany);
      }
      var result := Compare(key, cfg, now, guess, attempt.value);
      outcome := Answered(result);
    }

    /** `consume`: forgets everything about the scope. */
    method Consume(ref: Ref) returns (refusal: Option<Refusal>)
      requires storage.Separate()
      modifies storage
      ensures storage.Separate() && OthersKept(ref) && storage.OnlyAt(KeyOf(ref))
      ensures otp == None <==> refusal == Some(NotConfigured)
      ensures otp.Some? && !(Identifies(ref.tenant) && Identifies(ref.recipient)) <==> refusal == Some(BlankScope)
      ensures refusal != Some(ManualDeliveryUnavailable)
      ensures storage.ScopeOf(KeyOf(ref)) == if refusal == None then OtpScope.EMPTY else old(storage.ScopeOf(KeyOf(ref)))
    {
      ScopesOfRefs(ref);
      refusal := Precheck(ref);
      if refusal == None {
        storage.Delete(KeyOf(ref));
        storage.ClearCooldown(KeyOf(ref));
        storage.ClearFailures(KeyOf(ref));
      }
    }
  }

  /** What is done once the cooldown is taken, for some code of the configured length and type. With a
      length that no code can have nothing is done: the cooldown stays taken. */
  ghost predicate IssuesAs(cfg: Config, s: OtpScope.Scope, now: int, code: string, fault: L.Fault, cleanup: L.Cleanup,
                           outcome: GenerateOutcome, t: OtpScope.Scope) {
    if !ValidLength(cfg.length) then outcome == BadLength && t == s
    else
      && IsCode(code, cfg.length, cfg.codeType)
      && t == L.Issue(cfg, s, now, code, fault, cleanup)
      && (if fault == L.NoFault then outcome == Generated(now + cfg.ttl, cfg.cooldown) else outcome.Failed?)
  }

  /** A `generate` that is not refused is blocked, or takes the cooldown and issues a code. */
  ghost predicate GeneratesAs(cfg: Config, s: OtpScope.Scope, now: int, code: string, fault: L.Fault, cleanup: L.Cleanup,
                              outcome: GenerateOutcome, t: OtpScope.Scope) {
    var (locked, won) := OtpScope.TryAcquireCooldown(s, now, cfg.cooldown);
    if won then IssuesAs(cfg, locked, now, code, fault, cleanup, outcome, t)
    else outcome == Blocked(OtpScope.GetCooldown(locked, now).1) && t == OtpScope.GetCooldown(locked, now).0
  }

  /** `generate` is documented to release the cooldown when it fails. Past a free one, it keeps it, if and
      only if no code has the configured length or the cooldown could not be cleared. */
  lemma LockKeptIff(cfg: Config, s: OtpScope.Scope, now: int, code: string, fault: L.Fault, cleanup: L.Cleanup,
                    outcome: GenerateOutcome, t: OtpScope.Scope)
    requires GeneratesAs(cfg, s, now, code, fault, cleanup, outcome, t) && now > 0 && !C.Held(s.cooldown, now)
    requires outcome.BadLength? || outcome.Failed?
    ensures C.Held(t.cooldown, now) <==> cfg.cooldown > 0 && (!ValidLength(cfg.length) || cleanup == L.CooldownStuck)
  {
  }

  /** With a length that codes can have, that is what the lifecycle says, with the same answer. */
  lemma GeneratesLikeLifecycle(cfg: Config, s: OtpScope.Scope, now: int, code: string, fault: L.Fault, cleanup: L.Cleanup,
                               outcome: GenerateOutcome, t: OtpScope.Scope)
    requires ValidLength(cfg.length)
    ensures GeneratesAs(cfg, s, now, code, fault, cleanup, outcome, t) ==>
      var (after, result) := L.Generate(cfg, s, now, code, fault, cleanup);
      && t == after
      && match result
         case Issued(expiresAt, cooldown) => outcome == Generated(expiresAt, cooldown)
         case CooldownActive(remaining) => outcome == Blocked(remaining)
         case Undelivered => outcome.Failed?
  {
  }
}
