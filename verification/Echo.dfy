/** Finding quoted content: `collectEchoedExcerpts`, and the scrubs that compose it with redaction. */
module Echo {
  import opened Options
  import opened Text
  import opened Redaction
  import opened RedactionLaws

  const MIN_ECHO_LENGTH := 16

  // ---------- Specification ----------

  /** How many characters `text` from `i` and `reference` from `at` have in common. */
  function CommonRun(text: string, i: nat, reference: string, at: nat): (n: nat)
    requires i <= |text| && at <= |reference|
    ensures i + n <= |text| && at + n <= |reference| && text[i..i + n] == reference[at..at + n]
    decreases |text| - i
  {
    if i < |text| && at < |reference| && text[i] == reference[at] then
      var rest := CommonRun(text, i + 1, reference, at + 1);
      assert text[i..i + 1 + rest] == [text[i]] + text[i + 1..i + 1 + rest];
      assert reference[at..at + 1 + rest] == [reference[at]] + reference[at + 1..at + 1 + rest];
      rest + 1
    else 0
  }

  /** `n` characters of `text` from `i` on can be read somewhere in `reference`. */
  ghost predicate Echoes(text: string, reference: string, i: int, n: int) {
    0 <= i && 0 <= n && i + n <= |text| && Contains(reference, text[i..i + n])
  }

  /** `n` is the length of the longest echo that starts at `i`, or 0 when none reaches the minimum. */
  ghost predicate LongestEcho(text: string, reference: string, i: int, n: int) {
    && (n == 0 || (n >= MIN_ECHO_LENGTH && Echoes(text, reference, i, n)))
    && forall m :: m > n && m >= MIN_ECHO_LENGTH ==> !Echoes(text, reference, i, m)
  }

  /** `excerpts` is what a left-to-right scan from `i` on cuts out: at every position the longest
      echo, and behind it the next position. */
  ghost predicate ScanFrom(text: string, reference: string, i: nat, excerpts: seq<string>)
    decreases |text| - i
  {
    if i + MIN_ECHO_LENGTH > |text| then excerpts == []
    else if LongestEcho(text, reference, i, 0) then ScanFrom(text, reference, i + 1, excerpts)
    else
      && excerpts != []
      && |excerpts[0]| >= MIN_ECHO_LENGTH
      && OccursAt(text, excerpts[0], i)
      && LongestEcho(text, reference, i, |excerpts[0]|)
      && ScanFrom(text, reference, i + |excerpts[0]|, excerpts[1..])
  }

  // ---------- The algorithm ----------

  lemma CommonRunIsMaximal(text: string, i: nat, reference: string, at: nat, n: nat)
    requires i + n <= |text| && at + n <= |reference| && text[i..i + n] == reference[at..at + n]
    ensures n <= CommonRun(text, i, reference, at)
    decreases n
  {
    if n > 0 {
      assert text[i] == text[i..i + n][0] && reference[at] == reference[at..at + n][0];
      assert text[i + 1..i + n] == text[i..i + n][1..] && reference[at + 1..at + n] == reference[at..at + n][1..];
      CommonRunIsMaximal(text, i + 1, reference, at + 1, n - 1);
    }
  }

  /** Grows one anchored match character by character. */
  method ExtendMatch(text: string, index: nat, reference: string, at: nat) returns (length: nat)
    requires index + MIN_ECHO_LENGTH <= |text|
    requires OccursAt(reference, text[index..index + MIN_ECHO_LENGTH], at)
    ensures length == CommonRun(text, index, reference, at) >= MIN_ECHO_LENGTH
  {
    length := MIN_ECHO_LENGTH;
    ghost var all := CommonRun(text, index, reference, at);
    CommonRunIsMaximal(text, index, reference, at, MIN_ECHO_LENGTH);
    while index + length < |text| && at + length < |reference| && text[index + length] == reference[at + length]
      invariant length <= all
      decreases |text| - length
    {
      CommonRunStep(text, index, reference, at, length);
      length := length + 1;
    }
    CommonRunStep(text, index, reference, at, length);
  }

  /** The run goes on exactly as long as the next characters agree. */
  lemma CommonRunStep(text: string, i: nat, reference: string, at: nat, n: nat)
    requires i <= |text| && at <= |reference| && n <= CommonRun(text, i, reference, at)
    ensures n < CommonRun(text, i, reference, at) <==>
      i + n < |text| && at + n < |reference| && text[i + n] == reference[at + n]
    decreases n
  {
    if n > 0 {
      CommonRunStep(text, i + 1, reference, at + 1, n - 1);
    }
  }

  lemma RunEchoes(text: string, index: nat, reference: string, at: nat)
    requires index <= |text| && at <= |reference|
    ensures Echoes(text, reference, index, CommonRun(text, index, reference, at))
  {
    assert OccursAt(reference, text[index..index + CommonRun(text, index, reference, at)], at);
  }

  /** No run from a place before `next` is longer than the longest seen. */
  ghost predicate LongestBefore(text: string, index: nat, reference: string, window: string, at: int, longest: nat)
    requires index <= |text|
  {
    forall p {:trigger OccursAt(reference, window, p)} ::
      OccursAt(reference, window, p) && (at == -1 || p < at) ==> CommonRun(text, index, reference, p) <= longest
  }

  lemma NextPlace(text: string, index: nat, reference: string, window: string, at: int, longest: nat, next: int)
    requires index <= |text| && OccursAt(reference, window, at) && LongestBefore(text, index, reference, window, at, longest)
    requires next == -1 || at < next
    requires forall p :: at + 1 <= p && (next == -1 || p < next) ==> !OccursAt(reference, window, p)
    ensures LongestBefore(text, index, reference, window, next, Max(longest, CommonRun(text, index, reference, at)))
  {
  }

  /** The longest echo that starts at `index`, over all the places where its first window occurs. */
  method FindLongest(text: string, index: nat, reference: string) returns (longest: nat)
    requires index + MIN_ECHO_LENGTH <= |text|
    ensures LongestEcho(text, reference, index, longest)
  {
    var window := text[index..index + MIN_ECHO_LENGTH];
    longest := 0;
    var at := IndexOf(reference, window, 0);
    while at != -1
      invariant at == -1 || OccursAt(reference, window, at)
      invariant longest == 0 || (longest >= MIN_ECHO_LENGTH && Echoes(text, reference, index, longest))
      invariant LongestBefore(text, index, reference, window, at, longest)
      decreases if at == -1 then 0 else |reference| - at
    {
      var length := ExtendMatch(text, index, reference, at);
      RunEchoes(text, index, reference, at);
      var next := IndexOf(reference, window, at + 1);
      NextPlace(text, index, reference, window, at, longest, next);
      longest := Max(longest, length);
      at := next;
    }
    forall m | m > longest && m >= MIN_ECHO_LENGTH ensures !Echoes(text, reference, index, m) {
      NoLongerEcho(text, index, reference, longest, m);
    }
  }

  lemma NoLongerEcho(text: string, index: nat, reference: string, longest: nat, m: nat)
    requires index + MIN_ECHO_LENGTH <= |text| && m > longest && m >= MIN_ECHO_LENGTH
    requires forall p :: OccursAt(reference, text[index..index + MIN_ECHO_LENGTH], p) ==>
      CommonRun(text, index, reference, p) <= longest
    ensures !Echoes(text, reference, index, m)
  {
    if index + m <= |text| {
      var run := text[index..index + m];
      forall p ensures !OccursAt(reference, run, p) {
        if OccursAt(reference, run, p) {
          SliceOfSlice(reference, p, p + m, 0, MIN_ECHO_LENGTH);
          SliceOfSlice(text, index, index + m, 0, MIN_ECHO_LENGTH);
          CommonRunIsMaximal(text, index, reference, p, m);
        }
      }
    }
  }

  /** Whatever a scan from `index` finds completes `found` to a scan of the whole text. */
  ghost predicate ScannedTo(text: string, reference: string, index: nat, found: seq<string>) {
    forall more :: ScanFrom(text, reference, index, more) ==> ScanFrom(text, reference, 0, found + more)
  }

  lemma ScanTakes(text: string, reference: string, index: nat, found: seq<string>, n: nat)
    requires index + n <= |text| && n >= MIN_ECHO_LENGTH
    requires LongestEcho(text, reference, index, n) && ScannedTo(text, reference, index, found)
    ensures ScannedTo(text, reference, index + n, found + [text[index..index + n]])
  {
    var excerpt := text[index..index + n];
    forall more | ScanFrom(text, reference, index + n, more)
      ensures ScanFrom(text, reference, 0, found + [excerpt] + more)
    {
      assert ([excerpt] + more)[1..] == more;
      assert !LongestEcho(text, reference, index, 0);
      assert ScanFrom(text, reference, index, [excerpt] + more);
      assert found + [excerpt] + more == found + ([excerpt] + more);
    }
  }

  method CollectEchoedExcerpts(text: string, reference: string) returns (excerpts: seq<string>)
    ensures ScanFrom(text, reference, 0, excerpts)
  {
    excerpts := [];
    var index: nat := 0;
    assert forall more: seq<string> :: [] + more == more;
    while index + MIN_ECHO_LENGTH <= |text|
      invariant ScannedTo(text, reference, index, excerpts)
      decreases |text| - index
    {
      var longest := FindLongest(text, index, reference);
      if longest == 0 {
        index := index + 1;
      } else {
        ScanTakes(text, reference, index, excerpts, longest);
        excerpts := excerpts + [text[index..index + longest]];
        index := index + longest;
      }
    }
    assert ScanFrom(text, reference, index, []);
    assert excerpts + [] == excerpts;
  }

  // ---------- What the scan guarantees ----------

  /** Every echoed window of the text starts inside an occurrence of some excerpt. */
  lemma {:induction false} WindowStartsInExcerpt(text: string, reference: string, i: nat, excerpts: seq<string>, s: nat)
    requires ScanFrom(text, reference, i, excerpts)
    requires i <= s && Echoes(text, reference, s, MIN_ECHO_LENGTH)
    ensures exists start, end :: IsMatch(text, ValueSet(excerpts), start, end) && start <= s < end
    decreases |text| - i
  {
    if LongestEcho(text, reference, i, 0) {
      assert s != i;
      WindowStartsInExcerpt(text, reference, i + 1, excerpts, s);
    } else if s < i + |excerpts[0]| {
      assert IsMatch(text, ValueSet(excerpts), i, i + |excerpts[0]|);
    } else {
      WindowStartsInExcerpt(text, reference, i + |excerpts[0]|, excerpts[1..], s);
      var start, end :| IsMatch(text, ValueSet(excerpts[1..]), start, end) && start <= s < end;
      assert IsMatch(text, ValueSet(excerpts), start, end);
    }
  }

  /** Every excerpt is quoted from the reference, and is long enough to be an echo. */
  lemma {:induction false} ExcerptsAreEchoes(text: string, reference: string, i: nat, excerpts: seq<string>, n: nat)
    requires ScanFrom(text, reference, i, excerpts) && n < |excerpts|
    ensures |excerpts[n]| >= MIN_ECHO_LENGTH && Contains(reference, excerpts[n]) && Contains(text, excerpts[n])
    decreases |text| - i
  {
    if LongestEcho(text, reference, i, 0) {
      ExcerptsAreEchoes(text, reference, i + 1, excerpts, n);
    } else if n > 0 {
      ExcerptsAreEchoes(text, reference, i + |excerpts[0]|, excerpts[1..], n - 1);
    } else {
      assert Echoes(text, reference, i, |excerpts[0]|);
    }
  }

  /** The scan has one answer. */
  lemma {:induction false} ScanIsUnique(text: string, reference: string, i: nat, a: seq<string>, b: seq<string>)
    requires ScanFrom(text, reference, i, a) && ScanFrom(text, reference, i, b)
    ensures a == b
    decreases |text| - i
  {
    if i + MIN_ECHO_LENGTH > |text| {
    } else if LongestEcho(text, reference, i, 0) {
      ScanIsUnique(text, reference, i + 1, a, b);
    } else {
      assert |a[0]| == |b[0]|;
      ScanIsUnique(text, reference, i + |a[0]|, a[1..], b[1..]);
      assert a == [a[0]] + a[1..] && b == [b[0]] + b[1..];
    }
  }

  // ---------- The transport scrub ----------

  datatype Credentials = Credentials(user: Option<string>, pass: Option<string>)

  /** The configured credentials that are secret material: those present and not blank. */
  function CredentialValues(credentials: Option<Credentials>): seq<string> {
    match credentials
    case None => []
    case Some(c) =>
      (if c.user.Some? && c.user.value != "" then [c.user.value] else [])
      + (if c.pass.Some? && c.pass.value != "" then [c.pass.value] else [])
  }

  /** The caller declared `v`, or it is the configured user or password; nothing blank is. */
  predicate IsSecret(v: string, declared: seq<string>, credentials: Option<Credentials>) {
    && v != ""
    && (v in declared || (credentials.Some? && (credentials.value.user == Some(v) || credentials.value.pass == Some(v))))
  }

  lemma CredentialsAreSecrets(declared: seq<string>, credentials: Option<Credentials>, v: string)
    ensures v != "" ==> (v in declared + CredentialValues(credentials) <==> IsSecret(v, declared, credentials))
  {
  }

  /** The values a scrub of `message` must remove: echoed excerpts of both bodies, what the caller
      declared, and the credentials. */
  ghost predicate ScrubValues(message: string, html: string, text: Option<string>, others: seq<string>, values: set<string>) {
    exists a, b ::
      && ScanFrom(message, html, 0, a)
      && (if text.Some? then ScanFrom(message, text.value, 0, b) else b == [])
      && values == ValueSet(a + b + others)
  }

  method ScrubTransportError(message: string, html: string, text: Option<string>,
                             declared: seq<string>, credentials: Option<Credentials>)
    returns (scrubbed: string, ghost values: set<string>)
    ensures ScrubValues(message, html, text, declared + CredentialValues(credentials), values)
    ensures scrubbed == Redacted(message, values)
    // Whatever it is called above: no stretch of the result shows a secret or a long run of a body.
    ensures scrubbed == Join(Stretches(message, values), MARKER)
    ensures forall i, v :: 0 <= i < |Stretches(message, values)| && Forbidden(v, html, text, declared, credentials) ==>
      !Contains(Stretches(message, values)[i], v)
    // And nothing is removed but secrets and quotes of a body.
    ensures forall v :: v in values && v != "" ==> IsSecret(v, declared, credentials) || IsQuote(v, message, html, text)
    ensures (forall v :: IsSecret(v, declared, credentials) || IsQuote(v, message, html, text) ==> !Contains(message, v))
      ==> scrubbed == message
  {
    var list := CollectEchoedExcerpts(message, html);
    ghost var a := list;
    ghost var b: seq<string> := [];
    if text.Some? {
      var more := CollectEchoedExcerpts(message, text.value);
      b := more;
      list := list + more;
    }
    assert list == a + b;
    list := list + declared;
    list := list + CredentialValues(credentials);
    assert list == a + b + (declared + CredentialValues(credentials));
    values := ValueSet(list);
    scrubbed := RedactValues(message, list);
    ScrubShowsNothing(message, html, text, declared, credentials, values);
    OnlyWhatMustGoes(message, html, text, declared, credentials, a, b, values);
    NothingToScrub(message, html, text, declared, credentials, values);
  }

  /** A secret, or 16 consecutive characters of a body. */
  ghost predicate Forbidden(v: string, html: string, text: Option<string>, declared: seq<string>, credentials: Option<Credentials>) {
    || IsSecret(v, declared, credentials)
    || (|v| == MIN_ECHO_LENGTH && (Contains(html, v) || (text.Some? && Contains(text.value, v))))
  }

  /** At least 16 characters that the message and a body have in common. */
  ghost predicate IsQuote(v: string, message: string, html: string, text: Option<string>) {
    |v| >= MIN_ECHO_LENGTH && Contains(message, v) && (Contains(html, v) || (text.Some? && Contains(text.value, v)))
  }

  lemma ScrubShowsNothing(message: string, html: string, text: Option<string>, declared: seq<string>,
                          credentials: Option<Credentials>, values: set<string>)
    requires ScrubValues(message, html, text, declared + CredentialValues(credentials), values)
    ensures Redacted(message, values) == Join(Stretches(message, values), MARKER)
    ensures forall i, v :: 0 <= i < |Stretches(message, values)| && Forbidden(v, html, text, declared, credentials) ==>
      !Contains(Stretches(message, values)[i], v)
  {
    OutputIsStretches(message, values, 0);
    forall i, v | 0 <= i < |Stretches(message, values)| && Forbidden(v, html, text, declared, credentials)
      ensures !Contains(Stretches(message, values)[i], v)
    {
      CredentialsAreSecrets(declared, credentials, v);
      ScrubLeavesNothing(message, html, text, declared + CredentialValues(credentials), values, i, v);
    }
  }

  lemma OnlyWhatMustGoes(message: string, html: string, text: Option<string>, declared: seq<string>, credentials: Option<Credentials>,
                         a: seq<string>, b: seq<string>, values: set<string>)
    requires ScanFrom(message, html, 0, a) && (if text.Some? then ScanFrom(message, text.value, 0, b) else b == [])
    requires values == ValueSet(a + b + (declared + CredentialValues(credentials)))
    ensures forall v :: v in values && v != "" ==> IsSecret(v, declared, credentials) || IsQuote(v, message, html, text)
  {
    forall v | v in values && v != "" ensures IsSecret(v, declared, credentials) || IsQuote(v, message, html, text) {
      CredentialsAreSecrets(declared, credentials, v);
      if n: nat :| n < |a| && a[n] == v {
        ExcerptsAreEchoes(message, html, 0, a, n);
      } else if n: nat :| n < |b| && b[n] == v {
        ExcerptsAreEchoes(message, text.value, 0, b, n);
      }
    }
  }

  /** A message with no secret in it and nothing quoted stays as it is. */
  lemma NothingToScrub(message: string, html: string, text: Option<string>, declared: seq<string>,
                       credentials: Option<Credentials>, values: set<string>)
    requires forall v :: v in values && v != "" ==> IsSecret(v, declared, credentials) || IsQuote(v, message, html, text)
    ensures (forall v :: IsSecret(v, declared, credentials) || IsQuote(v, message, html, text) ==> !Contains(message, v))
      ==> Redacted(message, values) == message
  {
    if forall v :: IsSecret(v, declared, credentials) || IsQuote(v, message, html, text) ==> !Contains(message, v) {
      Untouched(message, values);
    }
  }

  /** Where every echoed window has its start dropped, no kept stretch contains a long run of the reference. */
  lemma CoveredWindowsAreGone(message: string, reference: string, values: set<string>, i: nat, run: string)
    requires forall s :: Echoes(message, reference, s, MIN_ECHO_LENGTH) ==> Covered(message, values, s)
    requires i < |Stretches(message, values)| && |run| == MIN_ECHO_LENGTH && Contains(reference, run)
    ensures !Contains(Stretches(message, values)[i], run)
  {
    StretchesAreKept(message, values, 0);
    var stretch := Stretches(message, values)[i];
    assert Kept(message, values, stretch);
    var at :| KeptAt(message, values, stretch, at);
    forall off ensures !OccursAt(stretch, run, off) {
      if 0 <= off && off + |run| <= |stretch| {
        SliceOfSlice(message, at, at + |stretch|, off, off + |run|);
        assert !Echoes(message, reference, at + off, MIN_ECHO_LENGTH);
      }
    }
  }

  /** A kept stretch contains no long run of a scanned reference. */
  lemma StretchesCarryNoEcho(message: string, reference: string, excerpts: seq<string>, values: set<string>,
                             i: nat, run: string)
    requires ScanFrom(message, reference, 0, excerpts) && ValueSet(excerpts) <= values
    requires i < |Stretches(message, values)| && |run| == MIN_ECHO_LENGTH && Contains(reference, run)
    ensures !Contains(Stretches(message, values)[i], run)
  {
    forall s | Echoes(message, reference, s, MIN_ECHO_LENGTH) ensures Covered(message, values, s) {
      WindowStartsInExcerpt(message, reference, 0, excerpts, s);
      var start, end :| IsMatch(message, ValueSet(excerpts), start, end) && start <= s < end;
      assert IsMatch(message, values, start, end);
    }
    CoveredWindowsAreGone(message, reference, values, i, run);
  }

  /** The scrubbed message is made of stretches of the original and markers; no stretch contains a
      declared value, a credential, or 16 consecutive characters of either body. */
  lemma ScrubLeavesNothing(message: string, html: string, text: Option<string>, others: seq<string>,
                           values: set<string>, i: nat, forbidden: string)
    requires ScrubValues(message, html, text, others, values)
    requires i < |Stretches(message, values)|
    requires || (forbidden in others && forbidden != "")
             || (|forbidden| == MIN_ECHO_LENGTH && Contains(html, forbidden))
             || (|forbidden| == MIN_ECHO_LENGTH && text.Some? && Contains(text.value, forbidden))
    ensures !Contains(Stretches(message, values)[i], forbidden)
    ensures Redacted(message, values) == Join(Stretches(message, values), MARKER)
  {
    OutputIsStretches(message, values, 0);
    var a, b :|
      && ScanFrom(message, html, 0, a)
      && (if text.Some? then ScanFrom(message, text.value, 0, b) else b == [])
      && values == ValueSet(a + b + others);
    if forbidden in others && forbidden != "" {
      StretchesCarryNoSecret(message, values, i, forbidden);
    } else if Contains(html, forbidden) {
      StretchesCarryNoEcho(message, html, a, values, i, forbidden);
    } else {
      StretchesCarryNoEcho(message, text.value, b, values, i, forbidden);
    }
  }
}
