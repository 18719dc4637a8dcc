/** The same scope kept in Redis: three keys with deadlines of their own. It answers as the in-memory
    scope does, but for the cases named here. */
module RedisScope {
  import opened Options
  import opened OtpScope
  import F = CounterLog
  import C = CooldownLog

  /** A key that is set, with the moment it expires, if it does. */
  datatype Key<V> = Key(value: V, deadline: Option<int>)

  datatype Keys = Keys(entry: Option<Key<Entry>>, cooldown: Option<Key<()>>, failures: Option<Key<nat>>)

  /** Whether a key is there. In the very millisecond of its deadline it may or may not be: `lingers`
      says which. */
  predicate Alive<V>(key: Option<Key<V>>, now: int, lingers: bool) {
    key.Some? && (key.value.deadline.Some? ==> now < key.value.deadline.value || (lingers && now == key.value.deadline.value))
  }

  predicate DueAt<V>(key: Option<Key<V>>, now: int) {
    key.Some? && key.value.deadline == Some(now)
  }

  /** Whole seconds, at least one, in milliseconds. */
  function Lifetime(ms: int): int {
    1000 * if CeilSeconds(ms) < 1 then 1 else CeilSeconds(ms)
  }

  // ---------- The operations ----------

  function Set(k: Keys, now: int, entry: Entry): Keys {
    k.(entry := Some(Key(entry, Some(now + Lifetime(entry.expiresAt - now)))))
  }

  /** `get` looks at the key only, not at the expiry of the entry in it. */
  function Get(k: Keys, now: int, lingers: bool): Option<Entry> {
    if Alive(k.entry, now, lingers) then Some(k.entry.value.value) else None
  }

  /** Rewriting a key in its last moment, when no time is left to give it, makes it permanent. */
  function RewrittenDeadline(deadline: Option<int>, now: int): Option<int> {
    if deadline.Some? && deadline.value > now then deadline else None
  }

  function ConsumeAttempt(k: Keys, now: int, lingers: bool): (Keys, ConsumeResult) {
    match Get(k, now, lingers)
    case None => (k, NotFound)
    case Some(e) =>
      if e.expiresAt < now then (k.(entry := None), NotFound)
      else if e.attempts >= e.maxAttempts then (k.(entry := None), MaxAttempts)
      else
        var counted := e.(attempts := e.attempts + 1);
        (k.(entry := Some(Key(counted, RewrittenDeadline(k.entry.value.deadline, now)))), Consumed(counted))
  }

  function Update(k: Keys, now: int, lingers: bool, entry: Entry): Keys {
    if Alive(k.entry, now, lingers) then k.(entry := Some(Key(entry, k.entry.value.deadline))) else k
  }

  function TryAcquireCooldown(k: Keys, now: int, lingers: bool, seconds: int): (Keys, bool) {
    if seconds <= 0 then (k.(cooldown := None), true)
    else if Alive(k.cooldown, now, lingers) then (k, false)
    else (k.(cooldown := Some(Key((), Some(now + 1000 * seconds)))), true)
  }

  function GetFailures(k: Keys, now: int, lingers: bool): nat {
    if Alive(k.failures, now, lingers) then k.failures.value.value else 0
  }

  function RecordFailure(k: Keys, now: int, lingers: bool, ttl: int): (Keys, nat) {
    var count := GetFailures(k, now, lingers) + 1;
    (k.(failures := Some(Key(count, Some(now + Lifetime(ttl))))), count)
  }

  // ---------- When both hold the same ----------

  /** The keys expire no earlier than the entry in them, and an entry that is live in one is live in both. */
  predicate EntryMatches(k: Option<Key<Entry>>, e: Option<Entry>, now: int) {
    && (k.Some? && k.value.deadline.Some? ==> k.value.value.expiresAt <= k.value.deadline.value)
    && (k.Some? && Live(k.value.value, now) ==> e == Some(k.value.value))
    && (e.Some? && Live(e.value, now) ==> k.Some? && k.value.value == e.value)
  }

  predicate CooldownMatches(k: Option<Key<()>>, c: C.Cooldown, now: int) {
    && (C.Held(c, now) <==> Alive(k, now, false))
    && (C.Held(c, now) ==> k.value.deadline == Some(c.expiry))
  }

  predicate FailuresMatch(k: Option<Key<nat>>, c: F.Counter, now: int) {
    && F.LiveFailures(c, now) == (if Alive(k, now, false) then k.value.value else 0)
    && (k.Some? ==> k.value.value > 0 && k.value.deadline.Some?)
    && (F.LiveFailures(c, now) > 0 ==> k.value.deadline == Some(c.expiresAt))
  }

  predicate Matches(k: Keys, s: Scope, now: int) {
    && EntryMatches(k.entry, s.entry, now)
    && CooldownMatches(k.cooldown, s.cooldown, now)
    && FailuresMatch(k.failures, s.failures, now)
  }

  /** As time passes the two keep matching. */
  lemma StillMatches(k: Keys, s: Scope, now: int, later: int)
    requires Matches(k, s, now) && now <= later
    ensures Matches(k, s, later)
  {
  }

  // ---------- Calls and their answers ----------

  datatype Op =
    | SetEntry(entry: Entry) | GetEntry | Attempt | UpdateEntry(entry: Entry) | DeleteEntry
    | Acquire(seconds: int) | ClearCooldown
    | Record(ttl: int) | CountFailures | ClearFailures

  datatype Answer = Done | Found(entry: Option<Entry>) | Attempted(result: ConsumeResult) | Acquired(won: bool) | Count(n: nat)

  /** `lingers` says whether a key whose deadline is this very millisecond is still there. */
  datatype Call = Call(at: int, op: Op, lingers: bool)

  function MemoryStep(s: Scope, c: Call): (Scope, Answer) {
    match c.op
    case SetEntry(entry) => (s.(entry := Some(entry)), Done)
    case GetEntry => (Evict(s, c.at), Found(OtpScope.Get(s, c.at)))
    case Attempt => var (t, result) := OtpScope.ConsumeAttempt(s, c.at); (t, Attempted(result))
    case UpdateEntry(entry) => (OtpScope.Update(s, entry), Done)
    case DeleteEntry => (s.(entry := None), Done)
    case Acquire(seconds) => var (t, won) := OtpScope.TryAcquireCooldown(s, c.at, 1000 * seconds); (t, Acquired(won))
    case ClearCooldown => (s.(cooldown := C.Free), Done)
    case Record(ttl) => var (t, count) := OtpScope.RecordFailure(s, c.at, ttl); (t, Count(count))
    case CountFailures => var (t, count) := OtpScope.GetFailures(s, c.at); (t, Count(count))
    case ClearFailures => (s.(failures := F.NoCounter), Done)
  }

  function RedisStep(k: Keys, c: Call): (Keys, Answer) {
    match c.op
    case SetEntry(entry) => (Set(k, c.at, entry), Done)
    case GetEntry => (k, Found(Get(k, c.at, c.lingers)))
    case Attempt => var (t, result) := ConsumeAttempt(k, c.at, c.lingers); (t, Attempted(result))
    case UpdateEntry(entry) => (Update(k, c.at, c.lingers, entry), Done)
    case DeleteEntry => (k.(entry := None), Done)
    case Acquire(seconds) => var (t, won) := TryAcquireCooldown(k, c.at, c.lingers, seconds); (t, Acquired(won))
    case ClearCooldown => (k.(cooldown := None), Done)
    case Record(ttl) => var (t, count) := RecordFailure(k, c.at, c.lingers, ttl); (t, Count(count))
    case CountFailures => (k, Count(GetFailures(k, c.at, c.lingers)))
    case ClearFailures => (k.(failures := None), Done)
  }

  /** Equal answers, but that Redis may still answer an entry that has expired. */
  predicate Agree(redis: Answer, memory: Answer, now: int) {
    redis == memory || (redis.Found? && redis.entry.Some? && !Live(redis.entry.value, now) && memory == Found(None))
  }

  /** The call does not come in the last millisecond of a live entry whose key is gone by then. */
  predicate EntryInTime(k: Keys, c: Call) {
    c.lingers || !DueAt(k.entry, c.at) || !Live(k.entry.value.value, c.at)
  }

  /** What an update must observe: it does not outlive the key, and what it makes live is in the memory too.
      When the key is gone it must not make anything live. */
  predicate UpdateFits(k: Keys, s: Scope, c: Call, entry: Entry) {
    if Alive(k.entry, c.at, c.lingers) then
      && (k.entry.value.deadline.Some? ==> entry.expiresAt <= k.entry.value.deadline.value)
      && (Live(entry, c.at) ==> s.entry.Some?)
    else
      && (k.entry.Some? && Live(k.entry.value.value, c.at) ==> entry == k.entry.value.value)
      && (s.entry.Some? && Live(entry, c.at) ==> k.entry.Some? && k.entry.value.value == entry)
  }

  /** What a call must observe for the storages to go on alike: no call in the millisecond of a deadline (for
      entries if the key is gone by then, for the others if it is still there), no update that outlives the
      key or revives an entry, no cooldown without a length on a held one, counter lifetimes in whole seconds. */
  predicate Fits(k: Keys, s: Scope, c: Call) {
    match c.op
    case Attempt => EntryInTime(k, c)
    case GetEntry => EntryInTime(k, c)
    case UpdateEntry(entry) => UpdateFits(k, s, c, entry)
    case Acquire(seconds) => if seconds <= 0 then !C.Held(s.cooldown, c.at) else !c.lingers || !DueAt(k.cooldown, c.at)
    case Record(ttl) => (!c.lingers || !DueAt(k.failures, c.at)) && Lifetime(ttl) == ttl
    case CountFailures => !c.lingers || !DueAt(k.failures, c.at)
    case _ => true
  }

  /** A call leaves the two storages alike and is answered alike. */
  predicate StaysAlike(k: Keys, s: Scope, c: Call) {
    && Matches(RedisStep(k, c).0, MemoryStep(s, c).0, c.at)
    && Agree(RedisStep(k, c).1, MemoryStep(s, c).1, c.at)
  }

  lemma LifetimeCovers(ms: int)
    ensures ms <= Lifetime(ms) && 1000 <= Lifetime(ms)
    ensures ms >= 0 ==> Lifetime(ms) <= ms + 1000
    ensures ms > 0 && ms % 1000 == 0 ==> Lifetime(ms) == ms
  {
  }

  lemma AttemptAgrees(k: Keys, s: Scope, now: int, lingers: bool)
    requires EntryMatches(k.entry, s.entry, now)
    requires lingers || !DueAt(k.entry, now) || !Live(k.entry.value.value, now)
    ensures ConsumeAttempt(k, now, lingers).1 == OtpScope.ConsumeAttempt(s, now).1
    ensures EntryMatches(ConsumeAttempt(k, now, lingers).0.entry, OtpScope.ConsumeAttempt(s, now).0.entry, now)
  {
    assert OtpScope.Get(s, now).Some? ==> Get(k, now, lingers) == OtpScope.Get(s, now);
    assert Get(k, now, lingers).Some? && Live(k.entry.value.value, now) ==> OtpScope.Get(s, now) == Get(k, now, lingers);
  }

  lemma UpdateMatchesIff(k: Keys, s: Scope, c: Call, entry: Entry)
    requires EntryMatches(k.entry, s.entry, c.at)
    ensures EntryMatches(Update(k, c.at, c.lingers, entry).entry, OtpScope.Update(s, entry).entry, c.at) <==> UpdateFits(k, s, c, entry)
  {
  }

  predicate OnEntry(op: Op) {
    op.SetEntry? || op.GetEntry? || op.Attempt? || op.UpdateEntry? || op.DeleteEntry?
  }

  predicate OnCooldown(op: Op) {
    op.Acquire? || op.ClearCooldown?
  }

  lemma EntryStepIff(k: Keys, s: Scope, c: Call)
    requires EntryMatches(k.entry, s.entry, c.at) && OnEntry(c.op)
    ensures EntryMatches(RedisStep(k, c).0.entry, MemoryStep(s, c).0.entry, c.at) && Agree(RedisStep(k, c).1, MemoryStep(s, c).1, c.at)
      <==> Fits(k, s, c)
    ensures RedisStep(k, c).0.(entry := None) == k.(entry := None)
    ensures MemoryStep(s, c).0.(entry := None) == s.(entry := None)
  {
    match c.op {
      case SetEntry(entry) => LifetimeCovers(entry.expiresAt - c.at);
      case Attempt =>
        if EntryInTime(k, c) {
          AttemptAgrees(k, s, c.at, c.lingers);
        }
      case UpdateEntry(entry) => UpdateMatchesIff(k, s, c, entry);
      case _ =>
    }
  }

  lemma CooldownStepIff(k: Keys, s: Scope, c: Call)
    requires CooldownMatches(k.cooldown, s.cooldown, c.at) && c.at > 0 && OnCooldown(c.op)
    ensures CooldownMatches(RedisStep(k, c).0.cooldown, MemoryStep(s, c).0.cooldown, c.at) && RedisStep(k, c).1 == MemoryStep(s, c).1
      <==> Fits(k, s, c)
    ensures RedisStep(k, c).0.(cooldown := None) == k.(cooldown := None)
    ensures MemoryStep(s, c).0.(cooldown := C.Free) == s.(cooldown := C.Free)
  {
  }

  lemma FailuresStepIff(k: Keys, s: Scope, c: Call)
    requires FailuresMatch(k.failures, s.failures, c.at) && !OnEntry(c.op) && !OnCooldown(c.op)
    ensures FailuresMatch(RedisStep(k, c).0.failures, MemoryStep(s, c).0.failures, c.at) && RedisStep(k, c).1 == MemoryStep(s, c).1
      <==> Fits(k, s, c)
    ensures RedisStep(k, c).0.(failures := None) == k.(failures := None)
    ensures MemoryStep(s, c).0.(failures := F.NoCounter) == s.(failures := F.NoCounter)
  {
    if c.op.Record? {
      LifetimeCovers(c.op.ttl);
    }
  }

  /** A call keeps both alike and is answered alike, if and only if it observes its conditions. */
  lemma StepAgreesIff(k: Keys, s: Scope, c: Call)
    requires Matches(k, s, c.at) && c.at > 0
    ensures StaysAlike(k, s, c) <==> Fits(k, s, c)
  {
    if OnEntry(c.op) {
      EntryStepIff(k, s, c);
    } else if OnCooldown(c.op) {
      CooldownStepIff(k, s, c);
    } else {
      FailuresStepIff(k, s, c);
    }
  }

  // ---------- Whole runs ----------

  const NO_KEYS := Keys(None, None, None)

  function MemoryAfter(calls: seq<Call>): Scope
    decreases |calls|
  {
    if calls == [] then EMPTY else MemoryStep(MemoryAfter(calls[..|calls| - 1]), calls[|calls| - 1]).0
  }

  function RedisAfter(calls: seq<Call>): Keys
    decreases |calls|
  {
    if calls == [] then NO_KEYS else RedisStep(RedisAfter(calls[..|calls| - 1]), calls[|calls| - 1]).0
  }

  /** Time has started and does not run backwards. */
  predicate InOrder(calls: seq<Call>) {
    forall i: nat :: i < |calls| ==> calls[i].at > 0 && (i > 0 ==> calls[i - 1].at <= calls[i].at)
  }

  predicate FitsAt(calls: seq<Call>, i: nat)
    requires i < |calls|
  {
    Fits(RedisAfter(calls[..i]), MemoryAfter(calls[..i]), calls[i])
  }

  predicate AlikeAt(calls: seq<Call>, i: nat)
    requires i < |calls|
  {
    StaysAlike(RedisAfter(calls[..i]), MemoryAfter(calls[..i]), calls[i])
  }

  lemma AlikeAtIff(calls: seq<Call>, i: nat)
    requires InOrder(calls) && i < |calls| && (i > 0 ==> AlikeAt(calls, i - 1))
    ensures AlikeAt(calls, i) <==> FitsAt(calls, i)
  {
    var k, s := RedisAfter(calls[..i]), MemoryAfter(calls[..i]);
    if i > 0 {
      assert calls[..i][..i - 1] == calls[..i - 1];
      StillMatches(k, s, calls[i - 1].at, calls[i].at);
    }
    StepAgreesIff(k, s, calls[i]);
  }

  lemma {:induction false} FitsUpTo(calls: seq<Call>, i: nat)
    requires InOrder(calls) && i < |calls| && forall j: nat :: j <= i ==> FitsAt(calls, j)
    ensures AlikeAt(calls, i)
  {
    if i > 0 {
      FitsUpTo(calls, i - 1);
    }
    AlikeAtIff(calls, i);
  }

  /** In every run, Redis and the memory stay alike and answer every call alike, if and only if every call
      observes its conditions when it comes. */
  lemma RunAgreesIff(calls: seq<Call>)
    requires InOrder(calls)
    ensures (forall i: nat :: i < |calls| ==> AlikeAt(calls, i)) <==> (forall i: nat :: i < |calls| ==> FitsAt(calls, i))
  {
    forall i: nat | i < |calls| && forall j: nat :: j < |calls| ==> AlikeAt(calls, j) ensures FitsAt(calls, i) {
      assert i > 0 ==> AlikeAt(calls, i - 1);
      AlikeAtIff(calls, i);
    }
    forall i: nat | i < |calls| && forall j: nat :: j < |calls| ==> FitsAt(calls, j) ensures AlikeAt(calls, i) {
      FitsUpTo(calls, i);
    }
  }

  // ---------- How far `get` lags ----------

  /** The key can outlive the entry in it by a second or more. */
  predicate Overdue(k: Option<Key<Entry>>) {
    k.Some? && (k.value.deadline.Some? ==> k.value.deadline.value > k.value.value.expiresAt + 1000)
  }

  /** `get` answers an entry a second or more after it expired, whatever happens in the key's last millisecond. */
  predicate AnswersLate(k: Keys, now: int) {
    Get(k, now, false).Some? && now >= Get(k, now, false).value.expiresAt + 1000
  }

  /** From some moment on a read can be late, if and only if the key outlives its entry by more than a
      second and has not expired itself. */
  lemma LateIff(k: Keys, from: int)
    ensures (exists now :: now >= from && AnswersLate(k, now))
      <==> Overdue(k.entry) && Alive(k.entry, from, false)
  {
    if Overdue(k.entry) && Alive(k.entry, from, false) {
      var expired := k.entry.value.value.expiresAt + 1000;
      assert AnswersLate(k, if from < expired then expired else from);
    }
  }

  /** The calls that make a key outlive its entry: an entry set after its expiry, an attempt in the last
      millisecond of the key, and an update that moves the expiry back by more than the key can spare. */
  predicate MakesOverdue(k: Keys, c: Call) {
    match c.op
    case SetEntry(entry) => entry.expiresAt < c.at
    case Attempt => ConsumeAttempt(k, c.at, c.lingers).1.Consumed? && DueAt(k.entry, c.at)
    case UpdateEntry(entry) =>
      Alive(k.entry, c.at, c.lingers) && (k.entry.value.deadline.Some? ==> entry.expiresAt < k.entry.value.deadline.value - 1000)
    case _ => false
  }

  /** The calls that end it: a prompt set, the removal of the entry, and an update that moves the expiry
      close enough to the deadline. */
  predicate EndsOverdue(k: Keys, c: Call) {
    match c.op
    case SetEntry(entry) => entry.expiresAt >= c.at
    case DeleteEntry => true
    case Attempt => Alive(k.entry, c.at, c.lingers) && !ConsumeAttempt(k, c.at, c.lingers).1.Consumed?
    case UpdateEntry(entry) =>
      Alive(k.entry, c.at, c.lingers) && k.entry.value.deadline.Some? && entry.expiresAt >= k.entry.value.deadline.value - 1000
    case _ => false
  }

  lemma OverdueStep(k: Keys, c: Call)
    ensures Overdue(RedisStep(k, c).0.entry)
      <==> MakesOverdue(k, c) || (Overdue(k.entry) && !EndsOverdue(k, c))
  {
    if c.op.SetEntry? {
      LifetimeCovers(c.op.entry.expiresAt - c.at);
    }
  }

  predicate MadeOverdueAt(calls: seq<Call>, i: nat)
    requires i < |calls|
  {
    MakesOverdue(RedisAfter(calls[..i]), calls[i])
  }

  predicate EndedOverdueAt(calls: seq<Call>, i: nat)
    requires i < |calls|
  {
    EndsOverdue(RedisAfter(calls[..i]), calls[i])
  }

  /** The i-th call makes the key outlive its entry, and no later one ends it. */
  predicate OverdueSince(calls: seq<Call>, i: nat)
    requires i < |calls|
  {
    && MadeOverdueAt(calls, i)
    && forall j: nat :: i < j < |calls| ==> MadeOverdueAt(calls, j) || !EndedOverdueAt(calls, j)
  }

  predicate LeftOverdue(calls: seq<Call>) {
    exists i: nat :: i < |calls| && OverdueSince(calls, i)
  }

  lemma SameInPrefix(calls: seq<Call>, n: nat, j: nat)
    requires j < n <= |calls|
    ensures MadeOverdueAt(calls[..n], j) == MadeOverdueAt(calls, j)
    ensures EndedOverdueAt(calls[..n], j) == EndedOverdueAt(calls, j)
  {
    assert calls[..n][..j] == calls[..j];
  }

  lemma SinceStep(calls: seq<Call>, i: nat)
    requires i + 1 < |calls|
    ensures var n := |calls| - 1;
      OverdueSince(calls, i) <==>
        OverdueSince(calls[..n], i) && (MadeOverdueAt(calls, n) || !EndedOverdueAt(calls, n))
  {
    var n := |calls| - 1;
    var before := calls[..n];
    forall j: nat | j < n
      ensures MadeOverdueAt(before, j) == MadeOverdueAt(calls, j)
      ensures EndedOverdueAt(before, j) == EndedOverdueAt(calls, j)
    {
      SameInPrefix(calls, n, j);
    }
    if OverdueSince(before, i) && (MadeOverdueAt(calls, n) || !EndedOverdueAt(calls, n)) {
      forall j: nat | i < j < |calls| ensures MadeOverdueAt(calls, j) || !EndedOverdueAt(calls, j) {
        assert j < n ==> MadeOverdueAt(before, j) || !EndedOverdueAt(before, j);
      }
    }
    if OverdueSince(calls, i) {
      forall j: nat | i < j < n ensures MadeOverdueAt(before, j) || !EndedOverdueAt(before, j) {
        assert MadeOverdueAt(calls, j) || !EndedOverdueAt(calls, j);
      }
    }
  }

  lemma LeftOverdueStep(calls: seq<Call>)
    requires calls != []
    ensures var n := |calls| - 1;
      LeftOverdue(calls) <==>
        MadeOverdueAt(calls, n) || (LeftOverdue(calls[..n]) && !EndedOverdueAt(calls, n))
  {
    var n := |calls| - 1;
    assert MadeOverdueAt(calls, n) ==> OverdueSince(calls, n);
    if LeftOverdue(calls) {
      var i: nat :| i < |calls| && OverdueSince(calls, i);
      if i < n {
        SinceStep(calls, i);
      }
    }
    if LeftOverdue(calls[..n]) {
      var i: nat :| i < |calls[..n]| && OverdueSince(calls[..n], i);
      SinceStep(calls, i);
    }
  }

  lemma {:induction false} OverdueIff(calls: seq<Call>)
    ensures Overdue(RedisAfter(calls).entry) <==> LeftOverdue(calls)
    decreases |calls|
  {
    if calls != [] {
      var n := |calls| - 1;
      OverdueIff(calls[..n]);
      OverdueStep(RedisAfter(calls[..n]), calls[n]);
      LeftOverdueStep(calls);
    }
  }

  /** After any run, a read can still come a second or more after the expiry, if and only if the run left
      the key to outlive its entry and the key has not expired itself. */
  lemma GetIsLateIff(calls: seq<Call>, from: int)
    ensures var k := RedisAfter(calls);
      (exists now :: now >= from && AnswersLate(k, now))
        <==> LeftOverdue(calls) && Alive(k.entry, from, false)
  {
    OverdueIff(calls);
    LateIff(RedisAfter(calls), from);
  }

  /** An entry is set before it expires, an update keeps the expiry, and no attempt is made in the
      millisecond of the deadline. */
  predicate Prompt(k: Keys, c: Call) {
    match c.op
    case SetEntry(entry) => entry.expiresAt >= c.at
    case UpdateEntry(entry) => k.entry.Some? ==> entry.expiresAt == k.entry.value.value.expiresAt
    case Attempt => !DueAt(k.entry, c.at)
    case _ => true
  }

  predicate PromptAt(calls: seq<Call>, i: nat)
    requires i < |calls|
  {
    Prompt(RedisAfter(calls[..i]), calls[i])
  }

  lemma {:induction false} PromptIsNeverOverdue(calls: seq<Call>)
    requires forall i: nat :: i < |calls| ==> PromptAt(calls, i)
    ensures !Overdue(RedisAfter(calls).entry)
    decreases |calls|
  {
    if calls != [] {
      var n := |calls| - 1;
      var before := calls[..n];
      forall i: nat | i < n ensures PromptAt(before, i) {
        assert PromptAt(calls, i) && before[..i] == calls[..i];
      }
      PromptIsNeverOverdue(before);
      assert PromptAt(calls, n);
      OverdueStep(RedisAfter(before), calls[n]);
    }
  }

  /** In a prompt run Redis never answers an entry a second or more after it expired. */
  lemma GetLagsUnderASecond(calls: seq<Call>, now: int)
    requires forall i: nat :: i < |calls| ==> PromptAt(calls, i)
    ensures !AnswersLate(RedisAfter(calls), now)
  {
    PromptIsNeverOverdue(calls);
    LateIff(RedisAfter(calls), now);
  }

  // ---------- Where the two part ----------

  /** An attempt is answered alike unless it comes in the last millisecond of a live entry and Redis has
      dropped the key by then. */
  lemma AttemptAgreesIff(k: Keys, s: Scope, now: int, lingers: bool)
    requires EntryMatches(k.entry, s.entry, now)
    ensures ConsumeAttempt(k, now, lingers).1 == OtpScope.ConsumeAttempt(s, now).1
      <==> lingers || !DueAt(k.entry, now) || !Live(k.entry.value.value, now)
  {
    if lingers || !DueAt(k.entry, now) {
      AttemptAgrees(k, s, now, lingers);
    }
  }

  /** The cooldown is answered alike unless it is zero seconds long and tried while another is held, or
      tried in the last millisecond of one that Redis still has then. */
  lemma AcquireAgreesIff(k: Keys, s: Scope, now: int, lingers: bool, seconds: int)
    requires CooldownMatches(k.cooldown, s.cooldown, now)
    ensures TryAcquireCooldown(k, now, lingers, seconds).1 == OtpScope.TryAcquireCooldown(s, now, 1000 * seconds).1
      <==> if seconds <= 0 then !C.Held(s.cooldown, now) else !lingers || !DueAt(k.cooldown, now)
  {
  }

  /** The script keeps the deadline of the key, if and only if it does not come in its last millisecond. */
  lemma DeadlineKeptIff(k: Keys, now: int, lingers: bool)
    requires ConsumeAttempt(k, now, lingers).1.Consumed?
    ensures ConsumeAttempt(k, now, lingers).0.entry.value.deadline == k.entry.value.deadline <==> !DueAt(k.entry, now)
  {
  }

  /** Then the key is permanent, and a read is late at any later time. */
  lemma LateAttemptLagsForever(k: Keys, now: int, lingers: bool, later: int)
    requires ConsumeAttempt(k, now, lingers).1.Consumed? && DueAt(k.entry, now)
    requires later >= now && later >= k.entry.value.value.expiresAt + 1000
    ensures AnswersLate(ConsumeAttempt(k, now, lingers).0, later)
  {
  }

  /** In memory, an update makes a read answer where it answered nothing, if and only if an expired entry is
      still stored and the new one is live. */
  lemma UpdateRevivesIff(s: Scope, entry: Entry, now: int)
    ensures (OtpScope.Get(s, now) == None && OtpScope.Get(OtpScope.Update(s, entry), now).Some?)
      <==> s.entry.Some? && !Live(s.entry.value, now) && Live(entry, now)
  {
  }

  /** In Redis it never does. But an attempt, which looks at the expiry, is answered where it was not, if
      and only if an expired entry's key is still there and the new entry is live. */
  lemma RedisUpdateRevivesIff(k: Keys, entry: Entry, now: int, lingers: bool)
    ensures Get(k, now, lingers) == None ==> Get(Update(k, now, lingers, entry), now, lingers) == None
    ensures
      (ConsumeAttempt(k, now, lingers).1 == NotFound && ConsumeAttempt(Update(k, now, lingers, entry), now, lingers).1 != NotFound)
      <==> Alive(k.entry, now, lingers) && !Live(k.entry.value.value, now) && Live(entry, now)
  {
  }
}
