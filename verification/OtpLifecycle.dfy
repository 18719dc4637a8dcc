/** What one `generate`, `verify` or `consume` does to its scope when nothing runs in between, and what a
    sequence of them adds up to. */
module OtpLifecycle {
  import opened Options
  import opened Codes
  import opened Issuing
  import opened OtpScope
  import F = CounterLog
  import C = CooldownLog

  datatype VerifyResult = Valid | NoCode | TooMany | InvalidCode(remaining: int)

  /** Where a `generate` fails: not at all, in the store before or after it has written, or in the delivery. */
  datatype Fault = NoFault | StoreFails(written: bool) | DeliveryFails

  /** How the release after a failure goes: through, or stopped at its first or at its second step. */
  datatype Cleanup = Released | CooldownStuck | EntryStuck

  datatype GenerateResult = Issued(expiresAt: int, cooldown: int) | CooldownActive(remaining: int) | Undelivered

  // ---------- The operations ----------

  /** What is there once the entry was written, or the attempt to write it failed. */
  function Persisted(cfg: Config, s: Scope, now: int, code: string, fault: Fault): Scope {
    if fault == StoreFails(false) then s else s.(entry := Some(IssuedEntry(cfg, now, code)))
  }

  /** `releaseOtp`: the cooldown is cleared, then the entry deleted. */
  function Release(s: Scope, cleanup: Cleanup): Scope {
    match cleanup
    case Released => s.(cooldown := C.Free, entry := None)
    case CooldownStuck => s
    case EntryStuck => s.(cooldown := C.Free)
  }

  /** What is done once the cooldown is taken. */
  function Issue(cfg: Config, locked: Scope, now: int, code: string, fault: Fault, cleanup: Cleanup): Scope {
    var persisted := Persisted(cfg, locked, now, code, fault);
    if fault == NoFault then persisted else Release(persisted, cleanup)
  }

  function Generate(cfg: Config, s: Scope, now: int, code: string, fault: Fault, cleanup: Cleanup): (Scope, GenerateResult) {
    var (locked, won) := TryAcquireCooldown(s, now, cfg.cooldown);
    if !won then
      var (seen, remaining) := GetCooldown(s, now);
      (seen, CooldownActive(remaining))
    else
      (Issue(cfg, locked, now, code, fault, cleanup),
       if fault == NoFault then Issued(now + cfg.ttl, cfg.cooldown) else Undelivered)
  }

  /** A correct guess clears the counter, and then consumes the entry or marks it validated. */
  function Finalized(s: Scope, e: Entry, consumeOnVerify: bool): Scope {
    var cleared := s.(failures := F.NoCounter);
    if consumeOnVerify then cleared.(entry := None, cooldown := C.Free) else Update(cleared, e.(validated := true))
  }

  /** What the `ticket`-th attempt does once it was let through. */
  function Compare(cfg: Config, s: Scope, now: int, guess: string, ticket: nat): (Scope, VerifyResult) {
    var (tried, result) := ConsumeAttempt(s, now);
    match result
    case NotFound => (tried, NoCode)
    case MaxAttempts => (tried, TooMany)
    case Consumed(e) =>
      if MatchesStoredCode(e.code, guess, cfg.hmac) then (Finalized(tried, e, cfg.consumeOnVerify), Valid)
      else (tried, InvalidCode(Remaining(cfg, e, ticket)))
  }

  function Verify(cfg: Config, s: Scope, now: int, guess: string): (Scope, VerifyResult) {
    if Get(s, now) == None then (Evict(s, now), NoCode)
    else
      var (counted, ticket) := RecordFailure(Evict(s, now), now, cfg.ttl);
      if ticket > cfg.maxAttempts then (counted, TooMany) else Compare(cfg, counted, now, guess, ticket)
  }

  // ---------- Generate, alone ----------

  /** Unused, and live up to the end of its lifetime but no longer. */
  predicate FreshEntry(e: Entry, cfg: Config, now: int) {
    e.attempts == 0 && !e.validated && Live(e, now + cfg.ttl) && !Live(e, now + cfg.ttl + 1)
  }

  /** A failed `generate` that got past the cooldown leaves neither entry nor cooldown, and the failure
      counter as it was; what its release does not get to stays. A blocked one changes nothing. */
  lemma FailedGenerateReleases(cfg: Config, s: Scope, now: int, code: string, fault: Fault, cleanup: Cleanup)
    ensures var (t, result) := Generate(cfg, s, now, code, fault, cleanup);
      && t.failures == s.failures
      && (result.CooldownActive? <==> C.Held(s.cooldown, now))
      && (result.CooldownActive? ==> t == s && result.remaining > 0)
      && (result.Undelivered? ==> fault != NoFault)
      && (result.Undelivered? && cleanup == Released ==> t.entry == None && t.cooldown == C.Free)
      && (result.Undelivered? && cleanup == CooldownStuck ==> t.cooldown == C.Until(now + cfg.cooldown))
      && (result.Undelivered? && cleanup == EntryStuck ==> t.cooldown == C.Free)
      && (result.Undelivered? && cleanup != Released ==>
           if fault == StoreFails(false) then t.entry == s.entry else t.entry.Some? && FreshEntry(t.entry.value, cfg, now))
      && (result.Issued? ==> t.cooldown == C.Until(now + cfg.cooldown) && t.entry.Some? && FreshEntry(t.entry.value, cfg, now))
      && (result.Issued? ==> result.cooldown == cfg.cooldown && result.expiresAt == t.entry.value.expiresAt)
  {
  }

  /** A `generate` past a free cooldown locks its recipient out with no live code, if and only if the store
      fails before it has written, the cooldown cannot be cleared either, and no older code is live. */
  lemma LockedOutIff(cfg: Config, s: Scope, now: int, code: string, fault: Fault, cleanup: Cleanup)
    requires now > 0 && cfg.ttl > 0 && !C.Held(s.cooldown, now)
    ensures var t := Generate(cfg, s, now, code, fault, cleanup).0;
      C.Held(t.cooldown, now) && Get(t, now) == None
      <==> cfg.cooldown > 0 && fault == StoreFails(false) && cleanup == CooldownStuck && Get(s, now) == None
  {
    if cleanup == CooldownStuck && fault == StoreFails(false) {
      assert Generate(cfg, s, now, code, fault, cleanup).0.entry == s.entry;
    }
  }

  /** The remaining seconds are the time left, rounded up, and zero exactly when the lock is free. */
  lemma RemainingSeconds(s: Scope, now: int)
    ensures var (t, remaining) := GetCooldown(s, now);
      && (remaining > 0 <==> C.Held(s.cooldown, now)) && remaining >= 0
      && (C.Held(s.cooldown, now) ==> t == s && 1000 * (remaining - 1) < s.cooldown.expiry - now <= 1000 * remaining)
      && (!C.Held(s.cooldown, now) ==> forall later :: later >= now ==> !C.Held(t.cooldown, later))
  {
  }

  // ---------- Generate, then verify ----------

  /** A live code with attempts left verifies, exactly when the recipient's counter has room. `before` is
      the secret configured when it was issued: the secret may have been switched on since. */
  lemma DeliveredCodeVerifies(cfg: Config, s: Scope, now: int, code: string, before: Option<Hmac>)
    requires IsCode(code, cfg.length, cfg.codeType) && (before == None || before == cfg.hmac)
    requires s.entry.Some? && s.entry.value.code == StoredForm(code, before)
    requires Live(s.entry.value, now) && s.entry.value.attempts < s.entry.value.maxAttempts
    ensures var (t, result) := Verify(cfg, s, now, code);
      && (result == Valid <==> F.LiveFailures(s.failures, now) < cfg.maxAttempts)
      && (result != Valid ==> result == TooMany && t.entry == s.entry && t.cooldown == s.cooldown)
      && (result == Valid ==>
           && t.failures == F.NoCounter
           && (if cfg.consumeOnVerify then t.entry == None && t.cooldown == C.Free
               else t.entry == Some(s.entry.value.(attempts := s.entry.value.attempts + 1, validated := true))
                    && t.cooldown == s.cooldown))
  {
    AcceptedGuesses(code, cfg.length, cfg.codeType, before, cfg.hmac, code);
  }

  /** A code that `generate` delivers verifies at any time up to its expiry, if the counter has room. */
  lemma GenerateThenVerify(cfg: Config, s: Scope, now: int, code: string, later: int)
    requires IsCode(code, cfg.length, cfg.codeType) && cfg.maxAttempts > 0
    requires now <= later <= now + cfg.ttl && !C.Held(s.cooldown, now)
    requires F.LiveFailures(s.failures, later) < cfg.maxAttempts
    ensures Verify(cfg, Generate(cfg, s, now, code, NoFault, Released).0, later, code).1 == Valid
  {
    DeliveredCodeVerifies(cfg, Generate(cfg, s, now, code, NoFault, Released).0, later, code, cfg.hmac);
  }

  /** One millisecond later it does not. */
  lemma ExpiredCodeIsGone(cfg: Config, s: Scope, now: int, code: string, later: int)
    requires later > now + cfg.ttl && !C.Held(s.cooldown, now)
    ensures var (t, result) := Verify(cfg, Generate(cfg, s, now, code, NoFault, Released).0, later, code);
      result == NoCode && t.entry == None && t.failures == s.failures
  {
  }

  /** What a wrong guess at a live code is told: no more than the code has left, no more than the recipient has,
      and one of the two. It costs both an attempt. */
  lemma WrongGuessTold(cfg: Config, s: Scope, now: int, guess: string)
    requires s.entry.Some? && Live(s.entry.value, now) && !MatchesStoredCode(s.entry.value.code, guess, cfg.hmac)
    requires s.entry.value.attempts < s.entry.value.maxAttempts && F.LiveFailures(s.failures, now) < cfg.maxAttempts
    ensures var (t, result) := Verify(cfg, s, now, guess);
      var ofCode := s.entry.value.maxAttempts - s.entry.value.attempts - 1;
      var ofRecipient := cfg.maxAttempts - F.LiveFailures(s.failures, now) - 1;
      && result.InvalidCode? && result.remaining <= ofCode && result.remaining <= ofRecipient
      && (result.remaining == ofCode || result.remaining == ofRecipient)
      && t.entry == Some(s.entry.value.(attempts := s.entry.value.attempts + 1)) && t.cooldown == s.cooldown
      && t.failures == F.Counting(F.LiveFailures(s.failures, now) + 1, now + cfg.ttl)
  {
  }

  /** A code without attempts left is refused whatever is guessed, and dropped; the attempt is counted all the same. */
  lemma SpentCodeIsDropped(cfg: Config, s: Scope, now: int, guess: string)
    requires s.entry.Some? && Live(s.entry.value, now) && s.entry.value.attempts >= s.entry.value.maxAttempts
    ensures var (t, result) := Verify(cfg, s, now, guess);
      && result == TooMany && t.failures == F.Counting(F.LiveFailures(s.failures, now) + 1, now + cfg.ttl)
      && t.entry == (if F.LiveFailures(s.failures, now) < cfg.maxAttempts then None else s.entry)
  {
  }

  // ---------- The attempt budget over re-issues ----------

  datatype Op = Resend(at: int, code: string, fault: Fault, cleanup: Cleanup) | Guess(at: int, guess: string)

  function After(cfg: Config, s: Scope, op: Op): Scope {
    match op
    case Resend(at, code, fault, cleanup) => Generate(cfg, s, at, code, fault, cleanup).0
    case Guess(at, guess) => Verify(cfg, s, at, guess).0
  }

  function RunOps(cfg: Config, s: Scope, ops: seq<Op>): Scope
    decreases |ops|
  {
    if ops == [] then s else After(cfg, RunOps(cfg, s, ops[..|ops| - 1]), ops[|ops| - 1])
  }

  /** How many guesses are among the operations. */
  function Guesses(ops: seq<Op>): nat {
    if ops == [] then 0 else Guesses(ops[..|ops| - 1]) + if ops[|ops| - 1].Guess? then 1 else 0
  }

  /** A guess at a live code that it does not match. */
  predicate WrongGuess(cfg: Config, s: Scope, op: Op) {
    op.Guess? ==> Get(s, op.at).Some? && !MatchesStoredCode(Get(s, op.at).value.code, op.guess, cfg.hmac)
  }

  /** The counter, if there is one, has not lapsed when the guess comes. */
  predicate NotLapsed(s: Scope, op: Op) {
    op.Guess? && s.failures.Counting? ==> s.failures.expiresAt > op.at
  }

  predicate Fits(cfg: Config, s: Scope, ops: seq<Op>, k: nat)
    requires k < |ops|
  {
    WrongGuess(cfg, RunOps(cfg, s, ops[..k]), ops[k]) && NotLapsed(RunOps(cfg, s, ops[..k]), ops[k])
  }

  /** Every guess is wrong and made against a live code, and the counter never lapses. Codes may be issued
      in between, and issuing may fail. */
  predicate OnlyWrongGuesses(cfg: Config, s: Scope, ops: seq<Op>) {
    forall k: nat :: k < |ops| ==> Fits(cfg, s, ops, k)
  }

  /** After `k` wrong guesses the counter is at `k`, and no code has had more attempts than that. */
  predicate Spent(cfg: Config, s: Scope, k: nat) {
    && (if k == 0 then s.failures == F.NoCounter else s.failures.Counting? && s.failures.count == k)
    && (s.entry.Some? ==>
         s.entry.value.maxAttempts == cfg.maxAttempts && s.entry.value.attempts <= k && s.entry.value.attempts <= cfg.maxAttempts)
  }

  lemma GuessSpends(cfg: Config, s: Scope, k: nat, op: Op)
    requires Spent(cfg, s, k) && op.Guess? && WrongGuess(cfg, s, op) && NotLapsed(s, op)
    ensures var (t, result) := Verify(cfg, s, op.at, op.guess);
      && Spent(cfg, t, k + 1)
      && result == if k + 1 <= cfg.maxAttempts then InvalidCode(cfg.maxAttempts - (k + 1)) else TooMany
  {
  }

  lemma {:induction false} BudgetSurvives(cfg: Config, s: Scope, ops: seq<Op>)
    requires Spent(cfg, s, 0) && OnlyWrongGuesses(cfg, s, ops)
    ensures Spent(cfg, RunOps(cfg, s, ops), Guesses(ops))
    decreases |ops|
  {
    if ops != [] {
      var n := |ops| - 1;
      var before := ops[..n];
      forall k: nat | k < n ensures Fits(cfg, s, before, k) {
        assert Fits(cfg, s, ops, k);
        assert before[..k] == ops[..k];
      }
      BudgetSurvives(cfg, s, before);
      assert Fits(cfg, s, ops, n);
      if ops[n].Guess? {
        GuessSpends(cfg, RunOps(cfg, s, before), Guesses(before), ops[n]);
      }
    }
  }

  /** The k-th wrong guess answers `invalid_code` with `maxAttempts - k` attempts remaining while k is
      within the ceiling, and `max_attempts` from then on, wherever new codes are issued in between. */
  lemma KthWrongGuess(cfg: Config, s: Scope, ops: seq<Op>, last: Op)
    requires Spent(cfg, s, 0) && OnlyWrongGuesses(cfg, s, ops + [last]) && last.Guess?
    ensures var k := Guesses(ops) + 1;
      Verify(cfg, RunOps(cfg, s, ops), last.at, last.guess).1
        == if k <= cfg.maxAttempts then InvalidCode(cfg.maxAttempts - k) else TooMany
  {
    var all := ops + [last];
    forall k: nat | k < |ops| ensures Fits(cfg, s, ops, k) {
      assert Fits(cfg, s, all, k);
      assert all[..k] == ops[..k];
    }
    BudgetSurvives(cfg, s, ops);
    assert Fits(cfg, s, all, |ops|) && all[..|ops|] == ops;
    GuessSpends(cfg, RunOps(cfg, s, ops), Guesses(ops), last);
  }
}
