/** One caller that runs alone: its steps add up to what a whole call does. */
module ProtocolAlone {
  import opened Options
  import opened Codes
  import opened Issuing
  import opened OtpScope
  import opened Protocol
  import opened ProtocolSafety
  import F = CounterLog
  import C = CooldownLog
  import L = OtpLifecycle

  /** The caller takes one step for every answer, and nobody else takes any. */
  function Alone(cfg: Config, s: State, p: nat, answers: seq<Answer>): State
    decreases |answers|
  {
    if answers == [] then s else Alone(cfg, Next(cfg, s, Act(p, answers[0])), p, answers[1..])
  }

  predicate InRange(s: State) {
    s.sh.slot.Some? ==> s.sh.slot.value < |s.sh.objects|
  }

  /** Nothing but the scope and the caller has changed: neither the clock, nor another caller. */
  predicate OnlyMoves(s: State, t: State, p: nat) {
    && InRange(t) && t.sh.now == s.sh.now && p in t.procs && t.procs == s.procs[p := t.procs[p]]
  }

  lemma OneMore(cfg: Config, s: State, p: nat, answer: Answer, rest: seq<Answer>)
    ensures Alone(cfg, s, p, [answer] + rest) == Alone(cfg, Next(cfg, s, Act(p, answer)), p, rest)
  {
    assert ([answer] + rest)[1..] == rest;
  }

  // ---------- verify ----------

  /** Where a verification ends, with its answer. */
  predicate Answers(proc: Proc, result: L.VerifyResult) {
    match result
    case NoCode => proc == VerifyRefused(NoCode)
    case TooMany => proc == VerifyRefused(TooMany)
    case Valid => proc.VerifyCompared? && proc.phase == Accepted
    case InvalidCode(remaining) => proc.VerifyCompared? && proc.phase == Rejected(remaining)
  }

  lemma EndStays(cfg: Config, s: State, p: nat, answer: Answer, result: L.VerifyResult)
    requires p in s.procs && Answers(s.procs[p], result)
    ensures Next(cfg, s, Act(p, answer)) == s
  {
  }

  lemma {:induction false} EndStaysAlone(cfg: Config, s: State, p: nat, answers: seq<Answer>, result: L.VerifyResult)
    requires p in s.procs && Answers(s.procs[p], result)
    ensures Alone(cfg, s, p, answers) == s
    decreases |answers|
  {
    if answers != [] {
      EndStays(cfg, s, p, answers[0], result);
      EndStaysAlone(cfg, s, p, answers[1..], result);
    }
  }

  /** The stored entry is a match of the guess, held by the caller in some phase; what the scope was before
      its end. */
  predicate Holding(s: State, p: nat, e: Entry, phase: Phase) {
    && InRange(s) && p in s.procs && s.procs[p].VerifyCompared? && s.procs[p].phase == phase
    && s.procs[p].obj < |s.sh.objects| && s.sh.objects[s.procs[p].obj] == e
  }

  /** From the cleared counter on: the entry is consumed and the cooldown cleared, or the entry marked. */
  lemma FinishesAlone(cfg: Config, s: State, p: nat, e: Entry, answers: seq<Answer>)
    requires Holding(s, p, e, FailuresCleared) && |answers| >= 2
    ensures var t := Alone(cfg, s, p, answers);
      && OnlyMoves(s, t, p) && Answers(t.procs[p], L.Valid)
      && View(t.sh) == if cfg.consumeOnVerify then View(s.sh).(entry := None, cooldown := C.Free)
                       else Update(View(s.sh), e.(validated := true))
  {
    var t := Next(cfg, s, Act(p, answers[0]));
    if cfg.consumeOnVerify {
      assert View(t.sh) == View(s.sh).(entry := None) && Holding(t, p, e, EntryDeleted);
      var u := Next(cfg, t, Act(p, answers[1]));
      EndStaysAlone(cfg, u, p, answers[1..][1..], L.Valid);
    } else {
      assert View(t.sh) == Update(View(s.sh), e.(validated := true));
      EndStaysAlone(cfg, t, p, answers[1..], L.Valid);
    }
  }

  lemma MatchesAlone(cfg: Config, s: State, p: nat, e: Entry, answers: seq<Answer>)
    requires Holding(s, p, e, Matched) && |answers| >= 3
    ensures var t := Alone(cfg, s, p, answers);
      && OnlyMoves(s, t, p) && Answers(t.procs[p], L.Valid) && View(t.sh) == L.Finalized(View(s.sh), e, cfg.consumeOnVerify)
  {
    var t := Next(cfg, s, Act(p, answers[0]));
    assert View(t.sh) == View(s.sh).(failures := F.NoCounter) && Holding(t, p, e, FailuresCleared);
    FinishesAlone(cfg, t, p, e, answers[1..]);
  }

  lemma MismatchesAlone(cfg: Config, s: State, p: nat, e: Entry, answers: seq<Answer>)
    requires Holding(s, p, e, Mismatched) && |answers| >= 1
    ensures var t := Alone(cfg, s, p, answers);
      && OnlyMoves(s, t, p) && View(t.sh) == View(s.sh)
      && Answers(t.procs[p], L.InvalidCode(Remaining(cfg, e, TicketAt(s.hist, s.procs[p].seat))))
  {
    var t := Next(cfg, s, Act(p, answers[0]));
    EndStaysAlone(cfg, t, p, answers[1..], L.InvalidCode(Remaining(cfg, e, TicketAt(s.hist, s.procs[p].seat))));
  }

  lemma ComparesAlone(cfg: Config, s: State, p: nat, e: Entry, answers: seq<Answer>)
    requires Holding(s, p, e, Comparing) && |answers| >= 4
    ensures var t, right := Alone(cfg, s, p, answers), MatchesStoredCode(e.code, s.procs[p].guess, cfg.hmac);
      && OnlyMoves(s, t, p)
      && View(t.sh) == (if right then L.Finalized(View(s.sh), e, cfg.consumeOnVerify) else View(s.sh))
      && Answers(t.procs[p], if right then L.Valid else L.InvalidCode(Remaining(cfg, e, TicketAt(s.hist, s.procs[p].seat))))
  {
    var t := Next(cfg, s, Act(p, answers[0]));
    assert View(t.sh) == View(s.sh);
    if MatchesStoredCode(e.code, s.procs[p].guess, cfg.hmac) {
      MatchesAlone(cfg, t, p, e, answers[1..]);
    } else {
      MismatchesAlone(cfg, t, p, e, answers[1..]);
    }
  }

  lemma CountedAlone(cfg: Config, s: State, p: nat, answers: seq<Answer>)
    requires InRange(s) && p in s.procs && s.procs[p].VerifyCounted? && |answers| >= 5
    ensures var t := Alone(cfg, s, p, answers);
      var (scope, result) := L.Compare(cfg, View(s.sh), s.sh.now, s.procs[p].guess, TicketAt(s.hist, s.procs[p].seat));
      OnlyMoves(s, t, p) && View(t.sh) == scope && Answers(t.procs[p], result)
  {
    var guess, seat := s.procs[p].guess, s.procs[p].seat;
    var t := Next(cfg, s, Act(p, answers[0]));
    assert t == ConsumeFor(cfg, s, p, guess, seat);
    ConsumeIsAtomic(cfg, s, p, guess, seat);
    ConsumeMoves(cfg, s, p, guess, seat);
    var (scope, result) := ConsumeAttempt(View(s.sh), s.sh.now);
    match result
    case NotFound => EndStaysAlone(cfg, t, p, answers[1..], L.NoCode);
    case MaxAttempts => EndStaysAlone(cfg, t, p, answers[1..], L.TooMany);
    case Consumed(e) => ComparesAlone(cfg, t, p, e, answers[1..]);
  }

  lemma ConsumeMoves(cfg: Config, s: State, p: nat, guess: string, seat: nat)
    requires InRange(s) && p in s.procs
    ensures var t := ConsumeFor(cfg, s, p, guess, seat);
      && OnlyMoves(s, t, p) && t.hist == s.hist
      && (t.procs[p].VerifyCompared? ==> t.procs[p].phase == Comparing && t.procs[p].guess == guess && t.procs[p].seat == seat)
  {
  }

  /** What a verification does and answers once it has seen an entry. */
  function VerifySeen(cfg: Config, scope: Scope, now: int, guess: string): (Scope, L.VerifyResult) {
    var (counted, ticket) := RecordFailure(scope, now, cfg.ttl);
    if ticket > cfg.maxAttempts then (counted, L.TooMany) else L.Compare(cfg, counted, now, guess, ticket)
  }

  lemma LiveAlone(cfg: Config, s: State, p: nat, answers: seq<Answer>)
    requires InRange(s) && p in s.procs && s.procs[p].VerifyLive? && |answers| >= 6
    ensures var t := Alone(cfg, s, p, answers);
      var (scope, result) := VerifySeen(cfg, View(s.sh), s.sh.now, s.procs[p].guess);
      OnlyMoves(s, t, p) && View(t.sh) == scope && Answers(t.procs[p], result)
  {
    var t := Next(cfg, s, Act(p, answers[0]));
    assert t == CountAttempt(cfg, s, p, s.procs[p].guess);
    var (counted, ticket) := RecordFailure(View(s.sh), s.sh.now, cfg.ttl);
    assert View(t.sh) == counted && InRange(t);
    if ticket > cfg.maxAttempts {
      EndStaysAlone(cfg, t, p, answers[1..], L.TooMany);
    } else {
      assert TicketAt(t.hist, t.procs[p].seat) == ticket;
      CountedAlone(cfg, t, p, answers[1..]);
    }
  }

  /** A verification that runs alone answers, and leaves behind, what the lifecycle says. */
  lemma VerifyAlone(cfg: Config, s: State, p: nat, guess: string, answers: seq<Answer>)
    requires InRange(s) && p in s.procs && s.procs[p] == VerifyStart(guess) && |answers| >= 7
    requires !answers[0].Lags? || cfg.aliased || s.sh.slot == None
    ensures var t := Alone(cfg, s, p, answers);
      var (scope, result) := L.Verify(cfg, View(s.sh), s.sh.now, guess);
      OnlyMoves(s, t, p) && View(t.sh) == scope && Answers(t.procs[p], result)
  {
    var t := Next(cfg, s, Act(p, answers[0]));
    if LiveSlot(s.sh).Some? {
      LiveAlone(cfg, t, p, answers[1..]);
    } else {
      EndStaysAlone(cfg, t, p, answers[1..], L.NoCode);
    }
  }

  /** A read that lags behind the expiry costs an attempt, but finds no code. */
  lemma LaggingVerifyAlone(cfg: Config, s: State, p: nat, guess: string, answers: seq<Answer>)
    requires InRange(s) && p in s.procs && s.procs[p] == VerifyStart(guess) && |answers| >= 7
    requires answers[0].Lags? && !cfg.aliased && s.sh.slot.Some? && Get(View(s.sh), s.sh.now) == None
    ensures var t, failures := Alone(cfg, s, p, answers), F.LiveFailures(s.sh.counter, s.sh.now) + 1;
      && OnlyMoves(s, t, p) && t.sh.cooldown == s.sh.cooldown && t.sh.counter == F.Counting(failures, s.sh.now + cfg.ttl)
      && Answers(t.procs[p], if failures > cfg.maxAttempts then L.TooMany else L.NoCode)
  {
    LiveAlone(cfg, Next(cfg, s, Act(p, answers[0])), p, answers[1..]);
  }

  // ---------- consume ----------

  /** A consumption that runs alone empties the scope. */
  lemma ConsumeAlone(cfg: Config, s: State, p: nat, answers: seq<Answer>)
    requires p in s.procs && s.procs[p] == ConsumeStart && |answers| >= 3
    ensures var t := Alone(cfg, s, p, answers);
      OnlyMoves(s, t, p) && View(t.sh) == EMPTY && t.procs[p] == ConsumeDone
  {
    var t := Next(cfg, s, Act(p, answers[0]));
    var u := Next(cfg, t, Act(p, answers[1]));
    var w := Next(cfg, u, Act(p, answers[2]));
    assert View(t.sh).entry == None && View(u.sh).entry == None && View(u.sh).cooldown == C.Free;
    assert Alone(cfg, s, p, answers) == Alone(cfg, t, p, answers[1..]);
    assert Alone(cfg, t, p, answers[1..]) == Alone(cfg, u, p, answers[1..][1..]) && answers[1..][1..] == answers[2..];
    assert Alone(cfg, u, p, answers[2..]) == Alone(cfg, w, p, answers[2..][1..]);
    ConsumedStaysAlone(cfg, w, p, answers[2..][1..]);
  }

  lemma {:induction false} ConsumedStaysAlone(cfg: Config, s: State, p: nat, answers: seq<Answer>)
    requires p in s.procs && s.procs[p] == ConsumeDone
    ensures Alone(cfg, s, p, answers) == s
    decreases |answers|
  {
    if answers != [] {
      assert Next(cfg, s, Act(p, answers[0])) == s;
      ConsumedStaysAlone(cfg, s, p, answers[1..]);
    }
  }

  // ---------- generate ----------

  /** Where a generate fails. */
  function FaultOf(store: Answer, delivery: Answer): L.Fault {
    if store.Fails? then L.StoreFails(store.after) else if delivery.Fails? then L.DeliveryFails else L.NoFault
  }

  /** How far its release comes: a call that fails after it took effect has done its part, but ends it. */
  function CleanupOf(clear: Answer, delete: Answer): L.Cleanup {
    if clear == Fails(false) then L.CooldownStuck
    else if clear == Fails(true) || delete == Fails(false) then L.EntryStuck
    else L.Released
  }

  /** Where a generate ends, with its answer. */
  predicate Gives(proc: Proc, result: L.GenerateResult) {
    match result
    case Issued(_, _) => proc.GenerateDone? && proc.delivered
    case CooldownActive(_) => proc == GenerateBlocked
    case Undelivered => proc.GenerateDone? && !proc.delivered
  }

  lemma DoneStays(cfg: Config, s: State, p: nat, answer: Answer, result: L.GenerateResult)
    requires p in s.procs && Gives(s.procs[p], result)
    ensures Next(cfg, s, Act(p, answer)) == s
  {
  }

  lemma {:induction false} DoneStaysAlone(cfg: Config, s: State, p: nat, answers: seq<Answer>, result: L.GenerateResult)
    requires p in s.procs && Gives(s.procs[p], result)
    ensures Alone(cfg, s, p, answers) == s
    decreases |answers|
  {
    if answers != [] {
      DoneStays(cfg, s, p, answers[0], result);
      DoneStaysAlone(cfg, s, p, answers[1..], result);
    }
  }

  lemma ReleasesAlone(cfg: Config, s: State, p: nat, clear: Answer, delete: Answer, rest: seq<Answer>)
    requires InRange(s) && p in s.procs && s.procs[p].GenerateFailing?
    ensures var t := Alone(cfg, s, p, [clear, delete] + rest);
      && OnlyMoves(s, t, p) && t.hist.issued == s.hist.issued
      && View(t.sh) == L.Release(View(s.sh), CleanupOf(clear, delete)) && Gives(t.procs[p], L.Undelivered)
  {
    OneMore(cfg, s, p, clear, [delete] + rest);
    assert [clear, delete] + rest == [clear] + ([delete] + rest);
    var t := Next(cfg, s, Act(p, clear));
    if clear.Fails? {
      assert View(t.sh) == if clear.after then View(s.sh).(cooldown := C.Free) else View(s.sh);
      DoneStaysAlone(cfg, t, p, [delete] + rest, L.Undelivered);
    } else {
      assert View(t.sh) == View(s.sh).(cooldown := C.Free);
      OneMore(cfg, t, p, delete, rest);
      DoneStaysAlone(cfg, Next(cfg, t, Act(p, delete)), p, rest, L.Undelivered);
    }
  }

  lemma StoresAlone(cfg: Config, s: State, p: nat, code: string, store: Answer, delivery: Answer, clear: Answer, delete: Answer)
    requires InRange(s) && p in s.procs && s.procs[p].GenerateBuilt? && s.procs[p].obj < |s.sh.objects|
    requires s.sh.objects[s.procs[p].obj] == IssuedEntry(cfg, s.sh.now, code)
    ensures var t, fault := Alone(cfg, s, p, [store] + AfterStore(store, delivery, clear, delete)), FaultOf(store, delivery);
      var persisted := L.Persisted(cfg, View(s.sh), s.sh.now, code, fault);
      && OnlyMoves(s, t, p) && t.hist.issued == s.hist.issued
      && View(t.sh) == (if fault == L.NoFault then persisted else L.Release(persisted, CleanupOf(clear, delete)))
      && Gives(t.procs[p], if fault == L.NoFault then L.Issued(s.sh.now + cfg.ttl, cfg.cooldown) else L.Undelivered)
  {
    var rest := AfterStore(store, delivery, clear, delete);
    OneMore(cfg, s, p, store, rest);
    var t := Next(cfg, s, Act(p, store));
    assert View(t.sh) == L.Persisted(cfg, View(s.sh), s.sh.now, code, FaultOf(store, delivery));
    if store.Fails? {
      ReleasesAlone(cfg, t, p, clear, delete, []);
      assert rest == [clear, delete] + [];
    } else {
      OneMore(cfg, t, p, delivery, [clear, delete]);
      var u := Next(cfg, t, Act(p, delivery));
      if delivery.Fails? {
        ReleasesAlone(cfg, u, p, clear, delete, []);
        assert [clear, delete] == [clear, delete] + [];
      } else {
        DoneStaysAlone(cfg, u, p, [clear, delete], L.Issued(s.sh.now + cfg.ttl, cfg.cooldown));
      }
    }
  }

  /** The answers behind that of the store; those that are not asked for go to a caller that is done. */
  function AfterStore(store: Answer, delivery: Answer, clear: Answer, delete: Answer): seq<Answer> {
    if store.Fails? then [clear, delete] else [delivery] + [clear, delete]
  }

  lemma IssuesAlone(cfg: Config, s: State, p: nat, code: string, store: Answer, delivery: Answer, clear: Answer, delete: Answer)
    requires InRange(s) && p in s.procs && s.procs[p].GenerateLocked? && IsCode(code, cfg.length, cfg.codeType)
    ensures var t := Alone(cfg, s, p, [Draws(code)] + ([store] + AfterStore(store, delivery, clear, delete)));
      var fault := FaultOf(store, delivery);
      && OnlyMoves(s, t, p) && t.hist.issued == s.hist.issued + {Issue(code, s.sh.now + cfg.ttl)}
      && View(t.sh) == L.Issue(cfg, View(s.sh), s.sh.now, code, fault, CleanupOf(clear, delete))
      && Gives(t.procs[p], if fault == L.NoFault then L.Issued(s.sh.now + cfg.ttl, cfg.cooldown) else L.Undelivered)
  {
    OneMore(cfg, s, p, Draws(code), [store] + AfterStore(store, delivery, clear, delete));
    var t := Next(cfg, s, Act(p, Draws(code)));
    assert View(t.sh) == View(s.sh) && InRange(t);
    StoresAlone(cfg, t, p, code, store, delivery, clear, delete);
  }

  /** A generate that runs alone answers, and leaves behind, what the lifecycle says, whichever of its calls
      fail; the code it built an entry for is among the issued ones. */
  lemma GenerateAlone(cfg: Config, s: State, p: nat, lock: Answer, code: string, store: Answer, delivery: Answer, clear: Answer, delete: Answer)
    requires InRange(s) && p in s.procs && s.procs[p] == GenerateStart && IsCode(code, cfg.length, cfg.codeType)
    ensures var t := Alone(cfg, s, p, [lock] + ([Draws(code)] + ([store] + AfterStore(store, delivery, clear, delete))));
      var (scope, result) := L.Generate(cfg, View(s.sh), s.sh.now, code, FaultOf(store, delivery), CleanupOf(clear, delete));
      && OnlyMoves(s, t, p) && View(t.sh) == scope && Gives(t.procs[p], result)
      && t.hist.issued == s.hist.issued + if result.CooldownActive? then {} else {Issue(code, s.sh.now + cfg.ttl)}
  {
    var rest := [store] + AfterStore(store, delivery, clear, delete);
    OneMore(cfg, s, p, lock, [Draws(code)] + rest);
    var t := Next(cfg, s, Act(p, lock));
    if C.Held(s.sh.cooldown, s.sh.now) {
      DoneStaysAlone(cfg, t, p, [Draws(code)] + rest, L.CooldownActive(0));
    } else {
      assert View(t.sh) == TryAcquireCooldown(View(s.sh), s.sh.now, cfg.cooldown).0;
      IssuesAlone(cfg, t, p, code, store, delivery, clear, delete);
    }
  }

  // ---------- The steps of the world ----------

  /** Time passes and does nothing else, but never runs backwards; an eviction drops the entry and nothing else; a
      caller arrives once, at the start of an operation, and nothing else happens. */
  lemma WorldMoves(cfg: Config, s: State, now: int, p: nat, proc: Proc)
    requires InRange(s)
    ensures var t := Next(cfg, s, Tick(now));
      t.sh.now == (if now > s.sh.now then now else s.sh.now) && View(t.sh) == View(s.sh) && t.procs == s.procs && t.hist == s.hist
    ensures var t := Next(cfg, s, Drop);
      t.sh.now == s.sh.now && View(t.sh) == View(s.sh).(entry := None) && t.procs == s.procs && t.hist == s.hist
    ensures var t := Next(cfg, s, Arrive(p, proc));
      && t.sh == s.sh && t.hist == s.hist
      && t.procs == if p !in s.procs && (proc.VerifyStart? || proc == GenerateStart || proc == ConsumeStart)
                    then s.procs[p := proc] else s.procs
  {
  }
}
