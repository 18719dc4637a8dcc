/** What holds in every state that concurrent callers can reach. */
module ProtocolSafety {
  import opened Options
  import opened Codes
  import opened Issuing
  import opened OtpScope
  import opened Protocol
  import F = CounterLog
  import C = CooldownLog

  // ---------- The invariant ----------

  /** The histories are those of the counter and of the cooldown. */
  ghost predicate LogsFit(cfg: Config, sh: Shared, hist: History) {
    && F.ValidLog(hist.failures, cfg.ttl) && sh.counter == F.Replay(hist.failures, cfg.ttl)
    && C.ValidLog(hist.cooldowns, cfg.cooldown) && sh.cooldown == C.Replay(hist.cooldowns, cfg.cooldown)
    && (hist.failures != [] ==> hist.failures[|hist.failures| - 1].at <= sh.now)
    && (hist.cooldowns != [] ==> hist.cooldowns[|hist.cooldowns| - 1].at <= sh.now)
    && sh.now > 0
  }

  /** An entry is one that some `generate` built, but for its attempts and its mark. */
  ghost predicate Built(cfg: Config, e: Entry, issue: Issue) {
    && IsCode(issue.code, cfg.length, cfg.codeType)
    && e.code == StoredForm(issue.code, cfg.hmac)
    && e.expiresAt == issue.expiresAt
    && e.maxAttempts == cfg.maxAttempts
    && e.attempts <= e.maxAttempts
  }

  ghost predicate EntryFits(cfg: Config, e: Entry, issued: set<Issue>) {
    exists issue :: issue in issued && Built(cfg, e, issue)
  }

  ghost predicate ObjectsFit(cfg: Config, sh: Shared, issued: set<Issue>) {
    && (forall i {:trigger sh.objects[i]} :: 0 <= i < |sh.objects| ==> EntryFits(cfg, sh.objects[i], issued))
    && (sh.slot.Some? ==> sh.slot.value < |sh.objects|)
  }

  /** A ticket within the ceiling, taken by caller `p`. */
  ghost predicate SeatFits(cfg: Config, hist: History, p: nat, seat: nat) {
    && seat < |hist.failures| && hist.failures[seat].Recorded?
    && hist.failures[seat].ticket <= cfg.maxAttempts
    && seat in hist.seats && hist.seats[seat] == p
  }

  /** A cooldown won by caller `p`. */
  ghost predicate LockFits(hist: History, p: nat, lock: nat) {
    && lock < |hist.cooldowns| && hist.cooldowns[lock].Tried? && hist.cooldowns[lock].won
    && lock in hist.locks && hist.locks[lock] == p
  }

  /** Whether a comparison went the way the phase says, and what a wrong guess is told. */
  predicate PhaseFits(cfg: Config, code: string, guess: string, phase: Phase) {
    match phase
    case Comparing => true
    case Mismatched => !MatchesStoredCode(code, guess, cfg.hmac)
    case Rejected(remaining) => !MatchesStoredCode(code, guess, cfg.hmac) && 0 <= remaining < cfg.maxAttempts
    case _ => MatchesStoredCode(code, guess, cfg.hmac)
  }

  ghost predicate ProcFits(cfg: Config, sh: Shared, hist: History, p: nat, proc: Proc) {
    match proc
    case VerifyCounted(_, seat) => SeatFits(cfg, hist, p, seat)
    case VerifyCompared(guess, seat, obj, at, phase) =>
      && SeatFits(cfg, hist, p, seat)
      && obj < |sh.objects| && at <= sh.now && at <= sh.objects[obj].expiresAt
      && PhaseFits(cfg, sh.objects[obj].code, guess, phase)
    case GenerateLocked(lock) => LockFits(hist, p, lock)
    case GenerateBuilt(lock, obj) => LockFits(hist, p, lock) && obj < |sh.objects|
    case GenerateStored(lock, obj) => LockFits(hist, p, lock) && obj < |sh.objects|
    case GenerateFailing(lock) => LockFits(hist, p, lock)
    case GenerateReleasing(lock) => LockFits(hist, p, lock)
    case GenerateDone(lock, _) => LockFits(hist, p, lock)
    case _ => true
  }

  ghost predicate ProcsFit(cfg: Config, s: State) {
    forall p {:trigger s.procs[p]} :: p in s.procs ==> ProcFits(cfg, s.sh, s.hist, p, s.procs[p])
  }

  ghost predicate Inv(cfg: Config, s: State) {
    && LogsFit(cfg, s.sh, s.hist)
    && ObjectsFit(cfg, s.sh, s.hist.issued)
    && ProcsFit(cfg, s)
  }

  // ---------- Every step keeps it ----------

  /** `later` has everything `earlier` has: events, tickets, locks, issues and objects only grow, and of
      an object only the attempts change. */
  ghost predicate Grows(earlier: State, later: State) {
    && earlier.sh.now <= later.sh.now
    && earlier.hist.failures <= later.hist.failures && earlier.hist.cooldowns <= later.hist.cooldowns
    && (forall k :: k in earlier.hist.seats && k < |earlier.hist.failures| ==>
         k in later.hist.seats && later.hist.seats[k] == earlier.hist.seats[k])
    && (forall k :: k in earlier.hist.locks && k < |earlier.hist.cooldowns| ==>
         k in later.hist.locks && later.hist.locks[k] == earlier.hist.locks[k])
    && earlier.hist.issued <= later.hist.issued
    && |earlier.sh.objects| <= |later.sh.objects|
    && (forall i {:trigger later.sh.objects[i]} :: 0 <= i < |earlier.sh.objects| ==>
         later.sh.objects[i].code == earlier.sh.objects[i].code
         && later.sh.objects[i].expiresAt == earlier.sh.objects[i].expiresAt)
  }

  lemma ProcStaysFit(cfg: Config, s: State, t: State, p: nat, proc: Proc)
    requires Grows(s, t) && ProcFits(cfg, s.sh, s.hist, p, proc)
    ensures ProcFits(cfg, t.sh, t.hist, p, proc)
  {
  }

  /** A step of one caller: the others stay fit because the state only grows. */
  lemma ProcsStayFit(cfg: Config, s: State, t: State, p: nat)
    requires Grows(s, t) && ProcsFit(cfg, s)
    requires p in t.procs && t.procs == s.procs[p := t.procs[p]]
    requires ProcFits(cfg, t.sh, t.hist, p, t.procs[p])
    ensures ProcsFit(cfg, t)
  {
    forall q | q in t.procs ensures ProcFits(cfg, t.sh, t.hist, q, t.procs[q]) {
      if q != p {
        ProcStaysFit(cfg, s, t, q, s.procs[q]);
      }
    }
  }

  lemma EntryStaysFit(cfg: Config, e: Entry, now: Entry, issued: set<Issue>, more: set<Issue>)
    requires EntryFits(cfg, e, issued) && issued <= more
    requires now == e.(attempts := now.attempts, validated := now.validated) && now.attempts <= now.maxAttempts
    ensures EntryFits(cfg, now, more)
  {
    var issue :| issue in issued && Built(cfg, e, issue);
    assert Built(cfg, now, issue);
  }

  lemma ObjectAdded(cfg: Config, sh: Shared, issued: set<Issue>, e: Entry)
    requires ObjectsFit(cfg, sh, issued) && EntryFits(cfg, e, issued)
    ensures ObjectsFit(cfg, WithObject(sh, e), issued)
  {
  }

  lemma FailuresLogged(cfg: Config, s: State, e: F.Event)
    requires Inv(cfg, s) && e.at == s.sh.now
    requires e.Recorded? ==> e.ticket == F.LiveFailures(s.sh.counter, s.sh.now) + 1
    ensures F.ValidLog(s.hist.failures + [e], cfg.ttl)
    ensures F.Replay(s.hist.failures + [e], cfg.ttl) ==
      if e.Recorded? then F.Record(s.sh.counter, s.sh.now, cfg.ttl) else F.NoCounter
  {
    F.LogGrows(s.hist.failures, e, cfg.ttl);
  }

  lemma CooldownLogged(cfg: Config, s: State, e: C.Event)
    requires Inv(cfg, s) && e.at == s.sh.now
    requires e.Tried? ==> (e.won <==> !C.Held(s.sh.cooldown, s.sh.now))
    ensures C.ValidLog(s.hist.cooldowns + [e], cfg.cooldown)
    ensures C.Replay(s.hist.cooldowns + [e], cfg.cooldown) ==
      match e
      case Tried(at, won) => if won then C.Until(at + cfg.cooldown) else s.sh.cooldown
      case Cleared(_) => C.Free
  {
    C.LogGrows(s.hist.cooldowns, e, cfg.cooldown);
  }

  lemma ClearsKeepInv(cfg: Config, s: State)
    requires Inv(cfg, s)
    ensures Inv(cfg, ClearFailures(s)) && Grows(s, ClearFailures(s))
    ensures Inv(cfg, ClearCooldown(s)) && Grows(s, ClearCooldown(s))
    ensures Inv(cfg, DeleteEntry(s)) && Grows(s, DeleteEntry(s))
  {
    FailuresLogged(cfg, s, F.Cleared(s.sh.now));
    CooldownLogged(cfg, s, C.Cleared(s.sh.now));
    forall p | p in s.procs
      ensures ProcFits(cfg, ClearFailures(s).sh, ClearFailures(s).hist, p, s.procs[p])
      ensures ProcFits(cfg, ClearCooldown(s).sh, ClearCooldown(s).hist, p, s.procs[p])
      ensures ProcFits(cfg, DeleteEntry(s).sh, DeleteEntry(s).hist, p, s.procs[p])
    {
    }
  }

  lemma SetProcKeepsInv(cfg: Config, s: State, p: nat, proc: Proc)
    requires Inv(cfg, s) && ProcFits(cfg, s.sh, s.hist, p, proc)
    ensures Inv(cfg, SetProc(s, p, proc))
  {
  }

  lemma CountKeepsInv(cfg: Config, s: State, p: nat, guess: string)
    requires Inv(cfg, s)
    ensures Inv(cfg, CountAttempt(cfg, s, p, guess))
  {
    var t := CountAttempt(cfg, s, p, guess);
    FailuresLogged(cfg, s, F.Recorded(s.sh.now, F.Record(s.sh.counter, s.sh.now, cfg.ttl).count));
    assert Grows(s, t);
    ProcsStayFit(cfg, s, t, p);
  }

  lemma ConsumeKeepsInv(cfg: Config, s: State, p: nat, guess: string, seat: nat)
    requires Inv(cfg, s) && SeatFits(cfg, s.hist, p, seat) && p in s.procs
    ensures Inv(cfg, ConsumeFor(cfg, s, p, guess, seat))
  {
    var live := LiveSlot(s.sh);
    if live.Some? && s.sh.objects[live.value].attempts < s.sh.objects[live.value].maxAttempts {
      AttemptKeepsInv(cfg, s, p, guess, seat, live.value);
    } else {
      ClearsKeepInv(cfg, s);
    }
  }

  lemma AttemptKeepsInv(cfg: Config, s: State, p: nat, guess: string, seat: nat, i: nat)
    requires Inv(cfg, s) && SeatFits(cfg, s.hist, p, seat) && p in s.procs
    requires LiveSlot(s.sh) == Some(i) && s.sh.objects[i].attempts < s.sh.objects[i].maxAttempts
    ensures Inv(cfg, ConsumeFor(cfg, s, p, guess, seat))
  {
    var t := ConsumeFor(cfg, s, p, guess, seat);
    var e := s.sh.objects[i].(attempts := s.sh.objects[i].attempts + 1);
    EntryStaysFit(cfg, s.sh.objects[i], e, s.hist.issued, s.hist.issued);
    var sh := s.sh.(objects := s.sh.objects[i := e]);
    assert ObjectsFit(cfg, sh, s.hist.issued);
    ObjectAdded(cfg, sh, s.hist.issued, e);
    assert Grows(s, t);
    ProcsStayFit(cfg, s, t, p);
  }

  /** `update` writes back a copy of the entry the caller holds. */
  lemma WriteBackKeepsInv(cfg: Config, s: State, p: nat, proc: Proc)
    requires Inv(cfg, s) && p in s.procs && s.procs[p] == proc
    requires proc.VerifyCompared? && proc.phase == FailuresCleared && s.sh.slot.Some?
    ensures var sh := WithObject(s.sh, s.sh.objects[proc.obj].(validated := true));
      Inv(cfg, SetProc(s.(sh := sh.(slot := Some(|s.sh.objects|))), p, proc.(phase := Accepted)))
  {
    assert ProcFits(cfg, s.sh, s.hist, p, proc);
    var e := s.sh.objects[proc.obj];
    EntryStaysFit(cfg, e, e.(validated := true), s.hist.issued, s.hist.issued);
    ObjectAdded(cfg, s.sh, s.hist.issued, e.(validated := true));
    var sh := WithObject(s.sh, e.(validated := true));
    var t := SetProc(s.(sh := sh.(slot := Some(|s.sh.objects|))), p, proc.(phase := Accepted));
    assert Grows(s, t);
    ProcsStayFit(cfg, s, t, p);
  }

  /** Both budgets have room for the attempt that was counted, whatever else happened meanwhile. */
  lemma RemainingInRange(cfg: Config, s: State, p: nat, obj: nat, seat: nat)
    requires Inv(cfg, s) && obj < |s.sh.objects| && SeatFits(cfg, s.hist, p, seat)
    ensures 0 <= Remaining(cfg, s.sh.objects[obj], TicketAt(s.hist, seat)) < cfg.maxAttempts
  {
    assert EntryFits(cfg, s.sh.objects[obj], s.hist.issued);
    assert F.EventFits(s.hist.failures, seat, cfg.ttl);
  }

  /** A verification goes on to its next phase, having done to the shared state what it then does. */
  lemma PhaseKeepsInv(cfg: Config, s: State, t: State, p: nat, proc: Proc, phase: Phase)
    requires Inv(cfg, s) && p in s.procs && s.procs[p] == proc && proc.VerifyCompared?
    requires Inv(cfg, t) && Grows(s, t)
    requires PhaseFits(cfg, s.sh.objects[proc.obj].code, proc.guess, phase)
    ensures Inv(cfg, SetProc(t, p, proc.(phase := phase)))
  {
    assert ProcFits(cfg, s.sh, s.hist, p, proc);
    ProcStaysFit(cfg, s, t, p, proc);
    SetProcKeepsInv(cfg, t, p, proc.(phase := phase));
  }

  /** From the comparison on. */
  lemma ComparedKeepsInv(cfg: Config, s: State, p: nat, answer: Answer)
    requires Inv(cfg, s) && p in s.procs && s.procs[p].VerifyCompared?
    ensures Inv(cfg, ActVerify(cfg, s, p, s.procs[p], answer))
  {
    var proc := s.procs[p];
    assert ProcFits(cfg, s.sh, s.hist, p, proc);
    var e := s.sh.objects[proc.obj];
    match proc.phase
    case Comparing =>
      PhaseKeepsInv(cfg, s, s, p, proc, if MatchesStoredCode(e.code, proc.guess, cfg.hmac) then Matched else Mismatched);
    case Mismatched =>
      RemainingInRange(cfg, s, p, proc.obj, proc.seat);
      PhaseKeepsInv(cfg, s, s, p, proc, Rejected(Remaining(cfg, e, TicketAt(s.hist, proc.seat))));
    case Matched =>
      ClearsKeepInv(cfg, s);
      PhaseKeepsInv(cfg, s, ClearFailures(s), p, proc, FailuresCleared);
    case FailuresCleared =>
      if cfg.consumeOnVerify {
        ClearsKeepInv(cfg, s);
        PhaseKeepsInv(cfg, s, DeleteEntry(s), p, proc, EntryDeleted);
      } else if s.sh.slot.Some? {
        WriteBackKeepsInv(cfg, s, p, proc);
      }
    case EntryDeleted =>
      ClearsKeepInv(cfg, s);
      PhaseKeepsInv(cfg, s, ClearCooldown(s), p, proc, Accepted);
    case _ =>
  }

  lemma VerifyKeepsInv(cfg: Config, s: State, p: nat, answer: Answer)
    requires Inv(cfg, s) && p in s.procs && IsVerify(s.procs[p])
    ensures Inv(cfg, ActVerify(cfg, s, p, s.procs[p], answer))
  {
    var proc := s.procs[p];
    assert ProcFits(cfg, s.sh, s.hist, p, proc);
    match proc
    case VerifyStart(guess) =>
      ClearsKeepInv(cfg, s);
      SetProcKeepsInv(cfg, s, p, VerifyLive(guess));
      SetProcKeepsInv(cfg, DeleteEntry(s), p, VerifyRefused(NoCode));
    case VerifyLive(guess) => CountKeepsInv(cfg, s, p, guess);
    case VerifyCounted(guess, seat) => ConsumeKeepsInv(cfg, s, p, guess, seat);
    case VerifyCompared(_, _, _, _, _) => ComparedKeepsInv(cfg, s, p, answer);
    case _ =>
  }

  lemma AcquireKeepsInv(cfg: Config, s: State, p: nat)
    requires Inv(cfg, s) && p in s.procs && s.procs[p].GenerateStart?
    ensures Inv(cfg, ActGenerate(cfg, s, p, s.procs[p], Works))
  {
    var won := !C.Held(s.sh.cooldown, s.sh.now);
    CooldownLogged(cfg, s, C.Tried(s.sh.now, won));
    var t := ActGenerate(cfg, s, p, s.procs[p], Works);
    assert Grows(s, t);
    ProcsStayFit(cfg, s, t, p);
  }

  lemma IssueKeepsInv(cfg: Config, s: State, p: nat, code: string)
    requires Inv(cfg, s) && p in s.procs && s.procs[p].GenerateLocked? && IsCode(code, cfg.length, cfg.codeType)
    ensures Inv(cfg, ActGenerate(cfg, s, p, s.procs[p], Draws(code)))
  {
    assert ProcFits(cfg, s.sh, s.hist, p, s.procs[p]);
    var issue := Issue(code, s.sh.now + cfg.ttl);
    var e := Entry(StoredForm(code, cfg.hmac), s.sh.now + cfg.ttl, 0, cfg.maxAttempts, false);
    var issued := s.hist.issued + {issue};
    assert Built(cfg, e, issue);
    forall i | 0 <= i < |s.sh.objects| ensures EntryFits(cfg, s.sh.objects[i], issued) {
      EntryStaysFit(cfg, s.sh.objects[i], s.sh.objects[i], s.hist.issued, issued);
    }
    ObjectAdded(cfg, s.sh, issued, e);
    var t := ActGenerate(cfg, s, p, s.procs[p], Draws(code));
    assert Grows(s, t);
    ProcsStayFit(cfg, s, t, p);
  }

  lemma StoreKeepsInv(cfg: Config, s: State, p: nat, answer: Answer)
    requires Inv(cfg, s) && p in s.procs && s.procs[p].GenerateBuilt?
    ensures Inv(cfg, ActGenerate(cfg, s, p, s.procs[p], answer))
  {
    var proc := s.procs[p];
    assert ProcFits(cfg, s.sh, s.hist, p, proc);
    var stored := Failed(s, s.(sh := s.sh.(slot := Some(proc.obj))), answer);
    assert Inv(cfg, stored) by {
      forall q | q in s.procs ensures ProcFits(cfg, stored.sh, stored.hist, q, s.procs[q]) {
        ProcStaysFit(cfg, s, stored, q, s.procs[q]);
      }
    }
    SetProcKeepsInv(cfg, stored, p, if answer.Fails? then GenerateFailing(proc.lock) else GenerateStored(proc.lock, proc.obj));
  }

  lemma ReleaseKeepsInv(cfg: Config, s: State, p: nat, answer: Answer)
    requires Inv(cfg, s) && p in s.procs && (s.procs[p].GenerateFailing? || s.procs[p].GenerateReleasing?)
    ensures Inv(cfg, ActGenerate(cfg, s, p, s.procs[p], answer))
  {
    var proc := s.procs[p];
    assert ProcFits(cfg, s.sh, s.hist, p, proc);
    ClearsKeepInv(cfg, s);
    if proc.GenerateFailing? {
      ProcStaysFit(cfg, s, ClearCooldown(s), p, proc);
      SetProcKeepsInv(cfg, Failed(s, ClearCooldown(s), answer), p,
                      if answer.Fails? then GenerateDone(proc.lock, false) else GenerateReleasing(proc.lock));
    } else {
      SetProcKeepsInv(cfg, Failed(s, DeleteEntry(s), answer), p, GenerateDone(proc.lock, false));
    }
  }

  lemma GenerateKeepsInv(cfg: Config, s: State, p: nat, answer: Answer)
    requires Inv(cfg, s) && p in s.procs && IsGenerate(s.procs[p])
    ensures Inv(cfg, ActGenerate(cfg, s, p, s.procs[p], answer))
  {
    var proc := s.procs[p];
    match proc
    case GenerateStart => AcquireKeepsInv(cfg, s, p);
    case GenerateLocked(lock) =>
      if answer.Draws? && IsCode(answer.code, cfg.length, cfg.codeType) {
        IssueKeepsInv(cfg, s, p, answer.code);
      }
    case GenerateBuilt(_, _) => StoreKeepsInv(cfg, s, p, answer);
    case GenerateStored(lock, obj) =>
      assert ProcFits(cfg, s.sh, s.hist, p, proc);
      SetProcKeepsInv(cfg, s, p, if answer.Fails? then GenerateFailing(lock) else GenerateDone(lock, true));
    case GenerateFailing(_) => ReleaseKeepsInv(cfg, s, p, answer);
    case GenerateReleasing(_) => ReleaseKeepsInv(cfg, s, p, answer);
    case _ =>
  }

  lemma StepKeepsInv(cfg: Config, s: State, step: Step)
    requires Inv(cfg, s)
    ensures Inv(cfg, Next(cfg, s, step))
  {
    match step
    case Tick(now) =>
      if now >= s.sh.now {
        var t := s.(sh := s.sh.(now := now));
        forall p | p in s.procs ensures ProcFits(cfg, t.sh, t.hist, p, s.procs[p]) {
          ProcStaysFit(cfg, s, t, p, s.procs[p]);
        }
      }
    case Drop => ClearsKeepInv(cfg, s);
    case Arrive(p, proc) =>
      if p !in s.procs && Arrives(proc) {
        SetProcKeepsInv(cfg, s, p, proc);
      }
    case Act(p, answer) =>
      if p in s.procs {
        var proc := s.procs[p];
        if IsVerify(proc) {
          VerifyKeepsInv(cfg, s, p, answer);
        } else if IsGenerate(proc) {
          GenerateKeepsInv(cfg, s, p, answer);
        } else {
          ClearsKeepInv(cfg, s);
          match proc
          case ConsumeStart => SetProcKeepsInv(cfg, DeleteEntry(s), p, ConsumeDeleted);
          case ConsumeDeleted => SetProcKeepsInv(cfg, ClearCooldown(s), p, ConsumeUnlocked);
          case ConsumeUnlocked => SetProcKeepsInv(cfg, ClearFailures(s), p, ConsumeDone);
          case _ =>
        }
      }
  }

  /** The invariant holds after every interleaving. */
  lemma {:induction false} AlwaysInv(cfg: Config, start: int, steps: seq<Step>)
    requires start > 0
    ensures Inv(cfg, Run(cfg, start, steps))
    decreases |steps|
  {
    if steps != [] {
      AlwaysInv(cfg, start, steps[..|steps| - 1]);
      StepKeepsInv(cfg, Run(cfg, start, steps[..|steps| - 1]), steps[|steps| - 1]);
    }
  }

  // ---------- What follows for the callers ----------

  /** A verification that is accepted, in any interleaving and whatever is written back meanwhile,
      guessed a code that was issued and had not expired when the attempt was consumed. */
  lemma AcceptedWasIssued(cfg: Config, start: int, steps: seq<Step>, p: nat)
    requires start > 0
    requires var s := Run(cfg, start, steps);
      p in s.procs && s.procs[p].VerifyCompared? && s.procs[p].phase == Accepted
    ensures var s := Run(cfg, start, steps);
      exists issue :: issue in s.hist.issued
        && s.procs[p].at <= issue.expiresAt
        && IsCode(issue.code, cfg.length, cfg.codeType)
        && MatchesStoredCode(StoredForm(issue.code, cfg.hmac), s.procs[p].guess, cfg.hmac)
  {
    AlwaysInv(cfg, start, steps);
    var s := Run(cfg, start, steps);
    assert ProcFits(cfg, s.sh, s.hist, p, s.procs[p]);
    var e := s.sh.objects[s.procs[p].obj];
    var issue :| issue in s.hist.issued && Built(cfg, e, issue);
  }

  /** Without a secret, an accepted guess is an issued code. */
  lemma AcceptedPlaintext(cfg: Config, start: int, steps: seq<Step>, p: nat)
    requires start > 0 && cfg.hmac == None
    requires var s := Run(cfg, start, steps);
      p in s.procs && s.procs[p].VerifyCompared? && s.procs[p].phase == Accepted
    ensures var s := Run(cfg, start, steps);
      exists issue :: issue in s.hist.issued && issue.code == s.procs[p].guess && s.procs[p].at <= issue.expiresAt
  {
    AcceptedWasIssued(cfg, start, steps, p);
    var s := Run(cfg, start, steps);
    var issue :| issue in s.hist.issued
      && s.procs[p].at <= issue.expiresAt && IsCode(issue.code, cfg.length, cfg.codeType)
      && MatchesStoredCode(StoredForm(issue.code, cfg.hmac), s.procs[p].guess, cfg.hmac);
    AcceptedGuesses(issue.code, cfg.length, cfg.codeType, cfg.hmac, cfg.hmac, s.procs[p].guess);
  }

  /** A verification that is rejected guessed no code the entry was issued for, and is told of fewer attempts
      than a code has, but never of a negative number. */
  lemma RejectedWasWrong(cfg: Config, start: int, steps: seq<Step>, p: nat)
    requires start > 0
    requires var s := Run(cfg, start, steps);
      p in s.procs && s.procs[p].VerifyCompared? && s.procs[p].phase.Rejected?
    ensures var s := Run(cfg, start, steps);
      && 0 <= s.procs[p].phase.remaining < cfg.maxAttempts
      && s.procs[p].obj < |s.sh.objects|
      && !MatchesStoredCode(s.sh.objects[s.procs[p].obj].code, s.procs[p].guess, cfg.hmac)
  {
    AlwaysInv(cfg, start, steps);
    var s := Run(cfg, start, steps);
    assert ProcFits(cfg, s.sh, s.hist, p, s.procs[p]);
  }

  /** Whatever is stored at any time is, but for its attempts and its mark, an entry that was issued. */
  lemma StoredWasIssued(cfg: Config, start: int, steps: seq<Step>)
    requires start > 0
    ensures var s := Run(cfg, start, steps);
      s.sh.slot.Some? ==> s.sh.slot.value < |s.sh.objects| && EntryFits(cfg, s.sh.objects[s.sh.slot.value], s.hist.issued)
  {
    AlwaysInv(cfg, start, steps);
  }

  // ---------- The steps are the storage's operations ----------

  /** What the storage holds. */
  function View(sh: Shared): Scope {
    Scope(if sh.slot.Some? && sh.slot.value < |sh.objects| then Some(sh.objects[sh.slot.value]) else None, sh.cooldown, sh.counter)
  }

  /** `consumeAttempt` in the machine is the storage operation, for both kinds of storage; a caller that
      goes on holds the entry the operation answered. */
  lemma ConsumeIsAtomic(cfg: Config, s: State, p: nat, guess: string, seat: nat)
    requires s.sh.slot.Some? ==> s.sh.slot.value < |s.sh.objects|
    ensures var t := ConsumeFor(cfg, s, p, guess, seat); var (scope, result) := ConsumeAttempt(View(s.sh), s.sh.now);
      && View(t.sh) == scope
      && (match result
          case NotFound => t.procs[p] == VerifyRefused(NoCode)
          case MaxAttempts => t.procs[p] == VerifyRefused(TooMany)
          case Consumed(e) => t.procs[p].VerifyCompared? && t.procs[p].obj < |t.sh.objects|
                              && t.sh.objects[t.procs[p].obj] == e)
  {
  }

  predicate WritesBack(cfg: Config, s: State, proc: Proc) {
    proc.VerifyCompared? && proc.phase == FailuresCleared && !cfg.consumeOnVerify && proc.obj < |s.sh.objects|
  }

  /** `recordFailure`, `tryAcquireCooldown` and the write-back are the storage operations too. */
  lemma OtherStepsAreAtomic(cfg: Config, s: State, p: nat, guess: string)
    requires s.sh.slot.Some? ==> s.sh.slot.value < |s.sh.objects|
    requires p in s.procs
    ensures View(CountAttempt(cfg, s, p, guess).sh) == RecordFailure(View(s.sh), s.sh.now, cfg.ttl).0
    ensures s.procs[p].GenerateStart? ==>
      var t := ActGenerate(cfg, s, p, s.procs[p], Works); var (scope, won) := TryAcquireCooldown(View(s.sh), s.sh.now, cfg.cooldown);
      View(t.sh) == scope && (won <==> t.procs[p].GenerateLocked?)
    ensures WritesBack(cfg, s, s.procs[p]) ==>
      View(ActVerify(cfg, s, p, s.procs[p], Works).sh) == Update(View(s.sh), s.sh.objects[s.procs[p].obj].(validated := true))
  {
  }

  // ---------- How many verifications are compared ----------

  /** The verifications that reached the comparison with a ticket from `log[i..j]`. */
  ghost function Compared(s: State, i: nat, j: nat): set<nat> {
    set p | p in s.procs && s.procs[p].VerifyCompared? && i <= s.procs[p].seat < j
  }

  lemma OneMore(before: set<nat>, all: set<nat>, extra: nat)
    requires forall p :: p in all ==> p in before || p == extra
    ensures |all| <= |before| + 1
  {
    Included(all, before + {extra});
  }

  lemma Included(small: set<nat>, large: set<nat>)
    requires small <= large
    ensures |small| <= |large|
  {
    assert large == small + (large - small);
  }

  lemma {:induction false} ComparedAdmitted(cfg: Config, s: State, i: nat, j: nat)
    requires Inv(cfg, s) && i <= j <= |s.hist.failures|
    ensures |Compared(s, i, j)| <= F.Admitted(s.hist.failures, i, j, cfg.maxAttempts)
    decreases j
  {
    if i == j {
      assert Compared(s, i, j) == {};
    } else {
      ComparedAdmitted(cfg, s, i, j - 1);
      var e := s.hist.failures[j - 1];
      forall p | p in Compared(s, i, j) && p !in Compared(s, i, j - 1) ensures SeatFits(cfg, s.hist, p, j - 1) {
        assert ProcFits(cfg, s.sh, s.hist, p, s.procs[p]);
      }
      if e.Recorded? && e.ticket <= cfg.maxAttempts {
        OneMore(Compared(s, i, j - 1), Compared(s, i, j), if j - 1 in s.hist.seats then s.hist.seats[j - 1] else 0);
      } else {
        Included(Compared(s, i, j), Compared(s, i, j - 1));
      }
    }
  }

  /** Between two resets of the failure counter, in any interleaving, at most `maxAttempts`
      verifications reach the comparison, however many codes are issued meanwhile. */
  lemma AtMostMaxAttemptsCompared(cfg: Config, start: int, steps: seq<Step>, i: nat, j: nat)
    requires start > 0
    requires var log := Run(cfg, start, steps).hist.failures;
      i <= j <= |log| && F.NoClear(log, i, j) && forall k :: i < k < j ==> log[k].ticket != 1
    ensures |Compared(Run(cfg, start, steps), i, j)| <= cfg.maxAttempts
  {
    AlwaysInv(cfg, start, steps);
    var s := Run(cfg, start, steps);
    ComparedAdmitted(cfg, s, i, j);
    F.LifetimeBound(s.hist.failures, i, j, cfg.ttl, cfg.maxAttempts);
  }

  /** In any window in which the counter is not cleared, the number of compared verifications is bounded
      by the time the window spans. */
  lemma ComparedInWindow(cfg: Config, start: int, steps: seq<Step>, i: nat, j: nat, span: int)
    requires start > 0 && cfg.ttl > 0
    requires var log := Run(cfg, start, steps).hist.failures;
      i < j <= |log| && F.NoClear(log, i, j) && log[j - 1].at - log[i].at <= span
    ensures |Compared(Run(cfg, start, steps), i, j)| <= cfg.maxAttempts * (1 + span / cfg.ttl)
  {
    var s := Run(cfg, start, steps);
    var bound := cfg.maxAttempts * (1 + span / cfg.ttl);
    assert F.ValidLog(s.hist.failures, cfg.ttl) && |Compared(s, i, j)| <= F.Admitted(s.hist.failures, i, j, cfg.maxAttempts) by {
      AlwaysInv(cfg, start, steps);
      ComparedAdmitted(cfg, s, i, j);
    }
    assert F.Admitted(s.hist.failures, i, j, cfg.maxAttempts) <= bound by {
      F.WindowBound(s.hist.failures, i, j, cfg.ttl, cfg.maxAttempts, span);
    }
  }

  // ---------- How often the cooldown is acquired ----------

  predicate HasLock(proc: Proc) {
    || proc.GenerateLocked? || proc.GenerateBuilt? || proc.GenerateStored? || proc.GenerateFailing?
    || proc.GenerateReleasing? || proc.GenerateDone?
  }

  /** The generations that acquired the cooldown in `log[i..j]`. */
  ghost function Acquired(s: State, i: nat, j: nat): set<nat> {
    set p | p in s.procs && HasLock(s.procs[p]) && i <= s.procs[p].lock < j
  }

  lemma {:induction false} AcquiredWon(cfg: Config, s: State, i: nat, j: nat)
    requires Inv(cfg, s) && i <= j <= |s.hist.cooldowns|
    ensures |Acquired(s, i, j)| <= C.Wins(s.hist.cooldowns, i, j)
    decreases j
  {
    if i == j {
      assert Acquired(s, i, j) == {};
    } else {
      AcquiredWon(cfg, s, i, j - 1);
      var e := s.hist.cooldowns[j - 1];
      forall p | p in Acquired(s, i, j) && p !in Acquired(s, i, j - 1) ensures LockFits(s.hist, p, j - 1) {
        assert ProcFits(cfg, s.sh, s.hist, p, s.procs[p]);
      }
      if e.Tried? && e.won {
        OneMore(Acquired(s, i, j - 1), Acquired(s, i, j), if j - 1 in s.hist.locks then s.hist.locks[j - 1] else 0);
      } else {
        Included(Acquired(s, i, j), Acquired(s, i, j - 1));
      }
    }
  }

  /** In any window, over every interleaving, at most one generation passes the cooldown, one more for
      every cooldown length that fits into the window, and one more for every clear. */
  lemma AcquiredInWindow(cfg: Config, start: int, steps: seq<Step>, i: nat, j: nat, span: int)
    requires start > 0 && cfg.cooldown > 0
    requires var log := Run(cfg, start, steps).hist.cooldowns;
      i < j <= |log| && log[j - 1].at - log[i].at <= span
    ensures var s := Run(cfg, start, steps);
      |Acquired(s, i, j)| <= 1 + span / cfg.cooldown + C.Clears(s.hist.cooldowns, i, j)
  {
    AlwaysInv(cfg, start, steps);
    var s := Run(cfg, start, steps);
    AcquiredWon(cfg, s, i, j);
    C.AcquireBound(s.hist.cooldowns, i, j, cfg.cooldown, span);
  }
}
