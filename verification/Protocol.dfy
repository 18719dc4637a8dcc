/** `generate`, `verify` and `consume` run by any number of concurrent callers on one scope. Every storage
    call is one atomic step; between two steps of a caller any others may run, and time may pass. */
module Protocol {
  import opened Options
  import opened Codes
  import opened Issuing
  import opened OtpScope
  import F = CounterLog
  import C = CooldownLog

  /** A code handed to a recipient. */
  datatype Issue = Issue(code: string, expiresAt: int)

  /** The entry objects ever built, which of them is stored, the cooldown and the failure counter. */
  datatype Shared = Shared(now: int, objects: seq<Entry>, slot: Option<nat>, cooldown: C.Cooldown, counter: F.Counter)

  /** What has happened: the counter and cooldown events, which caller took which ticket and which
      lock, and the codes issued. */
  datatype History = History(failures: seq<F.Event>, cooldowns: seq<C.Event>,
                             seats: map<nat, nat>, locks: map<nat, nat>, issued: set<Issue>)

  datatype Phase =
    Comparing | Mismatched | Rejected(remaining: int) | Matched | FailuresCleared | EntryDeleted | Accepted

  datatype Reason = NoCode | TooMany

  /** Where a caller is. `seat` and `lock` are positions in the history; `at` is when the attempt was
      consumed from object `obj`. */
  datatype Proc =
    | VerifyStart(guess: string)
    | VerifyLive(guess: string)
    | VerifyCounted(guess: string, seat: nat)
    | VerifyCompared(guess: string, seat: nat, obj: nat, at: int, phase: Phase)
    | VerifyRefused(reason: Reason)
    | GenerateStart
    | GenerateLocked(lock: nat)
    | GenerateBuilt(lock: nat, obj: nat)
    | GenerateStored(lock: nat, obj: nat)
    | GenerateFailing(lock: nat)
    | GenerateReleasing(lock: nat)
    | GenerateDone(lock: nat, delivered: bool)
    | GenerateBlocked
    | ConsumeStart
    | ConsumeDeleted
    | ConsumeUnlocked
    | ConsumeDone

  datatype State = State(sh: Shared, procs: map<nat, Proc>, hist: History)

  /** How the world answers a step: a storage call or a delivery may fail, before or after taking effect,
      the code generator may draw any code, and a Redis read may lag behind the expiry. A verification or a
      consumption whose call fails throws: it is one that takes no further step. */
  datatype Answer = Works | Fails(after: bool) | Draws(code: string) | Lags

  /** Time passes, a caller arrives, a caller takes its next step, or the store drops the entry (an expired
      key, or an eviction by a status read). */
  datatype Step = Tick(now: int) | Arrive(p: nat, proc: Proc) | Act(p: nat, answer: Answer) | Drop

  predicate Arrives(proc: Proc) {
    proc.VerifyStart? || proc.GenerateStart? || proc.ConsumeStart?
  }

  function Init(now: int): State {
    State(Shared(now, [], None, C.Free, F.NoCounter), map[], History([], [], map[], map[], {}))
  }

  // ---------- Atomic operations on the shared state ----------

  /** The stored object, after dropping an expired one. */
  function LiveSlot(sh: Shared): Option<nat> {
    if sh.slot.Some? && sh.slot.value < |sh.objects| && Live(sh.objects[sh.slot.value], sh.now) then sh.slot else None
  }

  function WithObject(sh: Shared, e: Entry): Shared {
    sh.(objects := sh.objects + [e])
  }

  function ClearFailures(s: State): State {
    s.(sh := s.sh.(counter := F.NoCounter), hist := s.hist.(failures := s.hist.failures + [F.Cleared(s.sh.now)]))
  }

  function ClearCooldown(s: State): State {
    s.(sh := s.sh.(cooldown := C.Free), hist := s.hist.(cooldowns := s.hist.cooldowns + [C.Cleared(s.sh.now)]))
  }

  function DeleteEntry(s: State): State {
    s.(sh := s.sh.(slot := None))
  }

  function SetProc(s: State, p: nat, proc: Proc): State {
    s.(procs := s.procs[p := proc])
  }

  /** A failed call: it may have taken effect all the same. */
  function Failed(s: State, effect: State, answer: Answer): State {
    if answer.Fails? && !answer.after then s else effect
  }

  // ---------- The steps of the three operations ----------

  /** `recordFailure`, and the refusal of a ticket beyond the ceiling. */
  function CountAttempt(cfg: Config, s: State, p: nat, guess: string): State {
    var counted := F.Record(s.sh.counter, s.sh.now, cfg.ttl);
    var seat := |s.hist.failures|;
    var hist := s.hist.(failures := s.hist.failures + [F.Recorded(s.sh.now, counted.count)], seats := s.hist.seats[seat := p]);
    SetProc(State(s.sh.(counter := counted), s.procs, hist), p,
            if counted.count > cfg.maxAttempts then VerifyRefused(TooMany) else VerifyCounted(guess, seat))
  }

  /** The number of the attempt that was counted at a position of the history. */
  function TicketAt(hist: History, seat: nat): nat {
    if seat < |hist.failures| && hist.failures[seat].Recorded? then hist.failures[seat].ticket else 0
  }

  /** `consumeAttempt`: the caller gets the stored object or, from Redis, a copy of it. */
  function ConsumeFor(cfg: Config, s: State, p: nat, guess: string, seat: nat): State {
    match LiveSlot(s.sh)
    case None => SetProc(DeleteEntry(s), p, VerifyRefused(NoCode))
    case Some(i) =>
      if i >= |s.sh.objects| then s
      else if s.sh.objects[i].attempts >= s.sh.objects[i].maxAttempts then
        SetProc(DeleteEntry(s), p, VerifyRefused(TooMany))
      else
        var e := s.sh.objects[i].(attempts := s.sh.objects[i].attempts + 1);
        var sh := s.sh.(objects := s.sh.objects[i := e]);
        if cfg.aliased then SetProc(s.(sh := sh), p, VerifyCompared(guess, seat, i, s.sh.now, Comparing))
        else SetProc(s.(sh := WithObject(sh, e)), p, VerifyCompared(guess, seat, |sh.objects|, s.sh.now, Comparing))
  }

  function ActVerify(cfg: Config, s: State, p: nat, proc: Proc, answer: Answer): State {
    match proc
    case VerifyStart(guess) =>
      if LiveSlot(s.sh).Some? || (answer.Lags? && !cfg.aliased && s.sh.slot.Some?) then SetProc(s, p, VerifyLive(guess))
      else SetProc(DeleteEntry(s), p, VerifyRefused(NoCode))
    case VerifyLive(guess) => CountAttempt(cfg, s, p, guess)
    case VerifyCounted(guess, seat) => ConsumeFor(cfg, s, p, guess, seat)
    case VerifyCompared(guess, seat, obj, at, phase) =>
      if obj >= |s.sh.objects| then s
      else
        var e := s.sh.objects[obj];
        (match phase
         case Comparing =>
           if MatchesStoredCode(e.code, guess, cfg.hmac) then SetProc(s, p, proc.(phase := Matched))
           else SetProc(s, p, proc.(phase := Mismatched))
         case Mismatched => SetProc(s, p, proc.(phase := Rejected(Remaining(cfg, e, TicketAt(s.hist, seat)))))
         case Matched => SetProc(ClearFailures(s), p, proc.(phase := FailuresCleared))
         case FailuresCleared =>
           if cfg.consumeOnVerify then SetProc(DeleteEntry(s), p, proc.(phase := EntryDeleted))
           else if s.sh.slot.Some? then
             var sh := WithObject(s.sh, e.(validated := true));
             SetProc(s.(sh := sh.(slot := Some(|s.sh.objects|))), p, proc.(phase := Accepted))
           else SetProc(s, p, proc.(phase := Accepted))
         case EntryDeleted => SetProc(ClearCooldown(s), p, proc.(phase := Accepted))
         case _ => s)
    case _ => s
  }

  function ActGenerate(cfg: Config, s: State, p: nat, proc: Proc, answer: Answer): State {
    match proc
    case GenerateStart =>
      var won := !C.Held(s.sh.cooldown, s.sh.now);
      var lock := |s.hist.cooldowns|;
      var hist := s.hist.(cooldowns := s.hist.cooldowns + [C.Tried(s.sh.now, won)],
                          locks := if won then s.hist.locks[lock := p] else s.hist.locks);
      if won then SetProc(State(s.sh.(cooldown := C.Until(s.sh.now + cfg.cooldown)), s.procs, hist), p, GenerateLocked(lock))
      else SetProc(s.(hist := hist), p, GenerateBlocked)
    case GenerateLocked(lock) =>
      if answer.Draws? && IsCode(answer.code, cfg.length, cfg.codeType) then
        var expiresAt := s.sh.now + cfg.ttl;
        var e := IssuedEntry(cfg, s.sh.now, answer.code);
        SetProc(State(WithObject(s.sh, e), s.procs, s.hist.(issued := s.hist.issued + {Issue(answer.code, expiresAt)})),
                p, GenerateBuilt(lock, |s.sh.objects|))
      else s
    case GenerateBuilt(lock, obj) =>
      var stored := Failed(s, s.(sh := s.sh.(slot := Some(obj))), answer);
      SetProc(stored, p, if answer.Fails? then GenerateFailing(lock) else GenerateStored(lock, obj))
    case GenerateStored(lock, obj) =>
      SetProc(s, p, if answer.Fails? then GenerateFailing(lock) else GenerateDone(lock, true))
    case GenerateFailing(lock) =>
      SetProc(Failed(s, ClearCooldown(s), answer), p, if answer.Fails? then GenerateDone(lock, false) else GenerateReleasing(lock))
    case GenerateReleasing(lock) => SetProc(Failed(s, DeleteEntry(s), answer), p, GenerateDone(lock, false))
    case _ => s
  }

  function ActConsume(s: State, p: nat, proc: Proc): State {
    match proc
    case ConsumeStart => SetProc(DeleteEntry(s), p, ConsumeDeleted)
    case ConsumeDeleted => SetProc(ClearCooldown(s), p, ConsumeUnlocked)
    case ConsumeUnlocked => SetProc(ClearFailures(s), p, ConsumeDone)
    case _ => s
  }

  predicate IsVerify(proc: Proc) {
    proc.VerifyStart? || proc.VerifyLive? || proc.VerifyCounted? || proc.VerifyCompared? || proc.VerifyRefused?
  }

  predicate IsGenerate(proc: Proc) {
    || proc.GenerateStart? || proc.GenerateLocked? || proc.GenerateBuilt? || proc.GenerateStored?
    || proc.GenerateFailing? || proc.GenerateReleasing? || proc.GenerateDone? || proc.GenerateBlocked?
  }

  function Next(cfg: Config, s: State, step: Step): State {
    match step
    case Tick(now) => if now >= s.sh.now then s.(sh := s.sh.(now := now)) else s
    case Drop => DeleteEntry(s)
    case Arrive(p, proc) => if p !in s.procs && Arrives(proc) then SetProc(s, p, proc) else s
    case Act(p, answer) =>
      if p !in s.procs then s
      else
        var proc := s.procs[p];
        if IsVerify(proc) then ActVerify(cfg, s, p, proc, answer)
        else if IsGenerate(proc) then ActGenerate(cfg, s, p, proc, answer)
        else ActConsume(s, p, proc)
  }

  /** The state after any sequence of steps: every interleaving is one such sequence. */
  function Run(cfg: Config, start: int, steps: seq<Step>): State
    decreases |steps|
  {
    if steps == [] then Init(start) else Next(cfg, Run(cfg, start, steps[..|steps| - 1]), steps[|steps| - 1])
  }
}
