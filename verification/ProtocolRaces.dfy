/** What interleaving does break, and exactly when: a late `update` can bring back a code that was consumed,
    one code can be accepted more than once, and a failed `generate` can release what another one took. */
module ProtocolRaces {
  import opened Options
  import opened Codes
  import opened Issuing
  import opened OtpScope
  import opened Protocol
  import opened ProtocolOrigins
  import opened ProtocolSafety
  import F = CounterLog
  import C = CooldownLog

  // ---------- Pieces of runs ----------

  /** No caller but `p` moved, nor did the clock. */
  predicate OnlyCaller(t: Tracked, u: Tracked, p: nat) {
    && p in u.state.procs && u.state.sh.now == t.state.sh.now
    && (forall q :: q in t.state.procs && q != p ==> q in u.state.procs && u.state.procs[q] == t.state.procs[q])
    && (forall q :: q in u.state.procs && q != p ==> q in t.state.procs)
  }

  predicate SameShared(t: Tracked, u: Tracked) {
    && u.state.sh.objects == t.state.sh.objects && u.origins == t.origins && u.state.sh.slot == t.state.sh.slot
    && u.state.sh.cooldown == t.state.sh.cooldown && u.state.sh.counter == t.state.sh.counter
  }

  predicate Locks(cfg: Config, t: Tracked, u: Tracked) {
    && u.state.sh.objects == t.state.sh.objects && u.origins == t.origins && u.state.sh.slot == t.state.sh.slot
    && u.state.sh.cooldown == C.Until(t.state.sh.now + cfg.cooldown) && u.state.sh.counter == t.state.sh.counter
  }

  predicate Builds(cfg: Config, t: Tracked, u: Tracked, code: string) {
    && u.state.sh.objects == t.state.sh.objects + [IssuedEntry(cfg, t.state.sh.now, code)] && u.origins == t.origins + [|t.origins|]
    && u.state.sh.slot == t.state.sh.slot && u.state.sh.cooldown == t.state.sh.cooldown && u.state.sh.counter == t.state.sh.counter
  }

  /** The scope once the cooldown was taken, the entry for `code` built, and `slot` stored. */
  predicate Issues(cfg: Config, t: Tracked, u: Tracked, code: string, slot: Option<nat>) {
    && u.state.sh.objects == t.state.sh.objects + [IssuedEntry(cfg, t.state.sh.now, code)] && u.origins == t.origins + [|t.origins|]
    && u.state.sh.slot == slot && u.state.sh.counter == t.state.sh.counter
    && u.state.sh.cooldown == C.Until(t.state.sh.now + cfg.cooldown)
  }

  /** No step of a release fails. */
  predicate StepReleases(s: State, step: Step) {
    step.Act? && step.answer.Fails? && step.p in s.procs
    ==> !s.procs[step.p].GenerateFailing? && !s.procs[step.p].GenerateReleasing?
  }

  predicate ReleasesWork(cfg: Config, start: int, steps: seq<Step>)
    decreases |steps|
  {
    steps != [] ==>
      var before := steps[..|steps| - 1];
      ReleasesWork(cfg, start, before) && StepReleases(TrackRun(cfg, start, before).state, steps[|steps| - 1])
  }

  /** Step by step from the run `steps` on. */
  lemma Goes(cfg: Config, start: int, steps: seq<Step>, step: Step) returns (longer: seq<Step>)
    ensures longer == steps + [step] && steps <= longer
    ensures TrackRun(cfg, start, longer) == Track(cfg, TrackRun(cfg, start, steps), step)
    ensures ReleasesWork(cfg, start, steps) && StepReleases(TrackRun(cfg, start, steps).state, step) ==> ReleasesWork(cfg, start, longer)
  {
    longer := steps + [step];
    TrackMore(cfg, start, steps, step);
    assert longer[..|longer| - 1] == steps;
  }

  lemma ArriveRuns(cfg: Config, start: int, steps: seq<Step>, p: nat, proc: Proc) returns (longer: seq<Step>)
    requires Arrives(proc) && p !in TrackRun(cfg, start, steps).state.procs
    ensures steps <= longer
    ensures var t, u := TrackRun(cfg, start, steps), TrackRun(cfg, start, longer);
      OnlyCaller(t, u, p) && SameShared(t, u) && u.state.procs[p] == proc
    ensures ReleasesWork(cfg, start, steps) ==> ReleasesWork(cfg, start, longer)
  {
    longer := Goes(cfg, start, steps, Arrive(p, proc));
  }

  lemma LockStep(cfg: Config, t: Tracked, p: nat)
    requires p in t.state.procs && t.state.procs[p] == GenerateStart && !C.Held(t.state.sh.cooldown, t.state.sh.now)
    ensures var u := Track(cfg, t, Act(p, Works));
      OnlyCaller(t, u, p) && u.state.procs[p].GenerateLocked? && Locks(cfg, t, u)
  {
  }

  lemma DrawStep(cfg: Config, t: Tracked, p: nat, code: string)
    requires p in t.state.procs && t.state.procs[p].GenerateLocked? && |t.origins| == |t.state.sh.objects|
    requires IsCode(code, cfg.length, cfg.codeType)
    ensures var u := Track(cfg, t, Act(p, Draws(code)));
      OnlyCaller(t, u, p) && u.state.procs[p].GenerateBuilt? && u.state.procs[p].obj == |t.origins| && Builds(cfg, t, u, code)
  {
  }

  lemma StoreStep(cfg: Config, t: Tracked, p: nat)
    requires p in t.state.procs && t.state.procs[p].GenerateBuilt?
    ensures var u := Track(cfg, t, Act(p, Works));
      && OnlyCaller(t, u, p) && u.state.procs[p].GenerateStored? && u.state.sh.slot == Some(t.state.procs[p].obj)
      && u.state.sh.objects == t.state.sh.objects && u.origins == t.origins
      && u.state.sh.cooldown == t.state.sh.cooldown && u.state.sh.counter == t.state.sh.counter
  {
  }

  /** A caller takes the cooldown and builds an entry. */
  lemma BuildRuns(cfg: Config, start: int, steps: seq<Step>, p: nat, code: string) returns (longer: seq<Step>)
    requires var t := TrackRun(cfg, start, steps);
      p !in t.state.procs && !C.Held(t.state.sh.cooldown, t.state.sh.now) && |t.origins| == |t.state.sh.objects|
    requires IsCode(code, cfg.length, cfg.codeType)
    ensures steps <= longer
    ensures var t, u := TrackRun(cfg, start, steps), TrackRun(cfg, start, longer);
      && OnlyCaller(t, u, p) && u.state.procs[p].GenerateBuilt? && u.state.procs[p].obj == |t.origins|
      && Issues(cfg, t, u, code, t.state.sh.slot)
    ensures ReleasesWork(cfg, start, steps) ==> ReleasesWork(cfg, start, longer)
  {
    longer := ArriveRuns(cfg, start, steps, p, GenerateStart);
    LockStep(cfg, TrackRun(cfg, start, longer), p);
    longer := Goes(cfg, start, longer, Act(p, Works));
    DrawStep(cfg, TrackRun(cfg, start, longer), p, code);
    longer := Goes(cfg, start, longer, Act(p, Draws(code)));
  }

  /** A caller generates `code`, up to its being stored. */
  lemma GenerateRuns(cfg: Config, start: int, steps: seq<Step>, p: nat, code: string) returns (longer: seq<Step>)
    requires var t := TrackRun(cfg, start, steps);
      p !in t.state.procs && !C.Held(t.state.sh.cooldown, t.state.sh.now) && |t.origins| == |t.state.sh.objects|
    requires IsCode(code, cfg.length, cfg.codeType)
    ensures steps <= longer
    ensures var t, u := TrackRun(cfg, start, steps), TrackRun(cfg, start, longer);
      OnlyCaller(t, u, p) && u.state.procs[p].GenerateStored? && Issues(cfg, t, u, code, Some(|t.origins|))
    ensures ReleasesWork(cfg, start, steps) ==> ReleasesWork(cfg, start, longer)
  {
    longer := BuildRuns(cfg, start, steps, p, code);
    StoreStep(cfg, TrackRun(cfg, start, longer), p);
    longer := Goes(cfg, start, longer, Act(p, Works));
  }

  // ---------- Pieces of a verification ----------

  lemma ReadStep(cfg: Config, t: Tracked, p: nat, guess: string)
    requires p in t.state.procs && t.state.procs[p] == VerifyStart(guess) && LiveSlot(t.state.sh).Some?
    ensures var u := Track(cfg, t, Act(p, Works));
      OnlyCaller(t, u, p) && SameShared(t, u) && u.state.procs[p] == VerifyLive(guess)
  {
  }

  lemma CountStep(cfg: Config, t: Tracked, p: nat, guess: string)
    requires p in t.state.procs && t.state.procs[p] == VerifyLive(guess)
    requires F.LiveFailures(t.state.sh.counter, t.state.sh.now) < cfg.maxAttempts
    ensures var u := Track(cfg, t, Act(p, Works));
      && OnlyCaller(t, u, p) && u.state.procs[p].VerifyCounted? && u.state.procs[p].guess == guess
      && u.state.sh.objects == t.state.sh.objects && u.origins == t.origins
      && u.state.sh.slot == t.state.sh.slot && u.state.sh.cooldown == t.state.sh.cooldown
  {
  }

  /** The stored entry, as a verification that is about to match it. */
  predicate Matchable(cfg: Config, t: Tracked, guess: string) {
    && |t.origins| == |t.state.sh.objects| && LiveSlot(t.state.sh).Some? && LiveSlot(t.state.sh).value < |t.state.sh.objects|
    && var e := t.state.sh.objects[LiveSlot(t.state.sh).value];
    e.attempts < e.maxAttempts && MatchesStoredCode(e.code, guess, cfg.hmac)
  }

  /** The entry the caller `p` holds goes back to the issue `g`, and matches its guess. */
  predicate Holds(cfg: Config, u: Tracked, p: nat, g: nat, code: string, phase: Phase) {
    && p in u.state.procs && u.state.procs[p].VerifyCompared? && u.state.procs[p].phase == phase
    && |u.origins| == |u.state.sh.objects| && u.state.procs[p].obj < |u.origins| && u.origins[u.state.procs[p].obj] == g
    && u.state.sh.objects[u.state.procs[p].obj].code == code && MatchesStoredCode(code, u.state.procs[p].guess, cfg.hmac)
    && Live(u.state.sh.objects[u.state.procs[p].obj], u.state.sh.now)
  }

  /** The stored entry is the same object with one attempt more; the other objects are as they were. */
  predicate OneAttemptMore(t: Tracked, u: Tracked) {
    && u.state.sh.slot == t.state.sh.slot && u.state.sh.now == t.state.sh.now && u.state.sh.cooldown == t.state.sh.cooldown
    && t.origins <= u.origins && |u.state.sh.objects| == |u.origins|
    && t.state.sh.slot.Some? && t.state.sh.slot.value < |t.state.sh.objects| <= |u.state.sh.objects|
    && var i := t.state.sh.slot.value;
    && u.state.sh.objects[i] == t.state.sh.objects[i].(attempts := t.state.sh.objects[i].attempts + 1)
    && forall j :: 0 <= j < |t.state.sh.objects| && j != i ==> u.state.sh.objects[j] == t.state.sh.objects[j]
  }

  /** The caller got the stored object itself or, last of all objects, a copy. */
  predicate Handed(cfg: Config, t: Tracked, u: Tracked, p: nat) {
    && p in u.state.procs && u.state.procs[p].VerifyCompared?
    && LiveSlot(t.state.sh).Some? && LiveSlot(t.state.sh).value < |t.state.sh.objects|
    && var i, obj := LiveSlot(t.state.sh).value, u.state.procs[p].obj;
    && obj == (if cfg.aliased then i else |t.state.sh.objects|) && obj < |u.state.sh.objects|
    && u.state.sh.objects[obj] == t.state.sh.objects[i].(attempts := t.state.sh.objects[i].attempts + 1)
  }

  lemma HoldsStays(cfg: Config, t: Tracked, u: Tracked, p: nat, q: nat, g: nat, code: string, phase: Phase)
    requires Holds(cfg, t, q, g, code, phase) && q != p && OnlyCaller(t, u, p) && OneAttemptMore(t, u)
    ensures Holds(cfg, u, q, g, code, phase)
  {
  }

  lemma HoldsOn(cfg: Config, t: Tracked, u: Tracked, p: nat, q: nat, g: nat, code: string, phase: Phase)
    requires Holds(cfg, t, q, g, code, phase) && q != p && OnlyCaller(t, u, p) && |u.origins| == |u.state.sh.objects|
    requires t.state.sh.objects <= u.state.sh.objects && t.origins <= u.origins
    ensures Holds(cfg, u, q, g, code, phase)
  {
  }

  lemma ConsumeStep(cfg: Config, t: Tracked, p: nat)
    requires p in t.state.procs && t.state.procs[p].VerifyCounted? && Matchable(cfg, t, t.state.procs[p].guess)
    ensures var u, i := Track(cfg, t, Act(p, Works)), LiveSlot(t.state.sh).value;
      && OnlyCaller(t, u, p) && OneAttemptMore(t, u)
      && Holds(cfg, u, p, t.origins[i], t.state.sh.objects[i].code, Comparing) && Handed(cfg, t, u, p)
  {
  }

  lemma MatchStep(cfg: Config, t: Tracked, p: nat, g: nat, code: string)
    requires Holds(cfg, t, p, g, code, Comparing)
    ensures var u := Track(cfg, t, Act(p, Works));
      && OnlyCaller(t, u, p) && SameShared(t, u) && Holds(cfg, u, p, g, code, Matched)
      && u.state.procs[p].obj == t.state.procs[p].obj
  {
  }

  lemma ClearStep(cfg: Config, t: Tracked, p: nat, g: nat, code: string)
    requires Holds(cfg, t, p, g, code, Matched)
    ensures var u := Track(cfg, t, Act(p, Works));
      && OnlyCaller(t, u, p) && u.state.sh.counter == F.NoCounter
      && u.state.sh.objects == t.state.sh.objects && u.origins == t.origins
      && u.state.sh.slot == t.state.sh.slot && u.state.sh.cooldown == t.state.sh.cooldown
      && Holds(cfg, u, p, g, code, FailuresCleared) && u.state.procs[p].obj == t.state.procs[p].obj
  {
  }

  /** A caller arrives with a guess and has its attempt counted. */
  lemma CountRuns(cfg: Config, start: int, steps: seq<Step>, p: nat, guess: string) returns (longer: seq<Step>)
    requires var t := TrackRun(cfg, start, steps);
      p !in t.state.procs && LiveSlot(t.state.sh).Some? && F.LiveFailures(t.state.sh.counter, t.state.sh.now) < cfg.maxAttempts
    ensures steps <= longer
    ensures var t, u := TrackRun(cfg, start, steps), TrackRun(cfg, start, longer);
      && OnlyCaller(t, u, p) && u.state.procs[p].VerifyCounted? && u.state.procs[p].guess == guess
      && u.state.sh.objects == t.state.sh.objects && u.origins == t.origins
      && u.state.sh.slot == t.state.sh.slot && u.state.sh.cooldown == t.state.sh.cooldown
  {
    longer := ArriveRuns(cfg, start, steps, p, VerifyStart(guess));
    ReadStep(cfg, TrackRun(cfg, start, longer), p, guess);
    longer := Goes(cfg, start, longer, Act(p, Works));
    CountStep(cfg, TrackRun(cfg, start, longer), p, guess);
    longer := Goes(cfg, start, longer, Act(p, Works));
  }

  /** It consumes an attempt of the stored code and clears the failure counter. */
  lemma MatchRuns(cfg: Config, start: int, steps: seq<Step>, p: nat) returns (longer: seq<Step>)
    requires var t := TrackRun(cfg, start, steps);
      p in t.state.procs && t.state.procs[p].VerifyCounted? && Matchable(cfg, t, t.state.procs[p].guess)
    ensures steps <= longer
    ensures var t, u := TrackRun(cfg, start, steps), TrackRun(cfg, start, longer);
      var i := LiveSlot(t.state.sh).value;
      && OnlyCaller(t, u, p) && OneAttemptMore(t, u) && u.state.sh.counter == F.NoCounter
      && Holds(cfg, u, p, t.origins[i], t.state.sh.objects[i].code, FailuresCleared) && Handed(cfg, t, u, p)
  {
    var t := TrackRun(cfg, start, steps);
    var i := LiveSlot(t.state.sh).value;
    ConsumeStep(cfg, t, p);
    longer := Goes(cfg, start, steps, Act(p, Works));
    MatchStep(cfg, TrackRun(cfg, start, longer), p, t.origins[i], t.state.sh.objects[i].code);
    longer := Goes(cfg, start, longer, Act(p, Works));
    ClearStep(cfg, TrackRun(cfg, start, longer), p, t.origins[i], t.state.sh.objects[i].code);
    longer := Goes(cfg, start, longer, Act(p, Works));
  }

  /** A caller verifies the stored code, up to its having cleared the failure counter. */
  lemma VerifyRuns(cfg: Config, start: int, steps: seq<Step>, p: nat, guess: string) returns (longer: seq<Step>)
    requires p !in TrackRun(cfg, start, steps).state.procs && Matchable(cfg, TrackRun(cfg, start, steps), guess)
    requires var sh := TrackRun(cfg, start, steps).state.sh; F.LiveFailures(sh.counter, sh.now) < cfg.maxAttempts
    ensures steps <= longer
    ensures var t, u := TrackRun(cfg, start, steps), TrackRun(cfg, start, longer);
      var i := LiveSlot(t.state.sh).value;
      && OnlyCaller(t, u, p) && OneAttemptMore(t, u) && u.state.sh.counter == F.NoCounter
      && Holds(cfg, u, p, t.origins[i], t.state.sh.objects[i].code, FailuresCleared) && Handed(cfg, t, u, p)
  {
    longer := CountRuns(cfg, start, steps, p, guess);
    longer := MatchRuns(cfg, start, longer, p);
  }

  // ---------- A consumed code comes back ----------

  lemma DeleteStep(cfg: Config, t: Tracked, p: nat)
    requires p in t.state.procs && t.state.procs[p] == ConsumeStart
    ensures var u := Track(cfg, t, Act(p, Works));
      && OnlyCaller(t, u, p) && u.state.procs[p] == ConsumeDeleted && u.state.sh.slot == None
      && u.state.sh.objects == t.state.sh.objects && u.origins == t.origins
  {
  }

  lemma UnlockStep(cfg: Config, t: Tracked, p: nat)
    requires p in t.state.procs && t.state.procs[p] == ConsumeDeleted
    ensures var u := Track(cfg, t, Act(p, Works));
      && OnlyCaller(t, u, p) && u.state.procs[p] == ConsumeUnlocked && u.state.sh.cooldown == C.Free
      && u.state.sh.slot == t.state.sh.slot && u.state.sh.objects == t.state.sh.objects && u.origins == t.origins
  {
  }

  lemma ForgetStep(cfg: Config, t: Tracked, p: nat)
    requires p in t.state.procs && t.state.procs[p] == ConsumeUnlocked
    ensures var u := Track(cfg, t, Act(p, Works));
      && OnlyCaller(t, u, p) && u.state.procs[p] == ConsumeDone && u.state.sh.cooldown == t.state.sh.cooldown
      && u.state.sh.slot == t.state.sh.slot && u.state.sh.objects == t.state.sh.objects && u.origins == t.origins
  {
  }

  /** A caller consumes the scope. */
  lemma ConsumeRuns(cfg: Config, start: int, steps: seq<Step>, p: nat) returns (longer: seq<Step>)
    requires p !in TrackRun(cfg, start, steps).state.procs
    ensures steps <= longer
    ensures var t, u := TrackRun(cfg, start, steps), TrackRun(cfg, start, longer);
      && OnlyCaller(t, u, p) && u.state.procs[p] == ConsumeDone && u.state.sh.slot == None && u.state.sh.cooldown == C.Free
      && u.state.sh.objects == t.state.sh.objects && u.origins == t.origins
  {
    longer := ArriveRuns(cfg, start, steps, p, ConsumeStart);
    DeleteStep(cfg, TrackRun(cfg, start, longer), p);
    longer := Goes(cfg, start, longer, Act(p, Works));
    UnlockStep(cfg, TrackRun(cfg, start, longer), p);
    longer := Goes(cfg, start, longer, Act(p, Works));
    ForgetStep(cfg, TrackRun(cfg, start, longer), p);
    longer := Goes(cfg, start, longer, Act(p, Works));
  }

  /** A caller writes back the entry it verified, whatever is stored by now. */
  lemma WriteBackStep(cfg: Config, t: Tracked, p: nat, g: nat, code: string)
    requires !cfg.consumeOnVerify && t.state.sh.slot.Some? && Holds(cfg, t, p, g, code, FailuresCleared)
    ensures var u := Track(cfg, t, Act(p, Works));
      && OnlyCaller(t, u, p) && StoredOrigin(u) == Some(g)
      && u.state.sh.objects == t.state.sh.objects + [t.state.sh.objects[t.state.procs[p].obj].(validated := true)]
      && u.state.sh.slot == Some(|t.state.sh.objects|) && u.origins == t.origins + [g] && u.state.sh.counter == t.state.sh.counter
      && Holds(cfg, u, p, g, code, Accepted)
  {
  }

  lemma StartsEmpty(cfg: Config, start: int)
    ensures TrackRun(cfg, start, []) == Tracked(Init(start), [])
  {
  }

  /** A freshly issued code can be matched. */
  lemma IssuedIsMatchable(cfg: Config, t: Tracked, u: Tracked, code: string)
    requires ValidConfig(cfg) && cfg.maxAttempts > 0 && IsCode(code, cfg.length, cfg.codeType)
    requires |t.origins| == |t.state.sh.objects| && u.state.sh.now == t.state.sh.now
    requires Issues(cfg, t, u, code, Some(|t.origins|))
    ensures Matchable(cfg, u, code) && LiveSlot(u.state.sh) == Some(|t.origins|)
  {
    AcceptedGuesses(code, cfg.length, cfg.codeType, cfg.hmac, cfg.hmac, code);
  }

  /** A code is issued and verified, the verifier stopping short of its write-back. */
  lemma IssuedAndVerified(cfg: Config, start: int, code: string) returns (issued: seq<Step>, steps: seq<Step>)
    requires ValidConfig(cfg) && cfg.maxAttempts > 0 && IsCode(code, cfg.length, cfg.codeType)
    ensures issued <= steps && StoredOrigin(TrackRun(cfg, start, issued)) == Some(0)
    ensures var t := TrackRun(cfg, start, steps);
      && t.state.sh.now == start && Holds(cfg, t, 1, 0, StoredForm(code, cfg.hmac), FailuresCleared)
      && 2 !in t.state.procs && 3 !in t.state.procs
  {
    StartsEmpty(cfg, start);
    var none: seq<Step> := [];
    issued := GenerateRuns(cfg, start, none, 0, code);
    IssuedIsMatchable(cfg, TrackRun(cfg, start, none), TrackRun(cfg, start, issued), code);
    steps := VerifyRuns(cfg, start, issued, 1, code);
  }

  /** Then the scope is consumed and a second code issued. */
  lemma ConsumedInBetween(cfg: Config, start: int, first: string, second: string)
    returns (issued: seq<Step>, consumed: seq<Step>, steps: seq<Step>)
    requires ValidConfig(cfg) && cfg.maxAttempts > 0
    requires IsCode(first, cfg.length, cfg.codeType) && IsCode(second, cfg.length, cfg.codeType)
    ensures issued <= consumed <= steps
    ensures StoredOrigin(TrackRun(cfg, start, issued)) == Some(0)
    ensures StoredOrigin(TrackRun(cfg, start, consumed)) == None
    ensures var t := TrackRun(cfg, start, steps);
      && t.state.sh.now == start && t.state.sh.slot.Some? && Holds(cfg, t, 1, 0, StoredForm(first, cfg.hmac), FailuresCleared)
      && 2 in t.state.procs && t.state.procs[2] == ConsumeDone && 3 in t.state.procs && t.state.procs[3].GenerateStored?
  {
    var form := StoredForm(first, cfg.hmac);
    var verified: seq<Step>;
    issued, verified := IssuedAndVerified(cfg, start, first);
    consumed := ConsumeRuns(cfg, start, verified, 2);
    HoldsOn(cfg, TrackRun(cfg, start, verified), TrackRun(cfg, start, consumed), 2, 1, 0, form, FailuresCleared);
    steps := GenerateRuns(cfg, start, consumed, 3, second);
    HoldsOn(cfg, TrackRun(cfg, start, consumed), TrackRun(cfg, start, steps), 3, 1, 0, form, FailuresCleared);
  }

  /** Where entries outlive their verification, and for any two codes: some run consumes the first code,
      then issues and stores the second, and ends with the first one stored again. */
  lemma ConsumedCodeReturns(cfg: Config, start: int, first: string, second: string) returns (steps: seq<Step>, a: nat, b: nat)
    requires ValidConfig(cfg) && cfg.maxAttempts > 0 && !cfg.consumeOnVerify
    requires IsCode(first, cfg.length, cfg.codeType) && IsCode(second, cfg.length, cfg.codeType)
    ensures Returns(cfg, start, steps, a, b, |steps|)
    ensures var t := TrackRun(cfg, start, steps);
      && 2 in t.state.procs && t.state.procs[2] == ConsumeDone && 3 in t.state.procs && t.state.procs[3].GenerateStored?
      && LiveSlot(t.state.sh).Some? && LiveSlot(t.state.sh).value < |t.state.sh.objects|
      && MatchesStoredCode(t.state.sh.objects[LiveSlot(t.state.sh).value].code, first, cfg.hmac)
  {
    AcceptedGuesses(first, cfg.length, cfg.codeType, cfg.hmac, cfg.hmac, first);
    var issued, consumed, before := ConsumedInBetween(cfg, start, first, second);
    WriteBackStep(cfg, TrackRun(cfg, start, before), 1, 0, StoredForm(first, cfg.hmac));
    steps := Goes(cfg, start, before, Act(1, Works));
    a, b := |issued|, |consumed|;
    assert steps[..a] == issued && steps[..b] == consumed && steps[..|steps|] == steps;
  }

  function SomeCode(cfg: Config): (code: string)
    requires ValidConfig(cfg)
    ensures IsCode(code, cfg.length, cfg.codeType)
  {
    seq(cfg.length, i => CharsetFor(cfg.codeType)[0])
  }

  /** A stored code that is gone stays gone in every interleaving, if and only if verifying consumes. */
  lemma StaysGoneIff(cfg: Config)
    requires ValidConfig(cfg) && cfg.maxAttempts > 0
    ensures (forall start, steps, a, b, c :: !Returns(cfg, start, steps, a, b, c)) <==> cfg.consumeOnVerify
  {
    if cfg.consumeOnVerify {
      forall start, steps, a, b, c ensures !Returns(cfg, start, steps, a, b, c) {
        NeverReturns(cfg, start, steps, a, b, c);
      }
    } else {
      var steps, a, b := ConsumedCodeReturns(cfg, 1, SomeCode(cfg), SomeCode(cfg));
    }
  }

  // ---------- One code is accepted twice ----------

  lemma EraseStep(cfg: Config, t: Tracked, p: nat, g: nat, code: string)
    requires cfg.consumeOnVerify && Holds(cfg, t, p, g, code, FailuresCleared)
    ensures var u := Track(cfg, t, Act(p, Works));
      && OnlyCaller(t, u, p) && u.state.sh.objects == t.state.sh.objects && u.origins == t.origins
      && Holds(cfg, u, p, g, code, EntryDeleted)
  {
  }

  lemma AcceptStep(cfg: Config, t: Tracked, p: nat, g: nat, code: string)
    requires Holds(cfg, t, p, g, code, EntryDeleted)
    ensures var u := Track(cfg, t, Act(p, Works));
      && OnlyCaller(t, u, p) && u.state.sh.objects == t.state.sh.objects && u.origins == t.origins
      && Holds(cfg, u, p, g, code, Accepted)
  {
  }

  /** A caller that has cleared the failure counter deletes the entry, or writes it back, and is accepted. */
  lemma AcceptRuns(cfg: Config, start: int, steps: seq<Step>, p: nat, g: nat, code: string) returns (longer: seq<Step>)
    requires Holds(cfg, TrackRun(cfg, start, steps), p, g, code, FailuresCleared)
    requires cfg.consumeOnVerify || TrackRun(cfg, start, steps).state.sh.slot.Some?
    ensures var t, u := TrackRun(cfg, start, steps), TrackRun(cfg, start, longer);
      && OnlyCaller(t, u, p) && t.state.sh.objects <= u.state.sh.objects && t.origins <= u.origins
      && Holds(cfg, u, p, g, code, Accepted) && (cfg.consumeOnVerify || u.state.sh.slot.Some?)
  {
    if cfg.consumeOnVerify {
      EraseStep(cfg, TrackRun(cfg, start, steps), p, g, code);
      longer := Goes(cfg, start, steps, Act(p, Works));
      AcceptStep(cfg, TrackRun(cfg, start, longer), p, g, code);
      longer := Goes(cfg, start, longer, Act(p, Works));
    } else {
      WriteBackStep(cfg, TrackRun(cfg, start, steps), p, g, code);
      longer := Goes(cfg, start, steps, Act(p, Works));
    }
  }

  lemma StillMatchable(cfg: Config, t: Tracked, u: Tracked, guess: string)
    requires Matchable(cfg, t, guess) && OneAttemptMore(t, u)
    requires var e := t.state.sh.objects[LiveSlot(t.state.sh).value]; e.attempts + 1 < e.maxAttempts
    ensures Matchable(cfg, u, guess) && LiveSlot(u.state.sh) == LiveSlot(t.state.sh)
    ensures u.origins[LiveSlot(u.state.sh).value] == t.origins[LiveSlot(t.state.sh).value]
    ensures u.state.sh.objects[LiveSlot(u.state.sh).value].code == t.state.sh.objects[LiveSlot(t.state.sh).value].code
  {
  }

  /** Two verifications consume an attempt of one code before either has deleted it. */
  lemma BothHold(cfg: Config, start: int, code: string) returns (steps: seq<Step>)
    requires ValidConfig(cfg) && cfg.maxAttempts > 1 && IsCode(code, cfg.length, cfg.codeType)
    ensures var t, stored := TrackRun(cfg, start, steps), StoredForm(code, cfg.hmac);
      && Holds(cfg, t, 1, 0, stored, FailuresCleared) && Holds(cfg, t, 2, 0, stored, FailuresCleared)
      && t.state.sh.slot.Some?
  {
    StartsEmpty(cfg, start);
    var none: seq<Step> := [];
    var issued := GenerateRuns(cfg, start, none, 0, code);
    IssuedIsMatchable(cfg, TrackRun(cfg, start, none), TrackRun(cfg, start, issued), code);
    var once := VerifyRuns(cfg, start, issued, 1, code);
    StillMatchable(cfg, TrackRun(cfg, start, issued), TrackRun(cfg, start, once), code);
    steps := VerifyRuns(cfg, start, once, 2, code);
    HoldsStays(cfg, TrackRun(cfg, start, once), TrackRun(cfg, start, steps), 2, 1, 0, StoredForm(code, cfg.hmac), FailuresCleared);
  }

  lemma AcceptedTwice(cfg: Config, start: int, code: string) returns (steps: seq<Step>)
    requires ValidConfig(cfg) && cfg.maxAttempts > 1 && IsCode(code, cfg.length, cfg.codeType)
    ensures {1, 2} <= AcceptedOf(TrackRun(cfg, start, steps), 0)
  {
    var form := StoredForm(code, cfg.hmac);
    var both := BothHold(cfg, start, code);
    var first := AcceptRuns(cfg, start, both, 1, 0, form);
    HoldsOn(cfg, TrackRun(cfg, start, both), TrackRun(cfg, start, first), 1, 2, 0, form, FailuresCleared);
    steps := AcceptRuns(cfg, start, first, 2, 0, form);
    HoldsOn(cfg, TrackRun(cfg, start, first), TrackRun(cfg, start, steps), 2, 1, 0, form, Accepted);
  }

  // ---------- A release takes too much ----------

  lemma VerifyLogs(cfg: Config, s: State, p: nat, proc: Proc, answer: Answer)
    ensures s.hist.cooldowns <= ActVerify(cfg, s, p, proc, answer).hist.cooldowns
  {
  }

  lemma GenerateLogs(cfg: Config, s: State, p: nat, proc: Proc, answer: Answer)
    ensures s.hist.cooldowns <= ActGenerate(cfg, s, p, proc, answer).hist.cooldowns
  {
  }

  lemma LogGrows(cfg: Config, s: State, step: Step)
    ensures s.hist.cooldowns <= Next(cfg, s, step).hist.cooldowns
  {
    if step.Act? && step.p in s.procs {
      VerifyLogs(cfg, s, step.p, s.procs[step.p], step.answer);
      GenerateLogs(cfg, s, step.p, s.procs[step.p], step.answer);
    }
  }

  lemma {:induction false} LogsGrow(cfg: Config, start: int, steps: seq<Step>, a: nat)
    requires a <= |steps|
    ensures Run(cfg, start, steps[..a]).hist.cooldowns <= Run(cfg, start, steps).hist.cooldowns
    decreases |steps|
  {
    if a == |steps| {
      assert steps[..a] == steps;
    } else {
      var n := |steps| - 1;
      assert steps[..n][..a] == steps[..a];
      LogsGrow(cfg, start, steps[..n], a);
      LogGrows(cfg, Run(cfg, start, steps[..n]), steps[n]);
    }
  }

  lemma ClearedIsFree(cfg: Config, s: State, p: nat)
    requires p in s.procs && s.procs[p].GenerateFailing?
    ensures var log := Next(cfg, s, Act(p, Works)).hist.cooldowns; C.Replay(log, cfg.cooldown) == C.Free
  {
    var log := s.hist.cooldowns + [C.Cleared(s.sh.now)];
    assert Next(cfg, s, Act(p, Works)).hist.cooldowns == log && log[|log| - 1] == C.Cleared(s.sh.now);
  }

  lemma ReleaseDeletes(cfg: Config, s: State, p: nat)
    requires p in s.procs && s.procs[p].GenerateReleasing?
    ensures Next(cfg, s, Act(p, Works)).sh == s.sh.(slot := None)
  {
  }

  /** A failing caller clears the cooldown by its step `a` and comes to delete the entry after `steps`. The
      scope is then locked with nothing stored, if and only if somebody took the cooldown in between and
      still holds it. */
  lemma ReleaseLeavesLockedIff(cfg: Config, start: int, steps: seq<Step>, a: nat, p: nat)
    requires start > 0 && ValidConfig(cfg) && a < |steps| && steps[a] == Act(p, Works)
    requires var s := Run(cfg, start, steps[..a]); p in s.procs && s.procs[p].GenerateFailing?
    requires var s := Run(cfg, start, steps); p in s.procs && s.procs[p].GenerateReleasing?
    ensures var s, n := Run(cfg, start, steps), |Run(cfg, start, steps[..a + 1]).hist.cooldowns|;
      var t := Next(cfg, s, Act(p, Works));
      && t.sh.slot == None
      && (C.Held(t.sh.cooldown, t.sh.now) <==>
           exists k: nat :: n <= k < |s.hist.cooldowns| && C.HoldsFrom(s.hist.cooldowns, k, cfg.cooldown, t.sh.now))
  {
    var s, cleared := Run(cfg, start, steps), Run(cfg, start, steps[..a + 1]);
    assert steps[..a + 1][..a] == steps[..a];
    ClearedIsFree(cfg, Run(cfg, start, steps[..a]), p);
    LogsGrow(cfg, start, steps, a + 1);
    AlwaysInv(cfg, start, steps);
    var log, n := s.hist.cooldowns, |cleared.hist.cooldowns|;
    assert log[..n] == cleared.hist.cooldowns;
    forall k | 0 <= k < |log| ensures log[k].at > 0 {
      assert C.EventFits(log, k, cfg.cooldown);
    }
    C.HeldSince(log, n, cfg.cooldown, s.sh.now);
    ReleaseDeletes(cfg, s, p);
  }

  lemma FailStep(cfg: Config, t: Tracked, p: nat)
    requires p in t.state.procs && t.state.procs[p].GenerateBuilt?
    ensures var u := Track(cfg, t, Act(p, Fails(false)));
      OnlyCaller(t, u, p) && u.state.procs[p].GenerateFailing? && SameShared(t, u)
  {
  }

  lemma ReleaseStep(cfg: Config, t: Tracked, p: nat)
    requires p in t.state.procs && t.state.procs[p].GenerateFailing?
    ensures var u := Track(cfg, t, Act(p, Works));
      && OnlyCaller(t, u, p) && u.state.procs[p].GenerateReleasing? && u.state.sh.cooldown == C.Free
      && u.state.sh.objects == t.state.sh.objects && u.origins == t.origins
  {
  }

  lemma DeliverStep(cfg: Config, t: Tracked, p: nat)
    requires p in t.state.procs && t.state.procs[p].GenerateStored?
    ensures var u := Track(cfg, t, Act(p, Works));
      OnlyCaller(t, u, p) && u.state.procs[p].GenerateDone? && u.state.procs[p].delivered && SameShared(t, u)
  {
  }

  lemma OrphanStep(cfg: Config, t: Tracked, p: nat)
    requires p in t.state.procs && t.state.procs[p].GenerateReleasing?
    ensures var u := Track(cfg, t, Act(p, Works));
      OnlyCaller(t, u, p) && u.state.sh.slot == None && u.state.sh.cooldown == t.state.sh.cooldown
  {
  }

  /** A caller builds an entry, fails to store it, and clears the cooldown. */
  lemma FailRuns(cfg: Config, start: int, steps: seq<Step>, p: nat, code: string) returns (longer: seq<Step>)
    requires var t := TrackRun(cfg, start, steps);
      p !in t.state.procs && !C.Held(t.state.sh.cooldown, t.state.sh.now) && |t.origins| == |t.state.sh.objects|
    requires IsCode(code, cfg.length, cfg.codeType)
    ensures steps <= longer
    ensures var t, u := TrackRun(cfg, start, steps), TrackRun(cfg, start, longer);
      && OnlyCaller(t, u, p) && u.state.procs[p].GenerateReleasing? && u.state.sh.cooldown == C.Free
      && |u.origins| == |u.state.sh.objects|
    ensures ReleasesWork(cfg, start, steps) ==> ReleasesWork(cfg, start, longer)
  {
    longer := BuildRuns(cfg, start, steps, p, code);
    FailStep(cfg, TrackRun(cfg, start, longer), p);
    longer := Goes(cfg, start, longer, Act(p, Fails(false)));
    ReleaseStep(cfg, TrackRun(cfg, start, longer), p);
    longer := Goes(cfg, start, longer, Act(p, Works));
  }

  /** A failed generate is done, and its scope is locked with no live code. */
  predicate LocksOut(cfg: Config, s: State, step: Step) {
    var t := Next(cfg, s, step);
    && step.Act? && step.p in s.procs && (s.procs[step.p].GenerateFailing? || s.procs[step.p].GenerateReleasing?)
    && step.p in t.procs && t.procs[step.p].GenerateDone?
    && LiveSlot(t.sh) == None && C.Held(t.sh.cooldown, t.sh.now)
  }

  /** The last step of a release locks its recipient out, if and only if the cooldown is held and stays so, and
      no code is live or the entry is deleted. */
  lemma LocksOutIff(cfg: Config, s: State, p: nat, answer: Answer)
    requires p in s.procs && (s.procs[p].GenerateFailing? || s.procs[p].GenerateReleasing?)
    ensures LocksOut(cfg, s, Act(p, answer))
      <==> C.Held(s.sh.cooldown, s.sh.now)
           && (s.procs[p].GenerateFailing? ==> answer == Fails(false))
           && (answer == Fails(false) ==> LiveSlot(s.sh) == None)
  {
    var t := Next(cfg, s, Act(p, answer));
    if s.procs[p].GenerateReleasing? && answer != Fails(false) {
      assert t.sh == s.sh.(slot := None);
    }
  }

  /** A generate delivers its code, and the release of another is about to leave the scope locked with
      nothing stored. */
  lemma DeliveredBeforeRelease(cfg: Config, start: int, first: string, second: string) returns (steps: seq<Step>)
    requires start > 0 && ValidConfig(cfg) && cfg.cooldown > 0
    requires IsCode(first, cfg.length, cfg.codeType) && IsCode(second, cfg.length, cfg.codeType)
    ensures var s := TrackRun(cfg, start, steps).state;
      && 1 in s.procs && s.procs[1].GenerateDone? && s.procs[1].delivered
      && 0 in s.procs && s.procs[0].GenerateReleasing?
      && C.Held(s.sh.cooldown, s.sh.now) && s.sh.now == start
    ensures ReleasesWork(cfg, start, steps)
  {
    StartsEmpty(cfg, start);
    var none: seq<Step> := [];
    steps := FailRuns(cfg, start, none, 0, first);
    steps := GenerateRuns(cfg, start, steps, 1, second);
    DeliverStep(cfg, TrackRun(cfg, start, steps), 1);
    steps := Goes(cfg, start, steps, Act(1, Works));
  }

  /** Some run in which every release works delivers a code whose entry the release of another generate
      then deletes, with the cooldown still held. */
  lemma DeliveredCodeIsReleased(cfg: Config, start: int, first: string, second: string) returns (steps: seq<Step>)
    requires start > 0 && ValidConfig(cfg) && cfg.cooldown > 0
    requires IsCode(first, cfg.length, cfg.codeType) && IsCode(second, cfg.length, cfg.codeType)
    ensures var s := TrackRun(cfg, start, steps).state;
      && 1 in s.procs && s.procs[1].GenerateDone? && s.procs[1].delivered
      && LocksOut(cfg, s, Act(0, Works))
    ensures ReleasesWork(cfg, start, steps + [Act(0, Works)])
  {
    steps := DeliveredBeforeRelease(cfg, start, first, second);
    OrphanStep(cfg, TrackRun(cfg, start, steps), 0);
    var longer := Goes(cfg, start, steps, Act(0, Works));
  }

  lemma StuckStep(cfg: Config, t: Tracked, p: nat)
    requires p in t.state.procs && t.state.procs[p].GenerateFailing?
    ensures var u := Track(cfg, t, Act(p, Fails(false)));
      && OnlyCaller(t, u, p) && u.state.procs[p].GenerateDone? && !u.state.procs[p].delivered && u.state.sh == t.state.sh
  {
  }

  /** One caller alone, in an outage: the store fails before it has written, and then so does the clearing
      of the cooldown. */
  lemma OutageLocksOut(cfg: Config, start: int, code: string) returns (steps: seq<Step>)
    requires start > 0 && ValidConfig(cfg) && cfg.cooldown > 0 && IsCode(code, cfg.length, cfg.codeType)
    ensures var s := TrackRun(cfg, start, steps).state;
      s.procs.Keys == {0} && LocksOut(cfg, s, Act(0, Fails(false)))
  {
    StartsEmpty(cfg, start);
    var none: seq<Step> := [];
    steps := BuildRuns(cfg, start, none, 0, code);
    FailStep(cfg, TrackRun(cfg, start, steps), 0);
    steps := Goes(cfg, start, steps, Act(0, Fails(false)));
    StuckStep(cfg, TrackRun(cfg, start, steps), 0);
  }

  lemma NoLengthNoLockout(cfg: Config, start: int, steps: seq<Step>, step: Step)
    requires start > 0 && cfg.cooldown <= 0
    ensures !LocksOut(cfg, TrackRun(cfg, start, steps).state, step)
  {
    TrackMore(cfg, start, steps, step);
    TrackIsRun(cfg, start, steps + [step]);
    AlwaysInv(cfg, start, steps + [step]);
    var s := TrackRun(cfg, start, steps + [step]).state;
    C.NeverHeld(s.hist.cooldowns, cfg.cooldown, s.sh.now);
  }

  /** No failed generate leaves its scope locked with no live code, in any run or in any run in which every
      release works, if and only if there is no cooldown. */
  lemma NeverLockedOutIff(cfg: Config)
    requires ValidConfig(cfg)
    ensures (forall start, steps, step :: start > 0 ==> !LocksOut(cfg, TrackRun(cfg, start, steps).state, step)) <==> cfg.cooldown == 0
    ensures (forall start, steps, step :: start > 0 && ReleasesWork(cfg, start, steps + [step])
              ==> !LocksOut(cfg, TrackRun(cfg, start, steps).state, step)) <==> cfg.cooldown == 0
  {
    if cfg.cooldown == 0 {
      forall start, steps, step | start > 0 ensures !LocksOut(cfg, TrackRun(cfg, start, steps).state, step) {
        NoLengthNoLockout(cfg, start, steps, step);
      }
    } else {
      var steps := DeliveredCodeIsReleased(cfg, 1, SomeCode(cfg), SomeCode(cfg));
    }
  }
}
