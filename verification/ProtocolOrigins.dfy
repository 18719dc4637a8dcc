/** Which issued code a stored entry goes back to, over whole runs. */
module ProtocolOrigins {
  import opened Options
  import opened Codes
  import opened Issuing
  import opened OtpScope
  import opened Protocol
  import opened ProtocolSafety

  /** A state of the machine, and for every entry object the one that a generate built and of which it is,
      in one or more steps, a copy. */
  datatype Tracked = Tracked(state: State, origins: seq<nat>)

  /** The object that the object created by a step is a copy of, if it is one. */
  function SourceOf(s: State, step: Step): Option<nat> {
    if step.Act? && step.p in s.procs then
      match s.procs[step.p]
      case VerifyCounted(_, _) => LiveSlot(s.sh)
      case VerifyCompared(_, _, obj, _, _) => Some(obj)
      case _ => None
    else None
  }

  function NewOrigin(t: Tracked, step: Step): nat {
    match SourceOf(t.state, step)
    case Some(i) => if i < |t.origins| then t.origins[i] else |t.origins|
    case None => |t.origins|
  }

  function Track(cfg: Config, t: Tracked, step: Step): Tracked {
    var next := Next(cfg, t.state, step);
    Tracked(next, if |next.sh.objects| > |t.state.sh.objects| then t.origins + [NewOrigin(t, step)] else t.origins)
  }

  function TrackRun(cfg: Config, start: int, steps: seq<Step>): Tracked
    decreases |steps|
  {
    if steps == [] then Tracked(Init(start), []) else Track(cfg, TrackRun(cfg, start, steps[..|steps| - 1]), steps[|steps| - 1])
  }

  lemma {:induction false} TrackIsRun(cfg: Config, start: int, steps: seq<Step>)
    ensures TrackRun(cfg, start, steps).state == Run(cfg, start, steps)
    decreases |steps|
  {
    if steps != [] {
      TrackIsRun(cfg, start, steps[..|steps| - 1]);
    }
  }

  lemma TrackMore(cfg: Config, start: int, steps: seq<Step>, step: Step)
    ensures TrackRun(cfg, start, steps + [step]) == Track(cfg, TrackRun(cfg, start, steps), step)
  {
    assert (steps + [step])[..|steps|] == steps;
  }

  /** The issue that the stored entry goes back to. */
  function StoredOrigin(t: Tracked): Option<nat> {
    if t.state.sh.slot.Some? && t.state.sh.slot.value < |t.origins| then Some(t.origins[t.state.sh.slot.value]) else None
  }

  // ---------- Where verified entries are consumed ----------

  predicate BuiltFits(t: Tracked, p: nat)
    requires p in t.state.procs
  {
    var proc := t.state.procs[p];
    proc.GenerateBuilt? ==> proc.obj < |t.origins| && t.origins[proc.obj] == proc.obj && t.state.sh.slot != Some(proc.obj)
  }

  predicate HoldsObject(t: Tracked, p: nat)
    requires p in t.state.procs
  {
    t.state.procs[p].VerifyCompared? ==> t.state.procs[p].obj < |t.origins|
  }

  predicate SameBuilt(t: Tracked, p: nat, q: nat)
    requires p in t.state.procs && q in t.state.procs
  {
    t.state.procs[p].GenerateBuilt? && t.state.procs[q].GenerateBuilt? && t.state.procs[p].obj == t.state.procs[q].obj
  }

  /** Objects are copies of earlier ones, and a built one is stored by its caller or not at all. */
  ghost predicate Linked(t: Tracked) {
    && |t.origins| == |t.state.sh.objects| && (forall i :: 0 <= i < |t.origins| ==> t.origins[i] <= i)
    && (t.state.sh.slot.Some? ==> t.state.sh.slot.value < |t.origins|)
    && (forall p :: p in t.state.procs ==> BuiltFits(t, p) && HoldsObject(t, p))
    && (forall p, q :: p in t.state.procs && q in t.state.procs && p != q ==> !SameBuilt(t, p, q))
  }

  /** What is stored is no copy. */
  ghost predicate Traced(t: Tracked) {
    Linked(t) && (t.state.sh.slot.Some? ==> t.origins[t.state.sh.slot.value] == t.state.sh.slot.value)
  }

  /** The object is nobody's to store any more. */
  ghost predicate Spent(t: Tracked, i: nat) {
    i < |t.state.sh.objects| && forall p :: p in t.state.procs && t.state.procs[p].GenerateBuilt? ==> t.state.procs[p].obj != i
  }

  /** A caller that has built an entry had built it before, or builds it in this very step. */
  ghost predicate BuiltBefore(s: State, n: State, step: Step, q: nat)
    requires q in n.procs
  {
    n.procs[q].GenerateBuilt? ==>
      || (q in s.procs && s.procs[q] == n.procs[q] && !(step.Act? && step.p == q))
      || (step.Act? && step.p == q && n.procs[q].obj == |s.sh.objects| && |n.sh.objects| == |s.sh.objects| + 1
          && n.sh.slot == s.sh.slot && SourceOf(s, step) == None)
  }

  /** An entry is stored by the caller that built it. */
  predicate Stores(s: State, n: State, step: Step) {
    step.Act? && step.p in s.procs && s.procs[step.p].GenerateBuilt? && n.sh.slot == Some(s.procs[step.p].obj)
  }

  /** A verification stores a copy of the entry it holds. */
  predicate WritesACopy(cfg: Config, s: State, n: State, step: Step) {
    && !cfg.consumeOnVerify && step.Act? && step.p in s.procs && s.procs[step.p].VerifyCompared?
    && |n.sh.objects| == |s.sh.objects| + 1 && n.sh.slot == Some(|s.sh.objects|)
  }

  /** A step moves one caller, if any. */
  lemma OthersStay(cfg: Config, s: State, step: Step, q: nat)
    requires q in Next(cfg, s, step).procs && !(step.Act? && step.p == q) && !(step.Arrive? && step.p == q)
    ensures q in s.procs && Next(cfg, s, step).procs[q] == s.procs[q]
  {
  }

  lemma ActorBuilds(cfg: Config, s: State, p: nat, answer: Answer)
    requires p in s.procs && Next(cfg, s, Act(p, answer)).procs[p].GenerateBuilt?
    ensures BuiltBefore(s, Next(cfg, s, Act(p, answer)), Act(p, answer), p)
  {
  }

  lemma BuiltShape(cfg: Config, s: State, step: Step, q: nat)
    requires q in Next(cfg, s, step).procs
    ensures BuiltBefore(s, Next(cfg, s, step), step, q)
  {
    if step.Act? && step.p == q {
      if Next(cfg, s, step).procs[q].GenerateBuilt? {
        ActorBuilds(cfg, s, q, step.answer);
      }
    } else if !(step.Arrive? && step.p == q) {
      OthersStay(cfg, s, step, q);
    }
  }

  lemma StoreShape(cfg: Config, s: State, step: Step)
    ensures var n := Next(cfg, s, step);
      && |s.sh.objects| <= |n.sh.objects| <= |s.sh.objects| + 1
      && (n.sh.slot == s.sh.slot || n.sh.slot == None || Stores(s, n, step) || WritesACopy(cfg, s, n, step))
  {
  }

  lemma StepShape(cfg: Config, s: State, step: Step)
    ensures var n := Next(cfg, s, step);
      && |s.sh.objects| <= |n.sh.objects| <= |s.sh.objects| + 1
      && (n.sh.slot == s.sh.slot || n.sh.slot == None || Stores(s, n, step) || WritesACopy(cfg, s, n, step))
      && forall q :: q in n.procs ==> BuiltBefore(s, n, step, q)
  {
    StoreShape(cfg, s, step);
    forall q | q in Next(cfg, s, step).procs ensures BuiltBefore(s, Next(cfg, s, step), step, q) {
      BuiltShape(cfg, s, step, q);
    }
  }

  /** An attempt hands its caller an object that is there. */
  lemma CountedHolds(cfg: Config, t: Tracked, p: nat, answer: Answer)
    requires |t.origins| == |t.state.sh.objects| && p in t.state.procs && t.state.procs[p].VerifyCounted?
    ensures HoldsObject(Track(cfg, t, Act(p, answer)), p)
  {
    assert Next(cfg, t.state, Act(p, answer)) == ConsumeFor(cfg, t.state, p, t.state.procs[p].guess, t.state.procs[p].seat);
  }

  /** From then on the caller keeps it. */
  lemma ComparedHolds(cfg: Config, t: Tracked, p: nat, answer: Answer)
    requires |t.origins| == |t.state.sh.objects| && p in t.state.procs && t.state.procs[p].VerifyCompared? && HoldsObject(t, p)
    ensures HoldsObject(Track(cfg, t, Act(p, answer)), p)
  {
    assert Next(cfg, t.state, Act(p, answer)) == ActVerify(cfg, t.state, p, t.state.procs[p], answer);
  }

  /** Nobody else comes to hold one. */
  lemma OthersHoldNone(cfg: Config, s: State, p: nat, answer: Answer)
    requires p in s.procs && !s.procs[p].VerifyCounted? && !s.procs[p].VerifyCompared?
    ensures !Next(cfg, s, Act(p, answer)).procs[p].VerifyCompared?
  {
  }

  lemma ActorHolds(cfg: Config, t: Tracked, p: nat, answer: Answer)
    requires |t.origins| == |t.state.sh.objects| && p in t.state.procs && HoldsObject(t, p)
    ensures HoldsObject(Track(cfg, t, Act(p, answer)), p)
  {
    if t.state.procs[p].VerifyCounted? {
      CountedHolds(cfg, t, p, answer);
    } else if t.state.procs[p].VerifyCompared? {
      ComparedHolds(cfg, t, p, answer);
    } else {
      OthersHoldNone(cfg, t.state, p, answer);
    }
  }

  lemma HoldsStep(cfg: Config, t: Tracked, step: Step, p: nat)
    requires Linked(t) && p in Track(cfg, t, step).state.procs
    ensures HoldsObject(Track(cfg, t, step), p)
  {
    if step.Act? && step.p == p {
      assert p in t.state.procs ==> HoldsObject(t, p);
      if p in t.state.procs {
        ActorHolds(cfg, t, p, step.answer);
      }
    } else if !(step.Arrive? && step.p == p) {
      OthersStay(cfg, t.state, step, p);
      assert HoldsObject(t, p);
    } else {
      assert p in t.state.procs ==> HoldsObject(t, p);
    }
  }

  lemma LinkedStep(cfg: Config, t: Tracked, step: Step)
    requires Linked(t)
    ensures Linked(Track(cfg, t, step))
  {
    StepShape(cfg, t.state, step);
    var u := Track(cfg, t, step);
    assert forall i :: 0 <= i < |t.origins| ==> u.origins[i] == t.origins[i];
    forall p | p in u.state.procs ensures BuiltFits(u, p) && HoldsObject(u, p) {
      HoldsStep(cfg, t, step, p);
      assert BuiltBefore(t.state, u.state, step, p);
      assert p in t.state.procs ==> BuiltFits(t, p);
    }
    forall p, q | p in u.state.procs && q in u.state.procs && p != q ensures !SameBuilt(u, p, q) {
      assert BuiltBefore(t.state, u.state, step, p) && BuiltBefore(t.state, u.state, step, q);
      assert p in t.state.procs && q in t.state.procs ==> !SameBuilt(t, p, q);
      assert p in t.state.procs ==> BuiltFits(t, p);
      assert q in t.state.procs ==> BuiltFits(t, q);
    }
  }

  lemma TracedStep(cfg: Config, t: Tracked, step: Step)
    requires cfg.consumeOnVerify && Traced(t)
    ensures Traced(Track(cfg, t, step))
  {
    LinkedStep(cfg, t, step);
    StoreShape(cfg, t.state, step);
    if step.Act? && step.p in t.state.procs {
      assert BuiltFits(t, step.p);
    }
  }

  lemma {:induction false} RunTraced(cfg: Config, start: int, steps: seq<Step>)
    requires cfg.consumeOnVerify
    ensures Traced(TrackRun(cfg, start, steps))
    decreases |steps|
  {
    if steps != [] {
      var n := |steps| - 1;
      RunTraced(cfg, start, steps[..n]);
      TracedStep(cfg, TrackRun(cfg, start, steps[..n]), steps[n]);
    }
  }

  /** An object that is nobody's to store stays so, and comes to be stored by no step. */
  lemma SpentStep(cfg: Config, t: Tracked, step: Step, i: nat)
    requires cfg.consumeOnVerify && Spent(t, i)
    ensures var u := Track(cfg, t, step);
      Spent(u, i) && (u.state.sh.slot == Some(i) ==> t.state.sh.slot == Some(i))
  {
    StepShape(cfg, t.state, step);
    var u := Track(cfg, t, step);
    forall p | p in u.state.procs && u.state.procs[p].GenerateBuilt? ensures u.state.procs[p].obj != i {
      assert BuiltBefore(t.state, u.state, step, p);
    }
  }

  lemma {:induction false} SpentStays(cfg: Config, start: int, steps: seq<Step>, a: nat, c: nat, i: nat)
    requires cfg.consumeOnVerify && a <= c <= |steps| && Spent(TrackRun(cfg, start, steps[..a]), i)
    ensures var t, u := TrackRun(cfg, start, steps[..a]), TrackRun(cfg, start, steps[..c]);
      Spent(u, i) && (u.state.sh.slot == Some(i) ==> t.state.sh.slot == Some(i))
    decreases c
  {
    if a < c {
      SpentStays(cfg, start, steps, a, c - 1, i);
      assert steps[..c][..c - 1] == steps[..c - 1];
      SpentStep(cfg, TrackRun(cfg, start, steps[..c - 1]), steps[c - 1], i);
    }
  }

  /** A code is stored after `a` steps, gone after `b`, and back after `c`. */
  predicate Returns(cfg: Config, start: int, steps: seq<Step>, a: nat, b: nat, c: nat) {
    && a <= b <= c <= |steps|
    && StoredOrigin(TrackRun(cfg, start, steps[..a])).Some?
    && StoredOrigin(TrackRun(cfg, start, steps[..b])) != StoredOrigin(TrackRun(cfg, start, steps[..a]))
    && StoredOrigin(TrackRun(cfg, start, steps[..c])) == StoredOrigin(TrackRun(cfg, start, steps[..a]))
  }

  /** Where a verification consumes the entry, a code that is gone stays gone, in every interleaving. */
  lemma NeverReturns(cfg: Config, start: int, steps: seq<Step>, a: nat, b: nat, c: nat)
    requires cfg.consumeOnVerify
    ensures !Returns(cfg, start, steps, a, b, c)
  {
    if a <= b <= c <= |steps| {
      RunTraced(cfg, start, steps[..a]);
      RunTraced(cfg, start, steps[..b]);
      RunTraced(cfg, start, steps[..c]);
      var stored := TrackRun(cfg, start, steps[..a]).state.sh.slot;
      if stored.Some? {
        StoredIsSpent(TrackRun(cfg, start, steps[..a]));
        SpentStays(cfg, start, steps, a, b, stored.value);
        SpentStays(cfg, start, steps, b, c, stored.value);
      }
    }
  }

  lemma StoredIsSpent(t: Tracked)
    requires Traced(t) && t.state.sh.slot.Some?
    ensures Spent(t, t.state.sh.slot.value)
  {
    forall p | p in t.state.procs && t.state.procs[p].GenerateBuilt? ensures t.state.procs[p].obj != t.state.sh.slot.value {
      assert BuiltFits(t, p);
    }
  }

  // ---------- How often one code is compared and accepted ----------

  /** The verifications that consumed an attempt of the code `g`, and those of them that were accepted. */
  ghost function Consumers(t: Tracked, g: nat): set<nat> {
    set p | p in t.state.procs && ConsumerOf(t, p, g)
  }

  predicate ConsumerOf(t: Tracked, p: nat, g: nat)
    requires p in t.state.procs
  {
    var proc := t.state.procs[p];
    proc.VerifyCompared? && proc.obj < |t.origins| && t.origins[proc.obj] == g
  }

  ghost function AcceptedOf(t: Tracked, g: nat): set<nat> {
    set p | p in Consumers(t, g) && t.state.procs[p].phase == Accepted
  }

  /** Every attempt was counted on the stored object. */
  ghost predicate Counted(t: Tracked, g: nat) {
    if g < |t.state.sh.objects| then |Consumers(t, g)| <= t.state.sh.objects[g].attempts else Consumers(t, g) == {}
  }

  lemma AttemptsGrow(cfg: Config, s: State, step: Step, i: nat)
    requires i < |s.sh.objects|
    ensures var n := Next(cfg, s, step); i < |n.sh.objects| && s.sh.objects[i].attempts <= n.sh.objects[i].attempts
  {
  }

  /** The step counts an attempt on the stored object, which goes back to `g`, and hands it to `p`: the object
      itself or a copy. */
  predicate JoinsConsumers(cfg: Config, t: Tracked, step: Step, p: nat, g: nat) {
    var s, u := t.state, Next(cfg, t.state, step);
    && step.Act? && step.p == p && s.sh.slot.Some? && s.sh.slot.value < |t.origins| && s.sh.slot.value < |s.sh.objects|
    && var i := s.sh.slot.value;
    && t.origins[i] == g && u.sh.slot == s.sh.slot && s.sh.objects[i].attempts < s.sh.objects[i].maxAttempts
    && i < |u.sh.objects| && u.sh.objects[i].attempts == s.sh.objects[i].attempts + 1
    && p in u.procs && u.procs[p].VerifyCompared? && u.procs[p].obj == (if cfg.aliased then i else |s.sh.objects|)
    && |u.sh.objects| == (if cfg.aliased then |s.sh.objects| else |s.sh.objects| + 1)
    && (!cfg.aliased ==> u.sh.objects[|s.sh.objects|].attempts == s.sh.objects[i].attempts + 1)
  }

  lemma CountedConsumes(cfg: Config, t: Tracked, p: nat, answer: Answer, g: nat)
    requires Linked(t) && p in t.state.procs && t.state.procs[p].VerifyCounted?
    requires ConsumerOf(Track(cfg, t, Act(p, answer)), p, g)
    ensures JoinsConsumers(cfg, t, Act(p, answer), p, g)
  {
    var proc := t.state.procs[p];
    assert Next(cfg, t.state, Act(p, answer)) == ConsumeFor(cfg, t.state, p, proc.guess, proc.seat);
    assert LiveSlot(t.state.sh).Some?;
  }

  /** What a verification holds, and of which issue that is, does not change. */
  lemma ComparedKeepsObject(cfg: Config, s: State, p: nat, answer: Answer)
    requires p in s.procs && s.procs[p].VerifyCompared?
    ensures var n := Next(cfg, s, Act(p, answer)); n.procs[p].VerifyCompared? && n.procs[p].obj == s.procs[p].obj
  {
  }

  /** A verification joins the consumers of `g` only by the step that counts an attempt on it. */
  lemma ConsumerShape(cfg: Config, t: Tracked, step: Step, p: nat, g: nat)
    requires Linked(t)
    requires p in Track(cfg, t, step).state.procs && ConsumerOf(Track(cfg, t, step), p, g)
    ensures p in t.state.procs
    ensures ConsumerOf(t, p, g) || JoinsConsumers(cfg, t, step, p, g)
  {
    if step.Act? && step.p == p {
      ActorConsumes(cfg, t, p, step.answer, g);
    } else if !(step.Arrive? && step.p == p) {
      OthersStay(cfg, t.state, step, p);
      assert HoldsObject(t, p);
    }
  }

  lemma ActorConsumes(cfg: Config, t: Tracked, p: nat, answer: Answer, g: nat)
    requires Linked(t) && p in t.state.procs
    requires ConsumerOf(Track(cfg, t, Act(p, answer)), p, g)
    ensures ConsumerOf(t, p, g) || JoinsConsumers(cfg, t, Act(p, answer), p, g)
  {
    if t.state.procs[p].VerifyCounted? {
      CountedConsumes(cfg, t, p, answer, g);
    } else if t.state.procs[p].VerifyCompared? {
      ComparedKeepsObject(cfg, t.state, p, answer);
      assert HoldsObject(t, p);
    } else {
      OthersHoldNone(cfg, t.state, p, answer);
    }
  }

  lemma CountedStep(cfg: Config, t: Tracked, step: Step, g: nat)
    requires cfg.consumeOnVerify && Traced(t) && Counted(t, g)
    ensures Counted(Track(cfg, t, step), g)
  {
    var u := Track(cfg, t, step);
    forall p | p in Consumers(u, g) ensures p in Consumers(t, g) || JoinsConsumers(cfg, t, step, p, g) {
      ConsumerShape(cfg, t, step, p, g);
    }
    if g < |t.state.sh.objects| {
      AttemptsGrow(cfg, t.state, step, g);
      if p :| p in Consumers(u, g) && JoinsConsumers(cfg, t, step, p, g) {
        OneMore(Consumers(t, g), Consumers(u, g), p);
      } else {
        Included(Consumers(u, g), Consumers(t, g));
      }
    }
  }

  lemma {:induction false} RunCounted(cfg: Config, start: int, steps: seq<Step>, g: nat)
    requires cfg.consumeOnVerify
    ensures Counted(TrackRun(cfg, start, steps), g)
    decreases |steps|
  {
    if steps != [] {
      var n := |steps| - 1;
      RunCounted(cfg, start, steps[..n], g);
      RunTraced(cfg, start, steps[..n]);
      CountedStep(cfg, TrackRun(cfg, start, steps[..n]), steps[n], g);
    }
  }

  /** Where a verification consumes the entry, at most `maxAttempts` verifications consume an attempt of one
      issued code, in every interleaving: no more can be accepted. */
  lemma ComparedPerCode(cfg: Config, start: int, steps: seq<Step>, g: nat)
    requires cfg.consumeOnVerify && start > 0
    ensures |Consumers(TrackRun(cfg, start, steps), g)| <= cfg.maxAttempts
    ensures |AcceptedOf(TrackRun(cfg, start, steps), g)| <= cfg.maxAttempts
  {
    var t := TrackRun(cfg, start, steps);
    RunCounted(cfg, start, steps, g);
    TrackIsRun(cfg, start, steps);
    AlwaysInv(cfg, start, steps);
    if g < |t.state.sh.objects| {
      assert EntryFits(cfg, t.state.sh.objects[g], t.state.hist.issued);
    }
    Included(AcceptedOf(t, g), Consumers(t, g));
  }
}
