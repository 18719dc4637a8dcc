/** How often one issued code can be attempted when entries outlive their verification: a late `update` writes
    back an older count of attempts. */
module ProtocolAttempts {
  import opened Options
  import opened Codes
  import opened Issuing
  import opened OtpScope
  import opened Protocol
  import opened ProtocolOrigins
  import opened ProtocolRaces
  import opened ProtocolSafety
  import F = CounterLog

  // ---------- What a step does to the objects of one issue ----------

  predicate OfIssue(t: Tracked, i: nat, g: nat) {
    i < |t.origins| && i < |t.state.sh.objects| && t.origins[i] == g
  }

  /** A verification that may still write back what it holds. */
  predicate Pending(proc: Proc) {
    proc.VerifyCompared? && (proc.phase.Comparing? || proc.phase.Matched? || proc.phase.FailuresCleared?)
  }

  predicate IsPending(t: Tracked, p: nat) {
    p in t.state.procs && Pending(t.state.procs[p])
  }

  /** A verification writes a copy of what it holds, and is done. */
  predicate WritesBackFor(t: Tracked, u: Tracked, step: Step, g: nat) {
    && step.Act? && step.p in t.state.procs && ConsumerOf(t, step.p, g) && IsPending(t, step.p) && !IsPending(u, step.p)
    && OfIssue(t, t.state.procs[step.p].obj, g) && |u.state.sh.objects| == |t.state.sh.objects| + 1
    && u.state.sh.slot == Some(|t.state.sh.objects|)
    && u.state.sh.objects[|t.state.sh.objects|].attempts == t.state.sh.objects[t.state.procs[step.p].obj].attempts
  }

  /** An object that a step adds to those of `g` is the issued one itself, or a copy: handed out or written back. */
  predicate AddsFor(cfg: Config, t: Tracked, u: Tracked, step: Step, g: nat) {
    || g == |t.origins|
    || (step.Act? && !cfg.aliased && JoinsConsumers(cfg, t, step, step.p, g))
    || WritesBackFor(t, u, step, g)
  }

  /** Something was handed out to the caller. */
  lemma CountedAdds(cfg: Config, t: Tracked, p: nat, answer: Answer, g: nat)
    requires Linked(t) && p in t.state.procs && t.state.procs[p].VerifyCounted?
    requires OfIssue(Track(cfg, t, Act(p, answer)), |t.origins|, g)
    ensures !cfg.aliased && JoinsConsumers(cfg, t, Act(p, answer), p, g)
  {
    var u := Track(cfg, t, Act(p, answer));
    var proc := t.state.procs[p];
    assert Next(cfg, t.state, Act(p, answer)) == ConsumeFor(cfg, t.state, p, proc.guess, proc.seat);
    assert LiveSlot(t.state.sh).Some?;
  }

  lemma ComparedAdds(cfg: Config, t: Tracked, p: nat, answer: Answer, g: nat)
    requires Linked(t) && p in t.state.procs && t.state.procs[p].VerifyCompared?
    requires OfIssue(Track(cfg, t, Act(p, answer)), |t.origins|, g)
    ensures WritesBackFor(t, Track(cfg, t, Act(p, answer)), Act(p, answer), g)
  {
    assert HoldsObject(t, p);
    assert Next(cfg, t.state, Act(p, answer)) == ActVerify(cfg, t.state, p, t.state.procs[p], answer);
  }

  lemma OthersAdd(cfg: Config, t: Tracked, step: Step, g: nat)
    requires Linked(t) && OfIssue(Track(cfg, t, step), |t.origins|, g)
    requires step.Act? && step.p in t.state.procs ==> !t.state.procs[step.p].VerifyCounted? && !t.state.procs[step.p].VerifyCompared?
    ensures g == |t.origins|
  {
  }

  lemma ObjectAdds(cfg: Config, t: Tracked, step: Step, g: nat)
    requires Linked(t) && OfIssue(Track(cfg, t, step), |t.origins|, g)
    ensures AddsFor(cfg, t, Track(cfg, t, step), step, g)
  {
    if step.Act? && step.p in t.state.procs && t.state.procs[step.p].VerifyCounted? {
      CountedAdds(cfg, t, step.p, step.answer, g);
    } else if step.Act? && step.p in t.state.procs && t.state.procs[step.p].VerifyCompared? {
      ComparedAdds(cfg, t, step.p, step.answer, g);
    } else {
      OthersAdd(cfg, t, step, g);
    }
  }

  /** An object of `g` was there before, with no more attempts, or is new. */
  lemma OfIssueBefore(cfg: Config, t: Tracked, step: Step, i: nat, g: nat)
    requires Linked(t) && OfIssue(Track(cfg, t, step), i, g)
    ensures if i < |t.origins| then OfIssue(t, i, g) && t.state.sh.objects[i].attempts <= Track(cfg, t, step).state.sh.objects[i].attempts
            else i == |t.origins| && AddsFor(cfg, t, Track(cfg, t, step), step, g)
  {
    StoreShape(cfg, t.state, step);
    if i < |t.origins| {
      AttemptsGrow(cfg, t.state, step, i);
    } else {
      ObjectAdds(cfg, t, step, g);
    }
  }

  /** Once a verification cannot write back any more it never can. */
  lemma PendingBefore(cfg: Config, s: State, p: nat, answer: Answer)
    requires p in s.procs && s.procs[p].VerifyCompared? && Pending(Next(cfg, s, Act(p, answer)).procs[p])
    ensures Pending(s.procs[p])
  {
  }

  lemma OthersPersist(cfg: Config, s: State, step: Step, q: nat)
    requires q in s.procs && !(step.Act? && step.p == q)
    ensures q in Next(cfg, s, step).procs && Next(cfg, s, step).procs[q] == s.procs[q]
  {
  }

  /** A consumer of `g` stays one, with the object it has. */
  lemma ConsumerStays(cfg: Config, t: Tracked, step: Step, p: nat, g: nat)
    requires Linked(t) && p in t.state.procs && ConsumerOf(t, p, g)
    ensures var u := Track(cfg, t, step);
      && p in u.state.procs && ConsumerOf(u, p, g) && u.state.procs[p].obj == t.state.procs[p].obj
      && (IsPending(u, p) ==> IsPending(t, p))
  {
    StoreShape(cfg, t.state, step);
    if step.Act? && step.p == p {
      ComparedKeepsObject(cfg, t.state, p, step.answer);
      if IsPending(Track(cfg, t, step), p) {
        PendingBefore(cfg, t.state, p, step.answer);
      }
    } else {
      OthersPersist(cfg, t.state, step, p);
    }
  }

  lemma ConsumersStay(cfg: Config, t: Tracked, step: Step, g: nat)
    requires Linked(t)
    ensures Consumers(t, g) <= Consumers(Track(cfg, t, step), g)
  {
    forall p | p in Consumers(t, g) ensures p in Consumers(Track(cfg, t, step), g) {
      ConsumerStays(cfg, t, step, p, g);
    }
  }

  // ---------- The attempts of one code ----------

  /** Only an attempted code is ever copied. */
  ghost predicate CopiesFit(t: Tracked, g: nat) {
    Consumers(t, g) == {} ==> forall i: nat :: OfIssue(t, i, g) ==> i == g
  }

  /** Every copy of an attempted code remembers an attempt, and nobody stores the code itself any more. */
  ghost predicate AttemptedFits(t: Tracked, g: nat) {
    Consumers(t, g) != {} ==>
      && (forall i: nat :: OfIssue(t, i, g) ==> t.state.sh.objects[i].attempts >= 1)
      && (forall p :: p in t.state.procs && t.state.procs[p].GenerateBuilt? ==> t.state.procs[p].obj != g)
  }

  /** The one consumer has not written back yet: there is no copy. */
  ghost predicate FirstFits(t: Tracked, g: nat) {
    forall p: nat :: Consumers(t, g) == {p} && IsPending(t, p) ==> forall i: nat :: OfIssue(t, i, g) ==> i == g
  }

  /** After two attempts, what is stored or can still be written back remembers two. */
  ghost predicate SecondFits(t: Tracked, g: nat) {
    |Consumers(t, g)| >= 2 ==>
      && (t.state.sh.slot.Some? && OfIssue(t, t.state.sh.slot.value, g) ==> t.state.sh.objects[t.state.sh.slot.value].attempts >= 2)
      && (forall p :: p in Consumers(t, g) && IsPending(t, p) && t.state.procs[p].obj < |t.state.sh.objects|
            ==> t.state.sh.objects[t.state.procs[p].obj].attempts >= 2)
  }

  /** The caller whose step adds to the objects of `g` is one of its consumers. */
  lemma AddedByConsumer(cfg: Config, t: Tracked, step: Step, g: nat)
    requires Linked(t) && step.Act?
    ensures WritesBackFor(t, Track(cfg, t, step), step, g) ==> step.p in Consumers(t, g)
    ensures JoinsConsumers(cfg, t, step, step.p, g) && |Track(cfg, t, step).origins| == |t.origins| ==>
      step.p in Consumers(Track(cfg, t, step), g)
    ensures JoinsConsumers(cfg, t, step, step.p, g) && OfIssue(Track(cfg, t, step), |t.origins|, g) ==>
      step.p in Consumers(Track(cfg, t, step), g)
  {
  }

  lemma CopiesStep(cfg: Config, t: Tracked, step: Step, g: nat)
    requires Linked(t) && CopiesFit(t, g)
    ensures CopiesFit(Track(cfg, t, step), g)
  {
    var u := Track(cfg, t, step);
    ConsumersStay(cfg, t, step, g);
    if Consumers(u, g) == {} {
      forall i: nat | OfIssue(u, i, g) ensures i == g {
        OfIssueBefore(cfg, t, step, i, g);
        if step.Act? {
          AddedByConsumer(cfg, t, step, g);
        }
      }
    }
  }

  /** The first attempt is made on the issued object itself, and leaves nothing of it without an attempt. */
  lemma FirstAttempt(cfg: Config, t: Tracked, step: Step, p: nat, g: nat)
    requires Linked(t) && CopiesFit(t, g) && Consumers(t, g) == {} && p in Consumers(Track(cfg, t, step), g)
    ensures JoinsConsumers(cfg, t, step, p, g) && t.state.sh.slot == Some(g)
    ensures var u := Track(cfg, t, step); forall i: nat :: OfIssue(u, i, g) ==> u.state.sh.objects[i].attempts >= 1
  {
    var u := Track(cfg, t, step);
    ConsumerShape(cfg, t, step, p, g);
    assert !ConsumerOf(t, p, g) by {
      assert p !in Consumers(t, g);
    }
    var i := t.state.sh.slot.value;
    assert OfIssue(t, i, g);
    forall j: nat | OfIssue(u, j, g) ensures u.state.sh.objects[j].attempts >= 1 {
      OfIssueBefore(cfg, t, step, j, g);
    }
  }

  /** Later steps leave nothing without one either. */
  lemma LaterAttempts(cfg: Config, t: Tracked, step: Step, g: nat, i: nat)
    requires Linked(t) && AttemptedFits(t, g) && Consumers(t, g) != {}
    requires OfIssue(Track(cfg, t, step), i, g)
    ensures Track(cfg, t, step).state.sh.objects[i].attempts >= 1
  {
    var u := Track(cfg, t, step);
    OfIssueBefore(cfg, t, step, i, g);
    var p :| p in Consumers(t, g);
    assert g <= t.state.procs[p].obj < |t.origins|;
  }

  /** Nobody comes to store the issued object once it was attempted. */
  lemma NobodyStores(cfg: Config, t: Tracked, step: Step, g: nat, p: nat)
    requires Linked(t) && CopiesFit(t, g) && AttemptedFits(t, g) && Consumers(Track(cfg, t, step), g) != {}
    requires p in Track(cfg, t, step).state.procs && Track(cfg, t, step).state.procs[p].GenerateBuilt?
    ensures Track(cfg, t, step).state.procs[p].obj != g
  {
    var u := Track(cfg, t, step);
    BuiltShape(cfg, t.state, step, p);
    var q :| q in Consumers(u, g);
    if Consumers(t, g) == {} {
      FirstAttempt(cfg, t, step, q, g);
      assert p in t.state.procs ==> BuiltFits(t, p);
    } else {
      var r :| r in Consumers(t, g);
      assert g <= t.state.procs[r].obj < |t.origins|;
    }
  }

  lemma AttemptedStep(cfg: Config, t: Tracked, step: Step, g: nat)
    requires Linked(t) && CopiesFit(t, g) && AttemptedFits(t, g)
    ensures AttemptedFits(Track(cfg, t, step), g)
  {
    var u := Track(cfg, t, step);
    if Consumers(u, g) != {} {
      var q :| q in Consumers(u, g);
      forall i: nat | OfIssue(u, i, g) ensures u.state.sh.objects[i].attempts >= 1 {
        if Consumers(t, g) == {} {
          FirstAttempt(cfg, t, step, q, g);
        } else {
          LaterAttempts(cfg, t, step, g, i);
        }
      }
      forall p | p in u.state.procs && u.state.procs[p].GenerateBuilt? ensures u.state.procs[p].obj != g {
        NobodyStores(cfg, t, step, g, p);
      }
    }
  }

  /** An issue has at most one consumer more after a step. */
  lemma ConsumersGrow(cfg: Config, t: Tracked, step: Step, g: nat)
    requires Linked(t)
    ensures var u := Track(cfg, t, step);
      && |Consumers(t, g)| <= |Consumers(u, g)| <= |Consumers(t, g)| + 1
      && (|Consumers(u, g)| > |Consumers(t, g)| ==>
           step.Act? && JoinsConsumers(cfg, t, step, step.p, g) && Consumers(u, g) == Consumers(t, g) + {step.p})
      && (|Consumers(u, g)| == |Consumers(t, g)| ==> Consumers(u, g) == Consumers(t, g))
  {
    var u := Track(cfg, t, step);
    ConsumersStay(cfg, t, step, g);
    forall p | p in Consumers(u, g) && p !in Consumers(t, g) ensures step.Act? && step.p == p && JoinsConsumers(cfg, t, step, p, g) {
      ConsumerShape(cfg, t, step, p, g);
      assert !ConsumerOf(t, p, g);
    }
    var more := Consumers(u, g) - Consumers(t, g);
    assert Consumers(u, g) == Consumers(t, g) + more;
    if more != {} {
      assert more == {step.p};
    }
  }

  lemma FirstStep(cfg: Config, t: Tracked, step: Step, g: nat)
    requires cfg.aliased && Linked(t) && CopiesFit(t, g) && FirstFits(t, g)
    ensures FirstFits(Track(cfg, t, step), g)
  {
    var u := Track(cfg, t, step);
    ConsumersGrow(cfg, t, step, g);
    forall p: nat, i: nat | Consumers(u, g) == {p} && IsPending(u, p) && OfIssue(u, i, g) ensures i == g {
      OfIssueBefore(cfg, t, step, i, g);
      if p in Consumers(t, g) {
        ConsumerStays(cfg, t, step, p, g);
        assert Consumers(t, g) == {p};
        if step.Act? {
          AddedByConsumer(cfg, t, step, g);
        }
      } else {
        assert Consumers(t, g) == {};
      }
    }
  }

  /** Two attempts were made: what is stored afterwards remembers them, whoever stored it. */
  lemma StoredRemembers(cfg: Config, t: Tracked, step: Step, g: nat)
    requires cfg.aliased && Linked(t) && AttemptedFits(t, g) && SecondFits(t, g) && |Consumers(t, g)| >= 2
    ensures var u := Track(cfg, t, step);
      u.state.sh.slot.Some? && OfIssue(u, u.state.sh.slot.value, g) ==> u.state.sh.objects[u.state.sh.slot.value].attempts >= 2
  {
    var u := Track(cfg, t, step);
    StoreShape(cfg, t.state, step);
    if u.state.sh.slot.Some? && OfIssue(u, u.state.sh.slot.value, g) {
      OfIssueBefore(cfg, t, step, u.state.sh.slot.value, g);
      var p :| p in Consumers(t, g);
      assert g <= t.state.procs[p].obj < |t.origins|;
      if step.Act? && step.p in t.state.procs {
        assert BuiltFits(t, step.p);
      }
      if WritesBackFor(t, u, step, g) {
        assert step.p in Consumers(t, g);
      }
    }
  }

  /** And so does what a consumer holds. */
  lemma HeldRemembers(cfg: Config, t: Tracked, step: Step, g: nat, p: nat)
    requires cfg.aliased && Linked(t) && SecondFits(t, g) && |Consumers(t, g)| >= 2
    requires var u := Track(cfg, t, step); p in Consumers(u, g) && IsPending(u, p) && u.state.procs[p].obj < |u.state.sh.objects|
    ensures var u := Track(cfg, t, step); u.state.sh.objects[u.state.procs[p].obj].attempts >= 2
  {
    if p in Consumers(t, g) {
      ConsumerStays(cfg, t, step, p, g);
      AttemptsGrow(cfg, t.state, step, t.state.procs[p].obj);
    } else {
      ConsumerShape(cfg, t, step, p, g);
      assert !ConsumerOf(t, p, g);
    }
  }

  /** The second attempt is made on an object that remembers the first. */
  lemma SecondAttempt(cfg: Config, t: Tracked, step: Step, g: nat)
    requires cfg.aliased && Linked(t) && AttemptedFits(t, g) && FirstFits(t, g) && |Consumers(t, g)| == 1
    requires step.Act? && JoinsConsumers(cfg, t, step, step.p, g) && Consumers(Track(cfg, t, step), g) == Consumers(t, g) + {step.p}
    ensures SecondFits(Track(cfg, t, step), g)
  {
    var u := Track(cfg, t, step);
    var q :| q in Consumers(t, g);
    assert Consumers(t, g) == {q} by {
      assert |Consumers(t, g) - {q}| == 0;
    }
    assert OfIssue(t, t.state.sh.slot.value, g) && OfIssue(t, t.state.procs[q].obj, g);
    if q != step.p {
      ConsumerStays(cfg, t, step, q, g);
    }
  }

  lemma SecondStep(cfg: Config, t: Tracked, step: Step, g: nat)
    requires cfg.aliased && Linked(t) && AttemptedFits(t, g) && FirstFits(t, g) && SecondFits(t, g)
    ensures SecondFits(Track(cfg, t, step), g)
  {
    var u := Track(cfg, t, step);
    ConsumersGrow(cfg, t, step, g);
    if |Consumers(t, g)| >= 2 {
      StoredRemembers(cfg, t, step, g);
      forall p | p in Consumers(u, g) && IsPending(u, p) && u.state.procs[p].obj < |u.state.sh.objects|
        ensures u.state.sh.objects[u.state.procs[p].obj].attempts >= 2
      {
        HeldRemembers(cfg, t, step, g, p);
      }
    } else if |Consumers(u, g)| >= 2 {
      SecondAttempt(cfg, t, step, g);
    }
  }

  // ---------- The bound ----------

  /** The ceilings up to which no write-back restores an attempt. */
  predicate FewAttempts(cfg: Config) {
    cfg.maxAttempts <= 1 || (cfg.aliased && cfg.maxAttempts <= 2)
  }

  ghost predicate Bounded(cfg: Config, t: Tracked, g: nat) {
    && Linked(t) && CopiesFit(t, g) && AttemptedFits(t, g) && |Consumers(t, g)| <= cfg.maxAttempts
    && (cfg.aliased ==> FirstFits(t, g) && SecondFits(t, g))
  }

  lemma BoundedStep(cfg: Config, t: Tracked, step: Step, g: nat)
    requires FewAttempts(cfg) && Bounded(cfg, t, g) && Inv(cfg, t.state)
    ensures Bounded(cfg, Track(cfg, t, step), g)
  {
    LinkedStep(cfg, t, step);
    CopiesStep(cfg, t, step, g);
    AttemptedStep(cfg, t, step, g);
    if cfg.aliased {
      FirstStep(cfg, t, step, g);
      SecondStep(cfg, t, step, g);
    }
    ConsumersGrow(cfg, t, step, g);
    if |Consumers(Track(cfg, t, step), g)| > |Consumers(t, g)| {
      var i := t.state.sh.slot.value;
      assert OfIssue(t, i, g) && EntryFits(cfg, t.state.sh.objects[i], t.state.hist.issued);
    }
  }

  lemma {:induction false} RunBounded(cfg: Config, start: int, steps: seq<Step>, g: nat)
    requires FewAttempts(cfg) && start > 0
    ensures Bounded(cfg, TrackRun(cfg, start, steps), g)
    decreases |steps|
  {
    if steps != [] {
      var n := |steps| - 1;
      RunBounded(cfg, start, steps[..n], g);
      AlwaysInv(cfg, start, steps[..n]);
      TrackIsRun(cfg, start, steps[..n]);
      BoundedStep(cfg, TrackRun(cfg, start, steps[..n]), steps[n], g);
    }
  }

  // ---------- One attempt too many ----------

  /** The callers 1 to k have consumed an attempt of `g`, and no later one has arrived. */
  ghost predicate Through(t: Tracked, g: nat, k: nat) {
    && (forall p: nat :: 1 <= p <= k ==> p in t.state.procs && ConsumerOf(t, p, g))
    && (forall p :: p in t.state.procs ==> p <= k)
  }

  /** A live entry of the issue `g` is stored that matches the code, and the failure counter is cleared. */
  predicate Stored(cfg: Config, t: Tracked, g: nat, code: string, form: string) {
    && |t.origins| == |t.state.sh.objects| && t.state.sh.counter == F.NoCounter
    && LiveSlot(t.state.sh).Some? && OfIssue(t, t.state.sh.slot.value, g)
    && var e := t.state.sh.objects[t.state.sh.slot.value];
    e.code == form && e.maxAttempts == cfg.maxAttempts && MatchesStoredCode(form, code, cfg.hmac)
  }

  function StoredAttempts(t: Tracked): nat {
    if t.state.sh.slot.Some? && t.state.sh.slot.value < |t.state.sh.objects| then t.state.sh.objects[t.state.sh.slot.value].attempts else 0
  }

  /** `n` attempts were made on the stored entry; nothing else that was there has changed. */
  ghost predicate MoreAttempts(t: Tracked, u: Tracked, k: nat, n: nat) {
    && u.state.sh.slot == t.state.sh.slot && u.state.sh.now == t.state.sh.now && t.origins <= u.origins
    && |t.state.sh.objects| <= |u.state.sh.objects| && StoredAttempts(u) == StoredAttempts(t) + n
    && (forall j {:trigger u.state.sh.objects[j]} :: 0 <= j < |t.state.sh.objects| && t.state.sh.slot != Some(j) ==>
         u.state.sh.objects[j] == t.state.sh.objects[j])
    && (forall p :: p in t.state.procs && p <= k ==> p in u.state.procs && u.state.procs[p] == t.state.procs[p])
  }

  lemma ThroughMore(t: Tracked, u: Tracked, g: nat, k: nat)
    requires Through(t, g, k) && t.origins <= u.origins && OnlyCaller(t, u, k + 1) && ConsumerOf(u, k + 1, g)
    ensures Through(u, g, k + 1)
  {
  }

  lemma NextConsumer(cfg: Config, start: int, steps: seq<Step>, g: nat, k: nat, code: string, form: string)
    returns (longer: seq<Step>)
    requires var t := TrackRun(cfg, start, steps);
      Through(t, g, k) && Stored(cfg, t, g, code, form) && StoredAttempts(t) < cfg.maxAttempts
    ensures var t, u := TrackRun(cfg, start, steps), TrackRun(cfg, start, longer);
      && Through(u, g, k + 1) && Stored(cfg, u, g, code, form) && MoreAttempts(t, u, k, 1)
      && Holds(cfg, u, k + 1, g, form, FailuresCleared) && Handed(cfg, t, u, k + 1)
  {
    longer := VerifyRuns(cfg, start, steps, k + 1, code);
    ThroughMore(TrackRun(cfg, start, steps), TrackRun(cfg, start, longer), g, k);
  }

  lemma {:induction false} MoreConsumers(cfg: Config, start: int, steps: seq<Step>, g: nat, k: nat, n: nat, code: string, form: string)
    returns (longer: seq<Step>)
    requires var t := TrackRun(cfg, start, steps);
      Through(t, g, k) && Stored(cfg, t, g, code, form) && StoredAttempts(t) + n <= cfg.maxAttempts
    ensures var t, u := TrackRun(cfg, start, steps), TrackRun(cfg, start, longer);
      Through(u, g, k + n) && Stored(cfg, u, g, code, form) && MoreAttempts(t, u, k, n)
    decreases n
  {
    if n == 0 {
      longer := steps;
    } else {
      longer := MoreConsumers(cfg, start, steps, g, k, n - 1, code, form);
      longer := NextConsumer(cfg, start, longer, g, k + n - 1, code, form);
    }
  }

  /** A consumer that wrote back counts no less. */
  lemma WriteBackStored(cfg: Config, t: Tracked, p: nat, g: nat, k: nat, code: string, form: string)
    requires !cfg.consumeOnVerify && 1 <= p <= k && Through(t, g, k) && Stored(cfg, t, g, code, form)
    requires Holds(cfg, t, p, g, form, FailuresCleared) && t.state.sh.objects[t.state.procs[p].obj].maxAttempts == cfg.maxAttempts
    ensures var u := Track(cfg, t, Act(p, Works));
      && Through(u, g, k) && Stored(cfg, u, g, code, form) && StoredAttempts(u) == t.state.sh.objects[t.state.procs[p].obj].attempts
      && u.state.sh.slot == Some(|t.state.sh.objects|) && t.state.sh.objects <= u.state.sh.objects && t.origins <= u.origins
      && u.state.sh.now == t.state.sh.now
      && forall q :: q in t.state.procs && q != p ==> q in u.state.procs && u.state.procs[q] == t.state.procs[q]
  {
    WriteBackStep(cfg, t, p, g, form);
  }

  /** All attempts so far were made on what is stored; the caller `p` holds something older with attempts left. */
  ghost predicate Late(cfg: Config, t: Tracked, p: nat, g: nat, k: nat, code: string, form: string) {
    && 1 <= p <= k && Through(t, g, k) && Stored(cfg, t, g, code, form) && StoredAttempts(t) == k
    && Holds(cfg, t, p, g, form, FailuresCleared) && t.state.sh.slot != Some(t.state.procs[p].obj)
    && t.state.sh.objects[t.state.procs[p].obj].attempts < cfg.maxAttempts == t.state.sh.objects[t.state.procs[p].obj].maxAttempts
  }

  /** The attempts that are left are made, then `p` writes back, and one more can be made. */
  lemma LateWriteBack(cfg: Config, start: int, steps: seq<Step>, p: nat, g: nat, k: nat, code: string, form: string)
    returns (longer: seq<Step>)
    requires !cfg.consumeOnVerify && Late(cfg, TrackRun(cfg, start, steps), p, g, k, code, form) && k <= cfg.maxAttempts
    ensures Through(TrackRun(cfg, start, longer), g, cfg.maxAttempts + 1)
  {
    longer := MoreConsumers(cfg, start, steps, g, k, cfg.maxAttempts - k, code, form);
    WriteBackStored(cfg, TrackRun(cfg, start, longer), p, g, cfg.maxAttempts, code, form);
    longer := Goes(cfg, start, longer, Act(p, Works));
    longer := NextConsumer(cfg, start, longer, g, cfg.maxAttempts, code, form);
  }

  lemma IssuedIsStored(cfg: Config, start: int, code: string) returns (steps: seq<Step>)
    requires ValidConfig(cfg) && IsCode(code, cfg.length, cfg.codeType)
    ensures var t := TrackRun(cfg, start, steps);
      && Through(t, 0, 0) && Stored(cfg, t, 0, code, StoredForm(code, cfg.hmac)) && StoredAttempts(t) == 0
      && t.state.sh.slot == Some(0) && |t.state.sh.objects| == 1
  {
    StartsEmpty(cfg, start);
    var none: seq<Step> := [];
    steps := GenerateRuns(cfg, start, none, 0, code);
    AcceptedGuesses(code, cfg.length, cfg.codeType, cfg.hmac, cfg.hmac, code);
  }

  lemma CopyIsLate(cfg: Config, t: Tracked, u: Tracked, code: string, form: string)
    requires !cfg.aliased && cfg.maxAttempts > 1 && Stored(cfg, t, 0, code, form) && StoredAttempts(t) == 0
    requires Through(u, 0, 1) && Stored(cfg, u, 0, code, form) && MoreAttempts(t, u, 0, 1)
    requires Holds(cfg, u, 1, 0, form, FailuresCleared) && Handed(cfg, t, u, 1)
    ensures Late(cfg, u, 1, 0, 1, code, form)
  {
  }

  /** With copies, the first verification writes back the first attempt after all the others. */
  lemma CopyTooMany(cfg: Config, start: int, code: string) returns (steps: seq<Step>)
    requires ValidConfig(cfg) && !cfg.consumeOnVerify && !cfg.aliased && cfg.maxAttempts > 1 && IsCode(code, cfg.length, cfg.codeType)
    ensures Through(TrackRun(cfg, start, steps), 0, cfg.maxAttempts + 1)
  {
    var form := StoredForm(code, cfg.hmac);
    var issued := IssuedIsStored(cfg, start, code);
    steps := NextConsumer(cfg, start, issued, 0, 0, code, form);
    CopyIsLate(cfg, TrackRun(cfg, start, issued), TrackRun(cfg, start, steps), code, form);
    steps := LateWriteBack(cfg, start, steps, 1, 0, 1, code, form);
  }

  /** Both callers hold the first object, with two attempts. */
  ghost predicate SharedTwice(cfg: Config, t: Tracked, code: string, form: string) {
    && Through(t, 0, 2) && Stored(cfg, t, 0, code, form) && StoredAttempts(t) == 2 && t.state.sh.slot == Some(0)
    && Holds(cfg, t, 1, 0, form, FailuresCleared) && Holds(cfg, t, 2, 0, form, FailuresCleared)
    && t.state.procs[1].obj == 0 && t.state.procs[2].obj == 0
  }

  /** The first caller holds it, with one. */
  ghost predicate SharedOnce(cfg: Config, t: Tracked, code: string, form: string) {
    && Through(t, 0, 1) && Stored(cfg, t, 0, code, form) && StoredAttempts(t) == 1 && t.state.sh.slot == Some(0)
    && Holds(cfg, t, 1, 0, form, FailuresCleared) && t.state.procs[1].obj == 0
  }

  lemma SharesTwice(cfg: Config, u: Tracked, v: Tracked, code: string, form: string)
    requires cfg.aliased && SharedOnce(cfg, u, code, form)
    requires Through(v, 0, 2) && Stored(cfg, v, 0, code, form) && MoreAttempts(u, v, 1, 1) && Handed(cfg, u, v, 2)
    requires Holds(cfg, v, 2, 0, form, FailuresCleared)
    ensures SharedTwice(cfg, v, code, form)
  {
    assert v.state.procs[1] == u.state.procs[1];
  }

  /** One of them writes the entry back: the other one is late. */
  lemma SharedIsLate(cfg: Config, t: Tracked, code: string, form: string)
    requires !cfg.consumeOnVerify && cfg.maxAttempts > 2 && SharedTwice(cfg, t, code, form)
    ensures Late(cfg, Track(cfg, t, Act(1, Works)), 2, 0, 2, code, form)
  {
    WriteBackStored(cfg, t, 1, 0, 2, code, form);
    var u := Track(cfg, t, Act(1, Works));
    assert u.state.procs[2] == t.state.procs[2] && u.state.sh.objects[0] == t.state.sh.objects[0];
  }

  lemma ShareOnceRuns(cfg: Config, start: int, code: string) returns (steps: seq<Step>)
    requires ValidConfig(cfg) && cfg.aliased && cfg.maxAttempts > 2 && IsCode(code, cfg.length, cfg.codeType)
    ensures SharedOnce(cfg, TrackRun(cfg, start, steps), code, StoredForm(code, cfg.hmac))
  {
    var issued := IssuedIsStored(cfg, start, code);
    steps := NextConsumer(cfg, start, issued, 0, 0, code, StoredForm(code, cfg.hmac));
  }

  lemma ShareRuns(cfg: Config, start: int, code: string) returns (steps: seq<Step>)
    requires ValidConfig(cfg) && cfg.aliased && cfg.maxAttempts > 2 && IsCode(code, cfg.length, cfg.codeType)
    ensures SharedTwice(cfg, TrackRun(cfg, start, steps), code, StoredForm(code, cfg.hmac))
  {
    var form := StoredForm(code, cfg.hmac);
    var once := ShareOnceRuns(cfg, start, code);
    steps := NextConsumer(cfg, start, once, 0, 1, code, form);
    SharesTwice(cfg, TrackRun(cfg, start, once), TrackRun(cfg, start, steps), code, form);
  }

  /** With the entry itself handed out, two verifications share the first object. One writes it back, and the
      other one does after all the others. */
  lemma SharedTooMany(cfg: Config, start: int, code: string) returns (steps: seq<Step>)
    requires ValidConfig(cfg) && !cfg.consumeOnVerify && cfg.aliased && cfg.maxAttempts > 2 && IsCode(code, cfg.length, cfg.codeType)
    ensures Through(TrackRun(cfg, start, steps), 0, cfg.maxAttempts + 1)
  {
    steps := ShareRuns(cfg, start, code);
    SharedIsLate(cfg, TrackRun(cfg, start, steps), code, StoredForm(code, cfg.hmac));
    steps := Goes(cfg, start, steps, Act(1, Works));
    steps := LateWriteBack(cfg, start, steps, 2, 0, 2, code, StoredForm(code, cfg.hmac));
  }

  function FirstCallers(k: nat): (s: set<nat>)
    ensures |s| == k && forall p :: p in s <==> 1 <= p <= k
  {
    if k == 0 then {} else FirstCallers(k - 1) + {k}
  }

  /** For every code, some run attempts it more often than `maxAttempts` allows. */
  lemma AttemptedTooOften(cfg: Config, start: int, code: string) returns (steps: seq<Step>)
    requires ValidConfig(cfg) && !cfg.consumeOnVerify && !FewAttempts(cfg) && IsCode(code, cfg.length, cfg.codeType)
    ensures |Consumers(TrackRun(cfg, start, steps), 0)| > cfg.maxAttempts
  {
    if cfg.aliased {
      steps := SharedTooMany(cfg, start, code);
    } else {
      steps := CopyTooMany(cfg, start, code);
    }
    Included(FirstCallers(cfg.maxAttempts + 1), Consumers(TrackRun(cfg, start, steps), 0));
  }

  /** No issued code is attempted more often than `maxAttempts` allows, in every interleaving, if and only if
      verifying consumes the entry, or a code has only one attempt, or two and the storage hands out the entry
      itself. */
  lemma AttemptsPerCodeIff(cfg: Config)
    requires ValidConfig(cfg)
    ensures (forall start, steps, g :: start > 0 ==> |Consumers(TrackRun(cfg, start, steps), g)| <= cfg.maxAttempts)
            <==> cfg.consumeOnVerify || FewAttempts(cfg)
  {
    if cfg.consumeOnVerify || FewAttempts(cfg) {
      forall start, steps, g | start > 0 ensures |Consumers(TrackRun(cfg, start, steps), g)| <= cfg.maxAttempts {
        if cfg.consumeOnVerify {
          ComparedPerCode(cfg, start, steps, g);
        } else {
          RunBounded(cfg, start, steps, g);
        }
      }
    } else {
      var steps := AttemptedTooOften(cfg, 1, SomeCode(cfg));
    }
  }

  /** Every issued code is accepted at most once, in every interleaving, if and only if it has no more than one
      attempt, whether verifying consumes the entry or not. */
  lemma AcceptedOnceIff(cfg: Config)
    requires ValidConfig(cfg)
    ensures (forall start, steps, g :: start > 0 ==> |AcceptedOf(TrackRun(cfg, start, steps), g)| <= 1) <==> cfg.maxAttempts <= 1
  {
    if cfg.maxAttempts <= 1 {
      AttemptsPerCodeIff(cfg);
      forall start, steps, g | start > 0 ensures |AcceptedOf(TrackRun(cfg, start, steps), g)| <= 1 {
        Included(AcceptedOf(TrackRun(cfg, start, steps), g), Consumers(TrackRun(cfg, start, steps), g));
      }
    } else {
      var steps := AcceptedTwice(cfg, 1, SomeCode(cfg));
      Included({1, 2}, AcceptedOf(TrackRun(cfg, 1, steps), 0));
    }
  }
}
