/** The failure counter of one scope over time: how many attempts its tickets admit. */
module CounterLog {
  import opened Quotients

  /** A counter exists from its first failure until it is cleared; it lapses when `expiresAt` comes. */
  datatype Counter = NoCounter | Counting(count: nat, expiresAt: int)

  /** The unexpired count: a counter has lapsed at `expiresAt` itself. */
  function LiveFailures(c: Counter, now: int): nat {
    if c.NoCounter? || c.expiresAt <= now then 0 else c.count
  }

  /** One more failure: the ticket is the new count. */
  function Record(c: Counter, now: int, ttl: int): Counter {
    Counting(LiveFailures(c, now) + 1, now + ttl)
  }

  datatype Event = Recorded(at: int, ticket: nat) | Cleared(at: int)

  /** The counter after a history. */
  function Replay(log: seq<Event>, ttl: int): Counter
    decreases |log|
  {
    if log == [] then NoCounter
    else match log[|log| - 1]
      case Recorded(at, _) => Record(Replay(log[..|log| - 1], ttl), at, ttl)
      case Cleared(_) => NoCounter
  }

  /** `log[k]` is what the counter answers after the events before it. */
  predicate EventFits(log: seq<Event>, k: nat, ttl: int)
    requires k < |log|
  {
    && (log[k].Recorded? ==> log[k].ticket == LiveFailures(Replay(log[..k], ttl), log[k].at) + 1)
    && (k > 0 ==> log[k - 1].at <= log[k].at)
  }

  /** A history in time order whose tickets are those the counter gave out. */
  predicate ValidLog(log: seq<Event>, ttl: int) {
    forall k: nat :: k < |log| ==> EventFits(log, k, ttl)
  }

  lemma LogGrows(log: seq<Event>, e: Event, ttl: int)
    requires ValidLog(log, ttl) && (log != [] ==> log[|log| - 1].at <= e.at)
    requires e.Recorded? ==> e.ticket == LiveFailures(Replay(log, ttl), e.at) + 1
    ensures ValidLog(log + [e], ttl)
    ensures Replay(log + [e], ttl) == if e.Recorded? then Record(Replay(log, ttl), e.at, ttl) else NoCounter
  {
    var grown := log + [e];
    assert grown[..|log|] == log;
    forall k: nat | k < |grown| ensures EventFits(grown, k, ttl) {
      if k < |log| {
        assert EventFits(log, k, ttl);
        assert grown[..k] == log[..k];
      }
    }
  }

  /** How many tickets in `log[i..j]` are within the ceiling. */
  function Admitted(log: seq<Event>, i: nat, j: nat, ceiling: nat): nat
    requires i <= j <= |log|
  {
    if i == j then 0
    else Admitted(log, i, j - 1, ceiling) + if log[j - 1].Recorded? && log[j - 1].ticket <= ceiling then 1 else 0
  }

  /** How many counter lifetimes `log[i..j]` touches: one, and one more for every counter it starts. */
  function Lifetimes(log: seq<Event>, i: nat, j: nat): (n: nat)
    requires i < j <= |log|
    ensures n >= 1
  {
    if j == i + 1 then 1
    else Lifetimes(log, i, j - 1) + if log[j - 1].Recorded? && log[j - 1].ticket == 1 then 1 else 0
  }

  ghost predicate NoClear(log: seq<Event>, i: nat, j: nat)
    requires i <= j <= |log|
  {
    forall k :: i <= k < j ==> log[k].Recorded?
  }

  /** Without a clear in between, the next ticket is one more, or the counter has lapsed meanwhile. */
  lemma NextTicket(log: seq<Event>, k: nat, ttl: int)
    requires ValidLog(log, ttl) && k + 1 < |log| && log[k].Recorded? && log[k + 1].Recorded?
    ensures log[k + 1].ticket == log[k].ticket + 1
         || (log[k + 1].ticket == 1 && log[k + 1].at - log[k].at >= ttl)
  {
    assert EventFits(log, k, ttl) && EventFits(log, k + 1, ttl);
    assert log[..k + 1][..k] == log[..k];
  }

  lemma {:induction false} AdmittedPerLifetime(log: seq<Event>, i: nat, j: nat, ttl: int, ceiling: nat)
    requires ValidLog(log, ttl) && i < j <= |log| && NoClear(log, i, j)
    ensures var last := log[j - 1].ticket;
      Admitted(log, i, j, ceiling) <= ceiling * (Lifetimes(log, i, j) - 1) + if last < ceiling then last else ceiling
    decreases j
  {
    assert EventFits(log, i, ttl);
    if j > i + 1 {
      AdmittedPerLifetime(log, i, j - 1, ttl, ceiling);
      NextTicket(log, j - 2, ttl);
      var n := Lifetimes(log, i, j - 1);
      assert ceiling * n == ceiling * (n - 1) + ceiling;
    }
  }

  lemma {:induction false} LifetimesAreApart(log: seq<Event>, i: nat, j: nat, ttl: int)
    requires ValidLog(log, ttl) && i < j <= |log| && NoClear(log, i, j)
    ensures (Lifetimes(log, i, j) - 1) * ttl <= log[j - 1].at - log[i].at
    decreases j
  {
    if j > i + 1 {
      LifetimesAreApart(log, i, j - 1, ttl);
      NextTicket(log, j - 2, ttl);
      assert EventFits(log, j - 1, ttl);
      var n := Lifetimes(log, i, j - 1);
      assert n * ttl == (n - 1) * ttl + ttl;
    }
  }

  lemma Scale(ceiling: nat, n: int, m: int)
    requires n <= m
    ensures ceiling * n <= ceiling * m && ceiling * (n - 1) + ceiling == ceiling * n
  {
  }

  /** Over any window without a clear, at most `ceiling` attempts are admitted for each counter
      lifetime that fits into its span, and for the one the window starts in. */
  lemma WindowBound(log: seq<Event>, i: nat, j: nat, ttl: int, ceiling: nat, span: int)
    requires ValidLog(log, ttl) && ttl > 0 && i < j <= |log| && NoClear(log, i, j)
    requires log[j - 1].at - log[i].at <= span
    ensures Admitted(log, i, j, ceiling) <= ceiling * (1 + span / ttl)
  {
    AdmittedPerLifetime(log, i, j, ttl, ceiling);
    LifetimesAreApart(log, i, j, ttl);
    QuotientBound(Lifetimes(log, i, j) - 1, ttl, span);
    Scale(ceiling, Lifetimes(log, i, j), 1 + span / ttl);
  }

  /** Within one lifetime of the counter (no clear, no restart) at most `ceiling` attempts are admitted. */
  lemma LifetimeBound(log: seq<Event>, i: nat, j: nat, ttl: int, ceiling: nat)
    requires ValidLog(log, ttl) && i <= j <= |log| && NoClear(log, i, j)
    requires forall k :: i < k < j ==> log[k].ticket != 1
    ensures Admitted(log, i, j, ceiling) <= ceiling
  {
    if i < j {
      AdmittedPerLifetime(log, i, j, ttl, ceiling);
      SingleLifetime(log, i, j);
    }
  }

  lemma {:induction false} SingleLifetime(log: seq<Event>, i: nat, j: nat)
    requires i < j <= |log| && NoClear(log, i, j) && forall k :: i < k < j ==> log[k].ticket != 1
    ensures Lifetimes(log, i, j) == 1
    decreases j
  {
    if j > i + 1 {
      SingleLifetime(log, i, j - 1);
    }
  }
}
