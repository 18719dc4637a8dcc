/** The resend cooldown of one scope over time: how often it can be acquired. */
module CooldownLog {
  import opened Quotients

  /** The expiry of the cooldown, if one was set and not cleared. */
  datatype Cooldown = Free | Until(expiry: int)

  /** Whether the lock is held: an expiry of zero counts as none. */
  predicate Held(c: Cooldown, now: int) {
    c.Until? && c.expiry != 0 && c.expiry > now
  }

  datatype Event = Tried(at: int, won: bool) | Cleared(at: int)

  function Replay(log: seq<Event>, length: int): Cooldown
    decreases |log|
  {
    if log == [] then Free
    else match log[|log| - 1]
      case Tried(at, won) => if won then Until(at + length) else Replay(log[..|log| - 1], length)
      case Cleared(_) => Free
  }

  predicate EventFits(log: seq<Event>, k: nat, length: int)
    requires k < |log|
  {
    && (log[k].Tried? ==> (log[k].won <==> !Held(Replay(log[..k], length), log[k].at)))
    && (k > 0 ==> log[k - 1].at <= log[k].at)
    && log[k].at > 0
  }

  /** A history in time order in which exactly the tries on a free lock win. */
  predicate ValidLog(log: seq<Event>, length: int) {
    forall k: nat :: k < |log| ==> EventFits(log, k, length)
  }

  lemma LogGrows(log: seq<Event>, e: Event, length: int)
    requires ValidLog(log, length) && (log != [] ==> log[|log| - 1].at <= e.at) && e.at > 0
    requires e.Tried? ==> (e.won <==> !Held(Replay(log, length), e.at))
    ensures ValidLog(log + [e], length)
    ensures Replay(log + [e], length) ==
      match e
      case Tried(at, won) => if won then Until(at + length) else Replay(log, length)
      case Cleared(_) => Free
  {
    var grown := log + [e];
    assert grown[..|log|] == log;
    forall k: nat | k < |grown| ensures EventFits(grown, k, length) {
      if k < |log| {
        assert EventFits(log, k, length);
        assert grown[..k] == log[..k];
      }
    }
  }

  function Wins(log: seq<Event>, i: nat, j: nat): nat
    requires i <= j <= |log|
  {
    if i == j then 0 else Wins(log, i, j - 1) + if log[j - 1].Tried? && log[j - 1].won then 1 else 0
  }

  function Clears(log: seq<Event>, i: nat, j: nat): nat
    requires i <= j <= |log|
  {
    if i == j then 0 else Clears(log, i, j - 1) + if log[j - 1].Cleared? then 1 else 0
  }

  lemma {:induction false} InTimeOrder(log: seq<Event>, i: nat, j: nat, length: int)
    requires ValidLog(log, length) && i < j <= |log|
    ensures log[i].at <= log[j - 1].at
    decreases j
  {
    if i + 1 < j {
      InTimeOrder(log, i, j - 1, length);
      assert EventFits(log, j - 1, length);
    }
  }

  /** After a win in `log[i..j]`: either the lock is that of the last win, which came late enough for
      all the wins before it that no clear has paid for; or the last win has been cleared. */
  lemma {:induction false} WinsAreApart(log: seq<Event>, i: nat, j: nat, length: int)
    requires ValidLog(log, length) && length > 0 && i <= j <= |log|
    ensures Wins(log, i, j) > 0 ==>
      var unpaid, lock := Wins(log, i, j) - 1 - Clears(log, i, j), Replay(log[..j], length);
      && i < j
      && (lock.Until? ==> log[i].at + unpaid * length <= lock.expiry - length <= log[j - 1].at)
      && (lock.Free? ==> log[i].at + (unpaid + 1) * length <= log[j - 1].at)
    decreases j
  {
    if i < j {
      WinsAreApart(log, i, j - 1, length);
      InTimeOrder(log, i, j, length);
      assert EventFits(log, j - 1, length);
      assert log[..j][..j - 1] == log[..j - 1];
      var unpaid := Wins(log, i, j - 1) - 1 - Clears(log, i, j - 1);
      assert (unpaid + 1) * length == unpaid * length + length;
      assert (unpaid - 1) * length == unpaid * length - length;
    }
  }

  /** In any window the cooldown is acquired at most once, once more for every full cooldown length
      that fits into its span, and once more for every time it was cleared. */
  lemma AcquireBound(log: seq<Event>, i: nat, j: nat, length: int, span: int)
    requires ValidLog(log, length) && length > 0 && i < j <= |log|
    requires log[j - 1].at - log[i].at <= span
    ensures Wins(log, i, j) <= 1 + span / length + Clears(log, i, j)
  {
    WinsAreApart(log, i, j, length);
    InTimeOrder(log, i, j, length);
    if Wins(log, i, j) > 0 {
      var unpaid := Wins(log, i, j) - 1 - Clears(log, i, j);
      assert (unpaid + 1) * length == unpaid * length + length;
      QuotientBound(unpaid, length, span);
    }
  }

  /** A cooldown without a length is never held. */
  lemma {:induction false} NeverHeld(log: seq<Event>, length: int, now: int)
    requires ValidLog(log, length) && length <= 0 && (log != [] ==> log[|log| - 1].at <= now)
    ensures !Held(Replay(log, length), now)
    decreases |log|
  {
    if log != [] {
      var before := log[..|log| - 1];
      assert EventFits(log, |log| - 1, length);
      forall k: nat | k < |before| ensures EventFits(before, k, length) {
        assert EventFits(log, k, length);
        assert before[..k] == log[..k];
      }
      NeverHeld(before, length, now);
    }
  }

  /** The k-th event won the lock, nothing has cleared or won it since, and it has not lapsed. */
  predicate HoldsFrom(log: seq<Event>, k: nat, length: int, now: int)
    requires k < |log|
  {
    && log[k].Tried? && log[k].won && log[k].at + length > now
    && forall j :: k < j < |log| ==> log[j].Tried? && !log[j].won
  }

  /** After a moment at which the lock was free, it is held if and only if a win since then holds it. */
  lemma {:induction false} HeldSince(log: seq<Event>, n: nat, length: int, now: int)
    requires n <= |log| && Replay(log[..n], length) == Free && length >= 0 && forall k :: 0 <= k < |log| ==> log[k].at > 0
    ensures Held(Replay(log, length), now) <==> exists k: nat :: n <= k < |log| && HoldsFrom(log, k, length, now)
    decreases |log|
  {
    if n == |log| {
      assert log[..n] == log;
    } else {
      var m := |log| - 1;
      var before, e := log[..m], log[m];
      assert before[..n] == log[..n];
      HeldSince(before, n, length, now);
      if e.Tried? && !e.won {
        forall k: nat | n <= k < m ensures HoldsFrom(log, k, length, now) == HoldsFrom(before, k, length, now) {
        }
      } else if e.Tried? {
        assert HoldsFrom(log, m, length, now) <==> e.at + length > now;
      }
    }
  }
}
