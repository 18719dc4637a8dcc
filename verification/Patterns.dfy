/** The status patterns: classes of characters repeated a bounded number of times, matched greedily with
    backtracking, between characters that are neither digits nor dots. */
module Patterns {
  import opened Options

  const DIGITS := "0123456789"

  predicate IsRunChar(c: char) {
    '0' <= c <= '9' || c == '.'
  }

  /** A character class with bounds on how often it is repeated. */
  datatype Item = Item(chars: string, least: nat, most: nat)

  type Pattern = seq<Item>

  predicate Fills(item: Item, s: string, n: nat) {
    item.least <= n <= item.most && n <= |s| && forall i :: 0 <= i < n ==> s[i] in item.chars
  }

  /** The texts a pattern describes, however one might search for them. */
  ghost predicate Matches(p: Pattern, s: string)
    decreases |p|
  {
    if p == [] then s == "" else exists n: nat :: Fills(p[0], s, n) && Matches(p[1..], s[n..])
  }

  // ---------- The search ----------

  /** The negative lookbehind. */
  predicate StartsAt(text: string, i: nat)
    requires i <= |text|
  {
    i == 0 || !IsRunChar(text[i - 1])
  }

  /** The negative lookahead. */
  predicate EndsAt(text: string, i: nat)
    requires i <= |text|
  {
    i == |text| || !IsRunChar(text[i])
  }

  /** How many characters of the class come next, up to the most that may be taken. */
  function Longest(item: Item, text: string, i: nat, taken: nat): (n: nat)
    requires i + taken <= |text|
    requires taken <= item.most
    ensures taken <= n <= item.most && i + n <= |text|
    ensures forall k :: i + taken <= k < i + n ==> text[k] in item.chars
    ensures n == item.most || i + n == |text| || text[i + n] !in item.chars
    decreases item.most - taken
  {
    if taken == item.most || i + taken == |text| || text[i + taken] !in item.chars then taken
    else Longest(item, text, i, taken + 1)
  }

  /** Where a match of the pattern that starts at `i` ends: each class takes what it can, and gives back
      one character after the other while the rest does not match. */
  function MatchHere(p: Pattern, text: string, i: nat): (end: Option<nat>)
    requires i <= |text|
    ensures end.Some? ==> i <= end.value <= |text|
    decreases |p|, |text| + 1
  {
    if p == [] then if EndsAt(text, i) then Some(i) else None
    else GiveBack(p, text, i, Longest(p[0], text, i, 0))
  }

  function GiveBack(p: Pattern, text: string, i: nat, n: nat): (end: Option<nat>)
    requires p != [] && i + n <= |text|
    ensures end.Some? ==> i <= end.value <= |text|
    decreases |p|, n
  {
    if n < p[0].least then None
    else if MatchHere(p[1..], text, i + n).Some? then MatchHere(p[1..], text, i + n)
    else if n == 0 then None
    else GiveBack(p, text, i, n - 1)
  }

  /** All matches from `i` on, one after the other. */
  function AllMatches(p: Pattern, text: string, i: nat): seq<string>
    requires i <= |text|
    decreases |text| - i
  {
    if i == |text| then []
    else if StartsAt(text, i) && MatchHere(p, text, i).Some? && MatchHere(p, text, i).value > i then
      [text[i..MatchHere(p, text, i).value]] + AllMatches(p, text, MatchHere(p, text, i).value)
    else AllMatches(p, text, i + 1)
  }

  // ---------- The search finds what the pattern describes ----------

  lemma {:induction false} MatchIsSound(p: Pattern, text: string, i: nat)
    requires i <= |text|
    ensures var end := MatchHere(p, text, i); end.Some? ==> Matches(p, text[i..end.value]) && EndsAt(text, end.value)
    decreases |p|, |text| + 1
  {
    if p != [] {
      GiveBackIsSound(p, text, i, Longest(p[0], text, i, 0));
    }
  }

  lemma {:induction false} GiveBackIsSound(p: Pattern, text: string, i: nat, n: nat)
    requires p != [] && i + n <= |text| && n <= p[0].most && forall k :: i <= k < i + n ==> text[k] in p[0].chars
    ensures var end := GiveBack(p, text, i, n); end.Some? ==> Matches(p, text[i..end.value]) && EndsAt(text, end.value)
    decreases |p|, n
  {
    if n >= p[0].least {
      MatchIsSound(p[1..], text, i + n);
      if MatchHere(p[1..], text, i + n).Some? {
        var end := MatchHere(p[1..], text, i + n).value;
        assert text[i..end][n..] == text[i + n..end];
        assert Fills(p[0], text[i..end], n);
      } else if n > 0 {
        GiveBackIsSound(p, text, i, n - 1);
      }
    }
  }

  lemma {:induction false} MatchIsComplete(p: Pattern, text: string, i: nat, j: nat)
    requires i <= j <= |text| && Matches(p, text[i..j]) && EndsAt(text, j)
    ensures MatchHere(p, text, i).Some?
    decreases |p|, |text| + 1
  {
    if p != [] {
      var n: nat :| Fills(p[0], text[i..j], n) && Matches(p[1..], text[i..j][n..]);
      assert text[i..j][n..] == text[i + n..j];
      assert forall k :: i <= k < i + n ==> text[k] == text[i..j][k - i];
      GiveBackIsComplete(p, text, i, Longest(p[0], text, i, 0), n, j);
    }
  }

  lemma {:induction false} GiveBackIsComplete(p: Pattern, text: string, i: nat, from: nat, n: nat, j: nat)
    requires p != [] && n <= from && i + from <= |text| && p[0].least <= n
    requires i + n <= j <= |text| && Matches(p[1..], text[i + n..j]) && EndsAt(text, j)
    ensures GiveBack(p, text, i, from).Some?
    decreases |p|, from
  {
    if from == n {
      MatchIsComplete(p[1..], text, i + n, j);
    } else if MatchHere(p[1..], text, i + from) == None {
      GiveBackIsComplete(p, text, i, from - 1, n, j);
    }
  }

  // ---------- The matches are whole runs ----------

  /** The end of the run of digits and dots that `i` is in. */
  function RunEnd(text: string, i: nat): (end: nat)
    requires i <= |text|
    ensures i <= end <= |text| && EndsAt(text, end) && forall k :: i <= k < end ==> IsRunChar(text[k])
    decreases |text| - i
  {
    if EndsAt(text, i) then i else RunEnd(text, i + 1)
  }

  /** The maximal runs of digits and dots. */
  function Runs(text: string, i: nat): seq<string>
    requires i <= |text|
    decreases |text| - i
  {
    if i == |text| then []
    else if EndsAt(text, i) then Runs(text, i + 1)
    else [text[i..RunEnd(text, i)]] + Runs(text, RunEnd(text, i))
  }

  ghost function Keep(p: Pattern, runs: seq<string>): seq<string> {
    if runs == [] then [] else (if Matches(p, runs[0]) then [runs[0]] else []) + Keep(p, runs[1..])
  }

  /** A pattern of digits and dots that matches no empty text. */
  predicate OverRuns(p: Pattern) {
    && (forall item :: item in p ==> forall c :: c in item.chars ==> IsRunChar(c))
    && p != [] && p[0].least > 0
  }

  lemma {:induction false} MatchesAreRunChars(p: Pattern, s: string)
    requires Matches(p, s) && forall item :: item in p ==> forall c :: c in item.chars ==> IsRunChar(c)
    ensures forall i :: 0 <= i < |s| ==> IsRunChar(s[i])
    decreases |p|
  {
    if p != [] {
      var n: nat :| Fills(p[0], s, n) && Matches(p[1..], s[n..]);
      MatchesAreRunChars(p[1..], s[n..]);
      assert forall k :: n <= k < |s| ==> s[k] == s[n..][k - n];
    }
  }

  lemma FirstItemIsThere(p: Pattern, s: string)
    requires Matches(p, s) && p != []
    ensures p[0].least <= |s|
  {
    var n: nat :| Fills(p[0], s, n) && Matches(p[1..], s[n..]);
  }

  /** A match is a non-empty stretch of digits and dots that goes up to the end of its run. */
  lemma MatchInRun(p: Pattern, text: string, i: nat)
    requires i <= |text| && OverRuns(p)
    ensures var end := MatchHere(p, text, i);
      end.Some? ==> i < end.value && EndsAt(text, end.value) && forall k :: i <= k < end.value ==> IsRunChar(text[k])
  {
    var end := MatchHere(p, text, i);
    if end.Some? {
      MatchIsSound(p, text, i);
      var found := text[i..end.value];
      FirstItemIsThere(p, found);
      MatchesAreRunChars(p, found);
      assert forall k :: i <= k < end.value ==> text[k] == found[k - i];
    }
  }

  /** At the start of a run the search finds that run or nothing. */
  lemma MatchIsRun(p: Pattern, text: string, i: nat)
    requires i < |text| && !EndsAt(text, i) && OverRuns(p)
    ensures MatchHere(p, text, i) == if Matches(p, text[i..RunEnd(text, i)]) then Some(RunEnd(text, i)) else None
  {
    MatchInRun(p, text, i);
    MatchIsSound(p, text, i);
    if Matches(p, text[i..RunEnd(text, i)]) {
      MatchIsComplete(p, text, i, RunEnd(text, i));
    }
  }

  /** Inside a run nothing is found. */
  lemma {:induction false} NothingInside(p: Pattern, text: string, i: nat, end: nat)
    requires 0 < i <= end <= |text| && forall k :: i - 1 <= k < end ==> IsRunChar(text[k])
    ensures AllMatches(p, text, i) == AllMatches(p, text, end)
    decreases end - i
  {
    if i < end {
      NothingInside(p, text, i + 1, end);
    }
  }

  /** All matches of a pattern are the maximal runs it describes, in their order. */
  lemma {:induction false} MatchesAreRuns(p: Pattern, text: string, i: nat)
    requires i <= |text| && OverRuns(p) && (StartsAt(text, i) || EndsAt(text, i))
    ensures AllMatches(p, text, i) == Keep(p, Runs(text, i))
    decreases |text| - i
  {
    if i == |text| {
    } else if EndsAt(text, i) {
      MatchInRun(p, text, i);
      MatchesAreRuns(p, text, i + 1);
    } else {
      var end := RunEnd(text, i);
      MatchIsRun(p, text, i);
      NothingInside(p, text, i + 1, end);
      MatchesAreRuns(p, text, end);
      var rest := Runs(text, end);
      assert Runs(text, i) == [text[i..end]] + rest && ([text[i..end]] + rest)[1..] == rest;
    }
  }

  // ---------- Taking a text apart at the edges of a run ----------

  /** `text` ends with `b`, which begins at `n`. */
  predicate EndsWith(text: string, n: nat, b: string) {
    |text| == n + |b| && forall i :: 0 <= i < |b| ==> text[n + i] == b[i]
  }

  lemma {:induction false} RunEndOfSuffix(text: string, n: nat, b: string, k: nat)
    requires EndsWith(text, n, b) && k <= |b|
    ensures RunEnd(text, n + k) == n + RunEnd(b, k)
    decreases |b| - k
  {
    if !EndsAt(b, k) {
      RunEndOfSuffix(text, n, b, k + 1);
    }
  }

  lemma SliceOfSuffix(text: string, n: nat, b: string, i: nat, j: nat)
    requires EndsWith(text, n, b) && i <= j <= |b|
    ensures text[n + i..n + j] == b[i..j]
  {
  }

  lemma SameFirstRun(text: string, i: nat, b: string, k: nat)
    requires i < |text| && k < |b| && !EndsAt(text, i) && !EndsAt(b, k)
    requires text[i..RunEnd(text, i)] == b[k..RunEnd(b, k)]
    requires Runs(text, RunEnd(text, i)) == Runs(b, RunEnd(b, k))
    ensures Runs(text, i) == Runs(b, k)
  {
  }

  lemma SameAfterNone(text: string, i: nat, b: string, k: nat)
    requires i < |text| && k < |b| && EndsAt(text, i) && EndsAt(b, k)
    requires Runs(text, i + 1) == Runs(b, k + 1)
    ensures Runs(text, i) == Runs(b, k)
  {
  }

  lemma {:induction false} RunsOfSuffix(text: string, n: nat, b: string, k: nat)
    requires EndsWith(text, n, b) && k <= |b|
    ensures Runs(text, n + k) == Runs(b, k)
    decreases |b| - k
  {
    if k == |b| {
    } else if EndsAt(b, k) {
      RunsOfSuffix(text, n, b, k + 1);
      SameAfterNone(text, n + k, b, k);
    } else {
      RunEndOfSuffix(text, n, b, k);
      RunsOfSuffix(text, n, b, RunEnd(b, k));
      SliceOfSuffix(text, n, b, k, RunEnd(b, k));
      SameFirstRun(text, n + k, b, k);
    }
  }

  lemma {:induction false} RunEndOfPrefix(a: string, b: string, i: nat)
    requires i <= |a| && (EndsAt(a + b, |a|) || (i < |a| && !IsRunChar(a[|a| - 1])))
    ensures RunEnd(a + b, i) == RunEnd(a, i)
    decreases |a| - i
  {
    if !EndsAt(a, i) {
      RunEndOfPrefix(a, b, i + 1);
    }
  }

  lemma RunIsFirst(a: string, b: string, i: nat)
    requires i < |a| && !EndsAt(a, i) && (EndsAt(a + b, |a|) || StartsAt(a, |a|))
    ensures Runs(a + b, i) == [a[i..RunEnd(a, i)]] + Runs(a + b, RunEnd(a, i))
  {
    RunEndOfPrefix(a, b, i);
    assert (a + b)[i] == a[i];
    assert (a + b)[i..RunEnd(a, i)] == a[i..RunEnd(a, i)];
  }

  lemma Reassociate(run: string, a: seq<string>, b: seq<string>)
    ensures [run] + (a + b) == ([run] + a) + b
  {
  }

  /** Where no run crosses, the runs of a text are those of its two parts. */
  lemma {:induction false} RunsOfPrefix(a: string, b: string, i: nat)
    requires i <= |a| && (EndsAt(a + b, |a|) || StartsAt(a, |a|))
    ensures Runs(a + b, i) == Runs(a, i) + Runs(b, 0)
    decreases |a| - i
  {
    if i == |a| {
      RunsOfSuffix(a + b, |a|, b, 0);
    } else if EndsAt(a, i) {
      RunsOfPrefix(a, b, i + 1);
    } else {
      RunsOfPrefix(a, b, RunEnd(a, i));
      RunIsFirst(a, b, i);
      Reassociate(a[i..RunEnd(a, i)], Runs(a, RunEnd(a, i)), Runs(b, 0));
    }
  }

  lemma {:induction false} KeepOfSum(p: Pattern, a: seq<string>, b: seq<string>)
    ensures Keep(p, a + b) == Keep(p, a) + Keep(p, b)
  {
    if a == [] {
      assert a + b == b;
    } else {
      assert (a + b)[1..] == a[1..] + b;
      KeepOfSum(p, a[1..], b);
    }
  }

  /** A text of which `run` is a maximal run of digits and dots. */
  predicate Between(pre: string, run: string, post: string) {
    && StartsAt(pre, |pre|) && EndsAt(post, 0)
    && run != "" && forall i :: 0 <= i < |run| ==> IsRunChar(run[i])
  }

  lemma {:induction false} RunEndIsEnd(run: string, i: nat)
    requires i <= |run| && forall k :: 0 <= k < |run| ==> IsRunChar(run[k])
    ensures RunEnd(run, i) == |run|
    decreases |run| - i
  {
    if i < |run| {
      RunEndIsEnd(run, i + 1);
    }
  }

  lemma RunAlone(run: string)
    requires run != "" && forall k :: 0 <= k < |run| ==> IsRunChar(run[k])
    ensures Runs(run, 0) == [run]
  {
    RunEndIsEnd(run, 0);
    assert run[0..|run|] == run;
    assert Runs(run, |run|) == [];
  }

  lemma RunsAround(pre: string, run: string, post: string)
    requires Between(pre, run, post)
    ensures Runs(pre + run + post, 0) == Runs(pre, 0) + ([run] + Runs(post, 0))
  {
    RunAlone(run);
    RunsOfPrefix(run, post, 0);
    assert pre + run + post == pre + (run + post);
    RunsOfPrefix(pre, run + post, 0);
  }

  /** The matches around a run, and the run itself if it matches. */
  lemma MatchesAround(p: Pattern, pre: string, run: string, post: string)
    requires Between(pre, run, post) && OverRuns(p)
    ensures AllMatches(p, pre + run + post, 0)
      == Keep(p, Runs(pre, 0)) + (Keep(p, [run]) + Keep(p, Runs(post, 0)))
  {
    MatchesAreRuns(p, pre + run + post, 0);
    RunsAround(pre, run, post);
    KeepOfSum(p, [run], Runs(post, 0));
    KeepOfSum(p, Runs(pre, 0), [run] + Runs(post, 0));
  }
}
