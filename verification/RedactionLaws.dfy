/** What redaction guarantees about its output. */
module RedactionLaws {
  import opened Text
  import opened Redaction

  // ---------- When a redacted value cannot be read in the output ----------

  /** `value` is `a + MARKER[i..j] + c` with `a` of length `k`, where `a` only stands before a marker
      prefix and `c` only behind a marker suffix: `value` can be read across an inserted marker. */
  predicate MarkerFragment(value: string, k: int, i: int, j: int) {
    && 0 <= i < j <= |MARKER| && 0 <= k && k + (j - i) <= |value|
    && value[k..k + (j - i)] == MARKER[i..j]
    && (k > 0 ==> i == 0)
    && (k + (j - i) < |value| ==> j == |MARKER|)
  }

  /** A suffix or a prefix of the value, or all of it, can be matched against the marker. */
  ghost predicate OverlapsMarker(value: string) {
    exists k, i, j :: MarkerFragment(value, k, i, j)
  }

  /** `p` is not in the middle of a group. */
  ghost predicate Boundary(text: string, values: set<string>, p: nat) {
    p < |text| && Covered(text, values, p) ==> GroupStart(text, values, p)
  }

  lemma AfterKept(text: string, values: set<string>, p: nat)
    requires p < |text| && !Covered(text, values, p)
    ensures Boundary(text, values, p + 1) && Piece(text, values, p) == [text[p]]
  {
    if Bridged(text, values, p + 1) {
      assert Covered(text, values, p);
    }
  }

  /** From a boundary, text is kept up to the next group or the end. */
  lemma {:induction false} NextGroup(text: string, values: set<string>, p: nat) returns (q: nat)
    requires p <= |text| && Boundary(text, values, p)
    ensures p <= q <= |text| && (q == |text| || GroupStart(text, values, q))
    ensures forall r :: p <= r < q ==> !Covered(text, values, r)
    decreases |text| - p
  {
    q := p;
    if p < |text| && !Covered(text, values, p) {
      AfterKept(text, values, p);
      q := NextGroup(text, values, p + 1);
    }
  }

  lemma KeptUpTo(text: string, values: set<string>, p: nat, q: nat)
    requires p <= q <= |text| && (q == |text| || GroupStart(text, values, q))
    requires forall r :: p <= r < q ==> !Covered(text, values, r)
    ensures RedactedFrom(text, values, p) == text[p..q] + RedactedFrom(text, values, q)
    ensures q == |text| || MARKER <= RedactedFrom(text, values, q)
  {
    forall s, e | IsMatch(text, values, s, e) && s < q ensures e <= p {
      if p < e {
        assert Covered(text, values, if s < p then p else s);
      }
    }
    KeptRun(text, values, p, q);
    if q < |text| {
      PrefixOfConcat(MARKER, RedactedFrom(text, values, q + 1));
    }
  }

  lemma FragmentAtStart(value: string, out: string, q: nat)
    requires MARKER <= out && q < |MARKER| && value != "" && OccursAt(out, value, q)
    ensures OverlapsMarker(value)
  {
    var end := if q + |value| < |MARKER| then q + |value| else |MARKER|;
    assert MARKER == out[..|MARKER|];
    SliceOfSlice(out, q, q + |value|, 0, end - q);
    SliceOfSlice(out, 0, |MARKER|, q, end);
    assert MarkerFragment(value, 0, q, end);
  }

  lemma FragmentBehindKept(value: string, kept: string, tail: string)
    requires MARKER <= tail && |kept| < |value| && OccursAt(kept + tail, value, 0)
    ensures OverlapsMarker(value)
  {
    var k := |kept|;
    var end := if |value| < k + |MARKER| then |value| else k + |MARKER|;
    var out := kept + tail;
    assert out[k..] == tail;
    SliceOfSlice(out, 0, |value|, k, end);
    SliceOfSlice(out, k, |out|, 0, end - k);
    assert MARKER[..end - k] == tail[..end - k];
    assert MarkerFragment(value, k, 0, end - k);
  }

  lemma OccursInRest(piece: string, rest: string, value: string, q: nat)
    requires OccursAt(piece + rest, value, q) && q >= |piece|
    ensures OccursAt(rest, value, q - |piece|)
  {
    assert (piece + rest)[|piece|..] == rest;
    SliceOfSlice(piece + rest, |piece|, |piece + rest|, q - |piece|, q - |piece| + |value|);
  }

  lemma KeptValueIsNoMatch(text: string, values: set<string>, value: string, p: nat, next: nat, tail: string)
    requires p <= next <= |text| && value in values && value != "" && p + |value| <= next
    requires forall r :: p <= r < next ==> !Covered(text, values, r)
    ensures !OccursAt(text[p..next] + tail, value, 0)
  {
    assert (text[p..next] + tail)[0..|value|] == text[p..next][0..|value|];
    SliceOfSlice(text, p, next, 0, |value|);
    assert !Covered(text, values, p) && !IsMatch(text, values, p, p + |value|);
  }

  /** A value that starts in kept text goes on into the next marker. */
  lemma SurvivorInKept(text: string, values: set<string>, value: string, p: nat)
    requires p < |text| && value in values && value != "" && !Covered(text, values, p)
    requires OccursAt(RedactedFrom(text, values, p), value, 0)
    ensures OverlapsMarker(value)
  {
    var next := NextGroup(text, values, p);
    KeptUpTo(text, values, p, next);
    if p + |value| <= next {
      KeptValueIsNoMatch(text, values, value, p, next, RedactedFrom(text, values, next));
    } else {
      FragmentBehindKept(value, text[p..next], RedactedFrom(text, values, next));
    }
  }

  /** A secret that can still be read in the output overlaps the marker. */
  lemma {:induction false} SurvivorOverlaps(text: string, values: set<string>, value: string, p: nat, q: nat)
    requires p <= |text| && value in values && value != ""
    requires OccursAt(RedactedFrom(text, values, p), value, q)
    ensures OverlapsMarker(value)
    decreases |text| - p
  {
    if p < |text| {
      var piece, rest := Piece(text, values, p), RedactedFrom(text, values, p + 1);
      if q >= |piece| {
        OccursInRest(piece, rest, value, q);
        SurvivorOverlaps(text, values, value, p + 1, q - |piece|);
      } else if GroupStart(text, values, p) {
        PrefixOfConcat(MARKER, rest);
        FragmentAtStart(value, piece + rest, q);
      } else {
        SurvivorInKept(text, values, value, p);
      }
    }
  }

  // ---------- The condition is exact ----------

  /** A text none of whose parts can be mistaken for a marker or for a repetition of itself. */
  function Filler(n: nat): (w: string)
    ensures |w| == 2 * n + 1 && forall i :: 0 <= i < |w| ==> w[i] == (if i == n then 'z' else 'q')
  {
    seq(2 * n + 1, i => if i == n then 'z' else 'q')
  }

  lemma ValueNotThere(value: string, k: int, i: int, j: int, text: string, start: int)
    requires MarkerFragment(value, k, i, j)
    requires |text| == 3 * |value| + 1 - (j - i)
    requires forall x :: k <= x <= k + 2 * |value| ==> text[x] == Filler(|value|)[x - k]
    ensures !OccursAt(text, value, start)
  {
    // The first marker character of the value would have to be read in the filler.
    assert value[k..k + (j - i)][0] == MARKER[i] && MARKER[i] != 'q' && MARKER[i] != 'z';
    CharOf(text, value, start, k);
  }

  lemma FillerOnlyOnce(n: nat, k: nat, text: string, start: int)
    requires k <= n && 2 * n + 1 + k <= |text| <= 3 * n
    requires forall x :: k <= x <= k + 2 * n ==> text[x] == Filler(n)[x - k]
    requires OccursAt(text, Filler(n), start)
    ensures start == k
  {
    assert text[start..start + 2 * n + 1][n] == text[start + n] == 'z';
  }

  lemma FillerStands(before: string, filler: string, after: string)
    ensures var text := before + filler + after;
      text[|before|..|before| + |filler|] == filler && forall x :: |before| <= x < |before| + |filler| ==> text[x] == filler[x - |before|]
  {
  }

  lemma OnlyMatch(text: string, value: string, filler: string, k: int, start: int, end: int)
    requires 0 <= k && k + |filler| <= |text| && text[k..k + |filler|] == filler && filler != ""
    requires !OccursAt(text, value, start) && (OccursAt(text, filler, start) ==> start == k)
    ensures IsMatch(text, {value, filler}, start, end) <==> start == k && end == k + |filler|
  {
    if IsMatch(text, {value, filler}, start, end) {
      assert text[start..end] == value ==> OccursAt(text, value, start);
      assert text[start..end] == filler ==> OccursAt(text, filler, start);
    }
  }

  /** The filler between the two ends of the value is the only occurrence of either. */
  lemma OnlyTheFiller(value: string, k: int, i: int, j: int, start: int, end: int)
    requires MarkerFragment(value, k, i, j)
    ensures
      var filler := Filler(|value|);
      var text := value[..k] + filler + value[k + (j - i)..];
      IsMatch(text, {value, filler}, start, end) <==> start == k && end == k + |filler|
  {
    var filler := Filler(|value|);
    var text := value[..k] + filler + value[k + (j - i)..];
    FillerStands(value[..k], filler, value[k + (j - i)..]);
    ValueNotThere(value, k, i, j, text, start);
    if OccursAt(text, filler, start) {
      FillerOnlyOnce(|value|, k, text, start);
    }
    OnlyMatch(text, value, filler, k, start, end);
  }

  lemma SingleMatch(text: string, values: set<string>, start: nat, end: nat)
    requires forall s, e :: IsMatch(text, values, s, e) <==> s == start && e == end
    ensures start <= end <= |text|
    ensures Redacted(text, values) == text[..start] + MARKER + text[end..]
  {
    assert IsMatch(text, values, start, end);
    OpenGroup(text, values, "", 0, start, end);
    assert "" + text[0..start] == text[..start];
    CloseText(text, values, text[..start] + MARKER, end);
  }

  /** A value that overlaps the marker is readable in the redaction of some text that declares it. */
  lemma OverlapSurvives(value: string) returns (text: string, values: set<string>)
    requires OverlapsMarker(value)
    ensures value in values && Contains(Redacted(text, values), value)
  {
    var k, i, j :| MarkerFragment(value, k, i, j);
    var before, filler, after := value[..k], Filler(|value|), value[k + (j - i)..];
    text, values := before + filler + after, {value, filler};
    forall start, end
      ensures IsMatch(text, values, start, end) <==> start == k && end == k + |filler|
    {
      OnlyTheFiller(value, k, i, j, start, end);
    }
    SingleMatch(text, values, k, k + |filler|);
    assert text[..k] == before && text[k + |filler|..] == after;
    ReadAcrossMarker(value, k, i, j);
  }

  lemma ReadAcross(front: string, marker: string, i: nat, j: nat, back: string)
    requires i <= j <= |marker| && (front != "" ==> i == 0) && (back != "" ==> j == |marker|)
    ensures Contains(front + marker + back, front + marker[i..j] + back)
  {
    var out, value := front + marker + back, front + marker[i..j] + back;
    assert out[i..i + |value|] == value;
    assert OccursAt(out, value, i);
  }

  lemma ReadAcrossMarker(value: string, k: int, i: int, j: int)
    requires MarkerFragment(value, k, i, j)
    ensures Contains(value[..k] + MARKER + value[k + (j - i)..], value)
  {
    assert value == value[..k] + MARKER[i..j] + value[k + (j - i)..];
    ReadAcross(value[..k], MARKER, i, j, value[k + (j - i)..]);
  }

  /** Redaction removes a value from every text, whatever else is declared, exactly when the value
      cannot be matched against the marker. */
  lemma RemovesExactly(value: string)
    requires value != ""
    ensures (forall text, values :: value in values ==> !Contains(Redacted(text, values), value))
       <==> !OverlapsMarker(value)
  {
    if OverlapsMarker(value) {
      var text, values := OverlapSurvives(value);
    } else {
      forall text: string, values: set<string> | value in values
        ensures !Contains(Redacted(text, values), value)
      {
        NoSurvivor(text, values, value);
      }
    }
  }

  lemma NoSurvivor(text: string, values: set<string>, value: string)
    requires value in values && value != "" && !OverlapsMarker(value)
    ensures !Contains(Redacted(text, values), value)
  {
    if Contains(Redacted(text, values), value) {
      var q :| OccursAt(Redacted(text, values), value, q);
      SurvivorOverlaps(text, values, value, 0, q);
    }
  }

  /** A non-empty value that has no character of the marker does not overlap it. */
  lemma DisjointFromMarker(value: string)
    requires forall c :: c in value ==> c !in MARKER
    ensures !OverlapsMarker(value)
  {
    forall k, i, j ensures !MarkerFragment(value, k, i, j) {
      if 0 <= i < j <= |MARKER| && 0 <= k && k + (j - i) <= |value| {
        assert value[k] in value && MARKER[i] in MARKER;
        assert value[k..k + (j - i)][0] == value[k] && MARKER[i..j][0] == MARKER[i];
      }
    }
  }

  /** Nor can it be read in the marker itself. */
  lemma MarkerCarriesNothing(value: string)
    requires value != "" && !OverlapsMarker(value)
    ensures !Contains(MARKER, value)
  {
    forall at ensures !OccursAt(MARKER, value, at) {
      if 0 <= at && at + |value| <= |MARKER| {
        assert !MarkerFragment(value, 0, at, at + |value|);
        assert value[0..|value|] == value;
      }
    }
  }

  /** A bracket is enough: the end of the text `x]` can be read across the marker of another value. */
  lemma SurvivesAcrossTheMarkerEdge()
    ensures Contains(Redacted("abc", {"ab", "]c"}), "]c")
  {
    var text, values := "abc", {"ab", "]c"};
    forall start, end ensures IsMatch(text, values, start, end) <==> start == 0 && end == 2 {
      if 0 <= start < end <= |text| {
        assert text[start] == text[start..end][0];
      }
      assert text[0..2] == "ab";
    }
    SingleMatch(text, values, 0, 2);
    assert Redacted(text, values) == "[redacted]c";
    assert "[redacted]c"[9..11] == "]c";
    assert OccursAt("[redacted]c", "]c", 9);
  }

  // ---------- Idempotence ----------

  lemma Untouched(text: string, values: set<string>)
    requires forall v :: v in values && v != "" ==> !Contains(text, v)
    ensures Redacted(text, values) == text
  {
    forall start, end ensures !IsMatch(text, values, start, end) {
      if IsMatch(text, values, start, end) {
        assert OccursAt(text, text[start..end], start);
      }
    }
    KeptRun(text, values, 0, |text|);
    assert text[0..|text|] == text;
  }

  lemma Idempotent(text: string, values: set<string>)
    requires forall v :: v in values && v != "" ==> !OverlapsMarker(v)
    ensures Redacted(Redacted(text, values), values) == Redacted(text, values)
  {
    forall v | v in values && v != "" ensures !Contains(Redacted(text, values), v) {
      NoSurvivor(text, values, v);
    }
    Untouched(Redacted(text, values), values);
  }

  // ---------- The kept stretches ----------

  /** The stretches of text between the markers, from position `p` on. */
  ghost function StretchesFrom(text: string, values: set<string>, p: nat): (r: seq<string>)
    requires p <= |text|
    ensures r != []
    decreases |text| - p
  {
    if p == |text| then [""]
    else
      var rest := StretchesFrom(text, values, p + 1);
      if GroupStart(text, values, p) then [""] + rest
      else if Covered(text, values, p) then rest
      else rest[0 := [text[p]] + rest[0]]
  }

  ghost function Stretches(text: string, values: set<string>): seq<string> {
    StretchesFrom(text, values, 0)
  }

  lemma JoinBehind(first: string, rest: seq<string>, glue: string)
    requires rest != []
    ensures Join([first] + rest, glue) == first + glue + Join(rest, glue)
  {
    assert ([first] + rest)[1..] == rest;
  }

  lemma JoinGrowsAtFront(c: char, parts: seq<string>, glue: string)
    requires parts != []
    ensures Join([[c] + parts[0]] + parts[1..], glue) == [c] + Join(parts, glue)
  {
    var first, rest := parts[0], parts[1..];
    assert parts == [first] + rest;
    if rest != [] {
      JoinBehind(first, rest, glue);
      JoinBehind([c] + first, rest, glue);
      Assoc([c], first, glue);
      Assoc([c], first + glue, Join(rest, glue));
    }
  }

  /** The output is the kept stretches with one marker between every two of them. */
  lemma {:induction false} OutputIsStretches(text: string, values: set<string>, p: nat)
    requires p <= |text|
    ensures RedactedFrom(text, values, p) == Join(StretchesFrom(text, values, p), MARKER)
    decreases |text| - p
  {
    if p < |text| {
      OutputIsStretches(text, values, p + 1);
      var rest := StretchesFrom(text, values, p + 1);
      if GroupStart(text, values, p) {
        JoinBehind("", rest, MARKER);
        assert "" + MARKER == MARKER;
      } else if !Covered(text, values, p) {
        JoinGrowsAtFront(text[p], rest, MARKER);
        assert rest[0 := [text[p]] + rest[0]] == [[text[p]] + rest[0]] + rest[1..];
      }
    }
  }

  /** `stretch` is read in `text` at `at`, and no occurrence touches it. */
  ghost predicate KeptAt(text: string, values: set<string>, stretch: string, at: int) {
    OccursAt(text, stretch, at) && forall r :: at <= r < at + |stretch| ==> !Covered(text, values, r)
  }

  ghost predicate Kept(text: string, values: set<string>, stretch: string) {
    exists at :: KeptAt(text, values, stretch, at)
  }

  ghost predicate AllKept(text: string, values: set<string>, parts: seq<string>) {
    forall i :: 0 <= i < |parts| ==> Kept(text, values, parts[i])
  }

  lemma AllKeptWith(text: string, values: set<string>, first: string, at: int, rest: seq<string>)
    requires KeptAt(text, values, first, at) && AllKept(text, values, rest)
    ensures AllKept(text, values, [first] + rest)
  {
  }

  lemma {:induction false} StretchesAreKept(text: string, values: set<string>, p: nat)
    requires p <= |text|
    ensures AllKept(text, values, StretchesFrom(text, values, p))
    ensures Boundary(text, values, p) ==> KeptAt(text, values, StretchesFrom(text, values, p)[0], p)
    decreases |text| - p
  {
    if p == |text| {
      assert KeptAt(text, values, "", p);
    } else {
      StretchesAreKept(text, values, p + 1);
      var rest := StretchesFrom(text, values, p + 1);
      assert AllKept(text, values, rest);
      if GroupStart(text, values, p) {
        assert KeptAt(text, values, "", p);
        AllKeptWith(text, values, "", p, rest);
      } else if !Covered(text, values, p) {
        AfterKept(text, values, p);
        var first := [text[p]] + rest[0];
        assert text[p..p + |first|] == [text[p]] + text[p + 1..p + |first|];
        AllKeptWith(text, values, first, p, rest[1..]);
        assert rest[0 := first] == [first] + rest[1..];
      }
    }
  }

  /** No kept stretch contains a secret, whatever characters it is made of. */
  lemma StretchesCarryNoSecret(text: string, values: set<string>, i: nat, value: string)
    requires i < |Stretches(text, values)| && value in values && value != ""
    ensures !Contains(Stretches(text, values)[i], value)
  {
    StretchesAreKept(text, values, 0);
    var stretch := Stretches(text, values)[i];
    assert Kept(text, values, stretch);
    var at :| KeptAt(text, values, stretch, at);
    forall off ensures !OccursAt(stretch, value, off) {
      if 0 <= off && off + |value| <= |stretch| {
        SliceOfSlice(text, at, at + |stretch|, off, off + |value|);
        assert !Covered(text, values, at + off);
        assert !IsMatch(text, values, at + off, at + off + |value|);
      }
    }
  }
}
