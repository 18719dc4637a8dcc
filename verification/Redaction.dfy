/** `redactValues`: replacing every occurrence of a set of secrets by a marker. */
module Redaction {
  import opened Text

  const MARKER := "[redacted]"

  // ---------- Specification, position by position ----------

  /** The secret values as a set: their order and multiplicity are irrelevant. */
  function ValueSet(values: seq<string>): set<string> {
    set v | v in values
  }

  /** `text[start..end]` is an occurrence of some non-empty secret. */
  ghost predicate IsMatch(text: string, values: set<string>, start: int, end: int) {
    0 <= start < end <= |text| && text[start..end] in values
  }

  /** Some occurrence contains position `p`. */
  ghost predicate Covered(text: string, values: set<string>, p: int) {
    exists start, end :: IsMatch(text, values, start, end) && start <= p < end
  }

  /** Some occurrence contains both `p - 1` and `p`. */
  ghost predicate Bridged(text: string, values: set<string>, p: int) {
    exists start, end :: IsMatch(text, values, start, end) && start < p < end
  }

  /** A group of overlapping occurrences starts at `p`. */
  ghost predicate GroupStart(text: string, values: set<string>, p: int) {
    Covered(text, values, p) && !Bridged(text, values, p)
  }

  /** What is written for position `p`. */
  ghost function Piece(text: string, values: set<string>, p: nat): string
    requires p < |text|
  {
    if GroupStart(text, values, p) then MARKER
    else if Covered(text, values, p) then ""
    else [text[p]]
  }

  /** What is written for the suffix of the text from `p` on. */
  ghost function RedactedFrom(text: string, values: set<string>, p: nat): string
    requires p <= |text|
    decreases |text| - p
  {
    if p == |text| then "" else Piece(text, values, p) + RedactedFrom(text, values, p + 1)
  }

  /** The redacted text: one marker per group of overlapping occurrences, every other
      covered position dropped, every uncovered position kept. */
  ghost function Redacted(text: string, values: set<string>): string {
    RedactedFrom(text, values, 0)
  }

  /** The redaction of one text as a function; the walks over errors and objects are the same
      whatever it is. */
  type Cleaner = string -> string

  ghost function Redactor(values: set<string>): Cleaner {
    text => Redacted(text, values)
  }

  ghost predicate IsRedactor(clean: Cleaner, values: set<string>) {
    forall text {:trigger Redacted(text, values)} :: clean(text) == Redacted(text, values)
  }

  // ---------- The algorithm ----------

  datatype Span = Span(start: nat, end: nat)

  predicate SortedByStart(spans: seq<Span>) {
    forall i, j :: 0 <= i < j < |spans| ==> spans[i].start <= spans[j].start
  }

  function Insert(span: Span, sorted: seq<Span>): (r: seq<Span>)
    requires SortedByStart(sorted)
    ensures SortedByStart(r)
    ensures forall s :: s in r <==> s == span || s in sorted
  {
    if sorted == [] || span.start < sorted[0].start then [span] + sorted
    else
      var rest := Insert(span, sorted[1..]);
      assert forall i :: 0 <= i < |rest| ==> rest[i] in rest;
      assert forall s :: s in sorted[1..] ==> sorted[0].start <= s.start;
      [sorted[0]] + rest
  }

  /** Sorted by start, keeping every span: what `Array.prototype.sort` promises. */
  function SortByStart(spans: seq<Span>): (r: seq<Span>)
    ensures SortedByStart(r)
    ensures forall s :: s in r <==> s in spans
  {
    if spans == [] then [] else Insert(spans[0], SortByStart(spans[1..]))
  }

  /** `spans` lists the occurrences, all of them and nothing else. */
  ghost predicate AllMatches(text: string, values: set<string>, spans: seq<Span>) {
    forall s :: s in spans <==> IsMatch(text, values, s.start, s.end)
  }

  /** Collects the span of every occurrence of every non-empty value. */
  method CollectSpans(text: string, values: seq<string>) returns (spans: seq<Span>)
    ensures AllMatches(text, ValueSet(values), spans)
  {
    spans := [];
    for n := 0 to |values|
      invariant AllMatches(text, ValueSet(values[..n]), spans)
    {
      var value := values[n];
      assert values[..n + 1] == values[..n] + [value];
      ghost var before := spans;
      if value != "" {
        var start := IndexOf(text, value, 0);
        while start != -1
          invariant start == -1 || OccursAt(text, value, start)
          invariant forall s :: s in spans <==>
            s in before || (OccursAt(text, value, s.start) && s.end == s.start + |value| && (start == -1 || s.start < start))
          decreases if start == -1 then 0 else |text| - start
        {
          var found := Span(start, start + |value|);
          spans := spans + [found];
          var next := IndexOf(text, value, start + 1);
          start := next;
        }
      }
      forall s: Span
        ensures s in spans <==> IsMatch(text, ValueSet(values[..n + 1]), s.start, s.end)
      {
        if IsMatch(text, ValueSet(values[..n + 1]), s.start, s.end) && text[s.start..s.end] == value {
          assert OccursAt(text, value, s.start);
        }
      }
    }
    assert values[..|values|] == values;
  }

  function Max(a: nat, b: nat): nat {
    if a < b then b else a
  }

  method RedactValues(text: string, values: seq<string>) returns (cleaned: string)
    ensures cleaned == Redacted(text, ValueSet(values))
  {
    ghost var secrets := ValueSet(values);
    var spans := CollectSpans(text, values);
    spans := SortByStart(spans);
    cleaned := "";
    var cursor: nat := 0;
    for n := 0 to |spans|
      invariant forall j :: 0 <= j < n ==> spans[j].end <= cursor
      invariant Written(text, secrets, cleaned, cursor)
    {
      var Span(start, end) := spans[n];
      assert spans[n] in spans;
      if start < cursor {
        WidenGroup(text, secrets, cleaned, cursor, start, end);
        cursor := Max(cursor, end);
      } else {
        ReadInOrder(text, secrets, spans, n, cursor);
        OpenGroup(text, secrets, cleaned, cursor, start, end);
        cleaned := cleaned + text[cursor..start] + MARKER;
        cursor := end;
      }
    }
    ReadInOrder(text, secrets, spans, |spans|, cursor);
    CloseText(text, secrets, cleaned, cursor);
    cleaned := cleaned + text[cursor..];
  }

  /** Every occurrence that starts before `start` ends by `cursor`. */
  ghost predicate MatchesEndBy(text: string, values: set<string>, start: int, cursor: int) {
    forall s, e :: IsMatch(text, values, s, e) && s < start ==> e <= cursor
  }

  /** Reading the spans in order, every occurrence that starts before the next one is done. */
  lemma ReadInOrder(text: string, values: set<string>, spans: seq<Span>, n: nat, cursor: int)
    requires AllMatches(text, values, spans) && SortedByStart(spans) && n <= |spans|
    requires forall j :: 0 <= j < n ==> spans[j].end <= cursor
    ensures MatchesEndBy(text, values, if n < |spans| then spans[n].start else |text|, cursor)
  {
    forall s, e | IsMatch(text, values, s, e) && s < (if n < |spans| then spans[n].start else |text|)
      ensures e <= cursor
    {
      var found := Span(s, e);
      assert found in spans;
    }
  }

  /** `cleaned` is what the positions before `cursor` contribute. */
  ghost predicate Written(text: string, values: set<string>, cleaned: string, cursor: nat) {
    cursor <= |text| && cleaned + RedactedFrom(text, values, cursor) == Redacted(text, values)
  }

  /** A new group: the text before it is kept, the group becomes one marker. */
  lemma OpenGroup(text: string, values: set<string>, cleaned: string, cursor: nat, start: nat, end: nat)
    requires Written(text, values, cleaned, cursor)
    requires cursor <= start && IsMatch(text, values, start, end) && MatchesEndBy(text, values, start, cursor)
    ensures Written(text, values, cleaned + text[cursor..start] + MARKER, end)
  {
    var kept, rest := text[cursor..start], RedactedFrom(text, values, end);
    KeptRun(text, values, cursor, start);
    InsideGroup(text, values, start, end, start + 1);
    assert Piece(text, values, start) == MARKER;
    Assoc(cleaned, kept, MARKER + rest);
    Assoc(cleaned + kept, MARKER, rest);
  }

  /** An occurrence that starts inside the current group widens it. */
  lemma WidenGroup(text: string, values: set<string>, cleaned: string, cursor: nat, start: nat, end: nat)
    requires Written(text, values, cleaned, cursor)
    requires start < cursor && IsMatch(text, values, start, end)
    ensures Written(text, values, cleaned, Max(cursor, end))
  {
    if cursor < end {
      InsideGroup(text, values, start, end, cursor);
    }
  }

  /** After the last group the rest of the text is kept. */
  lemma CloseText(text: string, values: set<string>, cleaned: string, cursor: nat)
    requires Written(text, values, cleaned, cursor) && MatchesEndBy(text, values, |text|, cursor)
    ensures cleaned + text[cursor..] == Redacted(text, values)
  {
    KeptRun(text, values, cursor, |text|);
    assert text[cursor..|text|] == text[cursor..];
  }

  /** Behind the first position of an occurrence nothing is written. */
  lemma InsidePosition(text: string, values: set<string>, start: nat, end: nat, p: nat)
    requires IsMatch(text, values, start, end) && start < p < end
    ensures Piece(text, values, p) == ""
  {
    assert Bridged(text, values, p);
    assert Covered(text, values, p);
  }

  lemma {:induction false} InsideGroup(text: string, values: set<string>, start: nat, end: nat, p: nat)
    requires IsMatch(text, values, start, end) && start < p <= end
    ensures RedactedFrom(text, values, p) == RedactedFrom(text, values, end)
    decreases end - p
  {
    if p < end {
      InsidePosition(text, values, start, end, p);
      InsideGroup(text, values, start, end, p + 1);
    }
  }

  /** A position that no occurrence touches is written as it is. */
  lemma KeptPosition(text: string, values: set<string>, p: nat, q: nat)
    requires p < q <= |text| && MatchesEndBy(text, values, q, p)
    ensures Piece(text, values, p) == [text[p]] && MatchesEndBy(text, values, q, p + 1)
  {
  }

  /** A run that no occurrence touches is written as it is. */
  lemma {:induction false} KeptRun(text: string, values: set<string>, p: nat, q: nat)
    requires p <= q <= |text| && MatchesEndBy(text, values, q, p)
    ensures RedactedFrom(text, values, p) == text[p..q] + RedactedFrom(text, values, q)
    decreases q - p
  {
    if p < q {
      KeptPosition(text, values, p, q);
      KeptRun(text, values, p + 1, q);
      assert text[p..q] == [text[p]] + text[p + 1..q];
      Assoc([text[p]], text[p + 1..q], RedactedFrom(text, values, q));
    }
  }
}
