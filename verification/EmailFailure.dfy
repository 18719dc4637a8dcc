/** How a failed email delivery finds out what its error quotes, and what the scrub then leaves of it. */
module EmailFailure {
  import opened Options
  import opened Quotients
  import opened Text
  import opened Redaction
  import opened RedactionLaws
  import opened Echo
  import opened ErrorNodes
  import opened ErrorChain

  // ---------- Reading a chain ----------

  function TextsOf(v: View): seq<string> {
    [v.texts.message] + if v.texts.stack.Some? then [v.texts.stack.value] else []
  }

  /** What one error contributes: its message, and its stack if that is asked for. */
  function PartsOf(v: View, includeStack: bool): seq<string> {
    if v.traits.unreadable then [MARKER] else if includeStack then TextsOf(v) else [v.texts.message]
  }

  ghost function NextOf(v: View): Cause {
    if v.traits.unreadable then Absent else v.cause
  }

  /** The texts along the causes, up to an error already seen or one that cannot be read. */
  ghost function PartsFrom(h: Heap, current: Cause, seen: set<ErrorNode>, includeStack: bool): seq<string>
    decreases h.Keys - seen
  {
    match current
    case Link(n) =>
      if n !in h || n in seen then [] else PartsOf(h[n], includeStack) + PartsFrom(h, NextOf(h[n]), seen + {n}, includeStack)
    case Other(text) => [if text.Some? then text.value else MARKER]
    case _ => []
  }

  /** The errors that are read. */
  ghost function VisitedFrom(h: Heap, current: Cause, seen: set<ErrorNode>): set<ErrorNode>
    decreases h.Keys - seen
  {
    if !current.Link? || current.node !in h || current.node in seen then {}
    else {current.node} + VisitedFrom(h, NextOf(h[current.node]), seen + {current.node})
  }

  method ReadError(n: ErrorNode, includeStack: bool, ghost h: Heap) returns (parts: seq<string>, next: Cause)
    requires n in h && Shows(h)
    ensures parts == PartsOf(h[n], includeStack) && next == NextOf(h[n])
  {
    if n.traits.unreadable {
      return [MARKER], Absent;
    }
    parts := [n.message];
    if includeStack && n.stack.Some? {
      parts := parts + [n.stack.value];
    }
    next := n.cause;
  }

  lemma ReadMore(done: seq<string>, h: Heap, n: ErrorNode, seen: set<ErrorNode>, includeStack: bool)
    requires n in h && n !in seen
    ensures done + PartsFrom(h, Link(n), seen, includeStack)
      == done + PartsOf(h[n], includeStack) + PartsFrom(h, NextOf(h[n]), seen + {n}, includeStack)
  {
  }

  /** `walkChain`, before the parts are joined. */
  method WalkChain(error: ErrorNode, includeStack: bool, ghost h: Heap) returns (parts: seq<string>)
    requires error in h && Closed(h) && Shows(h)
    ensures parts == PartsFrom(h, Link(error), {}, includeStack)
  {
    parts := [];
    var seen: set<ErrorNode> := {};
    var current := Link(error);
    while current.Link? && current.node !in seen
      invariant current.Link? ==> current.node in h
      invariant PartsFrom(h, Link(error), {}, includeStack) == parts + PartsFrom(h, current, seen, includeStack)
      decreases h.Keys - seen
    {
      var n := current.node;
      var more, next := ReadError(n, includeStack, h);
      ReadMore(parts, h, n, seen, includeStack);
      LinkStays(h, n);
      parts, seen, current := parts + more, seen + {n}, next;
    }
    if current.Other? {
      parts := parts + [if current.text.Some? then current.text.value else MARKER];
    }
  }

  /** Of an error its message is read, and its stack if that is asked for; of one that cannot be read the marker. */
  lemma ReadOfOne(v: View, includeStack: bool)
    ensures v.traits.unreadable ==> PartsOf(v, includeStack) == ["[redacted]"] && NextOf(v) == Absent
    ensures !v.traits.unreadable ==> NextOf(v) == v.cause
    ensures !v.traits.unreadable && includeStack && v.texts.stack.Some? ==>
      PartsOf(v, includeStack) == [v.texts.message, v.texts.stack.value]
    ensures !v.traits.unreadable && !(includeStack && v.texts.stack.Some?) ==> PartsOf(v, includeStack) == [v.texts.message]
  {
  }

  /** In their order: what one error has, and then what its cause says, but not of an error already seen; anything
      else is read in its string form. */
  lemma ReadInOrder(h: Heap, current: Cause, seen: set<ErrorNode>, includeStack: bool)
    ensures var parts := PartsFrom(h, current, seen, includeStack);
      match current
      case Link(n) =>
        if n !in h || n in seen then parts == []
        else parts == PartsOf(h[n], includeStack) + PartsFrom(h, NextOf(h[n]), seen + {n}, includeStack)
      case Other(Some(text)) => parts == [text]
      case Other(None) => parts == ["[redacted]"]
      case _ => parts == []
  {
  }

  lemma LinkStays(h: Heap, n: ErrorNode)
    requires Closed(h) && n in h
    ensures NextOf(h[n]).Link? ==> NextOf(h[n]).node in h
  {
    if NextOf(h[n]).Link? {
      assert h[n].cause.node in h;
    }
  }

  lemma {:induction false} VisitedIsRead(h: Heap, current: Cause, seen: set<ErrorNode>, includeStack: bool, n: ErrorNode, part: string)
    requires n in VisitedFrom(h, current, seen)
    ensures n in h && (part in PartsOf(h[n], includeStack) ==> part in PartsFrom(h, current, seen, includeStack))
    decreases h.Keys - seen
  {
    if n != current.node {
      VisitedIsRead(h, NextOf(h[current.node]), seen + {current.node}, includeStack, n, part);
    }
  }

  lemma {:induction false} VisitedIsClosed(h: Heap, current: Cause, seen: set<ErrorNode>, n: ErrorNode)
    requires Closed(h) && n in VisitedFrom(h, current, seen) && n in h
    requires !h[n].traits.unreadable && h[n].cause.Link?
    ensures h[n].cause.node in seen + VisitedFrom(h, current, seen)
    decreases h.Keys - seen
  {
    if n != current.node {
      VisitedIsClosed(h, NextOf(h[current.node]), seen + {current.node}, n);
    } else {
      assert h[n].cause.node in h;
    }
  }

  /** Whatever the scrub will walk was read. */
  lemma {:induction false} WalkIsVisited(h: Heap, error: ErrorNode, walked: seq<ErrorNode>, clean: Cleaner, i: nat)
    requires Closed(h) && WalkOf(h, error, walked, clean) && i < |walked|
    ensures walked[i] in VisitedFrom(h, Link(error), {})
  {
    if i > 0 {
      WalkIsVisited(h, error, walked, clean, i - 1);
      assert Follows(h, walked, i - 1, clean);
      VisitedIsClosed(h, Link(error), {}, walked[i - 1]);
    }
  }

  // ---------- Gathering what to redact ----------

  method JoinLines(parts: seq<string>) returns (text: string)
    requires parts != []
    ensures text == Join(parts, "\n")
  {
    var n := |parts| - 1;
    text := parts[n];
    assert parts[n..] == [parts[n]];
    while n > 0
      invariant 0 <= n < |parts| && text == Join(parts[n..], "\n")
    {
      n := n - 1;
      assert parts[n..][0] == parts[n] && parts[n..][1..] == parts[n + 1..];
      text := parts[n] + "\n" + text;
    }
    assert parts[0..] == parts;
  }

  lemma SomethingIsRead(h: Heap, error: ErrorNode, includeStack: bool)
    requires error in h
    ensures PartsFrom(h, Link(error), {}, includeStack) != []
  {
  }

  /** The excerpts of both bodies that the whole chain quotes, and what the caller declared. */
  method GatherRedactionValues(error: ErrorNode, declared: seq<string>, html: string, text: Option<string>, ghost h: Heap)
    returns (values: seq<string>)
    requires error in h && Closed(h) && Shows(h)
    ensures ScrubValues(Join(PartsFrom(h, Link(error), {}, true), "\n"), html, text, declared, ValueSet(values))
  {
    var parts := WalkChain(error, true, h);
    SomethingIsRead(h, error, true);
    var errorText := JoinLines(parts);
    values := CollectEchoedExcerpts(errorText, html);
    ghost var a := values;
    ghost var b: seq<string> := [];
    if text.Some? {
      var more := CollectEchoedExcerpts(errorText, text.value);
      b := more;
      values := values + more;
    }
    assert values == a + b;
    values := values + declared;
  }

  // ---------- What an excerpt of the whole chain means for one of its texts ----------

  /** Where a part starts in the joined text. */
  function Base(parts: seq<string>, k: nat): nat
    requires k < |parts|
  {
    if k == 0 then 0 else |parts[0]| + 1 + Base(parts[1..], k - 1)
  }

  /** `part` stands in the text at `base`, between line breaks or the ends. */
  predicate Stands(text: string, base: nat, part: string) {
    && OccursAt(text, part, base)
    && (base == 0 || text[base - 1] == '\n')
    && (base + |part| == |text| || text[base + |part|] == '\n')
  }

  lemma StandsBehind(line: string, rest: string, base: nat, part: string)
    requires Stands(rest, base, part)
    ensures Stands(line + "\n" + rest, |line| + 1 + base, part)
  {
    var text, n := line + "\n" + rest, |line| + 1;
    assert text[n..] == rest;
    SliceOfSlice(text, n, |text|, base, base + |part|);
    assert base > 0 ==> text[n + base - 1] == rest[base - 1];
    assert base + |part| < |rest| ==> text[n + base + |part|] == rest[base + |part|];
  }

  /** A part stands in the joined text. */
  lemma {:induction false} PartStands(parts: seq<string>, k: nat)
    requires k < |parts|
    ensures Stands(Join(parts, "\n"), Base(parts, k), parts[k])
    decreases k
  {
    if k > 0 {
      PartStands(parts[1..], k - 1);
      StandsBehind(parts[0], Join(parts[1..], "\n"), Base(parts[1..], k - 1), parts[k]);
    } else if |parts| > 1 {
      assert Join(parts, "\n") == parts[0] + "\n" + Join(parts[1..], "\n");
    }
  }

  lemma NoBreakBetween(text: string, start: int, end: int, at: int)
    requires 0 <= start <= end <= |text| && '\n' !in text[start..end]
    ensures start <= at < end ==> text[at] != '\n'
  {
    assert start <= at < end ==> text[start..end][at - start] == text[at];
  }

  /** An occurrence without a line break that touches a part lies within it. */
  lemma MatchWithinPart(text: string, base: nat, part: string, values: set<string>, start: int, end: int, s: int)
    requires Stands(text, base, part) && 0 <= s < |part|
    requires IsMatch(text, values, start, end) && start <= base + s < end && '\n' !in text[start..end]
    ensures IsMatch(part, values, start - base, end - base)
  {
    NoBreakBetween(text, start, end, base - 1);
    NoBreakBetween(text, start, end, base + |part|);
    SliceOfSlice(text, base, base + |part|, start - base, end - base);
  }

  lemma NoBreakInExcerpts(text: string, reference: string, excerpts: seq<string>)
    requires ScanFrom(text, reference, 0, excerpts) && '\n' !in reference
    ensures forall e :: e in excerpts ==> '\n' !in e
  {
    forall e | e in excerpts ensures '\n' !in e {
      var n :| 0 <= n < |excerpts| && excerpts[n] == e;
      ExcerptsAreEchoes(text, reference, 0, excerpts, n);
      var at :| OccursAt(reference, e, at);
      assert forall i :: 0 <= i < |e| ==> e[i] == reference[at..at + |e|][i] == reference[at + i];
    }
  }

  lemma MatchWithoutBreak(text: string, reference: string, excerpts: seq<string>, at: int) returns (start: int, end: int)
    requires ScanFrom(text, reference, 0, excerpts) && '\n' !in reference && Echoes(text, reference, at, MIN_ECHO_LENGTH)
    ensures IsMatch(text, ValueSet(excerpts), start, end) && start <= at < end && '\n' !in text[start..end]
  {
    WindowStartsInExcerpt(text, reference, 0, excerpts, at);
    start, end :| IsMatch(text, ValueSet(excerpts), start, end) && start <= at < end;
    NoBreakInExcerpts(text, reference, excerpts);
  }

  lemma EchoInWhole(parts: seq<string>, k: nat, reference: string, s: int)
    requires k < |parts| && Echoes(parts[k], reference, s, MIN_ECHO_LENGTH)
    ensures Echoes(Join(parts, "\n"), reference, Base(parts, k) + s, MIN_ECHO_LENGTH)
  {
    PartStands(parts, k);
    SliceOfSlice(Join(parts, "\n"), Base(parts, k), Base(parts, k) + |parts[k]|, s, s + MIN_ECHO_LENGTH);
  }

  lemma WindowIsCoveredIn(text: string, base: nat, part: string, reference: string, excerpts: seq<string>, values: set<string>, s: nat)
    requires Stands(text, base, part) && ScanFrom(text, reference, 0, excerpts) && ValueSet(excerpts) <= values
    requires '\n' !in reference && s < |part| && Echoes(text, reference, base + s, MIN_ECHO_LENGTH)
    ensures Covered(part, values, s)
  {
    var start, end := MatchWithoutBreak(text, reference, excerpts, base + s);
    MatchWithinPart(text, base, part, ValueSet(excerpts), start, end, s);
    assert IsMatch(part, values, start - base, end - base);
  }

  lemma WindowIsCovered(parts: seq<string>, k: nat, reference: string, excerpts: seq<string>, values: set<string>, s: int)
    requires k < |parts| && ScanFrom(Join(parts, "\n"), reference, 0, excerpts) && ValueSet(excerpts) <= values
    requires '\n' !in reference && Echoes(parts[k], reference, s, MIN_ECHO_LENGTH)
    ensures Covered(parts[k], values, s)
  {
    EchoInWhole(parts, k, reference, s);
    PartStands(parts, k);
    WindowIsCoveredIn(Join(parts, "\n"), Base(parts, k), parts[k], reference, excerpts, values, s);
  }

  /** If the body has no line break, no kept stretch of any text of the chain contains a long run of it. */
  lemma PartsCarryNoEcho(parts: seq<string>, k: nat, reference: string, excerpts: seq<string>, values: set<string>, i: nat, run: string)
    requires k < |parts| && ScanFrom(Join(parts, "\n"), reference, 0, excerpts) && ValueSet(excerpts) <= values
    requires '\n' !in reference
    requires i < |Stretches(parts[k], values)| && |run| == MIN_ECHO_LENGTH && Contains(reference, run)
    ensures !Contains(Stretches(parts[k], values)[i], run)
  {
    forall s | Echoes(parts[k], reference, s, MIN_ECHO_LENGTH) ensures Covered(parts[k], values, s) {
      WindowIsCovered(parts, k, reference, excerpts, values, s);
    }
    CoveredWindowsAreGone(parts[k], reference, values, i, run);
  }

  lemma PartsCarryNothing(parts: seq<string>, part: string, html: string, text: Option<string>, declared: seq<string>,
                          values: set<string>, i: nat, forbidden: string)
    requires part in parts && ScrubValues(Join(parts, "\n"), html, text, declared, values)
    requires i < |Stretches(part, values)|
    requires || (forbidden in declared && forbidden != "")
             || (|forbidden| == MIN_ECHO_LENGTH && Contains(html, forbidden) && '\n' !in html)
             || (|forbidden| == MIN_ECHO_LENGTH && text.Some? && Contains(text.value, forbidden) && '\n' !in text.value)
    ensures !Contains(Stretches(part, values)[i], forbidden)
  {
    var joined := Join(parts, "\n");
    var k :| 0 <= k < |parts| && parts[k] == part;
    var a, b :|
      && ScanFrom(joined, html, 0, a)
      && (if text.Some? then ScanFrom(joined, text.value, 0, b) else b == [])
      && values == ValueSet(a + b + declared);
    if forbidden in declared && forbidden != "" {
      StretchesCarryNoSecret(part, values, i, forbidden);
    } else if Contains(html, forbidden) && '\n' !in html {
      PartsCarryNoEcho(parts, k, html, a, values, i, forbidden);
    } else {
      PartsCarryNoEcho(parts, k, text.value, b, values, i, forbidden);
    }
  }

  /** After the scrub, every message and stack of the chain is markers and stretches of the original, and
      no stretch contains a declared value, or 16 consecutive characters of a body without line breaks. */
  lemma ChainCarriesNoEcho(before: Heap, after: Heap, rep: map<ErrorNode, ErrorNode>, error: ErrorNode, walked: seq<ErrorNode>,
                           html: string, text: Option<string>, declared: seq<string>, values: set<string>,
                           n: nat, part: string, i: nat, forbidden: string)
    requires error in before && Closed(before) && Scrubbed(before, after, rep, Redactor(values))
    requires WalkOf(before, error, walked, Redactor(values)) && n < |walked| && walked[n] in rep
    requires ScrubValues(Join(PartsFrom(before, Link(error), {}, true), "\n"), html, text, declared, values)
    requires part in PartsOf(before[walked[n]], true) && i < |Stretches(part, values)|
    requires || (forbidden in declared && forbidden != "")
             || (|forbidden| == MIN_ECHO_LENGTH && Contains(html, forbidden) && '\n' !in html)
             || (|forbidden| == MIN_ECHO_LENGTH && text.Some? && Contains(text.value, forbidden) && '\n' !in text.value)
    ensures Redacted(part, values) == Join(Stretches(part, values), MARKER)
    ensures !Contains(Stretches(part, values)[i], forbidden)
    ensures FateOf(before[walked[n]], Redactor(values)) == Withheld || Redacted(part, values) in TextsOf(after[rep[walked[n]]])
  {
    var clean := Redactor(values);
    var node := walked[n];
    OutputIsStretches(part, values, 0);
    assert ScrubbedAt(before, after, rep, clean, node);
    WalkIsVisited(before, error, walked, clean, n);
    VisitedIsRead(before, Link(error), {}, true, node, part);
    PartsCarryNothing(PartsFrom(before, Link(error), {}, true), part, html, text, declared, values, i, forbidden);
  }

  // ---------- And with line breaks they can ----------

  /** After redacting the excerpts that the joined parts quote, one of the parts still shows 16 consecutive
      characters of the reference. */
  ghost predicate Leaks(reference: string, parts: seq<string>, excerpts: seq<string>, part: string, i: nat, run: string) {
    && part in parts && ScanFrom(Join(parts, "\n"), reference, 0, excerpts)
    && i < |Stretches(part, ValueSet(excerpts))|
    && |run| == MIN_ECHO_LENGTH && Contains(reference, run) && Contains(Stretches(part, ValueSet(excerpts))[i], run)
  }

  ghost predicate EchoFree(reference: string) {
    forall parts, excerpts, part, i, run :: !Leaks(reference, parts, excerpts, part, i, run)
  }

  lemma WholeIsOneExcerpt(text: string, reference: string)
    requires |text| >= MIN_ECHO_LENGTH && Contains(reference, text)
    ensures ScanFrom(text, reference, 0, [text])
  {
    assert text[0..|text|] == text && OccursAt(text, text, 0);
    assert Echoes(text, reference, 0, |text|) && LongestEcho(text, reference, 0, |text|);
    assert !LongestEcho(text, reference, 0, 0);
    var none: seq<string> := [];
    assert [text][1..] == none && ScanFrom(text, reference, |text|, none);
  }

  /** A text in which a value does not occur is one stretch. */
  lemma {:induction false} AbsentIsKept(text: string, value: string, p: nat)
    requires p <= |text| && !Contains(text, value)
    ensures StretchesFrom(text, ValueSet([value]), p) == [text[p..]]
    decreases |text| - p
  {
    if p == |text| {
      assert text[p..] == "";
    } else {
      forall start, end ensures !IsMatch(text, ValueSet([value]), start, end) {
        assert IsMatch(text, ValueSet([value]), start, end) ==> OccursAt(text, value, start);
      }
      AbsentIsKept(text, value, p + 1);
      assert [text[p]] + text[p + 1..] == text[p..];
    }
  }

  /** Two texts that the body has on both sides of a line break are its only excerpt, which occurs in
      neither of them: both stay as they are. */
  lemma QuoteStays(first: string, second: string, reference: string, part: string, run: string)
    requires Contains(reference, first + "\n" + second) && |first| + 1 + |second| >= MIN_ECHO_LENGTH
    requires part in {first, second} && |run| == MIN_ECHO_LENGTH && Contains(part, run) && Contains(reference, run)
    ensures Leaks(reference, [first, second], [first + "\n" + second], part, 0, run)
    ensures Redacted(part, ValueSet([first + "\n" + second])) == part
  {
    var text := first + "\n" + second;
    assert [first, second][1..] == [second] && Join([second], "\n") == second;
    assert Join([first, second], "\n") == text;
    WholeIsOneExcerpt(text, reference);
    AbsentIsKept(part, text, 0);
    assert part[0..] == part;
    OutputIsStretches(part, ValueSet([text]), 0);
  }

  lemma SliceIsRead(text: string, from: nat, to: nat)
    requires from <= to <= |text|
    ensures Contains(text, text[from..to])
  {
    assert OccursAt(text, text[from..to], from);
  }

  /** A line break with 16 characters before it, or 16 after it, is enough for a leak: by one text that
      quotes the line up to its end, or by two that quote the lines on both sides. */
  lemma LineBreakLeaks(html: string, q: nat) returns (first: string, second: string, part: string)
    requires q < |html| && html[q] == '\n' && (q >= MIN_ECHO_LENGTH || q + 1 + MIN_ECHO_LENGTH <= |html|)
    ensures Leaks(html, [first, second], [first + "\n" + second], part, 0, part) && part in {first, second}
    ensures q >= MIN_ECHO_LENGTH ==> first == part == html[q - MIN_ECHO_LENGTH..q] && second == ""
  {
    if q >= MIN_ECHO_LENGTH {
      first, second := html[q - MIN_ECHO_LENGTH..q], "";
      part := first;
      assert first + "\n" + second == html[q - MIN_ECHO_LENGTH..q + 1];
      SliceIsRead(html, q - MIN_ECHO_LENGTH, q + 1);
      SliceIsRead(html, q - MIN_ECHO_LENGTH, q);
    } else {
      first, second := html[..q], html[q + 1..q + 1 + MIN_ECHO_LENGTH];
      part := second;
      assert first + "\n" + second == html[0..q + 1 + MIN_ECHO_LENGTH];
      SliceIsRead(html, 0, q + 1 + MIN_ECHO_LENGTH);
      SliceIsRead(html, q + 1, q + 1 + MIN_ECHO_LENGTH);
    }
    assert OccursAt(part, part, 0);
    QuoteStays(first, second, html, part, part);
  }

  lemma NoBreakNoLeak(html: string)
    requires '\n' !in html
    ensures EchoFree(html)
  {
    forall parts, excerpts, part, i, run ensures !Leaks(html, parts, excerpts, part, i, run) {
      if Leaks(html, parts, excerpts, part, i, run) {
        var k :| 0 <= k < |parts| && parts[k] == part;
        PartsCarryNoEcho(parts, k, html, excerpts, ValueSet(excerpts), i, run);
      }
    }
  }

  /** The start of the body up to `s` characters behind a line break, and a run of 16 characters of it. */
  function Spliced(html: string, q: nat, s: nat, j: nat): string
    requires q + 1 + s <= |html| && j + MIN_ECHO_LENGTH <= |html|
  {
    html[..q + 1 + s] + html[j..j + MIN_ECHO_LENGTH]
  }

  /** What the body and the spliced text have in common goes on into the run, and is nowhere in what stands
      behind the line break. */
  ghost predicate Escapes(html: string, q: nat, s: nat, j: nat, n: nat) {
    && q + 1 + s <= |html| && j + MIN_ECHO_LENGTH <= |html| && html[q] == '\n'
    && q + 1 + s < n <= q + 1 + s + MIN_ECHO_LENGTH && LongestEcho(Spliced(html, q, s, j), html, 0, n)
    && !Contains(Spliced(html, q, s, j)[q + 1..], Spliced(html, q, s, j)[..n])
  }

  /** No line break has 16 characters before it, and no run escapes behind one. */
  ghost predicate KeepsRuns(html: string) {
    && (forall q :: MIN_ECHO_LENGTH <= q < |html| ==> html[q] != '\n')
    && forall q: nat, s: nat, j: nat, n: nat :: !Escapes(html, q, s, j, n)
  }

  lemma SplicedScan(html: string, q: nat, s: nat, j: nat, n: nat)
    requires Escapes(html, q, s, j, n)
    ensures ScanFrom(Spliced(html, q, s, j), html, 0, [Spliced(html, q, s, j)[..n]])
  {
    var text := Spliced(html, q, s, j);
    var none: seq<string> := [];
    assert OccursAt(text, text[..n], 0) && !LongestEcho(text, html, 0, 0) by {
      assert Echoes(text, html, 0, n);
    }
    assert [text[..n]][1..] == none && ScanFrom(text, html, n, none);
  }

  lemma SplicedTail(html: string, q: nat, s: nat, j: nat)
    requires q + 1 + s <= |html| && j + MIN_ECHO_LENGTH <= |html|
    ensures OccursAt(Spliced(html, q, s, j)[q + 1..], html[j..j + MIN_ECHO_LENGTH], s)
  {
    assert Spliced(html, q, s, j)[q + 1..] == html[q + 1..q + 1 + s] + html[j..j + MIN_ECHO_LENGTH];
  }

  /** Two texts: the body up to the line break, and the run behind a few characters of the next line. */
  lemma EscapeLeaks(html: string, q: nat, s: nat, j: nat, n: nat)
    requires Escapes(html, q, s, j, n)
    ensures var text := Spliced(html, q, s, j);
      Leaks(html, [html[..q], text[q + 1..]], [text[..n]], text[q + 1..], 0, html[j..j + MIN_ECHO_LENGTH])
  {
    var text, run := Spliced(html, q, s, j), html[j..j + MIN_ECHO_LENGTH];
    var first, second := html[..q], text[q + 1..];
    assert [first, second][1..] == [second] && Join([second], "\n") == second;
    assert first + "\n" + second == text;
    SplicedScan(html, q, s, j, n);
    AbsentIsKept(second, text[..n], 0);
    SplicedTail(html, q, s, j);
    assert second[0..] == second && OccursAt(html, run, j);
  }

  /** There is a longest echo, if there is one. */
  lemma {:induction false} LongestExists(text: string, reference: string, i: nat, m: nat) returns (n: nat)
    requires m >= MIN_ECHO_LENGTH && Echoes(text, reference, i, m)
    ensures m <= n <= |text| && LongestEcho(text, reference, i, n)
    decreases |text| - m
  {
    if more: nat :| more > m && Echoes(text, reference, i, more) {
      n := LongestExists(text, reference, i, more);
    } else {
      n := m;
    }
  }

  /** `e` stands in the body at `y`. It agrees with `w`, which has a line break at `h - 1` and ends with a run of
      the body, into that run. */
  predicate Crosses(html: string, w: string, h: nat, s: nat, j: nat, y: nat, e: string) {
    && 1 <= h && |w| == h + s + MIN_ECHO_LENGTH && w[h - 1] == '\n' && OccursAt(html, w[h + s..], j)
    && OccursAt(html, e, y) && |e| >= MIN_ECHO_LENGTH && |e| > h + s && (e <= w || w <= e)
  }

  lemma CrossingIsSpliced(html: string, w: string, h: nat, s: nat, j: nat, y: nat, e: string)
    requires Crosses(html, w, h, s, j, y, e)
    ensures y + h + s <= |html| && html[y + h - 1] == '\n' && Spliced(html, y + h - 1, s, j) == html[..y] + w
    ensures e <= w ==> Echoes(html[..y] + w, html, 0, y + |e|)
    ensures w <= e ==> Echoes(html[..y] + w, html, 0, y + |w|)
  {
    var m := if e <= w then |e| else |w|;
    assert html[y..y + m] == w[..m] by {
      SliceOfSlice(html, y, y + |e|, 0, m);
      assert e[..m] == w[..m];
    }
    SliceOfSlice(html, y, y + m, 0, h + s);
    assert html[y + h - 1] == html[y..y + m][h - 1];
    assert html[..y] + w[..h + s] == html[..y + h + s];
    assert (html[..y] + w)[0..y + m] == html[..y] + w[..m] == html[..y + m];
    assert OccursAt(html, (html[..y] + w)[0..y + m], 0);
    assert w == w[..h + s] + w[h + s..];
    Assoc(html[..y], w[..h + s], w[h + s..]);
  }

  lemma PieceOfPiece(text: string, whole: string, from: nat, part: string)
    requires OccursAt(whole, part, from) && Contains(text, whole)
    ensures Contains(text, part)
  {
    var at :| OccursAt(text, whole, at);
    SliceOfSlice(text, at, at + |whole|, from, from + |part|);
    assert OccursAt(text, part, at + from);
  }

  lemma CrossingEscapes(html: string, w: string, h: nat, s: nat, j: nat, y: nat, e: string) returns (n: nat)
    requires Crosses(html, w, h, s, j, y, e) && !Contains(w[h..], e)
    ensures Escapes(html, y + h - 1, s, j, n)
  {
    CrossingIsSpliced(html, w, h, s, j, y, e);
    var text := html[..y] + w;
    assert text[y + h..] == w[h..];
    n := LongestExists(text, html, 0, y + if e <= w then |e| else |w|);
    if e <= w {
      assert OccursAt(text[..n], e, y) by {
        SliceOfSlice(text, 0, n, y, y + |e|);
        assert text[y..y + |e|] == w[..|e|];
      }
      if Contains(w[h..], text[..n]) {
        PieceOfPiece(w[h..], text[..n], y, e);
      }
    }
  }

  /** Where a kept run stands in its text, none of its characters is covered. */
  lemma RunIsKept(part: string, values: set<string>, i: nat, run: string) returns (s: nat)
    requires i < |Stretches(part, values)| && Contains(Stretches(part, values)[i], run)
    ensures OccursAt(part, run, s) && forall r :: s <= r < s + |run| ==> !Covered(part, values, r)
  {
    StretchesAreKept(part, values, 0);
    var stretch := Stretches(part, values)[i];
    assert Kept(part, values, stretch);
    var at: nat :| KeptAt(part, values, stretch, at);
    var off :| OccursAt(stretch, run, off);
    SliceOfSlice(part, at, at + |stretch|, off, off + |run|);
    s := at + off;
  }

  /** A line break inside an excerpt stands in the body, as far from the start of the excerpt. */
  lemma ExcerptEndsInside(html: string, text: string, start: nat, end: nat, e: string, p: nat)
    requires start < end <= |text| && e == text[start..end] && Contains(html, e)
    requires forall q :: MIN_ECHO_LENGTH <= q < |html| ==> html[q] != '\n'
    requires start + MIN_ECHO_LENGTH <= p && (p < |text| ==> text[p] == '\n')
    ensures end <= p
  {
    if p < end {
      var y :| OccursAt(html, e, y);
      CharOf(html, e, y, p - start);
    }
  }

  lemma ExcerptStartsBefore(text: string, base: nat, part: string, values: set<string>, s: nat, start: nat, end: nat)
    requires OccursAt(text, part, base) && s < |part| && !Covered(part, values, s)
    requires IsMatch(text, values, start, end) && start <= base + s < end <= base + |part|
    ensures start < base
  {
    if start >= base {
      SliceOfSlice(text, base, base + |part|, start - base, end - base);
      assert IsMatch(part, values, start - base, end - base);
    }
  }

  lemma ExcerptIsQuoted(text: string, html: string, excerpts: seq<string>, e: string)
    requires ScanFrom(text, html, 0, excerpts) && e in excerpts
    ensures |e| >= MIN_ECHO_LENGTH && Contains(html, e)
  {
    var n: nat :| n < |excerpts| && excerpts[n] == e;
    ExcerptsAreEchoes(text, html, 0, excerpts, n);
  }

  /** The excerpt that takes the run in the whole text is none that the text of its own has: it begins before
      that text, if the body has no line break behind 16 characters. */
  lemma ExcerptCrosses(text: string, base: nat, part: string, html: string, excerpts: seq<string>, s: nat, start: nat, end: nat)
    requires Stands(text, base, part) && ScanFrom(text, html, 0, excerpts)
    requires forall q :: MIN_ECHO_LENGTH <= q < |html| ==> html[q] != '\n'
    requires s + MIN_ECHO_LENGTH <= |part| && !Covered(part, ValueSet(excerpts), s)
    requires IsMatch(text, ValueSet(excerpts), start, end) && start <= base + s < end
    ensures end <= base + |part| && start < base
    ensures end - start >= MIN_ECHO_LENGTH && Contains(html, text[start..end])
  {
    ExcerptIsQuoted(text, html, excerpts, text[start..end]);
    ExcerptEndsInside(html, text, start, end, text[start..end], base + |part|);
    ExcerptStartsBefore(text, base, part, ValueSet(excerpts), s, start, end);
  }

  /** Then it is nowhere in its text up to the end of the run. */
  lemma ExcerptIsElsewhere(part: string, values: set<string>, s: nat, e: string)
    requires s + MIN_ECHO_LENGTH <= |part| && e in values && |e| > s
    requires forall r :: s <= r < s + MIN_ECHO_LENGTH ==> !Covered(part, values, r)
    ensures !Contains(part[..s + MIN_ECHO_LENGTH], e)
  {
    var head := part[..s + MIN_ECHO_LENGTH];
    forall at ensures !OccursAt(head, e, at) {
      if OccursAt(head, e, at) {
        SliceOfSlice(part, 0, |head|, at, at + |e|);
        assert IsMatch(part, values, at, at + |e|);
        assert Covered(part, values, at + |e| - 1);
      }
    }
  }

  /** The whole text from the start of the excerpt to the end of the run. */
  lemma WholeUpToRun(text: string, part: string, base: nat, s: nat, start: nat, end: nat, run: string)
    requires Stands(text, base, part) && OccursAt(part, run, s) && |run| == MIN_ECHO_LENGTH && start < base && base + s < end <= |text|
    ensures var w, h := text[start..base + s + MIN_ECHO_LENGTH], base - start;
      && w[h - 1] == '\n' && w[h..] == part[..s + MIN_ECHO_LENGTH] && w[h + s..] == run
      && (text[start..end] <= w || w <= text[start..end])
  {
    var w, h := text[start..base + s + MIN_ECHO_LENGTH], base - start;
    SliceOfSlice(text, base, base + |part|, 0, s + MIN_ECHO_LENGTH);
    SliceOfSlice(text, base, base + |part|, s, s + MIN_ECHO_LENGTH);
    assert w[h..] == text[base..base + s + MIN_ECHO_LENGTH];
    assert w[h + s..] == text[base + s..base + s + MIN_ECHO_LENGTH];
    if end <= base + s + MIN_ECHO_LENGTH {
      assert text[start..end] == w[..end - start];
    } else {
      assert w == text[start..end][..|w|];
    }
  }

  lemma RunCrosses(text: string, base: nat, part: string, html: string, excerpts: seq<string>, s: nat, run: string, j: nat)
    returns (w: string, h: nat, y: nat, e: string)
    requires Stands(text, base, part) && ScanFrom(text, html, 0, excerpts) && Echoes(text, html, base + s, MIN_ECHO_LENGTH)
    requires forall q :: MIN_ECHO_LENGTH <= q < |html| ==> html[q] != '\n'
    requires |run| == MIN_ECHO_LENGTH && OccursAt(part, run, s) && OccursAt(html, run, j)
    requires forall r :: s <= r < s + MIN_ECHO_LENGTH ==> !Covered(part, ValueSet(excerpts), r)
    ensures Crosses(html, w, h, s, j, y, e) && !Contains(w[h..], e)
  {
    WindowStartsInExcerpt(text, html, 0, excerpts, base + s);
    var start: nat, end: nat :| IsMatch(text, ValueSet(excerpts), start, end) && start <= base + s < end;
    ExcerptCrosses(text, base, part, html, excerpts, s, start, end);
    e, w, h := text[start..end], text[start..base + s + MIN_ECHO_LENGTH], base - start;
    var at: nat :| OccursAt(html, e, at);
    y := at;
    ExcerptIsElsewhere(part, ValueSet(excerpts), s, e);
    WholeUpToRun(text, part, base, s, start, end, run);
  }

  lemma LeakEscapes(html: string, parts: seq<string>, excerpts: seq<string>, part: string, i: nat, run: string)
    returns (q: nat, s: nat, j: nat, n: nat)
    requires Leaks(html, parts, excerpts, part, i, run)
    requires forall p :: MIN_ECHO_LENGTH <= p < |html| ==> html[p] != '\n'
    ensures Escapes(html, q, s, j, n)
  {
    var k: nat :| k < |parts| && parts[k] == part;
    s := RunIsKept(part, ValueSet(excerpts), i, run);
    var at: nat :| OccursAt(html, run, at);
    j := at;
    EchoInWhole(parts, k, html, s);
    PartStands(parts, k);
    var w, h, y, e := RunCrosses(Join(parts, "\n"), Base(parts, k), part, html, excerpts, s, run, j);
    n := CrossingEscapes(html, w, h, s, j, y, e);
    q := y + h - 1;
  }

  /** No chain can quote the body without every 16-character run of it being dropped, if and only if no line
      break has 16 characters before it and no run escapes behind one. */
  lemma EchoFreeIff(html: string)
    ensures EchoFree(html) <==> KeepsRuns(html)
  {
    if q :| MIN_ECHO_LENGTH <= q < |html| && html[q] == '\n' {
      var first, second, part := LineBreakLeaks(html, q);
    } else {
      forall q: nat, s: nat, j: nat, n: nat | Escapes(html, q, s, j, n) ensures !EchoFree(html) {
        EscapeLeaks(html, q, s, j, n);
      }
      forall parts, excerpts, part, i, run | Leaks(html, parts, excerpts, part, i, run) ensures !KeepsRuns(html) {
        var q, s, j, n := LeakEscapes(html, parts, excerpts, part, i, run);
      }
    }
  }

  /** For long bodies that says that there is no line break. */
  lemma LongBodiesKeepRunsIff(html: string)
    requires |html| >= 2 * MIN_ECHO_LENGTH
    ensures KeepsRuns(html) <==> '\n' !in html
  {
    forall q: nat | q < MIN_ECHO_LENGTH && html[q] == '\n' ensures Escapes(html, q, 0, q + 1, q + 1 + MIN_ECHO_LENGTH) {
      var n := q + 1 + MIN_ECHO_LENGTH;
      assert Spliced(html, q, 0, q + 1) == html[..n];
      assert html[..n][0..n] == html[..n] && OccursAt(html, html[..n], 0);
      assert Echoes(html[..n], html, 0, n);
    }
  }

  lemma RepeatedLines(line: string, html: string)
    requires |line| >= 7 && html == line + "\n" + line + "\n" + line
    ensures var n := Min(|html|, |line| + 1 + MIN_ECHO_LENGTH); Spliced(html, |line|, 0, 0)[0..n] == html[..n]
    ensures html[|line|] == '\n'
  {
    var twice := line + "\n" + line + "\n";
    assert html == twice + line && html == line + "\n" + (line + "\n" + line);
    assert html[..|line| + 1] == line + "\n" && html[0..MIN_ECHO_LENGTH] == twice[..MIN_ECHO_LENGTH];
    assert Spliced(html, |line|, 0, 0) == line + "\n" + twice[..MIN_ECHO_LENGTH];
    assert line + "\n" + twice == html + "\n";
    assert Spliced(html, |line|, 0, 0) == (html + "\n")[..|line| + 1 + MIN_ECHO_LENGTH];
  }

  /** Short ones can leak as well, with no 16 characters on either side of a line break: three equal lines do. */
  lemma EqualLinesLeak(line: string)
    requires |line| >= 7
    ensures !KeepsRuns(line + "\n" + line + "\n" + line)
  {
    var html := line + "\n" + line + "\n" + line;
    var n: nat := Min(|html|, |line| + 1 + MIN_ECHO_LENGTH);
    RepeatedLines(line, html);
    assert OccursAt(html, html[..n], 0);
    assert Echoes(Spliced(html, |line|, 0, 0), html, 0, n);
    assert Escapes(html, |line|, 0, 0, n);
  }

  /** A single error that shows the two texts as its message and its stack. */
  function QuotingError(first: string, second: string): View {
    Seen(Texts("", first, Some(second)), Absent, [], None, PLAIN)
  }

  lemma QuotingErrorIsRead(n: ErrorNode, first: string, second: string)
    ensures var before: Heap := map[n := QuotingError(first, second)];
      Closed(before) && PartsFrom(before, Link(n), {}, true) == [first, second]
  {
  }

  /** So for whole chains: the leak takes no more than one error. */
  lemma ChainEchoFreeIff(html: string, n: ErrorNode)
    ensures (forall before: Heap, error: ErrorNode, excerpts: seq<string>, part: string, i: nat, run: string ::
               error in before && Closed(before) ==>
                 !Leaks(html, PartsFrom(before, Link(error), {}, true), excerpts, part, i, run))
      <==> KeepsRuns(html)
  {
    EchoFreeIff(html);
    if q :| MIN_ECHO_LENGTH <= q < |html| && html[q] == '\n' {
      var first, second, part := LineBreakLeaks(html, q);
      QuotingErrorIsRead(n, first, second);
      assert Leaks(html, PartsFrom(map[n := QuotingError(first, second)], Link(n), {}, true), [first + "\n" + second], part, 0, part);
    } else if q: nat, s: nat, j: nat, m: nat :| Escapes(html, q, s, j, m) {
      var text := Spliced(html, q, s, j);
      EscapeLeaks(html, q, s, j, m);
      QuotingErrorIsRead(n, html[..q], text[q + 1..]);
      assert Leaks(html, PartsFrom(map[n := QuotingError(html[..q], text[q + 1..])], Link(n), {}, true),
                   [text[..m]], text[q + 1..], 0, html[j..j + MIN_ECHO_LENGTH]);
    }
  }

  // ---------- The failure of a delivery ----------

  /** The cause that a failed delivery publishes: the provider's error, scrubbed if there is anything to
      scrub. */
  method PublishedCause(error: ErrorNode, declared: seq<string>, html: string, text: Option<string>, ghost before: Heap)
    returns (cause: ErrorNode, ghost values: set<string>, ghost rep: map<ErrorNode, ErrorNode>, ghost after: Heap,
             ghost walked: seq<ErrorNode>)
    requires error in before && Closed(before) && Shows(before)
    modifies before.Keys
    ensures ScrubValues(Join(PartsFrom(before, Link(error), {}, true), "\n"), html, text, declared, values)
    ensures values == {} ==> cause == error && forall n :: n in before ==> n.Look() == before[n]
    ensures values != {} ==>
      && error in rep && cause == rep[error] && Shows(after) && Scrubbed(before, after, rep, Redactor(values))
      && WalkOf(before, error, walked, Redactor(values)) && (forall n :: n in rep <==> n in walked)
  {
    var list := GatherRedactionValues(error, declared, html, text, before);
    values, rep, after, walked := ValueSet(list), map[], before, [];
    if list == [] {
      return error, values, rep, after, walked;
    }
    assert list[0] in values;
    cause, rep, after, walked := ScrubValuesFromErrorChain(error, list, before);
  }
}
