/** The reply codes a failed delivery may publish: only what a fixed grammar can express. */
module DeliveryStatus {
  import opened Options
  import opened Text
  import opened Patterns

  const CLASSES := "245"

  /** Three digits that open a 2xx, 4xx or 5xx reply. */
  const BASIC_STATUS: Pattern := [Item(CLASSES, 1, 1), Item(DIGITS, 1, 1), Item(DIGITS, 1, 1)]
  /** Class, subject and detail of section 2 of RFC 3463, of at most three digits each. */
  const ENHANCED_STATUS: Pattern :=
    [Item(CLASSES, 1, 1), Item(".", 1, 1), Item(DIGITS, 1, 3), Item(".", 1, 1), Item(DIGITS, 1, 3)]

  datatype DeliveryStatus = DeliveryStatus(status: Option<int>, enhanced: Option<string>)

  // ---------- Numbers and their decimal form ----------

  predicate AllDigits(s: string) {
    forall i :: 0 <= i < |s| ==> s[i] in DIGITS
  }

  function Digit(d: nat): (c: char)
    requires d < 10
    ensures c in DIGITS
  {
    DIGITS[d]
  }

  function DigitValue(c: char): (d: nat)
    requires c in DIGITS
    ensures d < 10 && Digit(d) == c && (d == 0 ==> c == '0')
  {
    (c as int) - ('0' as int)
  }

  function ToNumber(s: string): nat
    requires AllDigits(s)
  {
    if s == "" then 0 else 10 * ToNumber(s[..|s| - 1]) + DigitValue(s[|s| - 1])
  }

  function ToDecimal(n: int): string
    decreases if n < 0 then 1 - n else n
  {
    if n < 0 then "-" + ToDecimal(-n)
    else if n < 10 then [Digit(n)]
    else ToDecimal(n / 10) + [Digit(n % 10)]
  }

  /** A number without leading zeros is written as it was read. */
  lemma {:induction false} ReadAndWritten(s: string)
    requires AllDigits(s) && s != "" && s[0] != '0'
    ensures ToDecimal(ToNumber(s)) == s && ToNumber(s) > 0
    decreases |s|
  {
    var front, last := s[..|s| - 1], s[|s| - 1];
    assert s == front + [last];
    if front == "" {
      assert ToNumber(front) == 0;
    } else {
      ReadAndWritten(front);
      assert ToNumber(s) / 10 == ToNumber(front) && ToNumber(s) % 10 == DigitValue(last);
    }
  }

  // ---------- The grammar ----------

  ghost predicate IsBasicStatus(value: int) {
    Matches(BASIC_STATUS, ToDecimal(value))
  }

  ghost predicate IsEnhancedStatus(value: string) {
    Matches(ENHANCED_STATUS, value)
  }

  lemma OneOf(item: Item, rest: Pattern, s: string)
    requires item.least == item.most == 1
    ensures Matches([item] + rest, s) <==> s != "" && s[0] in item.chars && Matches(rest, s[1..])
  {
    var p := [item] + rest;
    assert p[1..] == rest;
    if s != "" && s[0] in item.chars && Matches(rest, s[1..]) {
      assert Fills(p[0], s, 1) && Matches(p[1..], s[1..]);
    }
  }

  /** A basic status is a class digit and two more digits. */
  lemma BasicForm(s: string)
    ensures Matches(BASIC_STATUS, s) <==> |s| == 3 && s[0] in CLASSES && s[1] in DIGITS && s[2] in DIGITS
  {
    var classDigit, digit := Item(CLASSES, 1, 1), Item(DIGITS, 1, 1);
    assert BASIC_STATUS == [classDigit] + [digit, digit] && [digit, digit] == [digit] + [digit] && [digit] == [digit] + [];
    OneOf(classDigit, [digit, digit], s);
    if s != "" {
      OneOf(digit, [digit], s[1..]);
      if s[1..] != "" {
        OneOf(digit, [], s[1..][1..]);
      }
    }
  }

  lemma {:induction false} FirstDigit(n: int)
    ensures |ToDecimal(n)| > 0 && (ToDecimal(n)[0] in DIGITS <==> n >= 0)
    decreases if n < 0 then 1 - n else n
  {
    if n >= 10 {
      FirstDigit(n / 10);
    }
  }

  /** The numbers of three digits are those from 100 to 999. */
  lemma DecimalOfThree(n: nat)
    ensures |ToDecimal(n)| == 3 <==> 100 <= n < 1000
    ensures 100 <= n < 1000 ==> ToDecimal(n) == [Digit(n / 100), Digit(n / 10 % 10), Digit(n % 10)]
  {
    if n >= 10 {
      var m := n / 10;
      assert ToDecimal(n) == ToDecimal(m) + [Digit(n % 10)];
      if m >= 10 {
        assert ToDecimal(m) == ToDecimal(m / 10) + [Digit(m % 10)];
        assert n / 100 == m / 10;
        if m / 10 >= 10 {
          FirstDigit(m / 100);
          assert m / 10 / 10 == m / 100;
        }
      }
    }
  }

  /** The validator accepts the numbers of the 200s, the 400s and the 500s. */
  lemma BasicStatuses(value: int)
    ensures IsBasicStatus(value) <==> 200 <= value < 300 || 400 <= value < 600
  {
    BasicForm(ToDecimal(value));
    FirstDigit(value);
    if value >= 0 {
      DecimalOfThree(value);
    }
  }

  /** One to three digits, and nothing else. */
  predicate UpToThreeDigits(s: string) {
    1 <= |s| <= 3 && AllDigits(s)
  }

  lemma LastGroup(s: string)
    ensures Matches([Item(DIGITS, 1, 3)], s) <==> UpToThreeDigits(s)
  {
    var p := [Item(DIGITS, 1, 3)];
    assert p[1..] == [];
    if UpToThreeDigits(s) {
      assert Fills(p[0], s, |s|) && Matches(p[1..], s[|s|..]);
    }
    forall n: nat | Fills(p[0], s, n) && Matches(p[1..], s[n..]) ensures UpToThreeDigits(s) {
      assert n == |s|;
    }
  }

  predicate TwoGroupsAt(s: string, n: nat) {
    1 <= n < |s| && s[n] == '.' && UpToThreeDigits(s[..n]) && UpToThreeDigits(s[n + 1..])
  }

  lemma BehindDot(s: string)
    ensures Matches([Item(".", 1, 1), Item(DIGITS, 1, 3)], s) <==> s != "" && s[0] == '.' && UpToThreeDigits(s[1..])
  {
    assert [Item(".", 1, 1), Item(DIGITS, 1, 3)] == [Item(".", 1, 1)] + [Item(DIGITS, 1, 3)];
    OneOf(Item(".", 1, 1), [Item(DIGITS, 1, 3)], s);
    if s != "" {
      LastGroup(s[1..]);
    }
  }

  lemma TwoGroups(s: string)
    ensures Matches([Item(DIGITS, 1, 3), Item(".", 1, 1), Item(DIGITS, 1, 3)], s) <==> exists n: nat :: TwoGroupsAt(s, n)
  {
    var p := [Item(DIGITS, 1, 3), Item(".", 1, 1), Item(DIGITS, 1, 3)];
    assert p[1..] == [Item(".", 1, 1), Item(DIGITS, 1, 3)];
    forall n: nat | n <= |s| ensures Fills(p[0], s, n) && Matches(p[1..], s[n..]) <==> TwoGroupsAt(s, n) {
      BehindDot(s[n..]);
      if n < |s| {
        assert s[n..][1..] == s[n + 1..];
      }
      assert AllDigits(s[..n]) <==> forall i :: 0 <= i < n ==> s[i] in DIGITS;
    }
  }

  /** An enhanced status is a class digit, a subject and a detail of one to three digits each, between dots. */
  lemma EnhancedForm(s: string)
    ensures IsEnhancedStatus(s) <==>
      && |s| >= 2 && (s[0] == '2' || s[0] == '4' || s[0] == '5') && s[1] == '.'
      && exists n: nat :: TwoGroupsAt(s[2..], n)
  {
    var digits, dot := Item(DIGITS, 1, 3), Item(".", 1, 1);
    assert ENHANCED_STATUS == [Item(CLASSES, 1, 1)] + [dot, digits, dot, digits];
    assert [dot, digits, dot, digits] == [dot] + [digits, dot, digits];
    OneOf(Item(CLASSES, 1, 1), [dot, digits, dot, digits], s);
    if s != "" {
      OneOf(dot, [digits, dot, digits], s[1..]);
      if |s| >= 2 {
        assert s[1..][1..] == s[2..];
        TwoGroups(s[2..]);
      }
    }
  }

  // ---------- Reading the status out of a text ----------

  /** The only match, however often it occurs; nothing if there are two different ones. */
  function SoleMatch(text: string, p: Pattern): Option<string> {
    var found := AllMatches(p, text, 0);
    if |set m | m in found| == 1 then Some(found[0]) else None
  }

  /** `value` is a run of the text that the pattern describes, and every other such run is equal to it. */
  ghost predicate OnlyRun(text: string, p: Pattern, value: string) {
    value in Runs(text, 0) && Matches(p, value) && forall run :: run in Runs(text, 0) && Matches(p, run) ==> run == value
  }

  lemma {:induction false} KeptRuns(p: Pattern, runs: seq<string>, run: string)
    ensures run in Keep(p, runs) <==> run in runs && Matches(p, run)
  {
    if runs != [] {
      KeptRuns(p, runs[1..], run);
      assert run in runs <==> run == runs[0] || run in runs[1..];
    }
  }

  lemma SingleMeansOne(found: seq<string>, value: string)
    ensures |set m | m in found| == 1 && found[0] == value <==> value in found && forall m :: m in found ==> m == value
  {
    var values := set m | m in found;
    if found != [] {
      var others := values - {found[0]};
      assert found[0] in values && |values| == 1 + |others|;
      if |others| == 0 {
        forall m | m in found ensures m == found[0] {
          assert m in values && m !in others;
        }
      } else {
        var other :| other in others;
        assert other in found && other != found[0];
      }
    }
  }

  /** A status is published exactly when one run of the text, and no other, is in its grammar. */
  lemma SoleMatchIff(text: string, p: Pattern, value: string)
    requires OverRuns(p)
    ensures SoleMatch(text, p) == Some(value) <==> OnlyRun(text, p, value)
  {
    MatchesAreRuns(p, text, 0);
    var found := AllMatches(p, text, 0);
    SingleMeansOne(found, value);
    KeptRuns(p, Runs(text, 0), value);
    forall run ensures run in found <==> run in Runs(text, 0) && Matches(p, run) {
      KeptRuns(p, Runs(text, 0), run);
    }
  }

  lemma PatternsOverRuns()
    ensures OverRuns(BASIC_STATUS) && OverRuns(ENHANCED_STATUS)
  {
  }

  lemma BasicIsNumber(text: string)
    ensures var basic := SoleMatch(text, BASIC_STATUS);
      basic.Some? ==> Matches(BASIC_STATUS, basic.value) && AllDigits(basic.value) && basic.value != "" && basic.value[0] != '0'
  {
    PatternsOverRuns();
    var basic := SoleMatch(text, BASIC_STATUS);
    if basic.Some? {
      SoleMatchIff(text, BASIC_STATUS, basic.value);
      BasicForm(basic.value);
    }
  }

  /** What is published instead of the text. */
  function ExtractDeliveryStatus(text: string): DeliveryStatus {
    var basic := SoleMatch(text, BASIC_STATUS);
    BasicIsNumber(text);
    DeliveryStatus(if basic.Some? then Some(ToNumber(basic.value)) else None, SoleMatch(text, ENHANCED_STATUS))
  }

  /** Exactly which codes a text yields, in terms of its runs of digits and dots. */
  lemma ExtractedExactly(text: string, number: int, code: string)
    ensures ExtractDeliveryStatus(text).status == Some(number)
      <==> OnlyRun(text, BASIC_STATUS, ToDecimal(number))
    ensures ExtractDeliveryStatus(text).enhanced == Some(code) <==> OnlyRun(text, ENHANCED_STATUS, code)
  {
    PatternsOverRuns();
    SoleMatchIff(text, ENHANCED_STATUS, code);
    SoleMatchIff(text, BASIC_STATUS, ToDecimal(number));
    BasicIsNumber(text);
    var basic := SoleMatch(text, BASIC_STATUS);
    if basic.Some? {
      ReadAndWritten(basic.value);
      if OnlyRun(text, BASIC_STATUS, ToDecimal(number)) {
        BasicStatuses(number);
        WrittenAndRead(number);
      }
    }
  }

  lemma {:induction false} WrittenAndRead(n: nat)
    ensures AllDigits(ToDecimal(n)) && ToNumber(ToDecimal(n)) == n
  {
    if n >= 10 {
      WrittenAndRead(n / 10);
      var front := ToDecimal(n / 10);
      assert (front + [Digit(n % 10)])[..|front|] == front;
    }
    SameDigit(n % 10);
  }

  lemma SameDigit(d: nat)
    requires d < 10
    ensures DigitValue(Digit(d)) == d
  {
  }

  /** What is extracted passes the validators. */
  lemma ExtractedIsValid(text: string)
    ensures var found := ExtractDeliveryStatus(text);
      && (found.status.Some? ==> IsBasicStatus(found.status.value))
      && (found.enhanced.Some? ==> IsEnhancedStatus(found.enhanced.value))
  {
    var found := ExtractDeliveryStatus(text);
    if found.status.Some? {
      ExtractedExactly(text, found.status.value, "");
    }
    if found.enhanced.Some? {
      ExtractedExactly(text, 0, found.enhanced.value);
    }
  }

  ghost predicate InGrammar(run: string) {
    Matches(BASIC_STATUS, run) || Matches(ENHANCED_STATUS, run)
  }

  /** A run outside the grammar may be replaced by any other: what is published is the same. */
  lemma OutsideTheGrammar(pre: string, run: string, other: string, post: string)
    requires Between(pre, run, post) && Between(pre, other, post) && !InGrammar(run) && !InGrammar(other)
    ensures ExtractDeliveryStatus(pre + run + post) == ExtractDeliveryStatus(pre + other + post)
  {
    PatternsOverRuns();
    MatchesAround(BASIC_STATUS, pre, run, post);
    MatchesAround(BASIC_STATUS, pre, other, post);
    MatchesAround(ENHANCED_STATUS, pre, run, post);
    MatchesAround(ENHANCED_STATUS, pre, other, post);
  }

  // ---------- Dropping what a caller declared secret ----------

  predicate Collides(value: string, declared: seq<string>) {
    exists i :: 0 <= i < |declared| && declared[i] != "" && IndexOf(value, declared[i], 0) != -1
  }

  function WithoutDeclaredValues(status: DeliveryStatus, declared: Option<seq<string>>): DeliveryStatus {
    if declared == None then status
    else DeliveryStatus(
      if status.status.Some? && !Collides(ToDecimal(status.status.value), declared.value) then status.status else None,
      if status.enhanced.Some? && !Collides(status.enhanced.value, declared.value) then status.enhanced else None)
  }

  // ---------- What a send that must not publish provider text publishes ----------

  /** A property that a provider attached to its error. */
  datatype Property = Missing | Number(whole: int) | Fraction | Text(text: string)

  /** An error as this reads it: one look at each property, unless looking throws. */
  datatype Carrier = Hostile | Carrier(status: Property, enhanced: Property)

  ghost function ReadAttachedStatus(carrier: Carrier): Option<DeliveryStatus> {
    match carrier
    case Hostile => None
    case Carrier(rawStatus, rawEnhanced) =>
      var status := if rawStatus.Number? && IsBasicStatus(rawStatus.whole) then Some(rawStatus.whole) else None;
      var enhanced := if rawEnhanced.Text? && IsEnhancedStatus(rawEnhanced.text) then Some(rawEnhanced.text) else None;
      if status == None && enhanced == None then None else Some(DeliveryStatus(status, enhanced))
  }

  /** `text` is what the messages of the error's chain say. */
  ghost function Published(carrier: Carrier, text: string, declared: Option<seq<string>>): DeliveryStatus {
    var attached := ReadAttachedStatus(carrier);
    WithoutDeclaredValues(if attached.Some? then attached.value else ExtractDeliveryStatus(text), declared)
  }

  /** No declared secret can be read in the text. */
  ghost predicate Innocent(text: string, declared: Option<seq<string>>) {
    declared.Some? ==> forall secret :: secret in declared.value && secret != "" ==> !Contains(text, secret)
  }

  /** The provider attached a code of the grammar. */
  ghost predicate Attached(carrier: Carrier) {
    && carrier.Carrier?
    && ((carrier.status.Number? && (200 <= carrier.status.whole < 300 || 400 <= carrier.status.whole < 600))
        || (carrier.enhanced.Text? && IsEnhancedStatus(carrier.enhanced.text)))
  }

  lemma CollidesIff(text: string, declared: seq<string>)
    ensures Collides(text, declared) <==> !Innocent(text, Some(declared))
  {
    if Collides(text, declared) {
      CollisionIsRead(text, declared);
    } else {
      forall secret | secret in declared && secret != "" ensures !Contains(text, secret) {
        var i: nat :| i < |declared| && declared[i] == secret;
        assert IndexOf(text, declared[i], 0) == -1;
      }
    }
  }

  lemma KeptIff(status: DeliveryStatus, declared: Option<seq<string>>, number: int, code: string)
    ensures var kept := WithoutDeclaredValues(status, declared);
      && (kept.status == Some(number) <==> status.status == Some(number) && Innocent(ToDecimal(number), declared))
      && (kept.enhanced == Some(code) <==> status.enhanced == Some(code) && Innocent(code, declared))
  {
    if declared.Some? {
      CollidesIff(ToDecimal(number), declared.value);
      CollidesIff(code, declared.value);
    }
  }

  lemma AttachedExactly(carrier: Carrier)
    ensures ReadAttachedStatus(carrier).Some? <==> Attached(carrier)
    ensures Attached(carrier) ==> forall number, code ::
      && (ReadAttachedStatus(carrier).value.status == Some(number) <==> carrier.status == Number(number) && IsBasicStatus(number))
      && (ReadAttachedStatus(carrier).value.enhanced == Some(code) <==> carrier.enhanced == Text(code) && IsEnhancedStatus(code))
  {
    if carrier.Carrier? && carrier.status.Number? {
      BasicStatuses(carrier.status.whole);
    }
  }

  /** Exactly what is published: what the provider attached, if any of it is in the grammar, and otherwise what
      the text says; in either case but for what contains a declared value. */
  lemma PublishedExactly(carrier: Carrier, text: string, declared: Option<seq<string>>, number: int, code: string)
    ensures Published(carrier, text, declared).status == Some(number) <==>
      && Innocent(ToDecimal(number), declared)
      && if Attached(carrier) then
           carrier.status == Number(number) && (200 <= number < 300 || 400 <= number < 600)
         else
           OnlyRun(text, BASIC_STATUS, ToDecimal(number))
    ensures Published(carrier, text, declared).enhanced == Some(code) <==>
      && Innocent(code, declared)
      && if Attached(carrier) then
           carrier.enhanced == Text(code) && IsEnhancedStatus(code)
         else
           OnlyRun(text, ENHANCED_STATUS, code)
  {
    BasicStatuses(number);
    AttachedExactly(carrier);
    var found := ReadAttachedStatus(carrier);
    ExtractedExactly(text, number, code);
    KeptIff(if found.Some? then found.value else ExtractDeliveryStatus(text), declared, number, code);
  }

  /** Whatever the provider did, what is published is in the grammar and contains no declared value. */
  lemma PublishedIsHarmless(carrier: Carrier, text: string, declared: seq<string>, secret: string)
    ensures var published := Published(carrier, text, Some(declared));
      && (published.status.Some? ==> IsBasicStatus(published.status.value))
      && (published.enhanced.Some? ==> IsEnhancedStatus(published.enhanced.value))
      && (secret in declared && secret != "" ==>
           && (published.status.Some? ==> !Contains(ToDecimal(published.status.value), secret))
           && (published.enhanced.Some? ==> !Contains(published.enhanced.value, secret)))
  {
    ExtractedIsValid(text);
  }

  /** And nothing is dropped that does not contain one. */
  lemma OnlyCollisionsAreDropped(status: DeliveryStatus, declared: seq<string>)
    ensures var kept := WithoutDeclaredValues(status, Some(declared));
      && (status.status.Some? && kept.status == None ==>
           exists secret :: secret in declared && secret != "" && Contains(ToDecimal(status.status.value), secret))
      && (status.enhanced.Some? && kept.enhanced == None ==>
           exists secret :: secret in declared && secret != "" && Contains(status.enhanced.value, secret))
      && kept.status in {status.status, None} && kept.enhanced in {status.enhanced, None}
  {
    if status.status.Some? && Collides(ToDecimal(status.status.value), declared) {
      CollisionIsRead(ToDecimal(status.status.value), declared);
    }
    if status.enhanced.Some? && Collides(status.enhanced.value, declared) {
      CollisionIsRead(status.enhanced.value, declared);
    }
  }

  lemma CollisionIsRead(value: string, declared: seq<string>)
    requires Collides(value, declared)
    ensures exists secret :: secret in declared && secret != "" && Contains(value, secret)
  {
    var i :| 0 <= i < |declared| && declared[i] != "" && IndexOf(value, declared[i], 0) != -1;
    assert OccursAt(value, declared[i], IndexOf(value, declared[i], 0));
    assert declared[i] in declared && Contains(value, declared[i]);
  }
}
