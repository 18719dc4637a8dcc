/** What a scrub makes of one error: when it stays itself, and what can be read in its place. */
module ErrorLaws {
  import opened Options
  import opened Redaction
  import opened ErrorNodes
  import opened ErrorChain

  /** Text by text: what replaces an error shows its name, its message and its stack redacted, each in its place;
      what replaces one that cannot be inspected shows fixed texts. Nothing else of it is left, but the contract
      of an exception that stays itself: its code and its status, and what its response shows, redacted. */
  lemma TextsStayInPlace(before: Heap, after: Heap, rep: map<ErrorNode, ErrorNode>, values: set<string>, n: ErrorNode)
    requires Scrubbed(before, after, rep, Redactor(values)) && n in rep
    ensures n in before && rep[n] in after
    ensures var v, r := before[n], after[rep[n]];
      if FateOf(v, Redactor(values)) == Withheld then r.texts == Texts("Error", "[redacted]", None)
      else
        && r.texts.name == Redacted(v.texts.name, values)
        && r.texts.message == Redacted(v.texts.message, values)
        && (r.texts.stack.Some? <==> v.texts.stack.Some?)
        && (v.texts.stack.Some? ==> r.texts.stack.value == Redacted(v.texts.stack.value, values))
    ensures after[rep[n]].extras == []
    ensures after[rep[n]].contract.Some? <==> before[n].contract.Some? && rep[n] == n
    ensures after[rep[n]].contract.Some? ==>
      var c, d := before[n].contract.value, after[rep[n]].contract.value;
      && d.code == c.code && d.status == c.status && d.options == [] && |d.response| == |c.response|
      && forall i :: 0 <= i < |c.response| ==>
           d.response[i] == if c.response[i].Numeral? && Redacted(c.response[i].text, values) == c.response[i].text then c.response[i]
                            else if c.response[i].Numeral? then Written("[redacted]")
                            else Written(Redacted(c.response[i].text, values))
  {
    assert ScrubbedAt(before, after, rep, Redactor(values), n);
  }

  /** And its cause: the representative of the error it had, the redacted string form of anything else, nothing
      behind an error that cannot be inspected. */
  lemma CauseStaysInPlace(before: Heap, after: Heap, rep: map<ErrorNode, ErrorNode>, values: set<string>, n: ErrorNode)
    requires Scrubbed(before, after, rep, Redactor(values)) && n in rep
    ensures n in before && rep[n] in after
    ensures var v, cause := before[n], after[rep[n]].cause;
      if FateOf(v, Redactor(values)) == Withheld then cause == Absent
      else match v.cause
        case Link(node) => node in rep && cause == Link(rep[node])
        case Other(Some(text)) => cause == Other(Some(Redacted(text, values)))
        case Other(None) => cause == Other(Some("[redacted]"))
        case empty => cause == empty
  {
    assert ScrubbedAt(before, after, rep, Redactor(values), n);
  }

  /** The writes that a scrub makes, in their order. */
  ghost function WritesOf(v: View, values: set<string>): seq<Write> {
    Writing(Redacted(v.texts.name, values) != v.texts.name, v.traits.name,
      Writing(true, v.traits.message,
        Writing(v.texts.stack.Some?, v.traits.stack,
          Writing(v.cause != Absent, v.traits.cause, []))))
  }

  function Writing(made: bool, write: Write, rest: seq<Write>): seq<Write> {
    if made then [write] + rest else rest
  }

  predicate ThrowsAt(writes: seq<Write>, i: nat) {
    i < |writes| && writes[i] == Throws && forall j :: 0 <= j < i ==> writes[j] != Refuses
  }

  /** A write throws, and none before it is refused. */
  ghost predicate Throw(writes: seq<Write>) {
    exists i: nat :: ThrowsAt(writes, i)
  }

  lemma ThrowsLater(write: Write, rest: seq<Write>, i: nat)
    ensures ThrowsAt([write] + rest, i) <==> if i == 0 then write == Throws else write != Refuses && ThrowsAt(rest, i - 1)
  {
    var writes := [write] + rest;
    assert forall j :: 0 <= j < |rest| ==> rest[j] == writes[j + 1];
    if ThrowsAt(writes, i) && i > 0 {
      assert writes[0] == write && rest[i - 1] == writes[i];
      forall j | 0 <= j < i - 1 ensures rest[j] != Refuses {
        assert writes[j + 1] != Refuses;
      }
    } else if i > 0 && write != Refuses && ThrowsAt(rest, i - 1) {
      forall j | 0 <= j < i ensures writes[j] != Refuses {
        assert j > 0 ==> writes[j] == rest[j - 1];
      }
    }
  }

  /** One write more in front. */
  lemma WriteDecides(write: Write, made: bool, idle: bool, later: Fate, rest: seq<Write>)
    requires later == Withheld <==> Throw(rest)
    ensures (if made then AfterWrite(write, idle, later) else later) == Withheld <==> Throw(Writing(made, write, rest))
  {
    forall i: nat ensures ThrowsAt([write] + rest, i) <==> if i == 0 then write == Throws else write != Refuses && ThrowsAt(rest, i - 1) {
      ThrowsLater(write, rest, i);
    }
    if i: nat :| ThrowsAt(rest, i) {
      assert ThrowsAt([write] + rest, i + 1) <==> write != Refuses;
    }
    assert ThrowsAt([write] + rest, 0) <==> write == Throws;
  }

  ghost predicate CanBeStripped(v: View) {
    && (v.contract.Some? ==> v.traits.response == Accepts && v.traits.options == Accepts)
    && forall i :: 0 <= i < |v.extras| ==> v.extras[i].deletable
  }

  /** An error is withheld, if and only if it cannot be read, or can be stripped and a write throws before one
      is refused. */
  lemma WithheldIff(v: View, values: set<string>)
    ensures FateOf(v, Redactor(values)) == Withheld <==> v.traits.unreadable || (CanBeStripped(v) && Throw(WritesOf(v, values)))
  {
    var clean := Redactor(values);
    var redacted := RedactedTexts(v.texts, clean);
    var cause := Writing(v.cause != Absent, v.traits.cause, []);
    var stack := Writing(v.texts.stack.Some?, v.traits.stack, cause);
    var afterCause := if v.cause != Absent then AfterWrite(v.traits.cause, v.cause == Undefined, InPlace) else InPlace;
    var afterStack := if v.texts.stack.Some? then AfterWrite(v.traits.stack, redacted.stack == v.texts.stack, afterCause) else afterCause;
    WriteDecides(v.traits.cause, v.cause != Absent, v.cause == Undefined, InPlace, []);
    WriteDecides(v.traits.stack, v.texts.stack.Some?, redacted.stack == v.texts.stack, afterCause, cause);
    WriteDecides(v.traits.message, true, redacted.message == v.texts.message, afterStack, stack);
    WriteDecides(v.traits.name, redacted.name != v.texts.name, false,
                 AfterWrite(v.traits.message, redacted.message == v.texts.message, afterStack), Writing(true, v.traits.message, stack));
    assert CanBeStripped(v) <==> Strips(v);
  }

  /** An error stays itself, if and only if it can be read and stripped, takes every write, and ignores only
      those that change nothing. */
  lemma InPlaceIff(v: View, values: set<string>)
    ensures FateOf(v, Redactor(values)) == InPlace <==>
      && !v.traits.unreadable && CanBeStripped(v)
      && (v.traits.name == Accepts || Redacted(v.texts.name, values) == v.texts.name)
      && (v.traits.message == Accepts || (v.traits.message == Ignores && Redacted(v.texts.message, values) == v.texts.message))
      && (v.texts.stack.Some? ==>
           v.traits.stack == Accepts || (v.traits.stack == Ignores && Redacted(v.texts.stack.value, values) == v.texts.stack.value))
      && (v.cause == Absent || v.traits.cause == Accepts || (v.traits.cause == Ignores && v.cause == Undefined))
  {
  }
}
