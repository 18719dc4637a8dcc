/** Escaping values for HTML. */
module Escaping {
  import opened Options
  import opened Text

  /** A character and what replaces it. */
  datatype Entity = Entity(plain: char, written: string)

  const HTML_ENTITIES: seq<Entity> :=
    [Entity('&', "&amp;"), Entity('<', "&lt;"), Entity('>', "&gt;"), Entity('"', "&quot;"), Entity('\'', "&#39;")]

  /** `s.replace(/c/g, written)`. */
  function ReplaceAll(s: string, c: char, written: string): string {
    if s == "" then "" else (if s[0] == c then written else [s[0]]) + ReplaceAll(s[1..], c, written)
  }

  /** One replacement after the other, each over the whole text. */
  function ReplaceEach(s: string, entities: seq<Entity>): string
    decreases |entities|
  {
    if entities == [] then s else ReplaceEach(ReplaceAll(s, entities[0].plain, entities[0].written), entities[1..])
  }

  function EscapeHtml(value: string): string {
    ReplaceEach(value, HTML_ENTITIES)
  }

  // ---------- One character at a time ----------

  /** What a character stands as. */
  function Written(c: char, entities: seq<Entity>): string {
    if entities == [] then [c] else if entities[0].plain == c then entities[0].written else Written(c, entities[1..])
  }

  function WriteAll(s: string, entities: seq<Entity>): string {
    if s == "" then "" else Written(s[0], entities) + WriteAll(s[1..], entities)
  }

  /** The entity a text begins with. */
  function EntityAt(s: string, entities: seq<Entity>): (entity: Option<Entity>)
    ensures entity.Some? ==> entity.value in entities && entity.value.written <= s
  {
    if entities == [] then None else if entities[0].written <= s then Some(entities[0]) else EntityAt(s, entities[1..])
  }

  /** Reading entities back, from left to right. */
  function ReadAll(s: string, entities: seq<Entity>): string {
    if s == "" then ""
    else if EntityAt(s, entities).Some? && EntityAt(s, entities).value.written != "" then
      [EntityAt(s, entities).value.plain] + ReadAll(s[|EntityAt(s, entities).value.written|..], entities)
    else [s[0]] + ReadAll(s[1..], entities)
  }

  // ---------- The replacements do not interfere ----------

  /** No replacement touches what an earlier one wrote. */
  predicate Ordered(entities: seq<Entity>) {
    forall i, j :: 0 <= i < j < |entities| ==> entities[j].plain !in entities[i].written
  }

  lemma {:induction false} ReplaceInSum(a: string, b: string, c: char, written: string)
    ensures ReplaceAll(a + b, c, written) == ReplaceAll(a, c, written) + ReplaceAll(b, c, written)
  {
    if a == "" {
      assert a + b == b;
    } else {
      assert (a + b)[0] == a[0] && (a + b)[1..] == a[1..] + b;
      ReplaceInSum(a[1..], b, c, written);
      Assoc(if a[0] == c then written else [a[0]], ReplaceAll(a[1..], c, written), ReplaceAll(b, c, written));
    }
  }

  lemma {:induction false} EachInSum(a: string, b: string, entities: seq<Entity>)
    ensures ReplaceEach(a + b, entities) == ReplaceEach(a, entities) + ReplaceEach(b, entities)
    decreases |entities|
  {
    if entities != [] {
      var c, written := entities[0].plain, entities[0].written;
      ReplaceInSum(a, b, c, written);
      EachInSum(ReplaceAll(a, c, written), ReplaceAll(b, c, written), entities[1..]);
    }
  }

  lemma {:induction false} NotReplaced(s: string, c: char, written: string)
    requires c !in s
    ensures ReplaceAll(s, c, written) == s
  {
    if s != "" {
      NotReplaced(s[1..], c, written);
    }
  }

  lemma {:induction false} NoneReplaced(s: string, entities: seq<Entity>)
    requires forall i :: 0 <= i < |entities| ==> entities[i].plain !in s
    ensures ReplaceEach(s, entities) == s
    decreases |entities|
  {
    if entities != [] {
      NotReplaced(s, entities[0].plain, entities[0].written);
      NoneReplaced(s, entities[1..]);
    }
  }

  lemma {:induction false} OneReplaced(c: char, entities: seq<Entity>)
    requires Ordered(entities)
    ensures ReplaceEach([c], entities) == Written(c, entities)
    decreases |entities|
  {
    if entities != [] {
      var first, rest := entities[0], entities[1..];
      assert [c][1..] == "";
      assert ReplaceAll("", first.plain, first.written) == "";
      assert ReplaceAll([c], first.plain, first.written) == if c == first.plain then first.written else [c];
      assert forall i :: 0 <= i < |rest| ==> rest[i] == entities[i + 1];
      if c == first.plain {
        NoneReplaced(first.written, rest);
      } else {
        OneReplaced(c, rest);
      }
    }
  }

  lemma {:induction false} NothingReplaced(entities: seq<Entity>)
    ensures ReplaceEach("", entities) == ""
    decreases |entities|
  {
    if entities != [] {
      NothingReplaced(entities[1..]);
    }
  }

  /** The replacements, one after the other, amount to one map over the characters. */
  lemma {:induction false} EscapeIsCharacterwise(s: string, entities: seq<Entity>)
    requires Ordered(entities)
    ensures ReplaceEach(s, entities) == WriteAll(s, entities)
    decreases |s|
  {
    if s == "" {
      NothingReplaced(entities);
    } else {
      assert s == [s[0]] + s[1..];
      EachInSum([s[0]], s[1..], entities);
      OneReplaced(s[0], entities);
      EscapeIsCharacterwise(s[1..], entities);
    }
  }

  // ---------- And they can be undone ----------

  /** Every entity starts with the escape character, which is itself escaped, and is told from the others
      by its second character. */
  predicate Readable(entities: seq<Entity>, escape: char) {
    && (exists i :: 0 <= i < |entities| && entities[i].plain == escape)
    && (forall i :: 0 <= i < |entities| ==> |entities[i].written| >= 2 && entities[i].written[0] == escape)
    && (forall i, j :: 0 <= i < j < |entities| ==> entities[i].written[1] != entities[j].written[1])
  }

  lemma {:induction false} WrittenAs(c: char, entities: seq<Entity>)
    ensures var w := Written(c, entities);
      if exists i :: 0 <= i < |entities| && entities[i].plain == c then Entity(c, w) in entities else w == [c]
  {
    if entities != [] && entities[0].plain != c {
      WrittenAs(c, entities[1..]);
      if exists i :: 0 <= i < |entities| && entities[i].plain == c {
        var i :| 0 <= i < |entities| && entities[i].plain == c;
        assert entities[1..][i - 1].plain == c;
      } else {
        assert forall i :: 0 <= i < |entities[1..]| ==> entities[1..][i] == entities[i + 1];
      }
    }
  }

  lemma {:induction false} EntityIsRead(entities: seq<Entity>, k: nat, s: string)
    requires k < |entities| && entities[k].written <= s
    requires forall i :: 0 <= i < |entities| ==> |entities[i].written| >= 2
    requires forall i, j :: 0 <= i < j < |entities| ==> entities[i].written[1] != entities[j].written[1]
    ensures EntityAt(s, entities) == Some(entities[k])
  {
    if k > 0 {
      assert entities[0].written[1] != entities[k].written[1] == s[1];
      var rest := entities[1..];
      assert forall i :: 0 <= i < |rest| ==> rest[i] == entities[i + 1];
      EntityIsRead(rest, k - 1, s);
    }
  }

  lemma {:induction false} NoEntity(entities: seq<Entity>, s: string)
    requires s != "" && forall i :: 0 <= i < |entities| ==> entities[i].written != "" && entities[i].written[0] != s[0]
    ensures EntityAt(s, entities) == None
  {
    if entities != [] {
      var rest := entities[1..];
      assert forall i :: 0 <= i < |rest| ==> rest[i] == entities[i + 1];
      NoEntity(rest, s);
    }
  }

  lemma FirstIsRead(c: char, rest: string, entities: seq<Entity>, escape: char)
    requires Readable(entities, escape)
    ensures ReadAll(Written(c, entities) + rest, entities) == [c] + ReadAll(rest, entities)
  {
    var w := Written(c, entities);
    WrittenAs(c, entities);
    if exists i :: 0 <= i < |entities| && entities[i].plain == c {
      var k :| 0 <= k < |entities| && entities[k] == Entity(c, w);
      EntityIsRead(entities, k, w + rest);
      assert (w + rest)[|w|..] == rest;
    } else {
      NoEntity(entities, w + rest);
      assert (w + rest)[1..] == rest;
    }
  }

  /** Reading what was written gives back the text. */
  lemma {:induction false} WrittenAndReadBack(s: string, entities: seq<Entity>, escape: char)
    requires Readable(entities, escape)
    ensures ReadAll(WriteAll(s, entities), entities) == s
  {
    if s != "" {
      FirstIsRead(s[0], WriteAll(s[1..], entities), entities, escape);
      WrittenAndReadBack(s[1..], entities, escape);
    }
  }

  lemma HtmlIsOrdered()
    ensures Ordered(HTML_ENTITIES)
  {
  }

  lemma HtmlIsReadable()
    ensures Readable(HTML_ENTITIES, '&')
  {
    assert HTML_ENTITIES[0].plain == '&';
  }

  /** Escaping for HTML is one map over the characters, and loses nothing. */
  lemma EscapeRoundTrips(value: string)
    ensures EscapeHtml(value) == WriteAll(value, HTML_ENTITIES)
    ensures ReadAll(EscapeHtml(value), HTML_ENTITIES) == value
  {
    HtmlIsOrdered();
    HtmlIsReadable();
    EscapeIsCharacterwise(value, HTML_ENTITIES);
    WrittenAndReadBack(value, HTML_ENTITIES, '&');
  }

  lemma EscapeInSum(a: string, b: string)
    ensures EscapeHtml(a + b) == EscapeHtml(a) + EscapeHtml(b)
  {
    EachInSum(a, b, HTML_ENTITIES);
  }

  /** Which characters are escaped, and how. */
  lemma EscapeSpells(c: char)
    ensures EscapeHtml([c]) ==
      match c
      case '&' => "&amp;"
      case '<' => "&lt;"
      case '>' => "&gt;"
      case '"' => "&quot;"
      case '\'' => "&#39;"
      case _ => [c]
  {
    HtmlIsOrdered();
    OneReplaced(c, HTML_ENTITIES);
    WrittenAs(c, HTML_ENTITIES);
    assert HTML_ENTITIES[0].plain == '&' && HTML_ENTITIES[1].plain == '<' && HTML_ENTITIES[2].plain == '>'
      && HTML_ENTITIES[3].plain == '"' && HTML_ENTITIES[4].plain == '\'';
  }

  // ---------- No escaped value has markup in it ----------

  predicate IsSpecial(c: char) {
    c == '<' || c == '>' || c == '"' || c == '\''
  }

  /** The angle brackets and quotes of a text, in their order. */
  function Specials(s: string): string {
    if s == "" then "" else (if IsSpecial(s[0]) then [s[0]] else "") + Specials(s[1..])
  }

  lemma {:induction false} SpecialsOfSum(a: string, b: string)
    ensures Specials(a + b) == Specials(a) + Specials(b)
  {
    if a == "" {
      assert a + b == b;
    } else {
      assert (a + b)[0] == a[0] && (a + b)[1..] == a[1..] + b;
      SpecialsOfSum(a[1..], b);
      Assoc(if IsSpecial(a[0]) then [a[0]] else "", Specials(a[1..]), Specials(b));
    }
  }

  lemma {:induction false} NoSpecials(s: string)
    requires forall i :: 0 <= i < |s| ==> !IsSpecial(s[i])
    ensures Specials(s) == ""
  {
    if s != "" {
      NoSpecials(s[1..]);
    }
  }

  lemma WrittenHasNoSpecials(c: char)
    ensures Specials(Written(c, HTML_ENTITIES)) == ""
  {
    WrittenAs(c, HTML_ENTITIES);
    var w := Written(c, HTML_ENTITIES);
    if IsSpecial(c) {
      assert HTML_ENTITIES[1].plain == '<' && HTML_ENTITIES[2].plain == '>' && HTML_ENTITIES[3].plain == '"'
        && HTML_ENTITIES[4].plain == '\'';
    }
    NoSpecials(w);
  }

  lemma {:induction false} EscapedHasNoSpecials(value: string)
    ensures Specials(EscapeHtml(value)) == ""
    decreases |value|
  {
    EscapeRoundTrips(value);
    if value != "" {
      EscapeRoundTrips(value[1..]);
      EscapedHasNoSpecials(value[1..]);
      WrittenHasNoSpecials(value[0]);
      SpecialsOfSum(Written(value[0], HTML_ENTITIES), WriteAll(value[1..], HTML_ENTITIES));
    }
  }
}
