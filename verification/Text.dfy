/** Searching in strings, as `String.prototype.indexOf` and `includes` do it. */
module Text {

  /** `value` can be read in `text` starting at position `at`. */
  predicate OccursAt(text: string, value: string, at: int) {
    0 <= at && at + |value| <= |text| && text[at..at + |value|] == value
  }

  /** `value` can be read somewhere in `text`. */
  ghost predicate Contains(text: string, value: string) {
    exists at :: OccursAt(text, value, at)
  }

  /** The first occurrence at or after `from`, or -1. */
  function IndexOf(text: string, value: string, from: nat): (at: int)
    ensures at == -1 || (from <= at && OccursAt(text, value, at))
    ensures forall p :: from <= p && (at == -1 || p < at) ==> !OccursAt(text, value, p)
    decreases |text| - from
  {
    if from + |value| > |text| then -1
    else if OccursAt(text, value, from) then from
    else IndexOf(text, value, from + 1)
  }

  lemma CharOf(text: string, value: string, at: int, k: int)
    requires 0 <= k < |value|
    ensures OccursAt(text, value, at) ==> text[at + k] == value[k]
  {
    assert OccursAt(text, value, at) ==> text[at..at + |value|][k] == text[at + k];
  }

  lemma Assoc(a: string, b: string, c: string)
    ensures (a + b) + c == a + (b + c)
  {
  }

  lemma PrefixOfConcat(a: string, b: string)
    ensures a <= a + b && (a + b)[|a|..] == b
  {
  }

  lemma SliceOfSlice(text: string, a: nat, b: nat, c: nat, d: nat)
    requires a <= b <= |text| && c <= d <= b - a
    ensures text[a..b][c..d] == text[a + c..a + d]
  {
    forall i | 0 <= i < d - c
      ensures text[a..b][c..d][i] == text[a + c..a + d][i]
    {
      assert text[a..b][c + i] == text[a + c + i];
    }
  }

  /** `parts.join(glue)`. */
  function Join(parts: seq<string>, glue: string): string
    requires parts != []
  {
    if |parts| == 1 then parts[0] else parts[0] + glue + Join(parts[1..], glue)
  }
}
