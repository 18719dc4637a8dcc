/** One-time codes: their alphabets, their stored form, and the comparison of a guess. */
module Codes {
  import opened Options
  import opened Redaction
  import opened RedactionLaws

  datatype CodeType = Numeric | Alpha | Alphanumeric

  const NUMERIC := "0123456789"
  const ALPHA := "ABCDEFGHJKLMNPQRSTUVWXYZ"
  const ALPHANUMERIC := "23456789ABCDEFGHJKLMNPQRSTUVWXYZ"
  const MIN_LENGTH := 1
  const MAX_LENGTH := 32
  const CODE_DIGEST_PREFIX := "hmac-sha256:v1:"

  function CharsetFor(codeType: CodeType): string {
    match codeType
    case Numeric => NUMERIC
    case Alpha => ALPHA
    case Alphanumeric => ALPHANUMERIC
  }

  /** The digits. */
  lemma NumericChars(c: char)
    ensures c in CharsetFor(Numeric) <==> '0' <= c <= '9'
    ensures forall i, j :: 0 <= i < j < |CharsetFor(Numeric)| ==> CharsetFor(Numeric)[i] < CharsetFor(Numeric)[j]
  {
  }

  /** The capital letters that are not read as digits. */
  lemma AlphaChars(c: char)
    ensures c in CharsetFor(Alpha) <==> 'A' <= c <= 'Z' && c != 'I' && c != 'O'
    ensures forall i, j :: 0 <= i < j < |CharsetFor(Alpha)| ==> CharsetFor(Alpha)[i] < CharsetFor(Alpha)[j]
  {
  }

  lemma AlphanumericIsBoth()
    ensures CharsetFor(Alphanumeric) == "23456789" + CharsetFor(Alpha)
  {
  }

  /** Those, and the digits that are not read as letters. */
  lemma AlphanumericChars(c: char)
    ensures c in CharsetFor(Alphanumeric) <==> '2' <= c <= '9' || c in CharsetFor(Alpha)
    ensures |CharsetFor(Alphanumeric)| == 8 + |CharsetFor(Alpha)|
  {
    AlphanumericIsBoth();
    assert c in "23456789" <==> '2' <= c <= '9';
  }

  predicate ValidLength(length: int) {
    MIN_LENGTH <= length <= MAX_LENGTH
  }

  /** A code of this length and type: what some run of the random generator can produce. */
  predicate IsCode(code: string, length: int, codeType: CodeType) {
    |code| == length && forall i :: 0 <= i < |code| ==> code[i] in CharsetFor(codeType)
  }

  /** The i-th character is the one that the i-th call of the random generator picks. */
  predicate Drawn(code: string, length: int, codeType: CodeType, random: (nat, nat) -> nat) {
    var charset := CharsetFor(codeType);
    |code| == length && forall i :: 0 <= i < |code| ==> random(i, |charset|) < |charset| && code[i] == charset[random(i, |charset|)]
  }

  /** The draws determine the code. */
  lemma DrawnOnce(code: string, other: string, length: int, codeType: CodeType, random: (nat, nat) -> nat)
    requires Drawn(code, length, codeType, random)
    ensures Drawn(other, length, codeType, random) <==> other == code
  {
  }

  /** Draws a code; `random` answers the i-th call of the random generator with some number below the
      given bound. `None` is the refusal of an invalid length. */
  method GenerateOtpCode(length: int, codeType: CodeType, random: (nat, nat) -> nat) returns (code: Option<string>)
    requires forall i: nat, bound: nat :: bound > 0 ==> random(i, bound) < bound
    ensures code.Some? <==> 1 <= length <= 32
    ensures code.Some? ==> IsCode(code.value, length, codeType) && Drawn(code.value, length, codeType, random)
  {
    if !ValidLength(length) {
      return None;
    }
    var charset := CharsetFor(codeType);
    var drawn := "";
    for i := 0 to length
      invariant |drawn| == i
      invariant forall k: nat :: k < i ==> drawn[k] == charset[random(k, |charset|)]
    {
      drawn := drawn + [charset[random(i, |charset|)]];
    }
    return Some(drawn);
  }

  // ---------- Stored form ----------

  /** The keyed digest of a code, without the prefix. */
  type Hmac = string -> string

  predicate IsCodeDigest(stored: string) {
    CODE_DIGEST_PREFIX <= stored
  }

  /** What the store holds: the code itself, or its prefixed digest when a secret is configured. */
  function StoredForm(code: string, hmac: Option<Hmac>): string {
    if hmac.Some? then CODE_DIGEST_PREFIX + hmac.value(code) else code
  }

  /** Whether a guess matches a stored value: a digest is recomputed from the guess, anything else is
      compared directly. */
  predicate MatchesStoredCode(stored: string, guess: string, hmac: Option<Hmac>) {
    if !IsCodeDigest(stored) then stored == guess
    else hmac.Some? && stored == CODE_DIGEST_PREFIX + hmac.value(guess)
  }

  predicate IsCodeChar(c: char) {
    '0' <= c <= '9' || 'A' <= c <= 'Z'
  }

  lemma CharsetsAreCodeChars(codeType: CodeType)
    ensures forall i :: 0 <= i < |CharsetFor(codeType)| ==> IsCodeChar(CharsetFor(codeType)[i])
  {
  }

  lemma MarkerAvoidsCodeChars(c: char)
    requires IsCodeChar(c)
    ensures c !in MARKER && c != CODE_DIGEST_PREFIX[0]
  {
  }

  lemma CharsetsAvoid(codeType: CodeType, c: char)
    requires c in CharsetFor(codeType)
    ensures IsCodeChar(c) && c !in MARKER && c != CODE_DIGEST_PREFIX[0]
  {
    CharsetsAreCodeChars(codeType);
    MarkerAvoidsCodeChars(c);
  }

  /** A generated code is never taken for a digest. */
  lemma CodeIsNoDigest(code: string, length: int, codeType: CodeType)
    requires IsCode(code, length, codeType)
    ensures !IsCodeDigest(code)
  {
    if |code| > 0 {
      CharsetsAvoid(codeType, code[0]);
    }
  }

  /** Exactly which guesses a stored code accepts, when the secret may have been switched on, off or
      changed between issuing (`then`) and verifying (`now`). */
  lemma AcceptedGuesses(code: string, length: int, codeType: CodeType, before: Option<Hmac>, now: Option<Hmac>, guess: string)
    requires IsCode(code, length, codeType)
    ensures MatchesStoredCode(StoredForm(code, before), guess, now) <==>
      if before == None then guess == code
      else now.Some? && now.value(guess) == before.value(code)
  {
    CodeIsNoDigest(code, length, codeType);
    if before.Some? && now.Some? {
      var a, b := CODE_DIGEST_PREFIX + before.value(code), CODE_DIGEST_PREFIX + now.value(guess);
      assert a[|CODE_DIGEST_PREFIX|..] == before.value(code) && b[|CODE_DIGEST_PREFIX|..] == now.value(guess);
    }
  }

  /** Accepting a wrong guess means that the keyed digest collides. */
  lemma WrongGuessCollides(code: string, length: int, codeType: CodeType, hmac: Option<Hmac>, guess: string)
    requires IsCode(code, length, codeType)
    requires MatchesStoredCode(StoredForm(code, hmac), guess, hmac) && guess != code
    ensures hmac.Some? && hmac.value(guess) == hmac.value(code)
  {
    AcceptedGuesses(code, length, codeType, hmac, hmac, guess);
  }

  /** No generated code overlaps the redaction marker, so redacting it leaves no trace in any text. */
  lemma CodesAreRedactable(code: string, length: int, codeType: CodeType)
    requires IsCode(code, length, codeType)
    ensures !OverlapsMarker(code)
  {
    forall c | c in code ensures c !in MARKER {
      CharsetsAvoid(codeType, c);
    }
    DisjointFromMarker(code);
  }
}
