/** The keys under which the storages file a scope: distinct scopes share a key only if the hash collides. */
module StorageKeys {

  /** A hash function: its digests all have one length. */
  ghost predicate FixedLength(hash: string -> string, n: nat) {
    forall value :: |hash(value)| == n
  }

  ghost predicate Collides(hash: string -> string, a: string, b: string) {
    a != b && hash(a) == hash(b)
  }

  // ---------- Which identifiers are refused ----------

  predicate IsSpace(c: char) {
    || '\t' <= c <= '\r' || c == ' ' || c == '\U{00a0}' || c == '\U{1680}' || '\U{2000}' <= c <= '\U{200a}'
    || '\U{2028}' <= c <= '\U{2029}' || c == '\U{202f}' || c == '\U{205f}' || c == '\U{3000}' || c == '\U{feff}'
  }

  predicate IsControl(c: char) {
    c <= '\U{001f}' || '\U{007f}' <= c <= '\U{009f}'
  }

  /** `assertIdentifies`: neither empty nor blank, and without control characters. */
  predicate Identifies(value: string) {
    (exists c :: c in value && !IsSpace(c)) && forall c :: c in value ==> !IsControl(c)
  }

  /** White space is what a trim removes: the white space and the line ends of ECMA-262, by their codes. */
  lemma WhiteSpace(c: char)
    ensures IsSpace(c) <==>
      var code := c as int;
      || 9 <= code <= 13 || code == 32 || code == 160 || code == 5760 || 8192 <= code <= 8202
      || code == 8232 || code == 8233 || code == 8239 || code == 8287 || code == 12288 || code == 65279
  {
  }

  /** What is refused: a value of nothing but white space, the empty one too, and one with a control character. */
  lemma RefusedIff(value: string)
    ensures !Identifies(value) <==>
      || (forall i :: 0 <= i < |value| ==> IsSpace(value[i]))
      || (exists i :: 0 <= i < |value| && (value[i] as int < 32 || 127 <= value[i] as int <= 159))
  {
    forall i | 0 <= i < |value| ensures value[i] in value && (IsControl(value[i]) <==> value[i] as int < 32 || 127 <= value[i] as int <= 159) {
    }
    if exists c :: c in value && !IsSpace(c) {
      var c :| c in value && !IsSpace(c);
      var i :| 0 <= i < |value| && value[i] == c;
    }
    if exists c :: c in value && IsControl(c) {
      var c :| c in value && IsControl(c);
      var i :| 0 <= i < |value| && value[i] == c;
    }
  }

  // ---------- The keys ----------

  /** Each component is hashed before the two are joined. */
  function Digest(hash: string -> string, tenant: string, recipient: string): string {
    hash(hash(tenant) + ":" + hash(recipient))
  }

  /** The key of the in-memory storage. */
  function MemoryKey(hash: string -> string, tenant: string, recipient: string, purpose: string): string {
    Digest(hash, tenant, recipient) + "::" + purpose
  }

  datatype Family = Otp | Failure | Cooldown

  function Infix(family: Family): string {
    match family
    case Otp => ":otp:"
    case Failure => ":otp_fail:"
    case Cooldown => ":otp_cd:"
  }

  /** The three keys of the Redis storage. */
  function RedisKey(hash: string -> string, namespace: string, family: Family, tenant: string, recipient: string, purpose: string): string {
    namespace + Infix(family) + purpose + ":" + Digest(hash, tenant, recipient)
  }

  // ---------- Reading the keys back ----------

  lemma SplitAtLength(a: string, b: string, c: string, d: string)
    requires a + b == c + d && |a| == |c|
    ensures a == c && b == d
  {
    assert a == (a + b)[..|a|] && c == (c + d)[..|c|];
    assert b == (a + b)[|a|..] && d == (c + d)[|c|..];
  }

  /** Two pairs with one digest are one pair, or show a collision. */
  lemma DigestCollision(hash: string -> string, n: nat, t1: string, r1: string, t2: string, r2: string)
    returns (a: string, b: string)
    requires FixedLength(hash, n) && Digest(hash, t1, r1) == Digest(hash, t2, r2)
    ensures (t1 == t2 && r1 == r2) || Collides(hash, a, b)
  {
    var x, y := hash(t1) + ":" + hash(r1), hash(t2) + ":" + hash(r2);
    if x != y {
      a, b := x, y;
    } else {
      assert x == hash(t1) + (":" + hash(r1)) && y == hash(t2) + (":" + hash(r2));
      SplitAtLength(hash(t1), ":" + hash(r1), hash(t2), ":" + hash(r2));
      SplitAtLength(":", hash(r1), ":", hash(r2));
      if t1 != t2 {
        a, b := t1, t2;
      } else {
        a, b := r1, r2;
      }
    }
  }

  /** Two scopes with one in-memory key are one scope, or show a collision of the hash. */
  lemma MemoryKeyCollision(hash: string -> string, n: nat, t1: string, r1: string, p1: string, t2: string, r2: string, p2: string)
    returns (a: string, b: string)
    requires FixedLength(hash, n) && MemoryKey(hash, t1, r1, p1) == MemoryKey(hash, t2, r2, p2)
    ensures (t1 == t2 && r1 == r2 && p1 == p2) || Collides(hash, a, b)
  {
    var d1, d2 := Digest(hash, t1, r1), Digest(hash, t2, r2);
    assert d1 + "::" + p1 == d1 + ("::" + p1) && d2 + "::" + p2 == d2 + ("::" + p2);
    SplitAtLength(d1, "::" + p1, d2, "::" + p2);
    SplitAtLength("::", p1, "::", p2);
    a, b := DigestCollision(hash, n, t1, r1, t2, r2);
  }

  /** The hash tells the two pairs apart: its digests have one length, and none of those that a key takes
      collides. */
  predicate TellsApart(hash: string -> string, t1: string, r1: string, t2: string, r2: string) {
    var x, y := hash(t1) + ":" + hash(r1), hash(t2) + ":" + hash(r2);
    && |hash(t1)| == |hash(t2)| && |hash(x)| == |hash(y)|
    && (t1 != t2 ==> hash(t1) != hash(t2)) && (r1 != r2 ==> hash(r1) != hash(r2)) && (x != y ==> hash(x) != hash(y))
  }

  lemma PairsApart(hash: string -> string, t1: string, r1: string, t2: string, r2: string)
    requires TellsApart(hash, t1, r1, t2, r2)
    ensures |Digest(hash, t1, r1)| == |Digest(hash, t2, r2)|
    ensures Digest(hash, t1, r1) == Digest(hash, t2, r2) <==> t1 == t2 && r1 == r2
  {
    var x, y := hash(t1) + ":" + hash(r1), hash(t2) + ":" + hash(r2);
    if x == y {
      assert x == hash(t1) + (":" + hash(r1)) && y == hash(t2) + (":" + hash(r2));
      SplitAtLength(hash(t1), ":" + hash(r1), hash(t2), ":" + hash(r2));
      SplitAtLength(":", hash(r1), ":", hash(r2));
    }
  }

  /** Then scopes that differ in any component have keys of their own in memory. */
  lemma MemoryScopesApart(hash: string -> string, t1: string, r1: string, p1: string, t2: string, r2: string, p2: string)
    requires TellsApart(hash, t1, r1, t2, r2)
    ensures MemoryKey(hash, t1, r1, p1) == MemoryKey(hash, t2, r2, p2) <==> t1 == t2 && r1 == r2 && p1 == p2
  {
    var d1, d2 := Digest(hash, t1, r1), Digest(hash, t2, r2);
    PairsApart(hash, t1, r1, t2, r2);
    if d1 + "::" + p1 == d2 + "::" + p2 {
      assert d1 + "::" + p1 == d1 + ("::" + p1) && d2 + "::" + p2 == d2 + ("::" + p2);
      SplitAtLength(d1, "::" + p1, d2, "::" + p2);
      SplitAtLength("::", p1, "::", p2);
    }
  }

  lemma RedisKeyParts(hash: string -> string, namespace: string, family: Family, t: string, r: string, p: string)
    ensures RedisKey(hash, namespace, family, t, r, p) == namespace + (Infix(family) + (p + ":" + Digest(hash, t, r)))
  {
    assert namespace + Infix(family) + p + ":" + Digest(hash, t, r)
        == namespace + (Infix(family) + (p + ":" + Digest(hash, t, r)));
  }

  /** No two families share a key within a namespace, whatever the purposes are. */
  lemma FamiliesDisjoint(hash: string -> string, namespace: string, f1: Family, t1: string, r1: string, p1: string,
                         f2: Family, t2: string, r2: string, p2: string)
    requires f1 != f2
    ensures RedisKey(hash, namespace, f1, t1, r1, p1) != RedisKey(hash, namespace, f2, t2, r2, p2)
  {
    RedisKeyParts(hash, namespace, f1, t1, r1, p1);
    RedisKeyParts(hash, namespace, f2, t2, r2, p2);
    var x, y := Infix(f1) + (p1 + ":" + Digest(hash, t1, r1)), Infix(f2) + (p2 + ":" + Digest(hash, t2, r2));
    assert x[4] == Infix(f1)[4] && x[5] == (Infix(f1) + (p1 + ":" + Digest(hash, t1, r1)))[5];
    assert y[4] == Infix(f2)[4];
    assert (f1 != Otp ==> x[5] == Infix(f1)[5]) && (f2 != Otp ==> y[5] == Infix(f2)[5]);
    assert x != y;
    assert (namespace + x)[|namespace|..] == x && (namespace + y)[|namespace|..] == y;
  }

  /** Two scopes with one Redis key of a family are one scope, or show a collision of the hash: the
      digest is read off the end, so a purpose may contain the delimiter. */
  lemma RedisKeyCollision(hash: string -> string, n: nat, namespace: string, family: Family,
                          t1: string, r1: string, p1: string, t2: string, r2: string, p2: string)
    returns (a: string, b: string)
    requires FixedLength(hash, n)
    requires RedisKey(hash, namespace, family, t1, r1, p1) == RedisKey(hash, namespace, family, t2, r2, p2)
    ensures (t1 == t2 && r1 == r2 && p1 == p2) || Collides(hash, a, b)
  {
    RedisKeyParts(hash, namespace, family, t1, r1, p1);
    RedisKeyParts(hash, namespace, family, t2, r2, p2);
    var d1, d2 := Digest(hash, t1, r1), Digest(hash, t2, r2);
    SplitAtLength(namespace, Infix(family) + (p1 + ":" + d1), namespace, Infix(family) + (p2 + ":" + d2));
    SplitAtLength(Infix(family), p1 + ":" + d1, Infix(family), p2 + ":" + d2);
    assert |p1 + ":" + d1| == |p2 + ":" + d2|;
    SplitAtLength(p1 + ":", d1, p2 + ":", d2);
    SplitAtLength(p1, ":", p2, ":");
    a, b := DigestCollision(hash, n, t1, r1, t2, r2);
  }

  /** And in each family of Redis keys. */
  lemma RedisScopesApart(hash: string -> string, namespace: string, family: Family,
                         t1: string, r1: string, p1: string, t2: string, r2: string, p2: string)
    requires TellsApart(hash, t1, r1, t2, r2)
    ensures RedisKey(hash, namespace, family, t1, r1, p1) == RedisKey(hash, namespace, family, t2, r2, p2)
      <==> t1 == t2 && r1 == r2 && p1 == p2
  {
    PairsApart(hash, t1, r1, t2, r2);
    if RedisKey(hash, namespace, family, t1, r1, p1) == RedisKey(hash, namespace, family, t2, r2, p2) {
      RedisKeyParts(hash, namespace, family, t1, r1, p1);
      RedisKeyParts(hash, namespace, family, t2, r2, p2);
      var d1, d2 := Digest(hash, t1, r1), Digest(hash, t2, r2);
      SplitAtLength(namespace, Infix(family) + (p1 + ":" + d1), namespace, Infix(family) + (p2 + ":" + d2));
      SplitAtLength(Infix(family), p1 + ":" + d1, Infix(family), p2 + ":" + d2);
      SplitAtLength(p1 + ":", d1, p2 + ":", d2);
      SplitAtLength(p1, ":", p2, ":");
    }
  }

  /** Joining the raw values around a delimiter would map distinct pairs to one string. */
  lemma RawJoinIsAmbiguous()
    ensures "a:b" + ":" + "c" == "a" + ":" + "b:c"
    ensures Identifies("a:b") && Identifies("c") && Identifies("a") && Identifies("b:c")
  {
    assert 'a' in "a:b" && 'c' in "c" && 'a' in "a" && 'b' in "b:c";
  }
}
