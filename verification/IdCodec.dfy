/** Short public names for workspace IDs: 13 base-36 digits of a permuted 64-bit word. */
module IdCodec {
  import opened Basics

  const TWO_63 := 0x8000_0000_0000_0000
  const TWO_64 := 0x1_0000_0000_0000_0000

  type UInt64 = x: int | 0 <= x < TWO_64
  type Int64 = x: int | -TWO_63 <= x < TWO_63

  const CHARSET := "0123456789abcdefghijklmnopqrstuvwxyz"
  const HASH_LEN := 13

  // ---- Machine words ----------------------------------------------------

  function ToUnsigned(x: Int64): UInt64 {
    if x < 0 then x + TWO_64 else x
  }

  function ToSigned(x: UInt64): Int64 {
    if x < TWO_63 then x else x - TWO_64
  }

  /** The int64 an unbounded result wraps to. */
  function Wrap(x: int): Int64 {
    ToSigned(x % TWO_64)
  }

  lemma WrapResidue(x: int) returns (k: int)
    ensures Wrap(x) == x + k * TWO_64
  {
    k := -(x / TWO_64) - if x % TWO_64 < TWO_63 then 0 else 1;
  }

  /** Wrapping changes a number by a multiple of 2^64, and only that. */
  lemma UnsignedIsResidue(x: Int64, y: int, k: int)
    requires y == x + k * TWO_64
    ensures ToUnsigned(x) == y % TWO_64
  {
    assert y % TWO_64 == ToUnsigned(x) by {
      var l := if x < 0 then k - 1 else k;
      assert y == l * TWO_64 + ToUnsigned(x);
    }
  }

  // ---- The permutation --------------------------------------------------

  /** A block cipher under a fixed key, on 64-bit words. */
  datatype Cipher = Cipher(encrypt: UInt64 -> UInt64, decrypt: UInt64 -> UInt64) {
    ghost predicate Inverse() {
      && (forall w :: decrypt(encrypt(w)) == w)
      && (forall w :: encrypt(decrypt(w)) == w)
    }
  }

  type Permutation = c: Cipher | c.Inverse() witness Cipher(w => w, w => w)

  // ---- Digits -----------------------------------------------------------

  /** Position of the first occurrence, or -1. */
  function IndexRune(s: string, c: char): (i: int)
    ensures -1 <= i < |s|
    ensures i >= 0 ==> s[i] == c
    ensures i == -1 ==> c !in s
  {
    if s == [] then -1
    else if s[0] == c then 0
    else
      var i := IndexRune(s[1..], c);
      if i == -1 then -1 else i + 1
  }

  lemma CharsetIsDistinct()
    ensures |CHARSET| == 36 && NoDuplicates(CHARSET)
  {
    assert forall i | 0 <= i < 10 :: CHARSET[i] == '0' + i as char;
    assert forall i | 10 <= i < 36 :: CHARSET[i] == 'a' + (i - 10) as char;
  }

  lemma IndexOfDigit(d: int)
    requires 0 <= d < |CHARSET|
    ensures IndexRune(CHARSET, CHARSET[d]) == d
  {
    CharsetIsDistinct();
    var i := IndexRune(CHARSET, CHARSET[d]);
    assert CHARSET[d] in CHARSET;
  }

  function Digit(d: nat): (c: char)
    requires d < 36
    ensures c == CHARSET[d]
  {
    CHARSET[d]
  }

  /** The `n` lowest base-36 digits, least significant first. */
  function Digits(w: nat, n: nat): (s: string)
    ensures |s| == n
  {
    if n == 0 then [] else [Digit(w % 36)] + Digits(w / 36, n - 1)
  }

  /** The number a digit string denotes; a rune outside the charset weighs -1. */
  function Value(s: string): int {
    if s == [] then 0 else IndexRune(CHARSET, s[0]) + 36 * Value(s[1..])
  }

  function Pow36(n: nat): (p: nat)
    ensures p > 0
  {
    if n == 0 then 1 else 36 * Pow36(n - 1)
  }

  lemma FewerDigits(w: nat, p: nat)
    requires w < 36 * p
    ensures w / 36 < p
  {
  }

  lemma ValueOfFirst(d: char, rest: string)
    ensures Value([d] + rest) == IndexRune(CHARSET, d) + 36 * Value(rest)
  {
    assert ([d] + rest)[1..] == rest;
  }

  lemma ValueOfMore(w: nat, n: nat)
    requires n > 0 && Value(Digits(w / 36, n - 1)) == w / 36
    ensures Value(Digits(w, n)) == w
  {
    IndexOfDigit(w % 36);
    ValueOfFirst(Digit(w % 36), Digits(w / 36, n - 1));
  }

  lemma {:induction false} ValueOfDigits(w: nat, n: nat)
    requires w < Pow36(n)
    ensures Value(Digits(w, n)) == w
  {
    if n > 0 {
      FewerDigits(w, Pow36(n - 1));
      ValueOfDigits(w / 36, n - 1);
      ValueOfMore(w, n);
    }
  }

  lemma HashLenCoversWords()
    ensures Pow36(HASH_LEN - 1) < TWO_64 < Pow36(HASH_LEN)
  {
    assert Pow36(4) == 36 * 36 * 36 * 36;
    assert Pow36(8) == 36 * 36 * 36 * 36 * Pow36(4);
    assert Pow36(12) == 36 * 36 * 36 * 36 * Pow36(8);
  }

  // ---- Hash -------------------------------------------------------------

  function HashOf(c: Permutation, id: Int64): string {
    Digits(c.encrypt(ToUnsigned(id)), HASH_LEN)
  }

  /** The loop over the digits; 36 is the size of the charset. */
  method WriteDigits(word: nat, n: nat) returns (s: string)
    ensures s == Digits(word, n)
  {
    var randID := word;
    var a := new char[n];
    for i := 0 to n
      invariant a[..i] + Digits(randID, n - i) == Digits(word, n)
    {
      ghost var before := a[..i];
      a[i] := Digit(randID % 36);
      assert a[..i + 1] == before + [Digit(randID % 36)];
      randID := randID / 36;
    }
    s := a[..];
    assert s == a[..n] + Digits(randID, 0);
  }

  method Hash(c: Permutation, id: Int64) returns (s: string)
    ensures s == HashOf(c, id)
  {
    var randID: nat := c.encrypt(ToUnsigned(id));
    s := WriteDigits(randID, HASH_LEN);
  }

  lemma DecodeHash(c: Permutation, id: Int64)
    ensures Value(HashOf(c, id)) == c.encrypt(ToUnsigned(id))
    ensures ToSigned(c.decrypt(Value(HashOf(c, id)))) == id
  {
    HashLenCoversWords();
    ValueOfDigits(c.encrypt(ToUnsigned(id)), HASH_LEN);
  }

  /** Distinct IDs have distinct names, negative IDs included. */
  lemma HashInjective(c: Permutation, a: Int64, b: Int64)
    requires HashOf(c, a) == HashOf(c, b)
    ensures a == b
  {
    DecodeHash(c, a);
    DecodeHash(c, b);
  }

  // ---- ParseID ----------------------------------------------------------

  /** What a string decodes to before the sanity check. */
  function Decoded(c: Permutation, s: string): Int64 {
    ToSigned(c.decrypt(Value(s) % TWO_64))
  }

  lemma DecodedHash(c: Permutation, id: Int64)
    ensures Decoded(c, HashOf(c, id)) == id
  {
    DecodeHash(c, id);
    var w := Value(HashOf(c, id));
    assert w % TWO_64 == w;
  }

  function ParseOf(c: Permutation, s: string): Result<Int64> {
    var id := Decoded(c, s);
    if id < 0 || HashOf(c, id) != s then Err(Invalid) else Ok(id)
  }

  function Multiple(q: int): int {
    q * TWO_64
  }

  /** Equal up to multiples of 2^64. */
  ghost predicate Congruent(a: int, b: int) {
    exists q: int :: a == b + Multiple(q)
  }

  lemma CongruentBy(a: int, b: int, q: int)
    requires a == b + Multiple(q)
    ensures Congruent(a, b)
  {
  }

  lemma CongruentTransitive(a: int, b: int, c: int)
    requires Congruent(a, b) && Congruent(b, c)
    ensures Congruent(a, c)
  {
    var p, q :| a == b + Multiple(p) && b == c + Multiple(q);
    CongruentBy(a, c, p + q);
  }

  lemma CongruentSum(a: int, b: int, c: int, d: int)
    requires Congruent(a, b) && Congruent(c, d)
    ensures Congruent(a + c, b + d)
  {
    var p, q :| a == b + Multiple(p) && c == d + Multiple(q);
    CongruentBy(a + c, b + d, p + q);
  }

  lemma CongruentProduct(a: int, b: int, x: int)
    requires Congruent(a, b)
    ensures Congruent(a * x, b * x)
  {
    var p :| a == b + Multiple(p);
    assert a * x == b * x + (p * x) * TWO_64 by {
      assert (b + p * TWO_64) * x == b * x + (p * TWO_64) * x;
      assert (p * TWO_64) * x == (p * x) * TWO_64;
    }
    CongruentBy(a * x, b * x, p * x);
  }

  function Weighted(acc: int, mul: int, rest: int): int {
    acc + mul * rest
  }

  /** Up to multiples of 2^64, acc is the sum so far of `total`, and mul weighs what is left of it. */
  ghost predicate Accumulated(total: int, rest: int, acc: int, mul: int) {
    Congruent(Weighted(acc, mul, rest), total)
  }

  lemma Regrouped(acc: int, mul: int, ind: int, rest: int)
    ensures acc + mul * (ind + 36 * rest) == (acc + ind * mul) + (mul * 36) * rest
  {
    assert mul * (ind + 36 * rest) == mul * ind + mul * (36 * rest);
    assert mul * (36 * rest) == (mul * 36) * rest;
  }

  /** One digit more, whatever multiples of 2^64 the three operations drop. */
  lemma AccumulateStep(total: int, ind: int, rest: int, acc: int, mul: int, term: int, acc': int, mul': int)
    requires Accumulated(total, ind + 36 * rest, acc, mul)
    requires Congruent(term, ind * mul) && Congruent(acc', acc + term) && Congruent(mul', mul * 36)
    ensures Accumulated(total, rest, acc', mul')
  {
    CongruentBy(acc, acc, 0);
    CongruentSum(acc, acc, term, ind * mul);
    CongruentTransitive(acc', acc + term, acc + ind * mul);
    CongruentProduct(mul', mul * 36, rest);
    CongruentSum(acc', acc + ind * mul, mul' * rest, mul * 36 * rest);
    Regrouped(acc, mul, ind, rest);
    CongruentTransitive(acc' + mul' * rest, acc + mul * (ind + 36 * rest), total);
  }

  lemma NextRune(s: string, k: nat)
    requires k < |s|
    ensures Value(s[k..]) == IndexRune(CHARSET, s[k]) + 36 * Value(s[k + 1..])
  {
    assert s[k..][1..] == s[k + 1..];
  }

  lemma NothingLeft(total: int, rest: int, acc: int, mul: int)
    requires Accumulated(total, rest, acc, mul) && rest == 0
    ensures Congruent(acc, total)
  {
    assert mul * 0 == 0;
  }

  lemma CongruentIsResidue(x: Int64, y: int)
    requires Congruent(x, y)
    ensures ToUnsigned(x) == y % TWO_64
  {
    var q :| x == y + Multiple(q);
    UnsignedIsResidue(x, y, -q);
  }

  lemma WrapCongruent(x: int)
    ensures Congruent(Wrap(x), x)
  {
    var k := WrapResidue(x);
    CongruentBy(Wrap(x), x, k);
  }

  /** int64 addition and multiplication. */
  method Add(a: Int64, b: Int64) returns (r: Int64)
    ensures Congruent(r, a + b)
  {
    WrapCongruent(a + b);
    r := Wrap(a + b);
  }

  method Multiply(a: Int64, b: Int64) returns (r: Int64)
    ensures Congruent(r, a * b)
  {
    WrapCongruent(a * b);
    r := Wrap(a * b);
  }

  lemma NothingAccumulated(total: int)
    ensures Accumulated(total, total, 0, 1)
  {
    CongruentBy(Weighted(0, 1, total), total, 0);
  }

  /** One turn of the loop: three operations, each of which may wrap. */
  method TakeDigit(ind: Int64, acc: Int64, mul: Int64, ghost total: int, ghost before: int, ghost rest: int)
    returns (acc': Int64, mul': Int64)
    requires before == ind + 36 * rest && Accumulated(total, before, acc, mul)
    ensures Accumulated(total, rest, acc', mul')
  {
    CharsetIsDistinct();
    var term := Multiply(ind, mul);
    acc' := Add(acc, term);
    mul' := Multiply(mul, |CHARSET|);
    AccumulateStep(total, ind, rest, acc, mul, term, acc', mul');
  }

  /** The loop over the runes. */
  method Accumulate(s: string) returns (acc: Int64)
    ensures Congruent(acc, Value(s))
  {
    acc := 0;
    var mul: Int64 := 1;
    ghost var total, rest := Value(s), Value(s);
    NothingAccumulated(total);
    assert s[0..] == s;
    for k := 0 to |s|
      invariant rest == Value(s[k..]) && Accumulated(total, rest, acc, mul)
    {
      var ind: Int64 := IndexRune(CHARSET, s[k]);
      NextRune(s, k);
      ghost var before := rest;
      rest := Value(s[k + 1..]);
      acc, mul := TakeDigit(ind, acc, mul, total, before, rest);
    }
    assert s[|s|..] == [];
    NothingLeft(total, rest, acc, mul);
  }

  method ParseID(c: Permutation, s: string) returns (r: Result<Int64>)
    ensures r == ParseOf(c, s)
  {
    var acc := Accumulate(s);
    CongruentIsResidue(acc, Value(s));
    var id := ToSigned(c.decrypt(ToUnsigned(acc)));
    var canonical := Hash(c, id);
    if id < 0 || canonical != s {
      return Err(Invalid);
    }
    return Ok(id);
  }

  /** Whatever wraps on the way, ParseID accepts exactly the names of non-negative IDs. */
  lemma ParseAcceptsExactlyHashes(c: Permutation, s: string, id: Int64)
    ensures ParseOf(c, s) == Ok(id) <==> id >= 0 && s == HashOf(c, id)
    ensures ParseOf(c, s).Err? ==> ParseOf(c, s).error == Invalid
  {
    if s == HashOf(c, id) {
      DecodedHash(c, id);
    }
  }

  lemma ParseRoundTrip(c: Permutation, id: Int64)
    ensures ParseOf(c, HashOf(c, id)) == if id >= 0 then Ok(id) else Err(Invalid)
  {
    DecodedHash(c, id);
  }
}
