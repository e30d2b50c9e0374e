/**
 Short lower-case names for trees and alignments of an experiment: the
 `index`-th of `maximum` items is named by its base-26 digits written
 with the letters `a`..`z`, padded to the number of digits `maximum`
 needs.
 */
module Base26 {
  import opened Results
  import opened Arith

  /** The alphabet, in the order of its digit values. */
  const Lowercase: string := "abcdefghijklmnopqrstuvwxyz"

  /** The logarithm of a non-positive number is undefined. */
  datatype EncodeError = MathDomainError

  function Pow26(e: nat): (r: nat)
    ensures r >= 1
  {
    if e == 0 then 1 else 26 * Pow26(e - 1)
  }

  /**
   The number of base-26 digits needed to count up to `m`: the least
   exponent whose power of 26 reaches `m`.
   */
  function CeilLog26(m: nat): (e: nat)
    requires m >= 1
    ensures m <= Pow26(e)
    ensures e > 0 ==> Pow26(e - 1) < m
    decreases m
  {
    if m == 1 then 0 else 1 + CeilLog26((m + 25) / 26)
  }

  predicate IsLetter(c: char) {
    'a' <= c <= 'z'
  }

  function Letter(d: nat): (c: char)
    requires d < 26
    ensures IsLetter(c)
    ensures c as int - 'a' as int == d
  {
    Lowercase[d]
  }

  function LetterValue(c: char): (d: nat)
    requires IsLetter(c)
    ensures d < 26
  {
    c as int - 'a' as int
  }

  /** Digit number `e` of `x` in base 26, counted from the least significant. */
  function DigitAt(x: nat, e: nat): (d: nat)
    ensures d < 26
  {
    var p := Pow26(e);
    DivBelow(x % (26 * p), p, 26);
    (x % Pow26(e + 1)) / p
  }

  /**
   The `n` digits of `x` modulo 26^n, most significant first: position
   `k` holds digit number n-1-k.
   */
  function Digits(x: nat, n: nat): (s: string)
    ensures |s| == n
    ensures forall k :: 0 <= k < n ==> IsLetter(s[k])
    ensures forall k :: 0 <= k < n ==> LetterValue(s[k]) == DigitAt(x, n - 1 - k)
  {
    if n == 0 then [] else [Letter(DigitAt(x, n - 1))] + Digits(x, n - 1)
  }

  /** The name of item `index` out of `maximum`. */
  function Encode(index: nat, maximum: int): (r: Result<string, EncodeError>)
    ensures index == 0 ==> r == Ok("a")
    ensures r.Err? <==> index != 0 && maximum <= 0
    ensures index != 0 && maximum >= 1 ==>
              r.Ok? && |r.value| == CeilLog26(maximum)
    ensures r.Ok? ==> forall k :: 0 <= k < |r.value| ==> IsLetter(r.value[k])
  {
    if index == 0 then Ok("a")
    else if maximum <= 0 then Err(MathDomainError)
    else Ok(Digits(index, CeilLog26(maximum)))
  }

  /** Reads a name back as a base-26 number, most significant letter first. */
  function Decode(s: string): (x: nat)
    requires forall k :: 0 <= k < |s| ==> IsLetter(s[k])
    ensures x < Pow26(|s|)
  {
    if |s| == 0 then 0
    else
      DigitBelow(LetterValue(s[0]), Decode(s[1..]), 26, Pow26(|s| - 1));
      LetterValue(s[0]) * Pow26(|s| - 1) + Decode(s[1..])
  }

  /** Splitting off the top digit of `x` modulo 26p leaves `x` modulo p. */
  lemma SplitTop(x: nat, p: nat)
    requires p > 0
    ensures ((x % (26 * p)) / p) * p + x % p == x % (26 * p)
  {
    var m := x % (26 * p);
    assert m == (m / p) * p + m % p;
    ModOfMultiple(x, 26, p);
  }

  /** Decoding the digits of `x` recovers `x` modulo 26^n. */
  lemma {:induction false} DecodeDigits(x: nat, n: nat)
    ensures Decode(Digits(x, n)) == x % Pow26(n)
  {
    if n > 0 {
      var s := Digits(x, n);
      var p := Pow26(n - 1);
      assert s[1..] == Digits(x, n - 1);
      DecodeDigits(x, n - 1);
      var top := DigitAt(x, n - 1);
      assert LetterValue(s[0]) == top;
      assert Decode(s) == top * p + x % p;
      assert Pow26(n) == 26 * p;
      assert top == (x % (26 * p)) / p;
      SplitTop(x, p);
    }
  }

  /** Any name of a nonzero index decodes back to that index. */
  lemma EncodeDecode(index: nat, maximum: int)
    requires 0 < index < maximum
    ensures Encode(index, maximum).Ok?
    ensures Decode(Encode(index, maximum).value) == index
  {
    var n := CeilLog26(maximum);
    assert Encode(index, maximum).value == Digits(index, n);
    DecodeDigits(index, n);
    DivModUnique(index, Pow26(n), 0, index);
  }

  /** Distinct indices below `maximum` receive distinct names. */
  lemma EncodeInjective(i: nat, j: nat, maximum: int)
    requires i < maximum && j < maximum && i != j
    ensures Encode(i, maximum).Ok? && Encode(j, maximum).Ok?
    ensures Encode(i, maximum).value != Encode(j, maximum).value
  {
    if i != 0 && j != 0 {
      EncodeDecode(i, maximum);
      EncodeDecode(j, maximum);
    } else {
      var k := if i == 0 then j else i;
      ZeroNameUnused(k, maximum);
    }
  }

  /** No nonzero index below `maximum` is named "a", the name of index 0. */
  lemma ZeroNameUnused(k: nat, maximum: int)
    requires 0 < k < maximum
    ensures Encode(k, maximum).Ok? && Encode(k, maximum).value != "a"
  {
    var n := CeilLog26(maximum);
    if n == 1 {
      EncodeDecode(k, maximum);
      assert Decode("a") == 0;
    }
  }
}
