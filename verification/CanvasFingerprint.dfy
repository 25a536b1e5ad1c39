/** A short identity for a text: its length and two 32-bit sums over its code units. */
module CanvasFingerprint {
  import opened Numerals

  /** UTF-16 code units. */
  type Unit = u: int | 0 <= u < 0x1_0000

  type Units = seq<Unit>

  const WORD := 0x1_0000_0000

  /** A 32-bit word; the signed words of the accumulators are these, modulo 2 to the 32. */
  type Word = w: int | 0 <= w < WORD

  const FIRST_START: Word := 0x811c9dc5
  const SECOND_START: Word := 0x9e3779b9
  const FIRST_FACTOR: Word := 0x01000193
  const SECOND_FACTOR: Word := 0x85ebca6b
  const FIRST_INVERSE: Word := 0x359c449b
  const SECOND_INVERSE: Word := 0xa5cb9243

  function Xor(a: nat, b: nat): nat {
    if a == 0 && b == 0 then 0 else 2 * Xor(a / 2, b / 2) + (a % 2 + b % 2) % 2
  }

  function Imul(a: Word, b: Word): Word {
    (a * b) % WORD
  }

  /** It is adding up, one summand after the other, in 32 bits. */
  lemma ImulAdds(a: Word, b: Word)
    ensures Imul(a, 0) == 0
    ensures b + 1 < WORD ==> Imul(a, b + 1) == (Imul(a, b) + a) % WORD
  {
    var k := a * b / WORD;
    var left := (a * b) % WORD;
    assert a * (b + 1) == left + a + k * WORD;
    assert (left + a + k * WORD) % WORD == (left + a) % WORD by { Wraps(left + a, k); }
  }

  lemma Wraps(x: nat, k: int)
    ensures (x + k * WORD) % WORD == x % WORD
  {
    var y := x % WORD;
    assert x + k * WORD == y + (x / WORD + k) * WORD;
    Remainder(y, x / WORD + k);
  }

  function Pow2(k: nat): nat {
    if k == 0 then 1 else 2 * Pow2(k - 1)
  }

  lemma {:induction false} XorStaysIn(a: nat, b: nat, k: nat)
    requires a < Pow2(k) && b < Pow2(k)
    ensures Xor(a, b) < Pow2(k)
  {
    if k > 0 {
      XorStaysIn(a / 2, b / 2, k - 1);
    }
  }

  lemma {:induction false} Pow2Sum(j: nat, k: nat)
    ensures Pow2(j + k) == Pow2(j) * Pow2(k)
  {
    if j > 0 {
      Pow2Sum(j - 1, k);
    }
  }

  lemma Pow2Of32()
    ensures Pow2(32) == WORD
  {
    Pow2Sum(2, 2);
    Pow2Sum(4, 4);
    Pow2Sum(8, 8);
    Pow2Sum(16, 16);
  }

  function XorWord(a: Word, u: Unit): (r: Word)
    ensures r == Xor(a, u)
  {
    Pow2Of32();
    XorStaysIn(a, u, 32);
    Xor(a, u)
  }

  function Mix(sum: Word, unit: Unit, factor: Word): Word {
    Imul(XorWord(sum, unit), factor)
  }

  function Sum(start: Word, text: Units, factor: Word): Word {
    if text == [] then start else Mix(Sum(start, text[..|text| - 1], factor), text[|text| - 1], factor)
  }

  lemma XorBits(a: nat, b: nat)
    ensures Xor(a, b) / 2 == Xor(a / 2, b / 2) && Xor(a, b) % 2 == (a % 2 + b % 2) % 2
  {
  }

  /** Taking the same word out again gives back what was there. */
  lemma {:induction false} XorUndoes(a: nat, b: nat)
    ensures Xor(Xor(a, b), b) == a
  {
    if a != 0 || b != 0 {
      XorUndoes(a / 2, b / 2);
      UndoneBit(a, b);
    }
  }

  lemma UndoneBit(a: nat, b: nat)
    requires Xor(Xor(a / 2, b / 2), b / 2) == a / 2
    ensures Xor(Xor(a, b), b) == a
  {
    hide Xor;
    var x := Xor(a, b);
    XorBits(a, b);
    XorBits(x, b);
    assert Xor(x, b) / 2 == a / 2;
    assert Xor(x, b) % 2 == a % 2;
  }

  lemma {:induction false} XorSwaps(a: nat, b: nat)
    ensures Xor(a, b) == Xor(b, a)
  {
    if a != 0 || b != 0 {
      XorSwaps(a / 2, b / 2);
    }
  }

  /** Multiplying by a factor loses nothing when it has an inverse, that is, when it is odd. */
  lemma ImulUndoes(a: Word, factor: Word, inverse: Word, extra: int)
    requires factor * inverse == 1 + extra * WORD
    ensures Imul(Imul(a, factor), inverse) == a
  {
    var whole := a * factor;
    var high, low := whole / WORD, whole % WORD;
    calc {
      low * inverse;
      (whole - high * WORD) * inverse;
      a * factor * inverse - high * WORD * inverse;
      { assert a * factor * inverse == a * (factor * inverse); }
      a * (1 + extra * WORD) - high * WORD * inverse;
      a + (a * extra - high * inverse) * WORD;
    }
    Remainder(a, a * extra - high * inverse);
  }

  lemma Remainder(a: Word, k: int)
    ensures (a + k * WORD) % WORD == a
  {
  }

  // ---------------------------------------------------------------- written out

  function HexDigit(v: nat): (c: char)
    requires v < 16
    ensures IsHex(c)
  {
    if v < 10 then ('0' as int + v) as char else ('a' as int + v - 10) as char
  }

  predicate IsHex(c: char) {
    '0' <= c <= '9' || 'a' <= c <= 'f'
  }

  function Hex(v: nat): (s: string)
    ensures s != [] && forall i :: 0 <= i < |s| ==> IsHex(s[i])
  {
    if v < 16 then [HexDigit(v)] else Hex(v / 16) + [HexDigit(v % 16)]
  }

  function DigitValue(c: char): nat
    requires IsHex(c)
  {
    if c <= '9' then c as nat - '0' as nat else 10 + (c as nat - 'a' as nat)
  }

  /** The number a text of hexadecimal digits stands for. */
  function HexValue(s: string): nat
    requires forall i :: 0 <= i < |s| ==> IsHex(s[i])
  {
    if s == [] then 0 else HexValue(s[..|s| - 1]) * 16 + DigitValue(s[|s| - 1])
  }

  /** What is written in hexadecimal reads back as the number. */
  lemma {:induction false} HexReadsBack(v: nat)
    ensures HexValue(Hex(v)) == v
  {
    assert HexValue([]) == 0;
    if v < 16 {
      assert Hex(v)[..0] == [];
    } else {
      HexReadsBack(v / 16);
      assert Hex(v)[..|Hex(v)| - 1] == Hex(v / 16);
    }
  }

  lemma {:induction false} HexInjective(a: nat, b: nat)
    requires Hex(a) == Hex(b)
    ensures a == b
  {
    var s, t := Hex(a), Hex(b);
    assert s[|s| - 1] == HexDigit(a % 16) && t[|t| - 1] == HexDigit(b % 16);
    assert a % 16 == b % 16;
    if a >= 16 && b >= 16 {
      assert Hex(a / 16) == s[..|s| - 1] && Hex(b / 16) == t[..|t| - 1];
      HexInjective(a / 16, b / 16);
    } else {
      assert a >= 16 <==> |s| > 1;
      assert b >= 16 <==> |t| > 1;
    }
  }

  function Written(length: nat, first: Word, second: Word): string {
    "v1:" + (Decimal(length) + ([':'] + (Hex(first) + ([':'] + Hex(second)))))
  }

  /** Up to the first colon both texts agree, and so does what follows. */
  lemma ColonSplits(a: string, b: string, c: string, d: string)
    requires a + ([':'] + b) == c + ([':'] + d)
    requires ':' !in a && ':' !in c
    ensures a == c && b == d
  {
    var s, t := a + ([':'] + b), c + ([':'] + d);
    assert s[|a|] == ':' && t[|c|] == ':';
    assert forall i :: 0 <= i < |a| ==> s[i] == a[i] && s[i] in a;
    assert forall i :: 0 <= i < |c| ==> t[i] == c[i] && t[i] in c;
    assert |a| == |c|;
    assert a == s[..|a|] && c == t[..|c|];
    assert b == s[|a| + 1..] && d == t[|c| + 1..];
  }

  lemma WrittenInjective(m: nat, first: Word, second: Word, n: nat, third: Word, fourth: Word)
    requires Written(m, first, second) == Written(n, third, fourth)
    ensures m == n && first == third && second == fourth
  {
    hide Hex, Decimal;
    var rest := Decimal(m) + ([':'] + (Hex(first) + ([':'] + Hex(second))));
    var other := Decimal(n) + ([':'] + (Hex(third) + ([':'] + Hex(fourth))));
    assert rest == Written(m, first, second)[3..] && other == Written(n, third, fourth)[3..];
    ColonSplits(Decimal(m), Hex(first) + ([':'] + Hex(second)), Decimal(n), Hex(third) + ([':'] + Hex(fourth)));
    ColonSplits(Hex(first), Hex(second), Hex(third), Hex(fourth));
    DecimalInjective(m, n);
    HexInjective(first, third);
    HexInjective(second, fourth);
  }

  // ---------------------------------------------------------------- the fingerprint

  function FingerprintOf(text: Units): string {
    Written(|text|, Sum(FIRST_START, text, FIRST_FACTOR), Sum(SECOND_START, text, SECOND_FACTOR))
  }

  method Fingerprint(text: Units) returns (r: string)
    ensures r == FingerprintOf(text)
  {
    var first, second := FIRST_START, SECOND_START;
    for index := 0 to |text|
      invariant first == Sum(FIRST_START, text[..index], FIRST_FACTOR)
      invariant second == Sum(SECOND_START, text[..index], SECOND_FACTOR)
    {
      assert text[..index + 1][..index] == text[..index];
      first := Mix(first, text[index], FIRST_FACTOR);
      second := Mix(second, text[index], SECOND_FACTOR);
    }
    assert text[..|text|] == text;
    r := Written(|text|, first, second);
  }

  lemma XorInjective(a: nat, u: nat, b: nat, v: nat)
    requires Xor(a, u) == Xor(b, v)
    ensures a == b <==> u == v
  {
    hide Xor;
    XorUndoes(a, u);
    XorUndoes(b, v);
    XorSwaps(a, u);
    XorSwaps(b, v);
    XorUndoes(u, a);
    XorUndoes(v, b);
  }

  lemma ImulInjective(x: Word, y: Word, factor: Word)
    requires factor == FIRST_FACTOR || factor == SECOND_FACTOR
    requires Imul(x, factor) == Imul(y, factor)
    ensures x == y
  {
    hide Imul;
    if factor == FIRST_FACTOR {
      var extra := FIRST_FACTOR * FIRST_INVERSE / WORD;
      ImulUndoes(x, factor, FIRST_INVERSE, extra);
      ImulUndoes(y, factor, FIRST_INVERSE, extra);
    } else {
      var extra := SECOND_FACTOR * SECOND_INVERSE / WORD;
      ImulUndoes(x, factor, SECOND_INVERSE, extra);
      ImulUndoes(y, factor, SECOND_INVERSE, extra);
    }
  }

  /** Odd factors lose nothing: a step can be undone from either side. */
  lemma MixInjective(a: Word, u: Unit, b: Word, v: Unit, factor: Word)
    requires factor == FIRST_FACTOR || factor == SECOND_FACTOR
    requires Mix(a, u, factor) == Mix(b, v, factor)
    ensures a == b <==> u == v
  {
    hide Imul, Xor;
    ImulInjective(XorWord(a, u), XorWord(b, v), factor);
    XorInjective(a, u, b, v);
  }

  lemma {:induction false} SumTellsApart(start: Word, text: Units, other: Units, factor: Word, k: nat)
    requires factor == FIRST_FACTOR || factor == SECOND_FACTOR
    requires |text| == |other| && k < |text| && text[k] != other[k]
    requires forall i :: 0 <= i < |text| && i != k ==> text[i] == other[i]
    ensures Sum(start, text, factor) != Sum(start, other, factor)
  {
    var last := |text| - 1;
    var a, b := Sum(start, text[..last], factor), Sum(start, other[..last], factor);
    if k == last {
      assert text[..last] == other[..last];
    } else {
      SumTellsApart(start, text[..last], other[..last], factor, k);
    }
    if Mix(a, text[last], factor) == Mix(b, other[last], factor) {
      MixInjective(a, text[last], b, other[last], factor);
    }
  }

  /** Changing one unit always shows, in both sums; and so does every change of length. */
  lemma OneUnitShows(text: Units, other: Units, k: nat)
    requires |text| == |other| ==>
      k < |text| && text[k] != other[k] && forall i :: 0 <= i < |text| && i != k ==> text[i] == other[i]
    ensures FingerprintOf(text) != FingerprintOf(other)
  {
    if |text| == |other| {
      SumTellsApart(FIRST_START, text, other, FIRST_FACTOR, k);
    }
    if FingerprintOf(text) == FingerprintOf(other) {
      WrittenInjective(|text|, Sum(FIRST_START, text, FIRST_FACTOR), Sum(SECOND_START, text, SECOND_FACTOR),
                       |other|, Sum(FIRST_START, other, FIRST_FACTOR), Sum(SECOND_START, other, SECOND_FACTOR));
    }
  }

  /** The form the canvas document demands of a stored fingerprint. */
  ghost predicate Acceptable(s: string) {
    exists a, b, c :: MadeOf(s, a, b, c)
  }

  predicate MadeOf(s: string, a: string, b: string, c: string) {
    && s == "v1:" + (a + ([':'] + (b + ([':'] + c))))
    && a != [] && b != [] && c != []
    && (forall i :: 0 <= i < |a| ==> IsDecimal(a[i]))
    && (forall i :: 0 <= i < |b| ==> IsHex(b[i]))
    && (forall i :: 0 <= i < |c| ==> IsHex(c[i]))
  }

  /** The form is the version, a decimal digit, and then digits and colons only, the last one a digit. */
  lemma AcceptableLooks(s: string)
    requires Acceptable(s)
    ensures |s| >= 8 && s[..3] == "v1:" && IsDecimal(s[3]) && IsHex(s[|s| - 1])
    ensures forall i :: 3 <= i < |s| ==> s[i] == ':' || IsHex(s[i])
  {
    var a, b, c :| MadeOf(s, a, b, c);
    var rest := a + ([':'] + (b + ([':'] + c)));
    assert s == "v1:" + rest;
    forall i | 0 <= i < |rest| ensures rest[i] == ':' || IsHex(rest[i]) {
      assert i < |a| ==> rest[i] == a[i];
      assert |a| < i < |a| + 1 + |b| ==> rest[i] == b[i - |a| - 1];
      assert |a| + 2 + |b| <= i ==> rest[i] == c[i - |a| - 2 - |b|];
    }
    assert s[3] == rest[0] == a[0];
    assert s[|s| - 1] == c[|c| - 1];
  }

  lemma FingerprintsAreAcceptable(text: Units)
    ensures Acceptable(FingerprintOf(text))
  {
    hide Hex, Decimal, Sum;
    var first, second := Sum(FIRST_START, text, FIRST_FACTOR), Sum(SECOND_START, text, SECOND_FACTOR);
    assert MadeOf(FingerprintOf(text), Decimal(|text|), Hex(first), Hex(second));
  }
}
