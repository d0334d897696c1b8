/** Numerals in bases 2 to 36, and what they mean. */
module Numerals {
  import opened Arithmetic
  import opened Machine
  import opened Powers

  predicate Base(base: int) { 2 <= base <= 36 }

  /** The digit the C library writes: decimal digits first, then lower-case letters. */
  function Digit(d: int): char
    requires 0 <= d < 36
  {
    if d < 10 then '0' + d as char else 'a' + (d - 10) as char
  }

  /** Its value, for a reader; -1 for anything else. */
  function Value(c: char): int {
    if '0' <= c <= '9' then (c - '0') as int
    else if 'a' <= c <= 'z' then (c - 'a') as int + 10
    else -1
  }

  lemma DigitValue(d: int)
    requires 0 <= d < 36
    ensures Value(Digit(d)) == d && Digit(d) != '\0' && (Digit(d) == '0' <==> d == 0)
  {
  }

  /** The numeral of `v`, most significant digit first. */
  function Numeral(v: nat, base: int): (s: seq<char>)
    requires Base(base)
    ensures |s| > 0 && '\0' !in s
    decreases v
  {
    if v < base then
      DigitValue(v);
      [Digit(v)]
    else
      DigitValue(v % base);
      Shrinks(v, base);
      Numeral(v / base, base) + [Digit(v % base)]
  }

  lemma Shrinks(v: nat, base: int)
    requires Base(base) && v >= base
    ensures 0 < v / base < v
  {
    assert v == base * (v / base) + v % base;
  }

  /** What a positional reader makes of a string of digits. */
  function Parse(s: seq<char>, base: int): int {
    if s == [] then 0 else Parse(s[..|s| - 1], base) * base + Value(s[|s| - 1])
  }

  /** A numeral as it should be: digits of its base, and no leading zero but in "0". */
  ghost predicate Canonical(s: seq<char>, base: int) {
    && s != [] && (forall i :: 0 <= i < |s| ==> 0 <= Value(s[i]) < base)
    && (s[0] == '0' ==> |s| == 1)
  }

  lemma ParseStep(s: seq<char>, c: char, base: int)
    ensures Parse(s + [c], base) == Parse(s, base) * base + Value(c)
  {
    assert (s + [c])[..|s|] == s;
  }

  lemma ParseOne(c: char, base: int)
    ensures Parse([c], base) == Value(c)
  {
    assert [c] == [] + [c];
    ParseStep([], c, base);
    assert Parse([], base) == 0;
  }

  lemma DivMod(v: int, base: int)
    requires base > 0
    ensures v / base * base + v % base == v
  {
  }

  lemma {:induction false} NumeralReadsBack(v: nat, base: int)
    requires Base(base)
    ensures Parse(Numeral(v, base), base) == v && Canonical(Numeral(v, base), base)
    ensures v > 0 ==> Numeral(v, base)[0] != '0'
    decreases v
  {
    if v < base {
      DigitValue(v);
      ParseOne(Digit(v), base);
    } else {
      DigitValue(v % base);
      Shrinks(v, base);
      NumeralReadsBack(v / base, base);
      ParseStep(Numeral(v / base, base), Digit(v % base), base);
      DivMod(v, base);
    }
  }

  lemma ValueInjective(c: char, d: int)
    requires Value(c) == d && 0 <= d < 36
    ensures c == Digit(d)
  {
  }

  lemma Recompose(v: int, d: int, base: int)
    requires v > 0 && 0 <= d < base
    ensures (v * base + d) / base == v && (v * base + d) % base == d && v * base + d >= base
  {
    assert v * base == base * v;
    DivUnique(v * base + d, base, v, d);
    assert (v - 1) * base >= 0;
  }

  /** There is no other canonical numeral of the same number. */
  lemma {:induction false} NumeralIsUnique(s: seq<char>, base: int)
    requires Base(base) && Canonical(s, base)
    ensures Parse(s, base) >= 0 && s == Numeral(Parse(s, base), base)
    ensures s[0] != '0' ==> Parse(s, base) > 0
    decreases |s|
  {
    var n := |s| - 1;
    var d := Value(s[n]);
    ValueInjective(s[n], d);
    if n == 0 {
      assert s == [s[0]];
      ParseOne(s[0], base);
      DigitValue(d);
    } else {
      assert s == s[..n] + [s[n]];
      ParseStep(s[..n], s[n], base);
      NumeralIsUnique(s[..n], base);
      Recompose(Parse(s[..n], base), d, base);
    }
  }

  /** A number below 2^k needs at most `k` digits, in any base. */
  lemma {:induction false} NumeralLength(v: nat, base: int, k: nat)
    requires Base(base) && k > 0 && v < Pow2(k)
    ensures |Numeral(v, base)| <= k
    decreases k
  {
    if v < base {
    } else {
      Shrinks(v, base);
      assert k > 1 by {
        assert Pow2(1) == 2;
      }
      Halves(v, base);
      assert Pow2(k) == 2 * Pow2(k - 1);
      NumeralLength(v / base, base, k - 1);
    }
  }

  lemma Halves(v: nat, base: int)
    requires Base(base)
    ensures v / base <= v / 2
  {
    var q := v / base;
    DivMod(v, base);
    MulMonotone(q, 2, base);
    assert 2 * q <= v;
  }

  lemma MulMonotone(q: int, a: int, b: int)
    requires 0 <= q && a <= b
    ensures q * a <= q * b
  {
  }

  /** What itoa prints: a sign in base 10 only, and else the 32-bit two's-complement word. */
  function Signed(value: int, base: int): (s: seq<char>)
    requires Base(base) && -0x8000_0000 <= value < 0x8000_0000
    ensures |s| > 0 && '\0' !in s
  {
    if base == 10 && value < 0 then ['-'] + Numeral(-value, base)
    else Numeral(value % WORD_LIMIT, base)
  }

  function ParseSigned(s: seq<char>, base: int): int {
    if s != [] && s[0] == '-' then -Parse(s[1..], base) else Parse(s, base)
  }

  /** A signed numeral without its sign. */
  function Digits(s: seq<char>): seq<char> {
    if s != [] && s[0] == '-' then s[1..] else s
  }

  /** In base 10 every value reads back; in other bases its unsigned counterpart does. */
  lemma SignedReadsBack(value: int, base: int)
    requires Base(base) && -0x8000_0000 <= value < 0x8000_0000
    ensures ParseSigned(Signed(value, base), base) == if base == 10 then value else value % WORD_LIMIT
    ensures |Signed(value, base)| <= 33
    ensures Canonical(Digits(Signed(value, base)), base)
  {
    var v := if base == 10 && value < 0 then -value else value % WORD_LIMIT;
    NumeralReadsBack(v, base);
    Pow2Values();
    NumeralLength(v, base, 32);
    if base == 10 && value < 0 {
      assert Signed(value, base)[1..] == Numeral(-value, base);
    } else {
      assert Value('-') == -1 && 0 <= Value(Numeral(v, base)[0]);
    }
  }
}
