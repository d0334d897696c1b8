/** The number-to-string conversions of libc/src/stdlib.c and libc/src/stdio.c, in their buffers. */
module Conversion {
  import opened Arithmetic
  import opened Machine
  import opened Numerals
  import opened Powers

  function Reversed(s: seq<char>): (r: seq<char>)
    ensures |r| == |s| && forall i :: 0 <= i < |s| ==> r[i] == s[|s| - 1 - i]
  {
    if s == [] then [] else Reversed(s[1..]) + [s[0]]
  }

  lemma {:induction false} ReversedAppend(s: seq<char>, c: char)
    ensures Reversed(s + [c]) == [c] + Reversed(s)
  {
    if s == [] {
      assert Reversed([c][1..]) == [];
    } else {
      assert (s + [c])[1..] == s[1..] + [c];
      ReversedAppend(s[1..], c);
    }
  }

  /** `buf` holds the string `s` at `start`, with its terminator. */
  ghost predicate Holds(buf: array<char>, start: nat, s: seq<char>)
    reads buf
  {
    start + |s| < buf.Length && buf[start..start + |s|] == s && buf[start + |s|] == '\0' && '\0' !in s
  }

  /** What is left to write of a numeral when the digits of `v` are still to come. */
  function Rest(v: nat, base: int): seq<char>
    requires Base(base)
  {
    if v == 0 then [] else Numeral(v, base)
  }

  lemma NumeralStep(v: nat, base: int)
    requires Base(base)
    ensures 0 <= v / base && 0 <= v % base < base && (v > 0 ==> v / base < v)
    ensures Numeral(v, base) == Rest(v / base, base) + [Digit(v % base)]
  {
    if v >= base {
      Shrinks(v, base);
    } else {
      DivUnique(v, base, 0, v);
    }
  }

  /** `ud % divisor` as a character, and `ud / divisor` */
  method SplitDigit(ud: nat, base: int) returns (quotient: nat, digit: char)
    requires Base(base)
    ensures Numeral(ud, base) == Rest(quotient, base) + [digit] && (quotient != 0 ==> quotient < ud)
  {
    NumeralStep(ud, base);
    var remainder := ud % base;
    quotient, digit := ud / base, Digit(remainder);
  }

  /** One round of the digit loop. */
  method PutDigit(ud: nat, str: array<char>, start: nat, p: nat, base: int, ghost s: seq<char>) returns (quotient: nat)
    requires Base(base) && start <= p < start + |s| <= str.Length
    requires s == Numeral(ud, base) + Reversed(str[start..p])
    modifies str
    ensures s == Rest(quotient, base) + Reversed(str[start..p + 1])
    ensures quotient != 0 ==> quotient < ud
    ensures str[..start] == old(str[..start])
  {
    var digit;
    quotient, digit := SplitDigit(ud, base);
    ghost var low := str[start..p];
    str[p] := digit;
    assert str[start..p + 1] == low + [digit];
    ReversedAppend(low, digit);
  }

  /** The do-while loop of itoa, _uitoa and _pitoa: digits from the lowest up. */
  method WriteDigits(value: nat, str: array<char>, start: nat, base: int, ghost s: seq<char>) returns (p: nat)
    requires Base(base) && s == Numeral(value, base) && start + |s| <= str.Length
    modifies str
    ensures p == start + |s| && Reversed(str[start..p]) == s && str[..start] == old(str[..start])
  {
    p := start;
    var ud: nat := value;
    var more := true;
    while more
      invariant start <= p <= start + |s| && str[..start] == old(str[..start])
      invariant s == (if more then Numeral(ud, base) else []) + Reversed(str[start..p])
      decreases more, ud
    {
      ud := PutDigit(ud, str, start, p, base, s);
      p := p + 1;
      more := ud != 0;
    }
  }

  /** The common body of itoa, _uitoa and _pitoa: digits, terminator, reversal in place. */
  method WriteNumeral(value: nat, str: array<char>, start: nat, base: int)
    requires Base(base) && value < WORD_LIMIT && start + 33 <= str.Length
    modifies str
    ensures Holds(str, start, Numeral(value, base))
    ensures str[..start] == old(str[..start])
  {
    Pow2Values();
    NumeralLength(value, base, 32);
    var p := WriteDigits(value, str, start, base, Numeral(value, base));
    Finish(str, start, p, Numeral(value, base));
  }

  /** Terminator, and reversal in place. */
  method Finish(str: array<char>, start: nat, p: nat, ghost s: seq<char>)
    requires start < p < str.Length && Reversed(str[start..p]) == s && '\0' !in s
    modifies str
    ensures Holds(str, start, s)
    ensures str[..start] == old(str[..start])
  {
    str[p] := '\0';
    Reverse(str, start, p);
    assert str[p] == str[p..][0];
  }

  method Reverse(str: array<char>, start: nat, end: nat)
    requires start < end <= str.Length
    modifies str
    ensures str[start..end] == Reversed(old(str[start..end]))
    ensures str[..start] == old(str[..start]) && str[end..] == old(str[end..])
  {
    Mirror(str, start, end);
  }

  /** The swapping loop. */
  method Mirror(str: array<char>, start: nat, end: nat)
    requires start < end <= str.Length
    modifies str
    ensures forall k :: 0 <= k < str.Length ==>
      str[k] == if start <= k < end then old(str[start + end - 1 - k]) else old(str[k])
  {
    var p1, p2 := start, end - 1;
    while p1 < p2
      invariant start <= p1 && p2 < end && p1 + p2 == start + end - 1 && p1 <= p2 + 1
      invariant forall k :: 0 <= k < str.Length ==>
        str[k] == if start <= k < p1 || p2 < k < end then old(str[start + end - 1 - k]) else old(str[k])
    {
      var tmp := str[p1];
      str[p1] := str[p2];
      str[p2] := tmp;
      p1 := p1 + 1;
      p2 := p2 - 1;
    }
  }

  /** _uitoa, and _pitoa when `base` is 16 */
  method UIToA(value: nat, str: array<char>, base: int)
    requires Base(base) && value < WORD_LIMIT && 33 <= str.Length
    modifies str
    ensures Holds(str, 0, Numeral(value, base))
  {
    WriteNumeral(value, str, 0, base);
  }

  /** itoa */
  method IToA(value: int, str: array<char>, base: int)
    requires Base(base) && -0x8000_0000 <= value < 0x8000_0000 && 34 <= str.Length
    modifies str
    ensures Holds(str, 0, Signed(value, base))
  {
    var start, ud := 0, value % WORD_LIMIT;
    if base == 10 && value < 0 {
      str[0] := '-';
      start := 1;
      ud := -value;
    }
    WriteNumeral(ud, str, start, base);
    if start == 1 {
      assert str[0] == str[..1][0];
      assert str[0..1 + |Numeral(ud, base)|] == ['-'] + str[1..1 + |Numeral(ud, base)|];
    }
  }
}
