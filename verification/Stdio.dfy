/** printf and its helpers (libc/src/stdio.c). */
module Stdio {
  import opened Conversion
  import opened Machine
  import opened Numerals

  /** A variadic argument, as the conversion reads it. */
  datatype Arg =
    | Int(i: int)            // d, i and c
    | Unsigned(u: nat)       // u, x and X
    | Pointer(p: nat)        // p
    | String(s: seq<char>)   // s, without its terminator

  function ToUpper(c: char): char {
    if 'a' <= c <= 'z' then c - 32 as char else c
  }

  function Upper(s: seq<char>): (r: seq<char>)
    ensures |r| == |s| && forall i :: 0 <= i < |s| ==> r[i] == ToUpper(s[i])
  {
    if s == [] then [] else Upper(s[..|s| - 1]) + [ToUpper(s[|s| - 1])]
  }

  /** The conversions that take an argument. */
  predicate Converts(c: char) {
    c in {'d', 'i', 'u', 'x', 'X', 'p', 's', 'c'}
  }

  /** The argument is of the type and width the conversion reads. */
  predicate Fits(c: char, a: Arg) {
    match c
    case 'd' => a.Int? && -0x8000_0000 <= a.i < 0x8000_0000
    case 'i' => a.Int? && -0x8000_0000 <= a.i < 0x8000_0000
    case 'c' => a.Int? && -0x8000_0000 <= a.i < 0x8000_0000
    case 'u' => a.Unsigned? && a.u < WORD_LIMIT
    case 'x' => a.Unsigned? && a.u < WORD_LIMIT
    case 'X' => a.Unsigned? && a.u < WORD_LIMIT
    case 'p' => a.Pointer? && a.p < WORD_LIMIT
    case 's' => a.String? && '\0' !in a.s
    case _ => false
  }

  /** What a conversion prints. */
  function Converted(c: char, a: Arg): seq<char>
    requires Fits(c, a)
  {
    match c
    case 'd' => Signed(a.i, 10)
    case 'i' => Signed(a.i, 10)
    case 'c' => [(a.i % 256) as char]
    case 'u' => Numeral(a.u, 10)
    case 'x' => Numeral(a.u, 16)
    case 'X' => Upper(Numeral(a.u, 16))
    case 'p' => Numeral(a.p, 16)
    case 's' => a.s
  }

  /** The value of a digit for a reader of upper-case numerals; -1 for anything else. */
  function UpperValue(c: char): int {
    if '0' <= c <= '9' then (c - '0') as int
    else if 'A' <= c <= 'Z' then (c - 'A') as int + 10
    else -1
  }

  function ParseUpper(s: seq<char>, base: int): int {
    if s == [] then 0 else ParseUpper(s[..|s| - 1], base) * base + UpperValue(s[|s| - 1])
  }

  lemma {:induction false} UpperReadsBack(s: seq<char>, base: int)
    requires forall i :: 0 <= i < |s| ==> Value(s[i]) >= 0
    ensures ParseUpper(Upper(s), base) == Parse(s, base)
    ensures forall i :: 0 <= i < |s| ==> UpperValue(Upper(s)[i]) == Value(s[i])
  {
    if s == [] {
    } else {
      var n := |s| - 1;
      UpperReadsBack(s[..n], base);
      assert Upper(s)[..n] == Upper(s[..n]);
    }
  }

  /** What a reader makes of each conversion. Numbers come without leading zeros. */
  lemma ConversionReadsBack(c: char, a: Arg)
    requires Fits(c, a)
    ensures c in {'d', 'i', 'u', 'x', 'X', 'p', 's', 'c'}
    ensures var s := Converted(c, a);
      && (c in {'d', 'i'} ==> ParseSigned(s, 10) == a.i && Canonical(Digits(s), 10))
      && (c == 'u' ==> Parse(s, 10) == a.u && Canonical(s, 10))
      && (c == 'x' ==> Parse(s, 16) == a.u && Canonical(s, 16))
      && (c == 'p' ==> Parse(s, 16) == a.p && Canonical(s, 16))
      && (c == 'X' ==>
            && ParseUpper(s, 16) == a.u && (forall i :: 0 <= i < |s| ==> 0 <= UpperValue(s[i]) < 16)
            && (s[0] == '0' ==> |s| == 1))
      && (c == 's' ==> s == a.s)
      && (c == 'c' ==> |s| == 1 && s[0] as int == a.i % 256)
  {
    match a
    case Int(i) => SignedReadsBack(i, 10);
    case Unsigned(u) =>
      NumeralReadsBack(u, 10);
      NumeralReadsBack(u, 16);
      UpperReadsBack(Numeral(u, 16), 16);
    case Pointer(p) => NumeralReadsBack(p, 16);
    case String(_) =>
  }

  /** The arguments match the conversions of the format. */
  predicate Matches(format: seq<char>, args: seq<Arg>)
    decreases |format|
  {
    if format == [] then true
    else if format[0] != '%' then Matches(format[1..], args)
    else if |format| == 1 then true
    else if Converts(format[1]) then args != [] && Fits(format[1], args[0]) && Matches(format[2..], args[1..])
    else Matches(format[2..], args)
  }

  /** The text that a format and its arguments describe. A conversion nobody knows prints nothing. */
  function Rendering(format: seq<char>, args: seq<Arg>): seq<char>
    requires Matches(format, args)
    decreases |format|
  {
    if format == [] then []
    else if format[0] != '%' then [format[0]] + Rendering(format[1..], args)
    else if |format| == 1 then []
    else if Converts(format[1]) then Converted(format[1], args[0]) + Rendering(format[2..], args[1..])
    else Rendering(format[2..], args)
  }

  /** How many characters of the format stand for themselves. */
  function Literals(format: seq<char>): nat
    decreases |format|
  {
    if format == [] then 0
    else if format[0] != '%' then 1 + Literals(format[1..])
    else if |format| == 1 then 0
    else Literals(format[2..])
  }

  /** How many arguments a format takes. */
  function Arguments(format: seq<char>): nat
    decreases |format|
  {
    if format == [] then 0
    else if format[0] != '%' then Arguments(format[1..])
    else if |format| == 1 then 0
    else Arguments(format[2..]) + if Converts(format[1]) then 1 else 0
  }

  /** A rendering is that of the parts of its format, one after the other. */
  lemma {:induction false} RenderingOfParts(f: seq<char>, g: seq<char>, args: seq<Arg>)
    requires !EndsLone(f) && Matches(f + g, args)
    ensures var n := Arguments(f);
      && n <= |args| && Matches(f, args[..n]) && Matches(g, args[n..])
      && Rendering(f + g, args) == Rendering(f, args[..n]) + Rendering(g, args[n..])
    decreases |f|
  {
    if f == [] {
      assert f + g == g && args[0..] == args;
    } else {
      var k := if f[0] != '%' then 1 else 2;
      assert (f + g)[k..] == f[k..] + g;
      if f[0] == '%' && Converts(f[1]) {
        RenderingOfParts(f[k..], g, args[1..]);
        var n := Arguments(f);
        assert args[1..][..n - 1] == args[..n][1..] && args[1..][n - 1..] == args[n..];
      } else {
        RenderingOfParts(f[k..], g, args);
      }
    }
  }

  /** The parts: a character stands for itself, a conversion for its argument, an unknown conversion for nothing. */
  lemma RenderingOfPart(c: char, a: Arg)
    ensures c != '%' ==> Matches([c], []) && Rendering([c], []) == [c]
    ensures Fits(c, a) ==> Matches(['%', c], [a]) && Rendering(['%', c], [a]) == Converted(c, a)
    ensures c !in {'d', 'i', 'u', 'x', 'X', 'p', 's', 'c'} ==> Matches(['%', c], []) && Rendering(['%', c], []) == []
  {
    assert [c][1..] == [] && ['%', c][2..] == [] && [a][1..] == [];
  }

  /** The format ends in a `%` that no conversion character follows. */
  predicate EndsLone(format: seq<char>)
    decreases |format|
  {
    if format == [] then false
    else if format[0] != '%' then EndsLone(format[1..])
    else if |format| == 1 then true
    else EndsLone(format[2..])
  }

  function TrailingPercents(format: seq<char>): (n: nat)
    ensures n <= |format| && forall i :: |format| - n <= i < |format| ==> format[i] == '%'
    ensures n < |format| ==> format[|format| - 1 - n] != '%'
  {
    if format == [] || format[|format| - 1] != '%' then 0 else 1 + TrailingPercents(format[..|format| - 1])
  }

  /** A caller can see it from the end: the run of `%` there has odd length. */
  lemma {:induction false} LoneIffOdd(format: seq<char>)
    ensures EndsLone(format) <==> TrailingPercents(format) % 2 == 1
    decreases |format|
  {
    if format == [] {
    } else {
      var k := if format[0] != '%' || |format| == 1 then 1 else 2;
      LoneIffOdd(format[k..]);
      TrailingOfSuffix(format, k);
    }
  }

  /** Dropping the front matters only when all the rest is percent signs. */
  lemma {:induction false} TrailingOfSuffix(format: seq<char>, k: nat)
    requires k <= |format|
    ensures TrailingPercents(format[k..]) ==
      if TrailingPercents(format) <= |format| - k then TrailingPercents(format) else |format| - k
  {
    if k == |format| || format[|format| - 1] != '%' {
    } else {
      var n := |format| - 1;
      TrailingOfSuffix(format[..n], k);
      assert format[k..][..n - k] == format[..n][k..];
    }
  }

  /** printf reads past the first of these formats, and not past the second. */
  lemma LonePercentAtInput()
    ensures Matches("100%", []) && EndsLone("100%") && !EndsLone("100%%")
  {
    var format, escaped := "100%", "100%%";
    assert format[1..] == "00%" && "00%"[1..] == "0%" && "0%"[1..] == "%";
    assert escaped[1..] == "00%%" && "00%%"[1..] == "0%%" && "0%%"[1..] == "%%" && "%%"[2..] == "";
  }

  /** Of the three characters that this format prints, printf counts one; ISO C asks for all. */
  lemma LiteralsAtInput()
    ensures Matches("x=%u", [Unsigned(7)]) && Rendering("x=%u", [Unsigned(7)]) == "x=7" && Literals("x=%u") == 2
  {
    var format, args := "x=%u", [Unsigned(7)];
    assert format[1..] == "=%u" && "=%u"[1..] == "%u" && "%u"[2..] == "" && args[1..] == [];
    assert Numeral(7, 10) == ['7'];
    assert Rendering("%u", args) == ['7'] + Rendering("", []);
    assert Rendering("=%u", args) == ['='] + Rendering("%u", args);
    assert Rendering(format, args) == ['x'] + Rendering("=%u", args);
  }

  /** Every literal is printed, so printf never returns more than it printed, and never less than 0. */
  lemma {:induction false} LiteralsAreRendered(format: seq<char>, args: seq<Arg>)
    requires Matches(format, args)
    ensures Literals(format) <= |Rendering(format, args)|
    decreases |format|
  {
    if format == [] || (format[0] == '%' && |format| == 1) {
    } else if format[0] != '%' {
      LiteralsAreRendered(format[1..], args);
    } else if Converts(format[1]) {
      LiteralsAreRendered(format[2..], args[1..]);
    } else {
      LiteralsAreRendered(format[2..], args);
    }
  }

  datatype Result = Printed(characters: int) | Overrun

  class Output {
    var out: seq<char>      // what putchar received

    constructor ()
      ensures out == []
    {
      out := [];
    }

    method PutChar(c: char)
      modifies this
      ensures out == old(out) + [c]
    {
      out := out + [c];
    }

    /** _puts, reading up to the terminator */
    method PutString(str: array<char>, ghost s: seq<char>) returns (characters: int)
      requires Holds(str, 0, s)
      modifies this
      ensures out == old(out) + s && characters == |s|
    {
      assert forall k :: 0 <= k < |s| ==> s[k] == str[0..|s|][k];
      characters := 0;
      var i := 0;
      while str[i] != '\0'
        invariant 0 <= i <= |s| && characters == i && out == old(out) + s[..i]
        decreases |s| - i
      {
        PutChar(str[i]);
        characters := characters + 1;
        i := i + 1;
      }
      assert s[..i] == s;
    }

    /** _uputs */
    method PutUpper(str: array<char>, ghost s: seq<char>) returns (characters: int)
      requires Holds(str, 0, s)
      modifies this
      ensures out == old(out) + Upper(s) && characters == |s|
    {
      assert forall k :: 0 <= k < |s| ==> s[k] == str[0..|s|][k];
      characters := 0;
      var i := 0;
      while str[i] != '\0'
        invariant 0 <= i <= |s| && characters == i && out == old(out) + Upper(s[..i])
        decreases |s| - i
      {
        PutChar(ToUpper(str[i]));
        assert s[..i + 1][..i] == s[..i];
        characters := characters + 1;
        i := i + 1;
      }
      assert s[..i] == s;
    }

    /** The `%s` branch: the argument is a string elsewhere in memory. */
    method PutText(s: seq<char>) returns (characters: int)
      modifies this
      ensures out == old(out) + s && characters == |s|
    {
      characters := 0;
      while characters < |s|
        invariant 0 <= characters <= |s| && out == old(out) + s[..characters]
      {
        PutChar(s[characters]);
        characters := characters + 1;
      }
      assert s[..characters] == s;
    }

    /** One conversion of printf, through its buffer. */
    method Convert(c: char, a: Arg) returns (characters: int)
      requires Fits(c, a)
      modifies this
      ensures out == old(out) + Converted(c, a) && characters == |Converted(c, a)|
    {
      var buf := new char[128];
      match c {
        case 'd' | 'i' =>
          IToA(a.i, buf, 10);
          characters := PutString(buf, Signed(a.i, 10));
        case 'u' =>
          UIToA(a.u, buf, 10);
          characters := PutString(buf, Numeral(a.u, 10));
        case 'x' =>
          UIToA(a.u, buf, 16);
          characters := PutString(buf, Numeral(a.u, 16));
        case 'X' =>
          UIToA(a.u, buf, 16);
          characters := PutUpper(buf, Numeral(a.u, 16));
        case 'p' =>
          UIToA(a.p, buf, 16);
          characters := PutString(buf, Numeral(a.p, 16));
        case 's' =>
          characters := PutText(a.s);
        case 'c' =>
          PutChar((a.i % 256) as char);
          characters := 1;
      }
    }

    /** printf: prints the rendering, but counts only what its conversions print. */
    method Printf(format: seq<char>, args: seq<Arg>) returns (r: Result)
      requires '\0' !in format && Matches(format, args)
      modifies this
      ensures out == old(out) + Rendering(format, args)
      ensures r == Overrun <==> EndsLone(format)
      ensures r.Printed? ==> r.characters == |Rendering(format, args)| - Literals(format)
    {
      var characters := 0;
      var i, next := 0, 0;
      while i < |format|
        invariant 0 <= i <= |format| && 0 <= next <= |args| && Matches(format[i..], args[next..])
        invariant out + Rendering(format[i..], args[next..]) == old(out) + Rendering(format, args)
        invariant characters + |Rendering(format[i..], args[next..])| - Literals(format[i..]) ==
                  |Rendering(format, args)| - Literals(format)
        invariant EndsLone(format[i..]) <==> EndsLone(format)
      {
        ghost var rest := Rendering(format[i..], args[next..]);
        assert format[i..][1..] == format[i + 1..];
        if format[i] == '%' {
          i := i + 1;
          if i == |format| {
            // The switch reads the terminator and finds no conversion; the loop then steps past it.
            return Overrun;
          }
          assert format[i - 1..][2..] == format[i + 1..];
          if Converts(format[i]) {
            assert args[next..][1..] == args[next + 1..];
            var n := Convert(format[i], args[next]);
            characters := characters + n;
            next := next + 1;
          }
        } else {
          PutChar(format[i]);
        }
        i := i + 1;
      }
      r := Printed(characters);
    }
  }
}
