/** The unbounded page that a text makes: split at newlines, wrapped at the width. */
module Page {
  import opened Arithmetic

  /** A character (signed, as in C) and its colour. */
  datatype Glyph = Glyph(c: int, color: int)

  type Row = seq<int>

  const NEWLINE := 10
  const DEFAULT_COLOR := 7
  const BLANK := 1824                 // VgaEntry(' ', DEFAULT_COLOR)

  /** VGA_ENTRY: a negative character fills the colour byte with its sign. */
  function VgaEntry(c: int, color: int): int {
    if c >= 0 then c + 256 * color else 0x1_0000 + c
  }

  /** A cell holds the character in its low byte and the colour in its high byte, which the sign of a negative
      character fills. */
  lemma CellBytes(c: int, color: int)
    requires -128 <= c < 128 && 0 <= color < 256
    ensures VgaEntry(c, color) % 256 == c % 256
    ensures VgaEntry(c, color) / 256 == if c < 0 then 255 else color
    ensures BLANK == VgaEntry(' ' as int, DEFAULT_COLOR) == 0x0720 && NEWLINE == '\n' as int
  {
  }

  /** What one more character does to the lines of a text. */
  function AddToLines(lines: seq<Row>, g: Glyph): (more: seq<Row>)
    requires lines != []
    ensures more != []
  {
    var n := |lines| - 1;
    if g.c == NEWLINE then lines + [[]] else lines[..n] + [lines[n] + [VgaEntry(g.c, g.color)]]
  }

  /** The lines of a text: one more than it has newlines. */
  function Lines(text: seq<Glyph>): (lines: seq<Row>)
    ensures lines != []
  {
    if text == [] then [[]] else AddToLines(Lines(text[..|text| - 1]), text[|text| - 1])
  }

  /** A line cut into rows of `width` cells and a shorter last one, empty if the line came out even. */
  function Wrap(line: Row, width: nat): (rows: seq<Row>)
    requires width > 0
    ensures |rows| > 0
  {
    if |line| < width then [line] else [line[..width]] + Wrap(line[width..], width)
  }

  /** The rows of a whole page. */
  function Rows(lines: seq<Row>, width: nat): seq<Row>
    requires width > 0
  {
    if lines == [] then [] else Rows(lines[..|lines| - 1], width) + Wrap(lines[|lines| - 1], width)
  }

  function PageOf(text: seq<Glyph>, width: nat): seq<Row>
    requires width > 0
  {
    Rows(Lines(text), width)
  }

  /** What one more character does to the rows of a page. */
  function Append(rows: seq<Row>, g: Glyph, width: nat): seq<Row>
    requires rows != [] && width > 0
  {
    var n := |rows| - 1;
    if g.c == NEWLINE then rows + [[]]
    else
      var last := rows[n] + [VgaEntry(g.c, g.color)];
      if |last| < width then rows[..n] + [last] else rows[..n] + [last, []]
  }

  ghost predicate Regular(rows: seq<Row>, width: nat) {
    && rows != [] && |rows[|rows| - 1]| < width
    && forall i :: 0 <= i < |rows| ==> |rows[i]| <= width
  }

  lemma {:induction false} WrapRegular(line: Row, width: nat)
    requires width > 0
    ensures Regular(Wrap(line, width), width)
    ensures |Wrap(line, width)| == |line| / width + 1
    ensures var rows := Wrap(line, width); |rows[|rows| - 1]| == |line| % width
  {
    if |line| < width {
      DivUnique(|line|, width, 0, |line|);
    } else {
      WrapRegular(line[width..], width);
      DivStep(|line|, width);
      RegularCons(line[..width], Wrap(line[width..], width), width);
    }
  }

  lemma RegularCons(row: Row, rows: seq<Row>, width: nat)
    requires Regular(rows, width) && |row| <= width
    ensures Regular([row] + rows, width) && ([row] + rows)[|rows|] == rows[|rows| - 1]
  {
  }

  lemma {:induction false} WrapAppend(line: Row, g: Glyph, width: nat)
    requires width > 0 && g.c != NEWLINE
    ensures Wrap(line + [VgaEntry(g.c, g.color)], width) == Append(Wrap(line, width), g, width)
  {
    var e := VgaEntry(g.c, g.color);
    if |line| >= width {
      WrapAppend(line[width..], g, width);
      assert (line + [e])[..width] == line[..width] && (line + [e])[width..] == line[width..] + [e];
      AppendPrefix([line[..width]], Wrap(line[width..], width), g, width);
    } else if |line| + 1 == width {
      assert (line + [e])[..width] == line + [e] && (line + [e])[width..] == [];
    }
  }

  lemma AppendPrefix(p: seq<Row>, rows: seq<Row>, g: Glyph, width: nat)
    requires rows != [] && width > 0
    ensures Append(p + rows, g, width) == p + Append(rows, g, width)
  {
    var n := |rows| - 1;
    assert (p + rows)[|p| + n] == rows[n];
    assert (p + rows)[..|p| + n] == p + rows[..n];
  }

  lemma PageRegular(text: seq<Glyph>, width: nat)
    requires width > 0
    ensures Regular(PageOf(text, width), width)
  {
    RowsRegular(Lines(text), width);
  }

  lemma {:induction false} RowsRegular(lines: seq<Row>, width: nat)
    requires width > 0
    ensures lines != [] ==> Regular(Rows(lines, width), width)
    ensures forall r :: r in Rows(lines, width) ==> |r| <= width
  {
    if lines == [] {
    } else {
      RowsRegular(lines[..|lines| - 1], width);
      WrapRegular(lines[|lines| - 1], width);
    }
  }

  /** Writing a character at the end of a text is Append on its page. */
  lemma PageAppend(text: seq<Glyph>, g: Glyph, width: nat)
    requires width > 0
    ensures PageOf(text, width) != []
    ensures PageOf(text + [g], width) == Append(PageOf(text, width), g, width)
  {
    PageRegular(text, width);
    var before, after := Lines(text), Lines(text + [g]);
    var n := |before| - 1;
    assert (text + [g])[..|text|] == text;
    var head := Rows(before[..n], width);
    if g.c == NEWLINE {
      assert after[..n + 1] == before;
    } else {
      assert after[..n] == before[..n];
      WrapAppend(before[n], g, width);
      AppendPrefix(head, Wrap(before[n], width), g, width);
    }
  }

  function LineRows(lines: seq<Row>, width: nat): nat
    requires width > 0
  {
    if lines == [] then 0 else LineRows(lines[..|lines| - 1], width) + |lines[|lines| - 1]| / width
  }

  /** The cursor in closed form: the column is the last line's length mod the width, and above its row are
      one row per newline and one per full width in each line. */
  lemma {:induction false} PageSize(lines: seq<Row>, width: nat)
    requires width > 0
    ensures |Rows(lines, width)| == |lines| + LineRows(lines, width)
    ensures lines != [] ==> var rows := Rows(lines, width);
      rows != [] && |rows[|rows| - 1]| == |lines[|lines| - 1]| % width
  {
    if lines == [] {
    } else {
      PageSize(lines[..|lines| - 1], width);
      WrapRegular(lines[|lines| - 1], width);
    }
  }

  lemma EmptyPage(width: nat)
    requires width > 0
    ensures PageOf([], width) == [[]]
  {
    var lines: seq<Row> := [[]];
    assert Lines([]) == lines && lines[..0] == [];
    assert Rows(lines, width) == Rows(lines[..0], width) + Wrap(lines[0], width);
  }

  lemma AddToLinesPrefix(p: seq<Row>, q: seq<Row>, g: Glyph)
    requires q != []
    ensures AddToLines(p + q, g) == p + AddToLines(q, g)
  {
    var n := |q| - 1;
    assert (p + q)[|p| + n] == q[n] && (p + q)[..|p| + n] == p + q[..n];
  }

  /** Lines are what the newlines separate ... */
  lemma {:induction false} LinesSplit(a: seq<Glyph>, g: Glyph, b: seq<Glyph>)
    requires g.c == NEWLINE
    ensures Lines(a + [g] + b) == Lines(a) + Lines(b)
    decreases |b|
  {
    var text := a + [g] + b;
    if b == [] {
      assert text == a + [g] && text[..|text| - 1] == a;
    } else {
      var m := |b| - 1;
      assert text[..|text| - 1] == a + [g] + b[..m];
      LinesSplit(a, g, b[..m]);
      AddToLinesPrefix(Lines(a), Lines(b[..m]), b[m]);
    }
  }

  function Entries(text: seq<Glyph>): (row: Row)
    ensures |row| == |text| && forall i :: 0 <= i < |text| ==> row[i] == VgaEntry(text[i].c, text[i].color)
  {
    if text == [] then []
    else Entries(text[..|text| - 1]) + [VgaEntry(text[|text| - 1].c, text[|text| - 1].color)]
  }

  /** ... and a text without newlines is one line, cell by cell. */
  lemma {:induction false} OneLine(text: seq<Glyph>)
    requires forall i :: 0 <= i < |text| ==> text[i].c != NEWLINE
    ensures Lines(text) == [Entries(text)]
  {
    if text == [] {
    } else {
      OneLine(text[..|text| - 1]);
    }
  }

  function Newlines(text: seq<Glyph>): nat {
    if text == [] then 0
    else Newlines(text[..|text| - 1]) + if text[|text| - 1].c == NEWLINE then 1 else 0
  }

  lemma {:induction false} LineCount(text: seq<Glyph>)
    ensures |Lines(text)| == Newlines(text) + 1
  {
    if text == [] {
    } else {
      LineCount(text[..|text| - 1]);
    }
  }
}
