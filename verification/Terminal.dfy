/** The scrolling EGA text terminal (kernel/src/terminal.c). */
module Terminal {
  import opened Arithmetic
  import opened Page

  lemma CellsApart(width: nat, y: nat, x: nat, v: nat, u: nat)
    requires x < width && u < width
    ensures y * width + x == v * width + u ==> y == v && x == u
    ensures y < v ==> y * width + x < v * width + u
  {
    if y < v {
      assert v * width >= (y + 1) * width;
    } else if v < y {
      assert y * width >= (v + 1) * width;
    }
  }

  class Screen {
    const width: nat
    const height: nat
    const buffer: array<int>
    var x: nat
    var y: nat

    ghost predicate Sized() {
      0 < width && 0 < height && buffer.Length == height * width
    }

    lemma InBuffer(row: nat, col: nat)
      requires Sized() && row < height && col < width
      ensures row * width + col < buffer.Length
    {
      CellsApart(width, row, col, height, 0);
    }

    /** The cell at column `col` of row `row`. */
    ghost function At(row: nat, col: nat): int
      requires Sized()
      reads buffer
    {
      if row < height && col < width then
        InBuffer(row, col);
        buffer[row * width + col]
      else BLANK
    }

    /** terminal_initialize, before its messages: a blank screen with the cursor at the top left. */
    constructor (width: nat, height: nat)
      requires 0 < width && 0 < height
      ensures Sized() && fresh(buffer) && this.width == width && this.height == height
      ensures Shows(PageOf([], width))
    {
      this.width, this.height, x, y := width, height, 0, 0;
      buffer := new int[height * width](_ => BLANK);
      new;
      EmptyPage(width);
      forall r, c | 0 <= r < height && 0 <= c < width ensures At(r, c) == BLANK {
        InBuffer(r, c);
      }
    }

    /** The first row of a page that the screen still shows. */
    function Top(rows: seq<Row>): nat {
      if |rows| > height then |rows| - height else 0
    }

    /** The cells show the last rows of a page, and blanks after them. */
    ghost predicate Cells(rows: seq<Row>)
      requires Sized()
      reads buffer
    {
      && (forall i :: 0 <= i < |rows| ==> |rows[i]| <= width)
      && forall r, c {:trigger At(r, c)} :: 0 <= r < height && 0 <= c < width ==>
        At(r, c) == CellOf(rows, Top(rows) + r, c)
    }

    /** ... with the cursor behind the last cell. */
    ghost predicate Shows(rows: seq<Row>)
      requires Sized()
      reads this, buffer
    {
      && Cells(rows) && Regular(rows, width)
      && x == |rows[|rows| - 1]| && y == |rows| - 1 - Top(rows)
    }

    function CellOf(rows: seq<Row>, row: nat, col: nat): int {
      if row < |rows| && col < |rows[row]| then rows[row][col] else BLANK
    }

    /** terminal_putentryat */
    method PutEntryAt(entry: int, col: nat, row: nat)
      requires Sized() && row < height && col < width
      modifies buffer
      ensures 0 <= row * width + col < buffer.Length
      ensures forall k :: 0 <= k < buffer.Length ==>
        buffer[k] == if k == row * width + col then entry else old(buffer[k])
      ensures forall r, c {:trigger At(r, c)} :: 0 <= r < height && 0 <= c < width ==>
        At(r, c) == if r == row && c == col then entry else old(At(r, c))
    {
      InBuffer(row, col);
      buffer[row * width + col] := entry;
      forall r, c | 0 <= r < height && 0 <= c < width
        ensures At(r, c) == if r == row && c == col then entry else old(At(r, c)) {
        CellsApart(width, r, c, row, col);
      }
    }

    /** memcpy of one row to the row above it. */
    method CopyRowUp(row: nat)
      requires Sized() && 0 < row < height
      modifies buffer
      ensures forall r, c {:trigger At(r, c)} :: 0 <= r < height && 0 <= c < width ==>
        At(r, c) == if r == row - 1 then old(At(row, c)) else old(At(r, c))
    {
      var col := 0;
      while col < width
        invariant 0 <= col <= width
        invariant forall r, c {:trigger At(r, c)} :: 0 <= r < height && 0 <= c < width ==>
          At(r, c) == if r == row - 1 && c < col then old(At(row, c)) else old(At(r, c))
      {
        InBuffer(row, col);
        assert At(row, col) == old(At(row, col));
        PutEntryAt(buffer[row * width + col], col, row - 1);
        col := col + 1;
      }
    }

    /** terminal_scrolldown */
    method ScrollDown()
      requires Sized()
      modifies this`x, buffer
      ensures x == 0
      ensures forall r, c {:trigger At(r, c)} :: 0 <= r < height && 0 <= c < width ==>
        At(r, c) == if r < height - 1 then old(At(r + 1, c)) else BLANK
    {
      var row := 1;
      while row < height
        invariant 1 <= row <= height
        invariant forall r, c {:trigger At(r, c)} :: 0 <= r < height && 0 <= c < width ==>
          At(r, c) == if r < row - 1 then old(At(r + 1, c)) else old(At(r, c))
      {
        CopyRowUp(row);
        row := row + 1;
      }
      var col := 0;
      while col < width
        invariant 0 <= col <= width
        invariant forall r, c {:trigger At(r, c)} :: 0 <= r < height && 0 <= c < width ==>
          At(r, c) == if r < height - 1 then old(At(r + 1, c)) else if c < col then BLANK else old(At(r, c))
      {
        PutEntryAt(BLANK, col, height - 1);
        col := col + 1;
      }
      x := 0;
    }

    /** The cursor goes to the start of the next row, scrolling when there is none. */
    method NextRow()
      requires Sized() && y < height
      modifies this, buffer
      ensures x == 0 && y == if old(y) + 1 < height then old(y) + 1 else old(y)
      ensures forall r, c {:trigger At(r, c)} :: 0 <= r < height && 0 <= c < width ==>
        At(r, c) == if old(y) + 1 < height then old(At(r, c)) else if r < height - 1 then old(At(r + 1, c)) else BLANK
    {
      x := 0;
      y := y + 1;
      if y >= height {
        y := y - 1;
        ScrollDown();
      }
    }

    /** A new row at the end of the page. */
    method StartRow(ghost rows: seq<Row>)
      requires Sized() && rows != [] && Cells(rows) && y == |rows| - 1 - Top(rows)
      modifies this, buffer
      ensures Shows(rows + [[]])
    {
      NextRow();
    }

    /** A cell more in the last row of the page. */
    method ExtendRow(entry: int, ghost rows: seq<Row>) returns (ghost longer: seq<Row>)
      requires Sized() && Shows(rows)
      modifies buffer
      ensures longer == rows[..|rows| - 1] + [rows[|rows| - 1] + [entry]] && Cells(longer)
    {
      longer := rows[..|rows| - 1] + [rows[|rows| - 1] + [entry]];
      PutEntryAt(entry, x, y);
    }

    /** terminal_putchar: the screen goes from one page to the page with one more character. */
    method PutChar(g: Glyph, ghost rows: seq<Row>)
      requires Sized() && Shows(rows)
      modifies this, buffer
      ensures Shows(Append(rows, g, width))
    {
      if g.c == NEWLINE {
        StartRow(rows);
        return;
      }
      ghost var longer := ExtendRow(VgaEntry(g.c, g.color), rows);
      x := x + 1;
      if x >= width {
        assert Append(rows, g, width) == longer + [[]];
        StartRow(longer);
      }
    }

    /** terminal_write */
    method Write(data: seq<int>, color: int, ghost text: seq<Glyph>)
      requires Sized() && Shows(PageOf(text, width))
      modifies this, buffer
      ensures Shows(PageOf(text + Colored(data, color), width))
    {
      var i := 0;
      assert text + Colored(data[..0], color) == text;
      while i < |data|
        invariant 0 <= i <= |data|
        invariant Shows(PageOf(text + Colored(data[..i], color), width))
      {
        ghost var before := text + Colored(data[..i], color);
        PageAppend(before, Glyph(data[i], color), width);
        PutChar(Glyph(data[i], color), PageOf(before, width));
        assert text + Colored(data[..i + 1], color) == before + [Glyph(data[i], color)];
        i := i + 1;
      }
      assert data[..i] == data;
    }
  }

  /** After any text from a blank screen: the cells are the last rows of its page, and the cursor is where
      the newlines and the lengths of the lines put it. */
  lemma ScreenOfText(s: Screen, text: seq<Glyph>)
    requires s.Sized() && s.Shows(PageOf(text, s.width))
    ensures var lines := Lines(text); var page := PageOf(text, s.width);
      && |page| == Newlines(text) + LineRows(lines, s.width) + 1
      && s.x == |lines[|lines| - 1]| % s.width
      && s.y == Min(s.height - 1, Newlines(text) + LineRows(lines, s.width))
      && forall r, c :: 0 <= r < s.height && 0 <= c < s.width ==>
           s.At(r, c) == s.CellOf(page, Max(0, |page| - s.height) + r, c)
  {
    PageSize(Lines(text), s.width);
    LineCount(text);
  }

  /** The same for the words of the buffer: row by row the last rows of the page, and else blanks. */
  lemma BufferOfText(s: Screen, text: seq<Glyph>, k: int)
    requires s.Sized() && s.Shows(PageOf(text, s.width)) && 0 <= k < s.buffer.Length
    ensures var page := PageOf(text, s.width);
      var r, c := Max(0, |page| - s.height) + k / s.width, k % s.width;
      s.buffer[k] == if r < |page| && c < |page[r]| then page[r][c] else 0x0720
  {
    CellIndex(k, s.width, s.height);
    assert s.buffer[k] == s.At(k / s.width, k % s.width);
  }

  lemma CellIndex(k: int, width: nat, height: nat)
    requires 0 < width && 0 <= k < height * width
    ensures 0 <= k / width < height && 0 <= k % width < width && k / width * width + k % width == k
  {
    var q, r := k / width, k % width;
    assert k == width * q + r;
    assert q >= height ==> width * q >= width * height;
  }

  function Colored(data: seq<int>, color: int): (text: seq<Glyph>)
    ensures |text| == |data| && forall i :: 0 <= i < |data| ==> text[i] == Glyph(data[i], color)
  {
    seq(|data|, i requires 0 <= i < |data| => Glyph(data[i], color))
  }
}
