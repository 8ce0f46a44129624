/** The text screen of drivers/vga.c: the video memory, the cursor and the scrollback lines. */
module Vga {
  import opened Viewport
  import opened Terminal
  import GrowArray

  const CELLS: nat := HEIGHT * WIDTH

  function Row(s: seq<Cell>, i: nat): Line
    requires |s| == CELLS && i < HEIGHT
  {
    s[WIDTH * i..WIDTH * i + WIDTH]
  }

  function Rows(s: seq<Cell>): (t: seq<Line>)
    requires |s| == CELLS
    ensures |t| == HEIGHT && forall i {:trigger t[i]} :: 0 <= i < HEIGHT ==> t[i] == Row(s, i)
  {
    seq(HEIGHT, i requires 0 <= i < HEIGHT => Row(s, i))
  }

  /** The cells of one row replaced. */
  lemma RowWritten(b: seq<Cell>, b': seq<Cell>, i: nat, row: Line)
    requires |b| == |b'| == CELLS && i < HEIGHT
    requires forall j {:trigger row[j]} :: 0 <= j < WIDTH ==> b'[i * WIDTH + j] == row[j]
    requires forall k :: 0 <= k < CELLS && !(i * WIDTH <= k < i * WIDTH + WIDTH) ==> b'[k] == b[k]
    ensures Rows(b') == Rows(b)[i := row]
  {
    forall j | 0 <= j < WIDTH
      ensures Row(b', i)[j] == row[j]
    {
    }
    assert Row(b', i) == row;
    forall k | 0 <= k < HEIGHT && k != i
      ensures Row(b', k) == Row(b, k)
    {
      assert k < i || k >= i + 1;
    }
  }

  ghost predicate AreLines(stored: seq<array<Cell>>) {
    && (forall r :: 0 <= r < |stored| ==> stored[r].Length == WIDTH)
    && (forall r, q :: 0 <= r < q < |stored| ==> stored[r] != stored[q])
  }

  ghost function Texts(stored: seq<array<Cell>>): (t: seq<Line>)
    requires AreLines(stored)
    reads stored
    ensures |t| == |stored|
  {
    seq(|stored|, r requires 0 <= r < |stored| reads stored requires AreLines(stored) => stored[r][..])
  }

  /** The lines once i rows are saved. */
  ghost function PartlySaved(v: View, i: nat): seq<Line>
    requires Ok(v) && i <= HEIGHT
  {
    Document(v)[..v.top + i] + v.lines[v.top + i..]
  }

  lemma SavedFromTo(v: View)
    requires Ok(v)
    ensures PartlySaved(v, 0) == v.lines && PartlySaved(v, HEIGHT) == Document(v)
  {
    hide Over, Shown;
    assert Document(v)[..v.top] == v.lines[..v.top];
    assert Document(v)[v.top + HEIGHT..] == v.lines[v.top + HEIGHT..];
  }

  lemma SavedFurther(v: View, i: nat)
    requires Ok(v) && i < HEIGHT
    ensures PartlySaved(v, i)[v.top + i] == v.lines[v.top + i]
    ensures PartlySaved(v, i + 1) == PartlySaved(v, i)[v.top + i := Over(v.rows[i], v.lines[v.top + i], Shown(i))]
  {
    hide Over, Shown;
  }

  class Screen {
    const buf: array<Cell>
    const lines: GrowArray.Array<array?<Cell>>
    var x: nat
    var y: nat
    var color: nat
    var lineNumber: nat
    /** The line buffers in lines, none of them NULL. */
    ghost var stored: seq<array<Cell>>

    ghost predicate Valid()
      reads this, lines, lines.data
    {
      && buf.Length == CELLS && lines.Valid() && lines.Contents() == stored && AreLines(stored) && buf !in stored
      && lineNumber + HEIGHT <= |stored| && x < WIDTH && y < HEIGHT && color < 0x100
    }

    ghost function Footprint(): set<object>
      reads this, lines
    {
      {this, buf, lines, lines.data} + set l | l in stored
    }

    ghost function State(): (t: Term)
      requires Valid()
      reads this, buf, lines, lines.data, stored
      ensures TermOk(t)
    {
      Term(View(Texts(stored), Rows(buf[..]), lineNumber), x, y)
    }

    /** The cell at column j of row i is at 80 * i + j, and row i shows line lineNumber + i. */
    lemma CellAddress(i: nat, j: nat)
      requires Valid() && i < 25 && j < 80
      ensures State().view.rows[i][j] == buf[80 * i + j] && State().view.top == lineNumber
      ensures lineNumber + i < |lines.Contents()| && lines.Contents()[lineNumber + i] == stored[lineNumber + i]
      ensures State().view.lines[lineNumber + i] == stored[lineNumber + i][..]
    {
    }

    /** vga_init and vga_dynamic_init; what the fresh line buffers hold is arbitrary. */
    constructor (c: nat)
      requires c < 0x100
      ensures Valid() && fresh(buf) && fresh(lines) && fresh(lines.data) && fresh(stored) && color == c
      ensures State().x == State().y == State().view.top == 0 && |stored| == HEIGHT
      ensures forall i :: 0 <= i < HEIGHT ==> State().view.rows[i] == BlankLine(c)
      ensures forall k :: 0 <= k < 2000 ==> buf[k] == 0x100 * c + 32
    {
      buf := new Cell[CELLS];
      lines := new GrowArray.Array<array?<Cell>>(HEIGHT);
      x, y, color, lineNumber := 0, 0, c, 0;
      stored := [];
      new;
      ClearScreen();
      DynamicInit();
    }

    /** The loops of vga_init. */
    method ClearScreen()
      requires buf.Length == CELLS && color < 0x100
      modifies buf
      ensures forall i :: 0 <= i < HEIGHT ==> Rows(buf[..])[i] == BlankLine(color)
      ensures forall k :: 0 <= k < CELLS ==> buf[k] == Blank(color)
    {
      for i := 0 to HEIGHT
        invariant forall k :: 0 <= k < i * WIDTH ==> buf[k] == Blank(color)
      {
        for j := 0 to WIDTH
          invariant forall k :: 0 <= k < i * WIDTH + j ==> buf[k] == Blank(color)
        {
          buf[i * WIDTH + j] := Blank(color);
        }
      }
    }

    /** vga_dynamic_init; what the line buffers hold is arbitrary. */
    method DynamicInit()
      requires lines.Valid() && lines.Contents() == stored == []
      modifies `stored, lines, lines.data
      ensures lines.Valid() && lines.Contents() == stored && AreLines(stored) && |stored| == HEIGHT
      ensures fresh(stored) && (lines.data == old(lines.data) || fresh(lines.data))
    {
      for i := 0 to HEIGHT
        invariant lines.Valid() && lines.Contents() == stored && AreLines(stored) && |stored| == i
        invariant (lines.data == old(lines.data) || fresh(lines.data)) && fresh(stored)
      {
        var line := new Cell[WIDTH];
        lines.Add(line);
        stored := stored + [line];
      }
    }

    lemma Parts()
      requires Valid()
      ensures lineNumber + HEIGHT <= |stored| && color < 0x100 && State().view.top == lineNumber && |State().view.lines| == |stored|
      ensures State().x == x && State().y == y && lines.Valid() && lines.used == |stored|
    {
    }

    lemma StateIs()
      requires Valid()
      ensures buf.Length == CELLS && AreLines(stored) && State() == Term(View(Texts(stored), Rows(buf[..]), lineNumber), x, y)
    {
    }

    /** The inner loop of save_buffer. */
    method SaveRow(i: nat, line: array<Cell>)
      requires buf.Length == CELLS && i < HEIGHT && line.Length == WIDTH && line != buf
      modifies line
      ensures line[..] == Over(Row(buf[..], i), old(line[..]), Shown(i))
    {
      ghost var row, l := Row(buf[..], i), line[..];
      var j := 0;
      while j < WIDTH
        invariant j <= Shown(i) && (forall k :: 0 <= k < WIDTH ==> line[k] == if k < j then row[k] else l[k])
      {
        ShownEndsAtReserved(i, j);
        if Reserved(i, j) {
          break;
        }
        line[j] := buf[i * WIDTH + j];
        j := j + 1;
      }
    }

    /** The inner loop of draw_buffer. */
    method DrawRow(i: nat, line: array<Cell>)
      requires buf.Length == CELLS && i < HEIGHT && line.Length == WIDTH && line != buf
      modifies buf
      ensures Rows(buf[..]) == Rows(old(buf[..]))[i := Over(line[..], Row(old(buf[..]), i), Shown(i))]
    {
      ghost var b := buf[..];
      var j := 0;
      while j < WIDTH
        invariant j <= Shown(i)
        invariant forall k :: 0 <= k < CELLS ==> buf[k] == if i * WIDTH <= k < i * WIDTH + j then line[k - i * WIDTH] else b[k]
      {
        ShownEndsAtReserved(i, j);
        if Reserved(i, j) {
          break;
        }
        buf[i * WIDTH + j] := line[j];
        j := j + 1;
      }
      ghost var row := Over(line[..], Row(b, i), Shown(i));
      forall j {:trigger row[j]} | 0 <= j < WIDTH
        ensures buf[..][i * WIDTH + j] == row[j]
      {
        assert Row(b, i)[j] == b[i * WIDTH + j];
      }
      RowWritten(b, buf[..], i, row);
    }

    /** One turn of the outer loop of save_buffer. */
    method SaveLine(i: nat)
      requires Valid() && i < HEIGHT
      modifies stored
      ensures Valid() && Rows(buf[..]) == Rows(old(buf[..]))
      ensures Texts(stored) == old(Texts(stored))[lineNumber + i := Over(Rows(buf[..])[i], old(Texts(stored))[lineNumber + i], Shown(i))]
    {
      hide Over, Rows, Row, Shown;
      var line := lines.Get(lineNumber + i);
      assert line.value == stored[lineNumber + i];
      SaveRow(i, line.value);
    }

    /** The same turn, on the state as a whole. */
    method SaveOne(i: nat, ghost v: View)
      requires Valid() && i < HEIGHT && Ok(v) && State().view == v.(lines := PartlySaved(v, i))
      modifies stored
      ensures Valid() && State() == old(State()).(view := v.(lines := PartlySaved(v, i + 1)))
    {
      hide Valid, State, AreLines, Over, Row, Rows, Shown, Document, PartlySaved;
      Parts();
      StateIs();
      SavedFurther(v, i);
      SaveLine(i);
      StateIs();
    }

    method SaveBuffer()
      requires Valid()
      modifies stored
      ensures Valid() && State() == old(State()).(view := Save(old(State()).view))
    {
      hide Valid, State, Document, PartlySaved;
      ghost var v := State().view;
      SavedFromTo(v);
      for i := 0 to HEIGHT
        invariant Valid() && State() == old(State()).(view := v.(lines := PartlySaved(v, i)))
      {
        SaveOne(i, v);
      }
    }

    method DrawBuffer()
      requires Valid()
      modifies buf
      ensures Valid() && State() == old(State()).(view := Draw(old(State()).view))
    {
      hide AreLines, Over, Row, Shown;
      ghost var v := State().view;
      for i := 0 to HEIGHT
        invariant Valid() && Texts(stored) == v.lines
        invariant forall k :: 0 <= k < HEIGHT ==> Rows(buf[..])[k] == if k < i then Draw(v).rows[k] else v.rows[k]
      {
        var line := lines.Get(lineNumber + i);
        assert line.value == stored[lineNumber + i];
        assert line.value[..] == Texts(stored)[lineNumber + i];
        DrawRow(i, line.value);
      }
      assert Rows(buf[..]) == Draw(v).rows;
    }

    /** A line buffer of blanks. */
    method NewLine() returns (line: array<Cell>)
      requires color < 0x100
      ensures fresh(line) && line.Length == WIDTH && line[..] == BlankLine(color)
    {
      line := new Cell[WIDTH];
      for i := 0 to WIDTH
        invariant forall k :: 0 <= k < i ==> line[k] == Blank(color)
      {
        line[i] := Blank(color);
      }
    }

    /** A blank line behind the last. */
    method AddLine()
      requires Valid()
      modifies this, lines, lines.data
      ensures Valid() && (lines.data == old(lines.data) || fresh(lines.data))
      ensures |stored| == |old(stored)| + 1 && stored[..|old(stored)|] == old(stored) && fresh(stored[|old(stored)|])
      ensures Texts(stored) == old(Texts(stored)) + [BlankLine(color)]
      ensures x == old(x) && y == old(y) && color == old(color) && lineNumber == old(lineNumber)
    {
      var line := NewLine();
      lines.Add(line);
      stored := stored + [line];
    }

    /** The line below the window is there. */
    method AllowNextLine()
      requires Valid()
      modifies this, lines, lines.data
      ensures Valid() && (lines.data == old(lines.data) || fresh(lines.data)) && |stored| > lineNumber + HEIGHT
      ensures (forall l :: l in stored ==> l in old(stored) || fresh(l)) && color == old(color)
      ensures var v := old(State()).view;
        State() == old(State()).(view := if |v.lines| <= v.top + HEIGHT then v.(lines := v.lines + [BlankLine(color)]) else v)
    {
      hide AreLines, Rows, Row;
      if lines.used <= lineNumber + HEIGHT {
        AddLine();
      }
    }

    /** Moving the window over the lines. */
    method MoveTo(n: nat)
      requires Valid() && n + HEIGHT <= |stored|
      modifies `lineNumber
      ensures Valid() && State() == old(State()).(view := old(State()).view.(top := n))
    {
      hide AreLines, Row, Rows;
      lineNumber := n;
    }

    method ScrollDown()
      requires Valid()
      modifies Footprint()
      ensures Valid() && fresh(Footprint() - old(Footprint()))
      ensures State() == old(State()).(view := Viewport.ScrollDown(old(State()).view, BlankLine(color))) && color == old(color)
    {
      hide Valid, State, Document, Draw, BlankLine;
      Parts();
      SaveBuffer();
      AllowNextLine();
      Parts();
      MoveTo(lineNumber + 1);
      DrawBuffer();
    }

    method ScrollUp()
      requires Valid()
      modifies this, buf, stored
      ensures Valid() && color == old(color) && stored == old(stored)
      ensures State() == old(State()).(view := Viewport.ScrollUp(old(State()).view))
    {
      hide AreLines, Over, Row, Rows, Shown, Document;
      if lineNumber == 0 {
        return;
      }
      SaveBuffer();
      MoveTo(lineNumber - 1);
      DrawBuffer();
    }

    /** What vga_putc writes before the cursor moves on; a newline fills the rest of the row. */
    method Write(c: CChar)
      requires Valid()
      modifies `x, buf
      ensures Rows(buf[..]) == Rows(old(buf[..]))[y := Printed(Row(old(buf[..]), y), old(x), c, color)]
      ensures x == if c == NEWLINE then WIDTH else old(x)
    {
      hide AreLines;
      ghost var b, start := buf[..], y * WIDTH;
      if c == NEWLINE {
        while x < WIDTH
          invariant old(x) <= x <= WIDTH
          invariant forall k :: 0 <= k < CELLS ==> buf[k] == if start + old(x) <= k < start + x then Blank(color) else b[k]
        {
          buf[y * WIDTH + x] := ColorChar(SPACE, color);
          x := x + 1;
        }
      } else {
        var ch := if c == TAB then SPACE else c;
        buf[y * WIDTH + x] := ColorChar(ch, color);
      }
      ghost var row := Printed(Row(b, y), old(x), c, color);
      forall j {:trigger row[j]} | 0 <= j < WIDTH
        ensures buf[..][y * WIDTH + j] == row[j]
      {
        assert Row(b, y)[j] == b[y * WIDTH + j];
      }
      RowWritten(b, buf[..], y, row);
    }

    /** vga_putc. */
    method PutChar(c: CChar)
      requires Valid()
      modifies Footprint()
      ensures Valid() && fresh(Footprint() - old(Footprint()))
      ensures State() == Put(old(State()), c, color) && color == old(color)
    {
      hide AreLines, Rows, Row, Printed, Viewport.ScrollDown;
      Write(c);
      x := x + 1;
      if x >= WIDTH {
        x := 0;
        y := y + 1;
        if y >= HEIGHT {
          y := y - 1;
          ScrollDown();
        }
      }
    }

    /** vga_print. */
    method Print(str: seq<CChar>)
      requires Valid()
      modifies Footprint()
      ensures Valid() && fresh(Footprint() - old(Footprint()))
      ensures State() == PutAll(old(State()), str, color) && color == old(color)
    {
      hide Valid, State, Put;
      Parts();
      for k := 0 to |str|
        invariant Valid() && fresh(Footprint() - old(Footprint())) && color == old(color) < 0x100
        invariant PutAll(old(State()), str, color) == PutAll(State(), str[k..], color)
      {
        PutChar(str[k]);
        assert str[k..][0] == str[k] && str[k..][1..] == str[k + 1..];
      }
    }
  }
}
