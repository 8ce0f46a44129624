/** Printing through drivers/vga.c: what vga_putc does to the screen, and what that means for the logical document. */
module Terminal {
  import opened Viewport

  /** A char of the i686 target, which is signed. */
  type CChar = x: int | -128 <= x < 128

  const NEWLINE: CChar := 10
  const TAB: CChar := 9
  const SPACE: CChar := 32

  /** color_char: a negative character is sign-extended over the colour. */
  function ColorChar(c: CChar, color: nat): (cell: Cell)
    requires color < 0x100
    ensures cell % 0x100 == c % 0x100 && cell / 0x100 == if c < 0 then 0xFF else color
  {
    if c < 0 then 0x1_0000 + c else 0x100 * color + c
  }

  function Blank(color: nat): Cell
    requires color < 0x100
  {
    ColorChar(SPACE, color)
  }

  function BlankLine(color: nat): Line
    requires color < 0x100
  {
    seq(WIDTH, _ => Blank(color))
  }

  /** What printing c at column x makes of a line. */
  function Printed(l: Line, x: nat, c: CChar, color: nat): Line
    requires x < WIDTH && color < 0x100
  {
    if c == NEWLINE then l[..x] + seq(WIDTH - x, _ => Blank(color))
    else l[x := ColorChar(if c == TAB then SPACE else c, color)]
  }

  datatype Term = Term(view: View, x: nat, y: nat)

  predicate TermOk(t: Term) {
    Ok(t.view) && t.x < WIDTH && t.y < HEIGHT
  }

  /** The cursor moves on, from the end of the screen by scrolling. */
  function Advance(t: Term, x: nat, color: nat): Term
    requires TermOk(t) && color < 0x100
  {
    if x < WIDTH then t.(x := x)
    else if t.y + 1 < HEIGHT then t.(x := 0, y := t.y + 1)
    else Term(ScrollDown(t.view, BlankLine(color)), 0, t.y)
  }

  /** vga_putc. */
  function Put(t: Term, c: CChar, color: nat): (t': Term)
    requires TermOk(t) && color < 0x100
    ensures TermOk(t')
  {
    var row := Printed(t.view.rows[t.y], t.x, c, color);
    var view := t.view.(rows := t.view.rows[t.y := row]);
    ScrollDownKeeps(view, BlankLine(color));
    Advance(t.(view := view), if c == NEWLINE then WIDTH else t.x + 1, color)
  }

  /** An editor with no screen, no saving and no drawing: a document, a window position and a cursor. */
  datatype Editor = Editor(doc: seq<Line>, top: nat, x: nat, y: nat)

  predicate EditorOk(e: Editor) {
    e.top + HEIGHT <= |e.doc| && e.x < WIDTH && e.y < HEIGHT
  }

  /** Printing changes the cursor's line in its unmasked cells only. */
  function Type(e: Editor, c: CChar, color: nat): Editor
    requires EditorOk(e) && color < 0x100
  {
    var line := e.doc[e.top + e.y];
    var doc := e.doc[e.top + e.y := Over(Printed(line, e.x, c, color), line, Shown(e.y))];
    var x := if c == NEWLINE then WIDTH else e.x + 1;
    if x < WIDTH then Editor(doc, e.top, x, e.y)
    else if e.y + 1 < HEIGHT then Editor(doc, e.top, 0, e.y + 1)
    else Editor(if |doc| == e.top + HEIGHT then doc + [BlankLine(color)] else doc, e.top + 1, 0, e.y)
  }

  function Editing(t: Term): Editor
    requires TermOk(t)
  {
    Editor(Document(t.view), t.view.top, t.x, t.y)
  }

  /** Overwriting a row of the screen changes its line of the document in the unmasked cells. */
  lemma RowEditsDocument(v: View, y: nat, row: Line)
    requires Ok(v) && y < HEIGHT
    ensures var w := v.(rows := v.rows[y := row]);
      Ok(w) && Document(w) == Document(v)[v.top + y := Over(row, Document(v)[v.top + y], Shown(y))]
  {
    var w, r := v.(rows := v.rows[y := row]), v.top + y;
    assert Over(row, v.lines[r], Shown(y)) == Over(row, Over(v.rows[y], v.lines[r], Shown(y)), Shown(y));
    assert Document(w) == Document(v)[r := Over(row, Document(v)[r], Shown(y))];
  }

  /** A line changes in the same way whether it is taken from the screen or from the document. */
  lemma PrintedAlike(a: Line, b: Line, w: nat, x: nat, c: CChar, color: nat)
    requires w <= WIDTH && x < WIDTH && color < 0x100 && a[..w] == b[..w]
    ensures Over(Printed(a, x, c, color), b, w) == Over(Printed(b, x, c, color), b, w)
  {
    var p, q := Printed(a, x, c, color), Printed(b, x, c, color);
    forall k | 0 <= k < w
      ensures p[k] == q[k]
    {
      assert a[k] == a[..w][k] && b[k] == b[..w][k];
    }
    assert p[..w] == q[..w];
  }

  /** The screen with its saving, drawing and masked cells refines the editor. */
  lemma PutRefinesType(t: Term, c: CChar, color: nat)
    requires TermOk(t) && color < 0x100
    ensures EditorOk(Editing(t)) && Editing(Put(t, c, color)) == Type(Editing(t), c, color)
  {
    hide Document, Printed, ScrollDown, Over;
    var row := Printed(t.view.rows[t.y], t.x, c, color);
    var view := t.view.(rows := t.view.rows[t.y := row]);
    var line := Document(t.view)[t.view.top + t.y];
    ScreenShowsDocument(t.view);
    assert t.view.rows[t.y][..Shown(t.y)] == line[..Shown(t.y)];
    PrintedAlike(t.view.rows[t.y], line, Shown(t.y), t.x, c, color);
    RowEditsDocument(t.view, t.y, row);
    ScrollDownKeeps(view, BlankLine(color));
  }

  function PutAll(t: Term, s: seq<CChar>, color: nat): (t': Term)
    requires TermOk(t) && color < 0x100
    ensures TermOk(t')
    decreases |s|
  {
    if s == [] then t else PutAll(Put(t, s[0], color), s[1..], color)
  }

  /** A string is printed character by character, from its front. */
  lemma {:induction false} PrintsInTurn(t: Term, a: seq<CChar>, b: seq<CChar>, c: CChar, color: nat)
    requires TermOk(t) && color < 0x100
    ensures PutAll(t, [], color) == t && PutAll(t, [c], color) == Put(t, c, color)
    ensures PutAll(t, a + b, color) == PutAll(PutAll(t, a, color), b, color)
    decreases |a|
  {
    hide Put;
    assert [c][1..] == [];
    if a == [] {
      assert a + b == b;
    } else {
      assert (a + b)[1..] == a[1..] + b;
      PrintsInTurn(Put(t, a[0], color), a[1..], b, c, color);
    }
  }

  function TypeAll(e: Editor, s: seq<CChar>, color: nat): (e': Editor)
    requires EditorOk(e) && color < 0x100
    ensures EditorOk(e') && |e.doc| <= |e'.doc|
    decreases |s|
  {
    if s == [] then e else TypeAll(Type(e, s[0], color), s[1..], color)
  }

  /** vga_print of any string. */
  lemma {:induction false} PrintRefinesTyping(t: Term, s: seq<CChar>, color: nat)
    requires TermOk(t) && color < 0x100
    ensures EditorOk(Editing(t)) && Editing(PutAll(t, s, color)) == TypeAll(Editing(t), s, color)
    decreases |s|
  {
    PutRefinesType(t, if s == [] then SPACE else s[0], color);
    if s != [] {
      hide Put, Type, Editing;
      PrintRefinesTyping(Put(t, s[0], color), s[1..], color);
    }
  }

  // What one character does to the screen, in numbers: newline is 10, tab 9, space 32.

  /** The cursor's row after one character: a newline blanks it from the cursor on, any other changes one cell. */
  ghost predicate RowAfter(row: Line, row': Line, x: nat, c: int, color: nat) {
    if c == 10 then
      forall j :: 0 <= j < 80 ==> row'[j] == if j < x then row[j] else 0x100 * color + 32
    else
      forall j :: 0 <= j < 80 ==>
        row'[j] == if j != x then row[j] else if c == 9 then 0x100 * color + 32 else if c < 0 then 0xFF00 + (0x100 + c) else 0x100 * color + c
  }

  /** Does the character end the row? */
  predicate EndsRow(x: nat, c: int) {
    c == 10 || x == 79
  }

  /** Unless the last row ends, no row but the cursor's changes, and the cursor goes to the next cell or the next row. */
  lemma PutWithoutScroll(t: Term, c: CChar, color: nat)
    requires TermOk(t) && color < 0x100 && (t.y < 24 || !EndsRow(t.x, c))
    ensures var w := Put(t, c, color);
      && w.view.lines == t.view.lines && w.view.top == t.view.top && |w.view.rows| == 25
      && (forall i :: 0 <= i < 25 && i != t.y ==> w.view.rows[i] == t.view.rows[i])
      && RowAfter(t.view.rows[t.y], w.view.rows[t.y], t.x, c, color)
      && (if EndsRow(t.x, c) then w.x == 0 && w.y == t.y + 1 else w.x == t.x + 1 && w.y == t.y)
  {
    hide ScrollDown;
  }

  /** When the last row ends, the screen scrolls; the new line, if there was none, is of spaces in the current colour. */
  lemma PutWithScroll(t: Term, c: CChar, color: nat)
    requires TermOk(t) && color < 0x100 && t.y == 24 && EndsRow(t.x, c)
    ensures var w := Put(t, c, color);
      && w.x == 0 && w.y == 24 && w.view.top == t.view.top + 1 && |w.view.rows| == 25
      && RowAfter(t.view.rows[24], w.view.rows[23], t.x, c, color)
      && (forall i {:trigger w.view.rows[i]} :: 2 <= i < 23 ==> w.view.rows[i] == t.view.rows[i + 1])
      && w.view.rows[1] == t.view.rows[2][..65] + t.view.rows[1][65..]
      && w.view.rows[0] == t.view.rows[1][..65] + t.view.lines[t.view.top + 1][65..70] + t.view.rows[0][70..]
      && (if t.view.top + 25 < |t.view.lines| then w.view.rows[24] == t.view.lines[t.view.top + 25]
          else forall j :: 0 <= j < 80 ==> w.view.rows[24][j] == 0x100 * color + 32)
  {
    hide ScrollDown;
    var row := Printed(t.view.rows[24], t.x, c, color);
    var view := t.view.(rows := t.view.rows[24 := row]);
    assert RowAfter(t.view.rows[24], row, t.x, c, color);
    DownMovesRows(view, BlankLine(color));
    ScrollsSave(view, BlankLine(color));
    assert Put(t, c, color).view == ScrollDown(view, BlankLine(color));
  }

  /** A character printed in row 1 at column 65 is on the screen, but after a scroll the line buffer's cell is in its place. */
  lemma PrintedCellIsLost(t: Term, c: CChar, color: nat, blank: Line)
    requires TermOk(t) && t.y == 1 && t.x == 65 && color < 0x100 && c != NEWLINE
    ensures Put(t, c, color).view.rows[1][65] == ColorChar(if c == TAB then SPACE else c, color)
    ensures ScrollDown(Put(t, c, color).view, blank).rows[0][65] == t.view.lines[t.view.top + 1][65]
  {
    hide ScrollDown;
    FirstLostCell(Put(t, c, color).view, blank);
  }

  /** The screen as vga_init leaves it, over line buffers that happen to hold zeros. */
  function Boot(color: nat): Term
    requires color < 0x100
  {
    Term(View(seq(HEIGHT, _ => seq(WIDTH, _ => 0)), seq(HEIGHT, _ => BlankLine(color)), 0), 0, 0)
  }

  /** Printing inside a row moves the cursor only. */
  lemma {:induction false} PrintsInRow(t: Term, s: seq<CChar>, color: nat)
    requires TermOk(t) && color < 0x100 && NEWLINE !in s && t.x + |s| < WIDTH
    ensures PutAll(t, s, color).x == t.x + |s| && PutAll(t, s, color).y == t.y
    ensures PutAll(t, s, color).view.lines == t.view.lines && PutAll(t, s, color).view.top == t.view.top
    decreases |s|
  {
    if s != [] {
      PrintsInRow(Put(t, s[0], color), s[1..], color);
    }
  }

  /** Soon after boot: a newline, 65 letters, and the next letter does not survive the first scroll. */
  lemma LetterIsLost(blank: Line)
    ensures TermOk(Boot(7))
    ensures var t := PutAll(Put(Boot(7), NEWLINE, 7), seq(65, _ => 'A' as CChar), 7);
      var w := Put(t, 'A' as CChar, 7).view;
      w.rows[1][65] == 0x741 && ScrollDown(w, blank).rows[0][65] == 0
  {
    hide ScrollDown, PutAll;
    var t := Put(Boot(7), NEWLINE, 7);
    PrintsInRow(t, seq(65, _ => 'A' as CChar), 7);
    PrintedCellIsLost(PutAll(t, seq(65, _ => 'A' as CChar), 7), 'A' as CChar, 7, blank);
  }
}
