/**
 The scrollback of drivers/vga.c on values: a screen of 25 rows is a window onto a growing list of lines, and the cells
 it masks in its first two rows are neither saved nor drawn.
 */
module Viewport {
  const HEIGHT: nat := 25
  const WIDTH: nat := 80

  type Cell = x: int | 0 <= x < 0x1_0000

  type Line = s: seq<Cell> | |s| == WIDTH witness seq(WIDTH, _ => 0)

  datatype View = View(lines: seq<Line>, rows: seq<Line>, top: nat)

  /** reserved: the cell of row i at which copying stops. */
  predicate Reserved(i: nat, j: nat) {
    (i == 0 && j == WIDTH - 10) || (i == 1 && j == WIDTH - 15)
  }

  /** How many cells of row i are saved and drawn. */
  function Shown(i: nat): (w: nat)
    ensures w <= WIDTH
  {
    if i == 0 then WIDTH - 10 else if i == 1 then WIDTH - 15 else WIDTH
  }

  /** Copying stops at the first reserved cell, so that is where the shown part of a row ends. */
  lemma ShownEndsAtReserved(i: nat, j: nat)
    ensures j < Shown(i) <= WIDTH ==> !Reserved(i, j)
    ensures Shown(i) < WIDTH ==> Reserved(i, Shown(i))
  {
  }

  /** vga_putc asks with column and row exchanged, and the answer is always no. */
  lemma ReservedNeverStopsPrinting(x: nat, y: nat)
    requires x <= WIDTH && y < HEIGHT
    ensures !Reserved(x, y)
  {
  }

  /** One line with its first w cells taken from another. */
  function Over(a: Line, b: Line, w: nat): Line
    requires w <= WIDTH
  {
    a[..w] + b[w..]
  }

  predicate Ok(v: View) {
    |v.rows| == HEIGHT && v.top + HEIGHT <= |v.lines|
  }

  /** The logical document: the lines, overridden by what the screen shows of them. */
  function Document(v: View): (d: seq<Line>)
    requires Ok(v)
    ensures |d| == |v.lines|
  {
    seq(|v.lines|, r requires 0 <= r < |v.lines| =>
      if v.top <= r < v.top + HEIGHT then Over(v.rows[r - v.top], v.lines[r], Shown(r - v.top)) else v.lines[r])
  }

  /** save_buffer makes the lines the document. */
  function Save(v: View): View
    requires Ok(v)
  {
    v.(lines := Document(v))
  }

  /** draw_buffer. */
  function Draw(v: View): View
    requires Ok(v)
  {
    v.(rows := seq(HEIGHT, i requires 0 <= i < HEIGHT => Over(v.lines[v.top + i], v.rows[i], Shown(i))))
  }

  function ScrollDown(v: View, blank: Line): (w: View)
    requires Ok(v)
    ensures Ok(w)
  {
    var saved := Save(v);
    var longer := if |v.lines| <= v.top + HEIGHT then saved.(lines := saved.lines + [blank]) else saved;
    Draw(longer.(top := v.top + 1))
  }

  function ScrollUp(v: View): (w: View)
    requires Ok(v)
    ensures Ok(w)
  {
    if v.top == 0 then v else Draw(Save(v).(top := v.top - 1))
  }

  /** The screen is the document's window, up to the masked cells. */
  ghost predicate Shows(rows: seq<Line>, d: seq<Line>, top: nat)
    requires |rows| == HEIGHT && top + HEIGHT <= |d|
  {
    forall i {:trigger rows[i]} :: 0 <= i < HEIGHT ==> rows[i][..Shown(i)] == d[top + i][..Shown(i)]
  }

  /** The cells no scroll may touch. */
  ghost predicate SameMasked(rows: seq<Line>, rows': seq<Line>)
    requires |rows| == |rows'| == HEIGHT
  {
    forall i {:trigger rows[i]} {:trigger rows'[i]} :: 0 <= i < HEIGHT ==> rows[i][Shown(i)..] == rows'[i][Shown(i)..]
  }

  lemma ScreenShowsDocument(v: View)
    requires Ok(v)
    ensures Shows(v.rows, Document(v), v.top)
  {
    forall i | 0 <= i < HEIGHT
      ensures v.rows[i][..Shown(i)] == Document(v)[v.top + i][..Shown(i)]
    {
      assert Document(v)[v.top + i] == Over(v.rows[i], v.lines[v.top + i], Shown(i));
    }
  }

  lemma OverTwice(a: Line, b: Line, w: nat)
    requires w <= WIDTH
    ensures Over(Over(a, b, w), a, w) == a && Over(a, b, w)[w..] == b[w..]
  {
  }

  /** A drawn row is its line, up to the masked cells. */
  lemma DrawnRow(v: View, i: nat)
    requires Ok(v) && i < HEIGHT
    ensures Over(Draw(v).rows[i], v.lines[v.top + i], Shown(i)) == v.lines[v.top + i]
    ensures Draw(v).rows[i][Shown(i)..] == v.rows[i][Shown(i)..]
  {
    hide Over, Shown;
    OverTwice(v.lines[v.top + i], v.rows[i], Shown(i));
  }

  lemma DocumentIs(v: View, d: seq<Line>)
    requires Ok(v) && |d| == |v.lines|
    requires forall r :: 0 <= r < |d| && !(v.top <= r < v.top + HEIGHT) ==> d[r] == v.lines[r]
    requires forall i {:trigger v.rows[i]} :: 0 <= i < HEIGHT ==> d[v.top + i] == Over(v.rows[i], v.lines[v.top + i], Shown(i))
    ensures Document(v) == d
  {
    hide Over, Shown;
    forall r | 0 <= r < |d|
      ensures Document(v)[r] == d[r]
    {
      if v.top <= r < v.top + HEIGHT {
        var i := r - v.top;
        assert d[v.top + i] == Over(v.rows[i], v.lines[v.top + i], Shown(i));
      }
    }
  }

  /** Drawing keeps the document, when the lines already are the document. */
  lemma DrawKeeps(v: View)
    requires Ok(v)
    ensures Ok(Draw(v)) && Document(Draw(v)) == v.lines && SameMasked(v.rows, Draw(v).rows)
  {
    hide Over, Shown, Document;
    forall i | 0 <= i < HEIGHT
      ensures Over(Draw(v).rows[i], v.lines[v.top + i], Shown(i)) == v.lines[v.top + i]
      ensures Draw(v).rows[i][Shown(i)..] == v.rows[i][Shown(i)..]
    {
      DrawnRow(v, i);
    }
    DocumentIs(Draw(v), v.lines);
  }

  /** Scrolling down keeps the document, but for one blank line when the window was at its end. */
  lemma ScrollDownKeeps(v: View, blank: Line)
    requires Ok(v)
    ensures var w := ScrollDown(v, blank);
      && Ok(w) && w.top == v.top + 1 && SameMasked(v.rows, w.rows)
      && Document(w) == if |v.lines| == v.top + HEIGHT then Document(v) + [blank] else Document(v)
  {
    hide Document, Draw, SameMasked;
    var saved := Save(v);
    var longer := if |v.lines| <= v.top + HEIGHT then saved.(lines := saved.lines + [blank]) else saved;
    DrawKeeps(longer.(top := v.top + 1));
    DrawTop(longer.(top := v.top + 1));
  }

  lemma DrawTop(v: View)
    requires Ok(v)
    ensures Draw(v).top == v.top
  {
  }

  lemma ScrollUpKeeps(v: View)
    requires Ok(v)
    ensures var w := ScrollUp(v);
      Ok(w) && w.top == (if v.top == 0 then 0 else v.top - 1) && SameMasked(v.rows, w.rows) && Document(w) == Document(v)
  {
    hide Document, Draw, SameMasked;
    MaskedSelf(v.rows);
    if v.top > 0 {
      DrawKeeps(Save(v).(top := v.top - 1));
      DrawTop(Save(v).(top := v.top - 1));
    }
  }

  /** Row 0 shows five cells more than row 1: after a scroll they come from the line buffer, the others from row 1. */
  lemma RowOneMovesUp(v: View, blank: Line)
    requires Ok(v)
    ensures ScrollDown(v, blank).rows[0][..70] == v.rows[1][..65] + v.lines[v.top + 1][65..70]
  {
    hide Over, ScrollDown, Document;
    FirstDrawn(v, blank);
    FirstRows(v.rows[1], v.lines[v.top + 1], v.rows[0], v.rows[2]);
    assert |v.rows[1][..65] + v.lines[v.top + 1][65..70]| == 70;
  }

  lemma FirstLostCell(v: View, blank: Line)
    requires Ok(v)
    ensures ScrollDown(v, blank).rows[0][65] == v.lines[v.top + 1][65]
  {
    hide ScrollDown, Document;
    FirstDrawn(v, blank);
  }

  lemma FirstDrawn(v: View, blank: Line)
    requires Ok(v)
    ensures ScrollDown(v, blank).rows[0] == Over(Over(v.rows[1], v.lines[v.top + 1], 65), v.rows[0], 70)
  {
    hide Over, ScrollDown, Document;
    DrawnDown(v, blank, 0);
  }

  /** So row 1 moves up unchanged exactly if its five unsaved cells are what the line buffer already held. */
  lemma RowOneMovesUpIff(v: View, blank: Line)
    requires Ok(v)
    ensures ScrollDown(v, blank).rows[0][..70] == v.rows[1][..70] <==> v.rows[1][65..70] == v.lines[v.top + 1][65..70]
  {
    hide Document, ScrollDown;
    RowOneMovesUp(v, blank);
    var row, l := v.rows[1], v.lines[v.top + 1];
    assert row[..70] == row[..65] + row[65..70];
    assert (row[..65] + l[65..70])[65..] == l[65..70] && row[..70][65..] == row[65..70];
  }

  // Where every cell of the screen comes from, in numbers.

  /** Scrolling down moves a row up; rows 0 and 1 keep 10 and 15 cells, and row 0 gets five from the line buffer. */
  lemma DownMovesRows(v: View, blank: Line)
    requires Ok(v)
    ensures var w := ScrollDown(v, blank);
      && |w.rows| == 25
      && (forall i {:trigger w.rows[i]} :: 2 <= i < 24 ==> w.rows[i] == v.rows[i + 1])
      && w.rows[1] == v.rows[2][..65] + v.rows[1][65..]
      && w.rows[0] == v.rows[1][..65] + v.lines[v.top + 1][65..70] + v.rows[0][70..]
      && w.rows[24] == if v.top + 25 < |v.lines| then v.lines[v.top + 25] else blank
  {
    hide ScrollDown, Over, Document;
    var w, last := ScrollDown(v, blank), if v.top + 25 < |v.lines| then v.lines[v.top + 25] else blank;
    forall i | 2 <= i < 24
      ensures w.rows[i] == v.rows[i + 1]
    {
      DrawnDown(v, blank, i);
      WholeRow(v.rows[i + 1], v.lines[v.top + i + 1]);
      WholeRow(v.rows[i + 1], v.rows[i]);
    }
    DrawnDown(v, blank, 0);
    DrawnDown(v, blank, 1);
    DrawnDown(v, blank, 24);
    WholeRow(v.rows[2], v.lines[v.top + 2]);
    WholeRow(last, v.rows[24]);
    FirstRows(v.rows[1], v.lines[v.top + 1], v.rows[0], v.rows[2]);
  }

  /** Line v.top + i of the document. */
  lemma DocumentAt(v: View, i: nat)
    requires Ok(v) && v.top + i < |v.lines|
    ensures Document(v)[v.top + i] == if i < 25 then Over(v.rows[i], v.lines[v.top + i], Shown(i)) else v.lines[v.top + i]
  {
    hide Over, Shown;
  }

  /** Row i after scrolling down: the next line as it has been saved, over the row's masked cells. */
  lemma DrawnDown(v: View, blank: Line, i: nat)
    requires Ok(v) && i < HEIGHT
    ensures var line := if i < 24 then Over(v.rows[i + 1], v.lines[v.top + i + 1], Shown(i + 1))
                        else if v.top + 25 < |v.lines| then v.lines[v.top + 25] else blank;
      ScrollDown(v, blank).rows[i] == Over(line, v.rows[i], Shown(i))
  {
    hide Over, Shown, Document;
    if v.top + i + 1 < |v.lines| {
      DocumentAt(v, i + 1);
    }
  }

  /** Row i after scrolling up. */
  lemma DrawnUp(v: View, i: nat)
    requires Ok(v) && i < HEIGHT && v.top > 0
    ensures var line := if i > 0 then Over(v.rows[i - 1], v.lines[v.top + i - 1], Shown(i - 1)) else v.lines[v.top - 1];
      ScrollUp(v).rows[i] == Over(line, v.rows[i], Shown(i))
  {
    hide Over, Shown, Document;
    if i > 0 {
      DocumentAt(v, i - 1);
    } else {
      AboveTheScreen(v);
    }
  }

  lemma AboveTheScreen(v: View)
    requires Ok(v) && v.top > 0
    ensures Document(v)[v.top - 1] == v.lines[v.top - 1]
  {
  }

  lemma FirstRows(a: Line, b: Line, c: Line, d: Line)
    ensures Over(Over(a, b, 65), c, 70) == a[..65] + b[65..70] + c[70..]
    ensures Over(Over(c, b, 70), a, 65) == c[..65] + a[65..] && Over(d, a, 65) == d[..65] + a[65..]
    ensures Over(b, c, 70) == b[..70] + c[70..] && Over(a, b, 65) == a[..65] + b[65..]
  {
  }

  lemma WholeRow(a: Line, b: Line)
    ensures Over(a, b, WIDTH) == a
  {
  }

  /** Scrolling up moves a row down; the row that leaves row 1 gets its masked cells from the line buffer. */
  lemma UpMovesRows(v: View)
    requires Ok(v) && v.top > 0
    ensures var w := ScrollUp(v);
      && |w.rows| == 25
      && (forall i {:trigger w.rows[i]} :: 3 <= i < 25 ==> w.rows[i] == v.rows[i - 1])
      && w.rows[2] == v.rows[1][..65] + v.lines[v.top + 1][65..]
      && w.rows[1] == v.rows[0][..65] + v.rows[1][65..]
      && w.rows[0] == v.lines[v.top - 1][..70] + v.rows[0][70..]
  {
    hide ScrollUp, Over, Document;
    var w := ScrollUp(v);
    forall i | 3 <= i < 25
      ensures w.rows[i] == v.rows[i - 1]
    {
      DrawnUp(v, i);
      WholeRow(v.rows[i - 1], v.lines[v.top + i - 1]);
      WholeRow(v.rows[i - 1], v.rows[i]);
    }
    DrawnUp(v, 0);
    DrawnUp(v, 1);
    DrawnUp(v, 2);
    WholeRow(Over(v.rows[1], v.lines[v.top + 1], 65), v.rows[2]);
    FirstRows(v.rows[1], v.lines[v.top], v.rows[0], v.rows[2]);
    FirstRows(v.rows[1], v.lines[v.top + 1], v.rows[0], v.rows[2]);
    FirstRows(v.rows[1], v.lines[v.top - 1], v.rows[0], v.rows[2]);
  }

  /** The line buffers hold the screen: 70 cells of row 0, 65 of row 1, all of the others; lines off the screen are as before. */
  ghost predicate Buffers(v: View, lines: seq<Line>)
    requires Ok(v)
  {
    && |v.lines| <= |lines|
    && lines[v.top] == v.rows[0][..70] + v.lines[v.top][70..]
    && lines[v.top + 1] == v.rows[1][..65] + v.lines[v.top + 1][65..]
    && (forall i {:trigger v.rows[i]} :: 2 <= i < 25 ==> lines[v.top + i] == v.rows[i])
    && (forall r :: 0 <= r < |v.lines| && !(v.top <= r < v.top + 25) ==> lines[r] == v.lines[r])
  }

  lemma DocumentBuffers(v: View)
    requires Ok(v)
    ensures Buffers(v, Document(v))
  {
    forall i {:trigger v.rows[i]} | 2 <= i < 25
      ensures Document(v)[v.top + i] == v.rows[i]
    {
      WholeRow(v.rows[i], v.lines[v.top + i]);
    }
    assert Document(v)[v.top] == Over(v.rows[0], v.lines[v.top], 70);
    assert Document(v)[v.top + 1] == Over(v.rows[1], v.lines[v.top + 1], 65);
  }

  /** Both scrolls save the screen before they move; a line is added exactly behind the last one. */
  lemma ScrollsSave(v: View, blank: Line)
    requires Ok(v)
    ensures Buffers(v, ScrollDown(v, blank).lines) && ScrollDown(v, blank).top == v.top + 1
    ensures |ScrollDown(v, blank).lines| == if |v.lines| == v.top + 25 then |v.lines| + 1 else |v.lines|
    ensures |v.lines| == v.top + 25 ==> ScrollDown(v, blank).lines[|v.lines|] == blank
    ensures v.top > 0 ==> Buffers(v, ScrollUp(v).lines) && |ScrollUp(v).lines| == |v.lines| && ScrollUp(v).top == v.top - 1
  {
    hide Document, Over;
    DocumentBuffers(v);
  }

  lemma UpAtTheTop(v: View)
    requires Ok(v) && v.top == 0
    ensures ScrollUp(v) == v
  {
  }

  ghost predicate BothKeep(v: View, blank: Line, i: nat, j: nat)
    requires Ok(v) && i < 25 && j < 80
  {
    var down, up := ScrollDown(v, blank), ScrollUp(v);
    down.rows[i][j] == v.rows[i][j] == up.rows[i][j]
  }

  /** The cells that no scroll touches are the last 10 of row 0 and the last 15 of row 1, and no others. */
  lemma UntouchedCells(i: nat, j: nat, blank: Line)
    requires i < 25 && j < 80
    ensures (i == 0 && 70 <= j) || (i == 1 && 65 <= j) <==>
      forall v: View {:trigger Ok(v)} :: Ok(v) ==> BothKeep(v, blank, i, j)
  {
    hide ScrollDown, ScrollUp;
    if (i == 0 && 70 <= j) || (i == 1 && 65 <= j) {
      forall v: View | Ok(v)
        ensures BothKeep(v, blank, i, j)
      {
        DownMovesRows(v, blank);
        if v.top == 0 {
          UpAtTheTop(v);
        } else {
          UpMovesRows(v);
        }
      }
    } else {
      var v := Numbered();
      assert Ok(v);
      DownMovesRows(v, blank);
      if 2 <= i < 24 {
        assert ScrollDown(v, blank).rows[i] == v.rows[i + 1];
      }
      assert ScrollDown(v, blank).rows[i][j] != v.rows[i][j];
    }
  }

  /** A screen whose rows hold their numbers, over lines that hold ones. */
  function Numbered(): (v: View)
    ensures |v.lines| == 26 && |v.rows| == 25 && v.top == 0
    ensures forall i, j :: 0 <= i < 25 && 0 <= j < 80 ==> v.rows[i][j] == i
    ensures forall i, j :: 0 <= i < 26 && 0 <= j < 80 ==> v.lines[i][j] == 1
  {
    View(seq(26, _ => seq(80, _ => 1)), seq(25, i requires 0 <= i < 25 => seq(80, _ => i)), 0)
  }

  datatype Scroll = Down(blank: Line) | Up

  function Scrolled(v: View, es: seq<Scroll>): (w: View)
    requires Ok(v)
    ensures Ok(w)
    decreases |es|
  {
    if es == [] then v else
      match es[0]
      case Down(blank) => ScrollDownKeeps(v, blank); Scrolled(ScrollDown(v, blank), es[1..])
      case Up => ScrollUpKeeps(v); Scrolled(ScrollUp(v), es[1..])
  }

  /** No sequence of scrolls loses anything: the old document is a prefix of the new one, and masked cells stay. */
  lemma {:induction false} ScrollsKeep(v: View, es: seq<Scroll>)
    requires Ok(v)
    ensures Document(v) <= Document(Scrolled(v, es)) && SameMasked(v.rows, Scrolled(v, es).rows)
    decreases |es|
  {
    hide Document, SameMasked, ScrollDown, ScrollUp;
    if es == [] {
      MaskedSelf(v.rows);
    } else {
      var w := match es[0]
        case Down(blank) => ScrollDown(v, blank)
        case Up => ScrollUp(v);
      match es[0]
      case Down(blank) =>
        ScrollDownKeeps(v, blank);
        ScrollsKeep(w, es[1..]);
        MaskedTrans(v.rows, w.rows, Scrolled(w, es[1..]).rows);
      case Up =>
        ScrollUpKeeps(v);
        ScrollsKeep(w, es[1..]);
        MaskedTrans(v.rows, w.rows, Scrolled(w, es[1..]).rows);
    }
  }

  lemma MaskedSelf(a: seq<Line>)
    requires |a| == HEIGHT
    ensures SameMasked(a, a)
  {
  }

  lemma MaskedTrans(a: seq<Line>, b: seq<Line>, c: seq<Line>)
    requires |a| == |b| == |c| == HEIGHT && SameMasked(a, b) && SameMasked(b, c)
    ensures SameMasked(a, c)
  {
  }

  /** Two screens that show the same window and agree on the masked cells are equal. */
  lemma ScreenIsDetermined(a: seq<Line>, b: seq<Line>, d: seq<Line>, d': seq<Line>, top: nat)
    requires |a| == |b| == HEIGHT && top + HEIGHT <= |d| && d <= d'
    requires Shows(a, d, top) && Shows(b, d', top) && SameMasked(a, b)
    ensures a == b
  {
    forall i | 0 <= i < HEIGHT
      ensures a[i] == b[i]
    {
      assert a[i] == a[i][..Shown(i)] + a[i][Shown(i)..] && b[i] == b[i][..Shown(i)] + b[i][Shown(i)..];
      assert d[top + i] == d'[top + i];
    }
  }

  /** Whatever the scrolls in between, coming back to the same window restores the whole screen, masked cells included. */
  lemma ReturningRestoresTheScreen(v: View, es: seq<Scroll>)
    requires Ok(v) && Scrolled(v, es).top == v.top
    ensures Scrolled(v, es).rows == v.rows
  {
    var w := Scrolled(v, es);
    hide Document, Shows, SameMasked, Scrolled;
    ScrollsKeep(v, es);
    ScreenShowsDocument(v);
    ScreenShowsDocument(w);
    ScreenIsDetermined(v.rows, w.rows, Document(v), Document(w), v.top);
  }

  /** k scrolls down and k scrolls up. */
  lemma DownAndUp(v: View, blanks: seq<Line>, k: nat)
    requires Ok(v) && k == |blanks|
    ensures Scrolled(v, seq(k, i requires 0 <= i < k => Down(blanks[i])) + seq(k, _ => Up)).rows == v.rows
  {
    var downs, ups := seq(k, i requires 0 <= i < k => Down(blanks[i])), seq(k, _ => Up);
    ScrolledTop(v, downs, ups);
    ReturningRestoresTheScreen(v, downs + ups);
  }

  lemma {:induction false} ScrolledTop(v: View, downs: seq<Scroll>, ups: seq<Scroll>)
    requires Ok(v) && (forall e :: e in downs ==> e.Down?) && (forall e :: e in ups ==> e == Up)
    requires |ups| <= v.top + |downs|
    ensures Scrolled(v, downs + ups).top == v.top + |downs| - |ups|
    decreases |downs| + |ups|
  {
    var es := downs + ups;
    if es != [] {
      if downs != [] {
        assert es[1..] == downs[1..] + ups;
        ScrollDownKeeps(v, es[0].blank);
        ScrolledTop(ScrollDown(v, es[0].blank), downs[1..], ups);
      } else {
        assert ups[0] in ups && es[0] == ups[0] && es[1..] == downs + ups[1..];
        assert forall e :: e in ups[1..] ==> e in ups;
        ScrollUpKeeps(v);
        ScrolledTop(ScrollUp(v), downs, ups[1..]);
      }
    }
  }
}
