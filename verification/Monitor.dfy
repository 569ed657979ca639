/** The text screen of sys/monitor.c, as a window onto a page that never scrolls. */
module Monitor {
  const COLS := 80
  const ROWS := 25
  const ATTRIBUTE := 0x0F00      // white on black
  const BLANK_CELL := 0x0F20     // a space with that attribute

  type schar = c: int | -128 <= c < 128

  // ---------------------------------------------------------------- the page

  // Everything ever written, by row and column, and the cursor.
  datatype Page = Page(cells: map<(int, int), int>, x: int, y: int)

  const EMPTY := Page(map[], 0, 0)

  function Cell(p: Page, row: int, col: int): int {
    if (row, col) in p.cells then p.cells[(row, col)] else BLANK_CELL
  }

  // What one character does to the page: nothing ever scrolls.
  function Put(p: Page, c: schar): Page {
    var q :=
      if c == 8 && p.x != 0 then p.(x := p.x - 1)
      else if c == 9 then p.(x := p.x + 8 - (p.x + 8) % 8)
      else if c == 13 then p.(x := 0)
      else if c == 10 then p.(x := 0, y := p.y + 1)
      else if c >= 32 then p.(cells := p.cells[(p.y, p.x) := c + ATTRIBUTE], x := p.x + 1)
      else p;
    if q.x >= COLS then q.(x := 0, y := q.y + 1) else q
  }

  function Write(p: Page, s: seq<schar>): Page
    decreases |s|
  {
    if s == [] then p else Write(Put(p, s[0]), s[1..])
  }

  // The cursor is in a column, and nothing lies below its row.
  ghost predicate Tidy(p: Page) {
    0 <= p.x < COLS && 0 <= p.y && forall row, col :: (row, col) in p.cells ==> 0 <= row <= p.y && 0 <= col < COLS
  }

  lemma {:induction false} WriteStaysTidy(p: Page, s: seq<schar>)
    requires Tidy(p)
    ensures Tidy(Write(p, s)) && p.y <= Write(p, s).y
    decreases |s|
  {
    if s != [] {
      assert Tidy(Put(p, s[0])) && p.y <= Put(p, s[0]).y;
      WriteStaysTidy(Put(p, s[0]), s[1..]);
    }
  }

  // Rows the cursor has left never change again, so what scrolls off the screen is final.
  lemma {:induction false} RowsAboveAreFinal(p: Page, s: seq<schar>, row: int, col: int)
    requires Tidy(p) && row < p.y
    ensures Cell(Write(p, s), row, col) == Cell(p, row, col)
    decreases |s|
  {
    if s != [] {
      WriteStaysTidy(p, [s[0]]);
      assert Write(p, [s[0]]) == Put(p, s[0]);
      RowsAboveAreFinal(Put(p, s[0]), s[1..], row, col);
    }
  }

  // Writing in two goes is writing once.
  lemma {:induction false} WriteConcat(p: Page, s: seq<schar>, t: seq<schar>)
    ensures Write(p, s + t) == Write(Write(p, s), t)
    decreases |s|
  {
    if s == [] {
      assert s + t == t;
    } else {
      assert (s + t)[1..] == s[1..] + t;
      WriteConcat(Put(p, s[0]), s[1..], t);
    }
  }

  lemma WriteOne(p: Page, c: schar)
    ensures Write(p, [c]) == Put(p, c)
  {
    assert [c][1..] == [];
  }

  // Text goes into one cell after another, row after row, and changes no other cell; the
  // cursor ends up behind it.
  lemma {:induction false} WriteText(p: Page, s: seq<schar>)
    requires Tidy(p) && forall k :: 0 <= k < |s| ==> s[k] >= 32
    ensures 80 * Write(p, s).y + Write(p, s).x == 80 * p.y + p.x + |s| && 0 <= Write(p, s).x < 80
    ensures forall row, col :: 0 <= col < 80 ==>
      var k := 80 * row + col - (80 * p.y + p.x);
      Cell(Write(p, s), row, col) == if 0 <= k < |s| then s[k] + 0x0F00 else Cell(p, row, col)
    decreases |s|
  {
    hide Tidy;
    WriteStaysTidy(p, s);
    InColumns(Write(p, s));
    if s != [] {
      var q := Put(p, s[0]);
      PutText(p, s[0]);
      WriteText(q, s[1..]);
    }
  }

  lemma InColumns(p: Page)
    requires Tidy(p)
    ensures 0 <= p.x < 80
  {
  }

  lemma PutText(p: Page, c: schar)
    requires Tidy(p) && c >= 32
    ensures Tidy(Put(p, c)) && 80 * Put(p, c).y + Put(p, c).x == 80 * p.y + p.x + 1
    ensures forall row, col :: 0 <= col < 80 ==>
      Cell(Put(p, c), row, col) == if 80 * row + col == 80 * p.y + p.x then c + 0x0F00 else Cell(p, row, col)
  {
  }

  // The other characters write no cell. A backspace goes one column left if it can, a tab to
  // the next multiple of eight, which may be in the next row, a newline to the next row, a
  // carriage return to column 0, and the rest nowhere.
  lemma WriteControl(p: Page, c: schar)
    requires Tidy(p) && c < 32
    ensures var q := Write(p, [c]);
      && q.cells == p.cells
      && (c == 8 ==> q.y == p.y && q.x == if p.x > 0 then p.x - 1 else 0)
      && (c == 9 && p.x < 72 ==> q.y == p.y && q.x % 8 == 0 && p.x < q.x <= p.x + 8)
      && (c == 9 && p.x >= 72 ==> q.y == p.y + 1 && q.x == 0)
      && (c == 10 ==> q.y == p.y + 1 && q.x == 0)
      && (c == 13 ==> q.y == p.y && q.x == 0)
      && (c != 8 && c != 9 && c != 10 && c != 13 ==> q == p)
  {
    hide Write;
    WriteOne(p, c);
    InColumns(p);
  }

  // The row of the page that the top of the screen shows.
  function Top(p: Page): int { if p.y < ROWS then 0 else p.y - (ROWS - 1) }

  // A row the cursor has just moved down to is blank.
  lemma NewRowIsBlank(p: Page, c: schar)
    requires Tidy(p) && Put(p, c).y > p.y
    ensures forall col :: Cell(Put(p, c), Put(p, c).y, col) == BLANK_CELL
  {
  }

  lemma RowBelow(i: int)
    ensures (i + COLS) / COLS == i / COLS + 1 && (i + COLS) % COLS == i % COLS
  {
  }

  // The cells of a screen with row top of p on top.
  ghost predicate Window(s: seq<int>, p: Page, top: int) {
    |s| == ROWS * COLS && forall i :: 0 <= i < ROWS * COLS ==> s[i] == Cell(p, top + i / COLS, i % COLS)
  }

  // Scrolling by one row moves the window down by one.
  lemma ScrolledShows(was: seq<int>, s: seq<int>, p: Page, top: int)
    requires Window(was, p, top) && 0 <= top <= Top(p) <= top + 1 && |s| == ROWS * COLS
    requires Top(p) == top ==> s == was
    requires Top(p) != top ==> forall col :: Cell(p, p.y, col) == BLANK_CELL
    requires Top(p) != top ==> forall i :: 0 <= i < ROWS * COLS ==> s[i] == if i < (ROWS - 1) * COLS then was[i + COLS] else BLANK_CELL
    ensures Window(s, p, Top(p))
  {
    hide Cell;
    forall i | 0 <= i < ROWS * COLS ensures s[i] == Cell(p, Top(p) + i / COLS, i % COLS) {
      if Top(p) != top {
        RowBelow(i);
        if i < (ROWS - 1) * COLS {
          assert was[i + COLS] == Cell(p, top + (i + COLS) / COLS, (i + COLS) % COLS);
        } else {
          assert Top(p) + i / COLS == p.y;
        }
      }
    }
  }

  // ---------------------------------------------------------------- the screen

  class Screen {
    const video: array<int>
    var cursorX: int
    var cursorY: int

    // The screen shows ROWS rows of p, from row top on.
    ghost predicate ShowsFrom(p: Page, top: int)
      reads this, video
    {
      && video.Length == ROWS * COLS && Window(video[..], p, top) && Tidy(p)
      && cursorX == p.x && cursorY == p.y - top
    }

    // The screen shows the last ROWS rows of p.
    ghost predicate Shows(p: Page)
      reads this, video
    {
      ShowsFrom(p, Top(p))
    }

    constructor ()
      ensures fresh(video) && video.Length == ROWS * COLS
    {
      video := new int[ROWS * COLS](_ => 0);
      cursorX, cursorY := 0, 0;
    }

    // monitor_clear
    method Clear()
      requires video.Length == ROWS * COLS
      modifies this, video
      ensures Shows(EMPTY)
      ensures cursorX == 0 == cursorY && forall i :: 0 <= i < 2000 ==> video[i] == 0x0F20
    {
      var counter := 0;
      while counter < COLS * ROWS
        invariant 0 <= counter <= COLS * ROWS
        invariant forall i :: 0 <= i < counter ==> video[i] == BLANK_CELL
      {
        video[counter] := BLANK_CELL;
        counter := counter + 1;
      }
      cursorX, cursorY := 0, 0;
    }

    method Scroll()
      requires video.Length == ROWS * COLS && cursorY <= ROWS
      modifies this, video
      ensures cursorX == old(cursorX)
      ensures old(cursorY) < ROWS ==> cursorY == old(cursorY) && video[..] == old(video[..])
      ensures old(cursorY) == ROWS ==> cursorY == ROWS - 1
      ensures old(cursorY) == ROWS ==>
        forall i :: 0 <= i < ROWS * COLS ==> video[i] == if i < (ROWS - 1) * COLS then old(video[i + COLS]) else BLANK_CELL
    {
      if cursorY >= ROWS {
        ghost var was := video[..];
        var counter := 0;
        while counter < (ROWS - 1) * COLS
          invariant 0 <= counter <= (ROWS - 1) * COLS
          invariant forall i :: 0 <= i < counter ==> video[i] == was[i + COLS]
          invariant forall i :: counter <= i < ROWS * COLS ==> video[i] == was[i]
          modifies video
        {
          video[counter] := video[counter + COLS];
          counter := counter + 1;
        }
        while counter < ROWS * COLS
          invariant (ROWS - 1) * COLS <= counter <= ROWS * COLS
          invariant forall i :: 0 <= i < (ROWS - 1) * COLS ==> video[i] == was[i + COLS]
          invariant forall i :: (ROWS - 1) * COLS <= i < counter ==> video[i] == BLANK_CELL
          modifies video
        {
          video[counter] := BLANK_CELL;
          counter := counter + 1;
        }
        cursorY := ROWS - 1;
      }
    }

    // monitor_put, up to the scrolling: the character goes where the page has it.
    method Place(c: schar, ghost p: Page)
      requires Shows(p)
      modifies this, video
      ensures ShowsFrom(Put(p, c), Top(p)) && p.y <= Put(p, c).y <= p.y + 1
      ensures 0 <= old(80 * cursorY + cursorX) < 2000 && 0 <= old(cursorX) < 80 && 0 <= cursorX < 80
      ensures video[..] == if c >= 32 then old(video[..][80 * cursorY + cursorX := c + 0x0F00]) else old(video[..])
      ensures c >= 32 ==> 80 * cursorY + cursorX == old(80 * cursorY + cursorX) + 1
      ensures c == 8 ==> cursorY == old(cursorY) && cursorX == if old(cursorX) > 0 then old(cursorX) - 1 else 0
      ensures c == 9 ==> cursorX % 8 == 0 && old(80 * cursorY + cursorX) < 80 * cursorY + cursorX <= old(80 * cursorY + cursorX) + 8
      ensures c == 10 ==> cursorX == 0 && cursorY == old(cursorY) + 1
      ensures c == 13 ==> cursorX == 0 && cursorY == old(cursorY)
      ensures c < 32 && c != 8 && c != 9 && c != 10 && c != 13 ==> cursorX == old(cursorX) && cursorY == old(cursorY)
    {
      if c == 8 && cursorX != 0 {
        cursorX := cursorX - 1;
      } else if c == 9 {
        cursorX := cursorX + 8 - (cursorX + 8) % 8;
      } else if c == 13 {
        cursorX := 0;
      } else if c == 10 {
        cursorX := 0;
        cursorY := cursorY + 1;
      } else if c >= 32 {
        PlaceCell(c, p);
        cursorX := cursorX + 1;
      }
      if cursorX >= COLS {
        cursorX := 0;
        cursorY := cursorY + 1;
      }
    }

    method PlaceCell(c: schar, ghost p: Page)
      requires Shows(p)
      modifies video
      ensures ShowsFrom(p.(cells := p.cells[(p.y, p.x) := c + ATTRIBUTE]), Top(p))
      ensures 0 <= 80 * cursorY + cursorX < 2000
      ensures video[..] == old(video[..])[80 * cursorY + cursorX := c + 0x0F00]
    {
      ghost var q := p.(cells := p.cells[(p.y, p.x) := c + ATTRIBUTE]);
      ghost var at := cursorY * COLS + cursorX;
      video[cursorY * COLS + cursorX] := c + ATTRIBUTE;
      forall i | 0 <= i < ROWS * COLS ensures video[i] == Cell(q, Top(p) + i / COLS, i % COLS) {
        assert i == i / COLS * COLS + i % COLS;
      }
    }

    // monitor_put. Text and the control characters move the cursor as on the page, except
    // that past the last row everything moves up by one.
    method PutChar(c: schar, ghost p: Page)
      requires Shows(p)
      modifies this, video
      ensures Shows(Put(p, c))
      ensures 0 <= old(cursorX) < 80 && 0 <= old(cursorY) < 25 && 0 <= cursorX < 80 && 0 <= cursorY < 25
      ensures c >= 32 && old(80 * cursorY + cursorX) < 1999 ==>
        && 80 * cursorY + cursorX == old(80 * cursorY + cursorX) + 1
        && video[..] == old(video[..][80 * cursorY + cursorX := c + 0x0F00])
      ensures c >= 32 && old(80 * cursorY + cursorX) == 1999 ==>
        && 80 * cursorY + cursorX == 1920
        && video[..] == old(video[80..])[1919 := c + 0x0F00] + seq(80, _ => 0x0F20)
      ensures c == 8 ==>
        cursorY == old(cursorY) && cursorX == (if old(cursorX) > 0 then old(cursorX) - 1 else 0) && video[..] == old(video[..])
      ensures c == 9 && old(cursorX) < 72 ==>
        cursorY == old(cursorY) && cursorX % 8 == 0 && old(cursorX) < cursorX <= old(cursorX) + 8 && video[..] == old(video[..])
      ensures (c == 10 || (c == 9 && old(cursorX) >= 72)) && old(cursorY) < 24 ==>
        cursorX == 0 && cursorY == old(cursorY) + 1 && video[..] == old(video[..])
      ensures (c == 10 || (c == 9 && old(cursorX) >= 72)) && old(cursorY) == 24 ==>
        cursorX == 0 && cursorY == 24 && video[..] == old(video[80..]) + seq(80, _ => 0x0F20)
      ensures c == 13 ==> cursorX == 0 && cursorY == old(cursorY) && video[..] == old(video[..])
      ensures c < 32 && c != 8 && c != 9 && c != 10 && c != 13 ==>
        cursorX == old(cursorX) && cursorY == old(cursorY) && video[..] == old(video[..])
    {
      hide Put, Cell;
      Place(c, p);
      if Put(p, c).y > p.y { NewRowIsBlank(p, c); }
      ghost var was := video[..];
      Scroll();
      ScrolledShows(was, video[..], Put(p, c), Top(p));
    }

    // monitor_write: s is the string up to its terminator.
    method WriteString(s: seq<schar>, ghost p: Page)
      requires Shows(p)
      modifies this, video
      ensures Shows(Write(p, s))
      // Text that does not reach the end of the screen is there, and nothing else changes.
      ensures (forall k :: 0 <= k < |s| ==> s[k] >= 32) && old(80 * cursorY + cursorX) + |s| < 2000 ==>
        && 80 * cursorY + cursorX == old(80 * cursorY + cursorX) + |s| && 0 <= cursorX < 80
        && forall i :: 0 <= i < 2000 ==>
          var k := i - old(80 * cursorY + cursorX); video[i] == if 0 <= k < |s| then s[k] + 0x0F00 else old(video[i])
    {
      hide Put, Cell;
      var i := 0;
      assert s[..0] == [];
      ghost var at := 80 * cursorY + cursorX;
      ghost var text := (forall k :: 0 <= k < |s| ==> s[k] >= 32) && at + |s| < 2000;
      InColumns(p);
      while i < |s|
        invariant 0 <= i <= |s| && Shows(Write(p, s[..i])) && 0 <= cursorX < 80
        invariant text ==> 80 * cursorY + cursorX == at + i
        invariant text ==> forall j :: 0 <= j < 2000 ==>
          video[j] == if 0 <= j - at < i then s[j - at] + 0x0F00 else old(video[j])
      {
        assert s[..i + 1] == s[..i] + [s[i]];
        WriteConcat(p, s[..i], [s[i]]);
        WriteOne(Write(p, s[..i]), s[i]);
        PutChar(s[i], Write(p, s[..i]));
        i := i + 1;
      }
      assert s[..i] == s;
    }
  }
}
