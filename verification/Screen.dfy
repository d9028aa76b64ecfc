/**
 The text console of student-distrib/lib.c: one 4 KB video page holding 25 rows
 of 80 cells (a character byte and an attribute byte per cell) and a cursor.

 `Putc` says what one character does to a console; `NbPutc`, `UpScrollForOneLine`
 and `Clear` are the in-place routines.  The main result is `WindowTheorem`: a
 console that scrolls is a 24-row window on a tape that never scrolls.
 */
module Screen {
  import opened Bytes

  const COLS := 80
  const ROWS := 25
  const CELLS := 2000
  const PAGE_SIZE := 4096
  const ATTRIB: byte := 7
  const START_HEIGHT := 1
  const BAR := 30 // cells of the terminal bar, which `Clear` keeps

  type Page = p: seq<byte> | |p| == PAGE_SIZE witness seq(PAGE_SIZE, _ => 0)

  datatype Console = Console(page: Page, x: int, y: int) {
    /** The cursor is inside the 80x25 screen. */
    predicate InScreen() {
      0 <= x < COLS && 0 <= y < ROWS
    }
  }

  datatype Cell = Cell(glyph: byte, attrib: byte)

  const BLANK := Cell(SPACE, ATTRIB)

  function CellAt(p: Page, i: nat): Cell
    requires i < CELLS
  {
    Cell(p[2 * i], p[2 * i + 1])
  }

  function SetCell(p: Page, i: nat, c: byte): (r: Page)
    requires i < CELLS
    ensures forall j: nat :: j < CELLS ==> CellAt(r, j) == if j == i then Cell(c, ATTRIB) else CellAt(p, j)
  {
    p[2 * i := c][2 * i + 1 := ATTRIB]
  }

  function BlankByte(k: nat): byte {
    if k % 2 == 0 then SPACE else ATTRIB
  }

  /** Rows 1..23 take the row below, row 24 becomes blank; row 0 and the tail of the page stay. */
  function Scrolled(p: Page): Page {
    seq(PAGE_SIZE, (k: nat) requires k < PAGE_SIZE =>
      if 160 <= k < 3840 then p[k + 160] else if 3840 <= k < 4000 then BlankByte(k) else p[k])
  }

  function Cleared(p: Page): Page {
    seq(PAGE_SIZE, (k: nat) requires k < PAGE_SIZE =>
      if 2 * BAR <= k < 4000 then BlankByte(k) else p[k])
  }

  lemma ScrolledCells(p: Page, i: nat)
    requires i < CELLS
    ensures CellAt(Scrolled(p), i) ==
            if i < COLS then CellAt(p, i) else if i < CELLS - COLS then CellAt(p, i + COLS) else BLANK
  {
  }

  /** The console after its cursor has moved down: past the last row it scrolls, and the cursor stays there. */
  function Settle(con: Console): (r: Console)
    requires 0 <= con.x < COLS && 0 <= con.y <= ROWS
    ensures r.InScreen()
  {
    if con.y == ROWS then Console(Scrolled(con.page), con.x, ROWS - 1) else con
  }

  predicate IsBreak(c: byte) {
    c == NEWLINE || c == RETURN
  }

  /** What one character does to a console. */
  function Putc(con: Console, c: byte): (r: Console)
    requires con.InScreen()
    ensures r.InScreen()
  {
    if IsBreak(c) then
      Settle(Console(con.page, 0, con.y + 1))
    else if c == BACKSPACE then
      if con.x == 0 && con.y == 0 then con
      else
        var x, y := if con.x == 0 then COLS else con.x, if con.x == 0 then con.y - 1 else con.y;
        Console(SetCell(con.page, COLS * y + x - 1, SPACE), x - 1, y)
    else
      var page := SetCell(con.page, COLS * con.y + con.x, if c == NUL then SPACE else c);
      if con.x + 1 == COLS then Settle(Console(page, 0, con.y + 1)) else Console(page, con.x + 1, con.y)
  }

  function PutAll(con: Console, text: seq<byte>): (r: Console)
    requires con.InScreen()
    ensures r.InScreen()
    decreases text
  {
    if text == [] then con else PutAll(Putc(con, text[0]), text[1..])
  }

  lemma {:induction false} PutAllSnoc(con: Console, text: seq<byte>, c: byte)
    requires con.InScreen()
    ensures PutAll(con, text + [c]) == Putc(PutAll(con, text), c)
    decreases text
  {
    if text == [] {
      assert [c][1..] == [];
    } else {
      assert (text + [c])[1..] == text[1..] + [c];
      PutAllSnoc(Putc(con, text[0]), text[1..], c);
    }
  }

  // ---------------------------------------------------------------- in-place routines

  method UpScrollForOneLine(video: array<byte>)
    requires video.Length == PAGE_SIZE
    modifies video
    ensures video[..] == Scrolled(old(video[..]))
  {
    var row := START_HEIGHT;
    while row < ROWS - 1
      invariant START_HEIGHT <= row <= ROWS - 1
      invariant forall k :: 160 <= k < 160 * row ==> video[k] == old(video[k + 160])
      invariant forall k :: 0 <= k < PAGE_SIZE && (k < 160 || 160 * row <= k) ==> video[k] == old(video[k])
    {
      var col := 0;
      while col < COLS
        invariant 0 <= col <= COLS
        invariant forall k :: 160 <= k < 160 * row + 2 * col ==> video[k] == old(video[k + 160])
        invariant forall k :: 0 <= k < PAGE_SIZE && (k < 160 || 160 * row + 2 * col <= k) ==> video[k] == old(video[k])
      {
        var toIndex, fromIndex := row * COLS + col, (row + 1) * COLS + col;
        video[2 * toIndex] := video[2 * fromIndex];
        video[2 * toIndex + 1] := video[2 * fromIndex + 1];
        col := col + 1;
      }
      row := row + 1;
    }
    var i := 0;
    while i < COLS
      invariant 0 <= i <= COLS
      invariant forall k :: 160 <= k < 3840 ==> video[k] == old(video[k + 160])
      invariant forall k :: 3840 <= k < 3840 + 2 * i ==> video[k] == BlankByte(k)
      invariant forall k :: 0 <= k < PAGE_SIZE && (k < 160 || 4000 <= k) ==> video[k] == old(video[k])
    {
      var index := (ROWS - 1) * COLS + i;
      video[2 * index] := SPACE;
      video[2 * index + 1] := ATTRIB;
      i := i + 1;
    }
  }

  /** `nb_putc` on the page `video`, with the cursor at (x, y). */
  method NbPutc(video: array<byte>, x: int, y: int, c: byte) returns (x': int, y': int)
    requires video.Length == PAGE_SIZE && 0 <= x < COLS && 0 <= y < ROWS
    modifies video
    ensures Console(video[..], x', y') == Putc(Console(old(video[..]), x, y), c)
    ensures forall k :: 4000 <= k < PAGE_SIZE ==> video[k] == old(video[k])
    decreases c == NUL
  {
    x', y' := x, y;
    if c == NEWLINE || c == RETURN {
      y' := y' + 1;
      x' := 0;
    } else if c == BACKSPACE {
      if x' == 0 {
        if y' == 0 {
          return;
        }
        x' := COLS;
        y' := y' - 1;
      }
      video[2 * (COLS * y' + x' - 1)] := SPACE;
      video[2 * (COLS * y' + x' - 1) + 1] := ATTRIB;
      x' := x' - 1;
      return;
    } else if c == NUL {
      x', y' := NbPutc(video, x, y, SPACE);
      return;
    } else {
      video[2 * (COLS * y' + x')] := c;
      video[2 * (COLS * y' + x') + 1] := ATTRIB;
      x' := x' + 1;
      if x' == COLS {
        y' := y' + 1;
        x' := 0;
      }
    }
    if y' == ROWS {
      UpScrollForOneLine(video);
      y' := y' - 1;
    }
  }

  method Clear(video: array<byte>) returns (x: int, y: int)
    requires video.Length == PAGE_SIZE
    modifies video
    ensures video[..] == Cleared(old(video[..])) && x == 0 && y == START_HEIGHT
  {
    var i := BAR;
    while i < ROWS * COLS
      invariant BAR <= i <= ROWS * COLS
      invariant forall k :: 2 * BAR <= k < 2 * i ==> video[k] == BlankByte(k)
      invariant forall k :: 0 <= k < PAGE_SIZE && (k < 2 * BAR || 2 * i <= k) ==> video[k] == old(video[k])
    {
      video[2 * i] := SPACE;
      video[2 * i + 1] := ATTRIB;
      i := i + 1;
    }
    x, y := 0, START_HEIGHT;
  }

  /** After clearing, the 30 cells of the terminal bar are as they were and every other cell of the screen is blank. */
  lemma ClearedCells(p: Page, i: nat)
    requires i < 2000
    ensures CellAt(Cleared(p), i) == if i < 30 then CellAt(p, i) else Cell(32, 7)
  {
  }

  // ---------------------------------------------------------------- the tape that never scrolls

  /** An unbounded page: the cells of `base`, then blank cells for ever, overwritten by `written`. */
  datatype Tape = Tape(base: Page, written: map<nat, Cell>, at: nat)

  function TapeCell(t: Tape, i: nat): Cell {
    if i in t.written then t.written[i] else if i < 2000 then CellAt(t.base, i) else Cell(32, 7)
  }

  /** One character on the tape; there is no bottom row and nothing ever moves. */
  function TapePut(t: Tape, c: byte): Tape {
    if c == 10 || c == 13 then t.(at := (t.at / 80 + 1) * 80)
    else Tape(t.base, t.written[t.at := Cell(if c == 0 then 32 else c, 7)], t.at + 1)
  }

  function TapePutAll(t: Tape, text: seq<byte>): Tape
    decreases text
  {
    if text == [] then t else TapePutAll(TapePut(t, text[0]), text[1..])
  }

  lemma {:induction false} TapePutConcat(t: Tape, a: seq<byte>, b: seq<byte>)
    ensures TapePutAll(t, a + b) == TapePutAll(TapePutAll(t, a), b)
    decreases a
  {
    if a == [] {
      assert a + b == b;
    } else {
      assert (a + b)[1..] == a[1..] + b;
      TapePutConcat(TapePut(t, a[0]), a[1..], b);
    }
  }

  /** A text without line breaks and NULs is on the tape, character by character, from where the cursor was. */
  lemma {:induction false} PlainTextOnTape(t: Tape, text: seq<byte>, k: nat)
    requires k < |text| && forall i :: 0 <= i < |text| ==> text[i] !in {0, 10, 13}
    ensures TapePutAll(t, text).at == t.at + |text|
    ensures TapeCell(TapePutAll(t, text), t.at + k) == Cell(text[k], 7)
    ensures forall i: nat :: i < t.at ==> TapeCell(TapePutAll(t, text), i) == TapeCell(t, i)
  {
    var n := |text| - 1;
    var init := text[..n];
    assert text == init + [text[n]];
    TapePutConcat(t, init, [text[n]]);
    assert [text[n]][1..] == [];
    assert TapePutAll(TapePutAll(t, init), [text[n]]) == TapePut(TapePutAll(t, init), text[n]);
    if n > 0 {
      PlainTextOnTape(t, init, if k < n then k else 0);
    }
  }

  /** How many rows of the tape lie above row 0 of the screen when the cursor is at `at`. */
  function RowsAbove(at: nat): nat {
    if at / 80 < 25 then 0 else at / 80 - 24
  }

  ghost predicate CursorAgrees(con: Console, t: Tape) {
    && con.InScreen()
    && 80 * con.y + con.x == t.at - 80 * RowsAbove(t.at)
    && 80 <= t.at
    && forall i :: i in t.written ==> 80 <= i < t.at
  }

  ghost predicate CellAgrees(p: Page, t: Tape, k: nat, i: nat)
    requires i < 2000
  {
    CellAt(p, i) == if i < 80 then CellAt(t.base, i) else TapeCell(t, i + 80 * k)
  }

  ghost predicate PageAgrees(p: Page, t: Tape, k: nat) {
    forall i: nat :: i < 2000 ==> CellAgrees(p, t, k, i)
  }

  /** The console shows the 24 tape rows below its fixed row 0. */
  ghost predicate Shows(con: Console, t: Tape) {
    CursorAgrees(con, t) && PageAgrees(con.page, t, RowsAbove(t.at))
  }

  /** The page with the character written and nothing scrolled yet. */
  function Written(con: Console, c: byte): Page
    requires con.InScreen()
  {
    if IsBreak(c) then con.page else SetCell(con.page, COLS * con.y + con.x, if c == NUL then SPACE else c)
  }

  lemma WrittenCells(con: Console, t: Tape, c: byte, i: nat)
    requires Shows(con, t) && c != BACKSPACE && i < CELLS
    ensures CellAgrees(Written(con, c), TapePut(t, c), RowsAbove(t.at), i)
  {
    assert CellAgrees(con.page, t, RowsAbove(t.at), i);
  }

  lemma CursorAfterPut(con: Console, t: Tape, c: byte)
    requires Shows(con, t) && c != BACKSPACE
    ensures CursorAgrees(Putc(con, c), TapePut(t, c))
    ensures var r, u := Putc(con, c), TapePut(t, c);
            if RowsAbove(u.at) == RowsAbove(t.at) then r.page == Written(con, c)
            else
              && RowsAbove(u.at) == RowsAbove(t.at) + 1
              && u.at == COLS * (ROWS + RowsAbove(t.at))
              && r.page == Scrolled(Written(con, c))
  {
    var k, u := RowsAbove(t.at), TapePut(t, c);
    assert t.at == COLS * (con.y + k) + con.x;
    assert t.at / COLS == con.y + k;
    assert u.at / COLS == if IsBreak(c) || con.x == COLS - 1 then con.y + k + 1 else con.y + k;
  }

  lemma PageAfterPut(con: Console, t: Tape, c: byte, p: Page, k: nat)
    requires Shows(con, t) && c != BACKSPACE
    requires if k == RowsAbove(t.at) then p == Written(con, c)
             else
               && k == RowsAbove(t.at) + 1
               && TapePut(t, c).at == COLS * (ROWS + RowsAbove(t.at))
               && p == Scrolled(Written(con, c))
    ensures PageAgrees(p, TapePut(t, c), k)
  {
    forall i: nat | i < CELLS
      ensures CellAgrees(p, TapePut(t, c), k, i)
    {
      WrittenCells(con, t, c, i);
      if k != RowsAbove(t.at) {
        ScrolledCells(Written(con, c), i);
        if COLS <= i < CELLS - COLS {
          WrittenCells(con, t, c, i + COLS);
        }
      }
    }
  }

  lemma ShowsAfterPut(con: Console, t: Tape, c: byte)
    requires Shows(con, t) && c != BACKSPACE
    ensures Shows(Putc(con, c), TapePut(t, c))
  {
    CursorAfterPut(con, t, c);
    PageAfterPut(con, t, c, Putc(con, c).page, RowsAbove(TapePut(t, c).at));
  }

  /**
   Printing any text without backspaces from row 1 or below: rows 1..24 show the last 24 rows of the
   unscrolled tape, row 0 is untouched, and the cursor is where the tape's cursor is.
   */
  lemma {:induction false} WindowTheorem(con: Console, t: Tape, text: seq<byte>)
    requires Shows(con, t) && BACKSPACE !in text
    ensures Shows(PutAll(con, text), TapePutAll(t, text))
    decreases text
  {
    if text != [] {
      ShowsAfterPut(con, t, text[0]);
      WindowTheorem(Putc(con, text[0]), TapePut(t, text[0]), text[1..]);
    }
  }

  /** Every screen with the cursor in row 1 or below shows the tape that starts from it. */
  lemma EveryScreenShowsItsTape(con: Console)
    requires con.InScreen() && con.y >= START_HEIGHT
    ensures Shows(con, Tape(con.page, map[], COLS * con.y + con.x))
  {
  }

  /**
   Backspace takes the cursor back to where a visible character was typed, and blanks that cell,
   exactly when typing the character did not scroll the screen.
   */
  lemma BackspaceUndoesTyping(con: Console, c: byte)
    requires con.InScreen() && !IsBreak(c) && c != BACKSPACE
    ensures var r := Putc(Putc(con, c), BACKSPACE);
            (r.x == con.x && r.y == con.y) <==> !(con.x == COLS - 1 && con.y == ROWS - 1)
    ensures !(con.x == COLS - 1 && con.y == ROWS - 1) ==>
              Putc(Putc(con, c), BACKSPACE).page == SetCell(con.page, COLS * con.y + con.x, SPACE)
  {
  }
}
