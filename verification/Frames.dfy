/**
 `add_frames` of fish/fish.c: two text files are read side by side, one character of each at a time, and
 every cell where either file has something visible becomes a blinker that alternates between the two.

 `EveryVisibleCellOnce` says which cells are added, `ShowFrames` what the driver holds and the screen shows after
 the adds, and `PlayFrames` what it shows after any number of ticks.
 */
module Frames {
  import opened Bytes
  import opened Blink

  const COLUMNS := 80
  const OFFSET := 40
  const PHASE := 15
  const DIGIT_ZERO: byte := 48

  // ---------------------------------------------------------------- what the two files ask for

  /** The character of a line at a column; past its end a line is padded with newlines. */
  function CharAt(line: seq<byte>, col: nat): byte {
    if col < |line| then line[col] else NEWLINE
  }

  predicate Visible(c: byte) {
    c != SPACE && c != NEWLINE
  }

  function Drawn(c: byte): byte {
    if c == NEWLINE then SPACE else c
  }

  function CellOf(c0: byte, c1: byte, row: nat, col: nat): Blinker {
    Blinker((row * COLUMNS + col + OFFSET) % UINT16_SIZE, Drawn(c0), Drawn(c1), PHASE, PHASE, 0, 0)
  }

  /** The blinkers of one row from a column on, left to right. */
  function RowCells(line0: seq<byte>, line1: seq<byte>, row: nat, col: nat): seq<Blinker>
    decreases |line0| + |line1| - col
  {
    if col >= |line0| && col >= |line1| then []
    else
      var c0, c1 := CharAt(line0, col), CharAt(line1, col);
      (if Visible(c0) || Visible(c1) then [CellOf(c0, c1, row, col)] else []) + RowCells(line0, line1, row, col + 1)
  }

  function First(lines: seq<seq<byte>>): seq<byte> {
    if lines == [] then [] else lines[0]
  }

  function Rest(lines: seq<seq<byte>>): seq<seq<byte>> {
    if lines == [] then [] else lines[1..]
  }

  /** The blinkers of two pictures, row by row; the shorter picture is padded with empty rows. */
  function PictureCells(lines0: seq<seq<byte>>, lines1: seq<seq<byte>>, row: nat): seq<Blinker>
    decreases |lines0| + |lines1|
  {
    if lines0 == [] && lines1 == [] then []
    else RowCells(First(lines0), First(lines1), row, 0) + PictureCells(Rest(lines0), Rest(lines1), row + 1)
  }

  // ---------------------------------------------------------------- reading one file

  /** One input: how far it has been read, whether its end was seen, and the last character. */
  datatype Input = Input(pos: nat, eof: bool, c: byte)

  /** The line that an input is about to read. */
  function NextLine(f: seq<byte>, start: Input): (line: seq<byte>)
    requires start.pos <= |f|
    ensures NEWLINE !in line
  {
    if start.eof then [] else f[start.pos..][..FirstBreak(f[start.pos..])]
  }

  /** Where the input stands once that line is over. */
  function AfterLine(f: seq<byte>, start: Input): (next: Input)
    requires start.pos <= |f|
    ensures next.pos <= |f|
  {
    var end := start.pos + FirstBreak(f[start.pos..]);
    if start.eof then start.(c := NEWLINE)
    else if end == |f| then Input(|f|, true, NEWLINE)
    else Input(end + 1, false, NEWLINE)
  }

  /** `now` is the input after `col` characters of the line that began at `start`. */
  ghost predicate Reading(f: seq<byte>, start: Input, now: Input, col: nat) {
    && start.pos <= |f|
    && if now.c == NEWLINE then col >= |NextLine(f, start)| && now == AfterLine(f, start)
       else !start.eof && now.pos == start.pos + col && !now.eof && col <= |NextLine(f, start)|
  }

  /** `if (c != '\n') read one byte`: afterwards `c` is the character of the line at `col`. */
  method Advance(f: seq<byte>, now: Input, ghost start: Input, ghost col: nat) returns (next: Input)
    requires Reading(f, start, now, col)
    ensures next.c == CharAt(NextLine(f, start), col)
    ensures Reading(f, start, next, col + 1)
  {
    next := now;
    if now.c != NEWLINE {
      ghost var rest := f[start.pos..];
      ghost var n := FirstBreak(rest);
      if now.pos == |f| {
        next := Input(now.pos, true, NEWLINE);
      } else {
        assert f[now.pos] == rest[col];
        assert col < n ==> rest[..n][col] != NEWLINE;
        next := Input(now.pos + 1, false, f[now.pos]);
      }
    }
  }

  // ---------------------------------------------------------------- one row, and the whole picture

  method AddRow(f0: seq<byte>, f1: seq<byte>, in0: Input, in1: Input, row: nat)
    returns (adds: seq<Blinker>, out0: Input, out1: Input)
    requires in0.pos <= |f0| && in1.pos <= |f1|
    requires in0.c == (if in0.eof then NEWLINE else DIGIT_ZERO) && in1.c == if in1.eof then NEWLINE else DIGIT_ZERO
    ensures out0 == AfterLine(f0, in0) && out1 == AfterLine(f1, in1)
    ensures adds == RowCells(NextLine(f0, in0), NextLine(f1, in1), row, 0)
  {
    hide RowCells, NextLine, AfterLine, CellOf;
    adds, out0, out1 := [], in0, in1;
    var col := 0;
    RowStarts(f0, in0);
    RowStarts(f1, in1);
    ghost var line0, line1 := NextLine(f0, in0), NextLine(f1, in1);
    while true
      invariant Reading(f0, in0, out0, col) && Reading(f1, in1, out1, col)
      invariant col <= |line0| || col <= |line1|
      invariant adds + RowCells(line0, line1, row, col) == RowCells(line0, line1, row, 0)
      decreases |line0| + |line1| + 1 - col
    {
      out0 := Advance(f0, out0, in0, col);
      out1 := Advance(f1, out1, in1, col);
      RowGoesOn(adds, line0, line1, row, col);
      if out0.c == NEWLINE && out1.c == NEWLINE {
        LineIsOver(line0, col);
        LineIsOver(line1, col);
        return;
      } else if (out0.c != SPACE && out0.c != NEWLINE) || (out1.c != SPACE && out1.c != NEWLINE) {
        adds := adds + [CellOf(out0.c, out1.c, row, col)];
      }
      col := col + 1;
    }
  }

  lemma RowStarts(f: seq<byte>, start: Input)
    requires start.pos <= |f| && start.c == if start.eof then NEWLINE else DIGIT_ZERO
    ensures Reading(f, start, start, 0)
  {
  }

  lemma RowGoesOn(adds: seq<Blinker>, line0: seq<byte>, line1: seq<byte>, row: nat, col: nat)
    requires NEWLINE !in line0 && NEWLINE !in line1
    ensures var c0, c1 := CharAt(line0, col), CharAt(line1, col);
            if c0 == NEWLINE && c1 == NEWLINE then RowCells(line0, line1, row, col) == []
            else
              var more := if Visible(c0) || Visible(c1) then [CellOf(c0, c1, row, col)] else [];
              adds + RowCells(line0, line1, row, col) == (adds + more) + RowCells(line0, line1, row, col + 1)
  {
    hide CellOf;
  }

  lemma LineIsOver(line: seq<byte>, col: nat)
    requires NEWLINE !in line && CharAt(line, col) == NEWLINE
    ensures col >= |line|
  {
  }

  /** The lines still to come from an input. */
  function LinesLeft(f: seq<byte>, now: Input): seq<seq<byte>>
    requires now.pos <= |f|
  {
    if now.eof then [] else Lines(f[now.pos..])
  }

  lemma {:induction false} LineComesOff(f: seq<byte>, start: Input)
    requires start.pos <= |f|
    ensures NextLine(f, start) == First(LinesLeft(f, start))
    ensures LinesLeft(f, AfterLine(f, start)) == Rest(LinesLeft(f, start))
    ensures start.eof <==> LinesLeft(f, start) == []
  {
    hide FirstBreak, Lines;
    if !start.eof {
      var rest := f[start.pos..];
      var n := FirstBreak(rest);
      if n < |rest| {
        LinesAtNewline(rest, n);
        assert rest[n + 1..] == f[start.pos + n + 1..];
        assert Lines(rest)[1..] == Lines(f[start.pos + n + 1..]);
      } else {
        LastLine(rest);
        assert rest[..n] == rest;
      }
    }
  }

  /** Ready for the next row: a finished file reads as newlines, the other as any ordinary character. */
  method Rewind(f: seq<byte>, now: Input) returns (next: Input)
    requires now.pos <= |f|
    ensures next == now.(c := if now.eof then NEWLINE else DIGIT_ZERO) && LinesLeft(f, next) == LinesLeft(f, now)
  {
    if now.eof {
      next := now.(c := NEWLINE);
    } else {
      next := now.(c := DIGIT_ZERO);
    }
  }

  /**
   The adds that `add_frames` issues: exactly the visible cells of the two pictures, in order, each with what the first
   picture shows there as its on character and what the second shows as its off character.
   */
  method AddFrames(f0: seq<byte>, f1: seq<byte>) returns (adds: seq<Blinker>)
    ensures adds == PictureCells(Lines(f0), Lines(f1), 0)
    ensures CellsSeen(adds, PictureSpots(Lines(f0), Lines(f1)), Lines(f0), Lines(f1))
  {
    hide *;
    adds := [];
    var in0, in1 := Input(0, false, DIGIT_ZERO), Input(0, false, DIGIT_ZERO);
    var row := 0;
    AllLinesLeft(f0);
    AllLinesLeft(f1);
    ghost var left0, left1 := Lines(f0), Lines(f1);
    while !in0.eof || !in1.eof
      invariant in0.pos <= |f0| && in1.pos <= |f1|
      invariant in0.c == (if in0.eof then NEWLINE else DIGIT_ZERO) && in1.c == if in1.eof then NEWLINE else DIGIT_ZERO
      invariant left0 == LinesLeft(f0, in0) && left1 == LinesLeft(f1, in1)
      invariant adds + PictureCells(left0, left1, row) == PictureCells(Lines(f0), Lines(f1), 0)
      decreases |left0| + |left1|
    {
      LineComesOff(f0, in0);
      LineComesOff(f1, in1);
      var more;
      more, in0, in1 := AddRow(f0, f1, in0, in1, row);
      PictureRow(adds, left0, left1, row);
      adds := adds + more;
      in0 := Rewind(f0, in0);
      in1 := Rewind(f1, in1);
      left0, left1 := Rest(left0), Rest(left1);
      row := row + 1;
    }
    LineComesOff(f0, in0);
    LineComesOff(f1, in1);
    PictureOver(adds, row);
    CellsAreSeen(f0, f1);
  }

  lemma AllLinesLeft(f: seq<byte>)
    ensures LinesLeft(f, Input(0, false, DIGIT_ZERO)) == Lines(f)
  {
    assert f[0..] == f;
  }

  lemma PictureRow(adds: seq<Blinker>, lines0: seq<seq<byte>>, lines1: seq<seq<byte>>, row: nat)
    requires lines0 != [] || lines1 != []
    ensures adds + PictureCells(lines0, lines1, row) ==
            (adds + RowCells(First(lines0), First(lines1), row, 0)) + PictureCells(Rest(lines0), Rest(lines1), row + 1)
    ensures |Rest(lines0)| + |Rest(lines1)| < |lines0| + |lines1|
  {
    hide RowCells;
  }

  lemma PictureOver(adds: seq<Blinker>, row: nat)
    ensures adds + PictureCells([], [], row) == adds
  {
  }

  // ---------------------------------------------------------------- which cells are added

  datatype Spot = Spot(row: nat, col: nat)

  predicate Before(p: Spot, q: Spot) {
    p.row < q.row || (p.row == q.row && p.col < q.col)
  }

  function LineAt(lines: seq<seq<byte>>, row: nat): seq<byte> {
    if row < |lines| then lines[row] else []
  }

  /** One of the two pictures shows something at a place. */
  predicate ShowsAt(lines0: seq<seq<byte>>, lines1: seq<seq<byte>>, p: Spot) {
    Visible(CharAt(LineAt(lines0, p.row), p.col)) || Visible(CharAt(LineAt(lines1, p.row), p.col))
  }

  /** The blinker for a place, when the pictures start in row `top`. */
  function CellFor(lines0: seq<seq<byte>>, lines1: seq<seq<byte>>, top: nat, p: Spot): Blinker {
    CellOf(CharAt(LineAt(lines0, p.row), p.col), CharAt(LineAt(lines1, p.row), p.col), top + p.row, p.col)
  }

  /** The visible columns of one row from a column on. */
  function RowSpots(line0: seq<byte>, line1: seq<byte>, col: nat): seq<Spot>
    decreases |line0| + |line1| - col
  {
    if col >= |line0| && col >= |line1| then []
    else (if Visible(CharAt(line0, col)) || Visible(CharAt(line1, col)) then [Spot(0, col)] else [])
         + RowSpots(line0, line1, col + 1)
  }

  function Lowered(spots: seq<Spot>): (r: seq<Spot>)
    ensures |r| == |spots| && forall k :: 0 <= k < |r| ==> r[k] == Spot(spots[k].row + 1, spots[k].col)
  {
    seq(|spots|, k requires 0 <= k < |spots| => Spot(spots[k].row + 1, spots[k].col))
  }

  /** The visible places of two pictures, row by row. */
  function PictureSpots(lines0: seq<seq<byte>>, lines1: seq<seq<byte>>): seq<Spot>
    decreases |lines0| + |lines1|
  {
    if lines0 == [] && lines1 == [] then []
    else RowSpots(First(lines0), First(lines1), 0) + Lowered(PictureSpots(Rest(lines0), Rest(lines1)))
  }

  ghost predicate Sorted(spots: seq<Spot>) {
    forall i, j :: 0 <= i < j < |spots| ==> Before(spots[i], spots[j])
  }

  lemma {:induction false} RowSpotsAre(line0: seq<byte>, line1: seq<byte>, row: nat, col: nat)
    ensures var cells, spots := RowCells(line0, line1, row, col), RowSpots(line0, line1, col);
            && |cells| == |spots|
            && (forall k :: 0 <= k < |spots| ==>
                  && spots[k].row == 0 && spots[k].col >= col
                  && cells[k] == CellOf(CharAt(line0, spots[k].col), CharAt(line1, spots[k].col), row, spots[k].col))
    ensures Sorted(RowSpots(line0, line1, col))
    decreases |line0| + |line1| - col
  {
    hide CellOf, Visible;
    if col < |line0| || col < |line1| {
      RowSpotsAre(line0, line1, row, col + 1);
    }
  }

  lemma {:induction false} RowSpotsHave(line0: seq<byte>, line1: seq<byte>, col: nat, p: Spot)
    ensures p in RowSpots(line0, line1, col) <==>
            p.row == 0 && p.col >= col && (Visible(CharAt(line0, p.col)) || Visible(CharAt(line1, p.col)))
    decreases |line0| + |line1| - col
  {
    if col < |line0| || col < |line1| {
      RowSpotsHave(line0, line1, col + 1, p);
    }
  }

  lemma RowThenRest(row: seq<Spot>, rest: seq<Spot>)
    requires Sorted(row) && Sorted(rest) && forall k :: 0 <= k < |row| ==> row[k].row == 0
    ensures Sorted(row + Lowered(rest))
  {
  }

  /** Cells listed place by place. */
  ghost predicate CellsFor(
    cells: seq<Blinker>, spots: seq<Spot>, lines0: seq<seq<byte>>, lines1: seq<seq<byte>>, top: nat)
  {
    |cells| == |spots| && forall k :: 0 <= k < |spots| ==> cells[k] == CellFor(lines0, lines1, top, spots[k])
  }

  lemma {:induction false} CellsAreSpots(lines0: seq<seq<byte>>, lines1: seq<seq<byte>>, top: nat)
    ensures CellsFor(PictureCells(lines0, lines1, top), PictureSpots(lines0, lines1), lines0, lines1, top)
    ensures Sorted(PictureSpots(lines0, lines1))
    decreases |lines0| + |lines1|
  {
    hide CellOf, RowCells, RowSpots, CharAt, CellsFor, Sorted;
    if lines0 == [] && lines1 == [] {
      NothingToList(lines0, lines1, top);
    } else {
      var rest0, rest1 := Rest(lines0), Rest(lines1);
      CellsAreSpots(rest0, rest1, top + 1);
      var row := RowSpots(First(lines0), First(lines1), 0);
      var spots := PictureSpots(rest0, rest1);
      RowSpotsAre(First(lines0), First(lines1), top, 0);
      RowThenRest(row, spots);
      RowIsListed(lines0, lines1, top);
      RestIsListed(PictureCells(rest0, rest1, top + 1), spots, lines0, lines1, top);
      ListedConcat(RowCells(First(lines0), First(lines1), top, 0), row,
                   PictureCells(rest0, rest1, top + 1), Lowered(spots), lines0, lines1, top);
    }
  }

  lemma NothingToList(lines0: seq<seq<byte>>, lines1: seq<seq<byte>>, top: nat)
    ensures CellsFor([], [], lines0, lines1, top) && Sorted([])
  {
  }

  lemma RowIsListed(lines0: seq<seq<byte>>, lines1: seq<seq<byte>>, top: nat)
    ensures CellsFor(RowCells(First(lines0), First(lines1), top, 0), RowSpots(First(lines0), First(lines1), 0),
                     lines0, lines1, top)
  {
    hide RowCells, RowSpots, CellOf, CharAt, Sorted;
    RowSpotsAre(First(lines0), First(lines1), top, 0);
  }

  lemma RestIsListed(cells: seq<Blinker>, spots: seq<Spot>, lines0: seq<seq<byte>>, lines1: seq<seq<byte>>, top: nat)
    requires CellsFor(cells, spots, Rest(lines0), Rest(lines1), top + 1)
    ensures CellsFor(cells, Lowered(spots), lines0, lines1, top)
  {
    hide CellOf, CharAt;
    forall k | 0 <= k < |spots|
      ensures cells[k] == CellFor(lines0, lines1, top, Lowered(spots)[k])
    {
      assert LineAt(Rest(lines0), spots[k].row) == LineAt(lines0, spots[k].row + 1);
      assert LineAt(Rest(lines1), spots[k].row) == LineAt(lines1, spots[k].row + 1);
    }
  }

  lemma ListedConcat(cells: seq<Blinker>, spots: seq<Spot>, cells': seq<Blinker>, spots': seq<Spot>,
                     lines0: seq<seq<byte>>, lines1: seq<seq<byte>>, top: nat)
    requires CellsFor(cells, spots, lines0, lines1, top) && CellsFor(cells', spots', lines0, lines1, top)
    ensures CellsFor(cells + cells', spots + spots', lines0, lines1, top)
  {
    hide CellFor;
  }

  lemma {:induction false} SpotsHave(lines0: seq<seq<byte>>, lines1: seq<seq<byte>>, p: Spot)
    ensures p in PictureSpots(lines0, lines1) <==> ShowsAt(lines0, lines1, p)
    decreases |lines0| + |lines1|
  {
    hide RowSpots, ShowsAt, Lowered;
    ShowsWhere(lines0, lines1, p);
    if lines0 != [] || lines1 != [] {
      RowSpotsHave(First(lines0), First(lines1), 0, p);
      LoweredHas(PictureSpots(Rest(lines0), Rest(lines1)), p);
      if p.row > 0 {
        SpotsHave(Rest(lines0), Rest(lines1), Spot(p.row - 1, p.col));
      }
    }
  }

  lemma ShowsWhere(lines0: seq<seq<byte>>, lines1: seq<seq<byte>>, p: Spot)
    ensures lines0 == [] && lines1 == [] ==> !ShowsAt(lines0, lines1, p)
    ensures ShowsAt(lines0, lines1, p) <==>
            if p.row > 0 then ShowsAt(Rest(lines0), Rest(lines1), Spot(p.row - 1, p.col))
            else Visible(CharAt(First(lines0), p.col)) || Visible(CharAt(First(lines1), p.col))
  {
  }

  lemma LoweredHas(spots: seq<Spot>, p: Spot)
    ensures p in Lowered(spots) <==> p.row > 0 && Spot(p.row - 1, p.col) in spots
  {
    if p.row > 0 && Spot(p.row - 1, p.col) in spots {
      var k :| 0 <= k < |spots| && spots[k] == Spot(p.row - 1, p.col);
      assert Lowered(spots)[k] == p;
    }
  }

  /**
   One add for each place where a picture shows something, whatever the shapes of the pictures: the adds are the
   cells of a list of places that rises row by row and column by column, and a place is in it exactly when
   something is visible there.
   */
  lemma EveryVisibleCellOnce(lines0: seq<seq<byte>>, lines1: seq<seq<byte>>)
    ensures var cells, spots := PictureCells(lines0, lines1, 0), PictureSpots(lines0, lines1);
            && CellsFor(cells, spots, lines0, lines1, 0) && Sorted(spots)
            && forall p :: p in spots <==> ShowsAt(lines0, lines1, p)
  {
    hide *;
    CellsAreSpots(lines0, lines1, 0);
    forall p
      ensures p in PictureSpots(lines0, lines1) <==> ShowsAt(lines0, lines1, p)
    {
      SpotsHave(lines0, lines1, p);
    }
  }

  // ---------------------------------------------------------------- what is seen

  /** What a picture shows at a place: its character there, or a space past the end of the line or the picture. */
  function Seen(lines: seq<seq<byte>>, p: Spot): byte {
    if p.row < |lines| && p.col < |lines[p.row]| then lines[p.row][p.col] else SPACE
  }

  lemma {:induction false} LinesHaveNoBreak(f: seq<byte>, k: nat)
    requires k < |Lines(f)|
    ensures NEWLINE !in Lines(f)[k]
    decreases |f|
  {
    var n := FirstBreak(f);
    hide FirstBreak;
    if n < |f| && k > 0 {
      LinesHaveNoBreak(f[n + 1..], k - 1);
    }
  }

  lemma SeenIsDrawn(lines: seq<seq<byte>>, p: Spot)
    requires forall k :: 0 <= k < |lines| ==> NEWLINE !in lines[k]
    ensures var c := CharAt(LineAt(lines, p.row), p.col);
            Drawn(c) == Seen(lines, p) && (Visible(c) <==> Seen(lines, p) != SPACE)
  {
    if p.row < |lines| && p.col < |lines[p.row]| {
      assert lines[p.row][p.col] in lines[p.row];
    }
  }

  /** One cell for each place, at its location, with the characters of the two pictures and 15 ticks for each. */
  ghost predicate CellsSeen(cells: seq<Blinker>, spots: seq<Spot>, lines0: seq<seq<byte>>, lines1: seq<seq<byte>>) {
    && |cells| == |spots|
    && forall k :: 0 <= k < |cells| ==>
         cells[k] == Blinker((spots[k].row * 80 + spots[k].col + 40) % 0x1_0000,
                             Seen(lines0, spots[k]), Seen(lines1, spots[k]), 15, 15, 0, 0)
  }

  lemma CellsAreSeen(f0: seq<byte>, f1: seq<byte>)
    ensures CellsSeen(PictureCells(Lines(f0), Lines(f1), 0), PictureSpots(Lines(f0), Lines(f1)), Lines(f0), Lines(f1))
  {
    hide Lines, PictureCells, PictureSpots, Sorted;
    var lines0, lines1 := Lines(f0), Lines(f1);
    CellsAreSpots(lines0, lines1, 0);
    forall k | 0 <= k < |lines0|
      ensures NEWLINE !in lines0[k]
    {
      LinesHaveNoBreak(f0, k);
    }
    forall k | 0 <= k < |lines1|
      ensures NEWLINE !in lines1[k]
    {
      LinesHaveNoBreak(f1, k);
    }
    var spots := PictureSpots(lines0, lines1);
    forall k | 0 <= k < |spots|
      ensures Drawn(CharAt(LineAt(lines0, spots[k].row), spots[k].col)) == Seen(lines0, spots[k])
      ensures Drawn(CharAt(LineAt(lines1, spots[k].row), spots[k].col)) == Seen(lines1, spots[k])
    {
      SeenIsDrawn(lines0, spots[k]);
      SeenIsDrawn(lines1, spots[k]);
    }
  }

  // ---------------------------------------------------------------- what the driver makes of them

  function Place(p: Spot): nat {
    p.row * COLUMNS + p.col + OFFSET
  }

  /** No line shows anything past column 80, and every visible place has a 16-bit location. */
  ghost predicate Fits(lines0: seq<seq<byte>>, lines1: seq<seq<byte>>) {
    forall p :: ShowsAt(lines0, lines1, p) ==> p.col < COLUMNS && Place(p) < UINT16_SIZE
  }

  /** Locations rise, from 40 on. */
  ghost predicate Rising(cells: seq<Blinker>) {
    && (forall k :: 0 <= k < |cells| ==> cells[k].location >= OFFSET + k)
    && forall i, j :: 0 <= i < j < |cells| ==> cells[i].location < cells[j].location
  }

  lemma {:induction false} PlacesRise(cells: seq<Blinker>)
    requires forall k :: 0 <= k < |cells| ==> cells[k].location >= OFFSET
    requires forall i, j :: 0 <= i < j < |cells| ==> cells[i].location < cells[j].location
    ensures Rising(cells)
  {
    if cells != [] {
      var n := |cells| - 1;
      PlacesRise(cells[..n]);
      assert forall k :: 0 <= k < n ==> cells[..n][k] == cells[k];
      assert n > 0 ==> cells[n - 1].location < cells[n].location && cells[..n][n - 1].location >= OFFSET + (n - 1);
    }
  }

  lemma LaterIsFurther(p: Spot, q: Spot)
    requires Before(p, q) && p.col < COLUMNS
    ensures Place(p) < Place(q)
  {
  }

  lemma FittingCellsRise(lines0: seq<seq<byte>>, lines1: seq<seq<byte>>)
    requires Fits(lines0, lines1)
    ensures Rising(PictureCells(lines0, lines1, 0))
    ensures var cells, spots := PictureCells(lines0, lines1, 0), PictureSpots(lines0, lines1);
            |cells| == |spots| && forall k :: 0 <= k < |spots| ==> cells[k].location == Place(spots[k])
  {
    hide PictureCells, PictureSpots, ShowsAt, Rising;
    EveryVisibleCellOnce(lines0, lines1);
    var cells, spots := PictureCells(lines0, lines1, 0), PictureSpots(lines0, lines1);
    forall k | 0 <= k < |spots|
      ensures cells[k].location == Place(spots[k]) && spots[k].col < COLUMNS
    {
      assert spots[k] in spots;
    }
    forall i, j | 0 <= i < j < |cells|
      ensures cells[i].location < cells[j].location
    {
      LaterIsFurther(spots[i], spots[j]);
    }
    PlacesRise(cells);
  }

  function Adds(cells: seq<Blinker>): (ops: seq<Op>)
    ensures |ops| == |cells| && forall k :: 0 <= k < |cells| ==> ops[k] == AddAt(cells[k])
  {
    seq(|cells|, k requires 0 <= k < |cells| => AddAt(cells[k]))
  }

  /** The list after the first n adds: those that are on the screen, the last one first. */
  function Stacked(cells: seq<Blinker>, n: nat): (bs: seq<Blinker>)
    requires n <= |cells|
    ensures |bs| <= n
  {
    if n == 0 then []
    else (if cells[n - 1].location < POOL_SIZE then [Fresh(cells[n - 1])] else []) + Stacked(cells, n - 1)
  }

  lemma {:induction false} StackedIsLower(cells: seq<Blinker>, n: nat)
    requires Rising(cells) && n <= |cells|
    ensures forall k :: 0 <= k < |Stacked(cells, n)| ==> Stacked(cells, n)[k].location >= OFFSET
    ensures n < |cells| ==>
              forall k :: 0 <= k < |Stacked(cells, n)| ==> Stacked(cells, n)[k].location < cells[n].location
  {
    if n > 0 {
      StackedIsLower(cells, n - 1);
    }
  }

  lemma {:induction false} AddsStack(cells: seq<Blinker>, n: nat)
    requires Rising(cells) && n <= |cells|
    ensures ApplyAll([], Adds(cells)[..n]) == Stacked(cells, n)
  {
    if n > 0 {
      var ops := Adds(cells)[..n];
      assert ops[..n - 1] == Adds(cells)[..n - 1] && ops[n - 1] == AddAt(cells[n - 1]);
      AddsStack(cells, n - 1);
    }
  }

  lemma {:induction false} StackedMisses(cells: seq<Blinker>, n: nat, location: uint16)
    requires n <= |cells| && forall k :: 0 <= k < n ==> cells[k].location != location
    ensures BlinkerAt(Stacked(cells, n), location).None?
  {
    hide BlinkerAt;
    if n == 0 {
      NothingHeld(location);
    } else {
      StackedMisses(cells, n - 1, location);
      BlinkerAtCons(Fresh(cells[n - 1]), Stacked(cells, n - 1), location);
      assert [] + Stacked(cells, n - 1) == Stacked(cells, n - 1);
    }
  }

  lemma NothingHeld(location: uint16)
    ensures BlinkerAt([], location) == None
  {
  }

  lemma {:induction false} StackedHolds(cells: seq<Blinker>, n: nat, k: nat)
    requires Rising(cells) && k < n <= |cells| && cells[k].location < POOL_SIZE
    ensures BlinkerAt(Stacked(cells, n), cells[k].location) == Some(Fresh(cells[k]))
  {
    hide BlinkerAt;
    BlinkerAtCons(Fresh(cells[n - 1]), Stacked(cells, n - 1), cells[k].location);
    assert [] + Stacked(cells, n - 1) == Stacked(cells, n - 1);
    if k < n - 1 {
      StackedHolds(cells, n - 1, k);
    }
  }

  lemma BlinkerAtCons(b: Blinker, bs: seq<Blinker>, location: uint16)
    ensures BlinkerAt([b] + bs, location) == if b.location == location then Some(b) else BlinkerAt(bs, location)
  {
    hide FirstAt;
    FirstAtIs([b] + bs, location, if b.location == location then 0 else FirstAt(bs, location) + 1);
  }

  /** At a place of the screen there is the cell of the two pictures, or nothing if neither is visible. */
  ghost predicate HeldAt(bs: seq<Blinker>, lines0: seq<seq<byte>>, lines1: seq<seq<byte>>, p: Spot) {
    p.col < COLUMNS && Place(p) < POOL_SIZE ==>
      BlinkerAt(bs, Place(p)) ==
      if ShowsAt(lines0, lines1, p) then Some(Fresh(CellFor(lines0, lines1, 0, p))) else None
  }

  lemma PictureIsHeld(lines0: seq<seq<byte>>, lines1: seq<seq<byte>>, p: Spot)
    requires Fits(lines0, lines1)
    ensures var cells := PictureCells(lines0, lines1, 0); HeldAt(Stacked(cells, |cells|), lines0, lines1, p)
  {
    hide PictureCells, PictureSpots, ShowsAt, Rising, CellFor, BlinkerAt, Stacked;
    EveryVisibleCellOnce(lines0, lines1);
    FittingCellsRise(lines0, lines1);
    var cells, spots := PictureCells(lines0, lines1, 0), PictureSpots(lines0, lines1);
    if p.col < COLUMNS && Place(p) < POOL_SIZE {
      if ShowsAt(lines0, lines1, p) {
        var k :| 0 <= k < |spots| && spots[k] == p;
        assert cells[k].location == Place(p);
        StackedHolds(cells, |cells|, k);
      } else {
        forall k | 0 <= k < |cells|
          ensures cells[k].location != Place(p)
        {
          OnePlaceOneSpot(spots[k], p);
          assert spots[k] in spots;
        }
        StackedMisses(cells, |cells|, Place(p));
      }
    }
  }

  lemma OnePlaceOneSpot(p: Spot, q: Spot)
    requires p.col < COLUMNS && q.col < COLUMNS
    ensures Place(p) == Place(q) <==> p == q
  {
  }

  lemma AddsAreOrderly(cells: seq<Blinker>, i: nat)
    requires Rising(cells) && i < |cells|
    ensures var bs := ApplyAll([], Adds(cells)[..i]); NoZero(bs) && DrawsWhatItSets(bs, AddAt(cells[i]))
  {
    hide ApplyAll, Adds;
    AddsStack(cells, i);
    StackedIsLower(cells, i);
    StackedMisses(cells, i, cells[i].location);
  }

  // ---------------------------------------------------------------- the two pictures on the screen

  /** The pictures show something at a place of the screen. */
  predicate OnScreen(lines0: seq<seq<byte>>, lines1: seq<seq<byte>>, p: Spot) {
    && p.col < 80 && p.row * 80 + p.col + 40 < 2000
    && (Seen(lines0, p) != SPACE || Seen(lines1, p) != SPACE)
  }

  /**
   The driver holds a blinker for a place exactly when something is seen there: on with what the first picture shows,
   off with what the second shows, for 15 ticks each.
   */
  ghost predicate PictureAt(bs: seq<Blinker>, lines0: seq<seq<byte>>, lines1: seq<seq<byte>>, p: Spot) {
    p.col < 80 && p.row * 80 + p.col + 40 < 2000 ==>
      BlinkerAt(bs, p.row * 80 + p.col + 40) ==
      if OnScreen(lines0, lines1, p)
      then Some(Blinker(p.row * 80 + p.col + 40, Seen(lines0, p), Seen(lines1, p), 15, 15, 15, 1)) else None
  }

  lemma HeldIsPicture(bs: seq<Blinker>, f0: seq<byte>, f1: seq<byte>, p: Spot)
    requires HeldAt(bs, Lines(f0), Lines(f1), p)
    ensures PictureAt(bs, Lines(f0), Lines(f1), p)
  {
    hide Lines, BlinkerAt;
    forall k | 0 <= k < |Lines(f0)|
      ensures NEWLINE !in Lines(f0)[k]
    {
      LinesHaveNoBreak(f0, k);
    }
    forall k | 0 <= k < |Lines(f1)|
      ensures NEWLINE !in Lines(f1)[k]
    {
      LinesHaveNoBreak(f1, k);
    }
    SeenIsDrawn(Lines(f0), p);
    SeenIsDrawn(Lines(f1), p);
    hide CharAt, Drawn, Visible, Seen;
  }

  /**
   `add_frames` with a new driver: afterwards the driver holds the two pictures, and the screen shows the first.
   */
  method ShowFrames(d: Driver, f0: seq<byte>, f1: seq<byte>)
    requires d.Valid() && d.Contents() == [] && Fits(Lines(f0), Lines(f1))
    modifies d, d.pool, d.video
    ensures d.Valid() && InOrder(d.video[..], d.Contents())
    ensures forall p :: PictureAt(d.Contents(), Lines(f0), Lines(f1), p)
    ensures forall p :: OnScreen(Lines(f0), Lines(f1), p) ==>
              d.video[2 * (p.row * 80 + p.col + 40)] == Seen(Lines(f0), p)
  {
    hide ListOk, Blinkers, Fits, Rising, HeldAt, PictureAt, NoZero;
    hide DrawsWhatItSets, ApplyAll, PictureCells, Lines, Stacked;
    var cells := AddFrames(f0, f1);
    FittingCellsRise(Lines(f0), Lines(f1));
    forall i | 0 <= i < |cells|
      ensures NoZero(ApplyAll([], Adds(cells)[..i])) && DrawsWhatItSets(ApplyAll([], Adds(cells)[..i]), AddAt(cells[i]))
    {
      AddsAreOrderly(cells, i);
    }
    d.DoAll(Adds(cells));
    AddsStack(cells, |cells|);
    assert Adds(cells)[..|cells|] == Adds(cells);
    forall p
      ensures PictureAt(d.Contents(), Lines(f0), Lines(f1), p)
    {
      PictureIsHeld(Lines(f0), Lines(f1), p);
      HeldIsPicture(d.Contents(), f0, f1, p);
    }
    forall p | OnScreen(Lines(f0), Lines(f1), p)
      ensures d.video[2 * (p.row * 80 + p.col + 40)] == Seen(Lines(f0), p)
    {
      NothingApplied(d.Contents());
      PhaseIsSeen(d.video[..], d.Contents(), d.Contents(), [], Lines(f0), Lines(f1), p);
    }
  }

  lemma NothingApplied(bs: seq<Blinker>)
    ensures ApplyAll(bs, []) == bs
  {
  }

  /** A place of the screen after some tasklets: the first picture for 15 ticks, then the second for 15, and so on. */
  lemma PhaseIsSeen(video: seq<byte>, bs: seq<Blinker>, now: seq<Blinker>, ops: seq<Op>,
                    lines0: seq<seq<byte>>, lines1: seq<seq<byte>>, p: Spot)
    requires PictureAt(bs, lines0, lines1, p) && OnScreen(lines0, lines1, p) && InOrder(video, now)
    requires now == ApplyAll(bs, ops) && forall i :: 0 <= i < |ops| ==> ops[i].Tick?
    ensures 2 * (p.row * 80 + p.col + 40) < |video|
    ensures video[2 * (p.row * 80 + p.col + 40)] ==
            if TickCount(ops) % 30 < 15 then Seen(lines0, p) else Seen(lines1, p)
  {
    hide ApplyAll, TickedTimes, Seen, DistinctPlaces;
    var place := p.row * 80 + p.col + 40;
    var b := Blinker(place, Seen(lines0, p), Seen(lines1, p), 15, 15, 15, 1);
    assert b == Fresh(b);
    LeftAloneItTicks(bs, ops, place);
    PhaseAfter(b, TickCount(ops));
    var k := FirstAt(now, place);
    assert 2 * now[k].location < |video| && video[2 * now[k].location] == Glyph(now[k]);
  }

  function TickTimes(n: nat): (ops: seq<Op>)
    ensures |ops| == n && forall k :: 0 <= k < n ==> ops[k] == Tick
  {
    seq(n, _ => Tick)
  }

  lemma {:induction false} TickTimesCount(n: nat)
    ensures TickCount(TickTimes(n)) == n
  {
    if n > 0 {
      assert TickTimes(n)[..n - 1] == TickTimes(n - 1);
      TickTimesCount(n - 1);
    }
  }

  /** The animation: after n tasklets the screen shows the first picture when n mod 30 is below 15, else the second. */
  method PlayFrames(d: Driver, f0: seq<byte>, f1: seq<byte>, n: nat)
    requires d.Valid() && d.Contents() == [] && Fits(Lines(f0), Lines(f1))
    modifies d, d.pool, d.video
    ensures d.Valid()
    ensures forall p :: OnScreen(Lines(f0), Lines(f1), p) ==>
              d.video[2 * (p.row * 80 + p.col + 40)] == Seen(if n % 30 < 15 then Lines(f0) else Lines(f1), p)
  {
    ShowFrames(d, f0, f1);
    hide ListOk, Blinkers, Fits, PictureAt, InOrder, OnScreen, Apply, ApplyAll, Lines, Seen;
    ghost var bs := d.Contents();
    TickTimesCount(n);
    d.DoAll(TickTimes(n));
    forall p | OnScreen(Lines(f0), Lines(f1), p)
      ensures d.video[2 * (p.row * 80 + p.col + 40)] == Seen(if n % 30 < 15 then Lines(f0) else Lines(f1), p)
    {
      PhaseIsSeen(d.video[..], bs, d.Contents(), TickTimes(n), Lines(f0), Lines(f1), p);
    }
  }
}
