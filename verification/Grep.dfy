/**
 The user program syscalls/ece391grep.c: it reads a file through a 1024-byte buffer, carries an
 unfinished line down to the front of the buffer, and prints the lines that hold the pattern.

 `DoOneFile` is proved to print exactly the matching *pieces* of the file, where a piece is a line,
 or 1024 bytes of a line that is longer, for every file in which no carried line holds a NUL.
 `LineSearchExactly` says when that is plain line search, and `CarriedExactly` what a NUL does.
 */
module Grep {
  import opened Bytes
  import opened FileSystem

  const BUFSIZE := 1024

  // ---------------------------------------------------------------- specification

  /** Like `Lines`, but a line is also cut after every 1024 bytes. */
  function Pieces(file: seq<byte>): seq<seq<byte>> {
    var n := FirstBreak(file);
    if file == [] then []
    else if n < |file| && n < 1024 then [file[..n]] + Pieces(file[n + 1..])
    else
      var m := Min(|file|, 1024);
      [file[..m]] + Pieces(file[m..])
  }

  ghost predicate Contains(line: seq<byte>, pat: seq<byte>) {
    exists k: nat :: k <= |line| && pat <= line[k..]
  }

  /**
   The lines that are printed: the first pattern byte is compared as a signed `char`, and the empty pattern's is its
   terminator.
   */
  ghost predicate Hit(line: seq<byte>, pat: seq<byte>) {
    if pat == [] then NUL in line else pat[0] < 128 && Contains(line, pat)
  }

  ghost function Shown(line: seq<byte>, fname: seq<byte>, pat: seq<byte>): seq<byte> {
    if Hit(line, pat) then fname + [COLON] + line + [NEWLINE] else []
  }

  ghost function Report(lines: seq<seq<byte>>, fname: seq<byte>, pat: seq<byte>): seq<byte> {
    if lines == [] then [] else Shown(lines[0], fname, pat) + Report(lines[1..], fname, pat)
  }

  /** What the program writes for a line: `ece391_fdputs` stops at a NUL. */
  ghost function Printed(line: seq<byte>, fname: seq<byte>, pat: seq<byte>): seq<byte> {
    if Hit(line, pat) then fname + [COLON] + Str(line) + [NEWLINE] else []
  }

  ghost function Output(lines: seq<seq<byte>>, fname: seq<byte>, pat: seq<byte>): seq<byte> {
    if lines == [] then [] else Printed(lines[0], fname, pat) + Output(lines[1..], fname, pat)
  }

  lemma {:induction false} OutputIsReport(lines: seq<seq<byte>>, fname: seq<byte>, pat: seq<byte>)
    requires forall k :: 0 <= k < |lines| ==> NUL !in lines[k]
    ensures Output(lines, fname, pat) == Report(lines, fname, pat)
  {
    hide Hit;
    if lines != [] {
      StrUnique(lines[0], |lines[0]|);
      OutputIsReport(lines[1..], fname, pat);
    }
  }

  lemma {:induction false} PiecesHaveNoNul(file: seq<byte>, k: nat)
    requires NUL !in file && k < |Pieces(file)|
    ensures NUL !in Pieces(file)[k]
    decreases |file|
  {
    var piece, rest := FirstPiece(file);
    hide Pieces;
    if k > 0 {
      PiecesHaveNoNul(rest, k - 1);
    }
  }

  lemma FirstPiece(file: seq<byte>) returns (piece: seq<byte>, rest: seq<byte>)
    requires Pieces(file) != []
    ensures Pieces(file) == [piece] + Pieces(rest) && |rest| < |file|
    ensures (forall c :: c in piece ==> c in file) && forall c :: c in rest ==> c in file
  {
    var n := FirstBreak(file);
    hide FirstBreak;
    if n < |file| && n < BUFSIZE {
      piece, rest := file[..n], file[n + 1..];
    } else {
      var m := Min(|file|, BUFSIZE);
      piece, rest := file[..m], file[m..];
    }
  }

  /** For a file without NULs the output is the report of its pieces. */
  lemma TextOutput(file: seq<byte>, fname: seq<byte>, pat: seq<byte>)
    requires NUL !in file
    ensures Output(Pieces(file), fname, pat) == Report(Pieces(file), fname, pat)
  {
    hide Pieces, Report, Output;
    forall k | 0 <= k < |Pieces(file)|
      ensures NUL !in Pieces(file)[k]
    {
      PiecesHaveNoNul(file, k);
    }
    OutputIsReport(Pieces(file), fname, pat);
  }

  // ---------------------------------------------------------------- string routines on the buffer

  /** `ece391_strncmp (data + at, s, n)` where the line ends with a NUL at `lineEnd`. */
  method StrncmpAt(data: array<byte>, at: nat, lineEnd: nat, pat: seq<byte>) returns (same: bool)
    requires at <= lineEnd < data.Length && data[lineEnd] == NUL && NUL !in pat
    ensures same <==> pat <= data[at..lineEnd]
  {
    var n := |pat|;
    if n == 0 {
      return true;
    }
    var i := 0;
    while data[at + i] == pat[i]
      invariant 0 <= i < |pat| && n == |pat| - i && at + i <= lineEnd
      invariant forall k :: 0 <= k < i ==> data[at + k] == pat[k]
      decreases n
    {
      assert at + i < lineEnd by {
        assert pat[i] in pat;
      }
      n := n - 1;
      if n == 0 {
        return true;
      }
      i := i + 1;
    }
    assert at + i < lineEnd ==> data[at..lineEnd][i] == data[at + i];
    return false;
  }

  /** `ece391_strcpy (data, data + src)`: the string moves to the front, and what was behind it there stays. */
  method StrcpyDown(data: array<byte>, src: nat, end: nat)
    requires 0 < src <= end < data.Length && data[end] == NUL
    modifies data
    ensures var was := old(data[..]);
            var str := Str(was[src..end]);
            data[..|str|] == str && data[|str|] == NUL && data[|str| + 1..] == was[|str| + 1..]
  {
    ghost var was := data[..];
    var i := 0;
    while true
      invariant 0 <= i <= end - src
      invariant forall k :: 0 <= k < i ==> data[k] == was[src + k]
      invariant forall k :: src <= k < src + i ==> was[k] != NUL
      invariant forall k :: i <= k < data.Length ==> data[k] == was[k]
      decreases end - src - i
    {
      var c := data[src + i];
      data[i] := c;
      if c == NUL {
        StrWithin(was, src, end, i);
        assert data[i + 1..] == was[i + 1..];
        return;
      }
      i := i + 1;
    }
  }

  lemma StrWithin(mem: seq<byte>, lo: nat, hi: nat, n: nat)
    requires lo + n <= hi < |mem| && mem[lo + n] == NUL && forall k :: lo <= k < lo + n ==> mem[k] != NUL
    ensures |Str(mem[lo..hi])| == n && forall k :: 0 <= k < n ==> Str(mem[lo..hi])[k] == mem[lo + k]
  {
    var s := mem[lo..hi];
    assert forall k :: 0 <= k < n ==> s[..n][k] == mem[lo + k];
    StrUnique(s, n);
  }

  /** The search loop over one line. */
  method SearchLine(data: array<byte>, lineStart: nat, lineEnd: nat, pat: seq<byte>) returns (found: bool)
    requires lineStart <= lineEnd < data.Length && data[lineEnd] == NUL && NUL !in pat
    ensures found <==> Hit(data[lineStart..lineEnd], pat)
  {
    ghost var line := data[lineStart..lineEnd];
    var first := Signed(if pat == [] then NUL else pat[0]);
    var check := lineStart;
    while check < lineEnd
      invariant lineStart <= check <= lineEnd
      invariant pat == [] ==> NUL !in line[..check - lineStart]
      invariant pat != [] && pat[0] < 128 ==> forall k: nat :: k < check - lineStart ==> !(pat <= line[k..])
    {
      assert line[check - lineStart] == data[check] && data[check] in line;
      assert line[check - lineStart..] == data[check..lineEnd];
      if first == data[check] {
        var same := StrncmpAt(data, check, lineEnd, pat);
        if same {
          assert Contains(line, pat);
          return true;
        }
      }
      check := check + 1;
    }
    assert line[..|line|] == line;
    return false;
  }

  // ---------------------------------------------------------------- how pieces come off the front

  lemma {:induction false} PieceAtNewline(s: seq<byte>, n: nat)
    requires n < |s| && n < BUFSIZE && NEWLINE !in s[..n] && s[n] == NEWLINE
    ensures Pieces(s) == [s[..n]] + Pieces(s[n + 1..])
  {
    FirstBreakIs(s, n);
    hide FirstBreak;
  }

  lemma {:induction false} PieceAtCut(s: seq<byte>, m: nat)
    requires s != [] && m == Min(|s|, BUFSIZE) && NEWLINE !in s[..m]
    ensures Pieces(s) == [s[..m]] + Pieces(s[m..])
  {
    FirstBreakAtLeast(s, m);
    hide FirstBreak;
  }

  lemma {:induction false} ReportFirst(
      lines: seq<seq<byte>>, line: seq<byte>, rest: seq<seq<byte>>, fname: seq<byte>, pat: seq<byte>)
    requires lines == [line] + rest
    ensures Report(lines, fname, pat) == Shown(line, fname, pat) + Report(rest, fname, pat)
  {
    assert lines[1..] == rest;
  }

  lemma {:induction false} ReportSplits(
      s: seq<byte>, piece: seq<byte>, rest: seq<byte>, fname: seq<byte>, pat: seq<byte>)
    requires Pieces(s) == [piece] + Pieces(rest)
    ensures Report(Pieces(s), fname, pat) == Shown(piece, fname, pat) + Report(Pieces(rest), fname, pat)
  {
    assert Pieces(s)[1..] == Pieces(rest);
  }

  // ---------------------------------------------------------------- the scanner

  /** `line_end`: the first newline at or after `lineStart`, or `last`. */
  method FindLineEnd(data: array<byte>, lineStart: nat, last: nat) returns (lineEnd: nat)
    requires lineStart <= last < data.Length
    ensures lineStart <= lineEnd <= last && NEWLINE !in data[lineStart..lineEnd]
    ensures lineEnd < last ==> data[lineEnd] == NEWLINE
  {
    lineEnd := lineStart;
    while lineEnd < last && NEWLINE != data[lineEnd]
      invariant lineStart <= lineEnd <= last && NEWLINE !in data[lineStart..lineEnd]
    {
      lineEnd := lineEnd + 1;
    }
  }

  /** The buffer holds bytes from..last of `todo`, the text being searched. */
  ghost predicate Buffered(data: array<byte>, from: nat, last: nat, todo: seq<byte>)
    reads data
  {
    && data.Length == BUFSIZE + 1 && data[BUFSIZE] != NEWLINE
    && from <= last <= BUFSIZE && last <= |todo|
    && data[from..last] == todo[from..last]
  }

  /** lo..hi of `todo` is a whole piece: it ends at a newline, at the end of the text, or after 1024 bytes. */
  ghost predicate EndsPiece(todo: seq<byte>, lo: nat, hi: nat) {
    && lo <= hi <= |todo| && hi - lo <= BUFSIZE
    && NEWLINE !in todo[lo..hi]
    && (hi == |todo| || hi - lo == BUFSIZE || todo[hi] == NEWLINE)
  }

  function AfterPiece(todo: seq<byte>, lo: nat, hi: nat): (next: nat)
    requires lo <= hi <= |todo|
    ensures next <= |todo|
  {
    if hi < |todo| && hi - lo < BUFSIZE then hi + 1 else hi
  }

  lemma {:induction false} OutputSplits(
      s: seq<byte>, piece: seq<byte>, rest: seq<byte>, fname: seq<byte>, pat: seq<byte>)
    requires Pieces(s) == [piece] + Pieces(rest)
    ensures Output(Pieces(s), fname, pat) == Printed(piece, fname, pat) + Output(Pieces(rest), fname, pat)
  {
    assert Pieces(s)[1..] == Pieces(rest);
  }

  lemma {:induction false} OutputOnePiece(todo: seq<byte>, lo: nat, hi: nat, fname: seq<byte>, pat: seq<byte>)
    requires EndsPiece(todo, lo, hi)
    ensures Output(Pieces(todo[lo..]), fname, pat) ==
            Printed(todo[lo..hi], fname, pat) + Output(Pieces(todo[AfterPiece(todo, lo, hi)..]), fname, pat)
  {
    var s, n := todo[lo..], hi - lo;
    assert s[..n] == todo[lo..hi];
    if hi < |todo| && n < BUFSIZE {
      PieceAtNewline(s, n);
      assert s[n + 1..] == todo[hi + 1..];
      OutputSplits(s, s[..n], s[n + 1..], fname, pat);
    } else if s == [] {
      assert !Hit(todo[lo..hi], pat);
      assert todo[hi..] == s;
    } else {
      PieceAtCut(s, n);
      assert s[n..] == todo[hi..];
      OutputSplits(s, s[..n], s[n..], fname, pat);
    }
  }

  /** Searches and prints one finished line of the buffer. */
  method FinishLine(data: array<byte>, lineStart: nat, lineEnd: nat, last: nat, fname: seq<byte>, pat: seq<byte>,
                    out: seq<byte>, ghost todo: seq<byte>) returns (out': seq<byte>)
    requires Buffered(data, lineStart, last, todo) && NUL !in pat
    requires lineEnd <= last && EndsPiece(todo, lineStart, lineEnd)
    modifies data
    ensures lineEnd < last ==> Buffered(data, lineEnd + 1, last, todo)
    ensures data[BUFSIZE] != NEWLINE
    ensures out + Output(Pieces(todo[lineStart..]), fname, pat) ==
            out' + Output(Pieces(todo[AfterPiece(todo, lineStart, lineEnd)..]), fname, pat)
  {
    hide Output, Pieces, Printed;
    BufferedLine(data, lineStart, lineEnd, last, todo);
    if lineEnd < last {
      BufferedTail(data, lineStart, lineEnd + 1, last, todo);
    }
    ghost var was := data[..];
    out' := PrintIfFound(data, lineStart, lineEnd, fname, pat, out);
    assert forall k :: 0 <= k < data.Length && k != lineEnd ==> data[k] == was[k];
    OutputOnePiece(todo, lineStart, lineEnd, fname, pat);
  }

  /** The line is ended with a NUL, searched, and printed if it holds the pattern. */
  method PrintIfFound(data: array<byte>, lineStart: nat, lineEnd: nat, fname: seq<byte>, pat: seq<byte>,
                      out: seq<byte>) returns (out': seq<byte>)
    requires lineStart <= lineEnd < data.Length && NUL !in pat
    modifies data
    ensures data[..] == old(data[..])[lineEnd := NUL]
    ensures out' == out + Printed(old(data[lineStart..lineEnd]), fname, pat)
  {
    hide Hit;
    ghost var line := data[lineStart..lineEnd];
    data[lineEnd] := NUL;
    assert data[lineStart..lineEnd] == line;
    var found := SearchLine(data, lineStart, lineEnd, pat);
    out' := out;
    if found {
      out' := out + (fname + [COLON] + Str(data[lineStart..lineEnd]) + [NEWLINE]);
    }
  }

  /** The place after the last newline, or 0. */
  function LastBreak(s: seq<byte>): (k: nat)
    ensures k <= |s|
  {
    if s == [] then 0 else if s[|s| - 1] == NEWLINE then |s| else LastBreak(s[..|s| - 1])
  }

  lemma {:induction false} LastBreakIs(s: seq<byte>, k: nat)
    requires k <= |s| && NEWLINE !in s[k..] && (k == 0 || s[k - 1] == NEWLINE)
    ensures LastBreak(s) == k
  {
    if k < |s| {
      var init := s[..|s| - 1];
      assert s[k..][|s| - 1 - k] == s[|s| - 1];
      assert init[k..] == s[k..][..|init| - k];
      LastBreakIs(init, k);
    }
  }

  /** The line that a full pass over the first `last` bytes leaves unfinished. */
  function Unfinished(todo: seq<byte>, last: nat): (tail: seq<byte>)
    requires last <= |todo|
  {
    todo[LastBreak(todo[..last])..last]
  }

  /**
   Where a pass stops: at the unfinished line, which is carried, or at the end of the buffer, when there is no
   unfinished line, when it is the whole buffer, or when the file ends there.
   */
  ghost predicate StopsAt(todo: seq<byte>, last: nat, from: nat)
    requires last <= |todo|
  {
    var k := LastBreak(todo[..last]);
    (from == k > 0) || (from == last && (k == 0 || last == |todo|))
  }

  /**
   One pass over a freshly filled buffer.  `todo` is everything not yet searched; the pass prints the
   lines it can finish and leaves todo[from..], of which the first `last'` bytes stay in the buffer.  A line that is
   carried must not hold a NUL, since `ece391_strcpy` would stop there.
   */
  method ScanChunk(data: array<byte>, last: nat, cnt: nat, fname: seq<byte>, pat: seq<byte>, out: seq<byte>,
                   ghost todo: seq<byte>) returns (last': nat, out': seq<byte>, ghost from: nat)
    requires Buffered(data, 0, last, todo) && NUL !in pat
    requires last == BUFSIZE || last == |todo|
    requires cnt == 0 ==> last == |todo| && last < BUFSIZE
    requires cnt != 0 && LastBreak(todo[..last]) > 0 ==> NUL !in Unfinished(todo, last)
    modifies data
    ensures from <= |todo| && Buffered(data, 0, last', todo[from..]) && last' < BUFSIZE && from + last' == last
    ensures (cnt == 0 ==> last' == 0) && StopsAt(todo, last, from)
    ensures out + Output(Pieces(todo), fname, pat) == out' + Output(Pieces(todo[from..]), fname, pat)
  {
    hide Output, Pieces, LastBreak;
    out' := out;
    var lineStart := 0;
    assert todo[0..] == todo;
    while true
      invariant lineStart == 0 || (lineStart < last && todo[lineStart - 1] == NEWLINE)
      invariant Buffered(data, lineStart, last, todo)
      invariant out + Output(Pieces(todo), fname, pat) == out' + Output(Pieces(todo[lineStart..]), fname, pat)
      decreases last - lineStart
    {
      var lineEnd := FindLineEnd(data, lineStart, last);
      BufferedLine(data, lineStart, lineEnd, last, todo);
      BreakBefore(todo, lineStart, lineEnd, last);
      if NEWLINE != data[lineEnd] && 0 != cnt && lineStart != 0 {
        from := lineStart;
        last' := Carry(data, lineStart, last, todo);
        return;
      }
      assert EndsPiece(todo, lineStart, lineEnd);
      out' := FinishLine(data, lineStart, lineEnd, last, fname, pat, out', todo);
      lineStart := lineEnd + 1;
      if lineStart >= last {
        from, last' := last, 0;
        return;
      }
    }
  }

  /** Where the last newline is, when the search for a line end reaches `last` or the byte before it. */
  lemma {:induction false} BreakBefore(todo: seq<byte>, lineStart: nat, lineEnd: nat, last: nat)
    requires lineStart <= lineEnd <= last <= |todo| && NEWLINE !in todo[lineStart..lineEnd]
    requires lineStart == 0 || todo[lineStart - 1] == NEWLINE
    ensures lineEnd == last ==> LastBreak(todo[..last]) == lineStart
    ensures lineEnd + 1 == last && todo[lineEnd] == NEWLINE ==> LastBreak(todo[..last]) == last
  {
    if lineEnd == last {
      assert todo[..last][lineStart..] == todo[lineStart..last];
      LastBreakIs(todo[..last], lineStart);
    }
  }

  lemma {:induction false} BufferedTail(data: array<byte>, from: nat, from': nat, last: nat, todo: seq<byte>)
    requires Buffered(data, from, last, todo) && from <= from' <= last
    ensures Buffered(data, from', last, todo)
  {
    forall k | from <= k < last
      ensures data[k] == todo[k]
    {
      assert data[from..last][k - from] == todo[from..last][k - from];
    }
  }

  lemma {:induction false} BufferedLine(data: array<byte>, lineStart: nat, lineEnd: nat, last: nat, todo: seq<byte>)
    requires Buffered(data, lineStart, last, todo) && lineStart <= lineEnd <= last
    ensures data[lineStart..lineEnd] == todo[lineStart..lineEnd] && (lineEnd < last ==> data[lineEnd] == todo[lineEnd])
  {
    SameSlice(data[..], todo, lineStart, lineEnd, last);
    assert data[..][lineStart..lineEnd] == data[lineStart..lineEnd];
  }

  lemma SameSlice(a: seq<byte>, b: seq<byte>, lo: nat, mid: nat, hi: nat)
    requires lo <= mid <= hi <= |a| && hi <= |b| && a[lo..hi] == b[lo..hi]
    ensures a[lo..mid] == b[lo..mid] && (mid < hi ==> a[mid] == b[mid])
  {
    forall k | lo <= k < hi
      ensures a[k] == b[k]
    {
      assert a[lo..hi][k - lo] == b[lo..hi][k - lo];
    }
  }

  /** Moves an unfinished line down to the front of the buffer. */
  method Carry(data: array<byte>, lineStart: nat, last: nat, ghost todo: seq<byte>) returns (last': nat)
    requires Buffered(data, lineStart, last, todo) && 0 < lineStart && NUL !in todo[lineStart..last]
    modifies data
    ensures last' == last - lineStart && Buffered(data, 0, last', todo[lineStart..])
  {
    last' := MoveDown(data, lineStart, last);
    ghost var line := todo[lineStart..last];
    StrUnique(line, |line|);
    assert data[0..last'] == todo[lineStart..][0..last'];
  }

  /** What the carry leaves at the front: the line up to its first NUL, and behind that what was there before. */
  function Carried(buf: seq<byte>, lineStart: nat, last: nat): (front: seq<byte>)
    requires 0 < lineStart <= last <= |buf|
    ensures |front| == last - lineStart
  {
    var str := Str(buf[lineStart..last]);
    str + if |str| == last - lineStart then [] else [NUL] + buf[|str| + 1..last - lineStart]
  }

  /** `data[line_end] = '\0'; ece391_strcpy (data, data + line_start); last -= line_start` */
  method MoveDown(data: array<byte>, lineStart: nat, last: nat) returns (last': nat)
    requires data.Length == BUFSIZE + 1 && 0 < lineStart <= last <= BUFSIZE
    modifies data
    ensures last' == last - lineStart && data[..last'] == Carried(old(data[..]), lineStart, last)
    ensures data[BUFSIZE] == old(data[BUFSIZE]) || data[BUFSIZE] == NUL
  {
    hide Carried;
    ghost var was := data[..];
    data[last] := NUL;
    assert data[..] == was[last := NUL];
    StrcpyDown(data, lineStart, last);
    last' := last - lineStart;
    FrontIs(was, data[..], lineStart, last);
    assert data[..last'] == data[..][..last'];
  }

  lemma FrontIs(was: seq<byte>, now: seq<byte>, lineStart: nat, last: nat)
    requires 0 < lineStart <= last <= BUFSIZE && |was| == |now| == BUFSIZE + 1
    requires var str := Str(was[last := NUL][lineStart..last]);
             now[..|str|] == str && now[|str|] == NUL && now[|str| + 1..] == was[last := NUL][|str| + 1..]
    ensures now[..last - lineStart] == Carried(was, lineStart, last)
    ensures now[BUFSIZE] == was[BUFSIZE] || now[BUFSIZE] == NUL
  {
    var mid := was[last := NUL];
    assert mid[lineStart..last] == was[lineStart..last];
    var n := |Str(was[lineStart..last])|;
    hide Str;
    assert now[BUFSIZE] == now[n + 1..][BUFSIZE - n - 1];
    forall k | n < k < last - lineStart
      ensures now[k] == was[k]
    {
      assert now[n + 1..][k - n - 1] == mid[n + 1..][k - n - 1];
    }
  }

  /** The carry keeps the line exactly when it holds no NUL, or what was behind the NUL happens to be there already. */
  lemma CarriedExactly(buf: seq<byte>, lineStart: nat, last: nat)
    requires 0 < lineStart <= last <= |buf|
    ensures var line := buf[lineStart..last];
            var n := |Str(line)|;
            Carried(buf, lineStart, last) == line <==> n == |line| || buf[n + 1..|line|] == line[n + 1..]
  {
    var line, front := buf[lineStart..last], Carried(buf, lineStart, last);
    var n := |Str(line)|;
    hide Str;
    if n < |line| {
      assert line == line[..n] + [NUL] + line[n + 1..];
      assert front[n + 1..] == buf[n + 1..|line|];
    }
  }

  const OPEN_FAILED := Ascii("file open failed\n")
  const READ_FAILED := Ascii("file read failed\n")

  function ByteOr(img: Image, node: Inode, i: nat, pad: byte): byte {
    if BlockOk(img, node, i / BLOCK_SIZE) then FileByte(img, node, i) else pad
  }

  /** The file, with a space for every byte that cannot be reached; for a readable file, its contents. */
  function Text(img: Image, inode: uint32): (s: seq<byte>)
    ensures |s| == if inode < MAX_FILES then img.inodes[inode].length else 0
  {
    if inode >= MAX_FILES then []
    else seq(img.inodes[inode].length, i requires 0 <= i => ByteOr(img, img.inodes[inode], i, SPACE))
  }

  lemma TextIsContents(img: Image, inode: uint32)
    requires Readable(img, inode)
    ensures Text(img, inode) == Contents(img, inode)
  {
    var node, text, whole := img.inodes[inode], Text(img, inode), Contents(img, inode);
    forall i | 0 <= i < |text|
      ensures text[i] == whole[i]
    {
      DivMonotone(i, node.length);
      assert BlockOk(img, node, i / BLOCK_SIZE);
      assert whole[i] == SliceByte(img, node, 0, node.length, i);
    }
  }

  lemma ReadsText(img: Image, inode: uint32, pos: uint32, n: uint32)
    requires pos <= |Text(img, inode)| && BytesRead(img, inode, pos, n).Some?
    ensures BytesRead(img, inode, pos, n).value == Text(img, inode)[pos..Min(pos + n, |Text(img, inode)|)]
  {
    var text := Text(img, inode);
    var node, end := img.inodes[inode], Min(pos + n, |text|);
    if pos < |text| {
      var got := Slice(img, node, pos, end);
      forall k | 0 <= k < end - pos
        ensures got[k] == text[pos + k]
      {
        DivMonotone(pos, pos + k);
        DivMonotone(pos + k, end);
        assert BlockOk(img, node, (pos + k) / BLOCK_SIZE);
      }
    }
  }

  /**
   No line that is carried from one buffer to the next holds a NUL.  `have` bytes of the text are in the buffer
   before it is filled.
   */
  ghost predicate CarriesClean(todo: seq<byte>, have: nat)
    decreases |todo|
  {
    var n := Min(|todo|, BUFSIZE);
    var k := LastBreak(todo[..n]);
    || have >= n
    || (k == 0 && CarriesClean(todo[n..], 0))
    || (k > 0 && NUL !in Unfinished(todo, n) && CarriesClean(todo[k..], n - k))
  }

  lemma {:induction false} TextIsClean(todo: seq<byte>, have: nat)
    requires NUL !in todo
    ensures CarriesClean(todo, have)
    decreases |todo|
  {
    var n := Min(|todo|, BUFSIZE);
    var k := LastBreak(todo[..n]);
    hide LastBreak;
    if have < n {
      if k == 0 {
        TextIsClean(todo[n..], 0);
      } else {
        TextIsClean(todo[k..], n - k);
      }
    }
  }

  lemma CleanPass(todo: seq<byte>, have: nat, last: nat)
    requires CarriesClean(todo, have) && have < last == Min(|todo|, BUFSIZE)
    ensures LastBreak(todo[..last]) > 0 ==> NUL !in Unfinished(todo, last)
  {
    hide LastBreak;
  }

  /** What a pass over a clean text leaves is clean. */
  lemma CleanAfterPass(todo: seq<byte>, have: nat, last: nat, from: nat)
    requires CarriesClean(todo, have) && have < last == Min(|todo|, BUFSIZE)
    requires StopsAt(todo, last, from) && from <= last
    ensures CarriesClean(todo[from..], last - from)
  {
    hide LastBreak;
    if last == |todo| {
      assert CarriesClean(todo[last..], 0);
    }
  }

  /**
   `do_one_file`.  `target` is the inode behind the descriptor, or nothing when `open` fails; `data` is
   the uninitialised stack buffer.
   */
  method DoOneFile(img: Image, target: Option<uint32>, fname: seq<byte>, pat: seq<byte>, data: array<byte>)
    returns (r: int, out: seq<byte>)
    requires data.Length == BUFSIZE + 1 && data[BUFSIZE] != NEWLINE
    requires target.Some? ==> CarriesClean(Text(img, target.value), 0)
    requires NUL !in pat
    modifies data
    ensures r == 0 || r == -1
    ensures r == 0 <==> target.Some? && Readable(img, target.value)
    ensures r == 0 ==> out == Output(Pieces(Contents(img, target.value)), fname, pat)
    ensures target.None? ==> out == OPEN_FAILED
    ensures r == -1 && target.Some? ==>
              exists done :: out == done + READ_FAILED && done <= Output(Pieces(Text(img, target.value)), fname, pat)
  {
    hide Output, Pieces, Readable, CarriesClean, StopsAt, Text, LastBreak, Unfinished;
    if target.None? {
      return -1, OPEN_FAILED;
    }
    ghost var file := Text(img, target.value);
    var fp := OpenFile(FileOps, target.value, 0);
    var last := 0;
    out := [];
    assert file[0..] == file && [] + Output(Pieces(file), fname, pat) == Output(Pieces(file), fname, pat);
    while true
      invariant fp.inode == target.value && 0 <= last <= fp.pos <= |file| && last < BUFSIZE
      invariant Reached(img, fp)
      invariant Buffered(data, 0, last, file[fp.pos - last..]) && CarriesClean(file[fp.pos - last..], last)
      invariant Output(Pieces(file), fname, pat) == out + Output(Pieces(file[fp.pos - last..]), fname, pat)
      decreases |file| - fp.pos
    {
      ghost var at, pos := fp.pos - last, fp.pos;
      var cnt;
      cnt, fp := Refill(img, fp, data, last, file);
      if cnt == -1 {
        assert out <= Output(Pieces(file), fname, pat);
        return -1, out + READ_FAILED;
      }
      ghost var have := last;
      last := last + cnt;
      if cnt != 0 {
        CleanPass(file[at..], have, last);
      }
      ghost var from;
      last, out, from := ScanChunk(data, last, cnt, fname, pat, out, file[at..]);
      assert file[at..][from..] == file[at + from..];
      if 0 == cnt {
        NothingLeft(fname, pat);
        assert file[fp.pos..] == [];
        TextIsContents(img, target.value);
        return 0, out;
      }
      CleanAfterPass(file[at..], have, have + cnt, from);
    }
  }

  /** The line "ab", and an unfinished line of a NUL and "c". */
  const NUL_FILE: seq<byte> := [97, 98, NEWLINE, NUL, 99]

  /**
   What `do_one_file` does with that file and the pattern "b", from the first read on: the first line is found and
   printed, the second is carried, which leaves the "b" of the first behind its NUL, and after the empty second read
   it is found and printed too, although it holds no "b".
   */
  method NulBringsBackOldText(data: array<byte>, fname: seq<byte>) returns (out: seq<byte>)
    requires data.Length == BUFSIZE + 1 && data[..5] == NUL_FILE && data[5] != NEWLINE
    modifies data
    ensures !CarriesClean(NUL_FILE, 0)
    ensures out == fname + [58, 97, 98, 10] + (fname + [58, 10])
    ensures Output(Pieces(NUL_FILE), fname, [98]) == fname + [58, 97, 98, 10]
  {
    hide Pieces, Output, CarriesClean, Printed, Carried;
    NulFileOutput(fname);
    NulFileIsNotClean();
    ghost var buf := data[..];
    assert data[0..2] == buf[..5][..2];
    NulFileIsMixed(buf, fname);
    out := PrintIfFound(data, 0, 2, fname, [98], []);
    var last := MoveDown(data, 3, 5);
    assert data[0..last] == data[..last];
    out := PrintIfFound(data, 0, last, fname, [98], out);
  }

  lemma NulFileIsMixed(buf: seq<byte>, fname: seq<byte>)
    requires |buf| > 5 && buf[..5] == NUL_FILE
    ensures buf[..5][..2] == [97, 98] && Printed([97, 98], fname, [98]) == fname + [58, 97, 98, 10]
    ensures Carried(buf[2 := NUL], 3, 5) == [NUL, 98]
    ensures Printed([NUL, 98], fname, [98]) == fname + [58, 10]
  {
    hide Hit;
    HitByte([97, 98], 98);
    HitByte([NUL, 98], 98);
    StrUnique([97, 98], 2);
    StrUnique([NUL, 98], 0);
    assert buf[1] == buf[..5][1] && buf[3] == buf[..5][3];
    StrUnique(buf[2 := NUL][3..5], 0);
  }

  lemma NulFileOutput(fname: seq<byte>)
    ensures Output(Pieces(NUL_FILE), fname, [98]) == fname + [58, 97, 98, 10]
  {
    hide Pieces, Output;
    var file := NUL_FILE;
    PieceAtNewline(file, 2);
    assert file[..2] == [97, 98] && file[3..] == [NUL, 99];
    OutputSplits(file, [97, 98], [NUL, 99], fname, [98]);
    PieceAtCut([NUL, 99], 2);
    assert [NUL, 99][..2] == [NUL, 99] && [NUL, 99][2..] == [];
    OutputSplits([NUL, 99], [NUL, 99], [], fname, [98]);
    NothingLeft(fname, [98]);
    HitByte([97, 98], 98);
    HitByte([NUL, 99], 98);
    StrUnique([97, 98], 2);
  }

  lemma NulFileIsNotClean()
    ensures !CarriesClean(NUL_FILE, 0)
  {
    assert NUL_FILE[..5] == NUL_FILE;
    LastBreakIs(NUL_FILE, 3);
    hide LastBreak;
    assert Unfinished(NUL_FILE, 5)[0] == NUL;
  }

  /** Everything before the file position could be read. */
  ghost predicate Reached(img: Image, fp: OpenFile) {
    && fp.pos < MAX_FILES * BLOCK_SIZE
    && (fp.pos > 0 ==> fp.inode < MAX_FILES && TableOk(img, img.inodes[fp.inode], 0, fp.pos))
  }

  lemma NothingLeft(fname: seq<byte>, pat: seq<byte>)
    ensures Report(Pieces([]), fname, pat) == [] == Output(Pieces([]), fname, pat)
  {
  }

  /** `read (fd, data + last, BUFSIZE - last)`: the buffer fills up, or the file ends, or the read fails. */
  method Refill(img: Image, fp: OpenFile, data: array<byte>, last: nat, ghost file: seq<byte>)
    returns (cnt: int, fp': OpenFile)
    requires file == Text(img, fp.inode) && Reached(img, fp)
    requires last < BUFSIZE && last <= fp.pos <= |file| && Buffered(data, 0, last, file[fp.pos - last..])
    modifies data
    ensures cnt == -1 ==> !Readable(img, fp.inode)
    ensures cnt != -1 ==>
              && fp'.inode == fp.inode && fp'.pos == fp.pos + cnt <= |file| && 0 <= cnt <= BUFSIZE - last
              && Buffered(data, 0, last + cnt, file[fp.pos - last..]) && Reached(img, fp')
              && (last + cnt == BUFSIZE || fp'.pos == |file|)
    ensures cnt == 0 ==> fp.pos == |file| && Readable(img, fp.inode)
  {
    hide Text, BytesRead, ReadOutcome, Wraps, Reached, Readable, Buffered;
    RefillFacts(img, fp, BUFSIZE - last, file);
    ghost var todo := file[fp.pos - last..];
    ghost var got := BytesRead(img, fp.inode, fp.pos, BUFSIZE - last);
    if got.Some? {
      NextBytes(file, fp.pos, last, |got.value|);
    }
    cnt, fp' := ReadBehind(img, fp, data, last, todo);
  }

  method ReadBehind(img: Image, fp: OpenFile, data: array<byte>, last: nat, ghost todo: seq<byte>)
    returns (cnt: int, fp': OpenFile)
    requires last < BUFSIZE && Buffered(data, 0, last, todo) && !Wraps(img, fp.inode, fp.pos, BUFSIZE - last)
    requires var got := BytesRead(img, fp.inode, fp.pos, BUFSIZE - last);
             got.Some? ==> last + |got.value| <= |todo| && got.value == todo[last..last + |got.value|]
    modifies data
    ensures var got := BytesRead(img, fp.inode, fp.pos, BUFSIZE - last);
            && (cnt == -1 <==> got.None?)
            && (cnt != -1 ==>
                  && cnt == |got.value| <= BUFSIZE - last && fp.pos + cnt < UINT32_SIZE
                  && fp' == fp.(pos := fp.pos + cnt) && Buffered(data, 0, last + cnt, todo))
  {
    hide BytesRead, ReadOutcome, Wraps;
    assert data[0..last] == data[..][0..last];
    ghost var was := data[..];
    var r;
    r, fp' := FileRead(img, fp, data, last, BUFSIZE - last);
    cnt := r.n;
    if cnt != -1 {
      ghost var more := todo[last..last + cnt];
      assert data[0..last + cnt] == was[0..last] + more == todo[0..last + cnt];
      assert data[BUFSIZE] == was[BUFSIZE];
    }
  }

  lemma NextBytes(file: seq<byte>, pos: nat, last: nat, n: nat)
    requires last <= pos && pos + n <= |file|
    ensures file[pos..pos + n] == file[pos - last..][last..last + n]
  {
  }

  lemma RefillFacts(img: Image, fp: OpenFile, n: uint32, file: seq<byte>)
    requires 0 < n <= BUFSIZE && file == Text(img, fp.inode) && Reached(img, fp) && fp.pos <= |file|
    ensures !Wraps(img, fp.inode, fp.pos, n)
    ensures var got := BytesRead(img, fp.inode, fp.pos, n);
            if got.None? then !Readable(img, fp.inode)
            else
              var next := fp.pos + |got.value|;
              && next <= |file| && next < UINT32_SIZE && got.value == file[fp.pos..next]
              && (|got.value| == n || next == |file|) && Reached(img, fp.(pos := next))
              && (got.value == [] ==> fp.pos == |file| && Readable(img, fp.inode))
  {
    hide Slice;
    var got := BytesRead(img, fp.inode, fp.pos, n);
    if Readable(img, fp.inode) {
      OneReadOfReadable(img, fp.inode, fp.pos, n);
    }
    if got.Some? {
      ReadsText(img, fp.inode, fp.pos, n);
      var end := Min(fp.pos + n, |file|);
      if fp.pos < |file| {
        ExtendFromStart(img, img.inodes[fp.inode], fp.pos, end);
      }
    }
  }

  // ---------------------------------------------------------------- when pieces are lines

  lemma {:induction false} FirstPieceIsFirstLine(file: seq<byte>, n: nat, fname: seq<byte>, pat: seq<byte>)
    requires n < |file| && n <= BUFSIZE && NEWLINE !in file[..n] && file[n] == NEWLINE
    ensures Report(Pieces(file), fname, pat) ==
            Shown(file[..n], fname, pat) + Report(Pieces(file[n + 1..]), fname, pat)
  {
    hide Pieces, Report;
    if n < BUFSIZE {
      PieceAtNewline(file, n);
      ReportSplits(file, file[..n], file[n + 1..], fname, pat);
    } else {
      PieceAtCut(file, n);
      ReportSplits(file, file[..n], file[n..], fname, pat);
      PieceAtNewline(file[n..], 0);
      assert file[n..][..0] == [] && file[n..][1..] == file[n + 1..];
      ReportSplits(file[n..], [], file[n + 1..], fname, pat);
      assert !Hit([], pat);
    }
  }

  // ---------------------------------------------------------------- long lines

  /** Patterns the program can be given: `parse_args` drops every space, and the argument field has 128 bytes. */
  predicate Receivable(pat: seq<byte>) {
    0 < |pat| < 128 && NUL !in pat && SPACE !in pat
  }

  /** A byte that a search can find: `char` is signed, and no pattern holds NUL, space or newline. */
  predicate Searchable(c: byte) {
    c < 128 && c != NUL && c != SPACE && c != NEWLINE
  }

  predicate LineOk(line: seq<byte>) {
    |line| <= 1024 || forall i :: 0 <= i < |line| ==> !Searchable(line[i])
  }

  /** Every line that holds a searchable byte has at most 1024 bytes. */
  ghost predicate LongLinesAreBlind(file: seq<byte>) {
    forall k :: 0 <= k < |Lines(file)| ==> LineOk(Lines(file)[k])
  }

  /** The pieces of a file are those of its first line and then those of the rest, up to an empty piece. */
  lemma {:induction false} FirstLineThenRest(file: seq<byte>, n: nat, fname: seq<byte>, pat: seq<byte>)
    requires n < |file| && NEWLINE !in file[..n] && file[n] == NEWLINE
    ensures Report(Pieces(file), fname, pat) ==
            Report(Pieces(file[..n]), fname, pat) + Report(Pieces(file[n + 1..]), fname, pat)
    decreases n
  {
    hide Pieces, Report;
    if n <= BUFSIZE {
      FirstPieceIsFirstLine(file, n, fname, pat);
      OnePiece(file[..n], fname, pat);
    } else {
      var line := file[..n];
      var rest := file[BUFSIZE..];
      assert file[..BUFSIZE] == line[..BUFSIZE];
      PieceAtCut(file, BUFSIZE);
      PieceAtCut(line, BUFSIZE);
      ReportSplits(file, line[..BUFSIZE], rest, fname, pat);
      ReportSplits(line, line[..BUFSIZE], line[BUFSIZE..], fname, pat);
      assert rest[..n - BUFSIZE] == line[BUFSIZE..] && rest[n - BUFSIZE + 1..] == file[n + 1..];
      FirstLineThenRest(rest, n - BUFSIZE, fname, pat);
    }
  }

  lemma {:induction false} OnePiece(line: seq<byte>, fname: seq<byte>, pat: seq<byte>)
    requires |line| <= BUFSIZE && NEWLINE !in line
    ensures Report(Pieces(line), fname, pat) == Shown(line, fname, pat)
  {
    if line == [] {
      assert !Hit(line, pat);
    } else {
      assert line[..|line|] == line && line[|line|..] == [];
      PieceAtCut(line, |line|);
      ReportSplits(line, line, [], fname, pat);
      NothingLeft(fname, pat);
    }
  }

  lemma HitByte(line: seq<byte>, c: byte)
    requires c < 128
    ensures Hit(line, [c]) <==> c in line
  {
    if c in line {
      var k :| 0 <= k < |line| && line[k] == c;
      assert [c] <= line[k..];
    }
  }

  lemma HitNeedsFirstByte(line: seq<byte>, pat: seq<byte>)
    requires Hit(line, pat) && pat != []
    ensures pat[0] in line
  {
    var k: nat :| k <= |line| && pat <= line[k..];
    assert line[k..][0] == pat[0];
  }

  /** Pieces without the first pattern byte print nothing. */
  lemma {:induction false} BlindLine(line: seq<byte>, fname: seq<byte>, pat: seq<byte>)
    requires NEWLINE !in line && pat != [] && (pat[0] in line ==> pat[0] >= 128)
    ensures Report(Pieces(line), fname, pat) == [] == Shown(line, fname, pat)
    decreases |line|
  {
    hide Pieces;
    if Hit(line, pat) {
      HitNeedsFirstByte(line, pat);
    }
    if |line| <= BUFSIZE {
      OnePiece(line, fname, pat);
    } else {
      PieceAtCut(line, BUFSIZE);
      ReportSplits(line, line[..BUFSIZE], line[BUFSIZE..], fname, pat);
      BlindLine(line[..BUFSIZE], fname, pat);
      BlindLine(line[BUFSIZE..], fname, pat);
    }
  }

  /** The line is not cut, or nothing in it can match. */
  predicate WholeFor(line: seq<byte>, pat: seq<byte>) {
    |line| <= BUFSIZE || (pat != [] && (pat[0] in line ==> pat[0] == NEWLINE || pat[0] >= 128))
  }

  lemma WholeLine(line: seq<byte>, fname: seq<byte>, pat: seq<byte>)
    requires NEWLINE !in line && WholeFor(line, pat)
    ensures Report(Pieces(line), fname, pat) == Shown(line, fname, pat)
  {
    if |line| <= BUFSIZE {
      OnePiece(line, fname, pat);
    } else {
      BlindLine(line, fname, pat);
    }
  }

  ghost predicate AllWholeFor(lines: seq<seq<byte>>, pat: seq<byte>) {
    forall k :: 0 <= k < |lines| ==> WholeFor(lines[k], pat)
  }

  lemma {:induction false} PrintsWholeLines(file: seq<byte>, fname: seq<byte>, pat: seq<byte>)
    requires AllWholeFor(Lines(file), pat)
    ensures Report(Pieces(file), fname, pat) == Report(Lines(file), fname, pat)
    decreases |file|
  {
    hide Pieces, Report, WholeFor, Lines, FirstBreak;
    var n := FirstBreak(file);
    if n == |file| {
      LastLine(file);
      assert file[..n] == file && Lines(file)[0] == file;
      WholeLine(file, fname, pat);
      ReportOne(file, fname, pat);
    } else {
      var line, tail := file[..n], file[n + 1..];
      LinesAtNewline(file, n);
      assert Lines(file)[0] == line;
      assert forall k :: 0 <= k < |Lines(tail)| ==> Lines(tail)[k] == Lines(file)[k + 1];
      WholeLine(line, fname, pat);
      PrintsWholeLines(tail, fname, pat);
      FirstLineThenRest(file, n, fname, pat);
      ReportFirst(Lines(file), line, Lines(tail), fname, pat);
    }
  }

  ghost predicate LinesFit(file: seq<byte>) {
    forall k :: 0 <= k < |Lines(file)| ==> |Lines(file)[k]| <= 1024
  }

  /** With no line over 1024 bytes, exactly the lines that hold the pattern are printed, in order, once each. */
  lemma {:induction false} PrintsMatchingLines(file: seq<byte>, fname: seq<byte>, pat: seq<byte>)
    requires LinesFit(file)
    ensures Report(Pieces(file), fname, pat) == Report(Lines(file), fname, pat)
  {
    hide Pieces, Report, Lines;
    PrintsWholeLines(file, fname, pat);
  }

  lemma LineOkIsWhole(line: seq<byte>, pat: seq<byte>)
    requires LineOk(line) && Receivable(pat)
    ensures WholeFor(line, pat)
  {
    assert pat[0] in pat;
  }

  /** Two outputs that differ at some place, whatever follows them. */
  ghost predicate Diverge(a: seq<byte>, b: seq<byte>, i: nat) {
    i < |a| && i < |b| && a[i] != b[i]
  }

  /** Pieces of a line before its first `m` times 1024 bytes print nothing if they do not hold the byte. */
  lemma {:induction false} SkipBlindPieces(line: seq<byte>, m: nat, c: byte, fname: seq<byte>)
    requires NEWLINE !in line && c < 128 && m * BUFSIZE < |line| && c !in line[..m * BUFSIZE]
    ensures Report(Pieces(line), fname, [c]) == Report(Pieces(line[m * BUFSIZE..]), fname, [c])
    decreases m
  {
    hide Pieces, Report;
    if m == 0 {
      assert line[0..] == line;
    } else {
      var first, rest := line[..BUFSIZE], line[BUFSIZE..];
      PieceAtCut(line, BUFSIZE);
      ReportSplits(line, first, rest, fname, [c]);
      assert first == line[..m * BUFSIZE][..BUFSIZE];
      HitByte(first, c);
      assert rest[..(m - 1) * BUFSIZE] == line[..m * BUFSIZE][BUFSIZE..];
      SkipBlindPieces(rest, m - 1, c, fname);
      assert rest[(m - 1) * BUFSIZE..] == line[m * BUFSIZE..];
    }
  }

  lemma {:induction false} FirstSearchable(line: seq<byte>) returns (q: nat)
    requires exists i :: 0 <= i < |line| && Searchable(line[i])
    ensures q < |line| && Searchable(line[q]) && forall i :: 0 <= i < q ==> !Searchable(line[i])
  {
    q := 0;
    while !Searchable(line[q])
      invariant q < |line| && forall i :: 0 <= i < q ==> !Searchable(line[i])
      decreases |line| - q
    {
      q := q + 1;
    }
  }

  /** The first piece of a line that holds byte c comes first in the output. */
  lemma FirstPieceShown(line: seq<byte>, q: nat, fname: seq<byte>) returns (piece: seq<byte>, more: seq<byte>)
    requires NEWLINE !in line && q < |line| && line[q] < 128 && line[q] !in line[..q / BUFSIZE * BUFSIZE]
    ensures var at := q / BUFSIZE * BUFSIZE;
            piece == line[at..at + Min(|line| - at, BUFSIZE)]
    ensures Report(Pieces(line), fname, [line[q]]) == fname + [COLON] + piece + [NEWLINE] + more
  {
    hide Report, Pieces;
    var c, m := line[q], q / BUFSIZE;
    var rest := line[m * BUFSIZE..];
    var k := Min(|rest|, BUFSIZE);
    piece, more := rest[..k], Report(Pieces(rest[k..]), fname, [c]);
    SkipBlindPieces(line, m, c, fname);
    PieceAtCut(rest, k);
    ReportSplits(rest, piece, rest[k..], fname, [c]);
    assert piece[q - m * BUFSIZE] == c;
    HitByte(piece, c);
  }

  lemma OutputsDiverge(line: seq<byte>, piece: seq<byte>, more: seq<byte>, fname: seq<byte>, j: nat)
    requires j <= |piece| && j < |line| && (if j < |piece| then piece[j] else NEWLINE) != line[j]
    ensures Diverge(fname + [COLON] + piece + [NEWLINE] + more, fname + [COLON] + line + [NEWLINE], |fname| + 1 + j)
  {
  }

  /** A line over 1024 bytes with a searchable byte is not printed as a line for the first such byte. */
  lemma BadLine(line: seq<byte>, fname: seq<byte>) returns (pat: seq<byte>, i: nat)
    requires NEWLINE !in line && !LineOk(line)
    ensures Receivable(pat) && Diverge(Report(Pieces(line), fname, pat), Shown(line, fname, pat), i)
  {
    hide Pieces, Report, Diverge;
    var q := FirstSearchable(line);
    pat := [line[q]];
    HitByte(line, line[q]);
    hide Hit;
    var at := q / BUFSIZE * BUFSIZE;
    var piece, more := FirstPieceShown(line, q, fname);
    var j := if at == 0 then BUFSIZE else q - at;
    OutputsDiverge(line, piece, more, fname, j);
    i := |fname| + 1 + j;
  }

  lemma DivergenceStays(a: seq<byte>, b: seq<byte>, i: nat, more: seq<byte>, rest: seq<byte>)
    requires Diverge(a, b, i)
    ensures a + more != b + rest
  {
    assert (a + more)[i] == a[i] && (b + rest)[i] == b[i];
  }

  lemma PrefixCancels(x: seq<byte>, a: seq<byte>, b: seq<byte>)
    requires a != b
    ensures x + a != x + b
  {
    assert (x + a)[|x|..] == a && (x + b)[|x|..] == b;
  }

  /**
   Every search that the program can be asked for prints the lines that hold the pattern, if and only if every
   line with a searchable byte has at most 1024 bytes.
   */
  lemma {:induction false} LineSearchExactly(file: seq<byte>, fname: seq<byte>)
    ensures LongLinesAreBlind(file) <==>
            forall pat :: Receivable(pat) ==> Report(Pieces(file), fname, pat) == Report(Lines(file), fname, pat)
  {
    hide Pieces, Report, Lines, LineOk, WholeFor, Receivable;
    if LongLinesAreBlind(file) {
      forall pat | Receivable(pat)
        ensures Report(Pieces(file), fname, pat) == Report(Lines(file), fname, pat)
      {
        forall k | 0 <= k < |Lines(file)|
          ensures WholeFor(Lines(file)[k], pat)
        {
          LineOkIsWhole(Lines(file)[k], pat);
        }
        PrintsWholeLines(file, fname, pat);
      }
    } else {
      var pat := BadLines(file, fname);
    }
  }

  lemma {:induction false} BadLines(file: seq<byte>, fname: seq<byte>) returns (pat: seq<byte>)
    requires !LongLinesAreBlind(file)
    ensures Receivable(pat) && Report(Pieces(file), fname, pat) != Report(Lines(file), fname, pat)
    decreases |file|
  {
    hide Pieces, Report, Receivable, LineOk, WholeFor;
    var n := FirstBreak(file);
    if n == |file| {
      LastLine(file);
      assert file[..n] == file && !LineOk(file);
      var i;
      pat, i := BadLine(file, fname);
      ReportOne(file, fname, pat);
      DivergenceStays(Report(Pieces(file), fname, pat), Shown(file, fname, pat), i, [], []);
    } else {
      SplitLines(file, n);
      var line, tail := file[..n], file[n + 1..];
      if LineOk(line) {
        pat := BadLines(tail, fname);
        LineOkIsWhole(line, pat);
        WholeLine(line, fname, pat);
        PrefixCancels(Shown(line, fname, pat), Report(Pieces(tail), fname, pat), Report(Lines(tail), fname, pat));
      } else {
        var i;
        pat, i := BadLine(line, fname);
        DivergenceStays(Report(Pieces(line), fname, pat), Shown(line, fname, pat), i,
                        Report(Pieces(tail), fname, pat), Report(Lines(tail), fname, pat));
      }
      FirstLineThenRest(file, n, fname, pat);
      ReportFirst(Lines(file), line, Lines(tail), fname, pat);
    }
  }

  lemma {:induction false} ReportOne(line: seq<byte>, fname: seq<byte>, pat: seq<byte>)
    ensures Report([line], fname, pat) == Shown(line, fname, pat)
  {
    assert [line][1..] == [] && Report([], fname, pat) == [];
  }

  lemma {:induction false} SplitLines(file: seq<byte>, n: nat)
    requires n == FirstBreak(file) < |file|
    ensures Lines(file) == [file[..n]] + Lines(file[n + 1..]) && NEWLINE !in file[..n] && file[n] == NEWLINE
    ensures LongLinesAreBlind(file) <==> LineOk(file[..n]) && LongLinesAreBlind(file[n + 1..])
  {
    hide LineOk, FirstBreak;
    var tail := file[n + 1..];
    LinesAtNewline(file, n);
    assert Lines(file)[0] == file[..n];
    assert forall k :: 0 <= k < |Lines(tail)| ==> Lines(tail)[k] == Lines(file)[k + 1];
  }
}
