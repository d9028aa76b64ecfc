/**
 The read-only file system of student-distrib/fs.c.

 A file's bytes are reached through a table of block numbers.  `ReadData` copies them in three
 phases (first block, middle blocks, last block) and is proved to deliver a slice of the flat file;
 `ReadsDeliverPrefix` and `Cat` lift that to any sequence of reads.  `ReadableExactlyWhen` and
 `CountExactlyWhenNoWrap` say when the code does so for a file that is all there.  Names are fixed 32-byte fields
 with an optional terminator; directory listing and lookup by name are proved to undo each other.
 */
module FileSystem {
  import opened Bytes

  const BLOCK_SIZE := 4096
  const MAX_FILES := 63 // bounds inode numbers and, in `read_data`, block indices too
  const FILENAME_MAX_CHAR := 32
  const MAX_INODES_PER_FILE := 1023

  type uint32 = n: int | 0 <= n < UINT32_SIZE

  /** A byte count as user programs pass it: a non-negative `int32_t`. */
  type count = n: nat | n < 0x8000_0000

  type int32 = n: int | -0x8000_0000 <= n < 0x8000_0000

  type Block = b: seq<byte> | |b| == BLOCK_SIZE witness seq(BLOCK_SIZE, _ => 0)
  type NameField = s: seq<byte> | |s| == FILENAME_MAX_CHAR witness seq(FILENAME_MAX_CHAR, _ => 0)
  type BlockTable = t: seq<uint32> | |t| == MAX_INODES_PER_FILE witness seq(MAX_INODES_PER_FILE, _ => 0)

  datatype FileType = UserRtc | Directory | Regular
  datatype Dentry = Dentry(filename: NameField, kind: FileType, inode: uint32)
  datatype Inode = Inode(length: uint32, blocks: BlockTable)
  datatype RawImage = RawImage(files: seq<Dentry>, inodes: seq<Inode>, data: seq<Block>)

  /** The boot block has room for 63 entries, and every inode number that passes the range test exists. */
  type Image = img: RawImage | |img.files| <= MAX_FILES && MAX_FILES <= |img.inodes|
    witness RawImage([], seq(MAX_FILES, _ => Inode(0, seq(MAX_INODES_PER_FILE, _ => 0))), [])

  // ---------------------------------------------------------------- the flat file

  predicate BlockOk(img: Image, node: Inode, j: nat) {
    j < MAX_FILES && node.blocks[j] < |img.data|
  }

  /** Every block-table entry from the block of `lo` to the block of `hi`, both included, can be used. */
  predicate TableOk(img: Image, node: Inode, lo: nat, hi: nat) {
    forall j :: lo / BLOCK_SIZE <= j <= hi / BLOCK_SIZE ==> BlockOk(img, node, j)
  }

  function FileByte(img: Image, node: Inode, i: nat): byte
    requires BlockOk(img, node, i / BLOCK_SIZE)
  {
    img.data[node.blocks[i / BLOCK_SIZE]][i % BLOCK_SIZE]
  }

  lemma DivMonotone(a: nat, b: nat)
    requires a <= b
    ensures a / BLOCK_SIZE <= b / BLOCK_SIZE
  {
  }

  function SliceByte(img: Image, node: Inode, lo: nat, hi: nat, k: nat): byte
    requires lo + k <= hi && TableOk(img, node, lo, hi)
  {
    DivMonotone(lo, lo + k);
    DivMonotone(lo + k, hi);
    FileByte(img, node, lo + k)
  }

  /** Bytes lo..hi of the file, each found through the block table on its own. */
  function Slice(img: Image, node: Inode, lo: nat, hi: nat): (s: seq<byte>)
    requires lo <= hi && TableOk(img, node, lo, hi)
    ensures |s| == hi - lo
  {
    seq(hi - lo, (k: nat) requires k < hi - lo => SliceByte(img, node, lo, hi, k))
  }

  /** The whole file can be read: it is empty, or every table entry up to the block of its end is usable. */
  predicate Readable(img: Image, inode: uint32) {
    && inode < MAX_FILES
    && (img.inodes[inode].length == 0 || TableOk(img, img.inodes[inode], 0, img.inodes[inode].length))
  }

  function Contents(img: Image, inode: uint32): (s: seq<byte>)
    requires Readable(img, inode)
    ensures |s| == img.inodes[inode].length < MAX_FILES * BLOCK_SIZE
  {
    assert img.inodes[inode].length > 0 ==> BlockOk(img, img.inodes[inode], img.inodes[inode].length / BLOCK_SIZE);
    if img.inodes[inode].length == 0 then [] else Slice(img, img.inodes[inode], 0, img.inodes[inode].length)
  }

  /** Every byte of the file lies in a data block that exists, whatever the code makes of it. */
  predicate Present(img: Image, node: Inode) {
    forall i :: 0 <= i < node.length ==>
      i / BLOCK_SIZE < MAX_INODES_PER_FILE && node.blocks[i / BLOCK_SIZE] < |img.data|
  }

  /**
   A file that is all there can be read exactly when it is empty, or shorter than 63 blocks and, if it ends at
   the end of a block, followed in the table by another good entry.
   */
  lemma ReadableExactlyWhen(img: Image, inode: uint32)
    requires inode < MAX_FILES
    ensures var node := img.inodes[inode];
            Readable(img, inode) <==>
            || node.length == 0
            || (&& Present(img, node) && node.length < 258048
                && (node.length % 4096 == 0 ==> node.blocks[node.length / 4096] < |img.data|))
  {
    var node := img.inodes[inode];
    if node.length > 0 && TableOk(img, node, 0, node.length) {
      assert BlockOk(img, node, node.length / BLOCK_SIZE);
      forall i | 0 <= i < node.length
        ensures i / BLOCK_SIZE < MAX_INODES_PER_FILE && node.blocks[i / BLOCK_SIZE] < |img.data|
      {
        DivMonotone(i, node.length);
        assert BlockOk(img, node, i / BLOCK_SIZE);
      }
    } else if node.length > 0 && Present(img, node) && node.length < MAX_FILES * BLOCK_SIZE {
      var j :| 0 <= j <= node.length / BLOCK_SIZE && !BlockOk(img, node, j);
      assert j * BLOCK_SIZE / BLOCK_SIZE == j;
      assert j * BLOCK_SIZE >= node.length;
    }
  }

  function ReadEnd(node: Inode, offset: nat, length: nat): (end: nat) {
    Min(offset + length, node.length)
  }

  /** What a read delivers: the bytes, or nothing when the call fails. */
  function BytesRead(img: Image, inode: uint32, offset: uint32, length: uint32): (r: Option<seq<byte>>)
    ensures r.Some? && |r.value| > 0 ==> offset + |r.value| < MAX_FILES * BLOCK_SIZE
  {
    if inode >= MAX_FILES then None
    else
      var node := img.inodes[inode];
      if node.length <= offset then Some([])
      else if TableOk(img, node, offset, ReadEnd(node, offset, length)) then
        DivMonotone(offset, ReadEnd(node, offset, length));
        assert BlockOk(img, node, ReadEnd(node, offset, length) / BLOCK_SIZE);
        Some(Slice(img, node, offset, ReadEnd(node, offset, length)))
      else None
  }

  lemma TableOkWithin(img: Image, node: Inode, lo: nat, hi: nat, lo': nat, hi': nat)
    requires lo <= lo' <= hi' <= hi && TableOk(img, node, lo, hi)
    ensures TableOk(img, node, lo', hi')
  {
    DivMonotone(lo, lo');
    DivMonotone(hi', hi);
  }

  lemma SliceWithinBlock(img: Image, node: Inode, j: nat, a: nat, b: nat)
    requires a <= b <= BLOCK_SIZE && TableOk(img, node, j * BLOCK_SIZE + a, j * BLOCK_SIZE + b)
    requires BlockOk(img, node, j)
    ensures Slice(img, node, j * BLOCK_SIZE + a, j * BLOCK_SIZE + b) == img.data[node.blocks[j]][a..b]
  {
    var s := Slice(img, node, j * BLOCK_SIZE + a, j * BLOCK_SIZE + b);
    forall k | 0 <= k < b - a
      ensures s[k] == img.data[node.blocks[j]][a..b][k]
    {
      var i := j * BLOCK_SIZE + a + k;
      assert i / BLOCK_SIZE == j && i % BLOCK_SIZE == a + k;
      assert s[k] == FileByte(img, node, i);
    }
  }

  lemma SliceConcat(img: Image, node: Inode, lo: nat, mid: nat, hi: nat)
    requires lo <= mid <= hi && TableOk(img, node, lo, hi)
    ensures TableOk(img, node, lo, mid) && TableOk(img, node, mid, hi)
    ensures Slice(img, node, lo, mid) + Slice(img, node, mid, hi) == Slice(img, node, lo, hi)
  {
    TableOkWithin(img, node, lo, hi, lo, mid);
    TableOkWithin(img, node, lo, hi, mid, hi);
  }

  // ---------------------------------------------------------------- read_data

  /** Memory `was` with `bytes` written at `at`. */
  function Patched(was: seq<byte>, at: nat, bytes: seq<byte>): (now: seq<byte>)
    requires at + |bytes| <= |was|
    ensures |now| == |was|
  {
    was[..at] + bytes + was[at + |bytes|..]
  }

  /** Writing `more` right behind `done` extends what was written so far. */
  lemma PatchExtends(was: seq<byte>, at: nat, done: seq<byte>, more: seq<byte>)
    requires at + |done| + |more| <= |was|
    ensures Patched(Patched(was, at, done), at + |done|, more) == Patched(was, at, done + more)
  {
  }

  method Memcpy(buf: array<byte>, at: nat, src: seq<byte>)
    requires at + |src| <= buf.Length
    modifies buf
    ensures buf[..] == Patched(old(buf[..]), at, src)
  {
    var i := 0;
    while i < |src|
      invariant 0 <= i <= |src|
      invariant forall k :: 0 <= k < i ==> buf[at + k] == src[k]
      invariant forall k :: 0 <= k < buf.Length && (k < at || at + i <= k) ==> buf[k] == old(buf[k])
    {
      buf[at + i] := src[i];
      i := i + 1;
    }
  }

  /** The end position as the code computes it, in 32-bit arithmetic. */
  function WrappedEnd(node: Inode, offset: uint32, length: uint32): uint32 {
    var sum := (offset + length) % UINT32_SIZE;
    if sum >= node.length then node.length else sum
  }

  /** A word read as `int32_t`. */
  function Int32(w: uint32): int {
    if w < 0x8000_0000 then w else w - UINT32_SIZE
  }

  /** How a read ends: it comes back with a count, or a page fault stops it. */
  datatype Outcome = Fault | Count(n: int)

  /**
   How `read_data` ends, in 32-bit arithmetic.  When the end position wraps around to a place before the start and
   in the same block, the one copy is given a size just below 2^32, and a page fault ends it.
   */
  function ReadOutcome(img: Image, inode: uint32, offset: uint32, length: uint32): Outcome {
    if inode >= MAX_FILES then Count(-1)
    else
      var node := img.inodes[inode];
      if node.length <= offset then Count(0)
      else
        var end := WrappedEnd(node, offset, length);
        if offset / BLOCK_SIZE >= MAX_FILES || end / BLOCK_SIZE >= MAX_FILES then Count(-1)
        else if !TableOk(img, node, offset, end) then Count(-1)
        else if end < offset && end / BLOCK_SIZE == offset / BLOCK_SIZE then Fault
        else Count(Int32((end - offset) % UINT32_SIZE))
  }

  /** The read starts inside the file and its end position passes 2^32. */
  predicate Wraps(img: Image, inode: uint32, offset: uint32, length: uint32) {
    inode < MAX_FILES && offset < img.inodes[inode].length && offset + length >= UINT32_SIZE
  }

  lemma OutcomeIs(img: Image, inode: uint32, offset: uint32, length: uint32)
    ensures var r := ReadOutcome(img, inode, offset, length);
            if Wraps(img, inode, offset, length) then r in {Fault, Count(-1), Count(length - UINT32_SIZE)}
            else
              var got := BytesRead(img, inode, offset, length);
              r == Count(if got.None? then -1 else |got.value|)
  {
    if inode < MAX_FILES && offset < img.inodes[inode].length {
      var node := img.inodes[inode];
      var end := WrappedEnd(node, offset, length);
      if offset / BLOCK_SIZE < MAX_FILES && end / BLOCK_SIZE < MAX_FILES {
        SmallInt32(end - offset);
      }
      if Wraps(img, inode, offset, length) {
        assert (offset + length) % UINT32_SIZE == offset + length - UINT32_SIZE == end;
      } else {
        assert end == ReadEnd(node, offset, length);
        DivMonotone(offset, end);
        assert TableOk(img, node, offset, end) ==>
            BlockOk(img, node, offset / BLOCK_SIZE) && BlockOk(img, node, end / BLOCK_SIZE);
      }
    }
  }

  /** Where a read leaves the position, when it comes back and does not return -1. */
  function MovesTo(img: Image, inode: uint32, pos: uint32, length: uint32): (r: Option<uint32>)
    ensures r.Some? && pos < MAX_FILES * BLOCK_SIZE ==> r.value < MAX_FILES * BLOCK_SIZE
    ensures !Wraps(img, inode, pos, length) ==>
              var got := BytesRead(img, inode, pos, length);
              if got.None? then r.None? else r.Some? && r.value == pos + |got.value|
  {
    OutcomeIs(img, inode, pos, length);
    var r := ReadOutcome(img, inode, pos, length);
    if r in {Fault, Count(-1)} then None else Some(pos + r.n)
  }

  lemma SmallInt32(n: int)
    requires -0x8000_0000 <= n < 0x8000_0000
    ensures Int32(n % UINT32_SIZE) == n
  {
    assert n % UINT32_SIZE == if n < 0 then n + UINT32_SIZE else n;
  }

  /**
   For a readable file the count returned is the size of the slice asked for exactly when `offset + length`
   stays below 2^32.  Otherwise the read faults if start and end lie in one block, and if not the length comes
   back as a negative number.
   */
  lemma CountExactlyWhenNoWrap(img: Image, inode: uint32, offset: uint32, length: uint32)
    requires Readable(img, inode) && offset < img.inodes[inode].length
    ensures ReadOutcome(img, inode, offset, length) ==
            Count(|Contents(img, inode)[offset..Min(offset + length, img.inodes[inode].length)]|) <==>
            offset + length < UINT32_SIZE
    ensures offset + length >= UINT32_SIZE ==>
              && length - UINT32_SIZE < 0
              && ReadOutcome(img, inode, offset, length) ==
                 if (offset + length - UINT32_SIZE) / BLOCK_SIZE == offset / BLOCK_SIZE then Fault
                 else Count(length - UINT32_SIZE)
  {
    OutcomeIs(img, inode, offset, length);
    var node := img.inodes[inode];
    if offset + length < UINT32_SIZE {
      OneReadOfReadable(img, inode, offset, length);
    } else {
      assert |Contents(img, inode)| == node.length < MAX_FILES * BLOCK_SIZE;
      var end := WrappedEnd(node, offset, length);
      assert (offset + length) % UINT32_SIZE == offset + length - UINT32_SIZE == end;
      DivMonotone(offset, node.length);
      DivMonotone(end, node.length);
      assert TableOk(img, node, offset, end);
      SmallInt32(end - offset);
    }
  }

  /** The blocks of two positions both exist. */
  predicate BothThere(img: Image, node: Inode, a: nat, b: nat) {
    BlockOk(img, node, a / BLOCK_SIZE) && BlockOk(img, node, b / BLOCK_SIZE)
  }

  /** What a read copies when its end lies in a block before its start: the tail of one and the head of the other. */
  function TailAndHead(img: Image, node: Inode, offset: nat, end: nat): (bytes: seq<byte>)
    requires BothThere(img, node, offset, end)
    ensures |bytes| <= 2 * BLOCK_SIZE
  {
    img.data[node.blocks[offset / BLOCK_SIZE]][offset % BLOCK_SIZE..]
    + img.data[node.blocks[end / BLOCK_SIZE]][..end % BLOCK_SIZE]
  }

  /** What `read_data` has to know of a read that starts inside the file. */
  lemma OutcomeCases(img: Image, inode: uint32, offset: uint32, length: uint32)
    requires inode < MAX_FILES && offset < img.inodes[inode].length
    ensures var node, r := img.inodes[inode], ReadOutcome(img, inode, offset, length);
            var end := WrappedEnd(node, offset, length);
            if Wraps(img, inode, offset, length) then end == offset + length - UINT32_SIZE < offset
            else
              && offset <= end <= offset + length
              && (r == Count(-1) ==> BytesRead(img, inode, offset, length).None?)
              && (r != Count(-1) ==>
                    && TableOk(img, node, offset, end) && r == Count(end - offset)
                    && BytesRead(img, inode, offset, length) == Some(Slice(img, node, offset, end)))
  {
    hide Slice;
    OutcomeIs(img, inode, offset, length);
    var node := img.inodes[inode];
    var end := WrappedEnd(node, offset, length);
    if Wraps(img, inode, offset, length) {
      assert (offset + length) % UINT32_SIZE == offset + length - UINT32_SIZE;
    } else {
      assert end == ReadEnd(node, offset, length);
    }
  }

  /**
   The caller's buffer must have room for `length` bytes.  A read that wraps around checks no block number; what it
   copies from blocks that do not exist is not described.
   */
  method ReadData(img: Image, inode: uint32, offset: uint32, buf: array<byte>, at: nat, length: uint32)
    returns (r: Outcome)
    requires at + length <= buf.Length
    modifies buf
    ensures r == ReadOutcome(img, inode, offset, length)
    ensures r == Count(-1) && !Wraps(img, inode, offset, length) ==> buf[..] == old(buf[..])
    ensures !Wraps(img, inode, offset, length) ==>
              var got := BytesRead(img, inode, offset, length);
              && r == Count(if got.None? then -1 else |got.value|)
              && (got.Some? ==> |got.value| <= length && buf[..] == Patched(old(buf[..]), at, got.value))
    ensures Wraps(img, inode, offset, length) && r == Count(length - UINT32_SIZE) ==>
              var node, end := img.inodes[inode], offset + length - UINT32_SIZE;
              BothThere(img, node, offset, end) ==>
                && at + |TailAndHead(img, node, offset, end)| <= buf.Length
                && buf[..] == Patched(old(buf[..]), at, TailAndHead(img, node, offset, end))
  {
    hide Slice, Patched, TailAndHead, BytesRead, TableOk;
    OutcomeIs(img, inode, offset, length);
    if inode >= MAX_FILES {
      return Count(-1);
    }
    var node := img.inodes[inode];
    if node.length <= offset {
      PatchNothing(buf[..], at);
      return Count(0);
    }
    OutcomeCases(img, inode, offset, length);
    var startBlk := offset / BLOCK_SIZE;
    if startBlk >= MAX_FILES {
      return Count(-1);
    }
    var sum := (offset + length) % UINT32_SIZE;
    var end := if sum >= node.length then node.length else sum;
    var endBlk := end / BLOCK_SIZE;
    if endBlk >= MAX_FILES {
      return Count(-1);
    }
    var ok := CheckTable(img, node, startBlk, endBlk);
    TableOkMeans(img, node, offset, end);
    if !ok {
      return Count(-1);
    }
    if end < offset && endBlk == startBlk {
      return Fault;
    }
    CopyRange(img, node, offset, end, buf, at);
    return Count(Int32((end - offset) % UINT32_SIZE));
  }

  lemma TableOkMeans(img: Image, node: Inode, lo: nat, hi: nat)
    ensures TableOk(img, node, lo, hi) <==>
            forall j :: lo / BLOCK_SIZE <= j <= hi / BLOCK_SIZE ==> BlockOk(img, node, j)
  {
  }

  lemma PatchNothing(was: seq<byte>, at: nat)
    requires at <= |was|
    ensures Patched(was, at, []) == was
  {
  }

  /** The copies of `read_data`. */
  method CopyRange(img: Image, node: Inode, offset: uint32, end: uint32, buf: array<byte>, at: nat)
    requires TableOk(img, node, offset, end) && (offset <= end ==> at + (end - offset) <= buf.Length)
    requires end < offset ==> at + 2 * BLOCK_SIZE <= buf.Length && end / BLOCK_SIZE != offset / BLOCK_SIZE
    modifies buf
    ensures offset <= end ==> buf[..] == Patched(old(buf[..]), at, Slice(img, node, offset, end))
    ensures end < offset && BothThere(img, node, offset, end) ==>
              buf[..] == Patched(old(buf[..]), at, TailAndHead(img, node, offset, end))
  {
    hide Slice, Patched;
    var startBlk, endBlk := offset / BLOCK_SIZE, end / BLOCK_SIZE;
    var startOff, endOff := offset - startBlk * BLOCK_SIZE, end - endBlk * BLOCK_SIZE;
    if end < offset {
      if BlockOk(img, node, startBlk) && BlockOk(img, node, endBlk) {
        var tail, head := img.data[node.blocks[startBlk]][startOff..], img.data[node.blocks[endBlk]][..endOff];
        PatchExtends(buf[..], at, tail, head);
        Memcpy(buf, at, tail);
        Memcpy(buf, at + (BLOCK_SIZE - startOff), head);
      } else {
        Scribble(buf);
      }
    } else if endBlk != startBlk {
      DivMonotone(offset, end);
      CopyBlocks(img, node, startBlk, startOff, endBlk, endOff, buf, at, offset, end);
    } else {
      SliceWithinBlock(img, node, startBlk, startOff, endOff);
      Memcpy(buf, at, img.data[node.blocks[startBlk]][startOff..endOff]);
    }
  }

  /** Copies from memory outside the image leave some bytes or other. */
  method Scribble(buf: array<byte>)
    modifies buf
  {
    var i := 0;
    while i < buf.Length {
      buf[i] := *;
      i := i + 1;
    }
  }

  /** The scan for a bad block number between the first and the last block of a read. */
  method CheckTable(img: Image, node: Inode, startBlk: nat, endBlk: nat) returns (ok: bool)
    requires endBlk < MAX_FILES
    ensures ok <==> forall j :: startBlk <= j <= endBlk ==> BlockOk(img, node, j)
  {
    var j := startBlk;
    while j <= endBlk
      invariant startBlk <= j
      invariant forall i :: startBlk <= i < j ==> BlockOk(img, node, i)
    {
      if node.blocks[j] >= |img.data| {
        assert !BlockOk(img, node, j);
        return false;
      }
      j := j + 1;
    }
    return true;
  }

  /** Copying a range that spans several blocks: the first block, the middle blocks, the last block. */
  method CopyBlocks(img: Image, node: Inode, startBlk: nat, startOff: nat, endBlk: nat, endOff: nat,
                    buf: array<byte>, at: nat, ghost offset: nat, ghost end: nat)
    requires offset == startBlk * BLOCK_SIZE + startOff && startOff < BLOCK_SIZE
    requires end == endBlk * BLOCK_SIZE + endOff && endOff < BLOCK_SIZE
    requires TableOk(img, node, offset, end) && at + (end - offset) <= buf.Length
    requires startBlk < endBlk && BlockOk(img, node, startBlk)
    modifies buf
    ensures buf[..] == Patched(old(buf[..]), at, Slice(img, node, offset, end))
  {
    hide Patched, Slice;
    ghost var was := buf[..];
    FirstBlock(img, node, offset, end, startBlk, startOff);
    var first := img.data[node.blocks[startBlk]][startOff..];
    Memcpy(buf, at, first);
    ghost var done := first;
    var ptr := at + (BLOCK_SIZE - startOff);
    var i := startBlk + 1;
    while i < endBlk
      invariant startBlk < i <= endBlk
      invariant IsSlice(img, node, offset, i * BLOCK_SIZE, done) && ptr == at + |done|
      invariant at + |done| <= |was| && buf[..] == Patched(was, at, done)
    {
      done := CopyBlock(img, node, i, BLOCK_SIZE, buf, at, ptr, was, offset, end, done);
      ptr := ptr + BLOCK_SIZE;
      i := i + 1;
    }
    done := CopyBlock(img, node, endBlk, endOff, buf, at, ptr, was, offset, end, done);
  }

  ghost predicate IsSlice(img: Image, node: Inode, lo: nat, hi: nat, bytes: seq<byte>) {
    lo <= hi && TableOk(img, node, lo, hi) && bytes == Slice(img, node, lo, hi)
  }

  /** Copies the first `n` bytes of block `i` behind what was copied before. */
  method CopyBlock(img: Image, node: Inode, i: nat, n: nat, buf: array<byte>, at: nat, ptr: nat,
                   ghost was: seq<byte>, ghost offset: nat, ghost end: nat, ghost done: seq<byte>)
    returns (ghost done': seq<byte>)
    requires i * BLOCK_SIZE + n <= end && n <= BLOCK_SIZE
    requires IsSlice(img, node, offset, i * BLOCK_SIZE, done) && TableOk(img, node, offset, end)
    requires |was| == buf.Length && at + (end - offset) <= |was| && ptr == at + |done|
    requires buf[..] == Patched(was, at, done)
    modifies buf
    ensures IsSlice(img, node, offset, i * BLOCK_SIZE + n, done') && |done'| == |done| + n
    ensures at + |done'| <= |was| && buf[..] == Patched(was, at, done')
  {
    hide Slice, Patched, TableOk;
    ghost var mid := i * BLOCK_SIZE;
    NextBlock(img, node, offset, mid, mid + n, end, i);
    var more := img.data[node.blocks[i]][..n];
    PatchExtends(was, at, done, more);
    Memcpy(buf, ptr, more);
    done' := done + more;
  }

  lemma FirstBlock(img: Image, node: Inode, offset: nat, end: nat, startBlk: nat, startOff: nat)
    requires offset == startBlk * BLOCK_SIZE + startOff && startOff < BLOCK_SIZE
    requires (startBlk + 1) * BLOCK_SIZE <= end && TableOk(img, node, offset, end)
    ensures BlockOk(img, node, startBlk)
    ensures var mid := (startBlk + 1) * BLOCK_SIZE;
            mid <= end && IsSlice(img, node, offset, mid, img.data[node.blocks[startBlk]][startOff..])
  {
    var mid := (startBlk + 1) * BLOCK_SIZE;
    TableOkWithin(img, node, offset, end, offset, mid);
    assert offset / BLOCK_SIZE == startBlk && BlockOk(img, node, startBlk);
    SliceWithinBlock(img, node, startBlk, startOff, BLOCK_SIZE);
  }

  lemma NextBlock(img: Image, node: Inode, offset: nat, mid: nat, next: nat, end: nat, i: nat)
    requires offset <= mid <= next <= end && TableOk(img, node, offset, end)
    requires mid == i * BLOCK_SIZE && next <= mid + BLOCK_SIZE
    ensures TableOk(img, node, offset, mid) && TableOk(img, node, offset, next)
    ensures BlockOk(img, node, i)
    ensures Slice(img, node, offset, next) ==
            Slice(img, node, offset, mid) + img.data[node.blocks[i]][..next - mid]
  {
    TableOkWithin(img, node, offset, end, offset, next);
    SliceConcat(img, node, offset, mid, next);
    DivMonotone(offset, mid);
    DivMonotone(mid, end);
    assert mid / BLOCK_SIZE == i && BlockOk(img, node, i);
    SliceWithinBlock(img, node, i, 0, next - mid);
  }

  // ---------------------------------------------------------------- descriptors and whole-file reads

  datatype Ops = Stdin | Stdout | DirOps | RtcOps | FileOps
  datatype OpenFile = OpenFile(ops: Ops, inode: uint32, pos: uint32)

  method FileRead(img: Image, fp: OpenFile, buf: array<byte>, at: nat, length: uint32)
    returns (r: Outcome, fp': OpenFile)
    requires at + length <= buf.Length
    modifies buf
    ensures r == ReadOutcome(img, fp.inode, fp.pos, length)
    ensures var next := MovesTo(img, fp.inode, fp.pos, length);
            fp' == if next.None? then fp else fp.(pos := next.value)
    ensures r == Count(-1) && !Wraps(img, fp.inode, fp.pos, length) ==> buf[..] == old(buf[..])
    ensures !Wraps(img, fp.inode, fp.pos, length) ==>
              var got := BytesRead(img, fp.inode, fp.pos, length);
              && r == Count(if got.None? then -1 else |got.value|)
              && (got.Some? ==> |got.value| <= length && buf[..] == Patched(old(buf[..]), at, got.value))
  {
    hide ReadOutcome, Patched, TailAndHead;
    OutcomeIs(img, fp.inode, fp.pos, length);
    fp' := fp;
    r := ReadData(img, fp.inode, fp.pos, buf, at, length);
    if r.Count? && r.n != -1 {
      fp' := fp.(pos := (fp.pos + r.n) % UINT32_SIZE);
    }
  }

  function Sum(sizes: seq<count>): nat {
    if sizes == [] then 0 else sizes[0] + Sum(sizes[1..])
  }

  /** The bytes that a sequence of reads through one descriptor delivers, starting at `pos`. */
  function ReadMany(img: Image, inode: uint32, pos: uint32, sizes: seq<count>): seq<byte>
    requires Readable(img, inode) && pos <= img.inodes[inode].length
    decreases sizes
  {
    if sizes == [] then []
    else
      OneReadOfReadable(img, inode, pos, sizes[0]);
      var got := BytesRead(img, inode, pos, sizes[0]).value;
      got + ReadMany(img, inode, pos + |got|, sizes[1..])
  }

  lemma OneReadOfReadable(img: Image, inode: uint32, pos: uint32, n: uint32)
    requires Readable(img, inode) && pos <= img.inodes[inode].length
    ensures BytesRead(img, inode, pos, n) ==
            Some(Contents(img, inode)[pos..Min(pos + n, img.inodes[inode].length)])
  {
    var node := img.inodes[inode];
    if pos == node.length {
      assert Contents(img, inode)[pos..pos] == [];
    } else {
      var end := ReadEnd(node, pos, n);
      TableOkWithin(img, node, 0, node.length, pos, end);
      SliceConcat(img, node, 0, pos, node.length);
      TableOkWithin(img, node, 0, node.length, pos, node.length);
      SliceConcat(img, node, pos, end, node.length);
      var whole := Contents(img, inode);
      assert whole == Slice(img, node, 0, pos) + (Slice(img, node, pos, end) + Slice(img, node, end, node.length));
      assert whole[pos..end] == Slice(img, node, pos, end);
    }
  }

  /** However the sizes are chosen, the reads deliver the file in order, nothing twice, until it ends. */
  lemma {:induction false} ReadsDeliverPrefix(img: Image, inode: uint32, pos: uint32, sizes: seq<count>)
    requires Readable(img, inode) && pos <= img.inodes[inode].length
    ensures ReadMany(img, inode, pos, sizes) ==
            Contents(img, inode)[pos..Min(pos + Sum(sizes), img.inodes[inode].length)]
    decreases sizes
  {
    hide Contents, BytesRead, Readable, Slice;
    var whole := Contents(img, inode);
    if sizes == [] {
      assert whole[pos..pos] == [];
    } else {
      OneReadOfReadable(img, inode, pos, sizes[0]);
      var mid, end := Min(pos + sizes[0], |whole|), Min(pos + Sum(sizes), |whole|);
      assert Min(mid + Sum(sizes[1..]), |whole|) == end && |whole[pos..mid]| == mid - pos;
      ReadsDeliverPrefix(img, inode, mid, sizes[1..]);
      SplitSlice(whole, pos, mid, end);
      assert ReadMany(img, inode, pos, sizes) == whole[pos..mid] + ReadMany(img, inode, mid, sizes[1..]);
    }
  }

  /** A read that asks for something and gets nothing comes exactly when everything has been delivered. */
  lemma EmptyReadExactlyAtTheEnd(img: Image, inode: uint32, pos: uint32, sizes: seq<count>, n: count)
    requires Readable(img, inode) && pos <= img.inodes[inode].length && n > 0
    ensures var done := ReadMany(img, inode, pos, sizes);
            && pos + |done| <= img.inodes[inode].length
            && (BytesRead(img, inode, pos + |done|, n) == Some([]) <==> done == Contents(img, inode)[pos..])
  {
    hide Contents, BytesRead, TableOk, ReadMany;
    var whole := Contents(img, inode);
    ReadsDeliverPrefix(img, inode, pos, sizes);
    var done := ReadMany(img, inode, pos, sizes);
    OneReadOfReadable(img, inode, pos + |done|, n);
    assert done == whole[pos..] <==> pos + |done| == |whole|;
  }

  lemma SplitSlice(s: seq<byte>, a: nat, b: nat, c: nat)
    requires a <= b <= c <= |s|
    ensures s[a..b] + s[b..c] == s[a..c]
  {
  }

  /** The user program `cat`: it copies the whole file and succeeds exactly when the file is readable. */
  method Cat(img: Image, inode: uint32) returns (status: int, out: seq<byte>)
    ensures status == 0 <==> Readable(img, inode)
    ensures status == 0 ==> out == Contents(img, inode)
    ensures status == 0 || status == 3
  {
    hide BytesRead, Readable, Slice;
    out := [];
    var buf := new byte[1024];
    var fp := OpenFile(FileOps, inode, 0);
    while true
      invariant fp.inode == inode && fp.pos < MAX_FILES * BLOCK_SIZE
      invariant inode < MAX_FILES ==> Copied(img, img.inodes[inode], fp.pos, out)
      decreases if inode < MAX_FILES then img.inodes[inode].length - fp.pos else 0
    {
      CatFacts(img, inode, fp.pos, out);
      var cnt, bytes;
      cnt, bytes, fp := ReadChunk(img, fp, buf);
      if cnt == 0 {
        return 0, out;
      }
      if cnt == -1 {
        return 3, out;
      }
      out := out + bytes;
    }
  }

  /** One read of 1024 bytes into the front of the buffer. */
  method ReadChunk(img: Image, fp: OpenFile, buf: array<byte>) returns (cnt: int, bytes: seq<byte>, fp': OpenFile)
    requires buf.Length == 1024 && fp.pos < MAX_FILES * BLOCK_SIZE
    modifies buf
    ensures var got := BytesRead(img, fp.inode, fp.pos, 1024);
            && fp'.inode == fp.inode
            && if got.None? then cnt == -1 else cnt == |bytes| && bytes == got.value && fp'.pos == fp.pos + cnt
  {
    hide BytesRead, ReadOutcome;
    var r;
    r, fp' := FileRead(img, fp, buf, 0, 1024);
    cnt := r.n;
    bytes := if cnt == -1 then [] else buf[..cnt];
  }

  /** What one read tells `cat`. */
  lemma CatFacts(img: Image, inode: uint32, pos: uint32, out: seq<byte>)
    requires inode < MAX_FILES ==> Copied(img, img.inodes[inode], pos, out)
    ensures var got := BytesRead(img, inode, pos, 1024);
            if got.None? then !Readable(img, inode)
            else
              && inode < MAX_FILES && Copied(img, img.inodes[inode], pos + |got.value|, out + got.value)
              && (got.value == [] ==> Readable(img, inode) && out == Contents(img, inode))
  {
    hide Slice;
    var got := BytesRead(img, inode, pos, 1024);
    if Readable(img, inode) {
      OneReadOfReadable(img, inode, pos, 1024);
    }
    if got.Some? && pos < img.inodes[inode].length {
      ExtendFromStart(img, img.inodes[inode], pos, pos + |got.value|);
    }
  }

  /** `out` is the first `pos` bytes of the file. */
  ghost predicate Copied(img: Image, node: Inode, pos: nat, out: seq<byte>) {
    && pos <= node.length && |out| == pos
    && (pos > 0 ==> TableOk(img, node, 0, pos) && out == Slice(img, node, 0, pos))
  }

  lemma ExtendFromStart(img: Image, node: Inode, start: nat, end: nat)
    requires start <= end && TableOk(img, node, start, end)
    requires start > 0 ==> TableOk(img, node, 0, start)
    ensures TableOk(img, node, 0, end)
    ensures start > 0 ==> Slice(img, node, 0, end) == Slice(img, node, 0, start) + Slice(img, node, start, end)
  {
    if start > 0 {
      forall j | 0 <= j <= end / BLOCK_SIZE
        ensures BlockOk(img, node, j)
      {
        assert j <= start / BLOCK_SIZE || start / BLOCK_SIZE <= j;
      }
      SliceConcat(img, node, 0, start, end);
    }
  }

  // ---------------------------------------------------------------- names

  /** The string held in memory: the bytes before the first NUL. */
  function Str(mem: seq<byte>): (s: seq<byte>)
    ensures |s| <= |mem| && s == mem[..|s|] && NUL !in s
    ensures |s| < |mem| ==> mem[|s|] == NUL
  {
    if mem == [] || mem[0] == NUL then [] else [mem[0]] + Str(mem[1..])
  }

  lemma StrUnique(mem: seq<byte>, n: nat)
    requires n <= |mem| && NUL !in mem[..n]
    requires n < |mem| ==> mem[n] == NUL
    ensures Str(mem) == mem[..n]
  {
    if n > 0 {
      assert mem[..n][0] != NUL;
      assert mem[1..][..n - 1] == mem[..n][1..];
      StrUnique(mem[1..], n - 1);
    }
  }

  method Strlen(s: seq<byte>) returns (len: nat)
    requires NUL in s
    ensures len == |Str(s)| < |s|
  {
    len := 0;
    while s[len] != NUL
      invariant len < |s| && NUL !in s[..len] && NUL in s[len..]
      decreases |s| - len
    {
      assert s[len..] == [s[len]] + s[len + 1..];
      len := len + 1;
    }
    StrUnique(s, len);
  }

  function Signed(b: byte): int {
    if b < 128 then b else b - 256
  }

  method Strncmp(s1: seq<byte>, s2: seq<byte>, n: nat) returns (r: int)
    requires n <= |s1| && (n <= |s2| || NUL in s2)
    ensures r == 0 <==> Str(s1[..n]) == Str(s2[..Min(n, |s2|)])
  {
    var i := 0;
    while i < n
      invariant 0 <= i <= n && i <= |s2|
      invariant s1[..i] == s2[..i] && NUL !in s1[..i]
      invariant n <= |s2| || NUL in s2[i..]
    {
      assert i < |s2|;
      if s1[i] != s2[i] || s1[i] == NUL {
        assert s1[..n][..i] == s1[..i] && s2[..Min(n, |s2|)][..i] == s2[..i];
        StrDecidedAt(s1[..n], s2[..Min(n, |s2|)], i);
        return Signed(s1[i]) - Signed(s2[i]);
      }
      assert s2[i..] == [s2[i]] + s2[i + 1..];
      i := i + 1;
    }
    StrUnique(s1[..n], n);
    StrUnique(s2[..n], n);
    return 0;
  }

  lemma StrDecidedAt(a: seq<byte>, b: seq<byte>, i: nat)
    requires i < |a| && i < |b| && a[..i] == b[..i] && NUL !in a[..i]
    requires a[i] != b[i] || a[i] == NUL
    ensures Str(a) == Str(b) <==> a[i] == b[i]
  {
    if i > 0 {
      assert a[..i][0] == a[0] && b[..i][0] == b[0];
      TailAgrees(a, b, i);
      StrDecidedAt(a[1..], b[1..], i - 1);
      assert Str(a)[1..] == Str(a[1..]) && Str(b)[1..] == Str(b[1..]);
    }
  }

  lemma TailAgrees(a: seq<byte>, b: seq<byte>, i: nat)
    requires 0 < i <= |a| && i <= |b| && a[..i] == b[..i] && NUL !in a[..i]
    ensures a[1..][..i - 1] == b[1..][..i - 1] && NUL !in a[1..][..i - 1]
  {
    assert a[1..][..i - 1] == a[..i][1..];
    assert b[1..][..i - 1] == b[..i][1..];
  }

  method Strncpy(dest: array<byte>, src: seq<byte>, n: nat)
    requires n <= dest.Length && n <= |src|
    modifies dest
    ensures dest[..n] == Str(src[..n]) + seq(n - |Str(src[..n])|, _ => NUL)
    ensures dest[n..] == old(dest[n..])
  {
    var i := 0;
    while i < n && src[i] != NUL
      invariant 0 <= i <= n
      invariant dest[..i] == src[..i] && NUL !in src[..i] && dest[n..] == old(dest[n..])
    {
      dest[i] := src[i];
      i := i + 1;
    }
    assert src[..n][..i] == src[..i];
    StrUnique(src[..n], i);
    ghost var len := i;
    while i < n
      invariant len <= i <= n
      invariant dest[..len] == Str(src[..n]) && dest[n..] == old(dest[n..])
      invariant forall k :: len <= k < i ==> dest[k] == NUL
    {
      dest[i] := NUL;
      i := i + 1;
    }
  }

  // ---------------------------------------------------------------- directory entries

  function NameOf(d: Dentry): seq<byte> {
    Str(d.filename)
  }

  /** The index of the first directory entry called `name`. */
  function FindFirst(files: seq<Dentry>, name: seq<byte>): (r: Option<nat>)
    ensures r.None? <==> forall i :: 0 <= i < |files| ==> NameOf(files[i]) != name
    ensures r.Some? ==>
              && r.value < |files| && NameOf(files[r.value]) == name
              && forall i :: 0 <= i < r.value ==> NameOf(files[i]) != name
  {
    if files == [] then None
    else if NameOf(files[0]) == name then Some(0)
    else
      var rest := FindFirst(files[1..], name);
      assert forall i :: 0 < i < |files| ==> files[i] == files[1..][i - 1];
      if rest.None? then None else Some(rest.value + 1)
  }

  // ---------------------------------------------------------------- files that are there and cannot be read as asked

  const F_NAME: NameField := [102] + seq(FILENAME_MAX_CHAR - 1, _ => 0)

  /** An image with one data block and one regular file, "f", of the given length and block table. */
  function OneBlockImage(length: uint32, blocks: BlockTable): Image {
    RawImage([Dentry(F_NAME, Regular, 0)], seq(MAX_FILES, _ => Inode(length, blocks)), [seq(BLOCK_SIZE, _ => 0)])
  }

  /** The file can be found by its name. */
  lemma OneFileIsFound(length: uint32, blocks: BlockTable)
    ensures FindFirst(OneBlockImage(length, blocks).files, Str([102, NUL])) == Some(0)
  {
    StrUnique(F_NAME, 1);
    StrUnique([102, NUL], 1);
  }

  /** A file of exactly one block is refused because of the table entry after it. */
  lemma FullBlockIsRefused()
    ensures var img := OneBlockImage(BLOCK_SIZE, seq(MAX_INODES_PER_FILE, i => if i == 0 then 0 else 1));
            Present(img, img.inodes[0]) && !Readable(img, 0) && BytesRead(img, 0, 0, BLOCK_SIZE).None?
  {
    var blocks: BlockTable := seq(MAX_INODES_PER_FILE, i => if i == 0 then 0 else 1);
    var img := OneBlockImage(BLOCK_SIZE, blocks);
    assert !BlockOk(img, img.inodes[0], 1);
  }

  /** A file of 63 blocks is refused although every entry of its table is good. */
  lemma LongFileIsRefused()
    ensures var img := OneBlockImage(258048, seq(MAX_INODES_PER_FILE, _ => 0));
            Present(img, img.inodes[0]) && !Readable(img, 0) && BytesRead(img, 0, 0, 258048).None?
  {
    var img := OneBlockImage(258048, seq(MAX_INODES_PER_FILE, _ => 0));
    assert !BlockOk(img, img.inodes[0], 63);
  }

  /** A readable file of two blocks that share one data block. */
  const TWO_BLOCKS: Image := OneBlockImage(5000, seq(MAX_INODES_PER_FILE, _ => 0))

  /** In it, a length of 2^32 - 4096 at position 4096 comes back as -4096, and one of 2^32 - 1 at 1 faults. */
  lemma WrappedReads()
    ensures Readable(TWO_BLOCKS, 0)
    ensures ReadOutcome(TWO_BLOCKS, 0, 4096, 0xFFFF_F000) == Count(-4096)
    ensures MovesTo(TWO_BLOCKS, 0, 4096, 0xFFFF_F000) == Some(0)
    ensures ReadOutcome(TWO_BLOCKS, 0, 1, 0xFFFF_FFFF) == Fault
  {
    hide ReadOutcome;
    CountExactlyWhenNoWrap(TWO_BLOCKS, 0, 4096, 0xFFFF_F000);
    CountExactlyWhenNoWrap(TWO_BLOCKS, 0, 1, 0xFFFF_FFFF);
  }

  // ---------------------------------------------------------------- directory operations

  method ReadDentryByIndex(img: Image, index: nat) returns (r: int, d: Option<Dentry>)
    ensures r == -1 <==> index >= |img.files|
    ensures r != -1 ==>
              && r == 0 && d.Some? && d.value.kind == img.files[index].kind
              && d.value.inode == img.files[index].inode && NameOf(d.value) == NameOf(img.files[index])
    ensures r == -1 ==> d.None?
  {
    if index >= |img.files| {
      return -1, None;
    }
    var entry := img.files[index];
    var name := new byte[FILENAME_MAX_CHAR];
    Strncpy(name, entry.filename, FILENAME_MAX_CHAR);
    var copied := name[..];
    assert entry.filename[..FILENAME_MAX_CHAR] == entry.filename;
    assert copied[..|NameOf(entry)|] == NameOf(entry);
    StrUnique(copied, |NameOf(entry)|);
    return 0, Some(Dentry(copied, entry.kind, entry.inode));
  }

  method ReadDentryByName(img: Image, fname: seq<byte>) returns (r: int, d: Option<Dentry>)
    requires NUL in fname
    ensures r == 0 || r == -1
    ensures r == 0 <==> FindFirst(img.files, Str(fname)).Some?
    ensures r == 0 ==>
              var entry := img.files[FindFirst(img.files, Str(fname)).value];
              d.Some? && d.value.kind == entry.kind && d.value.inode == entry.inode && NameOf(d.value) == Str(fname)
    ensures r == -1 ==> d.None?
  {
    hide Str, FindFirst;
    var len := Strlen(fname);
    if len > FILENAME_MAX_CHAR {
      return -1, None;
    }
    var i := 0;
    while i < |img.files|
      invariant 0 <= i <= |img.files|
      invariant forall k :: 0 <= k < i ==> NameOf(img.files[k]) != Str(fname)
    {
      var same := HasName(img.files[i], fname);
      if same {
        var _, found := ReadDentryByIndex(img, i);
        return 0, found;
      }
      i := i + 1;
    }
    return -1, None;
  }

  method HasName(entry: Dentry, fname: seq<byte>) returns (same: bool)
    requires NUL in fname && |Str(fname)| <= FILENAME_MAX_CHAR
    ensures same <==> NameOf(entry) == Str(fname)
  {
    var cmp := Strncmp(entry.filename, fname, FILENAME_MAX_CHAR);
    assert entry.filename[..FILENAME_MAX_CHAR] == entry.filename;
    CutKeepsShortString(fname, Min(FILENAME_MAX_CHAR, |fname|));
    return cmp == 0;
  }

  lemma CutKeepsShortString(mem: seq<byte>, n: nat)
    requires |Str(mem)| <= n <= |mem|
    ensures Str(mem[..n]) == Str(mem)
  {
    assert mem[..n][..|Str(mem)|] == Str(mem);
    StrUnique(mem[..n], |Str(mem)|);
  }

  /** One step of a directory listing: the name at `pos`, or 0 at the end. */
  method DirRead(img: Image, pos: nat, buf: array<byte>) returns (r: nat, pos': nat)
    requires buf.Length >= FILENAME_MAX_CHAR + 1
    modifies buf
    ensures pos >= |img.files| ==> r == 0 && pos' == pos && buf[..] == old(buf[..])
    ensures pos < |img.files| ==>
              && r == |NameOf(img.files[pos])| && pos' == pos + 1 && buf[..r] == NameOf(img.files[pos])
              && (forall k :: r <= k <= FILENAME_MAX_CHAR ==> buf[k] == NUL)
              && buf[FILENAME_MAX_CHAR + 1..] == old(buf[FILENAME_MAX_CHAR + 1..])
  {
    if pos >= |img.files| {
      return 0, pos;
    }
    var _, d := ReadDentryByIndex(img, pos);
    var name := d.value.filename;
    var i := 0;
    while i < FILENAME_MAX_CHAR + 1
      invariant 0 <= i <= FILENAME_MAX_CHAR + 1
      invariant forall k :: 0 <= k < i ==> buf[k] == NUL
      invariant buf[FILENAME_MAX_CHAR + 1..] == old(buf[FILENAME_MAX_CHAR + 1..])
    {
      buf[i] := NUL;
      i := i + 1;
    }
    i := 0;
    while i < FILENAME_MAX_CHAR && name[i] != NUL
      invariant 0 <= i <= FILENAME_MAX_CHAR
      invariant buf[..i] == name[..i] && NUL !in name[..i]
      invariant forall k :: i <= k <= FILENAME_MAX_CHAR ==> buf[k] == NUL
      invariant buf[FILENAME_MAX_CHAR + 1..] == old(buf[FILENAME_MAX_CHAR + 1..])
    {
      buf[i] := name[i];
      i := i + 1;
    }
    StrUnique(name, i);
    return i, pos + 1;
  }

  function Names(files: seq<Dentry>): (names: seq<seq<byte>>)
    ensures |names| == |files| && forall i :: 0 <= i < |files| ==> names[i] == NameOf(files[i])
  {
    seq(|files|, i requires 0 <= i < |files| => NameOf(files[i]))
  }

  /** The loop of `ls` and `grep`: it lists the names in order, up to the first empty one. */
  method ListDirectory(img: Image) returns (names: seq<seq<byte>>)
    ensures |names| <= |img.files| && names == Names(img.files)[..|names|]
    ensures |names| < |img.files| ==> NameOf(img.files[|names|]) == []
    ensures [] !in names
    ensures names == Names(img.files) <==> [] !in Names(img.files)
  {
    names := [];
    var buf := new byte[FILENAME_MAX_CHAR + 1];
    var pos := 0;
    var cnt;
    cnt, pos := DirRead(img, pos, buf);
    while cnt != 0
      invariant |names| <= |img.files| && names == Names(img.files)[..|names|] && [] !in names
      invariant |names| < |img.files| ==>
                  && pos == |names| + 1 && cnt == |NameOf(img.files[|names|])| <= FILENAME_MAX_CHAR
                  && buf[..cnt] == NameOf(img.files[|names|])
      invariant |names| == |img.files| ==> cnt == 0
      decreases |img.files| - |names|
    {
      names := names + [buf[..cnt]];
      cnt, pos := DirRead(img, pos, buf);
    }
    if |names| < |img.files| {
      assert Names(img.files)[|names|] == [];
    }
  }

  /** A directory with an empty name before "f". */
  const HIDING: Image :=
    RawImage([Dentry(seq(FILENAME_MAX_CHAR, _ => 0), Regular, 0), Dentry(F_NAME, Regular, 0)],
             seq(MAX_FILES, _ => Inode(0, seq(MAX_INODES_PER_FILE, _ => 0))), [])

  /** Its listing is empty, although "f" can be found. */
  method EmptyNameHidesTheRest() returns (names: seq<seq<byte>>)
    ensures names == [] && Names(HIDING.files) == [[], [102]] && FindFirst(HIDING.files, [102]) == Some(1)
  {
    StrUnique(F_NAME, 1);
    StrUnique(HIDING.files[0].filename, 0);
    assert NameOf(HIDING.files[0]) == [] && NameOf(HIDING.files[1]) == [102];
    assert Names(HIDING.files)[0] == [];
    names := ListDirectory(HIDING);
  }

  /** Looking up a listed name finds the first entry of that name, and no other entry when names are unique. */
  lemma LookupUndoesListing(img: Image, k: nat)
    requires k < |img.files|
    ensures var r := FindFirst(img.files, Names(img.files)[k]);
            r.Some? && r.value <= k && NameOf(img.files[r.value]) == NameOf(img.files[k])
    ensures FindFirst(img.files, Names(img.files)[k]) == Some(k) <==>
            forall i :: 0 <= i < k ==> NameOf(img.files[i]) != NameOf(img.files[k])
  {
    var r := FindFirst(img.files, Names(img.files)[k]);
    assert NameOf(img.files[k]) == Names(img.files)[k];
    assert r.Some?;
    if r.value > k {
      assert false;
    }
  }
}
