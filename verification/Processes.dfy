/**
 The process table behind student-distrib/syscall_handler.c, as a value: six PCB slots, a bitmap of the
 slots in use, and, for proof only, the chain of pids that each terminal has built by `execute`.

 `Inv` says that the marked slots are exactly the disjoint union of the three chains and that every PCB
 agrees with its place in a chain; the lemmas say that execute, halt and schedule keep it so.
 */
module Processes {
  import opened Bytes
  import opened Counting
  import opened FileSystem
  import opened Terminals

  const KB_8 := 0x2000
  const MB_4 := 0x40_0000
  const MB_8 := 0x80_0000

  datatype Fd = Fd(inUse: bool, file: OpenFile)

  type FdArray = t: seq<Fd> | |t| == 8 witness seq(8, _ => Fd(false, OpenFile(Stdin, 0, 0)))

  /** `frame` stands for the saved esp and ebp. */
  datatype Pcb = Pcb(parent: int, pid: int, vidmap: bool, frame: Frame, tssEsp0: int, fds: FdArray)

  /** `get_pcb_ptr`: PCBs grow down from 8 MB, one 8 KB stack each. */
  function PcbAddress(pid: int): int {
    MB_8 - (pid + 1) * KB_8
  }

  function StackTop(pid: int): int {
    PcbAddress(pid) + KB_8 - 4
  }

  /** The number of the 4 MB physical page that holds the program image of `pid`. */
  function UserPage(pid: int): int {
    pid + 2
  }

  const KERNEL_PAGE := 1

  /** Kernel stacks and program pages of different processes do not overlap, and no program page is the kernel's. */
  lemma MemoryIsDisjoint(p: nat, q: nat)
    requires p < MAX_NUM_PROCESS && q < MAX_NUM_PROCESS
    ensures p != q ==> PcbAddress(p) + KB_8 <= PcbAddress(q) || PcbAddress(q) + KB_8 <= PcbAddress(p)
    ensures p != q ==> UserPage(p) != UserPage(q)
    ensures UserPage(p) > KERNEL_PAGE
    ensures 0x40_0000 * UserPage(p) == 0x80_0000 + 0x40_0000 * p && StackTop(p) == 0x80_0000 - 0x2000 * p - 4
    ensures MB_4 * KERNEL_PAGE < PcbAddress(p) < StackTop(p) < PcbAddress(p) + KB_8 <= MB_4 * (KERNEL_PAGE + 1)
  {
  }

  function InitFileTable(stale: FdArray): (r: FdArray)
    ensures Files(r) == FRESH_FILES
  {
    var r := [Fd(true, OpenFile(Stdin, NO_INODE, 0)), Fd(true, OpenFile(Stdout, NO_INODE, 0)),
              stale[2].(inUse := false), stale[3].(inUse := false), stale[4].(inUse := false),
              stale[5].(inUse := false), stale[6].(inUse := false), stale[7].(inUse := false)];
    assert Files(r) == FRESH_FILES;
    r
  }

  function FileIn(fd: Fd): Option<OpenFile> {
    if fd.inUse then Some(fd.file) else None
  }

  function Files(fds: FdArray): FileTable {
    seq(8, i requires 0 <= i < 8 => FileIn(fds[i]))
  }

  /** Open files stay below the largest readable position, so a read of a non-negative size never wraps around. */
  predicate PositionsOk(fds: FdArray) {
    forall i :: 0 <= i < 8 && fds[i].inUse ==> fds[i].file.pos < MAX_FILES * BLOCK_SIZE
  }

  /** `ownerTerm` and `ownerIndex` give each live pid its place; `creator` is the execute call that made it. */
  datatype Procs = Procs(
    bitmap: seq<bool>, pcbs: seq<Pcb>,
    chains: seq<seq<nat>>, ownerTerm: seq<nat>, ownerIndex: seq<nat>, creator: seq<nat>)

  ghost predicate Shape(P: Procs) {
    && |P.bitmap| == |P.pcbs| == |P.ownerTerm| == |P.ownerIndex| == |P.creator| == MAX_NUM_PROCESS
    && |P.chains| == TERM_NUM
  }

  /** Place (t, i) of the chains holds a live pid, and the pid knows it. */
  ghost predicate PlaceOk(P: Procs, t: nat, i: nat)
    requires Shape(P) && t < TERM_NUM && i < |P.chains[t]|
  {
    var p := P.chains[t][i];
    p < MAX_NUM_PROCESS && P.bitmap[p] && P.ownerTerm[p] == t && P.ownerIndex[p] == i
  }

  ghost function ParentOf(chain: seq<nat>, i: nat): int
    requires i < |chain|
  {
    if i == 0 then -1 else chain[i - 1]
  }

  /** A live pid has a place, and its PCB agrees with it. */
  ghost predicate PidOk(P: Procs, p: nat)
    requires Shape(P) && p < MAX_NUM_PROCESS
  {
    var t, i := P.ownerTerm[p], P.ownerIndex[p];
    && t < TERM_NUM && i < |P.chains[t]| && P.chains[t][i] == p
    && P.pcbs[p].parent == ParentOf(P.chains[t], i)
    && P.pcbs[p].pid == p
    && P.pcbs[p].tssEsp0 == StackTop(p)
    && PositionsOk(P.pcbs[p].fds)
  }

  /** A process that has called `execute` keeps the frame of that very call for as long as the child lives. */
  ghost predicate FrameOk(P: Procs, t: nat, i: nat)
    requires Shape(P) && t < TERM_NUM && i < |P.chains[t]|
  {
    i + 1 < |P.chains[t]| ==>
      var p, child := P.chains[t][i], P.chains[t][i + 1];
      p < MAX_NUM_PROCESS && child < MAX_NUM_PROCESS && P.pcbs[p].frame == SavedByExecute(P.creator[child])
  }

  ghost predicate PlacesOk(P: Procs)
    requires Shape(P)
  {
    forall t, i :: 0 <= t < TERM_NUM && 0 <= i < |P.chains[t]| ==> PlaceOk(P, t, i)
  }

  ghost predicate PidsOk(P: Procs)
    requires Shape(P)
  {
    forall p :: 0 <= p < MAX_NUM_PROCESS && P.bitmap[p] ==> PidOk(P, p)
  }

  ghost predicate FramesOk(P: Procs)
    requires Shape(P)
  {
    forall t, i :: 0 <= t < TERM_NUM && 0 <= i < |P.chains[t]| ==> FrameOk(P, t, i)
  }

  ghost predicate Inv(P: Procs) {
    Shape(P) && PlacesOk(P) && PidsOk(P) && FramesOk(P)
  }

  /** The pid at the end of a terminal's chain, or -1. */
  function Head(chain: seq<nat>): int {
    if chain == [] then -1 else chain[|chain| - 1]
  }

  ghost function ProcOf(P: Procs, p: nat): Proc
    requires Shape(P) && p < MAX_NUM_PROCESS
  {
    Proc(P.creator[p], P.pcbs[p].vidmap, Files(P.pcbs[p].fds))
  }

  ghost function StackOf(P: Procs, t: nat): seq<Proc>
    requires Shape(P) && PlacesOk(P) && t < TERM_NUM
  {
    seq(|P.chains[t]|, i requires 0 <= i < |P.chains[t]| => (assert PlaceOk(P, t, i); ProcOf(P, P.chains[t][i])))
  }

  // ---------------------------------------------------------------- execute

  /** The table after an `execute` in terminal t has built process p for call number `call`. */
  ghost function Pushed(P: Procs, t: nat, p: nat, call: nat): Procs
    requires Shape(P) && t < TERM_NUM && p < MAX_NUM_PROCESS
  {
    var me := Head(P.chains[t]);
    var made := Pcb(me, p, false, P.pcbs[p].frame, StackTop(p), InitFileTable(P.pcbs[p].fds));
    var pcbs := P.pcbs[p := made];
    Procs(
      P.bitmap[p := true],
      if 0 <= me < MAX_NUM_PROCESS then pcbs[me := pcbs[me].(frame := SavedByExecute(call))] else pcbs,
      P.chains[t := P.chains[t] + [p]],
      P.ownerTerm[p := t], P.ownerIndex[p := |P.chains[t]|], P.creator[p := call])
  }

  lemma PushKeepsPlaces(P: Procs, t: nat, p: nat, call: nat)
    requires Inv(P) && t < TERM_NUM && p < MAX_NUM_PROCESS && !P.bitmap[p]
    ensures PlacesOk(Pushed(P, t, p, call))
  {
    var Q := Pushed(P, t, p, call);
    forall u, i | 0 <= u < TERM_NUM && 0 <= i < |Q.chains[u]|
      ensures PlaceOk(Q, u, i)
    {
      if u != t || i < |P.chains[t]| {
        assert PlaceOk(P, u, i);
      }
    }
  }

  lemma PushKeepsPids(P: Procs, t: nat, p: nat, call: nat)
    requires Inv(P) && t < TERM_NUM && p < MAX_NUM_PROCESS && !P.bitmap[p]
    ensures PidsOk(Pushed(P, t, p, call))
  {
    var Q := Pushed(P, t, p, call);
    FreshPositions(P.pcbs[p].fds);
    HeadIsLive(P, t);
    forall q | 0 <= q < MAX_NUM_PROCESS && Q.bitmap[q]
      ensures PidOk(Q, q)
    {
      if q != p {
        assert PidOk(P, q);
      }
    }
  }

  lemma FreshPositions(stale: FdArray)
    ensures PositionsOk(InitFileTable(stale))
  {
  }

  lemma HeadIsLive(P: Procs, t: nat)
    requires Inv(P) && t < TERM_NUM
    ensures -1 <= Head(P.chains[t]) < MAX_NUM_PROCESS
    ensures Head(P.chains[t]) == -1 <==> P.chains[t] == []
    ensures P.chains[t] != [] ==>
              var p := Head(P.chains[t]);
              P.bitmap[p] && PidOk(P, p) && P.ownerTerm[p] == t && P.ownerIndex[p] == |P.chains[t]| - 1
  {
    if P.chains[t] != [] {
      assert PlaceOk(P, t, |P.chains[t]| - 1);
      assert PidOk(P, P.chains[t][|P.chains[t]| - 1]);
    }
  }

  /** The processes at the ends of two chains are different and alive. */
  lemma HeadsDiffer(P: Procs, t: nat, u: nat)
    requires Inv(P) && t < TERM_NUM && u < TERM_NUM && t != u && P.chains[u] != []
    ensures 0 <= Head(P.chains[u]) < MAX_NUM_PROCESS && P.bitmap[Head(P.chains[u])]
    ensures Head(P.chains[t]) != Head(P.chains[u])
  {
    HeadIsLive(P, t);
    HeadIsLive(P, u);
  }

  lemma PushKeepsFrames(P: Procs, t: nat, p: nat, call: nat)
    requires Inv(P) && t < TERM_NUM && p < MAX_NUM_PROCESS && !P.bitmap[p]
    ensures FramesOk(Pushed(P, t, p, call))
  {
    var Q := Pushed(P, t, p, call);
    HeadIsLive(P, t);
    forall u, i | 0 <= u < TERM_NUM && 0 <= i < |Q.chains[u]|
      ensures FrameOk(Q, u, i)
    {
      if i < |P.chains[u]| {
        assert FrameOk(P, u, i) && PlaceOk(P, u, i);
        if i + 1 < |P.chains[u]| {
          assert PlaceOk(P, u, i + 1);
        }
      }
    }
  }

  lemma PushKeepsOtherHeads(P: Procs, t: nat, p: nat, call: nat)
    requires Inv(P) && t < TERM_NUM && p < MAX_NUM_PROCESS && !P.bitmap[p]
    ensures var Q := Pushed(P, t, p, call);
            && Shape(Q) && Head(Q.chains[t]) == p && Q.pcbs[p].tssEsp0 == StackTop(p)
            && forall u :: 0 <= u < TERM_NUM && u != t ==>
                 && Q.chains[u] == P.chains[u]
                 && (P.chains[u] != [] ==>
                       var h := Head(P.chains[u]); 0 <= h < MAX_NUM_PROCESS && Q.pcbs[h] == P.pcbs[h])
  {
    HeadIsLive(P, t);
    forall u | 0 <= u < TERM_NUM && u != t && P.chains[u] != []
      ensures var h := Head(P.chains[u]);
              0 <= h < MAX_NUM_PROCESS && Pushed(P, t, p, call).pcbs[h] == P.pcbs[h]
    {
      HeadsDiffer(P, t, u);
    }
  }

  lemma PushKeepsInv(P: Procs, t: nat, p: nat, call: nat)
    requires Inv(P) && t < TERM_NUM && p < MAX_NUM_PROCESS && !P.bitmap[p]
    ensures Inv(Pushed(P, t, p, call))
    ensures StackOf(Pushed(P, t, p, call), t) == StackOf(P, t) + [Proc(call, false, FRESH_FILES)]
    ensures forall u :: 0 <= u < TERM_NUM && u != t ==> StackOf(Pushed(P, t, p, call), u) == StackOf(P, u)
  {
    PushKeepsPlaces(P, t, p, call);
    PushKeepsPids(P, t, p, call);
    PushKeepsFrames(P, t, p, call);
    var Q := Pushed(P, t, p, call);
    forall u, i | 0 <= u < TERM_NUM && 0 <= i < |P.chains[u]|
      ensures PlaceOk(P, u, i) && PlaceOk(Q, u, i) && ProcOf(Q, P.chains[u][i]) == ProcOf(P, P.chains[u][i])
    {
      assert PlaceOk(P, u, i) && PlaceOk(Q, u, i);
    }
    assert PlaceOk(Q, t, |P.chains[t]|);
  }

  // ---------------------------------------------------------------- halt

  /** The table after the process at the end of terminal t's chain is gone; its PCB may hold anything. */
  ghost function Popped(P: Procs, t: nat, leftover: Pcb): Procs
    requires Shape(P) && t < TERM_NUM && P.chains[t] != [] && Head(P.chains[t]) < MAX_NUM_PROCESS
  {
    var p := Head(P.chains[t]);
    P.(bitmap := P.bitmap[p := false], pcbs := P.pcbs[p := leftover],
    chains := P.chains[t := P.chains[t][..|P.chains[t]| - 1]])
  }

  lemma PopKeepsInv(P: Procs, t: nat, leftover: Pcb)
    requires Inv(P) && t < TERM_NUM && P.chains[t] != []
    ensures Head(P.chains[t]) < MAX_NUM_PROCESS && Inv(Popped(P, t, leftover))
    ensures StackOf(Popped(P, t, leftover), t) == StackOf(P, t)[..|P.chains[t]| - 1]
    ensures forall u :: 0 <= u < TERM_NUM && u != t ==> StackOf(Popped(P, t, leftover), u) == StackOf(P, u)
  {
    HeadIsLive(P, t);
    PopKeepsPlaces(P, t, leftover);
    PopKeepsPids(P, t, leftover);
    var Q := Popped(P, t, leftover);
    hide PlaceOk, FrameOk, PidOk, PidsOk, FramesOk;
    assert StackOf(Q, t) == StackOf(P, t)[..|P.chains[t]| - 1];
  }

  lemma PopKeepsPlaces(P: Procs, t: nat, leftover: Pcb)
    requires Inv(P) && t < TERM_NUM && P.chains[t] != [] && 0 <= Head(P.chains[t]) < MAX_NUM_PROCESS
    ensures var Q := Popped(P, t, leftover);
            && PlacesOk(Q) && FramesOk(Q)
            && forall u, i :: 0 <= u < TERM_NUM && 0 <= i < |Q.chains[u]| ==>
                 && 0 <= Q.chains[u][i] < MAX_NUM_PROCESS && Q.chains[u][i] == P.chains[u][i]
                 && ProcOf(Q, Q.chains[u][i]) == ProcOf(P, Q.chains[u][i])
  {
    HeadIsLive(P, t);
    var p, Q := Head(P.chains[t]), Popped(P, t, leftover);
    forall u, i | 0 <= u < TERM_NUM && 0 <= i < |Q.chains[u]|
      ensures PlaceOk(Q, u, i) && FrameOk(Q, u, i) && Q.chains[u][i] == P.chains[u][i] != p
      ensures ProcOf(Q, Q.chains[u][i]) == ProcOf(P, Q.chains[u][i])
    {
      assert PlaceOk(P, u, i) && FrameOk(P, u, i);
    }
  }

  lemma PopKeepsPids(P: Procs, t: nat, leftover: Pcb)
    requires Inv(P) && t < TERM_NUM && P.chains[t] != [] && 0 <= Head(P.chains[t]) < MAX_NUM_PROCESS
    ensures PidsOk(Popped(P, t, leftover))
  {
    HeadIsLive(P, t);
    var Q := Popped(P, t, leftover);
    forall q | 0 <= q < MAX_NUM_PROCESS && Q.bitmap[q]
      ensures PidOk(Q, q)
    {
      assert PidOk(P, q);
    }
  }

  lemma OtherHeadsSurvive(P: Procs, t: nat, pcb: Pcb)
    requires Inv(P) && t < TERM_NUM && P.chains[t] != []
    ensures 0 <= Head(P.chains[t]) < MAX_NUM_PROCESS
    ensures forall u :: 0 <= u < TERM_NUM && u != t && P.chains[u] != [] ==>
              var h := Head(P.chains[u]);
              0 <= h < MAX_NUM_PROCESS && P.pcbs[Head(P.chains[t]) := pcb][h] == P.pcbs[h]
  {
    HeadIsLive(P, t);
    forall u | 0 <= u < TERM_NUM && u != t && P.chains[u] != []
      ensures var h := Head(P.chains[u]);
              0 <= h < MAX_NUM_PROCESS && P.pcbs[Head(P.chains[t]) := pcb][h] == P.pcbs[h]
    {
      HeadsDiffer(P, t, u);
    }
  }

  /** A process with a child: the frame it will resume is the one of the `execute` call that made the child. */
  lemma ParentHoldsTheCall(P: Procs, t: nat)
    requires Inv(P) && t < TERM_NUM && P.chains[t] != []
    ensures var p := Head(P.chains[t]);
            && 0 <= p < MAX_NUM_PROCESS
            && P.pcbs[p].parent == Head(P.chains[t][..|P.chains[t]| - 1])
            && (P.pcbs[p].parent == -1 <==> |P.chains[t]| == 1)
            && (P.pcbs[p].parent != -1 ==>
                  && 0 <= P.pcbs[p].parent < MAX_NUM_PROCESS && P.pcbs[p].parent != p
                  && P.pcbs[P.pcbs[p].parent].frame == SavedByExecute(P.creator[p])
                  && P.pcbs[P.pcbs[p].parent].tssEsp0 == StackTop(P.pcbs[p].parent))
    ensures Top(StackOf(P, t)) == ProcOf(P, Head(P.chains[t]))
  {
    HeadIsLive(P, t);
    var n := |P.chains[t]|;
    if n > 1 {
      assert PlaceOk(P, t, n - 2) && PlaceOk(P, t, n - 1) && FrameOk(P, t, n - 2);
      assert PidOk(P, P.chains[t][n - 2]);
    }
  }

  // ---------------------------------------------------------------- changes to the running process only

  ghost function TopUpdated(P: Procs, t: nat, pcb: Pcb): Procs
    requires Shape(P) && t < TERM_NUM && P.chains[t] != [] && Head(P.chains[t]) < MAX_NUM_PROCESS
  {
    P.(pcbs := P.pcbs[Head(P.chains[t]) := pcb])
  }

  lemma TopUpdateKeepsInv(P: Procs, t: nat, pcb: Pcb)
    requires Inv(P) && t < TERM_NUM && P.chains[t] != []
    requires 0 <= Head(P.chains[t]) < MAX_NUM_PROCESS
    requires var was := P.pcbs[Head(P.chains[t])];
             pcb.parent == was.parent && pcb.pid == was.pid && pcb.tssEsp0 == was.tssEsp0 && PositionsOk(pcb.fds)
    ensures Inv(TopUpdated(P, t, pcb))
    ensures StackOf(TopUpdated(P, t, pcb), t) ==
            WithTop(StackOf(P, t), Proc(P.creator[Head(P.chains[t])], pcb.vidmap, Files(pcb.fds)))
    ensures forall u :: 0 <= u < TERM_NUM && u != t ==> StackOf(TopUpdated(P, t, pcb), u) == StackOf(P, u)
  {
    HeadIsLive(P, t);
    TopUpdateKeepsPlaces(P, t, pcb);
    TopUpdateKeepsPids(P, t, pcb);
    hide PlaceOk, FrameOk, PidOk, PidsOk, FramesOk;
  }

  lemma TopUpdateKeepsPlaces(P: Procs, t: nat, pcb: Pcb)
    requires Inv(P) && t < TERM_NUM && P.chains[t] != [] && 0 <= Head(P.chains[t]) < MAX_NUM_PROCESS
    ensures var Q := TopUpdated(P, t, pcb);
            && PlacesOk(Q) && FramesOk(Q)
            && forall u, i :: 0 <= u < TERM_NUM && 0 <= i < |P.chains[u]| ==>
                 && 0 <= P.chains[u][i] < MAX_NUM_PROCESS
                 && (u != t || i < |P.chains[t]| - 1 ==> ProcOf(Q, P.chains[u][i]) == ProcOf(P, P.chains[u][i]))
  {
    HeadIsLive(P, t);
    var Q := TopUpdated(P, t, pcb);
    forall u, i | 0 <= u < TERM_NUM && 0 <= i < |P.chains[u]|
      ensures PlaceOk(Q, u, i) && FrameOk(Q, u, i)
      ensures u != t || i < |P.chains[t]| - 1 ==> ProcOf(Q, P.chains[u][i]) == ProcOf(P, P.chains[u][i])
    {
      assert PlaceOk(P, u, i) && FrameOk(P, u, i);
    }
  }

  lemma TopUpdateKeepsPids(P: Procs, t: nat, pcb: Pcb)
    requires Inv(P) && t < TERM_NUM && P.chains[t] != [] && 0 <= Head(P.chains[t]) < MAX_NUM_PROCESS
    requires var was := P.pcbs[Head(P.chains[t])];
             pcb.parent == was.parent && pcb.pid == was.pid && pcb.tssEsp0 == was.tssEsp0 && PositionsOk(pcb.fds)
    ensures PidsOk(TopUpdated(P, t, pcb))
  {
    var Q := TopUpdated(P, t, pcb);
    forall q | 0 <= q < MAX_NUM_PROCESS && Q.bitmap[q]
      ensures PidOk(Q, q)
    {
      assert PidOk(P, q);
    }
  }

  // ---------------------------------------------------------------- counting

  ghost function LivePids(P: Procs): set<nat>
    requires Shape(P)
  {
    set p: nat | p < MAX_NUM_PROCESS && P.bitmap[p]
  }

  lemma ChainIsDistinct(P: Procs, t: nat)
    requires Inv(P) && t < TERM_NUM
    ensures |Elements(P.chains[t])| == |P.chains[t]|
  {
    forall i, j | 0 <= i < j < |P.chains[t]|
      ensures P.chains[t][i] != P.chains[t][j]
    {
      assert PlaceOk(P, t, i) && PlaceOk(P, t, j);
    }
    DistinctCount(P.chains[t]);
  }

  lemma OwnerIsUnique(P: Procs, t: nat)
    requires Inv(P) && t < TERM_NUM
    ensures forall p :: p in P.chains[t] ==> p < MAX_NUM_PROCESS && P.bitmap[p] && P.ownerTerm[p] == t
  {
    forall p | p in P.chains[t]
      ensures p < MAX_NUM_PROCESS && P.bitmap[p] && P.ownerTerm[p] == t
    {
      var i :| 0 <= i < |P.chains[t]| && P.chains[t][i] == p;
      assert PlaceOk(P, t, i);
    }
  }

  /** The marked slots are exactly the disjoint union of the three chains. */
  lemma BitmapIsUnionOfChains(P: Procs)
    requires Inv(P)
    ensures LivePids(P) == Elements(P.chains[0]) + Elements(P.chains[1]) + Elements(P.chains[2])
    ensures Elements(P.chains[0]) !! Elements(P.chains[1]) !! Elements(P.chains[2])
    ensures |LivePids(P)| == |P.chains[0]| + |P.chains[1]| + |P.chains[2]|
  {
    var union := Elements(P.chains[0]) + Elements(P.chains[1]) + Elements(P.chains[2]);
    forall p | p in LivePids(P)
      ensures p in union
    {
      assert PidOk(P, p);
    }
    OwnerIsUnique(P, 0);
    OwnerIsUnique(P, 1);
    OwnerIsUnique(P, 2);
    assert LivePids(P) == union;
    ChainIsDistinct(P, 0);
    ChainIsDistinct(P, 1);
    ChainIsDistinct(P, 2);
  }

  /** Following `parent` from `pid` visits `chain` from its end and stops at -1. */
  ghost predicate Follows(pcbs: seq<Pcb>, pid: int, chain: seq<nat>)
    decreases chain
  {
    if chain == [] then pid == -1
    else 0 <= pid < |pcbs| && pid == Head(chain) && Follows(pcbs, pcbs[pid].parent, chain[..|chain| - 1])
  }

  lemma {:induction false} PrefixFollows(P: Procs, t: nat, n: nat)
    requires Inv(P) && t < TERM_NUM && n <= |P.chains[t]|
    ensures Follows(P.pcbs, Head(P.chains[t][..n]), P.chains[t][..n])
  {
    if n > 0 {
      assert PlaceOk(P, t, n - 1) && PidOk(P, P.chains[t][n - 1]);
      PrefixFollows(P, t, n - 1);
      assert P.chains[t][..n][..n - 1] == P.chains[t][..n - 1];
    }
  }

  /** Each terminal's parent pointers lead from its last process through the whole chain to -1. */
  lemma ParentsFollowTheChain(P: Procs, t: nat)
    requires Inv(P) && t < TERM_NUM
    ensures Follows(P.pcbs, Head(P.chains[t]), P.chains[t])
  {
    PrefixFollows(P, t, |P.chains[t]|);
    assert P.chains[t][..|P.chains[t]|] == P.chains[t];
  }

  /** Every slot is taken exactly when six processes are alive; there are never more. */
  lemma FullMeansSix(P: Procs)
    requires Inv(P)
    ensures |P.chains[0]| + |P.chains[1]| + |P.chains[2]| <= MAX_NUM_PROCESS
    ensures |P.chains[0]| + |P.chains[1]| + |P.chains[2]| == MAX_NUM_PROCESS <==>
            forall p :: 0 <= p < MAX_NUM_PROCESS ==> P.bitmap[p]
  {
    BitmapIsUnionOfChains(P);
    SlotCount(P.bitmap, LivePids(P), MAX_NUM_PROCESS);
  }
}
