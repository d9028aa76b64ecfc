/**
 The kernel's shared globals and the routines that multiplex them over three terminals and six
 processes: student-distrib/terminal.c, keyboard.c, pit.c, syscall_handler.c and the parts of lib.c
 and paging.c that they use.

 `term_arr` is kept as one sequence per field, a pointer into `term_arr` as a terminal number, and the
 four physical video pages as four arrays.  Saved esp/ebp pairs are tokens (`Frame`).  Every routine
 runs with interrupts off, so each method is one step; page-table writes take effect at once.

 `Step` proves that these globals implement the three independent terminals of module Terminals.
 */
module KernelState {
  import opened Bytes
  import opened Counting
  import opened Screen
  import opened FileSystem
  import opened Keyboard
  import opened Terminals
  import opened Processes

  const VIDEO_FRAME := 0xB8

  /** The frame of a terminal's hidden buffer: VIDEO + 4K, + 8K, + 12K. */
  function VidMemBuffer(t: nat): int {
    VIDEO_FRAME + 1 + t
  }

  class Kernel {
    // terminal.c
    var running: nat
    var viewing: nat
    var termPid: seq<int>
    var termVidmap: seq<bool>
    var ticks: nat

    // lib.c: cursor positions, and the terminal that screen_x_ptr and screen_y_ptr point into
    var cursorX: seq<int>
    var cursorY: seq<int>
    var cursor: nat

    // keyboard.c: line buffers, saved positions, and the terminal that kbd_buf points into
    var mods: Mods
    var kbdBufs: seq<seq<byte>>
    var savedPos: seq<nat>
    var ready: seq<bool>
    var kbdBuf: nat
    var bufPos: nat

    // paging.c: the remapped entries of the two page tables, and physical frames 0xB8..0xBB
    var videoFrame: int
    var userFrame: int
    var userPresent: bool
    const pages: seq<array<byte>>

    // syscall_handler.c
    var curPid: int
    var curPcb: int
    var bitmap: seq<bool>
    var pcbs: seq<Pcb>
    var tssEsp0: int
    var pde32: int
    var calls: nat
    ghost var chains: seq<seq<nat>>
    ghost var ownerTerm: seq<nat>
    ghost var ownerIndex: seq<nat>
    ghost var creator: seq<nat>

    const image: Image

    // ------------------------------------------------------------ consoles

    ghost predicate PagesOk() {
      && |pages| == TERM_NUM + 1
      && (forall i :: 0 <= i <= TERM_NUM ==> pages[i].Length == PAGE_SIZE)
      && forall i, j :: 0 <= i < j <= TERM_NUM ==> pages[i] != pages[j]
    }

    ghost predicate VideoOk()
      reads this`running, this`viewing, this`cursorX, this`cursorY, this`termVidmap
    {
      && PagesOk() && running < TERM_NUM && viewing < TERM_NUM
      && |cursorX| == |cursorY| == |termVidmap| == TERM_NUM
      && forall t :: 0 <= t < TERM_NUM ==> 0 <= cursorX[t] < COLS && 0 <= cursorY[t] < ROWS
    }

    /** Where terminal t's screen really is: the visible page when it is viewed, its buffer otherwise. */
    function FrameOf(t: nat): int
      reads this`viewing
    {
      if t == viewing then VIDEO_FRAME else VidMemBuffer(t)
    }

    ghost function ConsoleOf(t: nat): (c: Console)
      requires VideoOk() && t < TERM_NUM
      reads this`running, this`viewing, this`cursorX, this`cursorY, this`termVidmap, pages
      ensures c.InScreen()
    {
      Console(pages[FrameOf(t) - VIDEO_FRAME][..], cursorX[t], cursorY[t])
    }

    /** Writes through the video address go to terminal t's screen, and its cursor moves. */
    ghost predicate MapsScreenOf(t: nat)
      reads this`viewing, this`cursor, this`videoFrame
    {
      t < TERM_NUM && cursor == t && videoFrame == FrameOf(t)
    }

    /** The user's window onto video memory agrees with the kernel's and is open exactly when t has asked for it. */
    ghost predicate UserWindowOk(t: nat)
      reads this`videoFrame, this`userFrame, this`userPresent, this`termVidmap
    {
      t < |termVidmap| && userFrame == videoFrame && userPresent == termVidmap[t]
    }

    method ChangeVidmemMapping(tid: nat)
      requires VideoOk() && tid < TERM_NUM
      modifies this`cursor, this`videoFrame, this`userFrame, this`userPresent
      ensures MapsScreenOf(tid) && UserWindowOk(tid)
    {
      cursor := tid;
      SwitchFishPaging(tid, tid != viewing);
    }

    method SwitchFishPaging(tid: nat, hidden: bool)
      requires VideoOk() && tid < TERM_NUM && hidden == (tid != viewing)
      modifies this`videoFrame, this`userFrame, this`userPresent
      ensures videoFrame == FrameOf(tid) && UserWindowOk(tid)
    {
      if hidden {
        videoFrame := VidMemBuffer(tid);
        userPresent := termVidmap[tid];
        userFrame := VidMemBuffer(tid);
      } else {
        videoFrame := VIDEO_FRAME;
        userPresent := termVidmap[tid];
        userFrame := VIDEO_FRAME;
      }
    }

    method PutChar(c: byte)
      requires VideoOk() && MapsScreenOf(cursor)
      modifies this`cursorX, this`cursorY, pages
      ensures VideoOk() && ConsoleOf(cursor) == Putc(old(ConsoleOf(cursor)), c)
      ensures forall t :: 0 <= t < TERM_NUM && t != cursor ==> ConsoleOf(t) == old(ConsoleOf(t))
    {
      hide Putc;
      var video := pages[videoFrame - VIDEO_FRAME];
      var x, y := NbPutc(video, cursorX[cursor], cursorY[cursor], c);
      cursorX := cursorX[cursor := x];
      cursorY := cursorY[cursor := y];
      assert Console(video[..], x, y).InScreen();
    }

    /** `terminal_write` and `printf`: every character goes through `nb_putc`. */
    method PrintText(text: seq<byte>)
      requires VideoOk() && MapsScreenOf(cursor)
      modifies this`cursorX, this`cursorY, pages
      ensures VideoOk() && ConsoleOf(cursor) == PutAll(old(ConsoleOf(cursor)), text)
      ensures forall t :: 0 <= t < TERM_NUM && t != cursor ==> ConsoleOf(t) == old(ConsoleOf(t))
    {
      var i := 0;
      assert text[..0] == [];
      while i < |text|
        invariant 0 <= i <= |text| && VideoOk()
        invariant ConsoleOf(cursor) == PutAll(old(ConsoleOf(cursor)), text[..i])
        invariant forall t :: 0 <= t < TERM_NUM && t != cursor ==> ConsoleOf(t) == old(ConsoleOf(t))
      {
        PutAllSnoc(old(ConsoleOf(cursor)), text[..i], text[i]);
        assert text[..i + 1] == text[..i] + [text[i]];
        PutChar(text[i]);
        i := i + 1;
      }
      assert text[..i] == text;
    }

    method CopyPage(dst: array<byte>, src: array<byte>)
      requires dst.Length == src.Length == PAGE_SIZE && dst != src
      modifies dst
      ensures dst[..] == src[..]
    {
      var i := 0;
      while i < PAGE_SIZE
        invariant 0 <= i <= PAGE_SIZE && dst[..i] == src[..i]
      {
        dst[i] := src[i];
        i := i + 1;
      }
      assert dst[..] == dst[..i] && src[..] == src[..i];
    }

    method ClearScreen()
      requires VideoOk()
      modifies this`cursor, this`videoFrame, this`userFrame, this`userPresent, this`cursorX, this`cursorY, pages
      ensures VideoOk() && MapsScreenOf(running) && UserWindowOk(running)
      ensures ConsoleOf(viewing) == Console(Cleared(old(ConsoleOf(viewing)).page), 0, START_HEIGHT)
      ensures forall t :: 0 <= t < TERM_NUM && t != viewing ==> ConsoleOf(t) == old(ConsoleOf(t))
    {
      ChangeVidmemMapping(viewing);
      var x, y := Clear(pages[videoFrame - VIDEO_FRAME]);
      cursorX := cursorX[cursor := x];
      cursorY := cursorY[cursor := y];
      ChangeVidmemMapping(running);
    }

    // ------------------------------------------------------------ line editors

    ghost predicate KbdOk()
      reads this`viewing, this`kbdBufs, this`savedPos, this`ready, this`kbdBuf, this`bufPos
    {
      && |kbdBufs| == |savedPos| == |ready| == TERM_NUM && viewing < TERM_NUM
      && kbdBuf == viewing && bufPos < KBD_BUF_SIZE
      && forall t :: 0 <= t < TERM_NUM ==> |kbdBufs[t]| == KBD_BUF_SIZE && savedPos[t] < KBD_BUF_SIZE
    }

    /** Terminal t's editor: the global position belongs to the viewed terminal, the others have theirs saved. */
    ghost function EditorOf(t: nat): Editor
      requires KbdOk() && t < TERM_NUM
      reads this`viewing, this`kbdBufs, this`savedPos, this`ready, this`kbdBuf, this`bufPos
    {
      RawEditor(kbdBufs[t], if t == viewing then bufPos else savedPos[t], ready[t])
    }

    /** The buffer part of `keyboard_int_handler`. */
    method EditLine(c: byte)
      requires KbdOk()
      modifies this`kbdBufs, this`bufPos, this`ready
      ensures KbdOk() && EditorOf(viewing) == TypeKey(old(EditorOf(viewing)), c)
      ensures forall t :: 0 <= t < TERM_NUM && t != viewing ==> EditorOf(t) == old(EditorOf(t))
    {
      if bufPos <= KBD_BUF_SIZE - 2 {
        kbdBufs := kbdBufs[kbdBuf := Stored(kbdBufs[kbdBuf], bufPos, c)];
        if c == NEWLINE {
          bufPos := 0;
          ready := ready[viewing := true];
        } else {
          bufPos := bufPos + 1;
        }
      } else if bufPos == KBD_BUF_SIZE - 1 && c == NEWLINE {
        kbdBufs := kbdBufs[kbdBuf := Stored(kbdBufs[kbdBuf], bufPos, NEWLINE)];
        bufPos := 0;
        ready := ready[viewing := true];
      }
    }

    /** The copy loop of `read_from_kbd_buf_to_buf`. */
    method CopyLine(nbytes: nat) returns (buf: seq<byte>)
      requires KbdOk()
      ensures buf == LineFrom(EditorOf(viewing).buffer, nbytes)
    {
      ghost var line := kbdBufs[viewing];
      buf := [];
      var i := 0;
      while i < nbytes
        invariant 0 <= i <= nbytes && i <= KBD_BUF_SIZE && buf == line[..i] && NEWLINE !in line[..i]
      {
        if i > KBD_BUF_SIZE - 1 {
          break;
        }
        var c := kbdBufs[kbdBuf][i];
        buf := buf + [c];
        if c == NEWLINE {
          FirstBreakIs(line, i);
          return;
        }
        i := i + 1;
      }
      FirstBreakAtLeast(line, i);
    }

    /** The video half of `switch_terminal`: save the visible page, show the target's, remap. */
    method SwapScreens(target: nat)
      requires VideoOk() && target < TERM_NUM && target != viewing
      modifies this`viewing, this`cursor, this`videoFrame, this`userFrame, this`userPresent, pages
      ensures VideoOk() && MapsScreenOf(running) && UserWindowOk(running) && viewing == target
      ensures forall t :: 0 <= t < TERM_NUM ==> ConsoleOf(t) == old(ConsoleOf(t))
    {
      ChangeVidmemMapping(viewing);
      SwapPages(target);
      viewing := target;
      ChangeVidmemMapping(running);
    }

    /** The visible page goes to the buffer of the terminal viewed so far, and the target's buffer becomes visible. */
    method SwapPages(target: nat)
      requires PagesOk() && viewing < TERM_NUM && target < TERM_NUM && target != viewing && videoFrame == VIDEO_FRAME
      modifies pages
      ensures pages[0][..] == old(pages[target + 1][..]) && pages[viewing + 1][..] == old(pages[0][..])
      ensures forall i :: 1 <= i <= TERM_NUM && i != viewing + 1 ==> pages[i][..] == old(pages[i][..])
    {
      CopyPage(pages[VidMemBuffer(viewing) - VIDEO_FRAME], pages[videoFrame - VIDEO_FRAME]);
      CopyPage(pages[videoFrame - VIDEO_FRAME], pages[VidMemBuffer(target) - VIDEO_FRAME]);
    }

    method SwitchTerminal(target: nat)
      requires VideoOk() && KbdOk() && target < TERM_NUM && MapsScreenOf(running)
      modifies this`savedPos, this`kbdBuf, this`bufPos, this`viewing
      modifies this`cursor, this`videoFrame, this`userFrame, this`userPresent, pages
      ensures VideoOk() && KbdOk() && MapsScreenOf(running) && viewing == target
      ensures old(UserWindowOk(running)) ==> UserWindowOk(running)
      ensures forall t :: 0 <= t < TERM_NUM ==> ConsoleOf(t) == old(ConsoleOf(t)) && EditorOf(t) == old(EditorOf(t))
    {
      if target == viewing {
        return;
      }
      savedPos := savedPos[viewing := bufPos];
      kbdBuf := target;
      bufPos := savedPos[target];
      cursor := target;
      SwapScreens(target);
    }

    // ------------------------------------------------------------ processes

    ghost function Table(): Procs
      reads this`bitmap, this`pcbs, this`chains, this`ownerTerm, this`ownerIndex, this`creator
    {
      Procs(bitmap, pcbs, chains, ownerTerm, ownerIndex, creator)
    }

    /** The process at the end of terminal t's chain: saved in `pid` lazily, so the running one's is `cur_pid`. */
    function HeadPid(t: nat): int
      requires t < |termPid|
      reads this`running, this`termPid, this`curPid
    {
      if t == running then curPid else termPid[t]
    }

    /** A terminal that is not running waits in the frame that `schedule` saved when it last lost the processor. */
    ghost predicate ParkedOk(t: nat)
      requires t < |chains|
      reads this`running, this`ticks, this`pcbs, this`chains
    {
      chains[t] != [] ==>
        var p := Head(chains[t]);
        && 0 <= p < |pcbs| && pcbs[p].frame.SavedBySchedule?
        && pcbs[p].frame.tick == if t == Next(Next(running)) then ticks else ticks - 1
    }

    ghost predicate ProcsOk()
      reads this`running, this`ticks, this`termPid, this`curPid, this`curPcb, this`tssEsp0, this`pde32
      reads this`bitmap, this`pcbs, this`chains, this`ownerTerm, this`ownerIndex, this`creator
    {
      && Inv(Table()) && running < TERM_NUM && |termPid| == TERM_NUM
      && (forall t :: 0 <= t < TERM_NUM ==> HeadPid(t) == Head(chains[t]))
      && (curPid != -1 ==> curPcb == curPid && tssEsp0 == StackTop(curPid) && pde32 == UserPage(curPid))
      && (forall t :: 0 <= t < TERM_NUM && t != running ==> ParkedOk(t))
    }

    ghost function Stack(t: nat): seq<Proc>
      requires ProcsOk() && t < TERM_NUM
      reads this`running, this`ticks, this`termPid, this`curPid, this`curPcb, this`tssEsp0, this`pde32
      reads this`bitmap, this`pcbs, this`chains, this`ownerTerm, this`ownerIndex, this`creator
    {
      StackOf(Table(), t)
    }

    /** The lowest free slot is taken, or there is none. */
    method RecordProcess() returns (newPid: int)
      requires |bitmap| == MAX_NUM_PROCESS
      modifies this`bitmap
      ensures newPid == -1 ==> bitmap == old(bitmap) && forall p :: 0 <= p < MAX_NUM_PROCESS ==> bitmap[p]
      ensures newPid != -1 ==>
                && 0 <= newPid < MAX_NUM_PROCESS && !old(bitmap)[newPid] && bitmap == old(bitmap)[newPid := true]
                && forall p :: 0 <= p < newPid ==> old(bitmap)[p]
    {
      newPid := -1;
      var i := 0;
      while i < MAX_NUM_PROCESS
        invariant 0 <= i <= MAX_NUM_PROCESS && newPid == -1 && bitmap == old(bitmap)
        invariant forall p :: 0 <= p < i ==> bitmap[p]
      {
        if !bitmap[i] {
          newPid := i;
          bitmap := bitmap[i := true];
          break;
        }
        i := i + 1;
      }
    }

    method DecordProcess(pid: int) returns (r: int)
      requires 0 <= pid < |bitmap|
      modifies this`bitmap
      ensures bitmap == old(bitmap)[pid := false]
      ensures r == if old(bitmap)[pid] then 0 else -1
    {
      if !bitmap[pid] {
        return -1;
      }
      bitmap := bitmap[pid := false];
      return 0;
    }

    method SetupPaging(pid: int)
      modifies this`pde32
      ensures pde32 == UserPage(pid)
    {
      pde32 := pid + 2;
    }

    /** Takes a slot, fills in its PCB and saves the caller's frame. */
    method FillSlot() returns (newPid: int)
      requires Shape(Table()) && running < TERM_NUM
      requires curPid == Head(chains[running]) < MAX_NUM_PROCESS && (curPid != -1 ==> curPcb == curPid)
      modifies this`bitmap, this`pcbs, this`chains, this`ownerTerm, this`ownerIndex, this`creator
      ensures newPid == -1 ==> Table() == old(Table()) && forall p :: 0 <= p < MAX_NUM_PROCESS ==> bitmap[p]
      ensures newPid != -1 ==>
                && 0 <= newPid < MAX_NUM_PROCESS && !old(bitmap)[newPid]
                && Table() == Pushed(old(Table()), running, newPid, calls)
    {
      hide InitFileTable, Files;
      ghost var was := Table();
      newPid := RecordProcess();
      if newPid == -1 {
        return;
      }
      ghost var next := Pushed(was, running, newPid, calls);
      var made := Pcb(curPid, newPid, false, pcbs[newPid].frame, PcbAddress(newPid) + KB_8 - 4,
                      InitFileTable(pcbs[newPid].fds));
      var slots := pcbs[newPid := made];
      if curPid != -1 {
        slots := slots[curPcb := slots[curPcb].(frame := SavedByExecute(calls))];
      }
      assert slots == next.pcbs && bitmap == next.bitmap;
      hide Pushed;
      pcbs := slots;
      ownerTerm, ownerIndex, creator, chains := next.ownerTerm, next.ownerIndex, next.creator, next.chains;
    }

    /** Makes `newPid` the current process: page directory, `cur_pid`, TSS. */
    method Activate(newPid: nat)
      requires newPid < |pcbs|
      modifies this`curPid, this`curPcb, this`tssEsp0, this`pde32
      ensures curPid == curPcb == newPid && tssEsp0 == pcbs[newPid].tssEsp0 && pde32 == UserPage(newPid)
    {
      SetupPaging(newPid);
      curPcb := newPid;
      curPid := newPid;
      tssEsp0 := pcbs[newPid].tssEsp0;
    }

    method BuildProcess() returns (newPid: int)
      requires Shape(Table()) && running < TERM_NUM
      requires curPid == Head(chains[running]) < MAX_NUM_PROCESS && (curPid != -1 ==> curPcb == curPid)
      modifies this`curPid, this`curPcb, this`tssEsp0, this`pde32, this`calls, this`bitmap, this`pcbs
      modifies this`chains, this`ownerTerm, this`ownerIndex, this`creator
      ensures newPid == -1 ==>
                && Table() == old(Table()) && calls == old(calls) && curPid == old(curPid) && curPcb == old(curPcb)
                && tssEsp0 == old(tssEsp0) && pde32 == old(pde32)
                && forall p :: 0 <= p < MAX_NUM_PROCESS ==> bitmap[p]
      ensures newPid != -1 ==>
                && 0 <= newPid < MAX_NUM_PROCESS && !old(bitmap)[newPid]
                && Table() == Pushed(old(Table()), running, newPid, old(calls)) && calls == old(calls) + 1
                && curPid == curPcb == newPid && tssEsp0 == pcbs[newPid].tssEsp0 && pde32 == UserPage(newPid)
    {
      newPid := FillSlot();
      if newPid != -1 {
        hide Pushed;
        Activate(newPid);
        calls := calls + 1;
      }
    }

    /** `syscall_execute` from `record_process` on: the new process becomes the running one. */
    method Spawn() returns (ok: bool)
      requires ProcsOk()
      modifies this`curPid, this`curPcb, this`tssEsp0, this`pde32, this`calls, this`bitmap, this`pcbs
      modifies this`chains, this`ownerTerm, this`ownerIndex, this`creator
      ensures ProcsOk()
      ensures ok <==> old(|Stack(0)| + |Stack(1)| + |Stack(2)|) < MAX_NUM_PROCESS
      ensures ok ==> curPid != -1 && calls == old(calls) + 1
      ensures ok ==> Stack(running) == old(Stack(running)) + [Proc(old(calls), false, FRESH_FILES)]
      ensures ok ==> forall t :: 0 <= t < TERM_NUM && t != running ==> Stack(t) == old(Stack(t))
      ensures !ok ==> calls == old(calls) && curPid == old(curPid)
      ensures !ok ==> forall t :: 0 <= t < TERM_NUM ==> Stack(t) == old(Stack(t))
    {
      ghost var was := Table();
      FullMeansSix(was);
      HeadIsLive(was, running);
      var newPid := BuildProcess();
      if newPid == -1 {
        return false;
      }
      PushKeepsInv(was, running, newPid, old(calls));
      PushKeepsOtherHeads(was, running, newPid, old(calls));
      hide Pushed, PlacesOk, PidsOk, FramesOk;
      forall t | 0 <= t < TERM_NUM && t != running
        ensures ParkedOk(t)
      {
        assert old(ParkedOk(t));
      }
      return true;
    }

    // ------------------------------------------------------------ halt

    /** `syscall_close`: only descriptors 2..7 that are in use can be closed. */
    method CloseFd(fd: int) returns (r: int)
      requires 0 <= curPcb < |pcbs|
      modifies this`pcbs
      ensures 2 <= fd <= 7 && old(pcbs)[curPcb].fds[fd].inUse ==>
                && r == 0
                && var was := old(pcbs)[curPcb];
                   pcbs == old(pcbs)[curPcb := was.(fds := was.fds[fd := was.fds[fd].(inUse := false)])]
      ensures !(2 <= fd <= 7 && old(pcbs)[curPcb].fds[fd].inUse) ==> r == -1 && pcbs == old(pcbs)
    {
      if fd < 2 || fd > 7 {
        return -1;
      }
      var pcb := pcbs[curPcb];
      if !pcb.fds[fd].inUse {
        return -1;
      }
      pcbs := pcbs[curPcb := pcb.(fds := pcb.fds[fd := pcb.fds[fd].(inUse := false)])];
      return 0;
    }

    /** Closes every file of the halting process and clears its video flag. */
    method CloseAll()
      requires 0 <= curPcb < |pcbs|
      modifies this`pcbs
      ensures |pcbs| == old(|pcbs|) && pcbs == old(pcbs)[curPcb := pcbs[curPcb]]
      ensures pcbs[curPcb].parent == old(pcbs[curPcb].parent) && !pcbs[curPcb].vidmap
    {
      var i := 0;
      while i < 8
        invariant 0 <= i <= 8 && |pcbs| == old(|pcbs|) && pcbs == old(pcbs)[curPcb := pcbs[curPcb]]
        invariant pcbs[curPcb].parent == old(pcbs[curPcb].parent)
      {
        var _ := CloseFd(i);
        i := i + 1;
      }
      if pcbs[curPcb].vidmap {
        pcbs := pcbs[curPcb := pcbs[curPcb].(vidmap := false)];
      }
    }

    /** Frees the slot of a process that has a parent. */
    method ReleaseSlot()
      requires Shape(Table()) && running < TERM_NUM && chains[running] != []
      requires 0 <= curPid == curPcb == Head(chains[running]) < MAX_NUM_PROCESS
      modifies this`bitmap, this`pcbs, this`chains
      ensures |pcbs| == MAX_NUM_PROCESS && Table() == Popped(old(Table()), running, pcbs[curPid])
    {
      var _ := DecordProcess(curPid);
      CloseAll();
      chains := chains[running := chains[running][..|chains[running]| - 1]];
    }

    /** The process half of `syscall_halt` for a process with a parent: the parent's saved frame is resumed. */
    method ReturnToParent() returns (frame: Frame)
      requires ProcsOk() && |Stack(running)| >= 2
      modifies this`curPid, this`curPcb, this`tssEsp0, this`pde32, this`bitmap, this`pcbs, this`chains
      ensures ProcsOk() && curPid != -1
      ensures frame == SavedByExecute(Top(old(Stack(running))).call)
      ensures Stack(running) == old(Stack(running)[..|Stack(running)| - 1])
      ensures forall t :: 0 <= t < TERM_NUM && t != running ==> Stack(t) == old(Stack(t))
    {
      ghost var was := Table();
      HeadIsLive(was, running);
      ParentHoldsTheCall(was, running);
      var parent := pcbs[curPcb].parent;
      ReleaseSlot();
      PopKeepsInv(was, running, pcbs[curPid]);
      OtherHeadsSurvive(was, running, pcbs[curPid]);
      Activate(parent);
      frame := pcbs[parent].frame;
      forall t | 0 <= t < TERM_NUM && t != running
        ensures ParkedOk(t)
      {
        assert old(ParkedOk(t));
      }
    }

    /** A base shell gives up its slot; for a moment the terminal has no process. */
    method Vacate()
      requires ProcsOk() && |Stack(running)| == 1
      modifies this`curPid, this`bitmap, this`chains
      ensures ProcsOk() && curPid == -1 && Stack(running) == []
      ensures forall t :: 0 <= t < TERM_NUM && t != running ==> Stack(t) == old(Stack(t))
    {
      ghost var was := Table();
      HeadIsLive(was, running);
      PopKeepsInv(was, running, pcbs[curPid]);
      var _ := DecordProcess(curPid);
      curPid := -1;
      chains := chains[running := chains[running][..|chains[running]| - 1]];
      assert Table() == Popped(was, running, was.pcbs[old(curPid)]);
      forall t | 0 <= t < TERM_NUM && t != running
        ensures ParkedOk(t)
      {
        assert old(ParkedOk(t));
      }
    }

    /** A halting base shell is replaced: a slot is always free, the one it has just given up. */
    method RestartShell()
      requires ProcsOk() && |Stack(running)| == 1
      modifies this`curPid, this`curPcb, this`tssEsp0, this`pde32, this`calls, this`bitmap, this`pcbs
      modifies this`chains, this`ownerTerm, this`ownerIndex, this`creator
      ensures ProcsOk() && curPid != -1 && calls == old(calls) + 1
      ensures Stack(running) == [Proc(old(calls), false, FRESH_FILES)]
      ensures forall t :: 0 <= t < TERM_NUM && t != running ==> Stack(t) == old(Stack(t))
    {
      FullMeansSix(Table());
      Vacate();
      var ok := Spawn();
      assert ok;
    }

    // ------------------------------------------------------------ schedule

    /** `schedule` saves the current process. */
    method Park()
      requires ProcsOk()
      modifies this`termPid, this`pcbs
      ensures ProcsOk() && termPid[running] == curPid
      ensures curPid != -1 ==> 0 <= curPid < |pcbs| && pcbs[curPid].frame == SavedBySchedule(ticks + 1)
      ensures forall t :: 0 <= t < TERM_NUM ==> Stack(t) == old(Stack(t))
    {
      ghost var was := Table();
      HeadIsLive(was, running);
      termPid := termPid[running := curPid];
      if curPid != -1 {
        var pcb := pcbs[curPcb].(tssEsp0 := tssEsp0, frame := SavedBySchedule(ticks + 1));
        TopUpdateKeepsInv(was, running, pcb);
        OtherHeadsSurvive(was, running, pcb);
        ParentHoldsTheCall(was, running);
        pcbs := pcbs[curPcb := pcb];
        assert Table() == TopUpdated(was, running, pcb);
      }
      forall t | 0 <= t < TERM_NUM && t != running
        ensures ParkedOk(t)
      {
        assert old(ParkedOk(t));
      }
    }

    /** `schedule` moves to the next terminal and resumes its process, if it has one. */
    method Dispatch() returns (frame: Frame)
      requires ProcsOk() && termPid[running] == curPid
      requires curPid != -1 ==> 0 <= curPid < |pcbs| && pcbs[curPid].frame == SavedBySchedule(ticks + 1)
      modifies this`running, this`ticks, this`curPid, this`curPcb, this`tssEsp0, this`pde32
      ensures running == Next(old(running)) && ticks == old(ticks) + 1
      ensures ProcsOk() && (curPid == -1 <==> Stack(running) == [])
      ensures curPid != -1 ==> old(ticks) > 0 && frame == SavedBySchedule(old(ticks) - 1)
      ensures forall t :: 0 <= t < TERM_NUM ==> Stack(t) == old(Stack(t))
    {
      var next := Next(running);
      HeadIsLive(Table(), next);
      assert ParkedOk(next);
      frame := Garbage;
      var nextPid := termPid[next];
      if nextPid != -1 {
        Activate(nextPid);
        frame := pcbs[nextPid].frame;
      } else {
        curPid, curPcb := nextPid, nextPid;
      }
      running, ticks := next, ticks + 1;
      forall t | 0 <= t < TERM_NUM && t != running
        ensures ParkedOk(t)
      {
        assert t != old(running) ==> old(ParkedOk(t));
      }
    }

    /** Changes the open files or the video flag of the current process. */
    method UpdateCurrent(pcb: Pcb)
      requires ProcsOk() && curPid != -1 && 0 <= curPcb < |pcbs|
      requires pcb == pcbs[curPcb].(vidmap := pcb.vidmap, fds := pcb.fds) && PositionsOk(pcb.fds)
      modifies this`pcbs
      ensures ProcsOk() && old(Stack(running)) != []
      ensures Stack(running) ==
              WithTop(old(Stack(running)), Top(old(Stack(running))).(vidmap := pcb.vidmap, fds := Files(pcb.fds)))
      ensures forall t :: 0 <= t < TERM_NUM && t != running ==> Stack(t) == old(Stack(t))
    {
      ghost var was := Table();
      HeadIsLive(was, running);
      ParentHoldsTheCall(was, running);
      TopUpdateKeepsInv(was, running, pcb);
      OtherHeadsSurvive(was, running, pcb);
      pcbs := pcbs[curPcb := pcb];
      assert Table() == TopUpdated(was, running, pcb);
      forall t | 0 <= t < TERM_NUM && t != running
        ensures ParkedOk(t)
      {
        assert old(ParkedOk(t));
      }
    }

    // ------------------------------------------------------------ the whole kernel

    /** What holds between any two steps, and also while a tick has found a terminal without a process. */
    ghost predicate Consistent()
      reads this
    {
      && VideoOk() && KbdOk() && ProcsOk()
      && MapsScreenOf(running) && (ticks > 0 ==> UserWindowOk(running))
      && running == ticks % TERM_NUM
    }

    /** What holds between any two steps. */
    ghost predicate Valid()
      reads this
    {
      Consistent() && (curPid == -1 <==> ticks == 0)
    }

    ghost function TermOf(t: nat): Term
      requires Consistent() && t < TERM_NUM
      reads this, pages
    {
      RawTerm(ConsoleOf(t), EditorOf(t), Stack(t), termVidmap[t])
    }

    /** The three terminals that the globals stand for. */
    ghost function Abs(): (s: Sys)
      requires Consistent()
      reads this, pages
      ensures forall t :: 0 <= t < TERM_NUM ==> s.terms[t] == TermOf(t)
      ensures s.running == running && s.viewing == viewing && s.mods == mods && s.ticks == ticks && s.calls == calls
      ensures curPid == -1 <==> s.terms[running].stack == []
    {
      HeadIsLive(Table(), running);
      RawSys([TermOf(0), TermOf(1), TermOf(2)], running, viewing, mods, ticks, calls)
    }

    /** Output of the running terminal. */
    method Say(text: seq<byte>)
      requires Consistent()
      modifies this`cursorX, this`cursorY, pages
      ensures Consistent() && TermOf(running) == Act(old(TermOf(running)), Print(text))
      ensures forall t :: 0 <= t < TERM_NUM && t != running ==> TermOf(t) == old(TermOf(t))
    {
      hide KbdOk, ProcsOk, ConsoleOf, EditorOf, Stack, PutAll;
      PrintText(text);
    }

    /** A new process on top of the running one, if a slot is free. */
    method Launch() returns (ok: bool)
      requires Consistent()
      modifies this`curPid, this`curPcb, this`tssEsp0, this`pde32, this`calls, this`bitmap, this`pcbs
      modifies this`chains, this`ownerTerm, this`ownerIndex, this`creator
      ensures Consistent() && (ok <==> Live(old(Abs())) < MAX_NUM_PROCESS)
      ensures ok ==> curPid != -1 && calls == old(calls) + 1
      ensures ok ==> TermOf(running) == Act(old(TermOf(running)), Push(old(calls)))
      ensures !ok ==> calls == old(calls) && curPid == old(curPid) && TermOf(running) == old(TermOf(running))
      ensures forall t :: 0 <= t < TERM_NUM && t != running ==> TermOf(t) == old(TermOf(t))
    {
      hide VideoOk, KbdOk, ProcsOk, ConsoleOf, EditorOf, Stack, MapsScreenOf, UserWindowOk;
      ok := Spawn();
    }

    method OnExecute(prog: Program) returns (r: Reply)
      requires Valid()
      modifies this, pages
      ensures Valid() && Abs() == Terminals.Step(image, old(Abs()), Execute(prog))
      ensures r == Answer(image, old(Abs()), Execute(prog))
    {
      hide Consistent, TermOf, Abs, Act, ActAll, Terminals.Step;
      ghost var s, e := Abs(), Execute(prog);
      if curPid == -1 {
        ActNone(s.terms[running]);
        r := Quiet;
      } else if prog == Missing {
        Say(NOT_FOUND);
        ActOne(s.terms[running], Print(NOT_FOUND));
        r := Value(-1);
      } else if prog == NotElf {
        Say(NOT_ELF);
        ActOne(s.terms[running], Print(NOT_ELF));
        r := Value(-1);
      } else {
        var ok := Launch();
        if ok {
          ActOne(s.terms[running], Push(s.calls));
          r := Started(calls - 1);
        } else {
          Say(TABLE_FULL);
          ActOne(s.terms[running], Print(TABLE_FULL));
          r := Value(0);
        }
      }
      StepIs(image, s, e, Abs());
    }

    /** The end of the current process, as its terminal sees it. */
    ghost function Ended(t: Term, call: nat): Term
      requires t.stack != []
    {
      Act(t, if |t.stack| == 1 then Replace(call) else Pop)
    }

    /** `syscall_halt` */
    method HaltProcess(status: byte) returns (r: Reply)
      requires Valid() && curPid != -1
      modifies this`curPid, this`curPcb, this`tssEsp0, this`pde32, this`calls, this`bitmap, this`pcbs
      modifies this`chains, this`ownerTerm, this`ownerIndex, this`creator
      modifies this`termVidmap, this`userFrame, this`userPresent
      ensures Valid() && curPid != -1 && old(TermOf(running)).stack != []
      ensures TermOf(running) == Ended(old(TermOf(running)), old(calls))
      ensures forall t :: 0 <= t < TERM_NUM && t != running ==> TermOf(t) == old(TermOf(t))
      ensures calls == if |old(TermOf(running)).stack| == 1 then old(calls) + 1 else old(calls)
      ensures r == if |old(TermOf(running)).stack| == 1 then Started(old(calls))
                   else Resumed(SavedByExecute(Top(old(TermOf(running)).stack).call), StatusValue(status))
    {
      hide Consistent, TermOf, Act;
      var parent, mapped := InspectCurrent();
      if parent == -1 {
        HaltBase();
        r := Started(calls - 1);
      } else {
        var frame := HaltChild(mapped);
        r := Resumed(frame, if status == 255 then 256 else status);
      }
    }

    /** The PCB fields of the current process that decide how it halts. */
    method InspectCurrent() returns (parent: int, mapped: bool)
      requires Valid() && curPid != -1
      ensures TermOf(running).stack != []
      ensures parent == -1 <==> |TermOf(running).stack| == 1
      ensures mapped == Top(TermOf(running).stack).vidmap
    {
      ghost var was := Table();
      HeadIsLive(was, running);
      ParentHoldsTheCall(was, running);
      return pcbs[curPcb].parent, pcbs[curPcb].vidmap;
    }

    method HaltBase()
      requires Valid() && curPid != -1 && |TermOf(running).stack| == 1
      modifies this`curPid, this`curPcb, this`tssEsp0, this`pde32, this`calls, this`bitmap, this`pcbs
      modifies this`chains, this`ownerTerm, this`ownerIndex, this`creator
      ensures Valid() && curPid != -1 && calls == old(calls) + 1
      ensures TermOf(running) == Act(old(TermOf(running)), Replace(old(calls)))
      ensures forall t :: 0 <= t < TERM_NUM && t != running ==> TermOf(t) == old(TermOf(t))
    {
      hide VideoOk, KbdOk, ProcsOk, ConsoleOf, EditorOf, Stack, MapsScreenOf, UserWindowOk;
      RestartShell();
    }

    method HaltChild(mapped: bool) returns (frame: Frame)
      requires Valid() && curPid != -1 && |TermOf(running).stack| >= 2
      requires mapped == Top(TermOf(running).stack).vidmap
      modifies this`curPid, this`curPcb, this`tssEsp0, this`pde32, this`bitmap, this`pcbs, this`chains
      modifies this`termVidmap, this`userFrame, this`userPresent
      ensures Valid() && curPid != -1 && frame == SavedByExecute(Top(old(TermOf(running)).stack).call)
      ensures TermOf(running) == Act(old(TermOf(running)), Pop)
      ensures forall t :: 0 <= t < TERM_NUM && t != running ==> TermOf(t) == old(TermOf(t))
    {
      hide KbdOk, ProcsOk, ConsoleOf, EditorOf, Stack;
      frame := ReturnToParent();
      if mapped {
        SetWindow(false);
      }
    }

    /** Opens or closes the running terminal's window onto its own screen. */
    method SetWindow(open: bool)
      requires VideoOk() && MapsScreenOf(running)
      modifies this`termVidmap, this`userFrame, this`userPresent
      ensures VideoOk() && termVidmap == old(termVidmap)[running := open] && UserWindowOk(running)
      ensures forall t :: 0 <= t < TERM_NUM ==> ConsoleOf(t) == old(ConsoleOf(t))
    {
      if running == viewing {
        SwitchUsrmap(VIDEO_FRAME, open);
      } else {
        SwitchUsrmap(VidMemBuffer(running), open);
      }
      termVidmap := termVidmap[running := open];
    }

    method SwitchUsrmap(frame: int, present: bool)
      modifies this`userFrame, this`userPresent
      ensures userFrame == frame && userPresent == present
    {
      userPresent := present;
      userFrame := frame;
    }

    method OnHalt(status: byte) returns (r: Reply)
      requires Valid()
      modifies this, pages
      ensures Valid() && Abs() == Terminals.Step(image, old(Abs()), Halt(status))
      ensures r == Answer(image, old(Abs()), Halt(status))
    {
      hide Consistent, TermOf, Abs, Act, ActAll, Terminals.Step;
      ghost var s, e := Abs(), Halt(status);
      if curPid == -1 {
        ActNone(s.terms[running]);
        r := Quiet;
      } else {
        r := HaltProcess(status);
        ActOne(s.terms[running], if |s.terms[running].stack| == 1 then Replace(s.calls) else Pop);
      }
      StepIs(image, s, e, Abs());
    }

    /** An exception handler prints its message and halts the process with status 255. */
    method OnException(message: seq<byte>) returns (r: Reply)
      requires Valid()
      modifies this, pages
      ensures Valid() && Abs() == Terminals.Step(image, old(Abs()), Exception(message))
      ensures r == Answer(image, old(Abs()), Exception(message))
    {
      hide Consistent, TermOf, Abs, ActAll, Terminals.Step, PutAll;
      ghost var s, e := Abs(), Exception(message);
      if curPid == -1 {
        ActNone(s.terms[running]);
        r := Quiet;
      } else {
        Say(message);
        r := HaltProcess(255);
        ActTwo(s.terms[running], Print(message), if |s.terms[running].stack| == 1 then Replace(s.calls) else Pop);
      }
      StepIs(image, s, e, Abs());
    }

    // ------------------------------------------------------------ clock

    /** `pit_int_handler` up to the switch: remap the screen, save the current process, take the next terminal. */
    method Rotate() returns (frame: Frame)
      requires Consistent()
      modifies this`cursor, this`videoFrame, this`userFrame, this`userPresent, this`termPid, this`pcbs
      modifies this`running, this`ticks, this`curPid, this`curPcb, this`tssEsp0, this`pde32
      ensures Consistent() && running == Next(old(running)) && ticks == old(ticks) + 1
      ensures curPid == -1 <==> TermOf(running).stack == []
      ensures curPid != -1 ==> old(ticks) > 0 && frame == SavedBySchedule(old(ticks) - 1)
      ensures forall t :: 0 <= t < TERM_NUM ==> TermOf(t) == old(TermOf(t))
    {
      hide KbdOk, ProcsOk, EditorOf, Stack;
      ChangeVidmemMapping(Next(running));
      frame := Reschedule();
    }

    /** `schedule` */
    method Reschedule() returns (frame: Frame)
      requires ProcsOk()
      modifies this`termPid, this`pcbs
      modifies this`running, this`ticks, this`curPid, this`curPcb, this`tssEsp0, this`pde32
      ensures running == Next(old(running)) && ticks == old(ticks) + 1
      ensures ProcsOk() && (curPid == -1 <==> Stack(running) == [])
      ensures curPid != -1 ==> old(ticks) > 0 && frame == SavedBySchedule(old(ticks) - 1)
      ensures forall t :: 0 <= t < TERM_NUM ==> Stack(t) == old(Stack(t))
    {
      hide Inv, StackOf;
      Park();
      frame := Dispatch();
    }

    /**
     A clock tick.  The kernel runs wild exactly when the next terminal needs its first shell and all six
     slots are taken: it then maps the kernel's own page as the program page and resumes a frame nobody saved.
     */
    method OnTick() returns (r: Reply, wild: bool)
      requires Valid()
      modifies this, pages
      ensures wild <==> Stuck(old(Abs()), Tick)
      ensures wild ==> curPid == -1 && pde32 == KERNEL_PAGE
      ensures !wild ==> Valid() && Abs() == Terminals.Step(image, old(Abs()), Tick)
      ensures !wild ==> r == Answer(image, old(Abs()), Tick)
    {
      hide Consistent, TermOf, Abs;
      ghost var s := Abs();
      var frame := Rotate();
      r, wild := FinishTick(frame, s);
    }

    /** The rest of `schedule`, once the next terminal `running` has been taken. */
    method FinishTick(frame: Frame, ghost s: Sys) returns (r: Reply, wild: bool)
      requires Consistent() && running == Next(s.running) && ticks == s.ticks + 1
      requires forall t :: 0 <= t < TERM_NUM ==> TermOf(t) == s.terms[t]
      requires viewing == s.viewing && mods == s.mods && calls == s.calls
      requires curPid == -1 <==> s.terms[running].stack == []
      requires curPid != -1 ==> s.ticks > 0 && frame == SavedBySchedule(s.ticks - 1)
      modifies this, pages
      ensures wild <==> Stuck(s, Tick)
      ensures wild ==> curPid == -1 && pde32 == KERNEL_PAGE
      ensures !wild ==> Valid() && Abs() == Terminals.Step(image, s, Tick)
      ensures !wild ==> r == Answer(image, s, Tick)
    {
      TickEffect(image, s);
      hide Consistent, TermOf, Abs, Act, ActAll, Terminals.Step, Effect, Answer;
      wild := false;
      if curPid != -1 {
        ActNone(s.terms[running]);
        r := Resumed(frame, 0);
      } else {
        var ok := LaunchBaseShell();
        if !ok {
          RunWild();
          return Quiet, true;
        }
        ActTwo(s.terms[running], Print(Banner(running)), Push(s.calls));
        r := Started(calls - 1);
      }
      StepIs(image, s, Tick, Abs());
    }

    /** What `schedule` does after a shell could not be launched. */
    method RunWild()
      requires Consistent() && curPid == -1
      modifies this`cursorX, this`cursorY, this`pde32, pages
      ensures curPid == -1 && pde32 == KERNEL_PAGE
    {
      hide Consistent, TermOf, Act;
      Say(TABLE_FULL);
      Say(Ascii("This should not be printed!\n"));
      SetupPaging(curPid);
    }

    /** `launch_base_shell`: the banner, then `execute ("shell")`. */
    method LaunchBaseShell() returns (ok: bool)
      requires Consistent() && curPid == -1
      modifies this`curPid, this`curPcb, this`tssEsp0, this`pde32, this`calls, this`bitmap, this`pcbs
      modifies this`chains, this`ownerTerm, this`ownerIndex, this`creator
      modifies this`cursorX, this`cursorY, pages
      ensures Consistent() && (ok <==> Live(old(Abs())) < MAX_NUM_PROCESS)
      ensures ok ==> curPid != -1 && calls == old(calls) + 1
      ensures !ok ==> curPid == -1
      ensures ok ==> TermOf(running) == Act(Act(old(TermOf(running)), Print(Banner(running))), Push(old(calls)))
      ensures forall t :: 0 <= t < TERM_NUM && t != running ==> TermOf(t) == old(TermOf(t))
    {
      hide Consistent, TermOf, PutAll;
      Say(Banner(running));
      ok := Launch();
    }

    // ------------------------------------------------------------ keyboard

    method TypeChar(c: byte)
      requires Consistent()
      modifies this`cursor, this`videoFrame, this`userFrame, this`userPresent, this`cursorX, this`cursorY, pages
      modifies this`kbdBufs, this`bufPos, this`ready
      ensures Consistent() && TermOf(viewing) == Act(old(TermOf(viewing)), Echo(c))
      ensures forall t :: 0 <= t < TERM_NUM && t != viewing ==> TermOf(t) == old(TermOf(t))
    {
      hide ProcsOk, Stack, ConsoleOf, EditorOf, Putc, TypeKey;
      EchoChar(c);
      EditLine(c);
    }

    /** Shows a character on the viewed screen, whichever terminal is running. */
    method EchoChar(c: byte)
      requires VideoOk()
      modifies this`cursor, this`videoFrame, this`userFrame, this`userPresent, this`cursorX, this`cursorY, pages
      ensures VideoOk() && MapsScreenOf(running) && UserWindowOk(running)
      ensures ConsoleOf(viewing) == Putc(old(ConsoleOf(viewing)), c)
      ensures forall t :: 0 <= t < TERM_NUM && t != viewing ==> ConsoleOf(t) == old(ConsoleOf(t))
    {
      hide Putc;
      ChangeVidmemMapping(viewing);
      PutChar(c);
      ChangeVidmemMapping(running);
    }

    method RubOut()
      requires Consistent()
      modifies this`cursor, this`videoFrame, this`userFrame, this`userPresent, this`cursorX, this`cursorY, pages
      modifies this`bufPos
      ensures Consistent()
      ensures TermOf(viewing) ==
              if old(TermOf(viewing)).editor.pos > 0 then Act(old(TermOf(viewing)), Rubout) else old(TermOf(viewing))
      ensures forall t :: 0 <= t < TERM_NUM && t != viewing ==> TermOf(t) == old(TermOf(t))
    {
      hide ProcsOk, Stack, ConsoleOf, Putc;
      if bufPos > 0 {
        EchoChar(BACKSPACE);
        bufPos := bufPos - 1;
      }
    }

    method WipeScreen()
      requires Consistent()
      modifies this`cursor, this`videoFrame, this`userFrame, this`userPresent, this`cursorX, this`cursorY, pages
      ensures Consistent() && TermOf(viewing) == Act(old(TermOf(viewing)), Wipe)
      ensures forall t :: 0 <= t < TERM_NUM && t != viewing ==> TermOf(t) == old(TermOf(t))
    {
      hide ProcsOk, KbdOk, Stack, ConsoleOf, EditorOf, Cleared;
      ClearScreen();
    }

    /** Alt-F1..F3: another terminal is viewed, and no terminal changes. */
    method View(target: nat)
      requires Consistent() && target < TERM_NUM
      modifies this`savedPos, this`kbdBuf, this`bufPos, this`viewing
      modifies this`cursor, this`videoFrame, this`userFrame, this`userPresent, pages
      ensures Consistent() && viewing == target
      ensures forall t :: 0 <= t < TERM_NUM ==> TermOf(t) == old(TermOf(t))
    {
      hide ProcsOk, Stack, ConsoleOf, EditorOf;
      SwitchTerminal(target);
    }

    method OnKey(code: byte) returns (r: Reply)
      requires Valid()
      modifies this, pages
      ensures Valid() && Abs() == Terminals.Step(image, old(Abs()), Key(code))
      ensures r == Answer(image, old(Abs()), Key(code))
    {
      hide Consistent, TermOf, Abs, Act, ActAll, Terminals.Step, Decode, Effect, Answer, StrokeActions;
      ghost var s := Abs();
      KeyEffect(image, s, code);
      var (flags, stroke) := Decode(mods, code);
      r := Quiet;
      Press(stroke);
      SetFlags(flags);
      StepIs(image, s, Key(code), Abs());
    }

    /** The part of `keyboard_int_handler` that acts on the viewed terminal. */
    method Press(stroke: Stroke)
      requires Consistent() && (stroke.Switch? ==> stroke.tid < TERM_NUM)
      modifies this`kbdBufs, this`ready, this`savedPos, this`kbdBuf, this`bufPos, this`viewing
      modifies this`cursor, this`videoFrame, this`userFrame, this`userPresent, this`cursorX, this`cursorY, pages
      ensures Consistent() && viewing == if stroke.Switch? then stroke.tid else old(viewing)
      ensures var was := old(TermOf(viewing));
              TermOf(old(viewing)) == ActAll(was, StrokeActions(stroke, was.editor))
      ensures forall t :: 0 <= t < TERM_NUM && t != old(viewing) ==> TermOf(t) == old(TermOf(t))
    {
      ghost var was := TermOf(viewing);
      hide Consistent, TermOf, Act, ActAll;
      ActNone(was);
      match stroke {
        case Typed(c) =>
          TypeChar(c);
          ActOne(was, Echo(c));
        case EraseLast =>
          RubOut();
          ActOne(was, Rubout);
        case ClearScreen =>
          WipeScreen();
          ActOne(was, Wipe);
        case Switch(target) =>
          View(target);
        case Nothing =>
      }
    }

    method SetFlags(flags: Mods)
      requires Consistent()
      modifies this`mods
      ensures Consistent() && mods == flags
      ensures forall t :: 0 <= t < TERM_NUM ==> TermOf(t) == old(TermOf(t))
    {
      mods := flags;
    }

    // ------------------------------------------------------------ video memory for programs

    method OpenWindow()
      requires Consistent() && curPid != -1
      modifies this`termVidmap, this`userFrame, this`userPresent, this`pcbs
      ensures Consistent() && TermOf(running) == Act(old(TermOf(running)), MapVideo)
      ensures forall t :: 0 <= t < TERM_NUM && t != running ==> TermOf(t) == old(TermOf(t))
    {
      hide KbdOk, ProcsOk, ConsoleOf, EditorOf, Stack;
      SetWindow(true);
      MarkMapped();
    }

    method MarkMapped()
      requires ProcsOk() && curPid != -1
      modifies this`pcbs
      ensures ProcsOk() && old(Stack(running)) != []
      ensures Stack(running) == WithTop(old(Stack(running)), Top(old(Stack(running))).(vidmap := true))
      ensures forall t :: 0 <= t < TERM_NUM && t != running ==> Stack(t) == old(Stack(t))
    {
      HeadIsLive(Table(), running);
      ParentHoldsTheCall(Table(), running);
      UpdateCurrent(pcbs[curPcb].(vidmap := true));
    }

    method OnVidmap(ptr: int) returns (r: Reply)
      requires Valid()
      modifies this, pages
      ensures Valid() && Abs() == Terminals.Step(image, old(Abs()), Vidmap(ptr))
      ensures r == Answer(image, old(Abs()), Vidmap(ptr))
    {
      hide Consistent, TermOf, Abs, Act, ActAll, Terminals.Step;
      ghost var s := Abs();
      ActNone(s.terms[running]);
      if curPid == -1 {
        r := Quiet;
      } else if ptr == 0 {
        r := Value(-1);
      } else if ptr < USER_START || ptr > USER_END - 4 {
        Say(BAD_VIDMAP);
        ActOne(s.terms[running], Print(BAD_VIDMAP));
        r := Value(-1);
      } else {
        OpenWindow();
        ActOne(s.terms[running], MapVideo);
        r := Value(0);
      }
      StepIs(image, s, Vidmap(ptr), Abs());
    }

    /** A program stores a byte through its window: it lands on the running terminal's own screen. */
    method StoreThroughWindow(offset: nat, value: byte) returns (fault: bool)
      requires Valid() && curPid != -1
      modifies pages
      ensures Valid() && (fault <==> !(old(TermOf(running)).vidmap && offset < PAGE_SIZE))
      ensures TermOf(running) ==
              if fault then old(TermOf(running)) else Act(old(TermOf(running)), Poke(offset, value))
      ensures forall t :: 0 <= t < TERM_NUM && t != running ==> TermOf(t) == old(TermOf(t))
    {
      hide KbdOk, ProcsOk, EditorOf, Stack;
      if !userPresent || offset >= PAGE_SIZE {
        return true;
      }
      var page := pages[userFrame - VIDEO_FRAME];
      page[offset] := value;
      assert page[..] == old(page[..])[offset := value];
      return false;
    }

    method OnVideoStore(offset: nat, value: byte) returns (r: Reply)
      requires Valid()
      modifies this, pages
      ensures Valid() && Abs() == Terminals.Step(image, old(Abs()), VideoStore(offset, value))
      ensures r == Answer(image, old(Abs()), VideoStore(offset, value))
    {
      hide Consistent, TermOf, Abs, Act, ActAll, Terminals.Step;
      ghost var s := Abs();
      ActNone(s.terms[running]);
      r := Quiet;
      if curPid != -1 {
        var fault := StoreThroughWindow(offset, value);
        ActOne(s.terms[running], Poke(offset, value));
        if fault {
          r := Faulted;
        }
      }
      StepIs(image, s, VideoStore(offset, value), Abs());
    }

    // ------------------------------------------------------------ files

    /** The open file behind a descriptor of the current process. */
    method CurrentFile(fd: int) returns (file: Option<OpenFile>)
      requires Valid() && curPid != -1
      ensures file == FileAt(Abs(), fd)
      ensures file.Some? ==> file.value.pos < MAX_FILES * BLOCK_SIZE
    {
      HeadIsLive(Table(), running);
      ParentHoldsTheCall(Table(), running);
      if fd < 0 || fd >= 8 {
        return None;
      }
      return FileIn(pcbs[curPcb].fds[fd]);
    }

    /** `syscall_open`'s scan: the lowest free descriptor from 2 on, or 8. */
    method FreeDescriptor() returns (idx: nat)
      requires Valid() && curPid != -1
      ensures TermOf(running).stack != [] && idx == LowestFree(Top(TermOf(running).stack).fds, 2)
    {
      HeadIsLive(Table(), running);
      ParentHoldsTheCall(Table(), running);
      var fds := pcbs[curPcb].fds;
      hide Consistent, TermOf, ProcsOk;
      idx := 2;
      while idx < 8
        invariant 2 <= idx <= 8 && LowestFree(Files(fds), 2) == LowestFree(Files(fds), idx)
      {
        if !fds[idx].inUse {
          break;
        }
        idx := idx + 1;
      }
    }

    /** Writes one entry of the current process's file table. */
    method StoreFd(fd: nat, entry: Fd)
      requires Consistent() && curPid != -1 && fd < 8 && (entry.inUse ==> entry.file.pos < MAX_FILES * BLOCK_SIZE)
      modifies this`pcbs
      ensures Consistent() && TermOf(running) == Act(old(TermOf(running)), SetFile(fd, FileIn(entry)))
      ensures forall t :: 0 <= t < TERM_NUM && t != running ==> TermOf(t) == old(TermOf(t))
    {
      hide VideoOk, KbdOk, ProcsOk, ConsoleOf, EditorOf, Stack, MapsScreenOf, UserWindowOk;
      SetEntry(fd, entry);
    }

    method SetEntry(fd: nat, entry: Fd)
      requires ProcsOk() && curPid != -1 && fd < 8 && (entry.inUse ==> entry.file.pos < MAX_FILES * BLOCK_SIZE)
      modifies this`pcbs
      ensures ProcsOk() && old(Stack(running)) != []
      ensures var top := Top(old(Stack(running)));
              Stack(running) == WithTop(old(Stack(running)), top.(fds := top.fds[fd := FileIn(entry)]))
      ensures forall t :: 0 <= t < TERM_NUM && t != running ==> Stack(t) == old(Stack(t))
    {
      HeadIsLive(Table(), running);
      ParentHoldsTheCall(Table(), running);
      var pcb := pcbs[curPcb];
      var fds := pcb.fds[fd := entry];
      assert Files(fds) == Files(pcb.fds)[fd := FileIn(entry)];
      UpdateCurrent(pcb.(fds := fds));
    }

    method OnOpen(name: seq<byte>) returns (r: Reply)
      requires Valid()
      modifies this, pages
      ensures Valid() && Abs() == Terminals.Step(image, old(Abs()), Open(name))
      ensures r == Answer(image, old(Abs()), Open(name))
    {
      hide Consistent, TermOf, Abs, Act, ActAll, Terminals.Step, LowestFree, FindFirst, Str, NameOf;
      ghost var s := Abs();
      ActNone(s.terms[running]);
      if curPid == -1 {
        r := Quiet;
      } else {
        var rc, entry := ReadDentryByName(image, name + [NUL]);
        var idx := FreeDescriptor();
        if rc == -1 || idx == 8 {
          r := Value(-1);
        } else {
          var file := OpenFile(OpsFor(entry.value.kind), entry.value.inode, 0);
          StoreFd(idx, Fd(true, file));
          ActOne(s.terms[running], SetFile(idx, Some(file)));
          r := Value(idx);
        }
      }
      StepIs(image, s, Open(name), Abs());
    }

    method OnClose(fd: int) returns (r: Reply)
      requires Valid()
      modifies this, pages
      ensures Valid() && Abs() == Terminals.Step(image, old(Abs()), Close(fd))
      ensures r == Answer(image, old(Abs()), Close(fd))
    {
      hide Consistent, TermOf, Abs, Act, ActAll, Terminals.Step;
      ghost var s := Abs();
      ActNone(s.terms[running]);
      if curPid == -1 {
        r := Quiet;
      } else {
        var file := CurrentFile(fd);
        if fd < 2 || fd > 7 || file.None? {
          r := Value(-1);
        } else {
          StoreFd(fd, Fd(false, file.value));
          ActOne(s.terms[running], SetFile(fd, None));
          r := Value(0);
        }
      }
      StepIs(image, s, Close(fd), Abs());
    }

    method OnWrite(fd: int, text: seq<byte>) returns (r: Reply)
      requires Valid()
      modifies this, pages
      ensures Valid() && Abs() == Terminals.Step(image, old(Abs()), Write(fd, text))
      ensures r == Answer(image, old(Abs()), Write(fd, text))
    {
      hide Consistent, TermOf, Abs, Act, ActAll, Terminals.Step, FileAt, RtcAccepts;
      ghost var s := Abs();
      ActNone(s.terms[running]);
      if curPid == -1 {
        r := Quiet;
      } else {
        var file := CurrentFile(fd);
        if fd == 0 || file.None? {
          r := Value(-1);
        } else {
          match file.value.ops {
            case Stdin | Stdout =>
              if text == [] {
                r := Value(-1);
              } else {
                Say(text);
                ActOne(s.terms[running], Print(text));
                r := Value(|text|);
              }
            case RtcOps =>
              r := Value(if RtcAccepts(text) then 0 else -1);
            case FileOps | DirOps =>
              r := Value(-1);
          }
        }
      }
      StepIs(image, s, Write(fd, text), Abs());
    }

    /** `terminal_read`: waits for the running terminal's Enter, then copies from the viewed terminal's buffer. */
    method ReadKeyboard(nbytes: int) returns (r: Reply)
      requires Valid()
      modifies this`ready
      ensures Valid() && r == ReadLine(old(Abs()), nbytes)
      ensures TermOf(running) == if r.Data? then Act(old(TermOf(running)), TakeLine) else old(TermOf(running))
      ensures forall t :: 0 <= t < TERM_NUM && t != running ==> TermOf(t) == old(TermOf(t))
    {
      hide VideoOk, ProcsOk, ConsoleOf, Stack, MapsScreenOf, UserWindowOk, LineFrom;
      if nbytes <= 0 {
        return Value(-1);
      }
      if !ready[running] {
        return Blocked;
      }
      var buf := CopyLine(nbytes);
      ready := ready[running := false];
      return Data(buf);
    }

    method ReadRegular(fd: nat, file: OpenFile, length: uint32) returns (r: Reply)
      requires Valid() && curPid != -1 && fd < 8 && file.pos < MAX_FILES * BLOCK_SIZE
      modifies this`pcbs
      ensures Valid() && r == FileReply(image, file, length)
      ensures var next := MovesTo(image, file.inode, file.pos, length);
              TermOf(running) == if next.None? then old(TermOf(running))
                                 else Act(old(TermOf(running)), SetFile(fd, Some(file.(pos := next.value))))
      ensures forall t :: 0 <= t < TERM_NUM && t != running ==> TermOf(t) == old(TermOf(t))
    {
      hide Consistent, TermOf, Act, BytesRead, ReadOutcome, Wraps;
      var buf := new byte[length];
      var outcome, file' := FileRead(image, file, buf, 0, length);
      if outcome.Fault? {
        return Faulted;
      }
      if outcome.n == -1 {
        return Value(-1);
      }
      assert MovesTo(image, file.inode, file.pos, length) == Some(file'.pos);
      r := if Wraps(image, file.inode, file.pos, length) then Value(outcome.n) else Data(buf[..outcome.n]);
      StoreFd(fd, Fd(true, file'));
    }

    method ReadDirectory(fd: nat, file: OpenFile) returns (r: Reply)
      requires Valid() && curPid != -1 && fd < 8
      modifies this`pcbs
      ensures Valid()
      ensures r == Data(if file.pos < |image.files| then NameOf(image.files[file.pos]) else [])
      ensures TermOf(running) == if file.pos >= |image.files| then old(TermOf(running))
                                 else Act(old(TermOf(running)), SetFile(fd, Some(file.(pos := file.pos + 1))))
      ensures forall t :: 0 <= t < TERM_NUM && t != running ==> TermOf(t) == old(TermOf(t))
    {
      hide Consistent, TermOf, Act, Str;
      var buf := new byte[FILENAME_MAX_CHAR + 1];
      var n, pos := DirRead(image, file.pos, buf);
      r := Data(buf[..n]);
      if pos != file.pos {
        StoreFd(fd, Fd(true, file.(pos := pos)));
      }
    }

    method OnRead(fd: int, nbytes: int32) returns (r: Reply)
      requires Valid()
      modifies this, pages
      ensures Valid() && Abs() == Terminals.Step(image, old(Abs()), Read(fd, nbytes))
      ensures r == Answer(image, old(Abs()), Read(fd, nbytes))
    {
      hide Consistent, TermOf, Abs, Act, ActAll, Terminals.Step, FileAt, MovesTo, FileReply, Word, NameOf, LineFrom;
      ghost var s := Abs();
      ActNone(s.terms[running]);
      if curPid == -1 {
        r := Quiet;
      } else {
        var file := CurrentFile(fd);
        if fd == 1 || file.None? {
          r := Value(-1);
        } else {
          FileInRange(s, fd);
          match file.value.ops {
            case Stdin | Stdout =>
              r := ReadKeyboard(nbytes);
              ActOne(s.terms[running], TakeLine);
            case FileOps =>
              r := ReadRegular(fd, file.value, Word(nbytes));
              ghost var next := MovesTo(image, file.value.inode, file.value.pos, Word(nbytes));
              if next.Some? {
                ActOne(s.terms[running], SetFile(fd, Some(file.value.(pos := next.value))));
              }
            case DirOps =>
              r := ReadDirectory(fd, file.value);
              if file.value.pos < |image.files| {
                ActOne(s.terms[running], SetFile(fd, Some(file.value.(pos := file.value.pos + 1))));
              }
            case RtcOps =>
              r := Value(0);
          }
        }
      }
      StepIs(image, s, Read(fd, nbytes), Abs());
    }

    // ------------------------------------------------------------ what validity means

    /** The marked pids are the disjoint union of three parent chains, each headed by HeadPid and ending at -1. */
    lemma ChainsPartitionTheTable()
      requires Valid()
      ensures LivePids(Table()) == Elements(chains[0]) + Elements(chains[1]) + Elements(chains[2])
      ensures Elements(chains[0]) !! Elements(chains[1]) !! Elements(chains[2])
      ensures forall t :: 0 <= t < TERM_NUM ==> Follows(pcbs, HeadPid(t), chains[t])
    {
      BitmapIsUnionOfChains(Table());
      forall t | 0 <= t < TERM_NUM
        ensures Follows(pcbs, HeadPid(t), chains[t])
      {
        ParentsFollowTheChain(Table(), t);
      }
    }

    /** The processor's stack pointer and page directory belong to the current process, and overlap no other's. */
    lemma CurrentProcessIsIsolated(q: nat)
      requires Valid() && curPid != -1 && q < MAX_NUM_PROCESS && bitmap[q]
      ensures 0 <= curPid < MAX_NUM_PROCESS && bitmap[curPid] && curPcb == curPid
      ensures tssEsp0 == StackTop(curPid) && pde32 == UserPage(curPid) && pcbs[q].tssEsp0 == StackTop(q)
      ensures UserPage(curPid) != KERNEL_PAGE
      ensures q != curPid ==>
                && (tssEsp0 < PcbAddress(q) || PcbAddress(q) + KB_8 <= PcbAddress(curPid))
                && pde32 != UserPage(q)
    {
      HeadIsLive(Table(), running);
      assert PidOk(Table(), q);
      MemoryIsDisjoint(curPid, q);
    }

    /** From the first tick on, the program's window and the kernel's video page are the same frame. */
    lemma WindowIsTheRunningScreen()
      requires Valid() && ticks > 0
      ensures userFrame == videoFrame == FrameOf(running)
      ensures userPresent <==> TermOf(running).vidmap
      ensures pages[userFrame - VIDEO_FRAME][..] == TermOf(running).console.page
    {
    }

    // ------------------------------------------------------------ runs

    /** One event. */
    method Step(e: Event) returns (r: Reply)
      requires Valid() && !Stuck(Abs(), e)
      modifies this, pages
      ensures Valid() && Abs() == Terminals.Step(image, old(Abs()), e)
      ensures r == Answer(image, old(Abs()), e)
    {
      hide Consistent, TermOf, Abs, Terminals.Step, Answer;
      match e {
        case Tick =>
          var wild;
          r, wild := OnTick();
        case Key(code) => r := OnKey(code);
        case Execute(prog) => r := OnExecute(prog);
        case Halt(status) => r := OnHalt(status);
        case Exception(message) => r := OnException(message);
        case Vidmap(ptr) => r := OnVidmap(ptr);
        case VideoStore(offset, value) => r := OnVideoStore(offset, value);
        case Open(name) => r := OnOpen(name);
        case Close(fd) => r := OnClose(fd);
        case Read(fd, nbytes) => r := OnRead(fd, nbytes);
        case Write(fd, text) => r := OnWrite(fd, text);
      }
    }

    /** Whether an event is a tick that has no slot left for the next terminal's shell. */
    method IsStuck(e: Event) returns (stuck: bool)
      requires Valid()
      ensures stuck == Stuck(Abs(), e)
    {
      HeadIsLive(Table(), Next(running));
      FullMeansSix(Table());
      assert HeadPid(Next(running)) == Head(chains[Next(running)]);
      return e.Tick? && termPid[Next(running)] == -1 && forall p :: 0 <= p < MAX_NUM_PROCESS ==> bitmap[p];
    }

    /** Any sequence of events, up to the first stuck tick: the kernel's globals are the three terminals. */
    method Run(es: seq<Event>) returns (replies: seq<Reply>)
      requires Valid()
      modifies this, pages
      ensures Valid() && Abs() == Terminals.Run(image, old(Abs()), es)
      ensures replies == Replies(image, old(Abs()), es)
    {
      hide Consistent, TermOf, Abs, Terminals.Step, Answer;
      replies := [];
      var i := 0;
      assert es[0..] == es;
      while i < |es|
        invariant 0 <= i <= |es| && Valid()
        invariant Terminals.Run(image, old(Abs()), es) == Terminals.Run(image, Abs(), es[i..])
        invariant Replies(image, old(Abs()), es) == replies + Replies(image, Abs(), es[i..])
      {
        var stuck := IsStuck(es[i]);
        if stuck {
          return;
        }
        ghost var s := Abs();
        assert es[i..][1..] == es[i + 1..];
        var r := Step(es[i]);
        assert Replies(image, s, es[i..]) == [r] + Replies(image, Abs(), es[i + 1..]);
        replies := replies + [r];
        i := i + 1;
      }
    }

    /**
     `terminal_init` and `paging_init`: no process, no line, every cursor at the top left.  Video memory and the
     PCB slots hold whatever they held at power-on.
     */
    constructor (img: Image, memory: seq<Pcb>, p0: array<byte>, p1: array<byte>, p2: array<byte>, p3: array<byte>)
      requires |memory| == MAX_NUM_PROCESS
      requires p0.Length == p1.Length == p2.Length == p3.Length == PAGE_SIZE
      requires p0 != p1 && p0 != p2 && p0 != p3 && p1 != p2 && p1 != p3 && p2 != p3
      ensures Valid() && Boot(Abs()) && image == img && pages == [p0, p1, p2, p3]
    {
      running, viewing, ticks := 0, 0, 0;
      termPid := [-1, -1, -1];
      termVidmap := [false, false, false];
      cursorX, cursorY, cursor := [0, 0, 0], [0, 0, 0], 0;
      mods := NO_MODS;
      var empty: seq<byte> := seq(KBD_BUF_SIZE, _ => NUL);
      kbdBufs := [empty, empty, empty];
      savedPos, ready := [0, 0, 0], [false, false, false];
      kbdBuf, bufPos := 0, 0;
      videoFrame, userFrame, userPresent := VIDEO_FRAME, VIDEO_FRAME, true;
      pages := [p0, p1, p2, p3];
      curPid, curPcb, calls := -1, -1, 0;
      bitmap := [false, false, false, false, false, false];
      pcbs := memory;
      tssEsp0, pde32 := MB_8, 32;
      chains := [[], [], []];
      ownerTerm, ownerIndex, creator := [0, 0, 0, 0, 0, 0], [0, 0, 0, 0, 0, 0], [0, 0, 0, 0, 0, 0];
      image := img;
    }
  }

  lemma FileInRange(s: Sys, fd: int)
    requires FileAt(s, fd).Some?
    ensures 0 <= fd < 8
  {
  }
}
