/**
 What the kernel promises: three independent terminals, each with its own console, line editor and
 call stack of processes, and a clock that gives the processor to each terminal in turn.

 `Step` and `Answer` define one event and its reply; `Target` names the one terminal an event acts
 on and `Effect` what it does there.  Modules TerminalRuns, LineRuns, FileRuns and WindowRuns say what
 holds over whole runs, and module KernelState proves that the kernel's shared globals implement this.
 */
module Terminals {
  import opened Bytes
  import opened Screen
  import opened FileSystem
  import opened Keyboard

  const TERM_NUM := 3
  const MAX_NUM_PROCESS := 6
  const KBD_BUF_SIZE := 128
  const USER_START := 0x8000000
  const USER_END := 0x8400000

  // ---------------------------------------------------------------- line editor

  datatype RawEditor = RawEditor(buffer: seq<byte>, pos: nat, ready: bool)

  /** A 128-byte line buffer; the last byte is kept for the newline. */
  type Editor = e: RawEditor | |e.buffer| == KBD_BUF_SIZE && e.pos < KBD_BUF_SIZE
    witness RawEditor(seq(KBD_BUF_SIZE, _ => 0), 0, false)

  /** The line typed so far. */
  function Pending(e: Editor): seq<byte> {
    e.buffer[..e.pos]
  }

  function Stored(line: seq<byte>, pos: nat, c: byte): seq<byte>
    requires pos < |line|
  {
    line[pos := c]
  }

  function TypeKey(e: Editor, c: byte): Editor {
    if c == NEWLINE then RawEditor(Stored(e.buffer, e.pos, NEWLINE), 0, true)
    else if e.pos <= KBD_BUF_SIZE - 2 then RawEditor(Stored(e.buffer, e.pos, c), e.pos + 1, e.ready)
    else e
  }

  function EraseKey(e: Editor): Editor {
    if e.pos > 0 then e.(pos := e.pos - 1) else e
  }

  /** What a read of at most `n` bytes copies: up to the first newline, never more than the buffer. */
  function LineFrom(buffer: seq<byte>, n: nat): seq<byte> {
    buffer[..Min(n, Min(FirstBreak(buffer) + 1, |buffer|))]
  }

  // ---------------------------------------------------------------- processes

  type FileTable = t: seq<Option<OpenFile>> | |t| == 8 witness seq(8, _ => None)

  /** `call` numbers the `execute` call that created the process. */
  datatype Proc = Proc(call: nat, vidmap: bool, fds: FileTable)

  const NO_INODE: uint32 := 0xFFFF_FFFF
  const FRESH_FILES: FileTable :=
    [Some(OpenFile(Stdin, NO_INODE, 0)), Some(OpenFile(Stdout, NO_INODE, 0)), None, None, None, None, None, None]

  /** A saved kernel stack position, named by what saved it. */
  datatype Frame = Garbage | SavedBySchedule(tick: nat) | SavedByExecute(call: nat)

  // ---------------------------------------------------------------- one terminal

  datatype RawTerm = RawTerm(console: Console, editor: Editor, stack: seq<Proc>, vidmap: bool)

  type Term = t: RawTerm | t.console.InScreen()
    witness RawTerm(Console(seq(PAGE_SIZE, _ => 0), 0, 0), RawEditor(seq(KBD_BUF_SIZE, _ => 0), 0, false), [], false)

  /** What can happen to one terminal. */
  datatype Action =
    | Print(text: seq<byte>)
    | Echo(c: byte)
    | Rubout
    | Wipe
    | Poke(offset: nat, value: byte)
    | TakeLine
    | MapVideo
    | Push(call: nat)
    | Pop
    | Replace(call: nat)
    | SetFile(fd: nat, file: Option<OpenFile>)

  function Top(stack: seq<Proc>): Proc
    requires stack != []
  {
    stack[|stack| - 1]
  }

  function WithTop(stack: seq<Proc>, p: Proc): seq<Proc>
    requires stack != []
  {
    stack[..|stack| - 1] + [p]
  }

  function Act(t: Term, a: Action): Term {
    match a
    case Print(text) => t.(console := PutAll(t.console, text))
    case Echo(c) => t.(console := Putc(t.console, c), editor := TypeKey(t.editor, c))
    case Rubout => t.(console := Putc(t.console, BACKSPACE), editor := EraseKey(t.editor))
    case Wipe => t.(console := Console(Cleared(t.console.page), 0, START_HEIGHT))
    case Poke(offset, value) =>
      if offset < PAGE_SIZE then t.(console := t.console.(page := t.console.page[offset := value])) else t
    case TakeLine => t.(editor := t.editor.(ready := false))
    case MapVideo =>
      if t.stack == [] then t else t.(stack := WithTop(t.stack, Top(t.stack).(vidmap := true)), vidmap := true)
    case Push(call) => t.(stack := t.stack + [Proc(call, false, FRESH_FILES)])
    case Pop =>
      if t.stack == [] then t
      else t.(stack := t.stack[..|t.stack| - 1], vidmap := t.vidmap && !Top(t.stack).vidmap)
    case Replace(call) =>
      if t.stack == [] then t else t.(stack := WithTop(t.stack, Proc(call, false, FRESH_FILES)))
    case SetFile(fd, file) =>
      if t.stack == [] || fd >= 8 then t
      else t.(stack := WithTop(t.stack, Top(t.stack).(fds := Top(t.stack).fds[fd := file])))
  }

  function ActAll(t: Term, actions: seq<Action>): Term
    decreases actions
  {
    if actions == [] then t else ActAll(Act(t, actions[0]), actions[1..])
  }

  // ---------------------------------------------------------------- the system

  /** `ticks` counts clock interrupts, `calls` numbers `execute` calls. */
  datatype RawSys = RawSys(terms: seq<Term>, running: nat, viewing: nat, mods: Mods, ticks: nat, calls: nat)

  type Sys = s: RawSys | |s.terms| == TERM_NUM && s.running < TERM_NUM && s.viewing < TERM_NUM
    ghost witness var t: Term :| true; RawSys([t, t, t], 0, 0, NO_MODS, 0, 0)

  function Next(t: nat): nat {
    (t + 1) % TERM_NUM
  }

  /** How many processes are alive. */
  function Live(s: Sys): nat {
    |s.terms[0].stack| + |s.terms[1].stack| + |s.terms[2].stack|
  }

  /** The outcome of looking a program up: no such file, not an ELF file, or ready to load. */
  datatype Program = Missing | NotElf | Loadable

  datatype Event =
    | Tick
    | Key(code: byte)
    | Execute(prog: Program)
    | Halt(status: byte)
    | Exception(message: seq<byte>)
    | Vidmap(ptr: int)
    | VideoStore(offset: nat, value: byte)
    | Open(name: seq<byte>)
    | Close(fd: int)
    | Read(fd: int, nbytes: int32)
    | Write(fd: int, text: seq<byte>)

  datatype Reply =
    | Quiet
    | Value(value: int)
    | Data(bytes: seq<byte>)
    | Blocked
    | Faulted
    | Started(call: nat)
    | Resumed(frame: Frame, value: int)

  const BANNER_HEAD := Ascii("========>>> TERMINAL ID: ")
  const BANNER_TAIL := Ascii("                        \n")

  function Banner(t: nat): seq<byte> {
    BANNER_HEAD + [(48 + t) % 256] + BANNER_TAIL
  }

  const NOT_FOUND := Ascii("read_by_name fails\n")
  const NOT_ELF := Ascii("Checking ELF fails\n")
  const TABLE_FULL := Ascii("Reach maximal number of programs!\n")
  const BAD_VIDMAP := Ascii("Invalid requirement of vidmap!\n")

  /** A clock tick that would have to launch a shell although all six slots are taken. */
  predicate Stuck(s: Sys, e: Event) {
    e.Tick? && s.terms[Next(s.running)].stack == [] && Live(s) >= MAX_NUM_PROCESS
  }

  /** System calls and exceptions need a process; before the first tick there is none. */
  predicate Idle(s: Sys, e: Event) {
    !e.Tick? && !e.Key? && s.terms[s.running].stack == []
  }

  function StatusValue(status: byte): nat {
    if status == 255 then 256 else status
  }

  function OpsFor(kind: FileType): Ops {
    match kind case UserRtc => RtcOps case Directory => DirOps case Regular => FileOps
  }

  /** The lowest free descriptor from `fd` on, or 8. */
  function LowestFree(fds: FileTable, fd: nat): (r: nat)
    requires fd <= 8
    ensures fd <= r <= 8 && (r < 8 ==> fds[r].None?) && forall i :: fd <= i < r ==> fds[i].Some?
    decreases 8 - fd
  {
    if fd == 8 || fds[fd].None? then fd else LowestFree(fds, fd + 1)
  }

  function FileAt(s: Sys, fd: int): Option<OpenFile> {
    var stack := s.terms[s.running].stack;
    if stack == [] || fd < 0 || fd >= 8 then None else Top(stack).fds[fd]
  }

  /** What a key does to the viewed terminal. */
  function StrokeActions(stroke: Stroke, e: Editor): seq<Action> {
    match stroke
    case Typed(c) => [Echo(c)]
    case EraseLast => if e.pos > 0 then [Rubout] else []
    case ClearScreen => [Wipe]
    case _ => []
  }

  /** The actions of an event on the terminal it addresses. */
  function Effect(img: Image, s: Sys, e: Event): seq<Action> {
    if Idle(s, e) then []
    else
      var me := s.terms[s.running];
      match e
      case Tick =>
        var t := Next(s.running);
        if s.terms[t].stack == [] then [Print(Banner(t)), Push(s.calls)] else []
      case Key(code) => StrokeActions(Decode(s.mods, code).1, s.terms[s.viewing].editor)
      case Execute(prog) =>
        (match prog
         case Missing => [Print(NOT_FOUND)]
         case NotElf => [Print(NOT_ELF)]
         case Loadable => if Live(s) >= MAX_NUM_PROCESS then [Print(TABLE_FULL)] else [Push(s.calls)])
      case Halt(_) => [if |me.stack| == 1 then Replace(s.calls) else Pop]
      case Exception(message) => [Print(message), if |me.stack| == 1 then Replace(s.calls) else Pop]
      case Vidmap(ptr) =>
        if ptr == 0 then []
        else if ptr < USER_START || ptr > USER_END - 4 then [Print(BAD_VIDMAP)]
        else [MapVideo]
      case VideoStore(offset, value) => if me.vidmap && offset < PAGE_SIZE then [Poke(offset, value)] else []
      case Open(name) =>
        var found := FindFirst(img.files, Str(name + [NUL]));
        var fd := LowestFree(Top(me.stack).fds, 2);
        if found.None? || fd == 8 then []
        else
          var entry := img.files[found.value];
          [SetFile(fd, Some(OpenFile(OpsFor(entry.kind), entry.inode, 0)))]
      case Close(fd) => if 2 <= fd <= 7 && FileAt(s, fd).Some? then [SetFile(fd, None)] else []
      case Read(fd, nbytes) =>
        if fd == 1 || FileAt(s, fd).None? then []
        else
          var file := FileAt(s, fd).value;
          (match file.ops
           case Stdin => if nbytes <= 0 || !me.editor.ready then [] else [TakeLine]
           case Stdout => if nbytes <= 0 || !me.editor.ready then [] else [TakeLine]
           case FileOps =>
             var next := MovesTo(img, file.inode, file.pos, Word(nbytes));
             if next.None? then [] else [SetFile(fd, Some(file.(pos := next.value)))]
           case DirOps => if file.pos < |img.files| then [SetFile(fd, Some(file.(pos := file.pos + 1)))] else []
           case RtcOps => [])
      case Write(fd, text) =>
        if fd == 0 || FileAt(s, fd).None? then []
        else if FileAt(s, fd).value.ops in {Stdin, Stdout} && text != [] then [Print(text)]
        else []
  }

  /** Whether an RTC write names an accepted frequency: a power of two from 2 to 1024. */
  predicate RtcAccepts(text: seq<byte>) {
    && |text| == 4 && text[2] == text[3] == 0
    && var low: int, high: int := text[0], text[1];
       low + 256 * high in {2, 4, 8, 16, 32, 64, 128, 256, 512, 1024}
  }

  /** What the caller of an event gets back. */
  function Answer(img: Image, s: Sys, e: Event): Reply {
    if Idle(s, e) then Quiet
    else
      var me := s.terms[s.running];
      match e
      case Tick =>
        if s.terms[Next(s.running)].stack == [] then Started(s.calls)
        else Resumed(if s.ticks == 0 then Garbage else SavedBySchedule(s.ticks - 1), 0)
      case Key(_) => Quiet
      case Execute(prog) =>
        if prog != Loadable then Value(-1)
        else if Live(s) >= MAX_NUM_PROCESS then Value(0)
        else Started(s.calls)
      case Halt(status) =>
        if |me.stack| == 1 then Started(s.calls)
        else Resumed(SavedByExecute(Top(me.stack).call), StatusValue(status))
      case Exception(_) =>
        if |me.stack| == 1 then Started(s.calls)
        else Resumed(SavedByExecute(Top(me.stack).call), StatusValue(255))
      case Vidmap(ptr) => Value(if ptr == 0 || ptr < USER_START || ptr > USER_END - 4 then -1 else 0)
      case VideoStore(offset, _) => if me.vidmap && offset < PAGE_SIZE then Quiet else Faulted
      case Open(name) =>
        var fd := LowestFree(Top(me.stack).fds, 2);
        Value(if FindFirst(img.files, Str(name + [NUL])).None? || fd == 8 then -1 else fd)
      case Close(fd) => Value(if 2 <= fd <= 7 && FileAt(s, fd).Some? then 0 else -1)
      case Read(fd, nbytes) =>
        if fd == 1 || FileAt(s, fd).None? then Value(-1)
        else
          var file := FileAt(s, fd).value;
          (match file.ops
           case Stdin => ReadLine(s, nbytes)
           case Stdout => ReadLine(s, nbytes)
           case FileOps => FileReply(img, file, Word(nbytes))
           case DirOps => Data(if file.pos < |img.files| then NameOf(img.files[file.pos]) else [])
           case RtcOps => Value(0))
      case Write(fd, text) =>
        if fd == 0 || FileAt(s, fd).None? then Value(-1)
        else
          (match FileAt(s, fd).value.ops
           case Stdin => Value(if text == [] then -1 else |text|)
           case Stdout => Value(if text == [] then -1 else |text|)
           case RtcOps => Value(if RtcAccepts(text) then 0 else -1)
           case _ => Value(-1))
  }

  /** An `int32_t` passed where a `uint32_t` is expected. */
  function Word(n: int32): uint32 {
    if n < 0 then n + UINT32_SIZE else n
  }

  /** Reading a regular file: its bytes, or what comes back when the end position wraps around. */
  function FileReply(img: Image, file: OpenFile, length: uint32): (r: Reply)
    ensures r.Data? || r.Value? || r.Faulted?
  {
    var outcome := ReadOutcome(img, file.inode, file.pos, length);
    if outcome.Fault? then Faulted
    else if Wraps(img, file.inode, file.pos, length) then Value(outcome.n)
    else
      var got := BytesRead(img, file.inode, file.pos, length);
      if got.None? then Value(-1) else Data(got.value)
  }

  /** Reading the keyboard: it waits for the running terminal, and then copies from the viewed one's buffer. */
  function ReadLine(s: Sys, nbytes: int): Reply {
    if nbytes <= 0 then Value(-1)
    else if !s.terms[s.running].editor.ready then Blocked
    else Data(LineFrom(s.terms[s.viewing].editor.buffer, nbytes))
  }

  /** The one terminal an event acts on. */
  function Target(s: Sys, e: Event): (t: nat)
    ensures t < TERM_NUM
  {
    if e.Tick? then Next(s.running) else if e.Key? then s.viewing else s.running
  }

  function Step(img: Image, s: Sys, e: Event): Sys {
    var t := Target(s, e);
    var key := if e.Key? then Decode(s.mods, e.code) else (s.mods, Nothing);
    RawSys(
      s.terms[t := ActAll(s.terms[t], Effect(img, s, e))],
      if e.Tick? then t else s.running,
      if key.1.Switch? then key.1.tid else s.viewing,
      key.0,
      if e.Tick? then s.ticks + 1 else s.ticks,
      if Answer(img, s, e).Started? then s.calls + 1 else s.calls)
  }

  /** How to recognise the result of a step. */
  lemma StepIs(img: Image, s: Sys, e: Event, s': Sys)
    requires var t := Target(s, e);
             && s'.terms[t] == ActAll(s.terms[t], Effect(img, s, e))
             && forall u :: 0 <= u < TERM_NUM && u != t ==> s'.terms[u] == s.terms[u]
    requires s'.running == (if e.Tick? then Next(s.running) else s.running)
    requires s'.ticks == (if e.Tick? then s.ticks + 1 else s.ticks)
    requires s'.calls == (if Answer(img, s, e).Started? then s.calls + 1 else s.calls)
    requires e.Key? ==>
               var (mods, stroke) := Decode(s.mods, e.code);
               s'.mods == mods && s'.viewing == if stroke.Switch? then stroke.tid else s.viewing
    requires !e.Key? ==> s'.mods == s.mods && s'.viewing == s.viewing
    ensures s' == Step(img, s, e)
  {
    hide ActAll, Effect, Answer;
    assert s'.terms == Step(img, s, e).terms;
  }

  lemma TickEffect(img: Image, s: Sys)
    ensures var t := Next(s.running);
            if s.terms[t].stack == [] then
              && Effect(img, s, Tick) == [Print(Banner(t)), Push(s.calls)]
              && Answer(img, s, Tick) == Started(s.calls)
            else
              && Effect(img, s, Tick) == []
              && Answer(img, s, Tick) == Resumed(if s.ticks == 0 then Garbage else SavedBySchedule(s.ticks - 1), 0)
  {
  }

  lemma KeyEffect(img: Image, s: Sys, code: byte)
    ensures Effect(img, s, Key(code)) == StrokeActions(Decode(s.mods, code).1, s.terms[s.viewing].editor)
    ensures Answer(img, s, Key(code)) == Quiet
  {
  }

  lemma ActNone(t: Term)
    ensures ActAll(t, []) == t
  {
  }

  lemma ActOne(t: Term, a: Action)
    ensures ActAll(t, [a]) == Act(t, a)
  {
    hide Act;
    assert [a][1..] == [];
    assert ActAll(Act(t, a), []) == Act(t, a);
  }

  lemma ActTwo(t: Term, a: Action, b: Action)
    ensures ActAll(t, [a, b]) == Act(Act(t, a), b)
  {
    hide Act;
    assert [a, b][1..] == [b];
    ActOne(Act(t, a), b);
  }

  /** A run; a stuck tick ends it. */
  function Run(img: Image, s: Sys, es: seq<Event>): Sys
    decreases es
  {
    if es == [] || Stuck(s, es[0]) then s else Run(img, Step(img, s, es[0]), es[1..])
  }

  /** The replies of a run. */
  function Replies(img: Image, s: Sys, es: seq<Event>): (r: seq<Reply>)
    ensures |r| <= |es|
    decreases es
  {
    if es == [] || Stuck(s, es[0]) then []
    else [Answer(img, s, es[0])] + Replies(img, Step(img, s, es[0]), es[1..])
  }

  /** Power-on: no process, no key held, empty editors. */
  predicate Boot(s: Sys) {
    && s.running == 0 && s.viewing == 0 && s.ticks == 0 && s.calls == 0 && s.mods == NO_MODS
    && forall t :: 0 <= t < TERM_NUM ==>
         s.terms[t].stack == [] && !s.terms[t].vidmap && s.terms[t].editor.pos == 0 && !s.terms[t].editor.ready
  }
}
