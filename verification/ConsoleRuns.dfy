/**
 What is on the screen after system calls and keys: written text, typed characters, messages and stores through the
 video window, each stated in terms of the tape of module Screen or of single cells and bytes.
 */
module ConsoleRuns {
  import opened Bytes
  import opened Screen
  import opened FileSystem
  import opened Keyboard
  import opened Terminals
  import opened TerminalRuns
  import opened LineRuns

  /** Two systems that differ in nothing but the console of terminal t. */
  ghost predicate OnlyConsole(s: Sys, s': Sys, t: nat) {
    && s'.running == s.running && s'.viewing == s.viewing && s'.mods == s.mods
    && s'.ticks == s.ticks && s'.calls == s.calls && t < TERM_NUM
    && (forall u :: 0 <= u < TERM_NUM && u != t ==> s'.terms[u] == s.terms[u])
    && s'.terms[t].editor == s.terms[t].editor && SameStack(s.terms[t], s'.terms[t])
  }

  // ---------------------------------------------------------------- writing

  /** An event of the running terminal whose one effect is to print a text. */
  lemma PrintStep(img: Image, s: Sys, e: Event, text: seq<byte>)
    requires !e.Tick? && !e.Key? && Effect(img, s, e) == [Print(text)] && !Answer(img, s, e).Started?
    ensures OnlyConsole(s, Step(img, s, e), s.running)
    ensures Step(img, s, e).terms[s.running].console == PutAll(s.terms[s.running].console, text)
  {
    hide Effect, Answer, ActAll, PutAll;
    ActOne(s.terms[s.running], Print(text));
  }

  lemma WriteEffect(img: Image, s: Sys, text: seq<byte>)
    requires s.terms[s.running].stack != [] && StdOpen(s.terms[s.running].stack)
    ensures Effect(img, s, Write(1, text)) == (if text == [] then [] else [Print(text)])
    ensures Answer(img, s, Write(1, text)) == Value(if text == [] then -1 else |text|)
  {
    hide RtcAccepts;
    var stack := s.terms[s.running].stack;
    assert stack[|stack| - 1].fds[1] == FRESH_FILES[1];
  }

  /**
   Writing to descriptor 1: every byte of the text appears, in order, where the cursor of the running terminal is,
   the reply is their number, and nothing else in the system changes.
   */
  lemma WriteShowsText(img: Image, s: Sys, text: seq<byte>, tape: Tape)
    requires s.terms[s.running].stack != [] && StdOpen(s.terms[s.running].stack)
    requires text != [] && BACKSPACE !in text && Shows(s.terms[s.running].console, tape)
    ensures Answer(img, s, Write(1, text)) == Value(|text|)
    ensures OnlyConsole(s, Step(img, s, Write(1, text)), s.running)
    ensures Shows(Step(img, s, Write(1, text)).terms[s.running].console, TapePutAll(tape, text))
  {
    hide Step, Effect, Answer, PutAll, TapePutAll, Shows;
    WriteEffect(img, s, text);
    PrintStep(img, s, Write(1, text), text);
    WindowTheorem(s.terms[s.running].console, tape, text);
  }

  /** The same after any run from power-on in which the running terminal has a process. */
  lemma WriteShowsTextFromBoot(img: Image, boot: Sys, es: seq<Event>, text: seq<byte>, tape: Tape)
    requires Boot(boot) && text != [] && BACKSPACE !in text
    requires var s := Run(img, boot, es); s.terms[s.running].stack != [] && Shows(s.terms[s.running].console, tape)
    ensures var s := Run(img, boot, es);
            var next := Step(img, s, Write(1, text));
            && Answer(img, s, Write(1, text)) == Value(|text|) && OnlyConsole(s, next, s.running)
            && Shows(next.terms[s.running].console, TapePutAll(tape, text))
  {
    hide Step, Run, Answer, OnlyConsole, Shows, TapePutAll, StdOpen;
    BootIsStdOpen(boot);
    StdOpenForever(img, boot, es);
    WriteShowsText(img, Run(img, boot, es), text, tape);
  }

  function Writes(texts: seq<seq<byte>>): (es: seq<Event>)
    ensures |es| == |texts| && forall k :: 0 <= k < |texts| ==> es[k] == Write(1, texts[k])
  {
    seq(|texts|, k requires 0 <= k < |texts| => Write(1, texts[k]))
  }

  function Concat(texts: seq<seq<byte>>): seq<byte> {
    if texts == [] then [] else texts[0] + Concat(texts[1..])
  }

  /** A sequence of writes puts the concatenation of the texts on the tape. */
  lemma {:induction false} WritesShowTexts(img: Image, s: Sys, texts: seq<seq<byte>>, tape: Tape)
    requires s.terms[s.running].stack != [] && StdOpen(s.terms[s.running].stack)
    requires Shows(s.terms[s.running].console, tape)
    requires forall k :: 0 <= k < |texts| ==> texts[k] != [] && BACKSPACE !in texts[k]
    ensures var end := Run(img, s, Writes(texts));
            && OnlyConsole(s, end, s.running)
            && Shows(end.terms[s.running].console, TapePutAll(tape, Concat(texts)))
    ensures |Replies(img, s, Writes(texts))| == |texts|
    ensures forall k :: 0 <= k < |texts| ==> Replies(img, s, Writes(texts))[k] == Value(|texts[k]|)
    decreases texts
  {
    hide Step, Answer, Shows, TapePutAll;
    if texts == [] {
      assert TapePutAll(tape, []) == tape by {
        NothingPut(tape);
      }
    } else {
      var es := Writes(texts);
      assert es[0] == Write(1, texts[0]) && es[1..] == Writes(texts[1..]);
      WriteShowsText(img, s, texts[0], tape);
      TapePutConcat(tape, texts[0], Concat(texts[1..]));
      WritesShowTexts(img, Step(img, s, es[0]), texts[1..], TapePutAll(tape, texts[0]));
    }
  }

  lemma NothingPut(tape: Tape)
    ensures TapePutAll(tape, []) == tape
  {
  }

  /** Nothing is written by an empty text, nor through descriptor 0, a free descriptor, a file or the directory. */
  lemma OtherWritesFail(img: Image, s: Sys, fd: int, text: seq<byte>)
    requires s.terms[s.running].stack != [] && StdOpen(s.terms[s.running].stack)
    requires || fd == 0 || FileAt(s, fd).None? || FileAt(s, fd).value.ops in {FileOps, DirOps}
             || (fd == 1 && text == [])
    ensures Answer(img, s, Write(fd, text)) == Value(-1) && Step(img, s, Write(fd, text)) == s
  {
    hide Step, RtcAccepts;
    var stack := s.terms[s.running].stack;
    assert stack[|stack| - 1].fds[1] == FRESH_FILES[1];
    NothingStep(img, s, Write(fd, text));
  }

  // ---------------------------------------------------------------- messages

  /** What a failing `execute` says and returns; no process is touched. */
  lemma ExecuteFailsAloud(img: Image, s: Sys, prog: Program)
    requires s.terms[s.running].stack != [] && (prog != Loadable || Live(s) >= 6)
    ensures OnlyConsole(s, Step(img, s, Execute(prog)), s.running)
    ensures var message := match prog
                           case Missing => Ascii("read_by_name fails\n")
                           case NotElf => Ascii("Checking ELF fails\n")
                           case Loadable => Ascii("Reach maximal number of programs!\n");
            Step(img, s, Execute(prog)).terms[s.running].console == PutAll(s.terms[s.running].console, message)
    ensures Answer(img, s, Execute(prog)) == Value(if prog == Loadable then 0 else -1)
  {
    hide Step, Ascii, PutAll;
    var fx := Effect(img, s, Execute(prog));
    PrintStep(img, s, Execute(prog), fx[0].text);
  }

  /** An exception says its message on the running console before the process ends. */
  lemma ExceptionSpeaks(img: Image, s: Sys, message: seq<byte>)
    requires s.terms[s.running].stack != []
    ensures Step(img, s, Exception(message)).terms[s.running].console == PutAll(s.terms[s.running].console, message)
  {
    hide ActAll, PutAll, Answer;
    var me := s.terms[s.running];
    StepTerm(img, s, Exception(message), s.running);
    ActTwo(me, Print(message), if |me.stack| == 1 then Replace(s.calls) else Pop);
  }

  /** A terminal's first shell comes with a banner that names the terminal. */
  lemma BannerNamesTheTerminal(img: Image, s: Sys)
    requires s.terms[Next(s.running)].stack == []
    ensures var t := Next(s.running);
            && Step(img, s, Tick).terms[t].console ==
               PutAll(s.terms[t].console, Ascii("========>>> TERMINAL ID: ") + [48 + t] + BANNER_TAIL)
            && BANNER_TAIL == Ascii("                        \n")
  {
    hide ActAll, PutAll, Answer, Ascii;
    var t := Next(s.running);
    StepTerm(img, s, Tick, t);
    TickEffect(img, s);
    ActTwo(s.terms[t], Print(Banner(t)), Push(s.calls));
  }

  // ---------------------------------------------------------------- keys

  /** A typed character appears where the viewed terminal's cursor is, and on no other screen. */
  lemma TypedKeyIsShown(img: Image, s: Sys, code: byte, tape: Tape)
    requires var stroke := Decode(s.mods, code).1; stroke.Typed? && stroke.c != BACKSPACE
    requires Shows(s.terms[s.viewing].console, tape)
    ensures var next := Step(img, s, Key(code));
            && Shows(next.terms[s.viewing].console, TapePut(tape, Decode(s.mods, code).1.c))
            && forall u :: 0 <= u < TERM_NUM && u != s.viewing ==> next.terms[u] == s.terms[u]
  {
    hide Decode, ActAll, Putc, Shows, Answer;
    var t, c := s.viewing, Decode(s.mods, code).1.c;
    KeyEffect(img, s, code);
    StepTerm(img, s, Key(code), t);
    ActOne(s.terms[t], Echo(c));
    ShowsAfterPut(s.terms[t].console, tape, c);
  }

  const ERASE: byte := 0x0E

  lemma EraseKeyErases(m: Mods)
    ensures Decode(m, ERASE) == (m, EraseLast)
  {
  }

  /**
   A character typed and then erased: the pending line is what it was, and the cursor is back where it was, on a
   blank cell, exactly when typing did not scroll the screen.
   */
  lemma EraseUndoesTyping(img: Image, s: Sys, code: byte)
    requires var stroke := Decode(s.mods, code).1; stroke.Typed? && !IsBreak(stroke.c) && stroke.c != BACKSPACE
    requires |Pending(s.terms[s.viewing].editor)| < 127
    ensures var t, was := s.viewing, s.terms[s.viewing];
            var now := Step(img, Step(img, s, Key(code)), Key(ERASE)).terms[t];
            && Pending(now.editor) == Pending(was.editor)
            && (now.console.x == was.console.x && now.console.y == was.console.y <==>
                !(was.console.x == 79 && was.console.y == 24))
            && (!(was.console.x == 79 && was.console.y == 24) ==>
                  CellAt(now.console.page, 80 * was.console.y + was.console.x) == Cell(32, 7))
  {
    var t, c := s.viewing, Decode(s.mods, code).1.c;
    hide Decode, ActAll, Putc, Answer, Step;
    var mid := Step(img, s, Key(code));
    KeyEffect(img, s, code);
    StepTerm(img, s, Key(code), t);
    ActOne(s.terms[t], Echo(c));
    KeyStep(img, s, code);
    EraseKeyErases(mid.mods);
    KeyEffect(img, mid, ERASE);
    StepTerm(img, mid, Key(ERASE), t);
    ActOne(mid.terms[t], Rubout);
    BackspaceUndoesTyping(s.terms[t].console, c);
  }

  /** Ctrl-L: the viewed screen is blank but for its bar, and its cursor is at the start of row 1. */
  lemma ClearKeyClears(img: Image, s: Sys, code: byte)
    requires Decode(s.mods, code).1.ClearScreen?
    ensures var t, next := s.viewing, Step(img, s, Key(code));
            && next.terms[t].console.x == 0 && next.terms[t].console.y == 1
            && (forall i: nat :: i < 2000 ==>
                  CellAt(next.terms[t].console.page, i) ==
                  if i < 30 then CellAt(s.terms[t].console.page, i) else Cell(32, 7))
            && next.terms[t].editor == s.terms[t].editor && next.terms[t].stack == s.terms[t].stack
            && forall u :: 0 <= u < TERM_NUM && u != t ==> next.terms[u] == s.terms[u]
  {
    hide Decode, ActAll, Cleared, CellAt, Answer;
    var t := s.viewing;
    KeyEffect(img, s, code);
    StepTerm(img, s, Key(code), t);
    ActOne(s.terms[t], Wipe);
    forall i: nat | i < 2000
      ensures CellAt(Cleared(s.terms[t].console.page), i) ==
              if i < 30 then CellAt(s.terms[t].console.page, i) else Cell(32, 7)
    {
      ClearedCells(s.terms[t].console.page, i);
    }
  }

  // ---------------------------------------------------------------- the window

  /**
   A store through the window: exactly the byte at the offset takes the value, and nothing else in the system changes;
   without a window, or past its page, it faults and changes nothing.
   */
  lemma StoreChangesOneByte(img: Image, s: Sys, offset: nat, value: byte)
    requires s.terms[s.running].stack != []
    ensures var was, next := s.terms[s.running], Step(img, s, VideoStore(offset, value));
            if was.vidmap && offset < 4096 then
              && Answer(img, s, VideoStore(offset, value)) == Quiet && OnlyConsole(s, next, s.running)
              && next.terms[s.running].console.x == was.console.x && next.terms[s.running].console.y == was.console.y
              && next.terms[s.running].console.page[offset] == value
              && forall k :: 0 <= k < 4096 && k != offset ==>
                   next.terms[s.running].console.page[k] == was.console.page[k]
            else Answer(img, s, VideoStore(offset, value)) == Faulted && next == s
  {
    var me := s.terms[s.running];
    if me.vidmap && offset < PAGE_SIZE {
      ActOne(me, Poke(offset, value));
    } else {
      NothingStep(img, s, VideoStore(offset, value));
    }
    hide ActAll;
  }

  // ---------------------------------------------------------------- whole runs

  /** The text that an action puts on its terminal. */
  function TextOf(a: Action): seq<byte> {
    match a case Print(text) => text case Echo(c) => [c] case _ => []
  }

  function TextOfAll(actions: seq<Action>): seq<byte> {
    if actions == [] then [] else TextOf(actions[0]) + TextOfAll(actions[1..])
  }

  /** The action adds text without backspaces to the screen, or leaves the screen alone. */
  predicate OnlyAdds(a: Action) {
    BACKSPACE !in TextOf(a) && !a.Rubout? && !a.Wipe? && !a.Poke?
  }

  lemma ActShows(t: Term, a: Action, tape: Tape)
    requires OnlyAdds(a) && Shows(t.console, tape)
    ensures Shows(Act(t, a).console, TapePutAll(tape, TextOf(a)))
  {
    hide Shows, Putc;
    if a.Echo? {
      assert [a.c][1..] == [];
      ShowsAfterPut(t.console, tape, a.c);
    } else {
      WindowTheorem(t.console, tape, TextOf(a));
    }
  }

  lemma {:induction false} ActAllShows(t: Term, actions: seq<Action>, tape: Tape)
    requires Shows(t.console, tape) && forall i :: 0 <= i < |actions| ==> OnlyAdds(actions[i])
    ensures Shows(ActAll(t, actions).console, TapePutAll(tape, TextOfAll(actions)))
    decreases actions
  {
    hide Shows, Act, TapePutAll;
    if actions == [] {
      NothingPut(tape);
    } else {
      ActShows(t, actions[0], tape);
      TapePutConcat(tape, TextOf(actions[0]), TextOfAll(actions[1..]));
      ActAllShows(Act(t, actions[0]), actions[1..], TapePutAll(tape, TextOf(actions[0])));
    }
  }

  /**
   Over any run in which nothing is erased, cleared or stored on its screen: a terminal shows its tape with all that
   was printed and typed on it, in order, whatever the other terminals printed in between.
   */
  lemma ScreenShowsAllItsText(img: Image, s: Sys, es: seq<Event>, t: nat, tape: Tape)
    requires t < TERM_NUM && Shows(s.terms[t].console, tape)
    requires forall i :: 0 <= i < |Project(Trace(img, s, es), t)| ==> OnlyAdds(Project(Trace(img, s, es), t)[i])
    ensures Shows(Run(img, s, es).terms[t].console, TapePutAll(tape, TextOfAll(Project(Trace(img, s, es), t))))
  {
    hide *;
    TerminalsAreIndependent(img, s, es, t);
    ActAllShows(s.terms[t], Project(Trace(img, s, es), t), tape);
  }
}
