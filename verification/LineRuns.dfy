/** Typed lines over whole runs: what is pending, and who reads it. */
module LineRuns {
  import opened Bytes
  import opened Screen
  import opened FileSystem
  import opened Keyboard
  import opened Terminals
  import opened TerminalRuns

  /** A line editor without buffer, position or flags: the pending line under one action. */
  function Edited(line: seq<byte>, a: Action): seq<byte> {
    match a
    case Echo(c) =>
      if c == NEWLINE then [] else if |line| < 127 then line + [c] else line
    case Rubout => if line == [] then [] else line[..|line| - 1]
    case _ => line
  }

  function EditedAll(line: seq<byte>, actions: seq<Action>): seq<byte>
    decreases actions
  {
    if actions == [] then line else EditedAll(Edited(line, actions[0]), actions[1..])
  }

  lemma ActEdits(t: Term, a: Action)
    ensures Pending(Act(t, a).editor) == Edited(Pending(t.editor), a)
  {
    hide Putc, PutAll;
  }

  lemma {:induction false} ActAllEdits(t: Term, actions: seq<Action>)
    ensures Pending(ActAll(t, actions).editor) == EditedAll(Pending(t.editor), actions)
    decreases actions
  {
    hide Act;
    if actions != [] {
      ActEdits(t, actions[0]);
      ActAllEdits(Act(t, actions[0]), actions[1..]);
    }
  }

  /**
   The one global keyboard buffer position behaves as three line editors: after any run, with any view
   switches, a terminal's pending line is the fold of the keys pressed while it was viewed.
   */
  lemma PendingLineIsFold(img: Image, s: Sys, es: seq<Event>, t: nat)
    requires t < TERM_NUM
    ensures Pending(Run(img, s, es).terms[t].editor) ==
            EditedAll(Pending(s.terms[t].editor), Project(Trace(img, s, es), t))
  {
    TerminalsAreIndependent(img, s, es, t);
    hide *;
    ActAllEdits(s.terms[t], Project(Trace(img, s, es), t));
  }

  /** Keys reach only the terminal that is viewed when they are pressed. */
  lemma KeysGoToTheViewedTerminal(img: Image, s: Sys, e: Event, t: nat)
    requires t < TERM_NUM && Pending(Step(img, s, e).terms[t].editor) != Pending(s.terms[t].editor)
    ensures e.Key? && t == s.viewing && (Decode(s.mods, e.code).1.Typed? || Decode(s.mods, e.code).1.EraseLast?)
  {
    var fx := if t == Target(s, e) then Effect(img, s, e) else [];
    StepTerm(img, s, e, t);
    ActAllEdits(s.terms[t], fx);
    hide Step, ActAll, Decode, EditedAll, MovesTo, FileReply, FindFirst, LowestFree;
    if forall i :: 0 <= i < |fx| ==> !fx[i].Echo? && !fx[i].Rubout? {
      NoKeysNoEdits(Pending(s.terms[t].editor), fx);
    }
  }

  lemma {:induction false} NoKeysNoEdits(line: seq<byte>, actions: seq<Action>)
    requires forall i :: 0 <= i < |actions| ==> !actions[i].Echo? && !actions[i].Rubout?
    ensures EditedAll(line, actions) == line
    decreases actions
  {
    if actions != [] {
      NoKeysNoEdits(Edited(line, actions[0]), actions[1..]);
    }
  }

  lemma {:induction false} PendingHasNoNewline(line: seq<byte>, actions: seq<Action>)
    requires NEWLINE !in line
    ensures NEWLINE !in EditedAll(line, actions)
    decreases actions
  {
    if actions != [] {
      PendingHasNoNewline(Edited(line, actions[0]), actions[1..]);
    }
  }

  /** After Enter the buffer yields the pending line with its newline, cut to the size asked for. */
  lemma EnteredLineIsRead(e: Editor, n: nat)
    requires NEWLINE !in Pending(e)
    ensures LineFrom(TypeKey(e, NEWLINE).buffer, n) ==
            (Pending(e) + [NEWLINE])[..Min(n, |Pending(e)| + 1)]
    ensures FirstBreak(TypeKey(e, NEWLINE).buffer) < 128
  {
    var buffer := TypeKey(e, NEWLINE).buffer;
    assert buffer[..e.pos] == Pending(e);
    FirstBreakIs(buffer, e.pos);
    assert buffer[..e.pos + 1] == Pending(e) + [NEWLINE];
  }

  const ENTER: byte := 0x1C

  /** What a key does to modifiers, view and line editors; it starts and ends no process and moves no clock. */
  lemma KeyStep(img: Image, s: Sys, code: byte)
    ensures !Stuck(s, Key(code))
    ensures var next, (mods, stroke) := Step(img, s, Key(code)), Decode(s.mods, code);
            && next.running == s.running && next.mods == mods
            && next.viewing == (if stroke.Switch? then stroke.tid else s.viewing)
            && forall t :: 0 <= t < TERM_NUM ==>
                 && next.terms[t].stack == s.terms[t].stack
                 && next.terms[t].editor ==
                    if t == s.viewing && stroke.Typed? then TypeKey(s.terms[t].editor, stroke.c)
                    else if t == s.viewing && stroke.EraseLast? then EraseKey(s.terms[t].editor)
                    else s.terms[t].editor
  {
    hide Decode, Act, ActAll, Answer;
    var t := s.viewing;
    ActNone(s.terms[t]);
    KeyActions(s.terms[t]);
  }

  lemma KeyActions(t: Term)
    ensures forall c :: var now := ActAll(t, [Echo(c)]); now.stack == t.stack && now.editor == TypeKey(t.editor, c)
    ensures var now := ActAll(t, [Rubout]); now.stack == t.stack && now.editor == EraseKey(t.editor)
    ensures var now := ActAll(t, [Wipe]); now.stack == t.stack && now.editor == t.editor
  {
    hide ActAll, Putc, Cleared;
    forall c
      ensures var now := ActAll(t, [Echo(c)]); now.stack == t.stack && now.editor == TypeKey(t.editor, c)
    {
      ActOne(t, Echo(c));
    }
    ActOne(t, Rubout);
    ActOne(t, Wipe);
  }

  lemma EnterIsNewline(m: Mods)
    ensures Decode(m, ENTER) == (m, Typed(NEWLINE))
  {
    assert SCAN_CODES[ENTER] == (NEWLINE, NEWLINE);
  }

  /** Every process has the keyboard as descriptor 0 and the screen as descriptor 1. */
  predicate StdOpen(stack: seq<Proc>) {
    forall i :: 0 <= i < |stack| ==> stack[i].fds[0] == FRESH_FILES[0] && stack[i].fds[1] == FRESH_FILES[1]
  }

  predicate AllStdOpen(s: Sys) {
    forall t :: 0 <= t < TERM_NUM ==> StdOpen(s.terms[t].stack)
  }

  lemma ActStd(t: Term, a: Action)
    requires StdOpen(t.stack) && (a.SetFile? ==> a.fd >= 2)
    ensures StdOpen(Act(t, a).stack)
  {
    hide Putc, PutAll, Cleared;
  }

  lemma {:induction false} ActAllStd(t: Term, actions: seq<Action>)
    requires StdOpen(t.stack) && forall i :: 0 <= i < |actions| && actions[i].SetFile? ==> actions[i].fd >= 2
    ensures StdOpen(ActAll(t, actions).stack)
    decreases actions
  {
    hide Act, StdOpen;
    if actions != [] {
      ActStd(t, actions[0]);
      ActAllStd(Act(t, actions[0]), actions[1..]);
    }
  }

  lemma SetsHighFiles(img: Image, s: Sys, e: Event)
    requires AllStdOpen(s)
    ensures forall i :: 0 <= i < |Effect(img, s, e)| && Effect(img, s, e)[i].SetFile? ==> Effect(img, s, e)[i].fd >= 2
  {
    hide Decode, MovesTo, FileReply, FindFirst, Str, LowestFree;
    assert StdOpen(s.terms[s.running].stack);
  }

  lemma {:induction false} StdOpenForever(img: Image, s: Sys, es: seq<Event>)
    requires AllStdOpen(s)
    ensures AllStdOpen(Run(img, s, es))
    decreases es
  {
    hide Step, Effect, StdOpen;
    if es != [] && !Stuck(s, es[0]) {
      var next := Step(img, s, es[0]);
      SetsHighFiles(img, s, es[0]);
      forall t | 0 <= t < TERM_NUM
        ensures StdOpen(next.terms[t].stack)
      {
        StepTerm(img, s, es[0], t);
        ActAllStd(s.terms[t], if t == Target(s, es[0]) then Effect(img, s, es[0]) else []);
      }
      StdOpenForever(img, next, es[1..]);
    }
  }

  /**
   Characters typed after Enter go over the entered line from its start: the text and the place for the next
   character after one action.
   */
  function Strike(text: seq<byte>, pos: nat, a: Action): (r: (seq<byte>, nat))
    ensures |r.0| == |text|
  {
    match a
    case Echo(c) =>
      if c != NEWLINE && pos > KBD_BUF_SIZE - 2 then (text, pos)
      else (if pos < |text| then text[pos := c] else text, if c == NEWLINE then 0 else pos + 1)
    case Rubout => (text, if pos > 0 then pos - 1 else 0)
    case _ => (text, pos)
  }

  function Overlay(text: seq<byte>, pos: nat, actions: seq<Action>): (r: seq<byte>)
    ensures |r| == |text|
    decreases actions
  {
    if actions == [] then text
    else
      var (text', pos') := Strike(text, pos, actions[0]);
      Overlay(text', pos', actions[1..])
  }

  lemma ActStrikes(t: Term, a: Action, m: nat)
    requires m <= KBD_BUF_SIZE
    ensures Strike(t.editor.buffer[..m], t.editor.pos, a) == (Act(t, a).editor.buffer[..m], Act(t, a).editor.pos)
    ensures t.editor.ready && a != TakeLine ==> Act(t, a).editor.ready
  {
    hide Putc, PutAll, Cleared;
  }

  /** The front of the buffer is overlaid by the actions addressed to the terminal, and a line stays until taken. */
  lemma {:induction false} ActAllStrikes(t: Term, actions: seq<Action>, m: nat)
    requires m <= KBD_BUF_SIZE
    ensures Overlay(t.editor.buffer[..m], t.editor.pos, actions) == ActAll(t, actions).editor.buffer[..m]
    ensures t.editor.ready && TakeLine !in actions ==> ActAll(t, actions).editor.ready
    decreases actions
  {
    hide Act, Strike;
    if actions != [] {
      ActStrikes(t, actions[0], m);
      ActAllStrikes(Act(t, actions[0]), actions[1..], m);
    }
  }

  /** A read returns a line and its newline exactly when they are at the front of the buffer. */
  lemma LineFromIs(buffer: seq<byte>, line: seq<byte>, n: nat)
    requires NEWLINE !in line && |line| < |buffer|
    ensures var m := Min(n, |line| + 1);
            LineFrom(buffer, n) == (line + [NEWLINE])[..m] <==> buffer[..m] == (line + [NEWLINE])[..m]
  {
    var text, m := line + [NEWLINE], Min(n, |line| + 1);
    if buffer[..m] == text[..m] {
      if m == |text| {
        assert buffer[|line|] == buffer[..m][|line|] && buffer[..|line|] == buffer[..m][..|line|] == line;
        FirstBreakIs(buffer, |line|);
      } else {
        assert text[..m] == line[..m];
        FirstBreakAtLeast(buffer, m);
      }
    } else if |LineFrom(buffer, n)| == m {
      assert LineFrom(buffer, n) == buffer[..m];
    }
  }

  /** The state after Enter and a run, and what was done to the viewed terminal in that run. */
  function AfterEnter(img: Image, s: Sys, es: seq<Event>): Sys {
    Run(img, Step(img, s, Key(ENTER)), es)
  }

  function Since(img: Image, s: Sys, es: seq<Event>): seq<Action> {
    Project(Trace(img, Step(img, s, Key(ENTER)), es), s.viewing)
  }

  /**
   Enter, then any events that do not take the line, then a read in that terminal while it is viewed: the reader
   gets the line that was entered, with its newline and cut to the size asked for, if and only if the characters
   typed in that terminal since Enter leave that part of it as it was.
   */
  lemma EnteredLineSurvivesExactly(img: Image, s: Sys, es: seq<Event>, n: count)
    requires AllStdOpen(s) && NEWLINE !in Pending(s.terms[s.viewing].editor) && n > 0
    requires TakeLine !in Since(img, s, es)
    requires var end := AfterEnter(img, s, es);
             end.running == end.viewing == s.viewing && end.terms[s.viewing].stack != []
    ensures var text := Pending(s.terms[s.viewing].editor) + [NEWLINE];
            var m := Min(n, |text|);
            Answer(img, AfterEnter(img, s, es), Read(0, n)) == Data(text[..m]) <==>
            Overlay(text, 0, Since(img, s, es))[..m] == text[..m]
  {
    hide Step, Run, Decode, LineFrom, Answer, Trace, Project, Overlay, ActAll;
    var t, next, end := s.viewing, Step(img, s, Key(ENTER)), AfterEnter(img, s, es);
    var line := Pending(s.terms[t].editor);
    var text := line + [NEWLINE];
    KeyStep(img, s, ENTER);
    EnterIsNewline(s.mods);
    assert next.terms[t].editor.buffer[..|text|] == text;
    TerminalsAreIndependent(img, next, es, t);
    ActAllStrikes(next.terms[t], Since(img, s, es), |text|);
    assert AllStdOpen(next);
    StdOpenForever(img, next, es);
    assert StdOpen(end.terms[t].stack);
    ReadsKeyboard(img, end, n);
    var buffer, m := end.terms[t].editor.buffer, Min(n, |text|);
    LineFromIs(buffer, line, n);
    assert buffer[..|text|][..m] == buffer[..m];
  }

  lemma {:induction false} NothingStruck(text: seq<byte>, pos: nat, actions: seq<Action>)
    requires forall i :: 0 <= i < |actions| ==> !actions[i].Echo?
    ensures Overlay(text, pos, actions) == text
    decreases actions
  {
    if actions != [] {
      NothingStruck(text, Strike(text, pos, actions[0]).1, actions[1..]);
    }
  }

  /** In particular the reader gets the line if nothing was typed in its terminal, whatever was typed elsewhere. */
  lemma ReaderGetsTheLine(img: Image, s: Sys, es: seq<Event>, n: count)
    requires AllStdOpen(s) && NEWLINE !in Pending(s.terms[s.viewing].editor) && n > 0
    requires forall i :: 0 <= i < |Since(img, s, es)| ==> !Since(img, s, es)[i].TakeLine? && !Since(img, s, es)[i].Echo?
    requires var end := AfterEnter(img, s, es);
             end.running == end.viewing == s.viewing && end.terms[s.viewing].stack != []
    ensures var line := Pending(s.terms[s.viewing].editor);
            Answer(img, AfterEnter(img, s, es), Read(0, n)) == Data((line + [NEWLINE])[..Min(n, |line| + 1)])
  {
    hide *;
    EnteredLineSurvivesExactly(img, s, es, n);
    NothingStruck(Pending(s.terms[s.viewing].editor) + [NEWLINE], 0, Since(img, s, es));
  }

  lemma ReadsKeyboard(img: Image, s: Sys, n: count)
    requires s.terms[s.running].stack != [] && StdOpen(s.terms[s.running].stack)
    ensures Answer(img, s, Read(0, n)) == ReadLine(s, n)
  {
    hide FileReply, ReadLine, NameOf;
  }

  lemma BootIsStdOpen(s: Sys)
    requires Boot(s)
    ensures AllStdOpen(s) && forall t :: 0 <= t < TERM_NUM ==> Pending(s.terms[t].editor) == []
  {
  }

  /**
   The same from power-on: after any events, Enter, and any events that do not take the line, the reader gets the
   fold of the keys pressed while its terminal was viewed, if and only if what was typed since leaves it alone.
   */
  lemma TypedLineIsRead(img: Image, boot: Sys, before: seq<Event>, after: seq<Event>, n: count)
    requires Boot(boot) && n > 0
    requires var s := Run(img, boot, before);
             var end := AfterEnter(img, s, after);
             && TakeLine !in Since(img, s, after)
             && end.running == end.viewing == s.viewing && end.terms[s.viewing].stack != []
    ensures var s := Run(img, boot, before);
            var text := EditedAll([], Project(Trace(img, boot, before), s.viewing)) + [NEWLINE];
            var m := Min(n, |text|);
            Answer(img, AfterEnter(img, s, after), Read(0, n)) == Data(text[..m]) <==>
            Overlay(text, 0, Since(img, s, after))[..m] == text[..m]
  {
    hide *;
    var s := Run(img, boot, before);
    BootIsStdOpen(boot);
    StdOpenForever(img, boot, before);
    PendingLineIsFold(img, boot, before, s.viewing);
    PendingHasNoNewline([], Project(Trace(img, boot, before), s.viewing));
    EnteredLineSurvivesExactly(img, s, after, n);
  }

  function WithBuffer(s: Sys, t: nat, buffer: seq<byte>): Sys
    requires t < TERM_NUM && |buffer| == KBD_BUF_SIZE
  {
    s.(terms := s.terms[t := s.terms[t].(editor := s.terms[t].editor.(buffer := buffer))])
  }

  /**
   A ready read copies from the viewed terminal's buffer.  It is sure to return what its own terminal's buffer
   holds, whatever that is, exactly when the running terminal is the viewed one.
   */
  lemma ReadsItsOwnBufferExactlyWhenViewed(s: Sys, n: nat)
    requires n > 0 && s.terms[s.running].editor.ready
    ensures s.running == s.viewing <==>
            forall buffer: seq<byte> :: |buffer| == KBD_BUF_SIZE ==>
              ReadLine(WithBuffer(s, s.running, buffer), n) == Data(LineFrom(buffer, n))
  {
    if s.running != s.viewing {
      var one: seq<byte> := seq(KBD_BUF_SIZE, _ => NEWLINE);
      var two: seq<byte> := seq(KBD_BUF_SIZE, _ => SPACE);
      assert LineFrom(one, n)[0] == NEWLINE && LineFrom(two, n)[0] == SPACE;
      assert ReadLine(WithBuffer(s, s.running, one), n) == ReadLine(WithBuffer(s, s.running, two), n);
    }
  }

  const A_KEY: byte := 0x1E
  const B_KEY: byte := 0x30
  const ALT: byte := 0x38
  const F1: byte := 0x3B
  const F2: byte := 0x3C

  /** B in the first terminal; then A and Enter in the second; then back to the first. */
  const MIXED_KEYS: seq<Event> := [Key(B_KEY), Key(ALT), Key(F2), Key(A_KEY), Key(ENTER), Key(F1)]

  lemma KeysDecode()
    ensures var alt := NO_MODS.(alt := true);
            && Decode(NO_MODS, B_KEY) == (NO_MODS, Typed(98)) && Decode(NO_MODS, ALT) == (alt, Nothing)
            && Decode(alt, F2) == (alt, Switch(1)) && Decode(alt, A_KEY) == (alt, Typed(97))
            && Decode(alt, F1) == (alt, Switch(0)) && Decode(alt, B_KEY) == (alt, Typed(98))
  {
    assert SCAN_CODES[A_KEY] == (97, 65) && SCAN_CODES[B_KEY] == (98, 66);
  }

  /**
   A run from power-on in which a reader gets another terminal's bytes: terminal 1 is running and has its line
   "a", terminal 0 is viewed and has typed "b", and the read in terminal 1 returns "b".
   */
  lemma ReaderCanGetAnotherLine(img: Image, s: Sys)
    requires Boot(s)
    ensures var end := Run(img, s, [Tick] + MIXED_KEYS);
            && end.running == 1 && end.viewing == 0
            && LineFrom(end.terms[1].editor.buffer, 1) == [97] && Answer(img, end, Read(0, 1)) == Data([98])
  {
    hide Step, Decode, Answer, LineFrom;
    var s0 := Step(img, s, Tick);
    LaunchTick(img, s);
    LaunchKeepsKeys(img, s);
    assert ([Tick] + MIXED_KEYS)[1..] == MIXED_KEYS;
    MixedKeysRun(img, s0);
    BootIsStdOpen(s);
    StdOpenForever(img, s, [Tick] + MIXED_KEYS);
    ReadsKeyboard(img, Run(img, s0, MIXED_KEYS), 1);
    var end := Run(img, s0, MIXED_KEYS);
    FirstByteRead(end.terms[0].editor.buffer, 98);
    FirstByteRead(end.terms[1].editor.buffer, 97);
  }

  lemma FirstByteRead(buffer: seq<byte>, c: byte)
    requires buffer != [] && buffer[0] == c
    ensures LineFrom(buffer, 1) == [c]
  {
  }

  lemma LaunchKeepsKeys(img: Image, s: Sys)
    requires s.terms[Next(s.running)].stack == []
    ensures var next := Step(img, s, Tick);
            && next.mods == s.mods && next.viewing == s.viewing
            && next.terms[Next(s.running)].editor == s.terms[Next(s.running)].editor
  {
    hide Answer, PutAll, Putc, ActAll;
    var t := Next(s.running);
    StepTerm(img, s, Tick, t);
    TickEffect(img, s);
    ActTwo(s.terms[t], Print(Banner(t)), Push(s.calls));
  }

  lemma MixedKeysRun(img: Image, s: Sys)
    requires s.running == 1 && s.viewing == 0 && s.mods == NO_MODS
    requires s.terms[0].editor.pos == s.terms[1].editor.pos == 0
    ensures var end := Run(img, s, MIXED_KEYS);
            && end.running == 1 && end.viewing == 0 && end.terms[1].stack == s.terms[1].stack
            && end.terms[0].editor.buffer[0] == 98 && end.terms[1].editor.buffer[0] == 97
            && end.terms[1].editor.ready
  {
    hide Step, Decode, Run, Stuck;
    var es := MIXED_KEYS;
    KeysDecode();
    KeyStep(img, s, B_KEY);
    var s1 := RunCons(img, s, es, 0);
    KeyStep(img, s1, ALT);
    var s2 := RunCons(img, s1, es, 1);
    KeyStep(img, s2, F2);
    var s3 := RunCons(img, s2, es, 2);
    KeyStep(img, s3, A_KEY);
    var s4 := RunCons(img, s3, es, 3);
    KeyStep(img, s4, ENTER);
    EnterIsNewline(s4.mods);
    var s5 := RunCons(img, s4, es, 4);
    KeyStep(img, s5, F1);
    var s6 := RunCons(img, s5, es, 5);
    assert es[0..] == es && es[6..] == [];
    RunNothing(img, s6);
  }

  /** A, Enter and B in the second terminal. */
  const TYPED_ON: seq<Event> := [Key(ALT), Key(F2), Key(A_KEY), Key(ENTER), Key(B_KEY)]

  /**
   A run from power-on in which a line is lost in its own terminal: "a" was entered and "b" typed before the read,
   which returns "b" and the newline although the terminal is running and viewed.
   */
  lemma TypingOnLosesTheLine(img: Image, s: Sys)
    requires Boot(s)
    ensures var end := Run(img, s, [Tick] + TYPED_ON);
            end.running == end.viewing == 1 && Answer(img, end, Read(0, KBD_BUF_SIZE)) == Data([98, NEWLINE])
  {
    hide Step, Decode, Answer, LineFrom;
    var s0 := Step(img, s, Tick);
    LaunchTick(img, s);
    LaunchKeepsKeys(img, s);
    assert ([Tick] + TYPED_ON)[1..] == TYPED_ON;
    TypedOnRun(img, s0);
    BootIsStdOpen(s);
    StdOpenForever(img, s, [Tick] + TYPED_ON);
    var end := Run(img, s0, TYPED_ON);
    ReadsKeyboard(img, end, KBD_BUF_SIZE);
    LineFromIs(end.terms[1].editor.buffer, [98], KBD_BUF_SIZE);
    assert end.terms[1].editor.buffer[..2] == [98, NEWLINE] == [98] + [NEWLINE];
  }

  lemma TypedOnRun(img: Image, s: Sys)
    requires s.running == 1 && s.mods == NO_MODS && s.terms[1].editor.pos == 0
    ensures var end := Run(img, s, TYPED_ON);
            && end.running == end.viewing == 1 && end.terms[1].stack == s.terms[1].stack
            && end.terms[1].editor.buffer[0] == 98 && end.terms[1].editor.buffer[1] == NEWLINE
            && end.terms[1].editor.ready
  {
    hide Step, Decode, Run, Stuck;
    var es := TYPED_ON;
    KeysDecode();
    KeyStep(img, s, ALT);
    var s1 := RunCons(img, s, es, 0);
    KeyStep(img, s1, F2);
    var s2 := RunCons(img, s1, es, 1);
    KeyStep(img, s2, A_KEY);
    var s3 := RunCons(img, s2, es, 2);
    KeyStep(img, s3, ENTER);
    EnterIsNewline(s3.mods);
    var s4 := RunCons(img, s3, es, 3);
    KeyStep(img, s4, B_KEY);
    var s5 := RunCons(img, s4, es, 4);
    assert es[0..] == es && es[5..] == [];
    RunNothing(img, s5);
  }

  // ---------------------------------------------------------------- waiting for Enter

  /** A line is ready when Enter was the last of Enter and a read of the line. */
  function ReadyAfter(ready: bool, actions: seq<Action>): bool
    decreases actions
  {
    if actions == [] then ready
    else ReadyAfter(actions[0] == Echo(NEWLINE) || (actions[0] != TakeLine && ready), actions[1..])
  }

  lemma {:induction false} ActAllReady(t: Term, actions: seq<Action>)
    ensures ActAll(t, actions).editor.ready == ReadyAfter(t.editor.ready, actions)
    decreases actions
  {
    hide Putc, PutAll, Cleared;
    if actions != [] {
      ActAllReady(Act(t, actions[0]), actions[1..]);
    }
  }

  /** After any run, a terminal's line is ready exactly when Enter was pressed in it and the line not read since. */
  lemma ReadyIsFold(img: Image, s: Sys, es: seq<Event>, t: nat)
    requires t < TERM_NUM
    ensures Run(img, s, es).terms[t].editor.ready ==
            ReadyAfter(s.terms[t].editor.ready, Project(Trace(img, s, es), t))
  {
    hide *;
    TerminalsAreIndependent(img, s, es, t);
    ActAllReady(s.terms[t], Project(Trace(img, s, es), t));
  }

  /**
   A keyboard read of no bytes or fewer fails; one without a ready line waits; any other takes the line, so that the
   next one waits for Enter again.  None of them changes anything else.
   */
  lemma KeyboardReadExactly(img: Image, s: Sys, n: int32, m: count)
    requires s.terms[s.running].stack != [] && StdOpen(s.terms[s.running].stack) && m > 0
    ensures var r, next, me := Answer(img, s, Read(0, n)), Step(img, s, Read(0, n)), s.terms[s.running];
            if n <= 0 then r == Value(-1) && next == s
            else if !me.editor.ready then r == Blocked && next == s
            else
              && r.Data? && next.terms[s.running] == me.(editor := me.editor.(ready := false))
              && (forall u :: 0 <= u < TERM_NUM && u != s.running ==> next.terms[u] == s.terms[u])
              && next.running == s.running && next.viewing == s.viewing
              && Answer(img, next, Read(0, m)) == Blocked
  {
    hide Step, FileReply, NameOf, LineFrom, MovesTo;
    var stack := s.terms[s.running].stack;
    assert stack[|stack| - 1].fds[0] == FRESH_FILES[0];
    if n <= 0 || !s.terms[s.running].editor.ready {
      NothingStep(img, s, Read(0, n));
    } else {
      TakeStep(img, s, Read(0, n));
      hide Answer, Effect;
      ReadsKeyboard(img, Step(img, s, Read(0, n)), m);
    }
  }

  lemma TakeStep(img: Image, s: Sys, e: Event)
    requires !e.Tick? && !e.Key? && Effect(img, s, e) == [TakeLine]
    ensures var next, me := Step(img, s, e), s.terms[s.running];
            && next.terms[s.running] == me.(editor := me.editor.(ready := false))
            && (forall u :: 0 <= u < TERM_NUM && u != s.running ==> next.terms[u] == s.terms[u])
            && next.running == s.running && next.viewing == s.viewing
  {
    hide Effect, Answer, ActAll;
    ActOne(s.terms[s.running], TakeLine);
  }

  // ---------------------------------------------------------------- scan codes alone

  /** The same modifiers, view and line buffers. */
  predicate SameKeyboard(s: Sys, s': Sys) {
    && s'.mods == s.mods && s'.viewing == s.viewing
    && forall t :: 0 <= t < TERM_NUM ==> SameLine(s.terms[t].editor, s'.terms[t].editor)
  }

  predicate SameLine(e: Editor, e': Editor) {
    e'.buffer == e.buffer && e'.pos == e.pos
  }

  function KeysOf(es: seq<Event>): seq<Event> {
    if es == [] then [] else (if es[0].Key? then [es[0]] else []) + KeysOf(es[1..])
  }

  lemma KeyKeepsSame(img: Image, img': Image, s: Sys, s': Sys, code: byte)
    requires SameKeyboard(s, s')
    ensures SameKeyboard(Step(img, s, Key(code)), Step(img', s', Key(code)))
  {
    hide Step, Decode;
    KeyStep(img, s, code);
    KeyStep(img', s', code);
  }

  lemma OthersKeepKeyboard(img: Image, s: Sys, e: Event)
    requires !e.Key?
    ensures SameKeyboard(s, Step(img, s, e))
  {
    hide Effect, Act, ActAll, Answer;
    QuietEffect(img, s, e);
    QuietActions(s.terms[Target(s, e)], Effect(img, s, e));
  }

  lemma QuietEffect(img: Image, s: Sys, e: Event)
    requires !e.Key?
    ensures forall i :: 0 <= i < |Effect(img, s, e)| ==> !Effect(img, s, e)[i].Echo? && !Effect(img, s, e)[i].Rubout?
  {
    hide Decode, MovesTo, FileReply, FindFirst, Str, LowestFree;
  }

  lemma {:induction false} QuietActions(t: Term, actions: seq<Action>)
    requires forall i :: 0 <= i < |actions| ==> !actions[i].Echo? && !actions[i].Rubout?
    ensures SameLine(t.editor, ActAll(t, actions).editor)
    decreases actions
  {
    hide Putc, PutAll, Cleared;
    if actions != [] {
      QuietActions(Act(t, actions[0]), actions[1..]);
    }
  }

  /**
   Modifiers, view and all three line buffers depend on scan codes alone: after any run they are what the key
   events of the run, with everything else left out and on any file system, make of them.
   */
  lemma {:induction false} ScanCodesAlone(img: Image, img': Image, s: Sys, s': Sys, es: seq<Event>)
    requires SameKeyboard(s, s') && Smooth(img, s, es)
    ensures SameKeyboard(Run(img, s, es), Run(img', s', KeysOf(es)))
    decreases es
  {
    hide Step, Stuck, SameKeyboard;
    if es == [] {
      RunNothing(img', s');
    } else {
      var e, keys := es[0], KeysOf(es[1..]);
      if e.Key? {
        KeyKeepsSame(img, img', s, s', e.code);
        KeyNotStuck(s', e.code);
        assert ([e] + keys)[1..] == keys;
        ScanCodesAlone(img, img', Step(img, s, e), Step(img', s', e), es[1..]);
      } else {
        OthersKeepKeyboard(img, s, e);
        SameBack(s, Step(img, s, e), s');
        assert [] + keys == keys;
        ScanCodesAlone(img, img', Step(img, s, e), s', es[1..]);
      }
    }
  }

  lemma KeyNotStuck(s: Sys, code: byte)
    ensures !Stuck(s, Key(code))
  {
  }

  lemma SameBack(s: Sys, next: Sys, s': Sys)
    requires SameKeyboard(s, next) && SameKeyboard(s, s')
    ensures SameKeyboard(next, s')
  {
  }
}
