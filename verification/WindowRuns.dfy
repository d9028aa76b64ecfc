/**
 The user windows onto video memory over whole runs.  The kernel keeps one flag per terminal and one per process,
 so a child's window and its parent's are not told apart: `WindowAfterTheChild` says what is left of the parent's.
 */
module WindowRuns {
  import opened Bytes
  import opened Screen
  import opened FileSystem
  import opened Keyboard
  import opened Terminals
  import opened TerminalRuns

  /** The terminal has more than d processes before each event of the run, and d at the end. */
  ghost predicate UntilReturn(img: Image, s: Sys, es: seq<Event>, t: nat, d: nat)
    requires t < TERM_NUM
    decreases es
  {
    if es == [] then |s.terms[t].stack| == d
    else |s.terms[t].stack| > d && !Stuck(s, es[0]) && UntilReturn(img, Step(img, s, es[0]), es[1..], t, d)
  }

  /** Whether a window was opened in terminal t in the course of a run. */
  predicate Maps(img: Image, s: Sys, es: seq<Event>, t: nat) {
    MapVideo in Project(Trace(img, s, es), t)
  }

  /** A process above the d lowest has opened a window. */
  ghost predicate OwnerAbove(t: Term, d: nat) {
    exists k :: d <= k < |t.stack| && t.stack[k].vidmap
  }

  /**
   While a child of the d-th process lives: the window is as the child found it, or, once a process above has
   mapped one, it is open only while a process above owns it.
   */
  ghost predicate Owned(t: Term, d: nat, found: bool, mapped: bool) {
    if mapped then t.vidmap ==> OwnerAbove(t, d)
    else t.vidmap == found && !OwnerAbove(t, d)
  }

  lemma ActOwned(t: Term, a: Action, d: nat, found: bool, mapped: bool)
    requires Owned(t, d, found, mapped) && |t.stack| > d && !a.Replace?
    ensures Owned(Act(t, a), d, found, mapped || a == MapVideo)
  {
    hide Putc, PutAll, Cleared, OwnerAbove;
    var now := Act(t, a);
    if a.MapVideo? {
      OwnerIs(now, d, |t.stack| - 1);
    } else if a.Push? {
      SameOwners(t, now, d);
    } else if a.Pop? {
      PopOwners(t, now, d);
    } else {
      SameOwners(t, now, d);
    }
  }

  lemma OwnerIs(t: Term, d: nat, k: nat)
    requires d <= k < |t.stack| && t.stack[k].vidmap
    ensures OwnerAbove(t, d)
  {
  }

  /** The flags of the processes are the same, but for new processes without a window. */
  lemma SameOwners(t: Term, now: Term, d: nat)
    requires |t.stack| <= |now.stack|
    requires forall k :: 0 <= k < |t.stack| ==> now.stack[k].vidmap == t.stack[k].vidmap
    requires forall k :: |t.stack| <= k < |now.stack| ==> !now.stack[k].vidmap
    ensures OwnerAbove(now, d) == OwnerAbove(t, d)
  {
    if OwnerAbove(t, d) {
      var k :| d <= k < |t.stack| && t.stack[k].vidmap;
      assert now.stack[k].vidmap;
    }
  }

  lemma PopOwners(t: Term, now: Term, d: nat)
    requires |t.stack| > d && now.stack == t.stack[..|t.stack| - 1]
    ensures OwnerAbove(t, d) <==> OwnerAbove(now, d) || Top(t.stack).vidmap
  {
    if OwnerAbove(t, d) && !Top(t.stack).vidmap {
      var k :| d <= k < |t.stack| && t.stack[k].vidmap;
      assert now.stack[k].vidmap;
    }
    if OwnerAbove(now, d) {
      var k :| d <= k < |now.stack| && now.stack[k].vidmap;
      assert t.stack[k].vidmap;
    }
    if Top(t.stack).vidmap {
      assert t.stack[|t.stack| - 1].vidmap;
    }
  }

  lemma MapsCons(img: Image, s: Sys, es: seq<Event>, t: nat)
    requires es != [] && !Stuck(s, es[0])
    ensures Maps(img, s, es, t) <==>
            || (Target(s, es[0]) == t && MapVideo in Effect(img, s, es[0]))
            || Maps(img, Step(img, s, es[0]), es[1..], t)
  {
    hide Step, Effect, Target;
    var rest := Trace(img, Step(img, s, es[0]), es[1..]);
    ProjectConcat(Tag(Target(s, es[0]), Effect(img, s, es[0])), rest, t);
    ProjectTag(Target(s, es[0]), Effect(img, s, es[0]), t);
  }

  lemma WindowEffect(img: Image, s: Sys, e: Event)
    requires !Stuck(s, e)
    ensures var fx, stack := Effect(img, s, e), s.terms[Target(s, e)].stack;
            && |fx| <= 2 && (|fx| == 1 ==> fx == [fx[0]]) && (|fx| == 2 ==> fx == [fx[0], fx[1]] && fx[0].Print?)
            && forall i :: 0 <= i < |fx| && fx[i].Replace? ==> |stack| == 1
  {
    hide Decode, MovesTo, FileReply, FindFirst, Str, LowestFree;
  }

  lemma StepOwned(img: Image, s: Sys, e: Event, t: nat, d: nat, found: bool, mapped: bool)
    requires t < TERM_NUM && d > 0 && |s.terms[t].stack| > d && !Stuck(s, e) && Owned(s.terms[t], d, found, mapped)
    ensures var maps := Target(s, e) == t && MapVideo in Effect(img, s, e);
            Owned(Step(img, s, e).terms[t], d, found, mapped || maps)
  {
    hide Step, Effect, Act, ActAll, Owned;
    StepTerm(img, s, e, t);
    WindowEffect(img, s, e);
    var me, fx := s.terms[t], if t == Target(s, e) then Effect(img, s, e) else [];
    if |fx| == 0 {
      ActNone(me);
    } else if |fx| == 1 {
      ActOne(me, fx[0]);
      ActOwned(me, fx[0], d, found, mapped);
    } else {
      ActTwo(me, fx[0], fx[1]);
      PrintKeepsStack(me, fx[0]);
      ActOwned(me, fx[0], d, found, mapped);
      ActOwned(Act(me, fx[0]), fx[1], d, found, mapped);
    }
  }

  lemma PrintKeepsStack(t: Term, a: Action)
    requires a.Print?
    ensures Act(t, a).stack == t.stack
  {
    hide PutAll;
  }

  lemma {:induction false} OwnedUntilReturn(
      img: Image, s: Sys, es: seq<Event>, t: nat, d: nat, found: bool, mapped: bool)
    requires t < TERM_NUM && d > 0 && UntilReturn(img, s, es, t, d) && Owned(s.terms[t], d, found, mapped)
    ensures Run(img, s, es).terms[t].vidmap == (found && !mapped && !Maps(img, s, es, t))
    decreases es
  {
    hide Step, Effect, Maps;
    if es == [] {
      assert !Maps(img, s, es, t) by {
        MapsNothing(img, s, t);
      }
    } else {
      MapsCons(img, s, es, t);
      StepOwned(img, s, es[0], t, d, found, mapped);
      var maps := Target(s, es[0]) == t && MapVideo in Effect(img, s, es[0]);
      OwnedUntilReturn(img, Step(img, s, es[0]), es[1..], t, d, found, mapped || maps);
    }
  }

  lemma MapsNothing(img: Image, s: Sys, t: nat)
    ensures !Maps(img, s, [], t)
  {
    hide Step;
  }

  lemma ExecuteStep(img: Image, s: Sys)
    requires s.terms[s.running].stack != [] && Live(s) < MAX_NUM_PROCESS
    ensures var t, next := s.running, Step(img, s, Execute(Loadable));
            && next.running == t && next.terms[t] == Act(s.terms[t], Push(s.calls))
  {
    hide Act, ActAll, Answer;
    StepTerm(img, s, Execute(Loadable), s.running);
    ActOne(s.terms[s.running], Push(s.calls));
  }

  /**
   From an `execute` to the return into it: the terminal's window is open afterwards if and only if it was open
   before and no process of the child's lifetime mapped one.  Hence the caller finds its window as it left it
   exactly when it had none, or when nobody above mapped one.
   */
  lemma WindowAfterTheChild(img: Image, s: Sys, es: seq<Event>)
    requires s.terms[s.running].stack != [] && Live(s) < MAX_NUM_PROCESS
    requires UntilReturn(img, Step(img, s, Execute(Loadable)), es, s.running, |s.terms[s.running].stack|)
    ensures var t, next := s.running, Step(img, s, Execute(Loadable));
            var before, after := s.terms[t].vidmap, Run(img, next, es).terms[t].vidmap;
            && (after <==> before && !Maps(img, next, es, t))
            && (after == before <==> !before || !Maps(img, next, es, t))
  {
    hide Step, Maps;
    var t, d := s.running, |s.terms[s.running].stack|;
    ExecuteStep(img, s);
    var next := Step(img, s, Execute(Loadable));
    assert Owned(next.terms[t], d, s.terms[t].vidmap, false);
    OwnedUntilReturn(img, next, es, t, d, s.terms[t].vidmap, false);
  }

  // ---------------------------------------------------------------- base shells

  /** The terminal has its base shell and no other process all through the run; the shell may be replaced. */
  ghost predicate OnlyShells(img: Image, s: Sys, es: seq<Event>, t: nat)
    requires t < TERM_NUM
    decreases es
  {
    && |s.terms[t].stack| == 1
    && (es == [] || (!Stuck(s, es[0]) && OnlyShells(img, Step(img, s, es[0]), es[1..], t)))
  }

  lemma ShellStep(img: Image, s: Sys, e: Event, t: nat)
    requires t < TERM_NUM && !Stuck(s, e) && |s.terms[t].stack| == |Step(img, s, e).terms[t].stack| == 1
    ensures Step(img, s, e).terms[t].vidmap ==
            (s.terms[t].vidmap || (Target(s, e) == t && MapVideo in Effect(img, s, e)))
  {
    hide Step, Effect, Act, ActAll;
    StepTerm(img, s, e, t);
    WindowEffect(img, s, e);
    var me, fx := s.terms[t], if t == Target(s, e) then Effect(img, s, e) else [];
    if |fx| == 0 {
      ActNone(me);
    } else if |fx| == 1 {
      ActOne(me, fx[0]);
      ShellAct(me, fx[0]);
    } else {
      ActTwo(me, fx[0], fx[1]);
      PrintKeepsStack(me, fx[0]);
      ShellAct(me, fx[0]);
      ShellAct(Act(me, fx[0]), fx[1]);
    }
  }

  lemma ShellAct(t: Term, a: Action)
    requires |t.stack| == |Act(t, a).stack| == 1
    ensures Act(t, a).vidmap == (t.vidmap || a == MapVideo)
  {
    hide Putc, PutAll, Cleared;
  }

  /**
   A base shell that halts is replaced without closing its window: as long as a terminal runs only base shells,
   its window is open exactly when it was, or when any of the shells has mapped one.
   */
  lemma {:induction false} WindowOutlivesShells(img: Image, s: Sys, es: seq<Event>, t: nat)
    requires t < TERM_NUM && OnlyShells(img, s, es, t)
    ensures Run(img, s, es).terms[t].vidmap <==> s.terms[t].vidmap || Maps(img, s, es, t)
    decreases es
  {
    hide Step, Effect, Maps;
    if es == [] {
      MapsNothing(img, s, t);
    } else {
      MapsCons(img, s, es, t);
      ShellStep(img, s, es[0], t);
      WindowOutlivesShells(img, Step(img, s, es[0]), es[1..], t);
    }
  }

  // ---------------------------------------------------------------- asking for a window

  /**
   `vidmap` succeeds exactly for a pointer into the program's 4 MB page with room for four bytes; then the window of
   the running terminal is open and the process has it marked.  Otherwise nothing changes but for the message that
   any bad pointer other than NULL draws.
   */
  lemma VidmapExactly(img: Image, s: Sys, ptr: int)
    requires s.terms[s.running].stack != []
    ensures var r, was := Answer(img, s, Vidmap(ptr)), s.terms[s.running];
            var now := Step(img, s, Vidmap(ptr)).terms[s.running];
            && r in {Value(0), Value(-1)} && (r == Value(0) <==> 0x800_0000 <= ptr <= 0x83F_FFFC)
            && (r == Value(0) ==>
                  && now.vidmap && |now.stack| == |was.stack| && Top(now.stack) == Top(was.stack).(vidmap := true)
                  && now.stack[..|now.stack| - 1] == was.stack[..|was.stack| - 1]
                  && now.console == was.console && now.editor == was.editor)
            && (r == Value(-1) ==>
                  now == was.(console := if ptr == 0 then was.console
                                         else PutAll(was.console, Ascii("Invalid requirement of vidmap!\n"))))
    ensures forall u :: 0 <= u < TERM_NUM && u != s.running ==> Step(img, s, Vidmap(ptr)).terms[u] == s.terms[u]
  {
    hide Ascii, PutAll, ActAll;
    var me := s.terms[s.running];
    ActNone(me);
    ActOne(me, MapVideo);
    ActOne(me, Print(BAD_VIDMAP));
  }

  // ---------------------------------------------------------------- runs from power-on that show the difference

  /** A first shell is launched by the tick, without a window. */
  lemma TickStep(img: Image, s: Sys)
    requires Boot(s)
    ensures var next := Step(img, s, Tick);
            && !Stuck(s, Tick) && next.running == 1 && Live(next) == 1
            && !next.terms[1].vidmap && |next.terms[1].stack| == 1 && !next.terms[1].stack[0].vidmap
  {
    hide Answer, ActAll, PutAll;
    StepTerm(img, s, Tick, 1);
    TickEffect(img, s);
    ActTwo(s.terms[1], Print(Banner(1)), Push(s.calls));
  }

  lemma VidmapStep(img: Image, s: Sys)
    requires s.terms[s.running].stack != []
    ensures var t, next := s.running, Step(img, s, Vidmap(USER_START));
            && next.running == t && next.terms[t] == Act(s.terms[t], MapVideo) && Live(next) == Live(s)
  {
    hide Answer, Act, ActAll;
    StepTerm(img, s, Vidmap(USER_START), s.running);
    ActOne(s.terms[s.running], MapVideo);
    ActGrowth(s.terms[s.running], MapVideo);
  }

  lemma HaltStep(img: Image, s: Sys)
    requires s.terms[s.running].stack != []
    ensures var t, next := s.running, Step(img, s, Halt(0));
            && next.running == t
            && next.terms[t] == Act(s.terms[t], if |s.terms[t].stack| == 1 then Replace(s.calls) else Pop)
  {
    hide Answer, Act, ActAll;
    var me := s.terms[s.running];
    StepTerm(img, s, Halt(0), s.running);
    ActOne(me, if |me.stack| == 1 then Replace(s.calls) else Pop);
  }

  lemma StoreReply(img: Image, s: Sys, value: byte)
    requires s.terms[s.running].stack != []
    ensures Answer(img, s, VideoStore(0, value)) == if s.terms[s.running].vidmap then Quiet else Faulted
  {
  }

  const CHILD_MAPS: seq<Event> := [Tick, Vidmap(USER_START), Execute(Loadable), Vidmap(USER_START), Halt(0)]

  /** A shell maps its window, and a child maps one and halts: the shell's next store faults. */
  lemma ParentLosesItsWindow(img: Image, s: Sys, value: byte)
    requires Boot(s)
    ensures var end := Run(img, s, CHILD_MAPS);
            && end.running == 1 && |end.terms[1].stack| == 1 && end.terms[1].stack[0].vidmap
            && Answer(img, end, VideoStore(0, value)) == Faulted
  {
    hide Step, Run, Answer;
    var es := CHILD_MAPS;
    TickStep(img, s);
    var s1 := RunCons(img, s, es, 0);
    VidmapStep(img, s1);
    var s2 := RunCons(img, s1, es, 1);
    ExecuteStep(img, s2);
    var s3 := RunCons(img, s2, es, 2);
    VidmapStep(img, s3);
    var s4 := RunCons(img, s3, es, 3);
    HaltStep(img, s4);
    var s5 := RunCons(img, s4, es, 4);
    assert es[0..] == es && es[5..] == [];
    RunNothing(img, s5);
    StoreReply(img, s5, value);
  }

  const SHELL_MAPS: seq<Event> := [Tick, Vidmap(USER_START), Halt(0)]

  /** A shell maps its window and halts: the shell that replaces it can store without having mapped anything. */
  lemma ShellInheritsAWindow(img: Image, s: Sys, value: byte)
    requires Boot(s)
    ensures var end := Run(img, s, SHELL_MAPS);
            && end.running == 1 && |end.terms[1].stack| == 1 && !end.terms[1].stack[0].vidmap
            && Answer(img, end, VideoStore(0, value)) == Quiet
  {
    hide Step, Run, Answer;
    var es := SHELL_MAPS;
    TickStep(img, s);
    var s1 := RunCons(img, s, es, 0);
    VidmapStep(img, s1);
    var s2 := RunCons(img, s1, es, 1);
    HaltStep(img, s2);
    var s3 := RunCons(img, s2, es, 2);
    assert es[0..] == es && es[3..] == [];
    RunNothing(img, s3);
    StoreReply(img, s3, value);
  }
}
