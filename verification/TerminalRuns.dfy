/**
 What holds over whole runs of the three terminals: they do not interfere, the clock rotates, shells are
 never lost, and every return from `execute` matches its call.
 */
module TerminalRuns {
  import opened Bytes
  import opened Screen
  import opened FileSystem
  import opened Keyboard
  import opened Terminals

  /** No tick of the run gets stuck. */
  ghost predicate Smooth(img: Image, s: Sys, es: seq<Event>)
    decreases es
  {
    es == [] || (!Stuck(s, es[0]) && Smooth(img, Step(img, s, es[0]), es[1..]))
  }

  /** A run from the k-th event on begins with that event. */
  lemma RunCons(img: Image, s: Sys, es: seq<Event>, k: nat) returns (next: Sys)
    requires k < |es| && !Stuck(s, es[k])
    ensures next == Step(img, s, es[k]) && Run(img, s, es[k..]) == Run(img, next, es[k + 1..])
  {
    hide Step, Stuck;
    next := Step(img, s, es[k]);
    assert es[k..][1..] == es[k + 1..];
  }

  lemma {:induction false} RunSnoc(img: Image, s: Sys, es: seq<Event>, e: Event)
    requires Smooth(img, s, es) && !Stuck(Run(img, s, es), e)
    ensures Run(img, s, es + [e]) == Step(img, Run(img, s, es), e)
    decreases es
  {
    hide Step, Stuck;
    if es == [] {
      assert [e][1..] == [];
    } else {
      assert (es + [e])[1..] == es[1..] + [e];
      RunSnoc(img, Step(img, s, es[0]), es[1..], e);
    }
  }

  lemma RunNothing(img: Image, s: Sys)
    ensures Run(img, s, []) == s
  {
    hide Step;
  }

  // ---------------------------------------------------------------- independence

  /** The actions of a run, each with the terminal it addresses. */
  function Trace(img: Image, s: Sys, es: seq<Event>): seq<(nat, Action)>
    decreases es
  {
    if es == [] || Stuck(s, es[0]) then []
    else Tag(Target(s, es[0]), Effect(img, s, es[0])) + Trace(img, Step(img, s, es[0]), es[1..])
  }

  function Tag(t: nat, actions: seq<Action>): (r: seq<(nat, Action)>)
    ensures |r| == |actions|
  {
    seq(|actions|, i requires 0 <= i < |actions| => (t, actions[i]))
  }

  /** The actions of a trace that address terminal t. */
  function Project(trace: seq<(nat, Action)>, t: nat): seq<Action> {
    if trace == [] then []
    else (if trace[0].0 == t then [trace[0].1] else []) + Project(trace[1..], t)
  }

  lemma {:induction false} ProjectConcat(a: seq<(nat, Action)>, b: seq<(nat, Action)>, t: nat)
    ensures Project(a + b, t) == Project(a, t) + Project(b, t)
  {
    if a == [] {
      assert a + b == b;
    } else {
      var head := if a[0].0 == t then [a[0].1] else [];
      assert (a + b)[1..] == a[1..] + b;
      ProjectConcat(a[1..], b, t);
      assert Project(a + b, t) == head + (Project(a[1..], t) + Project(b, t));
      assert Project(a, t) == head + Project(a[1..], t);
    }
  }

  lemma {:induction false} ProjectTag(u: nat, actions: seq<Action>, t: nat)
    ensures Project(Tag(u, actions), t) == if u == t then actions else []
  {
    if actions != [] {
      assert Tag(u, actions)[1..] == Tag(u, actions[1..]);
      ProjectTag(u, actions[1..], t);
    }
  }

  lemma {:induction false} ActAllConcat(t: Term, a: seq<Action>, b: seq<Action>)
    ensures ActAll(t, a + b) == ActAll(ActAll(t, a), b)
    decreases a
  {
    hide Act;
    if a == [] {
      assert a + b == b;
    } else {
      assert (a + b)[1..] == a[1..] + b;
      ActAllConcat(Act(t, a[0]), a[1..], b);
    }
  }

  lemma StepTerm(img: Image, s: Sys, e: Event, t: nat)
    requires t < TERM_NUM
    ensures Step(img, s, e).terms[t] == ActAll(s.terms[t], if t == Target(s, e) then Effect(img, s, e) else [])
  {
    hide Act, Effect, Answer;
  }

  /** A system call without effect. */
  lemma NothingStep(img: Image, s: Sys, e: Event)
    requires !e.Tick? && !e.Key? && Effect(img, s, e) == [] && !Answer(img, s, e).Started?
    ensures Step(img, s, e) == s
  {
    hide Effect, Answer, ActAll;
    ActNone(s.terms[s.running]);
    assert s.terms[s.running := s.terms[s.running]] == s.terms;
  }

  /** Without a process there is nobody to make a system call or to fault: such an event does nothing. */
  lemma NobodyCalls(img: Image, s: Sys, e: Event)
    requires s.terms[s.running].stack == [] && !e.Tick? && !e.Key?
    ensures Answer(img, s, e) == Quiet && Step(img, s, e) == s
  {
    hide Step;
    NothingStep(img, s, e);
  }

  /** After any run, a terminal is the fold of the actions addressed to it, whatever happened to the others. */
  lemma {:induction false} TerminalsAreIndependent(img: Image, s: Sys, es: seq<Event>, t: nat)
    requires t < TERM_NUM
    ensures Run(img, s, es).terms[t] == ActAll(s.terms[t], Project(Trace(img, s, es), t))
    decreases es
  {
    if es != [] && !Stuck(s, es[0]) {
      var next, tagged := Step(img, s, es[0]), Tag(Target(s, es[0]), Effect(img, s, es[0]));
      TerminalsAreIndependent(img, next, es[1..], t);
      StepTerm(img, s, es[0], t);
      hide Step, Act, Effect, ActAll;
      ProjectConcat(tagged, Trace(img, next, es[1..]), t);
      ProjectTag(Target(s, es[0]), Effect(img, s, es[0]), t);
      ActAllConcat(s.terms[t], Project(tagged, t), Project(Trace(img, next, es[1..]), t));
    }
  }

  /** Two systems that differ at most in terminal u's screen and line editor. */
  predicate SameBut(s: Sys, s': Sys, u: nat) {
    && s'.running == s.running && s'.viewing == s.viewing && s'.mods == s.mods
    && s'.ticks == s.ticks && s'.calls == s.calls
    && forall t :: 0 <= t < TERM_NUM ==>
         && SameStack(s.terms[t], s'.terms[t])
         && (t != u ==> s'.terms[t] == s.terms[t])
  }

  predicate SameStack(t: Term, t': Term) {
    t'.stack == t.stack && t'.vidmap == t.vidmap
  }

  /** A keyboard read that waits for, or copies from, terminal u's line editor. */
  predicate ReadsLineOf(s: Sys, e: Event, u: nat) {
    && e.Read? && FileAt(s, e.fd).Some? && FileAt(s, e.fd).value.ops in {Stdin, Stdout}
    && (s.running == u || s.viewing == u)
  }

  /** Actions that touch only the screen and the line editor. */
  predicate OnTheSurface(a: Action) {
    a.Echo? || a.Rubout? || a.Wipe? || a.TakeLine?
  }

  lemma SameEffect(img: Image, s: Sys, s': Sys, e: Event, u: nat)
    requires SameBut(s, s', u)
    ensures Stuck(s, e) == Stuck(s', e) && Target(s, e) == Target(s', e)
    ensures || Effect(img, s, e) == Effect(img, s', e)
            || (&& Target(s, e) == u
                && (forall i :: 0 <= i < |Effect(img, s, e)| ==> OnTheSurface(Effect(img, s, e)[i]))
                && forall i :: 0 <= i < |Effect(img, s', e)| ==> OnTheSurface(Effect(img, s', e)[i]))
  {
    hide Decode, MovesTo, FileReply, FindFirst, Str, LowestFree;
  }

  lemma SameAnswer(img: Image, s: Sys, s': Sys, e: Event, u: nat)
    requires SameBut(s, s', u)
    ensures Answer(img, s, e) == Answer(img, s', e) || ReadsLineOf(s, e, u)
    ensures Answer(img, s, e).Started? == Answer(img, s', e).Started?
  {
    hide Decode, MovesTo, FileReply, FindFirst, Str, LowestFree, LineFrom, RtcAccepts;
  }

  lemma ActSame(t: Term, t': Term, a: Action)
    requires SameStack(t, t')
    ensures SameStack(Act(t, a), Act(t', a))
    ensures OnTheSurface(a) ==> SameStack(t, Act(t, a))
  {
    hide Putc, PutAll, Cleared;
  }

  lemma {:induction false} ActAllSame(t: Term, t': Term, actions: seq<Action>)
    requires SameStack(t, t')
    ensures SameStack(ActAll(t, actions), ActAll(t', actions))
    decreases actions
  {
    hide Act;
    if actions != [] {
      ActSame(t, t', actions[0]);
      ActAllSame(Act(t, actions[0]), Act(t', actions[0]), actions[1..]);
    }
  }

  lemma {:induction false} SurfaceKeepsStack(t: Term, actions: seq<Action>)
    requires forall i :: 0 <= i < |actions| ==> OnTheSurface(actions[i])
    ensures SameStack(t, ActAll(t, actions))
    decreases actions
  {
    hide Act;
    if actions != [] {
      ActSame(t, t, actions[0]);
      SurfaceKeepsStack(Act(t, actions[0]), actions[1..]);
    }
  }

  lemma StepKeepsSame(img: Image, s: Sys, s': Sys, e: Event, u: nat)
    requires SameBut(s, s', u) && u < TERM_NUM
    ensures SameBut(Step(img, s, e), Step(img, s', e), u)
  {
    hide Effect, Answer, Act, ActAll, Decode;
    SameEffect(img, s, s', e, u);
    SameAnswer(img, s, s', e, u);
    var t, fx, fx' := Target(s, e), Effect(img, s, e), Effect(img, s', e);
    if fx == fx' {
      ActAllSame(s.terms[t], s'.terms[t], fx);
    } else {
      SurfaceKeepsStack(s.terms[t], fx);
      SurfaceKeepsStack(s'.terms[t], fx');
    }
  }

  /**
   What is on another terminal's screen and in its line editor makes no difference: after any events everything
   else is the same.
   */
  lemma {:induction false} NonInterference(img: Image, s: Sys, s': Sys, es: seq<Event>, u: nat)
    requires SameBut(s, s', u) && u < TERM_NUM
    ensures SameBut(Run(img, s, es), Run(img, s', es), u)
    decreases es
  {
    hide Step, Stuck, SameBut;
    if es != [] {
      SameEffect(img, s, s', es[0], u);
      StepKeepsSame(img, s, s', es[0], u);
      NonInterference(img, Step(img, s, es[0]), Step(img, s', es[0]), es[1..], u);
    }
  }

  /** Nor does it change a reply, other than that of a keyboard read that uses the line. */
  lemma {:induction false} SameReplies(img: Image, s: Sys, s': Sys, es: seq<Event>, u: nat, k: nat)
    requires SameBut(s, s', u) && u < TERM_NUM && k < |Replies(img, s, es)|
    ensures k < |Replies(img, s', es)|
    ensures Replies(img, s, es)[k] == Replies(img, s', es)[k] || ReadsLineOf(Run(img, s, es[..k]), es[k], u)
    decreases es
  {
    hide Step, Answer, Stuck, SameBut, ReadsLineOf;
    var next, next' := Step(img, s, es[0]), Step(img, s', es[0]);
    SameEffect(img, s, s', es[0], u);
    SameAnswer(img, s, s', es[0], u);
    if k > 0 {
      StepKeepsSame(img, s, s', es[0], u);
      SameReplies(img, next, next', es[1..], u, k - 1);
      assert es[..k][1..] == es[1..][..k - 1];
    }
  }

  /** Program output changes only the running screen, keys only the viewed one; switching and ticking change none. */
  lemma WhoChangesAConsole(img: Image, s: Sys, e: Event, t: nat)
    requires t < TERM_NUM && Step(img, s, e).terms[t].console != s.terms[t].console
    ensures match e
            case Tick => t == Next(s.running) && s.terms[t].stack == []
            case Key(code) => t == s.viewing && !Decode(s.mods, code).1.Switch? && !Decode(s.mods, code).1.Nothing?
            case _ => t == s.running && s.terms[t].stack != []
  {
    StepTerm(img, s, e, t);
    hide Step, Putc, PutAll, Decode;
    ActNone(s.terms[t]);
  }

  // ---------------------------------------------------------------- clock and shells

  function Ticks(es: seq<Event>): nat {
    if es == [] then 0 else (if es[0].Tick? then 1 else 0) + Ticks(es[1..])
  }

  /** After n ticks from power-on the running terminal is n mod 3, whatever else happens. */
  lemma {:induction false} ClockRotates(img: Image, s: Sys, es: seq<Event>)
    requires Smooth(img, s, es) && s.running == s.ticks % TERM_NUM
    ensures Run(img, s, es).ticks == s.ticks + Ticks(es)
    ensures Run(img, s, es).running == (s.ticks + Ticks(es)) % TERM_NUM
    decreases es
  {
    hide Step;
    if es != [] {
      StepClock(img, s, es[0]);
      ClockRotates(img, Step(img, s, es[0]), es[1..]);
    }
  }

  lemma StepClock(img: Image, s: Sys, e: Event)
    requires s.running == s.ticks % TERM_NUM
    ensures var next := Step(img, s, e);
            next.running == next.ticks % TERM_NUM && next.ticks == s.ticks + if e.Tick? then 1 else 0
  {
    StepTime(img, s, e);
    hide *;
    NextIsMod(s.ticks);
  }

  lemma StepTime(img: Image, s: Sys, e: Event)
    ensures var next := Step(img, s, e);
            next.ticks == (if e.Tick? then s.ticks + 1 else s.ticks)
            && next.running == if e.Tick? then Next(s.running) else s.running
  {
    hide ActAll, Effect, Answer, Decode, Next;
  }

  lemma NextIsMod(n: nat)
    ensures Next(n % TERM_NUM) == (n + 1) % TERM_NUM
  {
  }

  /** A terminal has a process only once the clock has come to it. */
  predicate Launched(s: Sys) {
    forall t :: 0 <= t < TERM_NUM && s.terms[t].stack != [] ==> s.ticks >= if t == 0 then 3 else t
  }

  lemma StepLaunched(img: Image, s: Sys, e: Event)
    requires Launched(s) && s.running == s.ticks % TERM_NUM && !Stuck(s, e)
    ensures Launched(Step(img, s, e))
  {
    hide Step, Answer, Effect, Launched;
    StepTime(img, s, e);
    OthersStay(img, s, e);
    if !e.Tick? && s.terms[Target(s, e)].stack == [] {
      EmptyStays(img, s, e);
    }
    hide Stuck, Target;
    NextIsMod(s.ticks);
    StillLaunched(s, Step(img, s, e), e);
  }

  lemma StillLaunched(s: Sys, next: Sys, e: Event)
    requires Launched(s) && s.running == s.ticks % TERM_NUM && Next(s.running) == (s.ticks + 1) % TERM_NUM
    requires next.ticks == if e.Tick? then s.ticks + 1 else s.ticks
    requires forall u :: 0 <= u < TERM_NUM && u != Target(s, e) ==> next.terms[u] == s.terms[u]
    requires !e.Tick? && s.terms[Target(s, e)].stack == [] ==> next.terms[Target(s, e)].stack == []
    ensures Launched(next)
  {
  }

  /** Only a tick gives a terminal its first process. */
  lemma EmptyStays(img: Image, s: Sys, e: Event)
    requires !e.Tick? && s.terms[Target(s, e)].stack == []
    ensures Step(img, s, e).terms[Target(s, e)].stack == []
  {
    var t := Target(s, e);
    StepTerm(img, s, e, t);
    ActNone(s.terms[t]);
    if e.Key? {
      KeyEffect(img, s, e.code);
      hide Step, Effect, Decode, ActAll;
      SurfaceKeepsStack(s.terms[t], Effect(img, s, e));
    }
  }

  /** The place of the m-th tick. */
  function TickIndex(es: seq<Event>, m: nat): (i: nat)
    requires 1 <= m <= Ticks(es)
    ensures i < |es| && es[i] == Tick && Ticks(es[..i]) == m - 1
  {
    if es[0].Tick? && m == 1 then 0
    else
      var i := TickIndex(es[1..], if es[0].Tick? then m - 1 else m);
      assert es[..i + 1][1..] == es[1..][..i];
      i + 1
  }

  lemma {:induction false} SmoothPrefix(img: Image, s: Sys, es: seq<Event>, n: nat)
    requires Smooth(img, s, es) && n <= |es|
    ensures Smooth(img, s, es[..n])
    ensures n < |es| ==> !Stuck(Run(img, s, es[..n]), es[n])
    decreases es
  {
    hide Step, Stuck;
    if n > 0 {
      assert es[..n][1..] == es[1..][..n - 1];
      SmoothPrefix(img, Step(img, s, es[0]), es[1..], n - 1);
    }
  }

  lemma {:induction false} LaunchedForever(img: Image, s: Sys, es: seq<Event>)
    requires Launched(s) && s.running == s.ticks % TERM_NUM && Smooth(img, s, es)
    ensures Launched(Run(img, s, es))
    decreases es
  {
    hide Step, Stuck, Launched;
    if es != [] {
      StepLaunched(img, s, es[0]);
      StepClock(img, s, es[0]);
      LaunchedForever(img, Step(img, s, es[0]), es[1..]);
    }
  }

  /**
   A tick that resumes a process gives it back the frame that `schedule` saved for it: the frame names an earlier tick,
   and the terminal that lost the processor then is the one that gets it now.
   */
  lemma TickReturnsToItsSave(img: Image, s: Sys, es: seq<Event>, j: nat) returns (i: nat)
    requires Boot(s) && Smooth(img, s, es) && j < |es| && es[j] == Tick
    requires Answer(img, Run(img, s, es[..j]), Tick).Resumed?
    ensures i < j && es[i] == Tick
    ensures Answer(img, Run(img, s, es[..j]), Tick) == Resumed(SavedBySchedule(Ticks(es[..i]) + 1), 0)
    ensures Run(img, s, es[..i]).running == Run(img, s, es[..j + 1]).running
  {
    hide Step, Stuck, Smooth, Launched, Answer, Run, Ticks;
    var before, now := es[..j], Run(img, s, es[..j]);
    assert Launched(s) by {
      NoneLaunched(s);
    }
    SmoothPrefix(img, s, es, j);
    LaunchedForever(img, s, before);
    ClockRotates(img, s, before);
    TickEffect(img, now);
    TwoTicksBefore(now);
    i := TickIndex(before, Ticks(before) - 1);
    assert before[..i] == es[..i];
    SmoothPrefix(img, s, es, i);
    ClockRotates(img, s, es[..i]);
    SmoothPrefix(img, s, es, j + 1);
    ClockRotates(img, s, es[..j + 1]);
    TicksSnoc(before, Tick);
    assert es[..j + 1] == before + [Tick];
  }

  lemma NoneLaunched(s: Sys)
    requires Boot(s)
    ensures Launched(s)
  {
  }

  lemma TwoTicksBefore(s: Sys)
    requires Launched(s) && s.running == s.ticks % TERM_NUM && s.terms[Next(s.running)].stack != []
    ensures s.ticks >= 2
  {
  }

  lemma {:induction false} TicksSnoc(es: seq<Event>, e: Event)
    ensures Ticks(es + [e]) == Ticks(es) + if e.Tick? then 1 else 0
  {
    if es == [] {
      assert [e][1..] == [] && es + [e] == [e];
    } else {
      assert (es + [e])[1..] == es[1..] + [e];
      TicksSnoc(es[1..], e);
    }
  }

  predicate AllAlive(s: Sys) {
    forall t :: 0 <= t < TERM_NUM ==> s.terms[t].stack != []
  }

  /** How one action changes the number of processes of a terminal. */
  function Growth(a: Action): int {
    match a case Push(_) => 1 case Pop => -1 case _ => 0
  }

  lemma ActGrowth(t: Term, a: Action)
    ensures |Act(t, a).stack| == if a.Pop? && t.stack == [] then 0 else |t.stack| + Growth(a)
  {
    hide Putc, PutAll;
  }

  /** A step adds at most one process, only while a slot is free, and never takes a terminal's last one. */
  lemma StepGrowth(img: Image, s: Sys, e: Event)
    requires !Stuck(s, e)
    ensures var t := Target(s, e);
            var was, now := |s.terms[t].stack|, |Step(img, s, e).terms[t].stack|;
            && (was > 0 ==> now > 0)
            && was - 1 <= now <= was + 1
            && (now > was ==> Live(s) < MAX_NUM_PROCESS && Answer(img, s, e) == Started(s.calls))
  {
    var t := Target(s, e);
    StepTerm(img, s, e, t);
    var fx := Effect(img, s, e);
    EffectShape(img, s, e);
    hide Step, Effect, Answer, Act;
    if |fx| == 0 {
      ActNone(s.terms[t]);
    } else if |fx| == 1 {
      ActOne(s.terms[t], fx[0]);
      ActGrowth(s.terms[t], fx[0]);
    } else {
      ActTwo(s.terms[t], fx[0], fx[1]);
      ActGrowth(s.terms[t], fx[0]);
      ActGrowth(Act(s.terms[t], fx[0]), fx[1]);
    }
  }

  lemma EffectShape(img: Image, s: Sys, e: Event)
    requires !Stuck(s, e)
    ensures var fx := Effect(img, s, e);
            && |fx| <= 2
            && (|fx| == 1 ==> fx == [fx[0]])
            && (|fx| == 2 ==> fx == [fx[0], fx[1]] && fx[0].Print?)
            && forall i :: 0 <= i < |fx| ==>
                 && (fx[i].Pop? ==> |s.terms[Target(s, e)].stack| >= 2)
                 && (fx[i].Push? ==> Live(s) < MAX_NUM_PROCESS && Answer(img, s, e) == Started(s.calls))
  {
    hide Decode, MovesTo, FileReply, FindFirst, Str, LowestFree;
  }

  lemma OthersStay(img: Image, s: Sys, e: Event)
    ensures forall u :: 0 <= u < TERM_NUM && u != Target(s, e) ==> Step(img, s, e).terms[u] == s.terms[u]
    ensures Step(img, s, e).calls == s.calls + if Answer(img, s, e).Started? then 1 else 0
  {
    hide ActAll, Effect, Answer, Decode;
  }

  /** There are never more than six processes. */
  lemma {:induction false} AtMostSix(img: Image, s: Sys, es: seq<Event>)
    requires Live(s) <= 6
    ensures Live(Run(img, s, es)) <= 6
    decreases es
  {
    hide Step, Answer;
    if es != [] && !Stuck(s, es[0]) {
      StepGrowth(img, s, es[0]);
      OthersStay(img, s, es[0]);
      AtMostSix(img, Step(img, s, es[0]), es[1..]);
    }
  }

  /** Once every terminal has a shell, every terminal always has one, and no tick can get stuck. */
  lemma {:induction false} ShellsForever(img: Image, s: Sys, es: seq<Event>)
    requires AllAlive(s)
    ensures Smooth(img, s, es) && AllAlive(Run(img, s, es))
    decreases es
  {
    hide Step, Answer;
    if es != [] {
      assert !Stuck(s, es[0]);
      StepGrowth(img, s, es[0]);
      OthersStay(img, s, es[0]);
      ShellsForever(img, Step(img, s, es[0]), es[1..]);
    }
  }

  /** Three ticks from power-on give every terminal its shell. */
  lemma ThreeTicksBoot(img: Image, s: Sys)
    requires Boot(s)
    ensures AllAlive(Run(img, s, [Tick, Tick, Tick])) && Smooth(img, s, [Tick, Tick, Tick])
  {
    hide Step;
    var es := [Tick, Tick, Tick];
    assert es[1..] == [Tick, Tick] && es[1..][1..] == [Tick] && es[1..][1..][1..] == [];
    var s1 := Step(img, s, Tick);
    var s2 := Step(img, s1, Tick);
    LaunchTick(img, s);
    LaunchTick(img, s1);
    LaunchTick(img, s2);
  }

  lemma LaunchTick(img: Image, s: Sys)
    requires s.terms[Next(s.running)].stack == []
    ensures var t, next := Next(s.running), Step(img, s, Tick);
            && next.running == t && |next.terms[t].stack| == 1
            && forall u :: 0 <= u < TERM_NUM && u != t ==> next.terms[u] == s.terms[u]
  {
    var t := Next(s.running);
    StepTerm(img, s, Tick, t);
    TickEffect(img, s);
    ActTwo(s.terms[t], Print(Banner(t)), Push(s.calls));
    hide Effect, Answer, PutAll, ActAll;
  }

  lemma SpawnStep(img: Image, s: Sys)
    requires s.terms[s.running].stack != [] && Live(s) < MAX_NUM_PROCESS
    ensures var t, next := s.running, Step(img, s, Execute(Loadable));
            && next.running == t && |next.terms[t].stack| == |s.terms[t].stack| + 1
            && forall u :: 0 <= u < TERM_NUM && u != t ==> next.terms[u] == s.terms[u]
  {
    StepTerm(img, s, Execute(Loadable), s.running);
    ActOne(s.terms[s.running], Push(s.calls));
    hide ActAll;
  }

  function Times(e: Event, n: nat): (es: seq<Event>)
    ensures |es| == n
  {
    if n == 0 then [] else [e] + Times(e, n - 1)
  }

  lemma {:induction false} SpawnMany(img: Image, s: Sys, n: nat, rest: seq<Event>) returns (next: Sys)
    requires s.terms[s.running].stack != [] && Live(s) + n <= MAX_NUM_PROCESS
    ensures Smooth(img, s, Times(Execute(Loadable), n) + rest) == Smooth(img, next, rest)
    ensures next.running == s.running && Live(next) == Live(s) + n
    ensures forall u :: 0 <= u < TERM_NUM && u != s.running ==> next.terms[u] == s.terms[u]
    decreases n
  {
    hide Step, Smooth;
    var es := Times(Execute(Loadable), n) + rest;
    if n == 0 {
      assert es == rest;
      next := s;
    } else {
      assert es[0] == Execute(Loadable) && es[1..] == Times(Execute(Loadable), n - 1) + rest;
      SpawnStep(img, s);
      SmoothCons(img, s, es);
      hide Times;
      next := SpawnMany(img, Step(img, s, es[0]), n - 1, rest);
    }
  }

  lemma SmoothCons(img: Image, s: Sys, es: seq<Event>)
    requires es != [] && !es[0].Tick?
    ensures Smooth(img, s, es) == Smooth(img, Step(img, s, es[0]), es[1..])
  {
    hide Step;
  }

  /**
   The guard on launching shells is needed: if the first terminal fills the table before the second tick,
   that tick has no slot left for the next terminal's shell.
   */
  lemma TableCanFillBeforeShells(img: Image, s: Sys)
    requires Boot(s)
    ensures !Smooth(img, s, [Tick] + (Times(Execute(Loadable), 5) + [Tick]))
  {
    var rest := Times(Execute(Loadable), 5) + [Tick];
    assert ([Tick] + rest)[1..] == rest;
    LaunchTick(img, s);
    var s1 := Step(img, s, Tick);
    hide Step;
    var full := SpawnMany(img, s1, 5, [Tick]);
    assert Stuck(full, Tick);
  }

  // ---------------------------------------------------------------- calls and returns

  /** What a log says of an event: the terminal it addressed, the event and its reply. */
  datatype Entry = Entry(target: nat, event: Event, reply: Reply)

  function Log(img: Image, s: Sys, es: seq<Event>): seq<Entry>
    decreases es
  {
    if es == [] || Stuck(s, es[0]) then []
    else [Entry(Target(s, es[0]), es[0], Answer(img, s, es[0]))] + Log(img, Step(img, s, es[0]), es[1..])
  }

  /** The k-th entry is about the k-th event and its reply. */
  lemma {:induction false} LogIsReplies(img: Image, s: Sys, es: seq<Event>)
    ensures |Log(img, s, es)| == |Replies(img, s, es)|
    ensures forall k :: 0 <= k < |Log(img, s, es)| ==>
              Log(img, s, es)[k].event == es[k] && Log(img, s, es)[k].reply == Replies(img, s, es)[k]
    decreases es
  {
    hide Step, Answer;
    if es != [] && !Stuck(s, es[0]) {
      LogIsReplies(img, Step(img, s, es[0]), es[1..]);
    }
  }

  /** The log entry of the `execute` call that started a process. */
  function CallEntry(t: nat, call: nat): Entry {
    Entry(t, Execute(Loadable), Started(call))
  }

  /** Every process above a base shell was started, in its own terminal, by a logged `execute` call. */
  ghost predicate Accounted(s: Sys, past: seq<Entry>) {
    forall t, k :: 0 <= t < TERM_NUM && 1 <= k < |s.terms[t].stack| ==> CallEntry(t, s.terms[t].stack[k].call) in past
  }

  /** The reply hands control and a status back to an `execute` call. */
  predicate Returns(r: Reply) {
    r.Resumed? && r.frame.SavedByExecute?
  }

  /** What an action does to a terminal's list of call numbers. */
  function Calls(stack: seq<Proc>): (r: seq<nat>)
    ensures |r| == |stack| && forall k :: 0 <= k < |stack| ==> r[k] == stack[k].call
  {
    seq(|stack|, k requires 0 <= k < |stack| => stack[k].call)
  }

  function CallsAfter(calls: seq<nat>, a: Action): seq<nat> {
    match a
    case Push(call) => calls + [call]
    case Pop => if calls == [] then [] else calls[..|calls| - 1]
    case Replace(call) => if calls == [] then [] else calls[..|calls| - 1] + [call]
    case _ => calls
  }

  lemma ActCalls(t: Term, a: Action)
    ensures Calls(Act(t, a).stack) == CallsAfter(Calls(t.stack), a)
  {
    hide Putc, PutAll;
  }

  /** The call numbers of the addressed terminal after a step, in terms of the reply. */
  lemma StepCalls(img: Image, s: Sys, e: Event)
    requires !Stuck(s, e)
    ensures var t, r := Target(s, e), Answer(img, s, e);
            var was, now := Calls(s.terms[t].stack), Calls(Step(img, s, e).terms[t].stack);
            if r.Started? then
              && r.call == s.calls && (e.Halt? || e.Exception? ==> |was| == 1)
              && (e.Halt? || e.Exception? || was == [] || e == Execute(Loadable))
              && now == if e.Halt? || e.Exception? then [s.calls] else was + [s.calls]
            else if Returns(r) then
              |was| >= 2 && r.frame.call == was[|was| - 1] && now == was[..|was| - 1] && StatusOk(e, r.value)
            else now == was
    ensures forall u :: 0 <= u < TERM_NUM && u != Target(s, e) ==> Step(img, s, e).terms[u] == s.terms[u]
    ensures Step(img, s, e).calls == s.calls + if Answer(img, s, e).Started? then 1 else 0
  {
    hide Step, Effect, Answer, Act, ActAll;
    var t, fx := Target(s, e), Effect(img, s, e);
    StepTerm(img, s, e, t);
    OthersStay(img, s, e);
    CallEffect(img, s, e);
    EffectShape(img, s, e);
    ActionsCalls(s.terms[t], fx);
  }

  lemma ActionsCalls(t: Term, fx: seq<Action>)
    requires |fx| <= 2 && (|fx| == 2 ==> fx[0].Print?)
    ensures Calls(ActAll(t, fx).stack) == if fx == [] then Calls(t.stack) else CallsAfter(Calls(t.stack), fx[|fx| - 1])
  {
    hide Act;
    if |fx| == 1 {
      assert fx == [fx[0]];
      ActOne(t, fx[0]);
      ActCalls(t, fx[0]);
    } else if |fx| == 2 {
      assert fx == [fx[0], fx[1]];
      ActTwo(t, fx[0], fx[1]);
      ActCalls(t, fx[0]);
      ActCalls(Act(t, fx[0]), fx[1]);
    }
  }

  /** The value a halting event hands to the parent's `execute` call. */
  predicate StatusOk(e: Event, value: int) {
    (e.Halt? && value == if e.status == 255 then 256 else e.status) || (e.Exception? && value == 256)
  }

  /** Which events start or end a process, and what they reply. */
  lemma CallEffect(img: Image, s: Sys, e: Event)
    requires !Stuck(s, e)
    ensures var fx, r := Effect(img, s, e), Answer(img, s, e);
            var stack := s.terms[Target(s, e)].stack;
            if r.Started? then
              && r.call == s.calls && fx != [] && fx[0].Print? == (|fx| == 2)
              && fx[|fx| - 1] == (if e.Halt? || e.Exception? then Replace(s.calls) else Push(s.calls))
              && (e.Halt? || e.Exception? ==> |stack| == 1)
              && (e.Halt? || e.Exception? || stack == [] || e == Execute(Loadable))
            else if Returns(r) then
              && |stack| >= 2 && r.frame.call == Top(stack).call && StatusOk(e, r.value)
              && fx != [] && fx[|fx| - 1] == Pop && fx[0].Print? == (|fx| == 2)
            else forall i :: 0 <= i < |fx| ==> !fx[i].Push? && !fx[i].Pop? && !fx[i].Replace?
  {
    hide Decode, MovesTo, FileReply, FindFirst, Str, LowestFree;
  }

  lemma StepKeepsAccounts(img: Image, s: Sys, e: Event, past: seq<Entry>)
    requires !Stuck(s, e) && Accounted(s, past)
    ensures Accounted(Step(img, s, e), past + [Entry(Target(s, e), e, Answer(img, s, e))])
    ensures var t, r := Target(s, e), Answer(img, s, e);
            Returns(r) ==> CallEntry(t, r.frame.call) in past && StatusOk(e, r.value)
  {
    hide Step, Answer;
    StepCalls(img, s, e);
    var t, next := Target(s, e), Step(img, s, e);
    var was, now := Calls(s.terms[t].stack), Calls(next.terms[t].stack);
    forall u, k | 0 <= u < TERM_NUM && 1 <= k < |next.terms[u].stack|
      ensures CallEntry(u, next.terms[u].stack[k].call) in past + [Entry(t, e, Answer(img, s, e))]
    {
      if u == t {
        assert next.terms[u].stack[k].call == now[k];
        assert k < |was| ==> s.terms[t].stack[k].call == was[k];
      }
    }
    assert was != [] ==> s.terms[t].stack[|was| - 1].call == was[|was| - 1];
  }

  /**
   A halt with a parent returns, with its status, into the `execute` call that created the halting process:
   the reply names an `execute` event that was logged earlier in the run, in the same terminal.  `past` is what
   was logged before; at power-on it is empty.
   */
  lemma {:induction false} EveryReturnHasItsCall(img: Image, s: Sys, es: seq<Event>, past: seq<Entry>, j: nat)
    requires Accounted(s, past) && j < |Log(img, s, es)| && Returns(Log(img, s, es)[j].reply)
    ensures var entry := Log(img, s, es)[j];
            && CallEntry(entry.target, entry.reply.frame.call) in past + Log(img, s, es)[..j]
            && StatusOk(entry.event, entry.reply.value)
    decreases es
  {
    hide Step, Answer, Log, Accounted, StatusOk;
    LogCons(img, s, es);
    StepKeepsAccounts(img, s, es[0], past);
    var entry, next := Entry(Target(s, es[0]), es[0], Answer(img, s, es[0])), Step(img, s, es[0]);
    if j > 0 {
      var log := Log(img, next, es[1..]);
      EveryReturnHasItsCall(img, next, es[1..], past + [entry], j - 1);
      assert past + [entry] + log[..j - 1] == past + Log(img, s, es)[..j];
    }
  }

  lemma LogCons(img: Image, s: Sys, es: seq<Event>)
    requires Log(img, s, es) != []
    ensures es != [] && !Stuck(s, es[0])
    ensures Log(img, s, es) ==
            [Entry(Target(s, es[0]), es[0], Answer(img, s, es[0]))] + Log(img, Step(img, s, es[0]), es[1..])
  {
    hide Step, Answer;
  }

  /** The call numbers of all live processes, with multiplicity. */
  function Bag(s: Sys): multiset<nat> {
    multiset(Calls(s.terms[0].stack)) + multiset(Calls(s.terms[1].stack)) + multiset(Calls(s.terms[2].stack))
  }

  /** Live processes come from different calls, all of them numbered already. */
  ghost predicate Distinct(s: Sys) {
    forall c :: Bag(s)[c] <= 1 && (c in Bag(s) ==> c < s.calls)
  }

  /** No live process comes from call c, and no later one will. */
  ghost predicate Spent(s: Sys, c: nat) {
    c < s.calls && c !in Bag(s)
  }

  lemma BagUpdate(s: Sys, s': Sys, t: nat)
    requires t < TERM_NUM && forall u :: 0 <= u < TERM_NUM && u != t ==> s'.terms[u] == s.terms[u]
    ensures var was, now := multiset(Calls(s.terms[t].stack)), multiset(Calls(s'.terms[t].stack));
            forall c :: Bag(s')[c] == Bag(s)[c] - was[c] + now[c]
  {
  }

  lemma DropLast(calls: seq<nat>)
    requires calls != []
    ensures multiset(calls) == multiset(calls[..|calls| - 1]) + multiset{calls[|calls| - 1]}
  {
    assert calls == calls[..|calls| - 1] + [calls[|calls| - 1]];
  }

  lemma StepBag(img: Image, s: Sys, e: Event)
    requires !Stuck(s, e)
    ensures var next, r := Step(img, s, e), Answer(img, s, e);
            if r.Started? then
              && r.call == s.calls && next.calls == s.calls + 1
              && forall c :: Bag(next)[c] <= Bag(s)[c] + if c == s.calls then 1 else 0
            else if Returns(r) then
              next.calls == s.calls && forall c :: Bag(next)[c] == Bag(s)[c] - if c == r.frame.call then 1 else 0
            else next.calls == s.calls && forall c :: Bag(next)[c] == Bag(s)[c]
  {
    hide Step, Answer, Bag;
    StepCalls(img, s, e);
    var t, next, r := Target(s, e), Step(img, s, e), Answer(img, s, e);
    BagUpdate(s, next, t);
    var was, now := Calls(s.terms[t].stack), Calls(next.terms[t].stack);
    hide Calls;
    if Returns(r) {
      DropLast(was);
    } else if r.Started? && (e.Halt? || e.Exception?) {
      assert multiset(now) == multiset{s.calls};
    }
  }

  lemma ReturnSpendsTheCall(img: Image, s: Sys, e: Event)
    requires !Stuck(s, e) && Distinct(s)
    ensures Distinct(Step(img, s, e))
    ensures var r := Answer(img, s, e);
            Returns(r) ==> Spent(Step(img, s, e), r.frame.call)
  {
    hide Step, Answer, Bag;
    StepBag(img, s, e);
    var next := Step(img, s, e);
    assert Bag(s)[s.calls] == 0;
    forall c
      ensures Bag(next)[c] <= 1 && (c in Bag(next) ==> c < next.calls)
    {
      assert Bag(s)[c] <= 1 && (c in Bag(s) ==> c < s.calls);
    }
    var r := Answer(img, s, e);
    if Returns(r) {
      var c := r.frame.call;
      assert Bag(s)[c] <= 1 && (c in Bag(s) ==> c < s.calls) && Bag(next)[c] == Bag(s)[c] - 1;
    }
  }

  lemma SpentStaysSpent(img: Image, s: Sys, e: Event, c: nat)
    requires !Stuck(s, e) && Spent(s, c)
    ensures Spent(Step(img, s, e), c)
    ensures var r := Answer(img, s, e); !(r.Resumed? && r.frame == SavedByExecute(c))
  {
    hide Step, Answer, Bag;
    StepBag(img, s, e);
  }

  /** A call that has returned never returns again. */
  lemma {:induction false} SpentNeverReturns(img: Image, s: Sys, es: seq<Event>, c: nat, j: nat)
    requires Spent(s, c) && j < |Log(img, s, es)|
    ensures var r := Log(img, s, es)[j].reply; !(r.Resumed? && r.frame == SavedByExecute(c))
    decreases es
  {
    hide Step, Answer, Log, Spent;
    LogCons(img, s, es);
    SpentStaysSpent(img, s, es[0], c);
    if j > 0 {
      SpentNeverReturns(img, Step(img, s, es[0]), es[1..], c, j - 1);
    }
  }

  /** Every `execute` call returns at most once in a run. */
  lemma {:induction false} NoCallReturnsTwice(img: Image, s: Sys, es: seq<Event>, i: nat, j: nat)
    requires Distinct(s) && i < j < |Log(img, s, es)| && Returns(Log(img, s, es)[i].reply)
    ensures var r, q := Log(img, s, es)[i].reply, Log(img, s, es)[j].reply; !(q.Resumed? && q.frame == r.frame)
    decreases es
  {
    hide Step, Answer, Log, Distinct, Spent;
    LogCons(img, s, es);
    ReturnSpendsTheCall(img, s, es[0]);
    var next := Step(img, s, es[0]);
    if i == 0 {
      SpentNeverReturns(img, next, es[1..], Log(img, s, es)[0].reply.frame.call, j - 1);
    } else {
      NoCallReturnsTwice(img, next, es[1..], i - 1, j - 1);
    }
  }

  lemma NothingToAccountAtBoot(s: Sys)
    requires Boot(s)
    ensures Accounted(s, []) && Distinct(s) && !AllAlive(s) && Live(s) == 0
  {
    assert Calls(s.terms[0].stack) == [] && Calls(s.terms[1].stack) == [] && Calls(s.terms[2].stack) == [];
    assert s.terms[0].stack == [];
  }

  /**
   Calls and returns in the replies of a run: every return is preceded by the `execute` event it returns into
   and carries the status of the halt, and no call is returned into twice.
   */
  ghost predicate Matched(es: seq<Event>, replies: seq<Reply>)
    requires |replies| <= |es|
  {
    forall j :: 0 <= j < |replies| && Returns(replies[j]) ==>
      && StatusOk(es[j], replies[j].value)
      && (exists i :: 0 <= i < j && es[i] == Execute(Loadable) && replies[i] == Started(replies[j].frame.call))
      && forall i :: 0 <= i < j && replies[i].Resumed? ==> replies[i].frame != replies[j].frame
  }

  /** From power-on, calls and returns match in every run. */
  lemma CallsAndReturnsMatch(img: Image, s: Sys, es: seq<Event>)
    requires Boot(s)
    ensures Matched(es, Replies(img, s, es))
  {
    hide Log, Replies, Accounted, Distinct, StatusOk, Boot;
    LogIsReplies(img, s, es);
    NothingToAccountAtBoot(s);
    var log, replies := Log(img, s, es), Replies(img, s, es);
    forall j | 0 <= j < |replies| && Returns(replies[j])
      ensures StatusOk(es[j], replies[j].value)
      ensures exists i :: 0 <= i < j && es[i] == Execute(Loadable) && replies[i] == Started(replies[j].frame.call)
      ensures forall i :: 0 <= i < j && replies[i].Resumed? ==> replies[i].frame != replies[j].frame
    {
      assert log[j].reply == replies[j];
      EveryReturnHasItsCall(img, s, es, [], j);
      assert [] + log[..j] == log[..j];
      var i :| 0 <= i < j && log[..j][i] == CallEntry(log[j].target, replies[j].frame.call);
      assert log[i].event == es[i] && log[i].reply == replies[i];
      forall i | 0 <= i < j && replies[i].Resumed?
        ensures replies[i].frame != replies[j].frame
      {
        assert log[i].reply == replies[i];
        if replies[i].frame == replies[j].frame {
          NoCallReturnsTwice(img, s, es, i, j);
        }
      }
    }
  }

  /** Live processes come from different calls after every run. */
  lemma {:induction false} DistinctForever(img: Image, s: Sys, es: seq<Event>)
    requires Distinct(s)
    ensures Distinct(Run(img, s, es))
    decreases es
  {
    hide Step, Answer, Distinct;
    if es != [] && !Stuck(s, es[0]) {
      ReturnSpendsTheCall(img, s, es[0]);
      DistinctForever(img, Step(img, s, es[0]), es[1..]);
    }
  }
}
