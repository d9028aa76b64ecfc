/** Power-on and any sequence of events: the theorems about three terminals, stated of the kernel's globals. */
module KernelRuns {
  import opened Bytes
  import opened Screen
  import opened FileSystem
  import opened Terminals
  import opened TerminalRuns
  import opened LineRuns
  import opened FileRuns
  import opened Processes
  import opened KernelState

  /**
   From power-on, after any events: the invariant holds, each terminal is the fold of the actions addressed
   to it, its pending line is the fold of its own keys, at most six processes live, the clock has rotated, and
   in the kernel's replies every return has its `execute` call and no call returns twice.
   */
  method PowerOnAndRun(
      img: Image, memory: seq<Pcb>, p0: array<byte>, p1: array<byte>, p2: array<byte>, p3: array<byte>,
      es: seq<Event>)
    returns (k: Kernel, replies: seq<Reply>, ghost boot: Sys)
    requires |memory| == MAX_NUM_PROCESS
    requires p0.Length == p1.Length == p2.Length == p3.Length == PAGE_SIZE
    requires p0 != p1 && p0 != p2 && p0 != p3 && p1 != p2 && p1 != p3 && p2 != p3
    modifies p0, p1, p2, p3
    ensures k.Valid() && k.image == img && fresh(k) && k.pages == [p0, p1, p2, p3]
    ensures Boot(boot) && k.Abs() == Run(img, boot, es) && replies == Replies(img, boot, es)
    ensures forall t :: 0 <= t < TERM_NUM ==> k.TermOf(t) == ActAll(boot.terms[t], Project(Trace(img, boot, es), t))
    ensures forall t :: 0 <= t < TERM_NUM ==>
              Pending(k.EditorOf(t)) == EditedAll([], Project(Trace(img, boot, es), t))
    ensures Live(k.Abs()) <= MAX_NUM_PROCESS && Distinct(k.Abs())
    ensures Smooth(img, boot, es) ==> k.running == Ticks(es) % TERM_NUM
    ensures Matched(es, replies)
  {
    hide Trace, Project, ActAll, EditedAll, Run, Replies, Smooth, Matched, Distinct;
    k := new Kernel(img, memory, p0, p1, p2, p3);
    boot := k.Abs();
    replies := k.Run(es);
    forall t | 0 <= t < TERM_NUM
      ensures k.TermOf(t) == ActAll(boot.terms[t], Project(Trace(img, boot, es), t))
      ensures Pending(k.EditorOf(t)) == EditedAll([], Project(Trace(img, boot, es), t))
    {
      TerminalsAreIndependent(img, boot, es, t);
      PendingLineIsFold(img, boot, es, t);
      assert Pending(boot.terms[t].editor) == [] && k.TermOf(t).editor == k.EditorOf(t);
    }
    RunFacts(img, boot, es);
  }

  lemma RunFacts(img: Image, boot: Sys, es: seq<Event>)
    requires Boot(boot)
    ensures Live(Run(img, boot, es)) <= MAX_NUM_PROCESS && Distinct(Run(img, boot, es))
    ensures Smooth(img, boot, es) ==> Run(img, boot, es).running == Ticks(es) % TERM_NUM
    ensures Matched(es, Replies(img, boot, es))
  {
    hide Run, Replies, Smooth, Matched, Distinct;
    NothingToAccountAtBoot(boot);
    AtMostSix(img, boot, es);
    DistinctForever(img, boot, es);
    CallsAndReturnsMatch(img, boot, es);
    if Smooth(img, boot, es) {
      ClockRotates(img, boot, es);
    }
  }

  /**
   A kernel that goes on running with a file open: as long as its process lives and keeps it open, the
   descriptor moves by what the kernel's own replies delivered, and these are the file's bytes, or the directory's
   names, in order.
   */
  method RunWithOpenFile(k: Kernel, es: seq<Event>, ghost t: nat, ghost i: nat, ghost c: nat, ghost fd: nat)
    returns (replies: seq<Reply>)
    requires k.Valid() && Distinct(k.Abs()) && OpenAt(k.Abs(), t, i, fd) && Keeps(k.image, k.Abs(), es, t, i, c, fd)
    modifies k, k.pages
    ensures k.Valid() && k.Abs() == Run(k.image, old(k.Abs()), es) && replies == Replies(k.image, old(k.Abs()), es)
    ensures Followed(k.image, old(k.Abs()), k.Abs(), Received(k.image, old(k.Abs()), es, t, i, fd),
                     ReadReplies(k.image, old(k.Abs()), es, t, i, fd), t, i, fd)
  {
    hide Run, Replies, Distinct, Keeps, Received, ReadReplies, OpenAt, Followed;
    ghost var s := k.Abs();
    replies := k.Run(es);
    RunFollowsFile(k.image, s, es, t, i, c, fd);
  }
}
