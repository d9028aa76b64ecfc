/** Open files over whole runs: a position moves with the reads of its own process, and with nothing else. */
module FileRuns {
  import opened Bytes
  import opened Screen
  import opened FileSystem
  import opened Keyboard
  import opened Terminals
  import opened TerminalRuns

  /** Place (t, i) holds the process of call c. */
  predicate At(s: Sys, t: nat, i: nat, c: nat) {
    t < TERM_NUM && i < |s.terms[t].stack| && s.terms[t].stack[i].call == c
  }

  /** The process at place (t, i) is the one that makes system calls now. */
  predicate Current(s: Sys, t: nat, i: nat) {
    t == s.running && t < TERM_NUM && i + 1 == |s.terms[t].stack|
  }

  function FileOf(s: Sys, t: nat, i: nat, fd: nat): Option<OpenFile>
    requires t < TERM_NUM && i < |s.terms[t].stack| && fd < 8
  {
    s.terms[t].stack[i].fds[fd]
  }

  /** An action changes an open file only if it is SetFile for that descriptor on the top process. */
  lemma ActFiles(t: Term, a: Action, i: nat, fd: nat)
    requires i < |t.stack| && i < |Act(t, a).stack| && fd < 8
    requires !(a.Replace? && i + 1 == |t.stack|)
    ensures Act(t, a).stack[i].call == t.stack[i].call
    ensures Act(t, a).stack[i].fds[fd] ==
            if a.SetFile? && a.fd == fd && i + 1 == |t.stack| then a.file else t.stack[i].fds[fd]
  {
    hide Putc, PutAll;
  }

  lemma StepFiles(img: Image, s: Sys, e: Event, t: nat, i: nat, c: nat, fd: nat)
    requires !Stuck(s, e) && Distinct(s) && At(s, t, i, c) && At(Step(img, s, e), t, i, c) && fd < 8
    ensures var fx := Effect(img, s, e);
            FileOf(Step(img, s, e), t, i, fd) ==
            if Current(s, t, i) && !e.Tick? && !e.Key? && |fx| == 1 && fx[0].SetFile? && fx[0].fd == fd then fx[0].file
            else FileOf(s, t, i, fd)
  {
    StepTerm(img, s, e, t);
    var me, fx := s.terms[t], if t == Target(s, e) then Effect(img, s, e) else [];
    EffectShape(img, s, e);
    FileEffect(img, s, e);
    CallIsOld(s, t, i);
    hide Step, Effect, Answer, Act, Decode, Distinct;
    if |fx| == 0 {
      ActNone(me);
    } else if |fx| == 1 {
      ActOne(me, fx[0]);
      ReplacedIsNew(me, fx[0]);
      ActFiles(me, fx[0], i, fd);
    } else {
      ActTwo(me, fx[0], fx[1]);
      var mid := Act(me, fx[0]);
      ActFiles(me, fx[0], i, fd);
      ReplacedIsNew(mid, fx[1]);
      ActFiles(mid, fx[1], i, fd);
    }
  }

  lemma ReplacedIsNew(t: Term, a: Action)
    ensures a.Print? ==> Act(t, a).stack == t.stack
    ensures a.Replace? && t.stack != [] ==> |Act(t, a).stack| == |t.stack| && Top(Act(t, a).stack).call == a.call
  {
    hide Putc, PutAll;
  }

  lemma CallIsOld(s: Sys, t: nat, i: nat)
    requires Distinct(s) && t < TERM_NUM && i < |s.terms[t].stack|
    ensures s.terms[t].stack[i].call < s.calls
  {
    assert Calls(s.terms[t].stack)[i] in Bag(s);
  }

  lemma FileEffect(img: Image, s: Sys, e: Event)
    requires !Stuck(s, e)
    ensures var fx := Effect(img, s, e);
            && (|fx| == 2 ==> fx[0].Print? && !fx[1].SetFile?)
            && forall k :: 0 <= k < |fx| ==>
                 && (fx[k].Replace? ==> fx[k].call == s.calls && |s.terms[Target(s, e)].stack| == 1)
                 && (fx[k].SetFile? ==> !e.Tick? && !e.Key? && Target(s, e) == s.running)
  {
    hide Decode, MovesTo, FileReply, FindFirst, Str, LowestFree;
  }

  /** What one event delivers to the process at (t, i) through descriptor fd. */
  function ReceivedNow(img: Image, s: Sys, e: Event, t: nat, i: nat, fd: nat): seq<byte> {
    var r := Answer(img, s, e);
    if Current(s, t, i) && e.Read? && e.fd == fd && r.Data? then r.bytes else []
  }

  /** The bytes that the process at (t, i) reads through descriptor fd in the course of a run, in order. */
  function Received(img: Image, s: Sys, es: seq<Event>, t: nat, i: nat, fd: nat): seq<byte>
    decreases es
  {
    if es == [] || Stuck(s, es[0]) then []
    else ReceivedNow(img, s, es[0], t, i, fd) + Received(img, Step(img, s, es[0]), es[1..], t, i, fd)
  }

  /** The process at (t, i) gets a negative count: it asked for one, and its position went back by as much. */
  predicate StepsBack(img: Image, s: Sys, e: Event, t: nat, i: nat, fd: nat) {
    Current(s, t, i) && e.Read? && e.fd == fd && Answer(img, s, e).Value? && Answer(img, s, e).value < -1
  }

  /** Process c stays at place (t, i) for the whole run, does not close fd and does not step back in it. */
  ghost predicate Keeps(img: Image, s: Sys, es: seq<Event>, t: nat, i: nat, c: nat, fd: nat)
    decreases es
  {
    && At(s, t, i, c)
    && (|| es == [] || Stuck(s, es[0])
        || (&& !(Current(s, t, i) && es[0] == Close(fd)) && !StepsBack(img, s, es[0], t, i, fd)
            && Keeps(img, Step(img, s, es[0]), es[1..], t, i, c, fd)))
  }

  /** How many reads the process at (t, i) makes through descriptor fd. */
  function OwnReads(img: Image, s: Sys, es: seq<Event>, t: nat, i: nat, fd: nat): nat
    decreases es
  {
    if es == [] || Stuck(s, es[0]) then 0
    else
      (if Current(s, t, i) && es[0].Read? && es[0].fd == fd then 1 else 0)
      + OwnReads(img, Step(img, s, es[0]), es[1..], t, i, fd)
  }

  /** Descriptor fd of the process at (t, i) is open on a regular file or on the directory. */
  predicate OpenAt(s: Sys, t: nat, i: nat, fd: nat) {
    && t < TERM_NUM && i < |s.terms[t].stack| && 2 <= fd < 8
    && FileOf(s, t, i, fd).Some? && FileOf(s, t, i, fd).value.ops in {FileOps, DirOps}
  }

  lemma OneStepOfAFile(img: Image, s: Sys, e: Event, t: nat, i: nat, c: nat, fd: nat)
    requires !Stuck(s, e) && Distinct(s) && At(s, t, i, c) && At(Step(img, s, e), t, i, c)
    requires OpenAt(s, t, i, fd) && !(Current(s, t, i) && e == Close(fd))
    ensures OpenAt(Step(img, s, e), t, i, fd)
    ensures var was, now := FileOf(s, t, i, fd).value, FileOf(Step(img, s, e), t, i, fd).value;
            var r := Answer(img, s, e);
            && now.ops == was.ops && now.inode == was.inode
            && now.pos == was.pos +
               if !(Current(s, t, i) && e.Read? && e.fd == fd) then 0
               else if was.ops == DirOps then (if was.pos < |img.files| then 1 else 0)
               else if r.Data? then |r.bytes| else if r.Value? && r.value < -1 then r.value else 0
  {
    hide Step, MovesTo, FileReply, FindFirst, Str, Decode, LineFrom, NameOf, Word;
    StepFiles(img, s, e, t, i, c, fd);
    if Current(s, t, i) {
      assert s.terms[t].stack != [] && Top(s.terms[t].stack) == s.terms[t].stack[i];
      assert FileAt(s, fd) == FileOf(s, t, i, fd);
      if e.Read? {
        ReplyTellsMove(img, FileOf(s, t, i, fd).value, Word(e.nbytes));
      }
    }
  }

  /** The position moves by what the reply says. */
  lemma ReplyTellsMove(img: Image, file: OpenFile, length: uint32)
    ensures var r, next := FileReply(img, file, length), MovesTo(img, file.inode, file.pos, length);
            if r.Data? then next == Some(file.pos + |r.bytes|)
            else if r.Value? && r.value < -1 then file.pos + r.value >= 0 && next == Some(file.pos + r.value)
            else next.None? && (r.Value? ==> r.value == -1)
  {
    hide BytesRead, ReadOutcome;
    OutcomeIs(img, file.inode, file.pos, length);
  }

  /**
   A regular file's position moves by exactly the bytes its own process has read through it, and the directory's
   by one entry for each of its own reads until the last, whatever other descriptors, processes, terminals and
   the scheduler do in between.
   */
  lemma {:induction false} PositionCountsOwnReads(
      img: Image, s: Sys, es: seq<Event>, t: nat, i: nat, c: nat, fd: nat)
    requires Distinct(s) && Keeps(img, s, es, t, i, c, fd) && OpenAt(s, t, i, fd)
    ensures OpenAt(Run(img, s, es), t, i, fd)
    ensures var was, now := FileOf(s, t, i, fd).value, FileOf(Run(img, s, es), t, i, fd).value;
            && now.ops == was.ops && now.inode == was.inode
            && (was.ops == FileOps ==> now.pos == was.pos + |Received(img, s, es, t, i, fd)|)
            && (was.ops == DirOps && was.pos <= |img.files| ==>
                  now.pos == Min(was.pos + OwnReads(img, s, es, t, i, fd), |img.files|))
    decreases es
  {
    hide Step, Answer, Distinct;
    if es != [] && !Stuck(s, es[0]) {
      var next := Step(img, s, es[0]);
      assert Keeps(img, next, es[1..], t, i, c, fd) && At(next, t, i, c);
      ReturnSpendsTheCall(img, s, es[0]);
      OneStepOfAFile(img, s, es[0], t, i, c, fd);
      PositionCountsOwnReads(img, next, es[1..], t, i, c, fd);
    }
  }

  lemma OwnReadReply(img: Image, s: Sys, n: int32, t: nat, i: nat, fd: nat)
    requires OpenAt(s, t, i, fd) && Current(s, t, i) && FileOf(s, t, i, fd).value.ops == FileOps
    ensures var r, file := Answer(img, s, Read(fd, n)), FileOf(s, t, i, fd).value;
            r.Data? ==> BytesRead(img, file.inode, file.pos, Word(n)) == Some(r.bytes)
  {
    hide BytesRead, LineFrom, NameOf, Wraps, ReadOutcome;
    assert Top(s.terms[t].stack) == s.terms[t].stack[i];
  }

  lemma OneStepOfReading(img: Image, s: Sys, e: Event, t: nat, i: nat, c: nat, fd: nat)
    requires !Stuck(s, e) && Distinct(s) && At(s, t, i, c) && At(Step(img, s, e), t, i, c)
    requires OpenAt(s, t, i, fd) && !(Current(s, t, i) && e == Close(fd)) && !StepsBack(img, s, e, t, i, fd)
    requires var file := FileOf(s, t, i, fd).value;
             && file.ops == FileOps && Readable(img, file.inode) && file.pos <= |Contents(img, file.inode)|
    ensures OpenAt(Step(img, s, e), t, i, fd)
    ensures var file, now := FileOf(s, t, i, fd).value, FileOf(Step(img, s, e), t, i, fd).value;
            var got, whole := ReceivedNow(img, s, e, t, i, fd), Contents(img, file.inode);
            && now == file.(pos := now.pos) && now.pos == file.pos + |got| <= |whole|
            && got == whole[file.pos..now.pos]
  {
    hide Step, Answer, Distinct, Contents, Readable, BytesRead, Word;
    OneStepOfAFile(img, s, e, t, i, c, fd);
    var file := FileOf(s, t, i, fd).value;
    if Current(s, t, i) && e.Read? && e.fd == fd {
      OwnReadReply(img, s, e.nbytes, t, i, fd);
      OneReadOfReadable(img, file.inode, file.pos, Word(e.nbytes));
    } else {
      assert Contents(img, file.inode)[file.pos..file.pos] == [];
    }
  }

  lemma Joined(whole: seq<byte>, pos: nat, first: seq<byte>, rest: seq<byte>)
    requires pos + |first| + |rest| <= |whole| && first == whole[pos..pos + |first|]
    requires rest == whole[pos + |first|..pos + |first| + |rest|]
    ensures first + rest == whole[pos..pos + |first + rest|]
  {
  }

  /**
   What a process gets through a descriptor in the course of a run, with reads of any sizes among any other
   events, is the file from the position on, in order and without gaps.
   */
  lemma {:induction false} ProcessReadsTheFile(
      img: Image, s: Sys, es: seq<Event>, t: nat, i: nat, c: nat, fd: nat)
    requires Distinct(s) && Keeps(img, s, es, t, i, c, fd) && OpenAt(s, t, i, fd)
    requires var file := FileOf(s, t, i, fd).value;
             && file.ops == FileOps && Readable(img, file.inode) && file.pos <= |Contents(img, file.inode)|
    ensures var file, got := FileOf(s, t, i, fd).value, Received(img, s, es, t, i, fd);
            var whole := Contents(img, file.inode);
            file.pos + |got| <= |whole| && got == whole[file.pos..file.pos + |got|]
    decreases es
  {
    hide Step, Answer, Distinct, Contents, Readable, StepsBack;
    var file := FileOf(s, t, i, fd).value;
    var whole := Contents(img, file.inode);
    if es == [] || Stuck(s, es[0]) {
      assert whole[file.pos..file.pos] == [];
    } else {
      var next, e := Step(img, s, es[0]), es[0];
      assert Keeps(img, next, es[1..], t, i, c, fd) && At(next, t, i, c);
      ReturnSpendsTheCall(img, s, e);
      OneStepOfReading(img, s, e, t, i, c, fd);
      hide Keeps, OpenAt;
      ProcessReadsTheFile(img, next, es[1..], t, i, c, fd);
      var first, rest := ReceivedNow(img, s, e, t, i, fd), Received(img, next, es[1..], t, i, fd);
      hide ReceivedNow;
      assert Received(img, s, es, t, i, fd) == first + rest;
      Joined(whole, file.pos, first, rest);
    }
  }

  /**
   Between s and s', `got` was read through the descriptor, and what was got is the next part of the file; of the
   directory, `replies` are the next names.
   */
  ghost predicate Followed(
    img: Image, s: Sys, s': Sys, got: seq<byte>, replies: seq<Reply>, t: nat, i: nat, fd: nat)
  {
    && OpenAt(s, t, i, fd) && OpenAt(s', t, i, fd)
    && var was, now := FileOf(s, t, i, fd).value, FileOf(s', t, i, fd).value;
       && now.ops == was.ops && now.inode == was.inode
       && (was.ops == FileOps ==>
             && now.pos == was.pos + |got|
             && (Readable(img, was.inode) && was.pos <= |Contents(img, was.inode)| ==>
                   now.pos <= |Contents(img, was.inode)| && got == Contents(img, was.inode)[was.pos..now.pos]))
       && (was.ops == DirOps ==>
             forall k :: 0 <= k < |replies| ==> replies[k] == NameReply(img.files, was.pos, k))
  }

  lemma RunFollowsFile(img: Image, s: Sys, es: seq<Event>, t: nat, i: nat, c: nat, fd: nat)
    requires Distinct(s) && Keeps(img, s, es, t, i, c, fd) && OpenAt(s, t, i, fd)
    ensures Followed(img, s, Run(img, s, es), Received(img, s, es, t, i, fd),
                     ReadReplies(img, s, es, t, i, fd), t, i, fd)
  {
    hide Run, Distinct, Keeps, Received, ReadReplies, OwnReads, Readable, Contents, NameReply;
    PositionCountsOwnReads(img, s, es, t, i, c, fd);
    var file := FileOf(s, t, i, fd).value;
    if file.ops == FileOps && Readable(img, file.inode) && file.pos <= |Contents(img, file.inode)| {
      ProcessReadsTheFile(img, s, es, t, i, c, fd);
    }
    if file.ops == DirOps {
      forall k | 0 <= k < OwnReads(img, s, es, t, i, fd)
        ensures ReadReplies(img, s, es, t, i, fd)[k] == NameReply(img.files, file.pos, k)
      {
        ProcessReadsTheDirectory(img, s, es, t, i, c, fd, k);
      }
    }
  }

  // ---------------------------------------------------------------- directories

  /** The replies to the reads that the process at (t, i) makes through descriptor fd, in order. */
  function ReadReplies(img: Image, s: Sys, es: seq<Event>, t: nat, i: nat, fd: nat): (r: seq<Reply>)
    ensures |r| == OwnReads(img, s, es, t, i, fd)
    decreases es
  {
    if es == [] || Stuck(s, es[0]) then []
    else
      (if Current(s, t, i) && es[0].Read? && es[0].fd == fd then [Answer(img, s, es[0])] else [])
      + ReadReplies(img, Step(img, s, es[0]), es[1..], t, i, fd)
  }

  /** The k-th of a series of reads from position pos: a name while there are names, and then nothing. */
  function NameReply(files: seq<Dentry>, pos: nat, k: nat): Reply {
    Data(if pos + k < |files| then Names(files)[pos + k] else [])
  }

  lemma OwnDirectoryReply(img: Image, s: Sys, n: int32, t: nat, i: nat, fd: nat)
    requires OpenAt(s, t, i, fd) && Current(s, t, i) && FileOf(s, t, i, fd).value.ops == DirOps
    ensures Answer(img, s, Read(fd, n)) == NameReply(img.files, FileOf(s, t, i, fd).value.pos, 0)
  {
    hide FileReply, LineFrom, NameOf;
    assert Top(s.terms[t].stack) == s.terms[t].stack[i];
  }

  /**
   What a process gets from the directory in the course of a run, with reads of any sizes among any other events:
   the names from the position on, one for each read, in order, and then nothing.
   */
  lemma {:induction false} ProcessReadsTheDirectory(
      img: Image, s: Sys, es: seq<Event>, t: nat, i: nat, c: nat, fd: nat, k: nat)
    requires Distinct(s) && Keeps(img, s, es, t, i, c, fd) && OpenAt(s, t, i, fd)
    requires FileOf(s, t, i, fd).value.ops == DirOps && k < OwnReads(img, s, es, t, i, fd)
    ensures ReadReplies(img, s, es, t, i, fd)[k] == NameReply(img.files, FileOf(s, t, i, fd).value.pos, k)
    decreases es
  {
    hide Step, Answer, Distinct, NameReply;
    var next, e := Step(img, s, es[0]), es[0];
    assert Keeps(img, next, es[1..], t, i, c, fd) && At(next, t, i, c);
    ReturnSpendsTheCall(img, s, e);
    OneStepOfAFile(img, s, e, t, i, c, fd);
    hide Keeps, OpenAt;
    if Current(s, t, i) && e.Read? && e.fd == fd {
      OwnDirectoryReply(img, s, e.nbytes, t, i, fd);
      if k > 0 {
        ProcessReadsTheDirectory(img, next, es[1..], t, i, c, fd, k - 1);
        NextName(img.files, FileOf(s, t, i, fd).value.pos, k);
      }
    } else {
      ProcessReadsTheDirectory(img, next, es[1..], t, i, c, fd, k);
    }
  }

  lemma NextName(files: seq<Dentry>, pos: nat, k: nat)
    requires k > 0
    ensures NameReply(files, if pos < |files| then pos + 1 else pos, k - 1) == NameReply(files, pos, k)
  {
    hide Names;
  }

  // ---------------------------------------------------------------- opening and closing

  /** The current process of the running terminal. */
  function Me(s: Sys): Proc
    requires s.terms[s.running].stack != []
  {
    Top(s.terms[s.running].stack)
  }

  /** Nothing changes but descriptor fd of the current process. */
  ghost predicate OnlyDescriptor(s: Sys, s': Sys, fd: nat) {
    && s'.running == s.running && s'.viewing == s.viewing && s'.mods == s.mods
    && s'.ticks == s.ticks && s'.calls == s.calls
    && (forall u :: 0 <= u < TERM_NUM && u != s.running ==> s'.terms[u] == s.terms[u])
    && var was, now := s.terms[s.running], s'.terms[s.running];
       && now.console == was.console && now.editor == was.editor && now.vidmap == was.vidmap
       && |now.stack| == |was.stack| > 0
       && (forall i :: 0 <= i < |was.stack| - 1 ==> now.stack[i] == was.stack[i])
       && Me(s').call == Me(s).call && Me(s').vidmap == Me(s).vidmap
       && forall k :: 0 <= k < 8 && k != fd ==> Me(s').fds[k] == Me(s).fds[k]
  }

  lemma SetFileStep(img: Image, s: Sys, e: Event, fd: nat, file: Option<OpenFile>)
    requires !e.Tick? && !e.Key? && Effect(img, s, e) == [SetFile(fd, file)] && !Answer(img, s, e).Started?
    requires s.terms[s.running].stack != [] && fd < 8
    ensures OnlyDescriptor(s, Step(img, s, e), fd) && Me(Step(img, s, e)).fds[fd] == file
  {
    hide Effect, Answer, ActAll;
    ActOne(s.terms[s.running], SetFile(fd, file));
  }

  /** Entry k is the first of that name. */
  ghost predicate FirstOf(img: Image, name: seq<byte>, k: nat) {
    k < |img.files| && NameOf(img.files[k]) == name && forall j :: 0 <= j < k ==> NameOf(img.files[j]) != name
  }

  /** The new descriptor of an open reads an entry from its start, in the way of its kind. */
  predicate Reads(file: OpenFile, entry: Dentry) {
    && file.pos == 0 && file.inode == entry.inode
    && match entry.kind
       case Regular => file.ops == FileOps
       case Directory => file.ops == DirOps
       case UserRtc => file.ops == RtcOps
  }

  /**
   What `open` promises: it fails exactly when no entry has the name or descriptors 2 to 7 are all in use, and then
   nothing changes.  Otherwise the reply is the lowest free descriptor from 2 on, that descriptor now reads the
   first entry of the name from its start, and nothing else changes.
   */
  lemma OpenExactly(img: Image, s: Sys, name: seq<byte>)
    requires s.terms[s.running].stack != []
    ensures var r, next, text := Answer(img, s, Open(name)), Step(img, s, Open(name)), Str(name + [NUL]);
            && r.Value?
            && (r.value == -1 <==>
                  || (forall k :: 0 <= k < |img.files| ==> NameOf(img.files[k]) != text)
                  || (forall fd :: 2 <= fd <= 7 ==> Me(s).fds[fd].Some?))
            && (r.value == -1 ==> next == s)
            && (r.value != -1 ==>
                  && 2 <= r.value <= 7 && Me(s).fds[r.value].None?
                  && (forall fd :: 2 <= fd < r.value ==> Me(s).fds[fd].Some?)
                  && OnlyDescriptor(s, next, r.value) && Me(next).fds[r.value].Some?
                  && exists k: nat :: FirstOf(img, text, k) && Reads(Me(next).fds[r.value].value, img.files[k]))
  {
    hide Step, FindFirst, Str, NameOf;
    var text := Str(name + [NUL]);
    var found, fd := FindFirst(img.files, text), LowestFree(Me(s).fds, 2);
    if found.None? || fd == 8 {
      NothingStep(img, s, Open(name));
    } else {
      var entry := img.files[found.value];
      var file := OpenFile(OpsFor(entry.kind), entry.inode, 0);
      SetFileStep(img, s, Open(name), fd, Some(file));
      assert FirstOf(img, text, found.value) && Reads(file, entry);
    }
  }

  /**
   What `close` promises: it frees a used descriptor from 2 to 7 and changes nothing else, and fails without a trace on
   any other.
   */
  lemma CloseExactly(img: Image, s: Sys, fd: int)
    requires s.terms[s.running].stack != []
    ensures var r, next := Answer(img, s, Close(fd)), Step(img, s, Close(fd));
            if 2 <= fd <= 7 && Me(s).fds[fd].Some? then
              r == Value(0) && OnlyDescriptor(s, next, fd) && Me(next).fds[fd].None?
            else r == Value(-1) && next == s
  {
    hide Step;
    if 2 <= fd <= 7 && Me(s).fds[fd].Some? {
      SetFileStep(img, s, Close(fd), fd, None);
    } else {
      NothingStep(img, s, Close(fd));
    }
  }

  /** A descriptor that was closed can be had again: the next open of an existing name gets it, or a lower one. */
  lemma CloseMakesRoom(img: Image, s: Sys, fd: int, name: seq<byte>)
    requires s.terms[s.running].stack != [] && 2 <= fd <= 7 && Me(s).fds[fd].Some?
    requires exists k :: 0 <= k < |img.files| && NameOf(img.files[k]) == Str(name + [NUL])
    ensures var r := Answer(img, Step(img, s, Close(fd)), Open(name)); r.Value? && 2 <= r.value <= fd
    ensures (forall k :: 2 <= k < fd ==> Me(s).fds[k].Some?) ==>
              Answer(img, Step(img, s, Close(fd)), Open(name)) == Value(fd)
  {
    hide Step, Answer, Str, NameOf;
    CloseExactly(img, s, fd);
    OpenExactly(img, Step(img, s, Close(fd)), name);
  }

  /**
   Open and then any run: what the process reads through the descriptor that `open` returned is the file of that
   name, from its first byte on, in order and without gaps.
   */
  lemma OpenThenRead(img: Image, s: Sys, name: seq<byte>, es: seq<Event>, k: nat)
    requires s.terms[s.running].stack != [] && Distinct(s) && FirstOf(img, Str(name + [NUL]), k)
    requires img.files[k].kind == Regular && Readable(img, img.files[k].inode)
    requires var r := Answer(img, s, Open(name));
             r.Value? && r.value >= 0 &&
             Keeps(img, Step(img, s, Open(name)), es, s.running, |s.terms[s.running].stack| - 1, Me(s).call, r.value)
    ensures var fd, next := Answer(img, s, Open(name)).value, Step(img, s, Open(name));
            var got := Received(img, next, es, s.running, |s.terms[s.running].stack| - 1, fd);
            var whole := Contents(img, img.files[k].inode);
            |got| <= |whole| && got == whole[..|got|]
  {
    hide Step, Answer, Str, NameOf, Keeps, Received, Readable, Contents, Distinct;
    OpenExactly(img, s, name);
    ReturnSpendsTheCall(img, s, Open(name));
    var fd, next := Answer(img, s, Open(name)).value, Step(img, s, Open(name));
    var t, i := s.running, |s.terms[s.running].stack| - 1;
    var j: nat :| FirstOf(img, Str(name + [NUL]), j) && Reads(Me(next).fds[fd].value, img.files[j]);
    assert j == k by {
      OneFirst(img, Str(name + [NUL]), j, k);
    }
    assert FileOf(next, t, i, fd) == Me(next).fds[fd];
    ProcessReadsTheFile(img, next, es, t, i, Me(s).call, fd);
  }

  lemma OneFirst(img: Image, name: seq<byte>, j: nat, k: nat)
    requires FirstOf(img, name, j) && FirstOf(img, name, k)
    ensures j == k
  {
  }

  /** Reading through descriptor 1, a free one or a number that is none gives -1 and changes nothing. */
  lemma BadReadsFail(img: Image, s: Sys, fd: int, n: int32)
    requires s.terms[s.running].stack != [] && (fd == 1 || fd < 0 || fd > 7 || Me(s).fds[fd].None?)
    ensures Answer(img, s, Read(fd, n)) == Value(-1) && Step(img, s, Read(fd, n)) == s
  {
    hide Step, MovesTo, FileReply, NameOf, LineFrom;
    NothingStep(img, s, Read(fd, n));
  }

  /** A file table with the keyboard, the screen and nothing else. */
  predicate IsFresh(fds: FileTable) {
    && fds[0].Some? && fds[0].value.ops == Stdin && fds[1].Some? && fds[1].value.ops == Stdout
    && forall fd :: 2 <= fd <= 7 ==> fds[fd].None?
  }

  /**
   Whatever starts a process, a tick, an `execute` or the halt of a base shell: the new process is the current one of
   its terminal, has its own call number, no window of its own and fresh descriptors, and those below it are as before.
   */
  lemma NewProcessStartsFresh(img: Image, s: Sys, e: Event)
    requires !Stuck(s, e) && Answer(img, s, e).Started?
    ensures var t, next := Target(s, e), Step(img, s, e);
            var was, now := s.terms[t].stack, next.terms[t].stack;
            && now != [] && Top(now).call == Answer(img, s, e).call && !Top(now).vidmap && IsFresh(Top(now).fds)
            && next.running == t && (e.Halt? || e.Exception? ==> was != [])
            && now[..|now| - 1] == if e.Halt? || e.Exception? then was[..|was| - 1] else was
  {
    hide Step, Effect, Answer, Act, ActAll;
    var t, fx := Target(s, e), Effect(img, s, e);
    StepTerm(img, s, e, t);
    StepTime(img, s, e);
    CallEffect(img, s, e);
    EffectShape(img, s, e);
    StartedBy(img, s, e);
    if |fx| == 1 {
      ActOne(s.terms[t], fx[0]);
      FreshAct(s.terms[t], fx[0]);
    } else {
      ActTwo(s.terms[t], fx[0], fx[1]);
      ReplacedIsNew(s.terms[t], fx[0]);
      FreshAct(Act(s.terms[t], fx[0]), fx[1]);
    }
  }

  lemma StartedBy(img: Image, s: Sys, e: Event)
    requires Answer(img, s, e).Started?
    ensures !e.Key?
  {
    hide FileReply, LineFrom, NameOf, FindFirst, Str;
  }

  lemma FreshAct(t: Term, a: Action)
    requires a.Push? || (a.Replace? && t.stack != [])
    ensures var now := Act(t, a).stack;
            && now != [] && Top(now).call == a.call && !Top(now).vidmap && IsFresh(Top(now).fds)
            && now[..|now| - 1] == if a.Replace? then t.stack[..|t.stack| - 1] else t.stack
  {
    hide Putc, PutAll, Cleared;
  }

  // ---------------------------------------------------------------- the RTC

  function Power(k: nat): nat {
    if k == 0 then 1 else 2 * Power(k - 1)
  }

  lemma PowersUpToTen()
    ensures Power(1) == 2 && Power(2) == 4 && Power(3) == 8 && Power(4) == 16 && Power(5) == 32
    ensures Power(6) == 64 && Power(7) == 128 && Power(8) == 256 && Power(9) == 512 && Power(10) == 1024
  {
    assert Power(4) == 16 && Power(8) == 256;
  }

  /**
   An RTC read returns 0 when its interrupt has come; a write is accepted exactly when its four bytes name 2^k with k
   from 1 to 10.
   */
  lemma RtcCalls(img: Image, s: Sys, fd: int, n: int32, text: seq<byte>)
    requires s.terms[s.running].stack != [] && 2 <= fd <= 7
    requires FileAt(s, fd).Some? && FileAt(s, fd).value.ops == RtcOps
    ensures Answer(img, s, Read(fd, n)) == Value(0) && Step(img, s, Read(fd, n)) == s
    ensures Answer(img, s, Write(fd, text)) in {Value(0), Value(-1)} && Step(img, s, Write(fd, text)) == s
    ensures Answer(img, s, Write(fd, text)) == Value(0) <==>
            |text| == 4 && exists k: nat :: 1 <= k <= 10 && Number(text) == Power(k)
  {
    hide Step;
    NothingStep(img, s, Read(fd, n));
    NothingStep(img, s, Write(fd, text));
    PowersUpToTen();
    RtcNumber(text);
  }

  /** Four bytes as a number, the lowest first. */
  function Number(text: seq<byte>): nat
    requires |text| == 4
  {
    var a: int, b: int, c: int, d: int := text[0], text[1], text[2], text[3];
    a + 0x100 * b + 0x1_0000 * c + 0x100_0000 * d
  }

  lemma RtcNumber(text: seq<byte>)
    ensures RtcAccepts(text) <==> |text| == 4 && exists k: nat :: 1 <= k <= 10 && Number(text) == Power(k)
  {
    if |text| == 4 {
      SmallPowers(Number(text));
      hide Power;
      LowBytes(text);
    }
  }

  lemma SmallPowers(n: nat)
    ensures (exists k: nat :: 1 <= k <= 10 && n == Power(k)) <==> n in {2, 4, 8, 16, 32, 64, 128, 256, 512, 1024}
  {
    PowersUpToTen();
    hide Power;
  }

  lemma LowBytes(text: seq<byte>)
    requires |text| == 4
    ensures Number(text) < 0x1_0000 <==> text[2] == text[3] == 0
    ensures var low: int, high: int := text[0], text[1];
            text[2] == text[3] == 0 ==> Number(text) == low + 256 * high
  {
  }

  // ---------------------------------------------------------------- runs from power-on that show the difference

  const OPENS: seq<Event> := [Tick, Open([102])]

  /** What the first shell of terminal 1 has open. */
  predicate ShellHas(s: Sys, file: OpenFile) {
    s.running == 1 && |s.terms[1].stack| == 1 && s.terms[1].stack[0].fds[2] == Some(file)
  }

  /** After power-on, the first shell opens the file of a one-file image as descriptor 2. */
  lemma OpensTheFile(length: uint32, blocks: BlockTable, s: Sys)
    requires Boot(s)
    ensures var img := OneBlockImage(length, blocks);
            Smooth(img, s, OPENS) && ShellHas(Run(img, s, OPENS), OpenFile(FileOps, 0, 0))
  {
    hide Step, Run, OneBlockImage;
    var img := OneBlockImage(length, blocks);
    FreshShell(img, s);
    var s1 := RunCons(img, s, OPENS, 0);
    OpenStep(length, blocks, s1);
    var s2 := RunCons(img, s1, OPENS, 1);
    assert OPENS[0..] == OPENS && OPENS[1..] == [Open([102])] && OPENS[2..] == [Open([102])][1..] == [];
    RunNothing(img, s2);
  }

  lemma FreshShell(img: Image, s: Sys)
    requires Boot(s)
    ensures var next := Step(img, s, Tick);
            && !Stuck(s, Tick) && next.running == 1 && |next.terms[1].stack| == 1
            && next.terms[1].stack[0].fds == FRESH_FILES
  {
    hide Answer, ActAll, PutAll;
    StepTerm(img, s, Tick, 1);
    TickEffect(img, s);
    ActTwo(s.terms[1], Print(Banner(1)), Push(s.calls));
  }

  lemma OpenStep(length: uint32, blocks: BlockTable, s: Sys)
    requires s.running == 1 && |s.terms[1].stack| == 1 && s.terms[1].stack[0].fds == FRESH_FILES
    ensures ShellHas(Step(OneBlockImage(length, blocks), s, Open([102])), OpenFile(FileOps, 0, 0))
  {
    hide Answer, ActAll, FindFirst, Str;
    var img := OneBlockImage(length, blocks);
    OneFileIsFound(length, blocks);
    assert [102] + [NUL] == [102, NUL];
    assert LowestFree(FRESH_FILES, 2) == 2;
    StepTerm(img, s, Open([102]), 1);
    ActOne(s.terms[1], SetFile(2, Some(OpenFile(FileOps, 0, 0))));
  }

  /** One read through descriptor 2: the reply, and where the position goes. */
  lemma ReadStep(img: Image, s: Sys, file: OpenFile, n: int32)
    requires ShellHas(s, file) && file.ops == FileOps
    ensures Answer(img, s, Read(2, n)) == FileReply(img, file, Word(n))
    ensures var next := MovesTo(img, file.inode, file.pos, Word(n));
            ShellHas(Step(img, s, Read(2, n)), if next.None? then file else file.(pos := next.value))
  {
    hide ActAll, MovesTo, FileReply, Word;
    StepTerm(img, s, Read(2, n), 1);
    var next := MovesTo(img, file.inode, file.pos, Word(n));
    ActNone(s.terms[1]);
    if next.Some? {
      ActOne(s.terms[1], SetFile(2, Some(file.(pos := next.value))));
    }
  }

  /** Files that are all there, and that a program can open and cannot read. */
  lemma OpenedFilesAreRefused(s: Sys)
    requires Boot(s)
    ensures var full := OneBlockImage(BLOCK_SIZE, seq(MAX_INODES_PER_FILE, i => if i == 0 then 0 else 1));
            Answer(full, Run(full, s, OPENS), Read(2, BLOCK_SIZE)) == Value(-1)
    ensures var long := OneBlockImage(258048, seq(MAX_INODES_PER_FILE, _ => 0));
            Answer(long, Run(long, s, OPENS), Read(2, 258048)) == Value(-1)
  {
    hide Step, Run, Answer, OneBlockImage, BytesRead;
    var one: BlockTable := seq(MAX_INODES_PER_FILE, i => if i == 0 then 0 else 1);
    var all: BlockTable := seq(MAX_INODES_PER_FILE, _ => 0);
    var full, long := OneBlockImage(BLOCK_SIZE, one), OneBlockImage(258048, all);
    var file := OpenFile(FileOps, 0, 0);
    OpensTheFile(BLOCK_SIZE, one, s);
    ReadStep(full, Run(full, s, OPENS), file, BLOCK_SIZE);
    FullBlockIsRefused();
    RefusedReply(full, file, BLOCK_SIZE);
    OpensTheFile(258048, all, s);
    ReadStep(long, Run(long, s, OPENS), file, 258048);
    LongFileIsRefused();
    RefusedReply(long, file, 258048);
  }

  lemma RefusedReply(img: Image, file: OpenFile, n: uint32)
    requires BytesRead(img, file.inode, file.pos, n).None? && file.pos + n < UINT32_SIZE
    ensures FileReply(img, file, n) == Value(-1)
  {
    hide ReadOutcome, BytesRead;
    OutcomeIs(img, file.inode, file.pos, n);
  }

  const READS_A_BLOCK: seq<Event> := OPENS + [Read(2, 4096)]

  /** A run from power-on in which a read of -4096 bytes returns -4096 and moves the position from 4096 back to 0. */
  lemma NegativeReadStepsBack(s: Sys)
    requires Boot(s)
    ensures var before := Run(TWO_BLOCKS, s, READS_A_BLOCK);
            && ShellHas(before, OpenFile(FileOps, 0, 4096))
            && Answer(TWO_BLOCKS, before, Read(2, -4096)) == Value(-4096)
            && ShellHas(Step(TWO_BLOCKS, before, Read(2, -4096)), OpenFile(FileOps, 0, 0))
  {
    hide Step, Run, Answer, FileReply, MovesTo, ReadOutcome;
    var blocks: BlockTable := seq(MAX_INODES_PER_FILE, _ => 0);
    OpensTheFile(5000, blocks, s);
    var ready, file := Run(TWO_BLOCKS, s, OPENS), OpenFile(FileOps, 0, 0);
    ReadStep(TWO_BLOCKS, ready, file, 4096);
    FirstBlockRead();
    RunSnoc(TWO_BLOCKS, s, OPENS, Read(2, 4096));
    var before := Step(TWO_BLOCKS, ready, Read(2, 4096));
    ReadStep(TWO_BLOCKS, before, file.(pos := 4096), -4096);
    WrappedReply();
  }

  lemma FirstBlockRead()
    ensures MovesTo(TWO_BLOCKS, 0, 0, 4096) == Some(4096)
  {
    hide ReadOutcome, BytesRead;
    WrappedReads();
    OneReadOfReadable(TWO_BLOCKS, 0, 0, 4096);
  }

  lemma WrappedReply()
    ensures FileReply(TWO_BLOCKS, OpenFile(FileOps, 0, 4096), Word(-4096)) == Value(-4096)
    ensures MovesTo(TWO_BLOCKS, 0, 4096, Word(-4096)) == Some(0)
  {
    hide ReadOutcome, BytesRead;
    WrappedReads();
  }
}
