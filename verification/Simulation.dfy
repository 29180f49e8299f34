/** The kernel's log and the transaction machine: what begin_op, log_write and end_op do to the data structures is a
    step, or for a commit a run of steps, of the machine whose runs are proved safe.
 */
module Simulation {
  import opened LogDisk
  import opened BufferCache
  import opened RedoLog
  import T = Transactions

  /** The machine's state is that of the log while no commit is under way. */
  ghost predicate Matches(log: Log, s: T.Sys)
    reads log, log.block, log.bc, log.bc.buf, log.bc.next, log.bc.prev
  {
    && log.Valid() && !log.committing && s.phase.Running?
    && s.disk == log.bc.disk && SameHome(log.Place(), s.mem, log.bc.View())
    && s.blocks == log.Logged() && |s.ops| == log.outstanding
  }

  /** begin_op lets a call in exactly when the machine can begin one. */
  method Begin(log: Log, ghost s: T.Sys) returns (entered: bool, ghost t: T.Sys)
    requires Matches(log, s)
    modifies log`outstanding
    ensures Matches(log, t)
    ensures if entered then T.Step(log.Place(), s, T.BeginEvent, t) else t == s && !T.BeginEnabled(s)
  {
    hide log.bc.Valid, log.bc.View, log.bc.Pins, LogWellFormed, Loggable, SameHome;
    entered := log.BeginOp();
    t := if entered then T.Begin(s) else s;
  }

  /** A call changes a block that it holds and logs it: the i-th call's write in the machine, unless log_write panics. */
  method Write(log: Log, b: nat, data: Block, ghost s: T.Sys, ghost i: nat) returns (ok: bool, ghost t: T.Sys)
    requires Matches(log, s) && b < NBUF && log.bc.Held(b, log.bc.buf[b].blockno)
    requires log.bc.buf[b].blockno < 0x8000_0000 && !log.Place().Contains(log.bc.buf[b].blockno)
    requires i < |s.ops| && |s.ops[i].blocks + {log.bc.buf[b].blockno as Word}| <= MAXOPBLOCKS
    modifies log`n, log.block, log.bc.buf
    ensures ok <==> !TooBig(|s.blocks|, log.size)
    ensures ok ==> Matches(log, t) && T.Step(log.Place(), s, T.WriteEvent(i, old(log.bc.buf[b]).blockno, data), t)
  {
    hide log.bc.Valid, log.bc.View, log.bc.Pins, LogWellFormed, Loggable;
    ghost var blockno: Word := log.bc.buf[b].blockno;
    assert T.Home(log.Place(), |s.disk|, blockno);
    log.bc.Fill(b, data);
    ok := log.LogWrite(b);
    t := if blockno < |s.mem| then T.Write(s, i, blockno, data) else s;
  }

  /** States and events of a run that begins with s. */
  ghost predicate Runs(r: Region, s: T.Sys, states: seq<T.Sys>, events: seq<T.Event>) {
    && |states| == |events| + 1 && states[0] == s
    && forall k :: 0 <= k < |events| ==> T.Step(r, states[k], events[k], states[k + 1])
  }

  lemma {:induction false} RunOn(r: Region, s: T.Sys, states: seq<T.Sys>, events: seq<T.Event>, e: T.Event, t: T.Sys)
    requires Runs(r, s, states, events) && T.Step(r, states[|states| - 1], e, t)
    ensures Runs(r, s, states + [t], events + [e])
  {
    forall k | 0 <= k < |events| + 1
      ensures T.Step(r, (states + [t])[k], (events + [e])[k], (states + [t])[k + 1])
    {
    }
  }

  ghost predicate CommitBegun(r: Region, s: T.Sys) {
    s.phase == T.Committing(s.disk, 0) && |s.mem| == |s.disk| && Loggable(r, |s.mem|, s.blocks)
  }

  ghost function Images(r: Region, s: T.Sys): seq<Disk>
    requires CommitBegun(r, s)
  {
    CommitImages(r, s.disk, s.blocks, NewContents(s.blocks, s.mem))
  }

  /** The machine's commit, one disk write at a time. */
  lemma {:induction false} CommitRuns(r: Region, s: T.Sys, k: nat) returns (states: seq<T.Sys>, events: seq<T.Event>)
    requires CommitBegun(r, s) && k <= |Images(r, s)|
    ensures Runs(r, s, states, events) && |states| == k + 1 && |events| == k && forall e :: e in events ==> e == T.CommitEvent
    ensures var t := states[|states| - 1];
            && t.mem == s.mem && t.ops == s.ops
            && t.disk == (if k == 0 then s.disk else Images(r, s)[k - 1])
            && if k < |Images(r, s)| then t.phase == T.Committing(s.disk, k) && t.blocks == s.blocks
               else t.phase == T.Running && t.blocks == []
  {
    hide CommitImages, NewContents, Loggable;
    ImagesThere(r, s);
    if k == 0 {
      states, events := [s], [];
    } else {
      states, events := CommitRuns(r, s, k - 1);
      var t := states[|states| - 1];
      assert T.CommitEnabled(r, t);
      RunOn(r, s, states, events, T.CommitEvent, T.Commit(r, t));
      states, events := states + [T.Commit(r, t)], events + [T.CommitEvent];
    }
  }

  lemma {:induction false} ImagesThere(r: Region, s: T.Sys)
    requires CommitBegun(r, s)
    ensures |Images(r, s)| > 0
  {
  }

  /** The blocks to be logged look the same to the machine and through the cache. */
  lemma {:induction false} SameContents(r: Region, blocks: seq<Word>, mem: Disk, view: Disk)
    requires Loggable(r, |mem|, blocks) && SameHome(r, mem, view)
    ensures NewContents(blocks, mem) == NewContents(blocks, view)
  {
  }

  /** end_op is the end of the i-th call in the machine, followed, if it was the last, by the machine's whole commit. */
  method End(log: Log, ghost s: T.Sys, ghost i: nat) returns (ok: bool, ghost states: seq<T.Sys>, ghost events: seq<T.Event>)
    requires Matches(log, s) && i < |s.ops|
    requires log.outstanding == 1 ==> log.OthersElsewhere(log.Logged())
    modifies log`outstanding, log`committing, log`n, log.bc, log.bc.buf, log.bc.next, log.bc.prev
    ensures ok <==> log.outstanding > 0 || s.blocks == [] || |s.blocks| + |old(log.bc.Refs())| < NBUF
    ensures ok ==>
              && Runs(log.Place(), s, states, events) && Matches(log, states[|states| - 1])
              && events != [] && events[0] == T.EndEvent(i) && forall e :: e in events[1..] ==> e == T.CommitEvent
  {
    ghost var r, blocks, view, mem := log.Place(), log.Logged(), log.bc.View(), s.mem;
    states, events := EndRun(log, s, i);
    LoggableNow(log, s);
    hide log.bc.Valid, log.bc.View, log.bc.Pins, log.bc.Refs, log.OthersElsewhere, Loggable, LastImage, LogWellFormed, SameHome, Runs;
    ok := EndCall(log, r, blocks, s.disk, view);
    StillSame(r, mem, view, log.bc.View());
  }

  lemma {:induction false} LoggableNow(log: Log, s: T.Sys)
    requires Matches(log, s)
    ensures Loggable(log.Place(), |s.disk|, log.Logged()) && |log.bc.View()| == |s.disk|
    ensures SameHome(log.Place(), s.mem, log.bc.View())
  {
  }

  /** The run of the machine: the call's end and, if it was the last, the commit. */
  lemma {:induction false} EndRun(log: Log, s: T.Sys, i: nat) returns (states: seq<T.Sys>, events: seq<T.Event>)
    requires Matches(log, s) && i < |s.ops|
    ensures Runs(log.Place(), s, states, events)
    ensures events != [] && events[0] == T.EndEvent(i) && forall e :: e in events[1..] ==> e == T.CommitEvent
    ensures Loggable(log.Place(), |s.disk|, log.Logged()) && |log.bc.View()| == |s.disk| && |states| > 0
    ensures var t := states[|states| - 1];
            && t.phase == T.Running && |t.ops| == |s.ops| - 1 && t.mem == s.mem
            && if |s.ops| == 1 && s.blocks != [] then
                 t.blocks == [] && t.disk == LastImage(log.Place(), log.Logged(), s.disk, log.bc.View())
               else t.blocks == s.blocks && t.disk == s.disk
  {
    var r, t := log.Place(), T.End(s, i);
    EndStep(log, s, i);
    LoggableNow(log, s);
    OneStep(r, s, T.EndEvent(i), t);
    hide log.Valid, log.bc.View, CommitBegun, Images, Loggable, LastImage, SameHome, Runs, T.Step, T.End;
    states, events := [s, t], [T.EndEvent(i)];
    if |s.ops| == 1 && s.blocks != [] {
      var later, commits := CommitRuns(r, t, |Images(r, t)|);
      AfterEnd(r, s, i, later, commits);
      states, events := [s] + later, [T.EndEvent(i)] + commits;
    }
  }

  /** What end_op leaves, in terms of what was before it. */
  method EndCall(log: Log, ghost r: Region, ghost blocks: seq<Word>, ghost d: Disk, ghost view: Disk) returns (ok: bool)
    requires log.Valid() && !log.committing && log.outstanding >= 1 && Loggable(r, |d|, blocks) && |view| == |d|
    requires r == log.Place() && blocks == log.Logged() && d == log.bc.disk && view == log.bc.View()
    requires log.outstanding == 1 ==> log.OthersElsewhere(log.Logged())
    modifies log`outstanding, log`committing, log`n, log.bc, log.bc.buf, log.bc.next, log.bc.prev
    ensures log.Valid() && log.outstanding == old(log.outstanding) - 1 && SameHome(r, view, log.bc.View())
    ensures ok <==> log.outstanding > 0 || blocks == [] || |blocks| + |old(log.bc.Refs())| < NBUF
    ensures ok ==> !log.committing
    ensures ok && log.outstanding > 0 ==> log.Logged() == blocks && log.bc.disk == d
    ensures ok && log.outstanding == 0 ==>
              && log.Logged() == []
              && log.bc.disk == (if blocks == [] then d else LastImage(r, blocks, d, view))
  {
    ghost var images := CommitImages(r, d, blocks, NewContents(blocks, view));
    assert |images| > 0;
    hide log.bc.Valid, log.bc.View, log.bc.Pins, log.bc.Refs, log.bc.HeldAs, log.bc.Locked, log.bc.SomeFree, log.OthersElsewhere;
    hide LogWellFormed, Loggable, CommitImages, NewContents, SameHome;
    ghost var was := log.bc.images;
    ok := log.EndOp();
    assert (was + images)[|was + images| - 1] == images[|images| - 1];
  }

  /** The disk at the end of a commit. */
  ghost function LastImage(r: Region, blocks: seq<Word>, d: Disk, view: Disk): Disk
    requires Loggable(r, |d|, blocks) && |view| == |d|
  {
    var images := CommitImages(r, d, blocks, NewContents(blocks, view));
    images[|images| - 1]
  }

  lemma {:induction false} StillSame(r: Region, mem: Disk, view: Disk, view': Disk)
    requires SameHome(r, mem, view) && SameHome(r, view, view')
    ensures SameHome(r, mem, view')
  {
  }

  lemma {:induction false} OneStep(r: Region, s: T.Sys, e: T.Event, t: T.Sys)
    requires T.Step(r, s, e, t)
    ensures Runs(r, s, [s, t], [e])
  {
    hide T.Step;
  }

  /** The first of these steps, and the commit that it begins if it was the last call. */
  lemma {:induction false} EndStep(log: Log, s: T.Sys, i: nat)
    requires Matches(log, s) && i < |s.ops|
    ensures var r, t := log.Place(), T.End(s, i);
            && T.Step(r, s, T.EndEvent(i), t) && t.mem == s.mem && |t.ops| == |s.ops| - 1 && t.blocks == s.blocks
            && t.disk == s.disk
            && if |s.ops| == 1 && s.blocks != [] then
                 CommitBegun(r, t)
                 && Images(r, t) == CommitImages(r, log.bc.disk, log.Logged(), NewContents(log.Logged(), log.bc.View()))
                 && |Images(r, t)| > 0 && |log.bc.View()| == |s.disk|
                 && Images(r, t)[|Images(r, t)| - 1] == LastImage(r, log.Logged(), s.disk, log.bc.View())
               else t.phase == T.Running
  {
    hide log.bc.Valid, log.bc.View, log.bc.Pins, LogWellFormed;
    SameContents(log.Place(), log.Logged(), s.mem, log.bc.View());
    if |s.ops| == 1 && s.blocks != [] {
      ImagesThere(log.Place(), T.End(s, i));
    }
  }

  lemma {:induction false} AfterEnd(r: Region, s: T.Sys, i: nat, states: seq<T.Sys>, events: seq<T.Event>)
    requires i < |s.ops| && T.Step(r, s, T.EndEvent(i), T.End(s, i)) && Runs(r, T.End(s, i), states, events)
    ensures Runs(r, s, [s] + states, [T.EndEvent(i)] + events) && |states| == |events| + 1
  {
    hide T.Step;
    forall k | 0 <= k < |events| + 1
      ensures T.Step(r, ([s] + states)[k], ([T.EndEvent(i)] + events)[k], ([s] + states)[k + 1])
    {
      if k > 0 {
        assert T.Step(r, states[k - 1], events[k - 1], states[k]);
      }
    }
  }
}
