/** The redo log as a machine: system calls that interleave, group commits one disk write at a time, crashes at any
    point, and recoveries that may crash again. Every run keeps each call's writes together.
 */
module Transactions {
  import opened LogDisk
  import CrashSafety

  /** A system call between begin_op and end_op: its number, the blocks it has logged, and how often it called log_write. */
  datatype Op = Op(id: nat, blocks: set<Word>, calls: nat)

  datatype LoggedWrite = LoggedWrite(op: nat, blockno: Word, data: Block)

  /** What the kernel is doing; `base` is the disk when the commit or the recovery began, `done` its disk writes so far. */
  datatype Phase =
    | Running
    | Committing(base: Disk, done: nat)
    | Recovering(base: Disk, done: nat)

  datatype Sys = Sys(
    disk: Disk,
    mem: Disk,            // the blocks as processes see them through the cache
    blocks: seq<Word>,    // the header in memory
    ops: seq<Op>,         // system calls in progress
    phase: Phase,
    nextId: nat,
    writes: seq<LoggedWrite>,  // every logged write that no crash has undone
    durable: nat)              // how many of them are committed

  function Apply(d: Disk, writes: seq<LoggedWrite>): (e: Disk)
    ensures |e| == |d|
  {
    if writes == [] then d
    else
      var e := Apply(d, writes[..|writes| - 1]);
      var w := writes[|writes| - 1];
      if 0 <= w.blockno < |d| then e[w.blockno := w.data] else e
  }

  // ---------- steps ----------

  ghost predicate Home(r: Region, diskSize: nat, b: int) {
    0 <= b < diskSize && !r.Contains(b)
  }

  predicate BeginEnabled(s: Sys) {
    s.phase.Running? && Admits(|s.blocks|, |s.ops|, false)
  }

  function Begin(s: Sys): Sys {
    s.(ops := s.ops + [Op(s.nextId, {}, 0)], nextId := s.nextId + 1)
  }

  /** The i-th call in progress may log block b: a call stays within its reservation of MAXOPBLOCKS distinct blocks. */
  ghost predicate WithinBudget(r: Region, s: Sys, i: nat, b: Word) {
    s.phase.Running? && i < |s.ops| && Home(r, |s.disk|, b) && |s.ops[i].blocks + {b}| <= MAXOPBLOCKS
  }

  /** It modifies the block and logs it, if log_write does not panic. */
  ghost predicate WriteEnabled(r: Region, s: Sys, i: nat, b: Word) {
    WithinBudget(r, s, i, b) && !TooBig(|s.blocks|, r.size)
  }

  function Write(s: Sys, i: nat, b: Word, data: Block): Sys
    requires i < |s.ops| && 0 <= b < |s.mem|
  {
    var op := s.ops[i];
    s.(blocks := Absorb(s.blocks, b), mem := s.mem[b := data],
       ops := s.ops[i := Op(op.id, op.blocks + {b}, op.calls + 1)],
       writes := s.writes + [LoggedWrite(op.id, b, data)])
  }

  /** The i-th call ends; the last one out starts a commit, unless there is nothing to commit. */
  function End(s: Sys, i: nat): Sys
    requires i < |s.ops|
  {
    var rest := s.ops[..i] + s.ops[i + 1..];
    s.(ops := rest, phase := if rest == [] && s.blocks != [] then Committing(s.disk, 0) else s.phase)
  }

  ghost predicate CommitEnabled(r: Region, s: Sys) {
    && s.phase.Committing? && |s.phase.base| == |s.mem| && Loggable(r, |s.mem|, s.blocks)
    && s.phase.done < |CommitImages(r, s.phase.base, s.blocks, NewContents(s.blocks, s.mem))|
  }

  /** The next disk write of a commit. Writing the header makes every write so far durable. */
  ghost function Commit(r: Region, s: Sys): Sys
    requires CommitEnabled(r, s)
  {
    var images := CommitImages(r, s.phase.base, s.blocks, NewContents(s.blocks, s.mem));
    var k := s.phase.done;
    s.(disk := images[k],
       durable := if k == |s.blocks| then |s.writes| else s.durable,
       phase := if k + 1 == |images| then Running else Committing(s.phase.base, k + 1),
       blocks := if k + 1 == |images| then [] else s.blocks)
  }

  /** The machine stops: memory is lost, calls in progress are gone, and the next boot starts a recovery. */
  function Crash(s: Sys): Sys
    requires s.durable <= |s.writes|
  {
    s.(mem := s.disk, blocks := [], ops := [], phase := Recovering(s.disk, 0), writes := s.writes[..s.durable])
  }

  ghost predicate RecoverEnabled(r: Region, s: Sys) {
    && s.phase.Recovering? && LogWellFormed(r, s.phase.base)
    && s.phase.done < |RecoverImages(r, s.phase.base, HeadBlocks(s.phase.base[r.start]))|
  }

  ghost function Recover(r: Region, s: Sys): Sys
    requires RecoverEnabled(r, s)
  {
    var images := RecoverImages(r, s.phase.base, HeadBlocks(s.phase.base[r.start]));
    var k := s.phase.done;
    s.(disk := images[k], mem := images[k],
       phase := if k + 1 == |images| then Running else Recovering(s.phase.base, k + 1))
  }

  datatype Event =
    | BeginEvent
    | WriteEvent(i: nat, b: Word, data: Block)
    | EndEvent(i: nat)
    | CommitEvent
    | CrashEvent
    | RecoverEvent

  ghost predicate Step(r: Region, s: Sys, e: Event, t: Sys) {
    match e
    case BeginEvent => BeginEnabled(s) && t == Begin(s)
    case WriteEvent(i, b, data) => WriteEnabled(r, s, i, b) && b < |s.mem| && t == Write(s, i, b, data)
    case EndEvent(i) => s.phase.Running? && i < |s.ops| && t == End(s, i)
    case CommitEvent => CommitEnabled(r, s) && t == Commit(r, s)
    case CrashEvent => s.durable <= |s.writes| && t == Crash(s)
    case RecoverEvent => RecoverEnabled(r, s) && t == Recover(r, s)
  }

  /** A freshly booted system on a disk with an empty log. */
  function Boot(image: Disk): Sys {
    Sys(image, image, [], [], Running, 0, [], 0)
  }

  ghost predicate BootImage(r: Region, image: Disk) {
    LogWellFormed(r, image) && HeadCount(image[r.start]) == 0
  }

  /** A run from boot: states[k + 1] follows from states[k] by events[k]. */
  ghost predicate IsRun(r: Region, image: Disk, states: seq<Sys>, events: seq<Event>) {
    && |states| == |events| + 1 && states[0] == Boot(image)
    && forall k :: 0 <= k < |events| ==> Step(r, states[k], events[k], states[k + 1])
  }

  // ---------- invariants ----------

  /** What calls in progress may still log. */
  function Unused(ops: seq<Op>): int {
    if ops == [] then 0
    else Unused(ops[..|ops| - 1]) + MAXOPBLOCKS - |ops[|ops| - 1].blocks|
  }

  /** The log always has room for everything the calls in progress may still write, and while a commit is under way
      there are none: end_op's "log.committing" panic needs one. */
  ghost predicate Reserved(s: Sys) {
    && (!s.phase.Running? ==> s.ops == [])
    && (!s.phase.Committing? && s.ops == [] ==> s.blocks == [])
    && (forall i :: 0 <= i < |s.ops| ==> |s.ops[i].blocks| <= s.ops[i].calls)
    && (forall i, b :: 0 <= i < |s.ops| && b in s.ops[i].blocks ==> b in s.blocks)
    && (forall i :: 0 <= i < |s.ops| ==> |s.ops[i].blocks| <= MAXOPBLOCKS)
    && |s.blocks| + Unused(s.ops) <= LOGSIZE
  }

  /** Calls have distinct numbers, and no call in progress has a durable write. */
  ghost predicate Whole(s: Sys) {
    && s.durable <= |s.writes|
    && (forall i, j :: 0 <= i < j < |s.ops| ==> s.ops[i].id != s.ops[j].id)
    && (forall i :: 0 <= i < |s.ops| ==> s.ops[i].id < s.nextId)
    && (forall k :: 0 <= k < |s.writes| ==> s.writes[k].op < s.nextId)
    && (forall k, i :: 0 <= k < s.durable && 0 <= i < |s.ops| ==> s.writes[k].op != s.ops[i].id)
    && (forall k, m :: 0 <= k < s.durable <= m < |s.writes| ==> s.writes[k].op != s.writes[m].op)
  }

  /** The cache shows all writes; it differs from d only in logged blocks. */
  ghost predicate Seen(r: Region, image: Disk, s: Sys, d: Disk) {
    && |s.mem| == |d| && SameHome(r, Apply(image, s.writes), s.mem)
    && Loggable(r, |d|, s.blocks)
    && (forall b :: Home(r, |d|, b) && b !in s.blocks ==> s.mem[b] == d[b])
  }

  ghost predicate OnDisk(r: Region, image: Disk, s: Sys) {
    && |s.disk| == |image|
    && s.durable <= |s.writes|
    && LogWellFormed(r, s.disk)
    && SameHome(r, Apply(image, s.writes[..s.durable]), Recovered(r, s.disk))
    && match s.phase
       case Running =>
         && HeadCount(s.disk[r.start]) == 0 && Seen(r, image, s, s.disk)
         && (s.blocks == [] ==> s.durable == |s.writes|)
       case Committing(base, done) =>
         && s.ops == [] && s.blocks != [] && BootImage(r, base) && Seen(r, image, s, base)
         && (done <= |s.blocks| ==> SameHome(r, Apply(image, s.writes[..s.durable]), base))
         && (done > |s.blocks| ==> s.durable == |s.writes|)
       case Recovering(base, done) =>
         && s.ops == [] && s.blocks == [] && s.durable == |s.writes|
         && LogWellFormed(r, base) && |base| == |s.disk|
         && SameHome(r, Apply(image, s.writes), Recovered(r, base))
  }

  ghost predicate Inv(r: Region, image: Disk, s: Sys) {
    Reserved(s) && Whole(s) && OnDisk(r, image, s)
  }

  // ---------- the reservation ----------

  lemma {:induction false} UnusedUpdate(ops: seq<Op>, i: nat, op: Op)
    requires i < |ops|
    ensures Unused(ops[i := op]) == Unused(ops) + |ops[i].blocks| - |op.blocks|
  {
    var last := |ops| - 1;
    if i == last {
      assert ops[i := op][..last] == ops[..last];
    } else {
      assert ops[i := op][..last] == ops[..last][i := op];
      UnusedUpdate(ops[..last], i, op);
    }
  }

  lemma {:induction false} UnusedRemove(ops: seq<Op>, i: nat)
    requires i < |ops|
    ensures Unused(ops[..i] + ops[i + 1..]) == Unused(ops) - MAXOPBLOCKS + |ops[i].blocks|
  {
    var last := |ops| - 1;
    var rest := ops[..i] + ops[i + 1..];
    if i == last {
      assert rest == ops[..last];
    } else {
      assert rest[..|rest| - 1] == ops[..last][..i] + ops[..last][i + 1..];
      UnusedRemove(ops[..last], i);
    }
  }

  lemma {:induction false} UnusedBounds(ops: seq<Op>)
    requires forall i :: 0 <= i < |ops| ==> |ops[i].blocks| <= MAXOPBLOCKS
    ensures 0 <= Unused(ops) <= |ops| * MAXOPBLOCKS
  {
    if ops != [] {
      UnusedBounds(ops[..|ops| - 1]);
    }
  }

  lemma {:induction false} WriteKeepsReserved(r: Region, s: Sys, i: nat, b: Word, data: Block)
    requires Reserved(s) && WriteEnabled(r, s, i, b) && b < |s.mem|
    ensures Reserved(Write(s, i, b, data))
  {
    var t := Write(s, i, b, data);
    UnusedUpdate(s.ops, i, t.ops[i]);
    if b in s.ops[i].blocks {
      assert s.ops[i].blocks + {b} == s.ops[i].blocks;
    }
  }

  lemma {:induction false} BeginKeepsReserved(s: Sys)
    requires Reserved(s) && BeginEnabled(s)
    ensures Reserved(Begin(s))
  {
    assert Begin(s).ops[..|s.ops|] == s.ops;
    UnusedBounds(s.ops);
  }

  lemma {:induction false} EndKeepsReserved(s: Sys, i: nat)
    requires Reserved(s) && s.phase.Running? && i < |s.ops|
    ensures Reserved(End(s, i))
  {
    UnusedRemove(s.ops, i);
  }

  lemma {:induction false} CommitKeepsReserved(r: Region, s: Sys)
    requires Reserved(s) && CommitEnabled(r, s)
    ensures Reserved(Commit(r, s))
  {
  }

  lemma {:induction false} CrashAndRecoverKeepReserved(r: Region, s: Sys)
    requires Reserved(s)
    ensures s.durable <= |s.writes| ==> Reserved(Crash(s))
    ensures RecoverEnabled(r, s) ==> Reserved(Recover(r, s))
  {
  }

  /** Every step keeps the reservation: begin_op's test is enough for all calls in progress. */
  lemma {:induction false} StepKeepsReserved(r: Region, s: Sys, e: Event, t: Sys)
    requires Reserved(s) && Step(r, s, e, t)
    ensures Reserved(t)
  {
    hide Reserved, WriteEnabled, CommitEnabled, RecoverEnabled, BeginEnabled, Commit, Recover, Write, End, Begin, Crash;
    match e
    case BeginEvent => BeginKeepsReserved(s);
    case WriteEvent(i, b, data) => WriteKeepsReserved(r, s, i, b, data);
    case EndEvent(i) => EndKeepsReserved(s, i);
    case CommitEvent => CommitKeepsReserved(r, s);
    case CrashEvent => CrashAndRecoverKeepReserved(r, s);
    case RecoverEvent => CrashAndRecoverKeepReserved(r, s);
  }

  // ---------- calls stay whole ----------

  lemma {:induction false} BeginKeepsWhole(s: Sys)
    requires Whole(s)
    ensures Whole(Begin(s))
  {
  }

  lemma {:induction false} WriteKeepsWhole(s: Sys, i: nat, b: Word, data: Block)
    requires Whole(s) && i < |s.ops| && 0 <= b < |s.mem|
    ensures Whole(Write(s, i, b, data))
  {
  }

  lemma {:induction false} EndKeepsWhole(s: Sys, i: nat)
    requires Whole(s) && i < |s.ops|
    ensures Whole(End(s, i))
  {
  }

  /** Writes become durable only when no call is in progress. */
  lemma {:induction false} CommitKeepsWhole(r: Region, s: Sys)
    requires Reserved(s) && Whole(s) && CommitEnabled(r, s)
    ensures Whole(Commit(r, s))
  {
  }

  lemma {:induction false} CrashAndRecoverKeepWhole(r: Region, s: Sys)
    requires Whole(s)
    ensures Whole(Crash(s))
    ensures RecoverEnabled(r, s) ==> Whole(Recover(r, s))
  {
  }

  lemma {:induction false} StepKeepsWhole(r: Region, s: Sys, e: Event, t: Sys)
    requires Reserved(s) && Whole(s) && Step(r, s, e, t)
    ensures Whole(t)
  {
    hide Reserved, Whole, CommitEnabled, RecoverEnabled, BeginEnabled, Commit, Recover, Write, End, Begin, Crash;
    match e
    case BeginEvent => BeginKeepsWhole(s);
    case WriteEvent(i, b, data) => WriteKeepsWhole(s, i, b, data);
    case EndEvent(i) => EndKeepsWhole(s, i);
    case CommitEvent => CommitKeepsWhole(r, s);
    case CrashEvent => CrashAndRecoverKeepWhole(r, s);
    case RecoverEvent => CrashAndRecoverKeepWhole(r, s);
  }

  // ---------- the disk ----------

  lemma {:induction false} ApplyOne(image: Disk, writes: seq<LoggedWrite>, w: LoggedWrite)
    requires 0 <= w.blockno < |image|
    ensures Apply(image, writes + [w]) == Apply(image, writes)[w.blockno := w.data]
  {
    assert (writes + [w])[..|writes|] == writes;
  }

  lemma {:induction false} WriteKeepsDisk(r: Region, image: Disk, s: Sys, i: nat, b: Word, data: Block)
    requires OnDisk(r, image, s) && WriteEnabled(r, s, i, b)
    ensures b < |s.mem| && OnDisk(r, image, Write(s, i, b, data))
  {
    var t := Write(s, i, b, data);
    ApplyOne(image, s.writes, LoggedWrite(s.ops[i].id, b, data));
    assert t.writes[..t.durable] == s.writes[..s.durable];
    hide Recovered, LogWellFormed, Apply;
  }

  lemma {:induction false} EndKeepsDisk(r: Region, image: Disk, s: Sys, i: nat)
    requires OnDisk(r, image, s) && s.phase.Running? && i < |s.ops|
    ensures OnDisk(r, image, End(s, i))
  {
    CrashSafety.RecoverEmpty(r, s.disk);
    hide Recovered, Apply;
  }

  lemma {:induction false} CrashKeepsDisk(r: Region, image: Disk, s: Sys)
    requires OnDisk(r, image, s)
    ensures OnDisk(r, image, Crash(s))
  {
    var t := Crash(s);
    assert t.writes[..t.durable] == t.writes;
    hide Recovered, Apply;
  }

  /** A commit write keeps recovery on the durable writes, and at the header write these become all writes. */
  lemma {:induction false} CommitKeepsDisk(r: Region, image: Disk, s: Sys)
    requires OnDisk(r, image, s) && CommitEnabled(r, s)
    ensures OnDisk(r, image, Commit(r, s))
  {
    var t := Commit(r, s);
    var base, blocks, k := s.phase.base, s.blocks, s.phase.done;
    var data := NewContents(blocks, s.mem);
    CrashSafety.CommitCrash(r, base, blocks, data, k);
    assert t.writes == s.writes;
    assert s.writes[..|s.writes|] == s.writes;
    if k >= |blocks| {
      CommittedIsSeen(r, image, s, data, Recovered(r, t.disk));
    }
    if t.phase.Running? {
      CommitEnds(r, base, blocks, data);
      CrashSafety.RecoverEmpty(r, t.disk);
      CommittedIsSeen(r, image, s, data, Recovered(r, t.disk));
    }
    hide Recovered, Apply;
  }

  lemma {:induction false} CommittedIsSeen(r: Region, image: Disk, s: Sys, data: seq<Block>, e: Disk)
    requires s.phase.Committing? && Seen(r, image, s, s.phase.base) && data == NewContents(s.blocks, s.mem)
    requires HomeUpdated(r, s.phase.base, s.blocks, data, e)
    ensures SameHome(r, s.mem, e) && SameHome(r, Apply(image, s.writes), e)
  {
    hide Apply, NewContents;
    forall b | Home(r, |s.mem|, b)
      ensures e[b] == s.mem[b]
    {
      if b in s.blocks {
        var i :| 0 <= i < |s.blocks| && s.blocks[i] == b;
        assert e[s.blocks[i]] == data[i];
      }
    }
  }

  lemma {:induction false} CommitEnds(r: Region, d: Disk, blocks: seq<Word>, data: seq<Block>)
    requires BootImage(r, d) && Loggable(r, |d|, blocks) && |data| == |blocks|
    ensures var images := CommitImages(r, d, blocks, data);
            var e := images[|images| - 1];
            LogWellFormed(r, e) && HeadCount(e[r.start]) == 0
  {
    CrashSafety.CommittedAfterHeader(r, d, blocks, data);
    CrashSafety.RecoverCommitted(r, d, CommitPoint(r, d, blocks, data), blocks, data);
  }

  lemma {:induction false} RecoverKeepsDisk(r: Region, image: Disk, s: Sys)
    requires OnDisk(r, image, s) && RecoverEnabled(r, s)
    ensures OnDisk(r, image, Recover(r, s))
  {
    var t := Recover(r, s);
    var base, k := s.phase.base, s.phase.done;
    CrashSafety.CrashedRecoveryIsSound(r, base, k + 1);
    assert t.disk == CrashSafety.CrashedRecovery(r, base, k + 1);
    assert s.writes[..|s.writes|] == s.writes;
    if t.phase.Running? {
      assert t.disk == Recovered(r, base);
      CrashSafety.RecoveredIsEmpty(r, base);
      CrashSafety.RecoverEmpty(r, t.disk);
    }
    hide Apply, Recovered;
  }

  // ---------- whole runs ----------

  lemma {:induction false} StepKeepsInv(r: Region, image: Disk, s: Sys, e: Event, t: Sys)
    requires Inv(r, image, s) && Step(r, s, e, t)
    ensures Inv(r, image, t)
  {
    StepKeepsReserved(r, s, e, t);
    StepKeepsWhole(r, s, e, t);
    match e
    case BeginEvent =>
    case WriteEvent(i, b, data) => WriteKeepsDisk(r, image, s, i, b, data);
    case EndEvent(i) => EndKeepsDisk(r, image, s, i);
    case CommitEvent => CommitKeepsDisk(r, image, s);
    case CrashEvent => CrashKeepsDisk(r, image, s);
    case RecoverEvent => RecoverKeepsDisk(r, image, s);
  }

  lemma {:induction false} BootInv(r: Region, image: Disk)
    requires BootImage(r, image)
    ensures Inv(r, image, Boot(image))
  {
    CrashSafety.RecoverEmpty(r, image);
  }

  lemma {:induction false} RunKeepsInv(r: Region, image: Disk, states: seq<Sys>, events: seq<Event>, k: nat)
    requires BootImage(r, image) && IsRun(r, image, states, events) && k < |states|
    ensures Inv(r, image, states[k])
  {
    hide Step, Inv;
    if k == 0 {
      BootInv(r, image);
    } else {
      RunKeepsInv(r, image, states, events, k - 1);
      StepKeepsInv(r, image, states[k - 1], events[k - 1], states[k]);
    }
  }

  /** Transactions: at any point of any run, let the machine stop, and let recoveries be cut off any number of times
      before one completes. The home blocks then hold exactly the durable writes applied to the original disk, and
      of every system call either all logged writes are durable or none is. Once the last call out has returned from
      end_op everything is durable. */
  lemma {:induction false} TransactionSafety(r: Region, image: Disk, states: seq<Sys>, events: seq<Event>,
                                             k: nat, crashes: seq<nat>)
    requires BootImage(r, image) && IsRun(r, image, states, events) && k < |states|
    ensures var s := states[k];
            && s.durable <= |s.writes| && |s.disk| == |image| && LogWellFormed(r, s.disk)
            && SameHome(r, Apply(image, s.writes[..s.durable]),
                        Recovered(r, CrashSafety.CrashedRecoveries(r, s.disk, crashes)))
            && (forall i, j :: 0 <= i < s.durable <= j < |s.writes| ==> s.writes[i].op != s.writes[j].op)
            && (forall i, o :: 0 <= i < s.durable && 0 <= o < |s.ops| ==> s.writes[i].op != s.ops[o].id)
            && (s.phase.Running? && s.ops == [] ==> s.durable == |s.writes|)
  {
    RunKeepsInv(r, image, states, events, k);
    var e := CrashSafety.CrashedRecoveries(r, states[k].disk, crashes);
    hide Recovered, Apply;
  }

  /** Group commit: in every state of every run the log has room for all that the calls in progress may still log,
      the logged block numbers are distinct home blocks, and no call is in progress during a commit. */
  lemma {:induction false} GroupCommit(r: Region, image: Disk, states: seq<Sys>, events: seq<Event>, k: nat)
    requires BootImage(r, image) && IsRun(r, image, states, events) && k < |states|
    ensures var s := states[k];
            && |s.blocks| + Unused(s.ops) <= LOGSIZE
            && Loggable(r, |image|, s.blocks)
            && (s.phase.Committing? ==> s.ops == [])
            && (forall i :: 0 <= i < |s.ops| ==> |s.ops[i].blocks| <= MAXOPBLOCKS)
  {
    RunKeepsInv(r, image, states, events, k);
    hide Recovered, Apply;
  }

  /** What is durable stays so, whatever happens later. */
  lemma {:induction false} DurableForever(r: Region, image: Disk, states: seq<Sys>, events: seq<Event>, k: nat, m: nat)
    requires BootImage(r, image) && IsRun(r, image, states, events) && k <= m < |states|
    ensures states[k].durable <= states[m].durable <= |states[m].writes|
    ensures states[k].durable <= |states[k].writes|
    ensures states[m].writes[..states[k].durable] == states[k].writes[..states[k].durable]
    decreases m
  {
    hide Step, Inv;
    RunKeepsInv(r, image, states, events, m);
    InvBounds(r, image, states[m]);
    if k < m {
      RunKeepsInv(r, image, states, events, m - 1);
      DurableForever(r, image, states, events, k, m - 1);
      StepKeepsDurable(r, image, states[m - 1], events[m - 1], states[m]);
      var s, t := states[m - 1], states[m];
      var d := states[k].durable;
      assert t.writes[..d] == t.writes[..s.durable][..d];
      assert s.writes[..d] == s.writes[..s.durable][..d];
    }
  }

  /** No system call is in progress, and memory is not being recovered. */
  ghost predicate Quiet(s: Sys) {
    s.ops == [] && !s.phase.Recovering?
  }

  /** What is durable is what had been written at some earlier moment at which no call was in progress. */
  lemma {:induction false} DurableWasQuiet(r: Region, image: Disk, states: seq<Sys>, events: seq<Event>, k: nat) returns (q: nat)
    requires BootImage(r, image) && IsRun(r, image, states, events) && k < |states|
    ensures q <= k && Quiet(states[q]) && states[k].durable <= |states[k].writes|
    ensures states[q].writes == states[k].writes[..states[k].durable]
  {
    hide Inv, Step, HeaderStep;
    RunKeepsInv(r, image, states, events, k);
    InvBounds(r, image, states[k]);
    if k == 0 {
      q := 0;
    } else {
      var s, t := states[k - 1], states[k];
      RunKeepsInv(r, image, states, events, k - 1);
      q := DurableWasQuiet(r, image, states, events, k - 1);
      if HeaderStep(s, t) {
        q := k;
        HeaderStepQuiet(r, image, s, events[k - 1], t);
      } else {
        OtherStepKeeps(r, image, s, events[k - 1], t);
      }
    }
  }

  /** The disk write that makes everything durable. */
  ghost predicate HeaderStep(s: Sys, t: Sys) {
    s.phase.Committing? && !t.phase.Recovering? && s.phase.done == |s.blocks|
  }

  lemma {:induction false} HeaderStepQuiet(r: Region, image: Disk, s: Sys, e: Event, t: Sys)
    requires Inv(r, image, s) && Step(r, s, e, t) && HeaderStep(s, t)
    ensures Quiet(t) && t.durable == |t.writes|
  {
  }

  lemma {:induction false} OtherStepKeeps(r: Region, image: Disk, s: Sys, e: Event, t: Sys)
    requires Inv(r, image, s) && Step(r, s, e, t) && !HeaderStep(s, t) && t.durable <= |t.writes|
    ensures s.durable <= |s.writes| && t.writes[..t.durable] == s.writes[..s.durable]
  {
  }

  /** After a crash at any point, and any number of recoveries that are cut off, the home blocks are those that processes
      saw at some earlier moment at which no call was in progress; the writes of later calls are undone as a whole. */
  lemma {:induction false} RecoversToQuiet(r: Region, image: Disk, states: seq<Sys>, events: seq<Event>, k: nat, crashes: seq<nat>)
      returns (q: nat)
    requires BootImage(r, image) && IsRun(r, image, states, events) && k < |states|
    ensures q <= k && Quiet(states[q]) && LogWellFormed(r, states[k].disk)
    ensures states[k].durable <= |states[k].writes| && states[q].writes == states[k].writes[..states[k].durable]
    ensures SameHome(r, states[q].mem, Recovered(r, CrashSafety.CrashedRecoveries(r, states[k].disk, crashes)))
  {
    q := DurableWasQuiet(r, image, states, events, k);
    TransactionSafety(r, image, states, events, k, crashes);
    RunKeepsInv(r, image, states, events, q);
    QuietSeen(r, image, states[q]);
    hide Recovered, Apply;
  }

  lemma {:induction false} QuietSeen(r: Region, image: Disk, s: Sys)
    requires Inv(r, image, s) && Quiet(s)
    ensures SameHome(r, Apply(image, s.writes), s.mem)
  {
  }

  lemma {:induction false} InvBounds(r: Region, image: Disk, s: Sys)
    requires Inv(r, image, s)
    ensures s.durable <= |s.writes|
  {
  }

  lemma {:induction false} StepKeepsDurable(r: Region, image: Disk, s: Sys, e: Event, t: Sys)
    requires Inv(r, image, s) && Step(r, s, e, t)
    ensures s.durable <= t.durable && s.durable <= |s.writes| && s.durable <= |t.writes|
    ensures t.writes[..s.durable] == s.writes[..s.durable]
  {
  }

  // ---------- the panic in log_write ----------

  /** A call within its budget calls log_write, and log_write panics. */
  ghost predicate MeetsPanic(r: Region, s: Sys) {
    exists i: nat, b: Word :: WithinBudget(r, s, i, b) && TooBig(|s.blocks|, r.size)
  }

  ghost predicate PanickingRun(r: Region, image: Disk, states: seq<Sys>, events: seq<Event>) {
    IsRun(r, image, states, events) && MeetsPanic(r, states[|states| - 1])
  }

  ghost predicate CanPanic(r: Region, image: Disk) {
    exists states: seq<Sys>, events: seq<Event> :: PanickingRun(r, image, states, events)
  }

  /** The first log_write of a block by a call finds the header in memory not full. */
  lemma {:induction false} RoomForNewBlock(s: Sys, i: nat, b: Word)
    requires Reserved(s) && i < |s.ops| && b !in s.ops[i].blocks && |s.ops[i].blocks + {b}| <= MAXOPBLOCKS
    ensures |s.blocks| < LOGSIZE
  {
    UnusedRemove(s.ops, i);
    UnusedBounds(s.ops[..i] + s.ops[i + 1..]);
  }

  /** When log_write panics, in any state of any run. With a log that has a block for every entry of the header, exactly
      when the header is full, and then the call has logged the block before: it would not even need an entry. With a
      smaller log, exactly when the log is full, whatever the block. */
  lemma {:induction false} PanicsExactlyWhen(r: Region, image: Disk, states: seq<Sys>, events: seq<Event>, k: nat, i: nat, b: Word)
    requires BootImage(r, image) && IsRun(r, image, states, events) && k < |states|
    requires WithinBudget(r, states[k], i, b)
    ensures var s := states[k];
            && |s.blocks| <= LOGSIZE && |s.blocks| <= r.size - 1
            && (TooBig(|s.blocks|, r.size) <==> |s.blocks| == Capacity(r))
            && (TooBig(|s.blocks|, r.size) && r.size - 1 >= LOGSIZE ==> b in s.ops[i].blocks && b in s.blocks)
  {
    var s := states[k];
    RunKeepsInv(r, image, states, events, k);
    UnusedBounds(s.ops);
    if b !in s.ops[i].blocks {
      RoomForNewBlock(s, i, b);
    }
  }

  /** How many blocks can be logged: as many as the header has entries, or the log data blocks. */
  function Capacity(r: Region): int { if r.size - 1 < LOGSIZE then r.size - 1 else LOGSIZE }

  // Three calls share out the writes, MAXOPBLOCKS each, of the home blocks in order.

  /** The j-th block outside the log. */
  function HomeAt(r: Region, j: int): int { if j < r.start then j else j + r.size }

  function Quota(written: nat, op: nat): nat {
    if written <= op * MAXOPBLOCKS then 0
    else if written >= (op + 1) * MAXOPBLOCKS then MAXOPBLOCKS
    else written - op * MAXOPBLOCKS
  }

  ghost predicate Filled(r: Region, s: Sys, k: nat) {
    && s.phase.Running? && |s.ops| == 3
    && (forall i :: 0 <= i < 3 ==> s.ops[i].calls == Quota(k, i) && |s.ops[i].blocks| <= Quota(k, i))
    && |s.blocks| == k && (forall j :: 0 <= j < k ==> s.blocks[j] == HomeAt(r, j))
    && (0 < k <= LOGSIZE ==> s.blocks[k - 1] in s.ops[(k - 1) / MAXOPBLOCKS].blocks)
  }

  lemma {:induction false} ThreeBegin(r: Region, image: Disk) returns (states: seq<Sys>, events: seq<Event>)
    requires BootImage(r, image)
    ensures IsRun(r, image, states, events)
    ensures forall i :: 0 <= i < |states| ==> FewCalls(states[i])
    ensures Filled(r, states[|states| - 1], 0) && |states[|states| - 1].mem| == |states[|states| - 1].disk| == |image|
  {
    var s0 := Boot(image);
    var s1 := Begin(s0);
    var s2 := Begin(s1);
    var s3 := Begin(s2);
    states, events := [s0, s1, s2, s3], [BeginEvent, BeginEvent, BeginEvent];
  }

  lemma {:induction false} FillLog(r: Region, image: Disk, k: nat) returns (states: seq<Sys>, events: seq<Event>)
    requires BootImage(r, image) && k <= Capacity(r) && k + r.size <= |image| <= 0x8000_0000
    ensures IsRun(r, image, states, events)
    ensures forall i :: 0 <= i < |states| ==> FewCalls(states[i])
    ensures Filled(r, states[|states| - 1], k) && |states[|states| - 1].mem| == |states[|states| - 1].disk| == |image|
  {
    if k == 0 {
      states, events := ThreeBegin(r, image);
    } else {
      states, events := FillLog(r, image, k - 1);
      var s := states[|states| - 1];
      var i, b, data := (k - 1) / MAXOPBLOCKS, HomeAt(r, k - 1), s.mem[0];
      FillOne(r, s, k, b, data);
      hide Step, Filled, FewCalls;
      states, events := states + [Write(s, i, b, data)], events + [WriteEvent(i, b, data)];
    }
  }

  lemma {:induction false} FillOne(r: Region, s: Sys, k: nat, b: Word, data: Block)
    requires 0 < k <= Capacity(r) && Filled(r, s, k - 1) && FewCalls(s)
    requires k + r.size <= |s.mem| == |s.disk| && r.start + r.size <= |s.disk| && b == HomeAt(r, k - 1)
    ensures var i := (k - 1) / MAXOPBLOCKS;
            && i < |s.ops| && 0 <= b < |s.mem| && Step(r, s, WriteEvent(i, b, data), Write(s, i, b, data))
            && Filled(r, Write(s, i, b, data), k) && FewCalls(Write(s, i, b, data))
            && |Write(s, i, b, data).mem| == |Write(s, i, b, data).disk| == |s.disk|
  {
    var i := (k - 1) / MAXOPBLOCKS;
    assert b !in s.blocks;
    assert |s.ops[i].blocks + {b}| <= |s.ops[i].blocks| + 1;
  }

  /** Distinct home blocks are no more than there are. */
  lemma {:induction false} HomeBlocks(r: Region, diskSize: nat, blocks: seq<Word>)
    requires Loggable(r, diskSize, blocks)
    ensures |blocks| <= diskSize - r.size
  {
    var places := seq(|blocks|, i requires 0 <= i < |blocks| => if blocks[i] < r.start then blocks[i] else blocks[i] - r.size);
    DistinctBelow(places, diskSize - r.size);
  }

  lemma {:induction false} DistinctBelow(s: seq<int>, n: nat)
    requires forall i, j :: 0 <= i < j < |s| ==> s[i] != s[j]
    requires forall i :: 0 <= i < |s| ==> 0 <= s[i] < n
    ensures |s| <= n
  {
    if s == [] {
      return;
    }
    assert 0 <= s[0] < n;
    if k :| 0 <= k < |s| && s[k] == n - 1 {
      var rest := s[..k] + s[k + 1..];
      forall i, j | 0 <= i < j < |rest|
        ensures rest[i] != rest[j] && 0 <= rest[i] < n - 1 && 0 <= rest[j] < n - 1
      {
        assert rest[i] == s[if i < k then i else i + 1] && rest[j] == s[if j < k then j else j + 1];
      }
      forall i | 0 <= i < |rest|
        ensures 0 <= rest[i] < n - 1
      {
        assert rest[i] == s[if i < k then i else i + 1];
      }
      DistinctBelow(rest, n - 1);
    } else {
      DistinctBelow(s, n - 1);
    }
  }

  /** "too big a transaction" can be reached by calls that keep to MAXOPBLOCKS distinct blocks each, whatever the size of
      the log, exactly if the disk has as many home blocks as can be logged (and one to call log_write for). */
  lemma {:induction false} PanicReachableIff(r: Region, image: Disk)
    requires BootImage(r, image) && |image| <= 0x8000_0000
    ensures CanPanic(r, image) <==> |image| - r.size >= Capacity(r) && |image| > r.size
  {
    if states: seq<Sys>, events: seq<Event> :| PanickingRun(r, image, states, events) {
      var k := |states| - 1;
      var s := states[k];
      var i: nat, b: Word :| WithinBudget(r, s, i, b) && TooBig(|s.blocks|, r.size);
      PanicsExactlyWhen(r, image, states, events, k, i, b);
      GroupCommit(r, image, states, events, k);
      HomeBlocks(r, |image|, s.blocks);
      RunKeepsSize(r, image, states, events, k);
      OneHome(r, |image|, b);
    }
    if |image| - r.size >= Capacity(r) && |image| > r.size {
      var states, events := FillLog(r, image, Capacity(r));
      FullMeetsPanic(r, states[|states| - 1], |image|);
      assert PanickingRun(r, image, states, events);
    }
  }

  lemma {:induction false} OneHome(r: Region, diskSize: nat, b: Word)
    requires Home(r, diskSize, b) && r.start + r.size <= diskSize
    ensures diskSize > r.size
  {
  }

  lemma {:induction false} RunKeepsSize(r: Region, image: Disk, states: seq<Sys>, events: seq<Event>, k: nat)
    requires BootImage(r, image) && IsRun(r, image, states, events) && k < |states|
    ensures |states[k].disk| == |image|
  {
    RunKeepsInv(r, image, states, events, k);
  }

  /** When as many blocks are logged as can be, the third call meets the panic: by its last block once more, or, while it
      has logged fewer than ten, by any block. */
  lemma {:induction false} FullMeetsPanic(r: Region, s: Sys, diskSize: nat)
    requires r.size > 0 && Filled(r, s, Capacity(r)) && |s.disk| == diskSize <= 0x8000_0000
    requires Capacity(r) + r.size <= diskSize && diskSize > r.size && r.start + r.size <= diskSize
    ensures MeetsPanic(r, s)
  {
    var k := Capacity(r);
    if k == LOGSIZE {
      var b := s.blocks[k - 1];
      assert s.ops[2].blocks + {b} == s.ops[2].blocks;
      assert WithinBudget(r, s, 2, b);
    } else {
      var b: Word := HomeAt(r, 0);
      assert |s.ops[2].blocks + {b}| <= |s.ops[2].blocks| + 1;
      assert WithinBudget(r, s, 2, b);
    }
  }

  // ---------- counting calls of log_write instead of blocks ----------

  /** Every call has called log_write at most MAXOPBLOCKS times, which the source does not promise: an append calls it
      three times for each new block, and for some blocks again and again. */
  ghost predicate FewCalls(s: Sys) {
    forall i :: 0 <= i < |s.ops| ==> s.ops[i].calls <= MAXOPBLOCKS
  }

  ghost predicate FewCallsRun(r: Region, image: Disk, states: seq<Sys>, events: seq<Event>) {
    && IsRun(r, image, states, events) && (forall k :: 0 <= k < |states| ==> FewCalls(states[k]))
    && var s := states[|states| - 1];
       s.phase.Running? && TooBig(|s.blocks|, r.size) && exists i :: 0 <= i < |s.ops| && s.ops[i].calls < MAXOPBLOCKS
  }

  lemma {:induction false} RoomForFewCalls(r: Region, image: Disk, s: Sys, i: nat)
    requires Inv(r, image, s) && i < |s.ops| && s.ops[i].calls < MAXOPBLOCKS
    ensures |s.blocks| < LOGSIZE
  {
    UnusedRemove(s.ops, i);
    UnusedBounds(s.ops[..i] + s.ops[i + 1..]);
  }

  /** Were calls to log_write limited to MAXOPBLOCKS per system call, a log with a block for every entry of the header
      would exclude the panic, and only such a log. */
  lemma {:induction false} FewCallsPanicIff(r: Region, image: Disk)
    requires BootImage(r, image) && |image| <= 0x8000_0000 && LOGSIZE + r.size <= |image|
    ensures (exists states: seq<Sys>, events: seq<Event> :: FewCallsRun(r, image, states, events)) <==> r.size - 1 < LOGSIZE
  {
    if states: seq<Sys>, events: seq<Event> :| FewCallsRun(r, image, states, events) {
      var s := states[|states| - 1];
      RunKeepsInv(r, image, states, events, |states| - 1);
      var i :| 0 <= i < |s.ops| && s.ops[i].calls < MAXOPBLOCKS;
      RoomForFewCalls(r, image, s, i);
    }
    if r.size - 1 < LOGSIZE {
      var states, events := FillLog(r, image, r.size - 1);
      var s := states[|states| - 1];
      assert s.ops[2].calls < MAXOPBLOCKS;
      assert FewCallsRun(r, image, states, events);
    }
  }
}
