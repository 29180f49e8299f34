/** A commit one disk write at a time, with other processes in between: readers may refer to, lock and release buffers of
    other blocks before every write.
 */
module CommitTurns {
  import opened LogDisk
  import opened BufferCache
  import opened RedoLog
  import CrashSafety

  /** How far a commit has got: k blocks are in the log, or the header is written and k blocks are installed, or the
      header has been cleared as well. */
  datatype Stage = Logging(k: nat) | Installing(k: nat) | Done

  /** The number of disk writes so far, for a commit of n blocks. */
  function Writes(stage: Stage, n: nat): nat {
    match stage
    case Logging(k) => k
    case Installing(k) => n + 1 + k
    case Done => n + 1 + n + 1
  }

  function Next(stage: Stage, n: nat): Stage {
    match stage
    case Logging(k) => if k < n then Logging(k + 1) else Installing(0)
    case Installing(k) => if k < n then Installing(k + 1) else Done
    case Done => Done
  }

  /** A commit of `data` to `blocks`, on a disk d seen as v, with the images `was` before it. */
  datatype Job = Job(r: Region, blocks: seq<Word>, data: seq<Block>, d: Disk, v: Disk, was: seq<Disk>)

  ghost predicate JobOk(j: Job) {
    && Loggable(j.r, |j.d|, j.blocks) && |j.v| == |j.d| && j.blocks != []
    && j.data == NewContents(j.blocks, j.v) && LogWellFormed(j.r, j.d)
  }

  /** What the cache shows when the header has been written. */
  ghost function SeenLogged(j: Job): Disk
    requires JobOk(j)
  {
    LogWritten(j.r, j.v, j.data, |j.data|)[j.r.start := CommitPoint(j.r, j.d, j.blocks, j.data)[j.r.start]]
  }

  ghost function ImagesLogged(j: Job): seq<Disk>
    requires JobOk(j)
  {
    j.was + LogImages(j.r, j.d, j.data, |j.data|) + [CommitPoint(j.r, j.d, j.blocks, j.data)]
  }

  /** The log, the disk and the cache at a stage, whatever buffers of other blocks are in use. */
  ghost predicate At(log: Log, stage: Stage, j: Job)
    reads log, log.block, log.bc, log.bc.buf, log.bc.next, log.bc.prev
  {
    && JobOk(j) && j.r == log.Place() && log.Shape()
    && match stage
       case Logging(k) => log.LogWriting(k, j.blocks, j.data, log.bc.buf[..], j.d, j.v, j.was)
       case Installing(k) =>
         && log.bc.Pins() == Elements(if k <= |j.blocks| then j.blocks[k..] else [])
         && log.Installing(k, j.blocks, log.bc.buf[..], CommitPoint(j.r, j.d, j.blocks, j.data), SeenLogged(j), ImagesLogged(j))
       case Done =>
         && log.Valid() && log.n == 0 && log.OthersElsewhere(j.blocks) && log.bc.Pins() == {}
         && log.bc.images == j.was + CommitImages(j.r, j.d, j.blocks, j.data)
         && log.bc.disk == log.bc.images[|log.bc.images| - 1] && SameHome(j.r, j.v, log.bc.View())
  }

  /** A commit begins at the first stage. */
  lemma {:induction false} Begins(log: Log)
    requires log.Valid() && log.OthersElsewhere(log.Logged()) && log.n > 0
    ensures |log.bc.View()| == |log.bc.disk| && Loggable(log.Place(), |log.bc.View()|, log.Logged())
    ensures var blocks, v := log.Logged(), log.bc.View();
            At(log, Logging(0), Job(log.Place(), blocks, NewContents(blocks, v), log.bc.disk, v, log.bc.images))
  {
    HeldItself(log.bc.buf[..]);
    hide log.bc.Valid, log.bc.View, log.bc.Pins, SameHeld, Elsewhere;
  }

  // ---------- the turns of the commit ----------

  /** The next disk write. The panic for want of a buffer (!ok) is met at exactly those writes that find every buffer
      referred to or pinned, and then nothing is written. */
  method Turn(log: Log, stage: Stage, ghost j: Job) returns (ok: bool)
    requires At(log, stage, j) && stage != Done
    modifies log`n, log.bc, log.bc.buf, log.bc.next, log.bc.prev
    ensures ok <==> old(log.bc.SomeFree())
    ensures ok ==> At(log, Next(stage, |j.blocks|), j)
    ensures !ok ==> log.bc.disk == old(log.bc.disk) && log.bc.images == old(log.bc.images)
  {
    match stage
    case Logging(k) =>
      if k < log.n {
        ok := WriteBlock(log, k, j);
      } else {
        ok := WriteHeader(log, k, j);
      }
    case Installing(k) =>
      if k < log.n {
        ok := InstallBlock(log, k, j);
      } else {
        ok := ClearHeader(log, k, j);
      }
  }

  lemma {:induction false} LoggingRebased(log: Log, k: nat, j: Job, bufs: seq<Buf>)
    requires log.LogWriting(k, j.blocks, j.data, bufs, j.d, j.v, j.was)
    ensures log.LogWriting(k, j.blocks, j.data, log.bc.buf[..], j.d, j.v, j.was)
  {
    HeldItself(log.bc.buf[..]);
    hide log.bc.Valid, log.bc.View, log.bc.Pins, SameHeld, Elsewhere, Loggable, LogWritten, LogImages;
  }

  method WriteBlock(log: Log, k: nat, ghost j: Job) returns (ok: bool)
    requires At(log, Logging(k), j) && k < log.n
    modifies log.bc, log.bc.buf, log.bc.next, log.bc.prev
    ensures k < |j.blocks| && ok == old(log.bc.SomeFree())
    ensures At(log, Logging(if ok then k + 1 else k), j)
    ensures !ok ==> log.bc.disk == old(log.bc.disk) && log.bc.images == old(log.bc.images)
  {
    ghost var bufs := log.bc.buf[..];
    hide log.LogWriting, log.bc.Valid, log.bc.View, log.bc.Pins, log.bc.SomeFree, JobOk;
    LoggedAre(log, k, j);
    ok := log.LogNext(k, j.blocks, j.data, bufs, j.d, j.v, j.was);
    LoggingRebased(log, if ok then k + 1 else k, j, bufs);
    ShapeOf(log, if ok then k + 1 else k, j);
  }

  lemma {:induction false} LoggedAre(log: Log, k: nat, j: Job)
    requires log.LogWriting(k, j.blocks, j.data, log.bc.buf[..], j.d, j.v, j.was)
    ensures log.n == |j.blocks| == |j.data| && k <= log.n
  {
  }

  lemma {:induction false} ShapeOf(log: Log, k: nat, j: Job)
    requires log.LogWriting(k, j.blocks, j.data, log.bc.buf[..], j.d, j.v, j.was)
    ensures log.Shape()
  {
  }

  /** What the header write needs, and what it makes of the last of the log writes. */
  lemma {:induction false} AllLogged(log: Log, k: nat, j: Job)
    requires At(log, Logging(k), j) && k >= log.n
    ensures k == log.n == |j.blocks| == |j.data| && log.Logged() == j.blocks && log.OthersElsewhere(j.blocks)
    ensures log.start < |log.bc.disk| && log.start !in log.bc.Pins() && log.bc.Unreferenced(log.start)
    ensures log.bc.Pins() == Elements(j.blocks) && |log.bc.disk| == |j.d|
    ensures log.bc.disk == LogWritten(j.r, j.d, j.data, |j.data|) && log.bc.View() == LogWritten(j.r, j.v, j.data, |j.data|)
    ensures log.bc.images == j.was + LogImages(j.r, j.d, j.data, |j.data|)
  {
    assert j.r.Contains(j.r.start);
    hide log.bc.Valid, log.bc.View, LogWritten, LogImages, NewContents;
    log.UnreferencedBlocks(j.blocks, 0);
  }

  method WriteHeader(log: Log, k: nat, ghost j: Job) returns (ok: bool)
    requires At(log, Logging(k), j) && k >= log.n
    modifies log`n, log.bc, log.bc.buf, log.bc.next, log.bc.prev
    ensures k == |j.blocks| && ok == old(log.bc.SomeFree())
    ensures ok ==> At(log, Installing(0), j)
    ensures !ok ==> log.bc.disk == old(log.bc.disk) && log.bc.images == old(log.bc.images)
  {
    ghost var bufs := log.bc.buf[..];
    AllLogged(log, k, j);
    hide log.bc.Valid, log.bc.View, log.bc.Pins, log.bc.SomeFree, LogWritten, LogImages, NewContents, Elements, SameHeld, Elsewhere;
    ok := log.WriteHead();
    HeldOn(log.Place(), bufs, log.bc.buf[..], j.blocks);
    HeldItself(log.bc.buf[..]);
    if ok {
      HeaderWritten(log, j);
    }
  }

  lemma {:induction false} HeaderWritten(log: Log, j: Job)
    requires JobOk(j) && j.r == log.Place() && log.Shape() && log.Logged() == j.blocks
    requires log.OthersElsewhere(j.blocks) && log.bc.HeldAs(log.bc.buf[..]) && log.bc.Pins() == Elements(j.blocks)
    requires log.bc.disk == CommitPoint(j.r, j.d, j.blocks, j.data) && log.bc.View() == SeenLogged(j) && log.bc.images == ImagesLogged(j)
    ensures At(log, Installing(0), j)
  {
    FirstInstalled(j.r, log.bc.disk, j.blocks);
    FirstInstalled(j.r, log.bc.View(), j.blocks);
    assert j.blocks[0..] == j.blocks;
    hide log.bc.Valid, log.bc.View, log.bc.Pins, LogWritten, LogImages, Installed, InstallImages, NewContents, Elements, SameHeld, Elsewhere;
  }

  method InstallBlock(log: Log, k: nat, ghost j: Job) returns (ok: bool)
    requires At(log, Installing(k), j) && k < log.n
    modifies log.bc, log.bc.buf, log.bc.next, log.bc.prev
    ensures k < |j.blocks| && ok == old(log.bc.SomeFree())
    ensures At(log, Installing(if ok then k + 1 else k), j)
    ensures !ok ==> log.bc.disk == old(log.bc.disk) && log.bc.images == old(log.bc.images)
  {
    ghost var bufs := log.bc.buf[..];
    InstallingNow(log, k, j, bufs);
    ElementsAfter(j.blocks, k);
    hide log.Installing, log.bc.Valid, log.bc.View, log.bc.Pins, log.bc.SomeFree, JobOk, Elements;
    ok := log.InstallNext(k, j.blocks, bufs, CommitPoint(j.r, j.d, j.blocks, j.data), SeenLogged(j), ImagesLogged(j));
    InstallingRebased(log, if ok then k + 1 else k, j, bufs);
  }

  lemma {:induction false} InstallingNow(log: Log, k: nat, j: Job, bufs: seq<Buf>)
    requires JobOk(j) && log.Installing(k, j.blocks, bufs, CommitPoint(j.r, j.d, j.blocks, j.data), SeenLogged(j), ImagesLogged(j))
    ensures log.n == |j.blocks| && k <= log.n && log.Shape() && log.Logged() == j.blocks
  {
  }

  lemma {:induction false} InstallingRebased(log: Log, k: nat, j: Job, bufs: seq<Buf>)
    requires JobOk(j) && k <= |j.blocks|
    requires log.Installing(k, j.blocks, bufs, CommitPoint(j.r, j.d, j.blocks, j.data), SeenLogged(j), ImagesLogged(j))
    requires log.bc.Pins() == Elements(j.blocks[k..])
    ensures log.Shape() && log.bc.Pins() == Elements(j.blocks[k..])
    ensures log.Installing(k, j.blocks, log.bc.buf[..], CommitPoint(j.r, j.d, j.blocks, j.data), SeenLogged(j), ImagesLogged(j))
  {
    HeldItself(log.bc.buf[..]);
    hide log.bc.Valid, log.bc.View, log.bc.Pins, SameHeld, Elsewhere, Installed, InstallImages, LogWritten, LogImages, NewContents, Elements;
  }

  /** What clearing the header needs, and what it makes of the last of the installations. */
  lemma {:induction false} AllInstalled(log: Log, k: nat, j: Job)
    requires At(log, Installing(k), j) && k >= log.n
    ensures k == log.n == |j.blocks| && log.Logged() == j.blocks && log.OthersElsewhere(j.blocks) && log.bc.Pins() == {}
    ensures log.start < |log.bc.disk| && log.bc.Unreferenced(log.start)
    ensures var e := CommitPoint(j.r, j.d, j.blocks, j.data);
            && log.bc.disk == Installed(j.r, e, j.blocks, |j.blocks|) && |log.bc.disk| == |j.d|
            && log.bc.View() == Installed(j.r, SeenLogged(j), j.blocks, |j.blocks|)
            && log.bc.images == ImagesLogged(j) + InstallImages(j.r, e, j.blocks, |j.blocks|)
  {
    assert j.r.Contains(j.r.start);
    assert j.blocks[|j.blocks|..] == [] && Elements([]) == {};
    hide log.bc.Valid, log.bc.View, LogWritten, LogImages, NewContents, Installed, InstallImages;
    log.UnreferencedBlocks(j.blocks, 0);
  }

  method ClearHeader(log: Log, k: nat, ghost j: Job) returns (ok: bool)
    requires At(log, Installing(k), j) && k >= log.n
    modifies log`n, log.bc, log.bc.buf, log.bc.next, log.bc.prev
    ensures k == |j.blocks| && ok == old(log.bc.SomeFree())
    ensures ok ==> At(log, Done, j)
    ensures !ok ==> log.bc.disk == old(log.bc.disk) && log.bc.images == old(log.bc.images)
  {
    ghost var bufs := log.bc.buf[..];
    AllInstalled(log, k, j);
    hide log.bc.Valid, log.bc.View, log.bc.Pins, log.bc.SomeFree, LogWritten, LogImages, Installed, InstallImages, NewContents;
    hide Elements, SameHeld, Elsewhere, CommitPoint;
    log.n := 0;
    ok := log.WriteHead();
    HeldOn(log.Place(), bufs, log.bc.buf[..], j.blocks);
    if ok {
      HeaderCleared(log, j);
    }
  }

  lemma {:induction false} HeaderCleared(log: Log, j: Job)
    requires JobOk(j) && j.r == log.Place() && log.Shape() && log.n == 0 && log.OthersElsewhere(j.blocks) && log.bc.Pins() == {}
    requires var e := CommitPoint(j.r, j.d, j.blocks, j.data);
             && log.bc.disk == HeadWritten(j.r, Installed(j.r, e, j.blocks, |j.blocks|), [])
             && log.bc.View() == Installed(j.r, SeenLogged(j), j.blocks, |j.blocks|)[j.r.start := log.bc.disk[j.r.start]]
             && log.bc.images == ImagesLogged(j) + InstallImages(j.r, e, j.blocks, |j.blocks|) + [log.bc.disk]
    ensures At(log, Done, j)
  {
    var e := CommitPoint(j.r, j.d, j.blocks, j.data);
    CommitResult(j.r, j.d, j.blocks, j.data);
    CommitKeepsView(j.r, j.v, SeenLogged(j), j.blocks, j.data, e[j.r.start], log.bc.disk[j.r.start]);
    AppendFour(j.was, LogImages(j.r, j.d, j.data, |j.data|), [e], InstallImages(j.r, e, j.blocks, |j.blocks|), [log.bc.disk]);
    hide log.bc.Valid, log.bc.View, log.bc.Pins, LogWritten, LogImages, Installed, InstallImages, NewContents, SameHome, Elsewhere;
    assert log.Logged() == [];
  }

  // ---------- the images so far ----------

  /** At every stage the disk has been written exactly as the crash theorems say: the images are the first of those of
      the whole commit, and the disk is the last of them. */
  lemma {:induction false} ImagesAt(log: Log, stage: Stage, j: Job)
    requires At(log, stage, j)
    ensures var images, w := CommitImages(j.r, j.d, j.blocks, j.data), Writes(stage, |j.blocks|);
            && w <= |images| && log.bc.images == j.was + images[..w]
            && log.bc.disk == (if w == 0 then j.d else images[w - 1])
  {
    var n := |j.blocks|;
    var e := CommitPoint(j.r, j.d, j.blocks, j.data);
    var images := CommitImages(j.r, j.d, j.blocks, j.data);
    var w := Writes(stage, n);
    match stage
    case Logging(k) =>
      ImagesPrefix(j, k);
    case Installing(k) =>
      InstallPrefix(j, k);
    case Done =>
      assert images[..w] == images;
  }

  lemma {:induction false} ImagesPrefix(j: Job, k: nat)
    requires JobOk(j) && k <= |j.data|
    ensures LogImages(j.r, j.d, j.data, k) == CommitImages(j.r, j.d, j.blocks, j.data)[..k]
  {
    var a, b := LogImages(j.r, j.d, j.data, k), LogImages(j.r, j.d, j.data, |j.data|);
    assert forall i :: 0 <= i < k ==> a[i] == b[i];
  }

  lemma {:induction false} InstallPrefix(j: Job, k: nat)
    requires JobOk(j) && k <= |j.blocks|
    ensures var e := CommitPoint(j.r, j.d, j.blocks, j.data);
            ImagesLogged(j) + InstallImages(j.r, e, j.blocks, k)
            == j.was + CommitImages(j.r, j.d, j.blocks, j.data)[..|j.blocks| + 1 + k]
  {
    var e, n := CommitPoint(j.r, j.d, j.blocks, j.data), |j.blocks|;
    var a, b := InstallImages(j.r, e, j.blocks, k), InstallImages(j.r, e, j.blocks, n);
    assert forall i :: 0 <= i < k ==> a[i] == b[i];
    var logged := LogImages(j.r, j.d, j.data, |j.data|);
    assert b[..k] == a;
    assert CommitImages(j.r, j.d, j.blocks, j.data) == logged + [e] + (b + [HeadWritten(j.r, Installed(j.r, e, j.blocks, n), [])]);
    hide *;
    PrefixOf(logged, e, b, HeadWritten(j.r, Installed(j.r, e, j.blocks, n), []), k);
    Append(j.was, logged, [e], a);
  }

  lemma {:induction false} PrefixOf<T>(a: seq<T>, e: T, b: seq<T>, c: T, k: nat)
    requires k <= |b|
    ensures (a + [e] + (b + [c]))[..|a| + 1 + k] == a + [e] + b[..k]
  {
  }

  lemma {:induction false} Append<T>(a: seq<T>, b: seq<T>, c: seq<T>, d: seq<T>)
    ensures a + b + c + d == a + (b + c + d)
  {
  }

  // ---------- other processes in between ----------

  /** A process reads another block, or begins to wait for it. */
  method OtherReads(log: Log, blockno: nat, ghost stage: Stage, ghost j: Job) returns (r: Option<nat>, waits: bool)
    requires At(log, stage, j) && blockno < |log.bc.disk| && !log.Place().Contains(blockno) && blockno !in j.blocks
    modifies log.bc.buf, log.bc`disk, log.bc`images
    ensures At(log, stage, j)
    ensures waits <==> old(log.bc.Locked(blockno))
    ensures r.Some? && !waits ==> log.bc.Held(r.value, blockno) && log.bc.buf[r.value].data == log.bc.View()[blockno]
  {
    OthersNow(log, stage, j);
    ghost var before := log.bc.buf[..];
    hide log.bc.Valid, log.bc.View, log.bc.Pins, LogWritten, LogImages, Installed, InstallImages, NewContents, SameHome, Elsewhere, SameHeld;
    hide JobOk, Loggable, LogWellFormed, CommitPoint, SeenLogged, ImagesLogged, Elements, CommitImages, HeadCount;
    r, waits := log.bc.Bread(blockno);
    ghost var b := if r.Some? then r.value else 0;
    OneMoreElsewhere(log.Place(), before, log.bc.buf[..], j.blocks, b);
    HeldItself(log.bc.buf[..]);
  }

  lemma {:induction false} OthersNow(log: Log, stage: Stage, j: Job)
    requires At(log, stage, j)
    ensures log.bc.Valid() && log.OthersElsewhere(j.blocks) && j.r == log.Place() && |log.bc.disk| == |j.d|
    ensures log.block as object != log.bc.buf && log.block as object != log.bc.next && log.block as object != log.bc.prev
  {
  }

  lemma {:induction false} OneMoreElsewhere(r: Region, before: seq<Buf>, after: seq<Buf>, blocks: seq<Word>, b: nat)
    requires Elsewhere(r, before, blocks) && b < |before| == |after| && after == before[b := after[b]]
    requires after[b] == before[b] || !(after[b].refcnt > 0) || (!r.Contains(after[b].blockno) && after[b].blockno !in blocks)
    ensures Elsewhere(r, after, blocks)
  {
  }

  /** A waiting process gets the lock, and with it the contents. */
  method OtherGoesOn(log: Log, b: nat, ghost stage: Stage, ghost j: Job) returns (ok: bool)
    requires At(log, stage, j) && b < NBUF
    requires log.bc.buf[b].refcnt > 0 && log.bc.buf[b].dev == ROOTDEV && log.bc.buf[b].blockno < |log.bc.disk|
    modifies log.bc.buf, log.bc`disk, log.bc`images
    ensures At(log, stage, j)
    ensures ok <==> !old(log.bc.buf[b].locked)
    ensures ok ==> var n := log.bc.buf[b].blockno; log.bc.Held(b, n) && log.bc.buf[b].data == log.bc.View()[n]
  {
    OthersNow(log, stage, j);
    ghost var before := log.bc.buf[..];
    assert !log.Place().Contains(before[b].blockno) && before[b].blockno !in j.blocks;
    hide log.bc.Valid, log.bc.View, log.bc.Pins, LogWritten, LogImages, Installed, InstallImages, NewContents, SameHome, Elsewhere, SameHeld;
    hide JobOk, Loggable, LogWellFormed, CommitPoint, SeenLogged, ImagesLogged, Elements, CommitImages, HeadCount;
    ok := log.bc.Acquire(b);
    if ok {
      log.bc.ReadIn(b);
    }
    OneMoreElsewhere(log.Place(), before, log.bc.buf[..], j.blocks, b);
    HeldItself(log.bc.buf[..]);
  }

  /** A reader releases a buffer. */
  method OtherReleases(log: Log, b: nat, ghost stage: Stage, ghost j: Job)
    requires At(log, stage, j) && b < NBUF && log.bc.buf[b].locked
    requires log.bc.buf[b].dirty || !log.bc.buf[b].valid
             || (log.bc.buf[b].blockno < |log.bc.disk| && log.bc.buf[b].data == log.bc.disk[log.bc.buf[b].blockno])
    modifies log.bc.buf, log.bc.next, log.bc.prev, log.bc`order
    ensures At(log, stage, j)
    ensures !log.bc.buf[b].locked && log.bc.buf[b].refcnt == old(log.bc.buf[b].refcnt) - 1
  {
    OthersNow(log, stage, j);
    ghost var before := log.bc.buf[..];
    assert before[b] == log.bc.buf[b];
    hide log.bc.Valid, log.bc.View, log.bc.Pins, LogWritten, LogImages, Installed, InstallImages, NewContents, SameHome, Elsewhere, SameHeld;
    hide JobOk, Loggable, LogWellFormed, CommitPoint, SeenLogged, ImagesLogged, Elements, CommitImages, HeadCount;
    log.bc.Brelse(b);
    OneMoreElsewhere(log.Place(), before, log.bc.buf[..], j.blocks, b);
    HeldItself(log.bc.buf[..]);
  }
}
