/** The redo log over the buffer cache: group commit in memory, the commit itself, and recovery. */
module RedoLog {
  import opened LogDisk
  import opened BufferCache
  import CrashSafety

  function Elements(s: seq<int>): set<int> { set x | x in s }

  lemma {:induction false} ElementsAfter(s: seq<int>, i: nat)
    requires i < |s| && forall j, k :: 0 <= j < k < |s| ==> s[j] != s[k]
    ensures Elements(s[i + 1..]) == Elements(s[i..]) - {s[i]}
  {
    assert s[i..] == [s[i]] + s[i + 1..] && s[i] !in s[i + 1..];
  }

  lemma {:induction false} FirstInstalled(r: Region, d: Disk, blocks: seq<Word>)
    requires Loggable(r, |d|, blocks)
    ensures Installed(r, d, blocks, 0) == d && InstallImages(r, d, blocks, 0) == []
  {
  }

  lemma {:induction false} NextInstalled(r: Region, d: Disk, blocks: seq<Word>, k: nat)
    requires Loggable(r, |d|, blocks) && k < |blocks|
    ensures var e := Installed(r, d, blocks, k);
            var e' := Installed(r, d, blocks, k + 1);
            && e' == e[blocks[k] := e[r.Slot(k)]]
            && InstallImages(r, d, blocks, k + 1) == InstallImages(r, d, blocks, k) + [e']
  {
  }

  lemma {:induction false} NextLogWritten(r: Region, d: Disk, data: seq<Block>, k: nat)
    requires k < |data| < r.size && r.start + r.size <= |d|
    ensures var e := LogWritten(r, d, data, k + 1);
            && e == LogWritten(r, d, data, k)[r.Slot(k) := data[k]]
            && LogImages(r, d, data, k + 1) == LogImages(r, d, data, k) + [e]
  {
  }

  /** The numbers below n. */
  ghost function Below(n: nat): (s: set<int>)
    ensures |s| == n && forall b :: b in s <==> 0 <= b < n
  {
    if n == 0 then {} else Below(n - 1) + {n - 1}
  }

  /** Different buffers below n, with different blocks, all among these. */
  lemma {:induction false} PinnedAtMost(pinned: set<int>, n: nat, at: seq<int>, blocks: seq<int>)
    requires n <= |at| && (forall b :: b in pinned ==> 0 <= b < n) && (forall b :: b in pinned ==> at[b] in blocks)
    requires forall b, c :: b in pinned && c in pinned && b != c ==> at[b] != at[c]
    ensures |pinned| <= |blocks|
  {
    if n == 0 {
      assert forall b :: b !in pinned;
    } else if n - 1 in pinned {
      var k :| 0 <= k < |blocks| && blocks[k] == at[n - 1];
      var rest := blocks[..k] + blocks[k + 1..];
      forall c | c in pinned - {n - 1}
        ensures at[c] in rest
      {
        var m :| 0 <= m < |blocks| && blocks[m] == at[c];
        assert rest[if m < k then m else m - 1] == blocks[m];
      }
      PinnedAtMost(pinned - {n - 1}, n - 1, at, rest);
    } else {
      PinnedAtMost(pinned, n - 1, at, blocks);
    }
  }

  ghost predicate HasBuffer(pinned: set<int>, at: seq<int>, block: int) {
    exists b :: b in pinned && 0 <= b < |at| && at[b] == block
  }

  lemma {:induction false} PinnedAtLeast(pinned: set<int>, at: seq<int>, blocks: seq<int>)
    requires forall i, j :: 0 <= i < j < |blocks| ==> blocks[i] != blocks[j]
    requires forall i :: 0 <= i < |blocks| ==> HasBuffer(pinned, at, blocks[i])
    ensures |blocks| <= |pinned|
  {
    if blocks != [] {
      var last := |blocks| - 1;
      assert HasBuffer(pinned, at, blocks[last]);
      var b :| b in pinned && 0 <= b < |at| && at[b] == blocks[last];
      forall i | 0 <= i < last
        ensures HasBuffer(pinned - {b}, at, blocks[..last][i])
      {
        assert HasBuffer(pinned, at, blocks[i]);
        var c :| c in pinned && 0 <= c < |at| && at[c] == blocks[i];
        assert c in pinned - {b};
      }
      PinnedAtLeast(pinned - {b}, at, blocks[..last]);
    }
  }

  /** Two disjoint sets of buffers leave none over exactly if they are as many as the buffers. */
  lemma {:induction false} NoneOver(a: set<int>, b: set<int>, n: nat)
    requires a !! b && a <= Below(n) && b <= Below(n)
    ensures |a| + |b| <= n
    ensures |a| + |b| == n <==> forall k :: 0 <= k < n ==> k in a || k in b
  {
    var rest := Below(n) - (a + b);
    assert Below(n) == (a + b) + rest && |a + b| == |a| + |b|;
    if k :| k in rest {
      assert |rest - {k}| == |rest| - 1;
    } else {
      assert forall k :: k !in rest;
      assert rest == {};
    }
  }

  /** The disk at the end of a commit: recovered from its commit point, with an empty log. */
  lemma {:induction false} CommitResult(r: Region, d: Disk, blocks: seq<Word>, data: seq<Block>)
    requires LogWellFormed(r, d) && Loggable(r, |d|, blocks) && |data| == |blocks|
    ensures var e := HeadWritten(r, Installed(r, CommitPoint(r, d, blocks, data), blocks, |blocks|), []);
            LogWellFormed(r, e) && HeadCount(e[r.start]) == 0
  {
    CrashSafety.CommittedAfterHeader(r, d, blocks, data);
    CrashSafety.RecoverCommitted(r, d, CommitPoint(r, d, blocks, data), blocks, data);
  }

  /** What the cache shows of a block outside the log does not change: an installed block was seen all along.
      `logged` is the view when the log has been written, h the header block. */
  lemma {:induction false} CommitKeepsBlock(r: Region, v: Disk, logged: Disk, blocks: seq<Word>, data: seq<Block>, h: Block, b: nat)
    requires Loggable(r, |v|, blocks) && data == NewContents(blocks, v) && b < |v| && !r.Contains(b)
    requires |logged| == |v| && logged == LogWritten(r, v, data, |data|)[r.start := h]
    ensures Installed(r, logged, blocks, |blocks|)[b] == v[b]
  {
    hide LogWritten, Installed, NewContents;
    assert logged[b] == v[b] by {
      CrashSafety.LogWrittenBlocks(r, v, data, |data|);
    }
    assert blocks[..|blocks|] == blocks;
    if b in blocks {
      var i :| 0 <= i < |blocks| && blocks[i] == b;
      assert logged[r.Slot(i)] == data[i] by {
        CrashSafety.LogWrittenBlocks(r, v, data, |data|);
      }
      assert Installed(r, logged, blocks, |blocks|)[blocks[i]] == logged[r.Slot(i)] by {
        CrashSafety.InstalledBlocks(r, logged, blocks, |blocks|);
      }
    } else {
      CrashSafety.InstalledBlocks(r, logged, blocks, |blocks|);
    }
  }

  lemma {:induction false} CommitKeepsView(r: Region, v: Disk, logged: Disk, blocks: seq<Word>, data: seq<Block>, h: Block, h': Block)
    requires Loggable(r, |v|, blocks) && data == NewContents(blocks, v)
    requires |logged| == |v| && logged == LogWritten(r, v, data, |data|)[r.start := h]
    ensures SameHome(r, v, Installed(r, logged, blocks, |blocks|)[r.start := h'])
  {
    hide LogWritten, Installed, NewContents;
    var e := Installed(r, logged, blocks, |blocks|);
    forall b | 0 <= b < |v| && !r.Contains(b)
      ensures e[b] == v[b]
    {
      CommitKeepsBlock(r, v, logged, blocks, data, h, b);
    }
    HeaderIsNotHome(r, v, e, h');
  }

  lemma {:induction false} AppendFour<T>(a: seq<T>, b: seq<T>, c: seq<T>, d: seq<T>, e: seq<T>)
    ensures a + b + c + d + e == a + (b + c + (d + e))
  {
  }

  lemma {:induction false} HeaderIsNotHome(r: Region, d: Disk, e: Disk, h: Block)
    requires |d| == |e| && r.Contains(r.start) && r.start < |d|
    requires forall b :: 0 <= b < |d| && !r.Contains(b) ==> e[b] == d[b]
    ensures SameHome(r, d, e[r.start := h])
  {
  }

  /** Held buffers are of blocks outside the log, and not of these. */
  ghost predicate Elsewhere(r: Region, bufs: seq<Buf>, blocks: seq<Word>) {
    forall b :: 0 <= b < |bufs| && bufs[b].refcnt > 0 ==> !r.Contains(bufs[b].blockno) && bufs[b].blockno !in blocks
  }

  /** Two buffers that were taken and given back do not count. */
  lemma {:induction false} TakenAndBack(before: seq<Buf>, after: seq<Buf>, l: nat, h: nat)
    requires |before| == |after| && l < |before| && h < |before| && after == before[l := after[l]][h := after[h]]
    requires before[l].refcnt == 0 == before[h].refcnt && after[l].refcnt == 0 == after[h].refcnt
    ensures SameHeld(before, after)
  {
  }

  lemma {:induction false} BothBack(before: seq<Buf>, after: seq<Buf>, l: nat, h: nat)
    requires |before| == |after| && l < |before| && h < |before| && before[l].refcnt == 0 == before[h].refcnt
    requires after[l].refcnt == 0 == after[h].refcnt
    requires forall b :: 0 <= b < |before| && b != l && b != h ==> after[b] == before[b]
    ensures SameHeld(before, after)
  {
    assert after == before[l := after[l]][h := after[h]];
    TakenAndBack(before, after, l, h);
  }

  /** What others hold stays as it was, step by step. */
  lemma {:induction false} HeldStill(r: Region, bufs: seq<Buf>, before: seq<Buf>, after: seq<Buf>, blocks: seq<Word>)
    requires SameHeld(before, after)
    ensures SameHeld(bufs, before) ==> SameHeld(bufs, after)
    ensures Elsewhere(r, before, blocks) ==> Elsewhere(r, after, blocks)
    ensures NoneHeld(before) ==> NoneHeld(after)
  {
  }

  lemma {:induction false} UpdatedAgain(s: seq<Buf>, i: nat, x: Buf, y: Buf)
    requires i < |s|
    ensures s[i := x][i := y] == s[i := y]
  {
  }

  lemma {:induction false} HeldOn(r: Region, bufs: seq<Buf>, bufs': seq<Buf>, blocks: seq<Word>)
    requires SameHeld(bufs, bufs') && Elsewhere(r, bufs, blocks)
    ensures Elsewhere(r, bufs', blocks)
  {
  }

  lemma {:induction false} HeldItself(bufs: seq<Buf>)
    ensures SameHeld(bufs, bufs)
  {
  }

  class Log {
    const bc: Cache
    const start: nat
    const size: nat
    var outstanding: nat
    var committing: bool
    // lh, the header in memory
    var n: nat
    const block: array<Word>

    ghost function Place(): Region { Region(start, size) }

    ghost predicate Shape()
      reads this`n, bc, bc.buf, bc.next, bc.prev
    {
      && block.Length == LOGSIZE && block as object != bc.buf && block as object != bc.next && block as object != bc.prev
      && n <= LOGSIZE
      && bc.Valid()
    }

    /** The block numbers recorded in memory. */
    ghost function Logged(): seq<Word>
      requires n <= block.Length
      reads this`n, block
    {
      block[..n]
    }

    /** Buffers that other processes refer to are of blocks outside the log, and not of these. */
    ghost predicate OthersElsewhere(blocks: seq<Word>)
      requires bc.Shape()
      reads bc.buf
    {
      Elsewhere(Place(), bc.buf[..], blocks)
    }

    /** Nobody refers to a buffer, as at boot. */
    ghost predicate Quiet()
      requires bc.Shape()
      reads bc.buf
    {
      NoneHeld(bc.buf[..])
    }

    /** Exactly the logged blocks are pinned in the cache. */
    ghost predicate PinnedAreLogged()
      requires bc.Shape() && n <= block.Length
      reads this`n, block, bc.buf
    {
      bc.Pins() == Elements(Logged())
    }

    /** Between commits the log on disk is empty. */
    ghost predicate Valid()
      reads this`n, block, bc, bc.buf, bc.next, bc.prev
    {
      && Shape()
      && LogWellFormed(Place(), bc.disk) && HeadCount(bc.disk[start]) == 0
      && Loggable(Place(), |bc.disk|, Logged())
      && PinnedAreLogged()
    }

    /** initlog: the log region comes from the superblock, and whatever was committed before the crash is installed. */
    constructor (bc: Cache, r: Region)
      requires bc.Valid() && NoneHeld(bc.buf[..]) && bc.Pins() == {}
      requires LogWellFormed(r, bc.disk)
      modifies bc, bc.buf, bc.next, bc.prev
      ensures this.bc == bc && Place() == r && fresh(block)
      ensures Valid() && Quiet() && outstanding == 0 && !committing && n == 0
      ensures bc.disk == Recovered(r, old(bc.disk))
      ensures bc.images == old(bc.images) + RecoverImages(r, old(bc.disk), HeadBlocks(old(bc.disk)[r.start]))
    {
      this.bc := bc;
      start, size := r.start, r.size;
      outstanding, committing, n := 0, false, 0;
      block := new Word[LOGSIZE](_ => 0);
      new;
      RecoverFromLog();
    }

    // ---------- copying one block ----------

    /** The two reads at the head of both copying loops: a log block, then a home block. The home block is pinned in the
        cache, or nobody refers to any buffer at all. !ok is the kernel's panic: every buffer is referred to or pinned. */
    method ReadPair(logBlock: nat, homeBlock: nat) returns (ok: bool, l: nat, h: nat)
      requires bc.Valid() && logBlock < |bc.disk| && homeBlock < |bc.disk| && logBlock != homeBlock
      requires bc.Unreferenced(logBlock) && bc.Unreferenced(homeBlock) && logBlock !in bc.Pins()
      requires homeBlock in bc.Pins() || (bc.Pins() == {} && Quiet())
      modifies bc, bc.buf
      ensures bc.Valid() && bc.Pins() == old(bc.Pins())
      ensures bc.disk == old(bc.disk) && bc.images == old(bc.images) && bc.View() == old(bc.View())
      ensures ok <==> old(bc.SomeFree())
      ensures !ok ==> bc.buf[..] == old(bc.buf[..]) && !bc.SomeFree()
      ensures ok ==>
                && l < NBUF && h < NBUF && l != h && bc.buf[..] == old(bc.buf[..])[l := bc.buf[l]][h := bc.buf[h]]
                && old(bc.buf[l]).refcnt == 0 == old(bc.buf[h]).refcnt && bc.buf[l].refcnt == 1 == bc.buf[h].refcnt
                && bc.buf[l].blockno == logBlock && bc.buf[h].blockno == homeBlock
                && bc.Held(l, logBlock) && !bc.buf[l].dirty && bc.buf[l].data == bc.disk[logBlock] == bc.View()[logBlock]
                && bc.Held(h, homeBlock) && bc.buf[h].data == bc.View()[homeBlock]
                && (bc.buf[h].dirty <==> homeBlock in bc.Pins()) && (!bc.buf[h].dirty ==> bc.buf[h].data == bc.disk[homeBlock])
    {
      NotLocked(logBlock);
      NotLocked(homeBlock);
      FreeOrCached(logBlock);
      if homeBlock !in bc.Pins() {
        AllUnheld();
      }
      ghost var before := bc.buf[..];
      SameFree(before);
      hide bc.Valid, bc.View, bc.Logical, bc.Pins;
      var lbuf, _ := bc.Bread(logBlock);
      if lbuf.None? {
        SameFree(before);
        return false, 0, 0;
      }
      l := lbuf.value;
      assert bc.buf[..][l] == bc.buf[l];
      if homeBlock in bc.Pins() {
        bc.PinIsCached(homeBlock);
      } else {
        AnotherFree(l);
      }
      ghost var mid := bc.buf[..];
      var hbuf, _ := bc.Bread(homeBlock);
      h := hbuf.value;
      assert mid[l] == bc.buf[l];
      return true, l, h;
    }

    lemma {:induction false} SameFree(bufs: seq<Buf>)
      requires bc.Shape() && bc.buf[..] == bufs
      ensures bc.SomeFree() <==> exists b :: 0 <= b < NBUF && !(bufs[b].refcnt > 0 || bufs[b].dirty)
    {
      assert forall b :: 0 <= b < NBUF ==> bufs[b] == bc.buf[b];
      if bc.SomeFree() {
        var b :| 0 <= b < NBUF && !bc.Busy(b);
        assert !(bufs[b].refcnt > 0 || bufs[b].dirty);
      }
      if b :| 0 <= b < NBUF && !(bufs[b].refcnt > 0 || bufs[b].dirty) {
        assert !bc.Busy(b);
      }
    }

    /** A block that nobody refers to is not locked. */
    lemma {:induction false} NotLocked(blockno: nat)
      requires bc.Valid() && bc.Unreferenced(blockno)
      ensures !bc.Locked(blockno)
    {
      forall b | 0 <= b < NBUF && bc.Holds(b, ROOTDEV, blockno)
        ensures !bc.buf[b].locked
      {
        assert bc.BufferOk(b);
      }
    }

    /** An unreferenced and unpinned block that is cached has a free buffer. */
    lemma {:induction false} FreeOrCached(blockno: nat)
      requires bc.Valid() && bc.Unreferenced(blockno) && blockno !in bc.Pins()
      ensures bc.SomeFree() <==> !(forall b :: 0 <= b < NBUF ==> !bc.Holds(b, ROOTDEV, blockno) && bc.Busy(b))
    {
      if b :| 0 <= b < NBUF && bc.Holds(b, ROOTDEV, blockno) {
        bc.DirtyIsPinned(b);
        assert !bc.Busy(b);
      }
    }

    lemma {:induction false} AllUnheld()
      requires bc.Shape() && Quiet()
      ensures forall c :: 0 <= c < NBUF ==> bc.buf[c].refcnt == 0
    {
      assert forall c :: 0 <= c < NBUF ==> bc.buf[..][c] == bc.buf[c];
    }

    lemma {:induction false} AnotherFree(b: nat)
      requires bc.Shape() && b < NBUF && bc.Pins() == {}
      requires forall c :: 0 <= c < NBUF && c != b ==> bc.buf[c].refcnt == 0
      ensures exists c :: 0 <= c < NBUF && !bc.Busy(c)
    {
      var c := if b == 0 then 1 else 0;
      bc.DirtyIsPinned(c);
      assert !bc.Busy(c);
    }

    /** The rest of both loop bodies: copy a held block over another, write that one to disk, release both. */
    method CopyOver(src: nat, dst: nat)
      requires bc.Valid() && src != dst && src < NBUF && dst < NBUF
      requires bc.Held(src, bc.buf[src].blockno) && bc.Held(dst, bc.buf[dst].blockno)
      requires bc.buf[src].refcnt == 1 == bc.buf[dst].refcnt && bc.buf[src].blockno != bc.buf[dst].blockno
      requires !bc.buf[src].dirty ==> bc.buf[src].data == bc.disk[bc.buf[src].blockno]
      modifies bc, bc.buf, bc.next, bc.prev
      ensures bc.Valid() && bc.Pins() == old(bc.Pins()) - {old(bc.buf[dst]).blockno} && bc.SomeFree()
      ensures bc.buf[..] == old(bc.buf[..])[src := bc.buf[src]][dst := bc.buf[dst]]
      ensures bc.buf[src].refcnt == 0 == bc.buf[dst].refcnt
      ensures bc.disk == old(bc.disk)[old(bc.buf[dst]).blockno := old(bc.buf[src]).data]
      ensures bc.images == old(bc.images) + [bc.disk]
      ensures bc.View() == old(bc.View())[old(bc.buf[dst]).blockno := old(bc.buf[src]).data]
    {
      hide bc.Valid, bc.View, bc.Logical, bc.Pins;
      bc.Fill(dst, bc.buf[src].data);
      bc.Bwrite(dst);
      ReleaseBoth(src, dst);
    }

    method ReleaseBoth(src: nat, dst: nat)
      requires bc.Valid() && src != dst && src < NBUF && dst < NBUF
      requires bc.Held(src, bc.buf[src].blockno) && bc.Held(dst, bc.buf[dst].blockno)
      requires bc.buf[src].refcnt == 1 == bc.buf[dst].refcnt && !bc.buf[dst].dirty
      requires !bc.buf[src].dirty ==> bc.buf[src].data == bc.disk[bc.buf[src].blockno]
      requires bc.buf[dst].data == bc.disk[bc.buf[dst].blockno]
      modifies bc.buf, bc.next, bc.prev, bc`order
      ensures bc.Valid() && bc.Pins() == old(bc.Pins()) && bc.View() == old(bc.View()) && bc.SomeFree()
      ensures bc.buf[..] == old(bc.buf[..])[src := bc.buf[src]][dst := bc.buf[dst]]
      ensures bc.buf[src].refcnt == 0 == bc.buf[dst].refcnt
    {
      hide bc.Valid, bc.View, bc.Logical, bc.Pins;
      bc.Brelse(src);
      bc.Brelse(dst);
      assert !bc.Busy(dst);
    }

    /** One turn of either copying loop: a home block is copied to its place in the log, or back. */
    method CopyBlock(logBlock: nat, homeBlock: nat, toLog: bool) returns (ok: bool)
      requires bc.Valid() && logBlock < |bc.disk| && homeBlock < |bc.disk| && logBlock != homeBlock
      requires bc.Unreferenced(logBlock) && bc.Unreferenced(homeBlock) && logBlock !in bc.Pins()
      requires homeBlock in bc.Pins() || (bc.Pins() == {} && Quiet())
      modifies bc, bc.buf, bc.next, bc.prev
      ensures bc.Valid() && bc.HeldAs(old(bc.buf[..]))
      ensures ok == old(bc.SomeFree()) == bc.SomeFree()
      ensures !ok ==> bc.Pins() == old(bc.Pins()) && bc.disk == old(bc.disk) && bc.images == old(bc.images) && bc.View() == old(bc.View())
      ensures ok ==>
                var src, dst := if toLog then homeBlock else logBlock, if toLog then logBlock else homeBlock;
                var data := old(bc.View())[src];
                && data == (if toLog then data else old(bc.disk)[logBlock])
                && bc.Pins() == old(bc.Pins()) - {dst} && bc.disk == old(bc.disk)[dst := data]
                && bc.images == old(bc.images) + [bc.disk] && bc.View() == old(bc.View())[dst := data]
    {
      hide bc.Valid, bc.View, bc.Logical, bc.Pins, bc.SomeFree, bc.Unreferenced, bc.Held, bc.Holds, SameHeld, NoneHeld;
      ghost var before := bc.buf[..];
      HeldItself(before);
      var l, h;
      ok, l, h := ReadPair(logBlock, homeBlock);
      if ok {
        if toLog {
          CopyOver(h, l);
        } else {
          CopyOver(l, h);
        }
        BothBack(before, bc.buf[..], l, h);
      }
    }

    /** The process holds no buffer for itself, and others only ones elsewhere: true before and after each step. */
    ghost predicate Steady(blocks: seq<Word>, bufs: seq<Buf>)
      reads this`n, block, bc, bc.buf, bc.next, bc.prev
    {
      Shape() && OthersElsewhere(blocks) && bc.HeldAs(bufs)
    }

    lemma {:induction false} UnreferencedBlocks(blocks: seq<Word>, k: nat)
      requires bc.Shape() && OthersElsewhere(blocks) && k < |blocks| && 0 <= blocks[k] && k + 1 < size
      ensures bc.Unreferenced(Place().Slot(k)) && bc.Unreferenced(blocks[k]) && bc.Unreferenced(start)
    {
      assert Place().Contains(Place().Slot(k)) && Place().Contains(start) && blocks[k] in blocks;
      assert forall b :: 0 <= b < NBUF ==> bc.buf[..][b] == bc.buf[b];
    }

    // ---------- write_log ----------

    /** Copy the logged blocks from the cache to the log. !ok is the kernel's panic for want of a buffer, which is met at
        once or not at all. */
    method WriteLog(ghost data: seq<Block>) returns (ok: bool)
      requires Shape() && OthersElsewhere(Logged()) && n > 0
      requires Loggable(Place(), |bc.disk|, Logged()) && PinnedAreLogged()
      requires |data| == n && forall i :: 0 <= i < n ==> data[i] == bc.View()[block[i]]
      modifies bc, bc.buf, bc.next, bc.prev
      ensures Steady(Logged(), old(bc.buf[..])) && PinnedAreLogged()
      ensures ok <==> old(bc.SomeFree())
      ensures !ok ==> bc.disk == old(bc.disk) && bc.images == old(bc.images) && bc.View() == old(bc.View())
      ensures ok ==>
                && bc.SomeFree()
                && bc.disk == LogWritten(Place(), old(bc.disk), data, n)
                && bc.images == old(bc.images) + LogImages(Place(), old(bc.disk), data, n)
                && bc.View() == LogWritten(Place(), old(bc.View()), data, n)
    {
      ghost var bufs, blocks, d, v, was := bc.buf[..], Logged(), bc.disk, bc.View(), bc.images;
      assert LogWriting(0, blocks, data, bufs, d, v, was);
      hide LogWriting;
      var tail := 0;
      while tail < n
        invariant 0 <= tail <= n && n == |blocks| && LogWriting(tail, blocks, data, bufs, d, v, was)
        invariant if tail == 0 then bc.SomeFree() == old(bc.SomeFree()) else bc.SomeFree() && old(bc.SomeFree())
      {
        ok := LogNext(tail, blocks, data, bufs, d, v, was);
        if !ok {
          LogNotBegun(blocks, data, bufs, d, v, was);
          return false;
        }
        tail := tail + 1;
      }
      LogAllWritten(blocks, data, bufs, d, v, was);
      return true;
    }

    /** The first k blocks have been copied to the log, in a disk d seen as v with images so far. */
    ghost predicate LogWriting(k: nat, blocks: seq<Word>, data: seq<Block>, bufs: seq<Buf>, d: Disk, v: Disk, images: seq<Disk>)
      reads this`n, block, bc, bc.buf, bc.next, bc.prev
    {
      && Steady(blocks, bufs) && Logged() == blocks && PinnedAreLogged()
      && Loggable(Place(), |d|, blocks) && |v| == |d| && k <= |blocks| == |data|
      && (forall i :: 0 <= i < |data| ==> data[i] == v[blocks[i]])
      && bc.disk == LogWritten(Place(), d, data, k)
      && bc.images == images + LogImages(Place(), d, data, k)
      && bc.View() == LogWritten(Place(), v, data, k)
    }

    lemma {:induction false} LogNotBegun(blocks: seq<Word>, data: seq<Block>, bufs: seq<Buf>, d: Disk, v: Disk, images: seq<Disk>)
      requires LogWriting(0, blocks, data, bufs, d, v, images)
      ensures Steady(Logged(), bufs) && PinnedAreLogged() && bc.disk == d && bc.images == images && bc.View() == v
    {
    }

    lemma {:induction false} LogAllWritten(blocks: seq<Word>, data: seq<Block>, bufs: seq<Buf>, d: Disk, v: Disk, images: seq<Disk>)
      requires LogWriting(|blocks|, blocks, data, bufs, d, v, images)
      ensures Steady(Logged(), bufs) && PinnedAreLogged() && n == |blocks| == |data| && Loggable(Place(), |d|, blocks) && |v| == |d|
      ensures bc.disk == LogWritten(Place(), d, data, n)
      ensures bc.images == images + LogImages(Place(), d, data, n)
      ensures bc.View() == LogWritten(Place(), v, data, n)
    {
    }

    method LogNext(tail: nat, ghost blocks: seq<Word>, ghost data: seq<Block>, ghost bufs: seq<Buf>, ghost d: Disk, ghost v: Disk,
                   ghost images: seq<Disk>) returns (ok: bool)
      requires LogWriting(tail, blocks, data, bufs, d, v, images) && tail < |blocks|
      modifies bc, bc.buf, bc.next, bc.prev
      ensures ok <==> old(bc.SomeFree())
      ensures bc.SomeFree() == old(bc.SomeFree())
      ensures LogWriting(if ok then tail + 1 else tail, blocks, data, bufs, d, v, images)
      ensures !ok ==> bc.disk == old(bc.disk) && bc.images == old(bc.images)
    {
      CrashSafety.LogWrittenBlocks(Place(), v, data, tail);
      NextLogWritten(Place(), d, data, tail);
      NextLogWritten(Place(), v, data, tail);
      assert !Place().Contains(blocks[tail]);
      hide bc.Valid, bc.View, bc.Logical, bc.Pins, LogWritten, LogImages, OthersElsewhere, bc.HeldAs, bc.SomeFree;
      ok := CopyToLog(tail, blocks, bufs);
    }

    method CopyToLog(tail: nat, ghost blocks: seq<Word>, ghost bufs: seq<Buf>) returns (ok: bool)
      requires Steady(blocks, bufs) && Logged() == blocks && tail < n
      requires Loggable(Place(), |bc.disk|, blocks) && PinnedAreLogged()
      modifies bc, bc.buf, bc.next, bc.prev
      ensures Steady(blocks, bufs) && Logged() == blocks && PinnedAreLogged()
      ensures ok == old(bc.SomeFree()) == bc.SomeFree()
      ensures !ok ==> bc.disk == old(bc.disk) && bc.images == old(bc.images) && bc.View() == old(bc.View())
      ensures ok ==>
                && bc.disk == old(bc.disk)[Place().Slot(tail) := old(bc.View())[block[tail]]]
                && bc.images == old(bc.images) + [bc.disk]
                && bc.View() == old(bc.View())[Place().Slot(tail) := old(bc.View())[block[tail]]]
    {
      UnreferencedBlocks(blocks, tail);
      assert Place().Contains(Place().Slot(tail)) && !Place().Contains(block[tail]) && block[tail] in Logged();
      hide Loggable, bc.Valid, bc.View, bc.Logical, bc.Pins, bc.SomeFree, bc.Unreferenced, Elsewhere, SameHeld, NoneHeld;
      ghost var before := bc.buf[..];
      ok := CopyBlock(start + tail + 1, block[tail], true);
      HeldStill(Place(), bufs, before, bc.buf[..], blocks);
    }

    /** The pinned buffers. */
    ghost function Pinned(): set<int>
      requires bc.Shape()
      reads bc.buf
    {
      set b | 0 <= b < NBUF && bc.buf[b].dirty
    }

    /** A buffer is free for the commit exactly if the logged blocks and the buffers that others refer to are together
        fewer than the buffers. */
    lemma {:induction false} FreeIff()
      requires Valid() && OthersElsewhere(Logged())
      ensures bc.SomeFree() <==> n + |bc.Refs()| < NBUF
    {
      PinnedCount();
      hide Loggable, LogWellFormed, bc.View, bc.Logical;
      assert Pinned() <= Below(NBUF) && bc.Refs() <= Below(NBUF);
      forall b | b in Pinned()
        ensures b !in bc.Refs()
      {
        bc.DirtyIsPinned(b);
        assert bc.buf[..][b] == bc.buf[b];
      }
      NoneOver(Pinned(), bc.Refs(), NBUF);
      assert forall b :: 0 <= b < NBUF ==> (bc.Busy(b) <==> b in Pinned() || b in bc.Refs());
    }

    /** As many buffers are pinned as blocks are logged. */
    lemma {:induction false} PinnedCount()
      requires Valid()
      ensures |Pinned()| == n
    {
      hide LogWellFormed, bc.View, bc.Logical;
      ghost var at: seq<int> := seq(NBUF, b requires 0 <= b < NBUF reads bc.buf => bc.buf[b].blockno);
      forall b | b in Pinned()
        ensures bc.buf[b].dev == ROOTDEV && at[b] in Logged()
      {
        assert bc.BufferOk(b);
        bc.DirtyIsPinned(b);
      }
      PinnedAtMost(Pinned(), NBUF, at, Logged());
      forall i | 0 <= i < n
        ensures HasBuffer(Pinned(), at, Logged()[i])
      {
        assert Logged()[i] in bc.Pins();
        var b :| 0 <= b < NBUF && bc.buf[b].dirty && bc.buf[b].blockno == Logged()[i];
        assert b in Pinned() && at[b] == Logged()[i];
      }
      PinnedAtLeast(Pinned(), at, Logged());
    }

    // ---------- write_head, read_head ----------

    /** The words of the header block with the header in memory laid over them. */
    method HeaderOver(was: Words) returns (hb: Words)
      requires n <= LOGSIZE == block.Length
      ensures Block(hb) == Head(Block(was), Logged())
    {
      hb := was[0 := n];
      for i := 0 to n
        invariant |hb| == WORDS && hb[0] == n
        invariant forall j :: 0 <= j < i ==> hb[1 + j] == block[j]
        invariant forall j :: i < j < WORDS ==> hb[j] == was[j]
      {
        hb := hb[1 + i := block[i]];
      }
      assert Block(hb) == Head(Block(was), Logged());
    }

    /** New contents for a held buffer, written to disk; then the buffer is released. */
    method WriteHeld(b: nat, data: Block)
      requires bc.Valid() && b < NBUF && bc.Held(b, bc.buf[b].blockno) && bc.buf[b].refcnt == 1
      modifies bc, bc.buf, bc.next, bc.prev
      ensures bc.Valid() && bc.Pins() == old(bc.Pins()) - {old(bc.buf[b]).blockno} && bc.SomeFree()
      ensures bc.buf[..] == old(bc.buf[..])[b := bc.buf[b]] && bc.buf[b].refcnt == 0
      ensures bc.disk == old(bc.disk)[old(bc.buf[b]).blockno := data] && bc.images == old(bc.images) + [bc.disk]
      ensures bc.View() == old(bc.View())[old(bc.buf[b]).blockno := data]
    {
      hide bc.Valid, bc.View, bc.Logical, bc.Pins;
      bc.Fill(b, data);
      bc.Bwrite(b);
      bc.Brelse(b);
      assert !bc.Busy(b);
    }

    /** Write the in-memory header over the header block. !ok is the kernel's panic for want of a buffer. */
    method WriteHead() returns (ok: bool)
      requires Shape() && start < |bc.disk| && start !in bc.Pins() && bc.Unreferenced(start)
      modifies bc, bc.buf, bc.next, bc.prev
      ensures Shape() && bc.Pins() == old(bc.Pins()) && bc.HeldAs(old(bc.buf[..])) && bc.SomeFree() == old(bc.SomeFree())
      ensures ok <==> old(bc.SomeFree())
      ensures !ok ==> bc.disk == old(bc.disk) && bc.images == old(bc.images) && bc.View() == old(bc.View())
      ensures ok ==>
                && bc.disk == HeadWritten(Place(), old(bc.disk), Logged())
                && bc.images == old(bc.images) + [bc.disk]
                && bc.View() == old(bc.View())[start := bc.disk[start]]
    {
      NotLocked(start);
      FreeOrCached(start);
      hide bc.Valid, bc.View, bc.Logical, bc.Pins, Head, SameHeld;
      ghost var before := bc.buf[..];
      SameFree(before);
      var b, _ := bc.Bread(start);
      if b.None? {
        SameFree(before);
        HeldItself(before);
        return false;
      }
      ghost var held := bc.buf[b.value];
      var was := bc.buf[b.value].data.words;
      var hb := HeaderOver(was);
      WriteHeld(b.value, Block(hb));
      UpdatedAgain(before, b.value, held, bc.buf[b.value]);
      TakenAndBack(before, bc.buf[..], b.value, b.value);
      return true;
    }

    /** The header in memory becomes the one in these words. */
    method TakeHeader(lh: Words)
      requires 0 <= lh[0] <= LOGSIZE == block.Length
      modifies this`n, block
      ensures n == lh[0] && Logged() == HeadBlocks(Block(lh))
    {
      n := lh[0];
      for i := 0 to n
        invariant n == lh[0] <= LOGSIZE
        invariant forall j :: 0 <= j < i ==> block[j] == lh[1 + j]
        modifies block
      {
        block[i] := lh[1 + i];
      }
      assert Logged() == HeadBlocks(Block(lh));
    }

    /** The header in memory becomes the one on disk. */
    method ReadHead()
      requires Shape() && Quiet() && bc.Pins() == {} && LogWellFormed(Place(), bc.disk)
      modifies this`n, block, bc, bc.buf, bc.next, bc.prev
      ensures Shape() && Quiet() && bc.Pins() == {}
      ensures bc.disk == old(bc.disk) && bc.images == old(bc.images) && bc.View() == old(bc.View())
      ensures Logged() == HeadBlocks(bc.disk[start])
    {
      var lh := ReadHeader();
      hide bc.Valid, bc.View, bc.Logical, bc.Pins, bc.Locked, NoneHeld;
      TakeHeader(lh);
    }

    /** The words of the header block. */
    method ReadHeader() returns (lh: Words)
      requires bc.Valid() && Quiet() && bc.Pins() == {} && start < |bc.disk|
      modifies bc, bc.buf, bc.next, bc.prev
      ensures bc.Valid() && Quiet() && bc.Pins() == {}
      ensures bc.disk == old(bc.disk) && bc.images == old(bc.images) && bc.View() == old(bc.View())
      ensures lh == bc.disk[start].words
    {
      AllUnheld();
      NotLocked(start);
      FreeAtBoot();
      ghost var before := bc.buf[..];
      var h := Peek(start);
      HeldStill(Place(), before, before, bc.buf[..], []);
      return h.words;
    }

    /** The contents of a block that nobody refers to, by way of a buffer that is free afterwards. */
    method Peek(blockno: nat) returns (data: Block)
      requires bc.Valid() && blockno < |bc.disk| && bc.Unreferenced(blockno) && !bc.Locked(blockno) && blockno !in bc.Pins()
      requires exists b :: 0 <= b < NBUF && !bc.Busy(b)
      modifies bc, bc.buf, bc.next, bc.prev
      ensures bc.Valid() && bc.Pins() == old(bc.Pins()) && bc.HeldAs(old(bc.buf[..]))
      ensures bc.disk == old(bc.disk) && bc.images == old(bc.images) && bc.View() == old(bc.View())
      ensures data == bc.disk[blockno]
    {
      hide bc.Valid, bc.View, bc.Logical, bc.Pins, bc.Locked, SameHeld;
      ghost var before := bc.buf[..];
      var b, _ := bc.Bread(blockno);
      ghost var held := bc.buf[b.value];
      data := bc.buf[b.value].data;
      bc.Brelse(b.value);
      UpdatedAgain(before, b.value, held, bc.buf[b.value]);
      TakenAndBack(before, bc.buf[..], b.value, b.value);
    }

    lemma {:induction false} FreeAtBoot()
      requires bc.Shape() && bc.Pins() == {} && Quiet()
      ensures bc.SomeFree() && exists b :: 0 <= b < NBUF && !bc.Busy(b)
    {
      AllUnheld();
      AnotherFree(0);
    }

    // ---------- install_trans ----------

    /** Copy the blocks in the log to their homes. Either the home blocks still to be installed are pinned in the cache,
        or, at boot, nothing is and nobody refers to a buffer. !ok is the kernel's panic for want of a buffer. */
    method InstallTrans() returns (ok: bool)
      requires Shape() && OthersElsewhere(Logged()) && Loggable(Place(), |bc.disk|, Logged())
      requires PinnedAreLogged() || (bc.Pins() == {} && Quiet())
      modifies bc, bc.buf, bc.next, bc.prev
      ensures Steady(Logged(), old(bc.buf[..]))
      ensures ok <==> n == 0 || old(bc.SomeFree())
      ensures bc.SomeFree() == old(bc.SomeFree())
      ensures ok ==>
                && bc.Pins() == {}
                && bc.disk == Installed(Place(), old(bc.disk), Logged(), n)
                && bc.images == old(bc.images) + InstallImages(Place(), old(bc.disk), Logged(), n)
                && bc.View() == Installed(Place(), old(bc.View()), Logged(), n)
    {
      ghost var d, v, was, blocks, bufs := bc.disk, bc.View(), bc.images, Logged(), bc.buf[..];
      FirstInstalled(Place(), d, blocks);
      FirstInstalled(Place(), v, blocks);
      assert blocks[0..] == blocks;
      assert Installing(0, blocks, bufs, d, v, was);
      hide Installing;
      var tail := 0;
      while tail < n
        invariant 0 <= tail <= n && n == |blocks| && Installing(tail, blocks, bufs, d, v, was)
        invariant bc.SomeFree() == old(bc.SomeFree()) && (tail > 0 ==> bc.SomeFree())
      {
        ok := InstallNext(tail, blocks, bufs, d, v, was);
        if !ok {
          InstalledSteady(tail, blocks, bufs, d, v, was);
          return false;
        }
        tail := tail + 1;
      }
      InstalledSteady(n, blocks, bufs, d, v, was);
      return true;
    }

    /** The first k blocks have been installed, in a disk d seen as v with images so far. */
    ghost predicate Installing(k: nat, blocks: seq<Word>, bufs: seq<Buf>, d: Disk, v: Disk, images: seq<Disk>)
      reads this`n, block, bc, bc.buf, bc.next, bc.prev
    {
      && Steady(blocks, bufs) && Logged() == blocks && k <= n
      && Loggable(Place(), |d|, blocks) && |v| == |d|
      && (bc.Pins() == Elements(blocks[k..]) || (bc.Pins() == {} && Quiet()))
      && bc.disk == Installed(Place(), d, blocks, k)
      && bc.images == images + InstallImages(Place(), d, blocks, k)
      && bc.View() == Installed(Place(), v, blocks, k)
    }

    lemma {:induction false} InstalledSteady(k: nat, blocks: seq<Word>, bufs: seq<Buf>, d: Disk, v: Disk, images: seq<Disk>)
      requires Installing(k, blocks, bufs, d, v, images) && k <= n
      ensures Steady(Logged(), bufs) && Loggable(Place(), |d|, blocks) && |v| == |d| && n == |blocks|
      ensures k == n ==>
                && bc.Pins() == {}
                && bc.disk == Installed(Place(), d, Logged(), n)
                && bc.images == images + InstallImages(Place(), d, Logged(), n)
                && bc.View() == Installed(Place(), v, Logged(), n)
    {
      assert blocks[|blocks|..] == [];
    }

    method InstallNext(tail: nat, ghost blocks: seq<Word>, ghost bufs: seq<Buf>, ghost d: Disk, ghost v: Disk, ghost images: seq<Disk>)
        returns (ok: bool)
      requires Installing(tail, blocks, bufs, d, v, images) && tail < n
      modifies bc, bc.buf, bc.next, bc.prev
      ensures ok <==> old(bc.SomeFree())
      ensures bc.SomeFree() == old(bc.SomeFree())
      ensures Installing(if ok then tail + 1 else tail, blocks, bufs, d, v, images)
      ensures bc.Pins() == if ok then old(bc.Pins()) - {blocks[tail]} else old(bc.Pins())
      ensures !ok ==> bc.disk == old(bc.disk) && bc.images == old(bc.images)
    {
      NextInstalled(Place(), d, blocks, tail);
      NextInstalled(Place(), v, blocks, tail);
      ElementsAfter(blocks, tail);
      hide Loggable, Installed, InstallImages, bc.Valid, bc.View, bc.Logical, bc.Pins, Elements, OthersElsewhere, bc.HeldAs, bc.SomeFree;
      ok := CopyToHome(tail, blocks, bufs);
    }

    method CopyToHome(tail: nat, ghost blocks: seq<Word>, ghost bufs: seq<Buf>) returns (ok: bool)
      requires Steady(blocks, bufs) && Logged() == blocks && tail < n
      requires Loggable(Place(), |bc.disk|, blocks)
      requires bc.Pins() == Elements(blocks[tail..]) || (bc.Pins() == {} && Quiet())
      modifies bc, bc.buf, bc.next, bc.prev
      ensures Steady(blocks, bufs) && Logged() == blocks
      ensures ok == old(bc.SomeFree()) == bc.SomeFree()
      ensures old(bc.Pins() == {} && Quiet()) ==> bc.Pins() == {} && Quiet()
      ensures !ok ==> bc.Pins() == old(bc.Pins()) && bc.disk == old(bc.disk) && bc.images == old(bc.images) && bc.View() == old(bc.View())
      ensures ok ==>
                && bc.Pins() == old(bc.Pins()) - {block[tail]}
                && bc.disk == old(bc.disk)[block[tail] := old(bc.disk)[Place().Slot(tail)]]
                && bc.images == old(bc.images) + [bc.disk]
                && bc.View() == old(bc.View())[block[tail] := old(bc.View())[Place().Slot(tail)]]
    {
      UnreferencedBlocks(blocks, tail);
      PinnedHome(blocks, tail);
      hide Loggable, bc.Valid, bc.View, bc.Logical, bc.Pins, bc.SomeFree, bc.Unreferenced, Elements, Elsewhere, SameHeld, NoneHeld;
      ghost var before := bc.buf[..];
      ok := CopyBlock(start + tail + 1, block[tail], false);
      HeldStill(Place(), bufs, before, bc.buf[..], blocks);
    }

    lemma {:induction false} PinnedHome(blocks: seq<Word>, k: nat)
      requires Shape() && k < |blocks| && Loggable(Place(), |bc.disk|, blocks)
      requires bc.Pins() == Elements(blocks[k..]) || bc.Pins() == {}
      ensures bc.Pins() == {} || (blocks[k] as int) in bc.Pins()
      ensures Place().Slot(k) !in bc.Pins() && 0 <= Place().Slot(k) < |bc.disk| && 0 <= blocks[k] < |bc.disk| && Place().Slot(k) != blocks[k]
    {
      assert Place().Contains(Place().Slot(k)) && blocks[k..][0] == blocks[k];
    }

    // ---------- recovery and commit ----------

    /** Install whatever the log holds and empty it. */
    method RecoverFromLog()
      requires Shape() && Quiet() && bc.Pins() == {} && LogWellFormed(Place(), bc.disk)
      modifies this`n, block, bc, bc.buf, bc.next, bc.prev
      ensures Valid() && Quiet() && n == 0
      ensures bc.disk == Recovered(Place(), old(bc.disk))
      ensures bc.images == old(bc.images)
                           + RecoverImages(Place(), old(bc.disk), HeadBlocks(old(bc.disk)[start]))
    {
      hide bc.Valid, bc.View, bc.Logical, bc.Pins, bc.Busy;
      ReadHead();
      FreeAtBoot();
      var installed := InstallTrans();
      n := 0;
      var cleared := WriteHead();
      assert installed && cleared;
    }

    /** Write the modified blocks to the log, commit, install, and empty the log, while other processes refer to buffers
        of other blocks. !ok is the panic "bget: no buffers": it is met exactly when there is something to commit and the
        logged blocks and the buffers that others refer to are together as many as there are buffers; nothing has been
        written then. */
    method Commit() returns (ok: bool)
      requires Valid() && OthersElsewhere(Logged())
      modifies this`n, bc, bc.buf, bc.next, bc.prev
      ensures Valid() && bc.HeldAs(old(bc.buf[..]))
      ensures ok <==> old(n) == 0 || old(n) + |old(bc.Refs())| < NBUF
      ensures !ok ==> n == old(n) && bc.disk == old(bc.disk) && bc.images == old(bc.images) && bc.View() == old(bc.View())
      ensures ok ==>
                var data := NewContents(old(Logged()), old(bc.View()));
                && n == 0
                && bc.images == old(bc.images) + (if old(n) == 0 then []
                                                  else CommitImages(Place(), old(bc.disk), old(Logged()), data))
                && bc.disk == (if old(n) == 0 then old(bc.disk) else bc.images[|bc.images| - 1])
                && forall b :: 0 <= b < |bc.disk| && !bc.Locked(b) ==> bc.View()[b] == bc.disk[b]
      ensures SameHome(Place(), old(bc.View()), bc.View())
    {
      FreeIff();
      hide bc.Valid, bc.View, bc.Logical, bc.Pins, bc.Busy, bc.Locked, bc.Refs, bc.SomeFree;
      if n > 0 {
        ghost var d, v, blocks, data := bc.disk, bc.View(), Logged(), NewContents(Logged(), bc.View());
        ghost var bufs := bc.buf[..];
        ok := CommitLogged(blocks, data, bufs, d, v, bc.images);
        if !ok {
          return false;
        }
      }
      bc.CleanView();
      return true;
    }

    /** A commit of at least one block. */
    method CommitLogged(ghost blocks: seq<Word>, ghost data: seq<Block>, ghost bufs: seq<Buf>, ghost d: Disk, ghost v: Disk,
                        ghost was: seq<Disk>) returns (ok: bool)
      requires Valid() && OthersElsewhere(Logged()) && n > 0
      requires blocks == Logged() && d == bc.disk && v == bc.View() && was == bc.images && bufs == bc.buf[..]
      requires Loggable(Place(), |v|, blocks) && data == NewContents(blocks, v)
      modifies this`n, bc, bc.buf, bc.next, bc.prev
      ensures Valid() && bc.HeldAs(bufs) && ok == old(bc.SomeFree())
      ensures !ok ==> n == old(n) && bc.disk == d && bc.images == was && bc.View() == v
      ensures ok ==>
                && n == 0 && bc.Pins() == {} && bc.images == was + CommitImages(Place(), d, blocks, data)
                && bc.disk == bc.images[|bc.images| - 1] && SameHome(Place(), v, bc.View())
    {
      hide LogWritten, Installed, SameHome, LogImages, InstallImages, NewContents;
      hide bc.Valid, bc.View, bc.Logical, bc.Pins, bc.Busy, bc.Locked;
      assert start !in Elements(blocks);
      UnreferencedBlocks(blocks, 0);
      ok := WriteLog(data);
      if !ok {
        return false;
      }
      UnreferencedBlocks(blocks, 0);
      var committed := WriteHead();
      HeldOn(Place(), bufs, bc.buf[..], blocks);
      ghost var h := bc.disk[start];
      ghost var logged := bc.View();
      assert bc.disk == CommitPoint(Place(), d, blocks, data);
      var installed := InstallTrans();
      HeldOn(Place(), bufs, bc.buf[..], blocks);
      UnreferencedBlocks(blocks, 0);
      n := 0;
      var erased := WriteHead();
      assert committed && installed && erased;
      AppendFour(was, LogImages(Place(), d, data, |data|), [CommitPoint(Place(), d, blocks, data)],
                 InstallImages(Place(), CommitPoint(Place(), d, blocks, data), blocks, |blocks|), [bc.disk]);
      CommitResult(Place(), d, blocks, data);
      CommitKeepsView(Place(), v, logged, blocks, data, h, bc.disk[start]);
    }

    // ---------- system calls ----------

    /** One turn of begin_op's loop: enters the transaction, or reports that the caller must sleep and try again. */
    method BeginOp() returns (entered: bool)
      requires Valid()
      modifies this`outstanding
      ensures Valid()
      ensures entered <==> !committing && RoomForAll(n, old(outstanding) + 1)
      ensures entered == Admits(n, old(outstanding), committing)
      ensures outstanding == if entered then old(outstanding) + 1 else old(outstanding)
    {
      AdmitsIff(n, outstanding, committing);
      if committing {
        entered := false;
      } else if n + (outstanding + 1) * MAXOPBLOCKS > LOGSIZE {
        entered := false;
      } else {
        outstanding := outstanding + 1;
        entered := true;
      }
    }

    /** Record a modified, held buffer in the transaction and pin it. !ok is the kernel's panic. */
    method LogWrite(b: nat) returns (ok: bool)
      requires Valid() && b < NBUF && bc.Held(b, bc.buf[b].blockno)
      requires bc.buf[b].blockno < 0x8000_0000 && !Place().Contains(bc.buf[b].blockno)
      modifies this`n, block, bc.buf
      ensures ok <==> !TooBig(old(n), size) && outstanding >= 1
      ensures !ok ==> Valid() && Logged() == old(Logged()) && bc.buf[..] == old(bc.buf[..])
      ensures ok ==>
                && Valid() && bc.View() == old(bc.View())
                && Logged() == Absorb(old(Logged()), old(bc.buf[b]).blockno)
                && bc.buf[..] == old(bc.buf[..])[b := old(bc.buf[b]).(dirty := true)]
    {
      hide bc.Valid, bc.View, bc.Logical, bc.Pins, bc.Busy;
      if n >= LOGSIZE || n >= size - 1 {
        return false;
      }
      if outstanding < 1 {
        return false;
      }
      var blockno: Word := bc.buf[b].blockno;
      ghost var logged := Logged();
      var i := 0;
      while i < n && block[i] != blockno
        invariant 0 <= i <= n && Logged() == logged
        invariant blockno !in logged[..i]
      {
        i := i + 1;
      }
      block[i] := blockno;
      if i == n {
        n := n + 1;
        assert Logged() == logged + [blockno];
      } else {
        assert Logged() == logged;
      }
      bc.Pin(b);
      assert Elements(Absorb(logged, blockno)) == Elements(logged) + {blockno};
      return true;
    }

    /** The end of a system call; the last one out commits, while others may refer to buffers of other blocks. !ok is a
        panic: "log.committing", or "bget: no buffers". */
    method EndOp() returns (ok: bool)
      requires Valid() && outstanding >= 1
      requires outstanding == 1 && !committing ==> OthersElsewhere(Logged())
      modifies this`outstanding, this`committing, this`n, bc, bc.buf, bc.next, bc.prev
      ensures outstanding == old(outstanding) - 1
      ensures ok <==> !old(committing) && (outstanding > 0 || old(n) == 0 || old(n) + |old(bc.Refs())| < NBUF)
      ensures Valid() && SameHome(Place(), old(bc.View()), bc.View()) && bc.HeldAs(old(bc.buf[..]))
      ensures ok ==> !committing
      ensures ok && outstanding == 0 ==>
                var data := NewContents(old(Logged()), old(bc.View()));
                && n == 0
                && bc.images == old(bc.images) + (if old(n) == 0 then []
                                                  else CommitImages(Place(), old(bc.disk), old(Logged()), data))
                && bc.disk == (if old(n) == 0 then old(bc.disk) else bc.images[|bc.images| - 1])
                && forall b :: 0 <= b < |bc.disk| && !bc.Locked(b) ==> bc.View()[b] == bc.disk[b]
      ensures outstanding > 0 || !ok ==>
                Logged() == old(Logged()) && bc.disk == old(bc.disk) && bc.images == old(bc.images)
    {
      HeldItself(bc.buf[..]);
      CrashSafety.SameHomeItself(Place(), bc.View());
      hide SameHome, SameHeld, OthersElsewhere;
      hide bc.Valid, bc.View, bc.Logical, bc.Pins, bc.Busy, bc.Locked, bc.SomeFree, bc.HeldAs, bc.Refs;
      hide Valid, Shape, NewContents, CommitImages;
      outstanding := outstanding - 1;
      if committing {
        return false;
      }
      if outstanding == 0 {
        ok := CommitLast();
        return ok;
      }
      return true;
    }

    /** The commit of the last operation out, with begin_op held off meanwhile. */
    method CommitLast() returns (ok: bool)
      requires Valid() && OthersElsewhere(Logged()) && !committing
      modifies this`committing, this`n, bc, bc.buf, bc.next, bc.prev
      ensures Valid() && SameHome(Place(), old(bc.View()), bc.View()) && bc.HeldAs(old(bc.buf[..]))
      ensures ok <==> old(n) == 0 || old(n) + |old(bc.Refs())| < NBUF
      ensures ok ==> !committing && n == 0
      ensures ok ==>
                && bc.images == old(bc.images)
                                + (if old(n) == 0 then []
                                   else CommitImages(Place(), old(bc.disk), old(Logged()),
                                                     NewContents(old(Logged()), old(bc.View()))))
                && bc.disk == (if old(n) == 0 then old(bc.disk) else bc.images[|bc.images| - 1])
                && forall b :: 0 <= b < |bc.disk| && !bc.Locked(b) ==> bc.View()[b] == bc.disk[b]
      ensures !ok ==> Logged() == old(Logged()) && bc.disk == old(bc.disk) && bc.images == old(bc.images)
    {
      hide bc.Valid, bc.View, bc.Logical, bc.Pins, bc.Busy, bc.Locked, bc.SomeFree, bc.Refs;
      hide LogWellFormed, HeadCount, Loggable, NewContents, CommitImages, SameHome, PinnedAreLogged;
      committing := true;
      ok := Commit();
      if ok {
        committing := false;
      }
    }
  }
}
