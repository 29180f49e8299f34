/** Crash atomicity of the redo log: whatever write a crash interrupts, and however often recovery is itself
    interrupted, the home blocks end up all old or all new.
 */
module CrashSafety {
  import opened LogDisk

  // ---------- images, block by block ----------

  lemma {:induction false} LogWrittenBlocks(r: Region, d: Disk, data: seq<Block>, k: nat)
    requires k <= |data| < r.size && r.start + r.size <= |d|
    ensures var e := LogWritten(r, d, data, k);
            && (forall i :: 0 <= i < k ==> e[r.Slot(i)] == data[i])
            && (forall b :: 0 <= b < |d| && !(r.Slot(0) <= b < r.Slot(k)) ==> e[b] == d[b])
  {
    if k > 0 {
      LogWrittenBlocks(r, d, data, k - 1);
    }
  }

  lemma {:induction false} InstalledBlocks(r: Region, d: Disk, blocks: seq<Word>, k: nat)
    requires Loggable(r, |d|, blocks) && k <= |blocks|
    ensures var e := Installed(r, d, blocks, k);
            && (forall i :: 0 <= i < k ==> e[blocks[i]] == d[r.Slot(i)])
            && (forall b :: 0 <= b < |d| && b !in blocks[..k] ==> e[b] == d[b])
  {
    if k > 0 {
      InstalledBlocks(r, d, blocks, k - 1);
      OneMoreInstalled(r, d, Installed(r, d, blocks, k - 1), blocks, k - 1);
    }
  }

  lemma {:induction false} OneMoreInstalled(r: Region, d: Disk, was: Disk, blocks: seq<Word>, k: nat)
    requires Loggable(r, |d|, blocks) && k < |blocks| && |was| == |d|
    requires forall i :: 0 <= i < k ==> was[blocks[i]] == d[r.Slot(i)]
    requires forall b :: 0 <= b < |d| && b !in blocks[..k] ==> was[b] == d[b]
    ensures var e := was[blocks[k] := was[r.Slot(k)]];
            && (forall i :: 0 <= i < k + 1 ==> e[blocks[i]] == d[r.Slot(i)])
            && (forall b :: 0 <= b < |d| && b !in blocks[..k + 1] ==> e[b] == d[b])
  {
    assert blocks[..k + 1] == blocks[..k] + [blocks[k]];
    assert r.Contains(r.Slot(k));
  }

  /** An image whose header and log blocks hold a committed transaction. */
  ghost predicate Committed(r: Region, e: Disk, blocks: seq<Word>, data: seq<Block>) {
    && Loggable(r, |e|, blocks) && |data| == |blocks|
    && LogWellFormed(r, e) && HeadBlocks(e[r.start]) == blocks
    && forall i :: 0 <= i < |blocks| ==> e[r.Slot(i)] == data[i]
  }

  /** e differs from d only in the log and in the home blocks of the transaction. */
  ghost predicate SameElsewhere(r: Region, d: Disk, e: Disk, blocks: seq<Word>) {
    |d| == |e| && forall b :: 0 <= b < |d| && !r.Contains(b) && b !in blocks ==> e[b] == d[b]
  }

  /** However many of the home blocks have been installed, recovery of a committed image gives all of them. */
  lemma {:induction false} RecoverCommitted(r: Region, d: Disk, e: Disk, blocks: seq<Word>, data: seq<Block>)
    requires Committed(r, e, blocks, data) && SameElsewhere(r, d, e, blocks)
    ensures HomeUpdated(r, d, blocks, data, Recovered(r, e))
    ensures LogWellFormed(r, Recovered(r, e)) && HeadCount(Recovered(r, e)[r.start]) == 0
  {
    InstalledBlocks(r, e, blocks, |blocks|);
    assert blocks[..|blocks|] == blocks;
    assert r.Contains(r.start);
  }

  lemma {:induction false} RecoveredIsEmpty(r: Region, e: Disk)
    requires LogWellFormed(r, e)
    ensures LogWellFormed(r, Recovered(r, e)) && HeadCount(Recovered(r, e)[r.start]) == 0
  {
    var blocks := HeadBlocks(e[r.start]);
    RecoverCommitted(r, e, e, blocks, seq(|blocks|, i requires 0 <= i < |blocks| => e[r.Slot(i)]));
  }

  lemma {:induction false} RecoverEmpty(r: Region, e: Disk)
    requires LogWellFormed(r, e) && HeadCount(e[r.start]) == 0
    ensures SameHome(r, Recovered(r, e), e)
    ensures LogWellFormed(r, Recovered(r, e)) && HeadCount(Recovered(r, e)[r.start]) == 0
  {
    assert r.Contains(r.start);
  }

  /** Installing some of the home blocks leaves the log as it was. */
  lemma {:induction false} PartlyInstalled(r: Region, e: Disk, blocks: seq<Word>, data: seq<Block>, k: nat)
    requires Committed(r, e, blocks, data) && k <= |blocks|
    ensures var x := Installed(r, e, blocks, k); Committed(r, x, blocks, data) && SameElsewhere(r, e, x, blocks)
  {
    InstalledBlocks(r, e, blocks, k);
    hide Installed;
    var x := Installed(r, e, blocks, k);
    forall b | 0 <= b < |e| && (r.Contains(b) || b !in blocks)
      ensures x[b] == e[b]
    {
      assert b !in blocks[..k];
    }
    assert r.Contains(r.start) && forall i :: 0 <= i < |blocks| ==> r.Contains(r.Slot(i));
  }

  /** Every image of a recovery of a committed transaction still is a committed image of it, but the last, where
      the transaction is installed and the log is empty. */
  lemma {:induction false} RecoveryImage(r: Region, e: Disk, blocks: seq<Word>, data: seq<Block>, k: nat)
    requires Committed(r, e, blocks, data) && k <= |blocks|
    ensures var x := RecoverImages(r, e, blocks)[k];
            && SameElsewhere(r, e, x, blocks)
            && if k < |blocks| then Committed(r, x, blocks, data)
               else x == Recovered(r, e)
  {
    PartlyInstalled(r, e, blocks, data, if k < |blocks| then k + 1 else k);
    hide Installed, Loggable;
  }

  // ---------- the writes of a commit ----------

  /** x is d after writing one block. */
  ghost predicate WrittenAt(d: Disk, x: Disk, b: int, data: Block) {
    0 <= b < |d| && x == d[b := data]
  }

  /** The words of a header block: the count, the block numbers, and the old words behind them. */
  ghost predicate HeaderOver(h: Block, blocks: seq<Word>, was: Block) {
    && |blocks| < WORDS && h.words[0] == |blocks|
    && (forall i :: 0 <= i < |blocks| ==> h.words[1 + i] == blocks[i])
    && (forall i :: |blocks| < i < WORDS ==> h.words[i] == was.words[i])
  }

  /** The write number j of a commit of n blocks: first the data, to the n blocks behind the header in order, then the header,
      then the data to their homes in order, then the header with a count of 0. */
  lemma {:induction false} CommitWrites(r: Region, d: Disk, blocks: seq<Word>, data: seq<Block>, j: nat)
    requires Loggable(r, |d|, blocks) && |data| == |blocks| && j < 2 * |blocks| + 2
    ensures var n, images := |blocks|, CommitImages(r, d, blocks, data);
            && |images| == 2 * n + 2
            && var was, x := if j == 0 then d else images[j - 1], images[j];
               if j < n then WrittenAt(was, x, r.start + 1 + j, data[j])
               else if j == n then WrittenAt(was, x, r.start, x[r.start]) && HeaderOver(x[r.start], blocks, was[r.start])
               else if j <= 2 * n then WrittenAt(was, x, blocks[j - n - 1], data[j - n - 1])
               else WrittenAt(was, x, r.start, x[r.start]) && HeaderOver(x[r.start], [], was[r.start])
  {
    var n := |blocks|;
    var e := CommitPoint(r, d, blocks, data);
    var x := LogWritten(r, d, data, n);
    if j < n {
      assert WrittenAt(LogWritten(r, d, data, j), LogWritten(r, d, data, j + 1), r.start + 1 + j, data[j]);
    } else if j == n {
      HeaderPut(x[r.start], blocks);
    } else if j <= 2 * n {
      InstallWrites(r, d, blocks, data, j - n - 1);
    } else {
      HeaderPut(Installed(r, e, blocks, n)[r.start], []);
    }
    hide LogWritten, Installed, Head, HeaderOver;
  }

  lemma {:induction false} HeaderPut(was: Block, blocks: seq<Word>)
    requires |blocks| < WORDS
    ensures HeaderOver(Head(was, blocks), blocks, was)
  {
  }

  lemma {:induction false} InstallWrites(r: Region, d: Disk, blocks: seq<Word>, data: seq<Block>, k: nat)
    requires Loggable(r, |d|, blocks) && |data| == |blocks| && k < |blocks|
    ensures var e := CommitPoint(r, d, blocks, data);
            WrittenAt(Installed(r, e, blocks, k), Installed(r, e, blocks, k + 1), blocks[k], data[k])
  {
    var e := CommitPoint(r, d, blocks, data);
    LogWrittenBlocks(r, d, data, |data|);
    InstalledBlocks(r, e, blocks, k);
    assert r.Contains(r.Slot(k));
    assert e[r.Slot(k)] == data[k];
    assert Installed(r, e, blocks, k)[r.Slot(k)] == data[k];
  }

  // ---------- a crash during commit ----------

  /** The image after write j of a commit: before write |blocks| (the header) recovery restores the old home
      blocks, from then on it restores the new ones. */
  lemma {:induction false} CommitCrash(r: Region, d: Disk, blocks: seq<Word>, data: seq<Block>, j: nat)
    requires LogWellFormed(r, d) && HeadCount(d[r.start]) == 0
    requires Loggable(r, |d|, blocks) && |data| == |blocks|
    requires j < |CommitImages(r, d, blocks, data)|
    ensures var x := CommitImages(r, d, blocks, data)[j];
            && |x| == |d| && LogWellFormed(r, x)
            && if j < |blocks| then SameHome(r, d, Recovered(r, x))
               else HomeUpdated(r, d, blocks, data, Recovered(r, x))
  {
    var n := |blocks|;
    var x := CommitImages(r, d, blocks, data)[j];
    assert r.Contains(r.start);
    if j < n {
      LogWrittenBlocks(r, d, data, j + 1);
      assert x == LogWritten(r, d, data, j + 1);
      RecoverEmpty(r, x);
    } else {
      var e := CommitPoint(r, d, blocks, data);
      CommittedAfterHeader(r, d, blocks, data);
      if j == n {
        RecoverCommitted(r, d, x, blocks, data);
      } else {
        var k := j - n - 1;
        assert x == RecoverImages(r, e, blocks)[k];
        RecoveryImage(r, e, blocks, data, k);
        if k < n {
          RecoverCommitted(r, d, x, blocks, data);
        } else {
          RecoverCommitted(r, d, e, blocks, data);
          RecoverEmpty(r, x);
        }
      }
    }
  }

  /** The header write is the commit point. */
  lemma {:induction false} CommittedAfterHeader(r: Region, d: Disk, blocks: seq<Word>, data: seq<Block>)
    requires LogWellFormed(r, d) && Loggable(r, |d|, blocks) && |data| == |blocks|
    ensures var e := CommitPoint(r, d, blocks, data);
            Committed(r, e, blocks, data) && SameElsewhere(r, d, e, blocks)
  {
    LogWrittenBlocks(r, d, data, |data|);
    HeadRoundTrip(LogWritten(r, d, data, |data|)[r.start], blocks);
    assert forall i :: 0 <= i < |blocks| ==> r.Contains(r.Slot(i));
    assert r.Contains(r.start);
  }

  // ---------- crashes during recovery ----------

  /** The disk left by a recovery that crashes after k of its writes. */
  function CrashedRecovery(r: Region, d: Disk, k: nat): Disk
    requires LogWellFormed(r, d)
  {
    var images := RecoverImages(r, d, HeadBlocks(d[r.start]));
    if k == 0 then d else if k <= |images| then images[k - 1] else images[|images| - 1]
  }

  lemma {:induction false} CrashedRecoveryIsSound(r: Region, d: Disk, k: nat)
    requires LogWellFormed(r, d)
    ensures var x := CrashedRecovery(r, d, k);
            |x| == |d| && LogWellFormed(r, x) && SameHome(r, Recovered(r, d), Recovered(r, x))
  {
    if k > 0 {
      var blocks := HeadBlocks(d[r.start]);
      var data := seq(|blocks|, i requires 0 <= i < |blocks| => d[r.Slot(i)]);
      var x := CrashedRecovery(r, d, k);
      var w := if k <= |blocks| + 1 then k - 1 else |blocks|;
      assert x == RecoverImages(r, d, blocks)[w];
      assert Committed(r, d, blocks, data) && SameElsewhere(r, d, d, blocks);
      hide *;
      RecoveryImage(r, d, blocks, data, w);
      RecoverCommitted(r, d, d, blocks, data);
      if w < |blocks| {
        RecoverCommitted(r, d, x, blocks, data);
        SameUpdate(r, d, blocks, data, Recovered(r, d), Recovered(r, x));
      } else {
        RecoverEmpty(r, x);
        SameHomeSymmetric(r, Recovered(r, x), x);
      }
      SoundImage(r, d, x, blocks, data);
    }
  }

  lemma {:induction false} SameHomeSymmetric(r: Region, a: Disk, b: Disk)
    requires SameHome(r, a, b)
    ensures SameHome(r, b, a)
  {
  }

  lemma {:induction false} SameHomeItself(r: Region, a: Disk)
    ensures SameHome(r, a, a)
  {
  }

  lemma {:induction false} SoundImage(r: Region, d: Disk, x: Disk, blocks: seq<Word>, data: seq<Block>)
    requires SameElsewhere(r, d, x, blocks)
    ensures |x| == |d|
    ensures Committed(r, x, blocks, data) ==> LogWellFormed(r, x)
  {
  }

  /** The same transaction applied to the same disk gives the same home blocks. */
  lemma {:induction false} SameUpdate(r: Region, d: Disk, blocks: seq<Word>, data: seq<Block>, a: Disk, b: Disk)
    requires |data| == |blocks| && (forall i :: 0 <= i < |blocks| ==> 0 <= blocks[i] < |d|)
    requires HomeUpdated(r, d, blocks, data, a) && HomeUpdated(r, d, blocks, data, b)
    ensures SameHome(r, a, b)
  {
    forall h | 0 <= h < |d| && !r.Contains(h)
      ensures a[h] == b[h]
    {
      if i :| 0 <= i < |blocks| && blocks[i] == h {
        assert a[blocks[i]] == data[i] == b[blocks[i]];
      }
    }
  }

  /** Recoveries that crash one after another, the i-th after crashes[i] writes. */
  function CrashedRecoveries(r: Region, d: Disk, crashes: seq<nat>): (e: Disk)
    requires LogWellFormed(r, d)
    ensures |e| == |d| && LogWellFormed(r, e) && SameHome(r, Recovered(r, d), Recovered(r, e))
  {
    if crashes == [] then d
    else
      var e := CrashedRecoveries(r, d, crashes[..|crashes| - 1]);
      CrashedRecoveryIsSound(r, e, crashes[|crashes| - 1]);
      CrashedRecovery(r, e, crashes[|crashes| - 1])
  }

  /** Crash atomicity. A commit is cut off after `written` of its disk writes, then any number of recoveries are cut
      off, then one completes: the home blocks are the old ones if the header had not been written, and the
      transaction is installed completely if it had. Either way the log is empty again. */
  lemma {:induction false} CrashAtomicity(r: Region, d: Disk, blocks: seq<Word>, data: seq<Block>, written: nat, crashes: seq<nat>)
    requires LogWellFormed(r, d) && HeadCount(d[r.start]) == 0
    requires Loggable(r, |d|, blocks) && |data| == |blocks|
    requires written <= |CommitImages(r, d, blocks, data)|
    ensures var atCrash := if written == 0 then d else CommitImages(r, d, blocks, data)[written - 1];
            && LogWellFormed(r, atCrash)
            && var e := Recovered(r, CrashedRecoveries(r, atCrash, crashes));
               && LogWellFormed(r, e) && HeadCount(e[r.start]) == 0
               && if written <= |blocks| then SameHome(r, d, e) else HomeUpdated(r, d, blocks, data, e)
  {
    hide *;
    var atCrash := if written == 0 then d else CommitImages(r, d, blocks, data)[written - 1];
    if written == 0 {
      RecoverEmpty(r, d);
    } else {
      CommitCrash(r, d, blocks, data, written - 1);
    }
    var last := CrashedRecoveries(r, atCrash, crashes);
    RecoveredIsEmpty(r, last);
    SameHomeAfter(r, d, blocks, data, Recovered(r, atCrash), Recovered(r, last));
  }

  lemma {:induction false} SameHomeAfter(r: Region, d: Disk, blocks: seq<Word>, data: seq<Block>, a: Disk, b: Disk)
    requires Loggable(r, |d|, blocks) && |data| == |blocks| && SameHome(r, a, b)
    ensures SameHome(r, a, d) ==> SameHome(r, d, b)
    ensures SameHome(r, d, a) ==> SameHome(r, d, b)
    ensures HomeUpdated(r, d, blocks, data, a) ==> HomeUpdated(r, d, blocks, data, b)
  {
  }
}
