/** The on-disk side of the redo log: blocks, the header block, and the disk images that a commit and a recovery
    pass through, one for every block written.
 */
module LogDisk {

  // A block of BSIZE = 512 bytes, as its 128 C ints.
  type Word = x: int | -0x8000_0000 <= x < 0x8000_0000
  const WORDS := 128
  type Words = w: seq<Word> | |w| == WORDS witness seq(WORDS, _ => 0)
  datatype Block = Block(words: Words)

  const LOGSIZE := 30

  type Disk = seq<Block>

  /** Where the log lies: a header block at start, then size - 1 data blocks. */
  datatype Region = Region(start: nat, size: nat) {
    predicate Contains(b: int) { start <= b < start + size }

    /** The log block that holds the copy of the i-th logged block. */
    function Slot(i: int): int { start + 1 + i }
  }

  // ---------- the header block ----------

  /** struct logheader laid over a block: word 0 is n, word 1 + i is block[i]. */
  function HeadCount(h: Block): int { h.words[0] }

  function HeadBlocks(h: Block): seq<int>
    requires 0 <= HeadCount(h) < WORDS
  {
    seq(HeadCount(h), i requires 0 <= i < HeadCount(h) => h.words[1 + i])
  }

  /** The header block after writing n and the first n entries over its old contents h. */
  function Head(h: Block, blocks: seq<Word>): Block
    requires |blocks| < WORDS
  {
    Block([|blocks|] + blocks + h.words[1 + |blocks|..])
  }

  lemma {:induction false} HeadRoundTrip(h: Block, blocks: seq<Word>)
    requires |blocks| < WORDS
    ensures HeadCount(Head(h, blocks)) == |blocks|
    ensures HeadBlocks(Head(h, blocks)) == blocks
  {
  }

  // ---------- what may be logged ----------

  /** Block numbers that a transaction may log: distinct home blocks on the disk, outside the log, that fit in it. */
  ghost predicate Loggable(r: Region, diskSize: nat, blocks: seq<Word>) {
    && |blocks| <= LOGSIZE && |blocks| < r.size && r.start + r.size <= diskSize
    && (forall i :: 0 <= i < |blocks| ==> 0 <= blocks[i] < diskSize && !r.Contains(blocks[i]))
    && (forall i, j :: 0 <= i < j < |blocks| ==> blocks[i] != blocks[j])
  }

  /** A disk whose header block is a well-formed header. */
  ghost predicate LogWellFormed(r: Region, d: Disk) {
    && r.start < |d|
    && 0 <= HeadCount(d[r.start]) < WORDS
    && Loggable(r, |d|, HeadBlocks(d[r.start]))
  }

  // ---------- disk images ----------

  /** Log blocks 0..k written with data. */
  function LogWritten(r: Region, d: Disk, data: seq<Block>, k: nat): (e: Disk)
    requires k <= |data| < r.size && r.start + r.size <= |d|
    ensures |e| == |d|
  {
    if k == 0 then d else LogWritten(r, d, data, k - 1)[r.Slot(k - 1) := data[k - 1]]
  }

  /** Log blocks 0..k copied to their home blocks. */
  function Installed(r: Region, d: Disk, blocks: seq<Word>, k: nat): (e: Disk)
    requires Loggable(r, |d|, blocks) && k <= |blocks|
    ensures |e| == |d|
  {
    if k == 0 then d
    else
      var e := Installed(r, d, blocks, k - 1);
      e[blocks[k - 1] := e[r.Slot(k - 1)]]
  }

  function HeadWritten(r: Region, d: Disk, blocks: seq<Word>): (e: Disk)
    requires r.start < |d| && |blocks| < WORDS
    ensures |e| == |d|
  {
    d[r.start := Head(d[r.start], blocks)]
  }

  /** The disk after each of the first k log blocks. */
  function LogImages(r: Region, d: Disk, data: seq<Block>, k: nat): (images: seq<Disk>)
    requires k <= |data| < r.size && r.start + r.size <= |d|
    ensures |images| == k && forall i :: 0 <= i < k ==> images[i] == LogWritten(r, d, data, i + 1)
  {
    if k == 0 then [] else LogImages(r, d, data, k - 1) + [LogWritten(r, d, data, k)]
  }

  /** The disk after each of the first k installed blocks. */
  function InstallImages(r: Region, d: Disk, blocks: seq<Word>, k: nat): (images: seq<Disk>)
    requires Loggable(r, |d|, blocks) && k <= |blocks|
    ensures |images| == k && forall i :: 0 <= i < k ==> images[i] == Installed(r, d, blocks, i + 1)
  {
    if k == 0 then [] else InstallImages(r, d, blocks, k - 1) + [Installed(r, d, blocks, k)]
  }

  /** The images of the disk after each block written by a recovery that reads `blocks` in the header:
      one per installed block, then the cleared header. */
  function RecoverImages(r: Region, d: Disk, blocks: seq<Word>): seq<Disk>
    requires Loggable(r, |d|, blocks)
  {
    InstallImages(r, d, blocks, |blocks|) + [HeadWritten(r, Installed(r, d, blocks, |blocks|), [])]
  }

  /** The disk when the header of a commit of `data` to `blocks` has been written. */
  function CommitPoint(r: Region, d: Disk, blocks: seq<Word>, data: seq<Block>): (e: Disk)
    requires Loggable(r, |d|, blocks) && |data| == |blocks|
    ensures |e| == |d|
  {
    HeadWritten(r, LogWritten(r, d, data, |data|), blocks)
  }

  /** The images of the disk after each block written by a commit of `data` to `blocks`. */
  function CommitImages(r: Region, d: Disk, blocks: seq<Word>, data: seq<Block>): seq<Disk>
    requires Loggable(r, |d|, blocks) && |data| == |blocks|
  {
    LogImages(r, d, data, |data|)
    + [CommitPoint(r, d, blocks, data)]
    + RecoverImages(r, CommitPoint(r, d, blocks, data), blocks)
  }

  /** The disk after recovery. */
  function Recovered(r: Region, d: Disk): (e: Disk)
    requires LogWellFormed(r, d)
    ensures |e| == |d|
  {
    HeadWritten(r, Installed(r, d, HeadBlocks(d[r.start]), |HeadBlocks(d[r.start])|), [])
  }

  /** Two disks with the same contents outside the log. */
  ghost predicate SameHome(r: Region, d: Disk, e: Disk) {
    |d| == |e| && forall b :: 0 <= b < |d| && !r.Contains(b) ==> d[b] == e[b]
  }

  /** e is d with block blocks[i] replaced by data[i], outside the log. */
  ghost predicate HomeUpdated(r: Region, d: Disk, blocks: seq<Word>, data: seq<Block>, e: Disk)
    requires |data| == |blocks|
  {
    && |d| == |e|
    && (forall b :: 0 <= b < |d| && !r.Contains(b) && b !in blocks ==> e[b] == d[b])
    && (forall i :: 0 <= i < |blocks| && 0 <= blocks[i] < |e| ==> e[blocks[i]] == data[i])
  }

  // ---------- the header in memory ----------

  const MAXOPBLOCKS := 10

  /** begin_op lets a system call in only if, should every call in progress still log all it may, the log has room. */
  predicate Admits(logged: nat, outstanding: nat, committing: bool) {
    !committing && logged + (outstanding + 1) * MAXOPBLOCKS <= LOGSIZE
  }

  function Sum(s: seq<nat>): nat { if s == [] then 0 else Sum(s[..|s| - 1]) + s[|s| - 1] }

  /** Whatever each of `calls` system calls may still log, up to MAXOPBLOCKS blocks, fits in the header. */
  ghost predicate RoomForAll(logged: nat, calls: nat) {
    forall more: seq<nat> :: |more| == calls && (forall i :: 0 <= i < calls ==> more[i] <= MAXOPBLOCKS) ==>
      logged + Sum(more) <= LOGSIZE
  }

  /** begin_op's test is the weakest that leaves room for all calls in progress and the new one. */
  lemma {:induction false} AdmitsIff(logged: nat, outstanding: nat, committing: bool)
    ensures Admits(logged, outstanding, committing) <==> !committing && RoomForAll(logged, outstanding + 1)
  {
    var most := seq(outstanding + 1, _ => MAXOPBLOCKS);
    SumBound(most);
    forall more: seq<nat> | |more| == outstanding + 1 && forall i :: 0 <= i < |more| ==> more[i] <= MAXOPBLOCKS
      ensures Sum(more) <= (outstanding + 1) * MAXOPBLOCKS
    {
      SumBound(more);
    }
  }

  lemma {:induction false} SumBound(s: seq<nat>)
    requires forall i :: 0 <= i < |s| ==> s[i] <= MAXOPBLOCKS
    ensures Sum(s) <= |s| * MAXOPBLOCKS
    ensures (forall i :: 0 <= i < |s| ==> s[i] == MAXOPBLOCKS) ==> Sum(s) == |s| * MAXOPBLOCKS
  {
    if s != [] {
      SumBound(s[..|s| - 1]);
    }
  }

  /** log_write's panic "too big a transaction". */
  predicate TooBig(logged: nat, size: nat) {
    logged >= LOGSIZE || logged >= size - 1
  }

  /** log_write records a block once. */
  function Absorb(blocks: seq<Word>, b: Word): seq<Word> {
    if b in blocks then blocks else blocks + [b]
  }

  /** The contents of the blocks to be logged, as the cache shows them. */
  ghost function NewContents(blocks: seq<Word>, view: Disk): (data: seq<Block>)
    requires forall i :: 0 <= i < |blocks| ==> 0 <= blocks[i] < |view|
    ensures |data| == |blocks| && forall i :: 0 <= i < |data| ==> data[i] == view[blocks[i]]
  {
    seq(|blocks|, i requires 0 <= i < |blocks| => view[blocks[i]])
  }
}
