/** Files on a logged disk: a file system that is well formed whenever no system call is in progress is well formed after
    every crash, with the contents of such a moment.
 */
module FilesOverLog {
  import opened LogDisk
  import opened FsBlocks
  import opened FsShape
  import opened FsWrite
  import CrashSafety
  import T = Transactions

  // ---------- the two views of a block ----------

  /** Byte j of a 32-bit int, least significant first. */
  function ByteOf(w: LogDisk.Word, j: int): Byte
    requires 0 <= j < 4
  {
    var u := w % UINT;
    if j == 0 then u % 0x100 else if j == 1 then u / 0x100 % 0x100 else if j == 2 then u / 0x1_0000 % 0x100 else u / 0x100_0000
  }

  /** The bytes of a block that the log sees as ints. */
  function ToBytes(b: Block): Bytes {
    seq(BSIZE, i requires 0 <= i < BSIZE => ByteOf(b.words[i / 4], i % 4))
  }

  function SignedWord(u: FsBlocks.Word): LogDisk.Word { if u < 0x8000_0000 then u else u - UINT }

  function FromBytes(s: Bytes): Block {
    Block(seq(WORDS, i requires 0 <= i < WORDS => SignedWord(GetWord(s, i))))
  }

  /** Every block of bytes is the bytes of a block of ints. */
  lemma {:induction false} BytesRoundTrip(s: Bytes)
    ensures ToBytes(FromBytes(s)) == s
  {
    forall i | 0 <= i < BSIZE
      ensures ToBytes(FromBytes(s))[i] == s[i]
    {
      var k := i / 4;
      SameByte(s[4 * k], s[4 * k + 1], s[4 * k + 2], s[4 * k + 3], i % 4);
    }
  }

  lemma {:induction false} SameByte(b0: Byte, b1: Byte, b2: Byte, b3: Byte, j: int)
    requires 0 <= j < 4
    ensures ByteOf(SignedWord(Join(b0, b1, b2, b3)), j) == if j == 0 then b0 else if j == 1 then b1 else if j == 2 then b2 else b3
  {
    var u := Join(b0, b1, b2, b3);
    assert SignedWord(u) % UINT == u;
    assert u / 0x100 == (b1 as int) + 0x100 * (b2 as int) + 0x1_0000 * (b3 as int);
    assert u / 0x1_0000 == (b2 as int) + 0x100 * (b3 as int);
    assert u / 0x100_0000 == b3;
  }

  function AllBytes(d: Disk): (blocks: Blocks)
    ensures |blocks| == |d|
  {
    seq(|d|, i requires 0 <= i < |d| => ToBytes(d[i]))
  }

  // ---------- files on a disk ----------

  /** The disk holds a well-formed file system. */
  ghost predicate FilesGood(sb: Super, d: Disk) {
    sb.Ok() && |d| == sb.size && exists owner :: Good(sb, Mounted(sb, AllBytes(d)), owner)
  }

  /** The log lies in front of everything that files are made of. */
  ghost predicate LogInFront(sb: Super, r: Region) { r.start + r.size <= sb.inodestart }

  /** What is in a file on this disk. */
  function FileOn(sb: Super, d: Disk, inum: int): seq<Byte>
    requires sb.Ok() && |d| == sb.size && 0 <= inum < sb.ninodes
    requires DiskInode(sb, AllBytes(d), inum).size <= MAXFILE * BSIZE
  {
    Contents(sb, Mounted(sb, AllBytes(d)), inum)
  }

  ghost predicate SameFiles(sb: Super, a: Disk, b: Disk) {
    && sb.Ok() && |a| == |b| == sb.size
    && forall i {:trigger DiskInode(sb, AllBytes(b), i)} :: 0 <= i < sb.ninodes ==>
         && DiskInode(sb, AllBytes(b), i) == DiskInode(sb, AllBytes(a), i)
         && (DiskInode(sb, AllBytes(a), i).size <= MAXFILE * BSIZE ==> FileOn(sb, b, i) == FileOn(sb, a, i))
  }

  /** Disks with the same home blocks hold the same files. */
  lemma {:induction false} SameHomeSameFiles(sb: Super, r: Region, a: Disk, b: Disk)
    requires FilesGood(sb, a) && LogInFront(sb, r) && SameHome(r, a, b)
    ensures FilesGood(sb, b) && SameFiles(sb, a, b)
  {
    var owner :| Good(sb, Mounted(sb, AllBytes(a)), owner);
    var fs, fs' := Mounted(sb, AllBytes(a)), Mounted(sb, AllBytes(b));
    BlocksBehindLog(sb, r, a, b);
    hide AllBytes, Good;
    SameFromMapNotes(sb, fs, owner, fs');
    SameNotesGood(sb, fs, owner, fs');
    hide Peek, Mounted, DiskInode;
    forall i {:trigger DiskInode(sb, AllBytes(b), i)} | 0 <= i < sb.ninodes && DiskInode(sb, AllBytes(a), i).size <= MAXFILE * BSIZE
      ensures FileOn(sb, b, i) == FileOn(sb, a, i)
    {
      SameSpan(sb, a, b, i);
    }
  }

  lemma {:induction false} SameSpan(sb: Super, a: Disk, b: Disk, i: int)
    requires sb.Ok() && |a| == |b| == sb.size && 0 <= i < sb.ninodes
    requires DiskInode(sb, AllBytes(b), i) == DiskInode(sb, AllBytes(a), i)
    requires DiskInode(sb, AllBytes(a), i).size <= MAXFILE * BSIZE
    requires SamePeek(sb, Mounted(sb, AllBytes(a)), Mounted(sb, AllBytes(b)))
    ensures FileOn(sb, b, i) == FileOn(sb, a, i)
  {
    var fs, fs' := Mounted(sb, AllBytes(a)), Mounted(sb, AllBytes(b));
    hide AllBytes, Peek;
    assert FileOn(sb, b, i) == Span(sb, fs', i, 0, fs.inodes[i].size);
    assert FileOn(sb, a, i) == Span(sb, fs, i, 0, fs.inodes[i].size);
  }

  lemma {:induction false} BlocksBehindLog(sb: Super, r: Region, a: Disk, b: Disk)
    requires sb.Ok() && |a| == sb.size && LogInFront(sb, r) && SameHome(r, a, b)
    ensures forall i {:trigger DiskInode(sb, AllBytes(b), i)} :: 0 <= i < sb.ninodes ==>
              DiskInode(sb, AllBytes(b), i) == DiskInode(sb, AllBytes(a), i)
    ensures Mounted(sb, AllBytes(b)).inodes == Mounted(sb, AllBytes(a)).inodes
    ensures SameFromMap(sb, Mounted(sb, AllBytes(a)), Mounted(sb, AllBytes(b)))
  {
    assert forall c :: sb.inodestart <= c < sb.size ==> AllBytes(b)[c] == AllBytes(a)[c];
    hide AllBytes;
    forall i {:trigger DiskInode(sb, AllBytes(b), i)} | 0 <= i < sb.ninodes
      ensures DiskInode(sb, AllBytes(b), i) == DiskInode(sb, AllBytes(a), i)
    {
      SameDiskInode(sb, AllBytes(a), AllBytes(b), i);
    }
  }

  /** The kernel's files, with every inode up to date on disk, are a well-formed file system on that disk: so ends every
      operation on files. */
  lemma {:induction false} SyncedIsGood(sb: Super, fs: Fs, owner: Owner, d: Disk)
    requires Good(sb, fs, owner) && DiskSynced(sb, fs) && |d| == sb.size && AllBytes(d) == fs.blocks
    ensures FilesGood(sb, d)
  {
    assert Mounted(sb, fs.blocks).inodes == fs.inodes;
    assert Mounted(sb, fs.blocks) == fs;
  }

  // ---------- crashes ----------

  /** Files survive crashes. In any run of system calls that interleave and share commits, let the file system be well
      formed whenever no call is in progress. Then after a crash at any point, during a commit or a recovery too, and any
      number of recoveries that are cut off, it is well formed, and every file is as at some moment at which no call was
      in progress: all effects of the calls that are durable, and nothing of any other. */
  lemma {:induction false} FilesSurviveCrashes(sb: Super, r: Region, image: Disk, states: seq<T.Sys>, events: seq<T.Event>,
                                               k: nat, crashes: seq<nat>) returns (q: nat)
    requires T.BootImage(r, image) && T.IsRun(r, image, states, events) && k < |states| && LogInFront(sb, r)
    requires forall m :: 0 <= m < |states| && T.Quiet(states[m]) ==> FilesGood(sb, states[m].mem)
    ensures q <= k && T.Quiet(states[q]) && LogWellFormed(r, states[k].disk)
    ensures states[k].durable <= |states[k].writes| && states[q].writes == states[k].writes[..states[k].durable]
    ensures forall i, j :: 0 <= i < states[k].durable <= j < |states[k].writes| ==> states[k].writes[i].op != states[k].writes[j].op
    ensures var d := Recovered(r, CrashSafety.CrashedRecoveries(r, states[k].disk, crashes));
            FilesGood(sb, d) && SameFiles(sb, states[q].mem, d)
  {
    q := T.RecoversToQuiet(r, image, states, events, k, crashes);
    T.TransactionSafety(r, image, states, events, k, crashes);
    hide FilesGood, SameFiles, Recovered, SameHome, T.Apply;
    SameHomeSameFiles(sb, r, states[q].mem, Recovered(r, CrashSafety.CrashedRecoveries(r, states[k].disk, crashes)));
  }
}
