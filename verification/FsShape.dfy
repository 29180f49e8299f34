/** What a well-formed file system is: every used data block belongs to one place in one inode, the free map says
    exactly which blocks are used, and every block below the end of a file is there.
 */
module FsShape {
  import opened FsBlocks

  type Blocks = seq<Bytes>

  /** struct superblock, as far as it says where things are. */
  datatype Super = Super(size: nat, ninodes: nat, inodestart: nat, bmapstart: nat) {
    function IBlock(inum: int): int { inum / IPB + inodestart }
    function BBlock(b: int): int { b / BPB + bmapstart }
    /** The first block behind the free map. */
    function DataStart(): int { bmapstart + size / BPB + 1 }
    predicate Ok() { 0 < size < UINT && IBlock(ninodes) < bmapstart && DataStart() <= size }
  }

  /** The part of an inode that says where its contents are. */
  datatype Dinode = Dinode(size: nat, addrs: seq<int>)

  /** The blocks as the buffer cache shows them, and the inodes in memory. */
  datatype Fs = Fs(blocks: Blocks, inodes: seq<Dinode>)

  ghost predicate Shaped(sb: Super, fs: Fs) {
    && sb.Ok() && |fs.blocks| == sb.size && |fs.inodes| == sb.ninodes
    && forall i :: 0 <= i < sb.ninodes ==> |fs.inodes[i].addrs| == NDIRECT + 1
  }

  // ---------- the free map ----------

  predicate Used(sb: Super, blocks: Blocks, b: int)
    requires sb.Ok() && |blocks| == sb.size && 0 <= b < sb.size
  {
    var bi := b % BPB;
    Bit(blocks[sb.BBlock(b)][bi / 8], bi % 8)
  }

  function Marked(sb: Super, blocks: Blocks, b: int, on: bool): (marked: Blocks)
    requires sb.Ok() && |blocks| == sb.size && 0 <= b < sb.size
    ensures |marked| == sb.size
  {
    var bi := b % BPB;
    var map_ := blocks[sb.BBlock(b)];
    PutBitBelow(map_[bi / 8], bi % 8, on, 8, 256);
    blocks[sb.BBlock(b) := map_[bi / 8 := PutBit(map_[bi / 8], bi % 8, on)]]
  }

  /** Marking a block changes its own bit only. */
  lemma {:induction false} MarkedUsed(sb: Super, blocks: Blocks, b: int, on: bool, c: int)
    requires sb.Ok() && |blocks| == sb.size && 0 <= b < sb.size && 0 <= c < sb.size
    ensures Used(sb, Marked(sb, blocks, b, on), c) == if c == b then on else Used(sb, blocks, c)
  {
    var bi, ci := b % BPB, c % BPB;
    PutBitBits(blocks[sb.BBlock(b)][bi / 8], bi % 8, on, ci % 8);
    hide Bit, PutBit;
  }

  // ---------- inodes on disk ----------

  // struct dinode is 16 words: type, major, minor, nlink in two of them, then size, addrs, permission, owner.
  function SizeWord(inum: int): int { inum % IPB * 16 + 2 }

  function AddrWord(inum: int, k: int): int { inum % IPB * 16 + 3 + k }

  function DiskInode(sb: Super, blocks: Blocks, inum: int): Dinode
    requires sb.Ok() && |blocks| == sb.size && 0 <= inum < sb.ninodes
  {
    var s := blocks[sb.IBlock(inum)];
    Dinode(GetWord(s, SizeWord(inum)), seq(NDIRECT + 1, k requires 0 <= k < NDIRECT + 1 => GetWord(s, AddrWord(inum, k))))
  }

  /** The inodes in memory, each as the disk has it. */
  function Mounted(sb: Super, blocks: Blocks): Fs
    requires sb.Ok() && |blocks| == sb.size
  {
    Fs(blocks, seq(sb.ninodes, i requires 0 <= i < sb.ninodes => DiskInode(sb, blocks, i)))
  }

  /** Every inode on disk is as it is in memory. */
  ghost predicate DiskSynced(sb: Super, fs: Fs)
    requires Shaped(sb, fs)
  {
    forall i {:trigger DiskInode(sb, fs.blocks, i)} :: 0 <= i < sb.ninodes ==> DiskInode(sb, fs.blocks, i) == fs.inodes[i]
  }

  // ---------- where the blocks of a file are noted ----------

  /** A place for a block number: 0..6 in the inode itself, 7 that of the indirect block, 8.. in the indirect block. */
  datatype Slot = Slot(inum: int, k: int)

  predicate IsSlot(sb: Super, y: Slot) { 0 <= y.inum < sb.ninodes && 0 <= y.k <= MAXFILE }

  const TABLE := NDIRECT

  /** The place that notes file block bn. */
  function DataSlot(bn: int): int { if bn < NDIRECT then bn else bn + 1 }

  function Entry(blocks: Blocks, table: int, j: int): int
    requires 0 <= j < NINDIRECT
  {
    if 0 < table < |blocks| then GetWord(blocks[table], j) else 0
  }

  /** The block number noted in a place, 0 for none. */
  function Ref(sb: Super, fs: Fs, y: Slot): int
    requires Shaped(sb, fs) && IsSlot(sb, y)
  {
    var addrs := fs.inodes[y.inum].addrs;
    if y.k <= TABLE then addrs[y.k] else Entry(fs.blocks, addrs[TABLE], y.k - TABLE - 1)
  }

  /** Which place each used data block belongs to. */
  type Owner = map<int, Slot>

  ghost predicate NotedOk(sb: Super, fs: Fs, owner: Owner, y: Slot)
    requires Shaped(sb, fs) && IsSlot(sb, y)
  {
    var r := Ref(sb, fs, y);
    r != 0 ==> r in owner && owner[r] == y
  }

  ghost predicate OwnedOk(sb: Super, fs: Fs, owner: Owner, r: int)
    requires Shaped(sb, fs) && r in owner
  {
    IsSlot(sb, owner[r]) && Ref(sb, fs, owner[r]) == r && sb.DataStart() <= r < sb.size
  }

  /** Blocks that are neither free nor data come first. */
  ghost predicate MapOk(sb: Super, fs: Fs, owner: Owner, b: int)
    requires Shaped(sb, fs) && 0 <= b < sb.size
  {
    Used(sb, fs.blocks, b) <==> b < sb.DataStart() || b in owner
  }

  /** Every block of the first `upto` bytes is there. */
  ghost predicate Filled(sb: Super, fs: Fs, inum: int, upto: int)
    requires Shaped(sb, fs) && 0 <= inum < sb.ninodes
  {
    && upto <= MAXFILE * BSIZE
    && forall bn {:trigger DataSlot(bn)} :: 0 <= bn && bn * BSIZE < upto ==> Ref(sb, fs, Slot(inum, DataSlot(bn))) != 0
  }

  /** Every used data block belongs to exactly one place, and the free map knows. */
  ghost predicate Sound(sb: Super, fs: Fs, owner: Owner) {
    && Shaped(sb, fs)
    && (forall y {:trigger NotedOk(sb, fs, owner, y)} :: IsSlot(sb, y) ==> NotedOk(sb, fs, owner, y))
    && (forall r {:trigger OwnedOk(sb, fs, owner, r)} :: r in owner ==> OwnedOk(sb, fs, owner, r))
    && (forall b {:trigger MapOk(sb, fs, owner, b)} :: 0 <= b < sb.size ==> MapOk(sb, fs, owner, b))
  }

  /** And every file has all its blocks. */
  ghost predicate Good(sb: Super, fs: Fs, owner: Owner)
    ensures Good(sb, fs, owner) ==> Sound(sb, fs, owner)
  {
    && Sound(sb, fs, owner)
    && (forall i {:trigger Filled(sb, fs, i, fs.inodes[i].size)} :: 0 <= i < sb.ninodes ==> Filled(sb, fs, i, fs.inodes[i].size))
  }

  // ---------- contents ----------

  /** Byte i of a file, whether or not the file is that long: a missing block reads as zeros. */
  function Peek(sb: Super, fs: Fs, inum: int, i: int): Byte
    requires Shaped(sb, fs) && 0 <= inum < sb.ninodes && 0 <= i < MAXFILE * BSIZE
  {
    var r := Ref(sb, fs, Slot(inum, DataSlot(i / BSIZE)));
    if 0 < r < |fs.blocks| then fs.blocks[r][i % BSIZE] else 0
  }

  /** What reading the whole file gives. */
  function Contents(sb: Super, fs: Fs, inum: int): seq<Byte>
    requires Shaped(sb, fs) && 0 <= inum < sb.ninodes && fs.inodes[inum].size <= MAXFILE * BSIZE
  {
    Span(sb, fs, inum, 0, fs.inodes[inum].size)
  }

  /** n bytes of a file from a given one on. */
  function Span(sb: Super, fs: Fs, inum: int, from: int, n: int): (s: seq<Byte>)
    requires Shaped(sb, fs) && 0 <= inum < sb.ninodes && 0 <= from && 0 <= n && (n > 0 ==> from + n <= MAXFILE * BSIZE)
    ensures |s| == n
  {
    seq<Byte>(n, i requires 0 <= i < n => Peek(sb, fs, inum, from + i))
  }

  lemma {:induction false} SpanPart(sb: Super, fs: Fs, inum: int, from: int, n: int, at: int, m: int)
    requires Shaped(sb, fs) && 0 <= inum < sb.ninodes && 0 <= from && from + n <= MAXFILE * BSIZE
    requires 0 <= at && 0 <= m && at + m <= n
    ensures Span(sb, fs, inum, from, n)[at..at + m] == Span(sb, fs, inum, from + at, m)
  {
    hide Peek;
  }

  lemma {:induction false} SpanAppend(sb: Super, fs: Fs, inum: int, from: int, n: int, m: int)
    requires Shaped(sb, fs) && 0 <= inum < sb.ninodes && 0 <= from && 0 <= n && 0 <= m && from + n + m <= MAXFILE * BSIZE
    ensures Span(sb, fs, inum, from, n) + Span(sb, fs, inum, from + n, m) == Span(sb, fs, inum, from, n + m)
  {
    hide Peek;
  }

  ghost predicate SamePeek(sb: Super, fs: Fs, fs': Fs)
    requires Shaped(sb, fs) && Shaped(sb, fs')
  {
    forall inum, i {:trigger Peek(sb, fs', inum, i)} :: 0 <= inum < sb.ninodes && 0 <= i < MAXFILE * BSIZE ==>
      Peek(sb, fs', inum, i) == Peek(sb, fs, inum, i)
  }

  lemma {:induction false} PeekIn(sb: Super, fs: Fs, owner: Owner, inum: int, i: int)
    requires Sound(sb, fs, owner) && 0 <= inum < sb.ninodes && 0 <= i < MAXFILE * BSIZE
    requires Ref(sb, fs, Slot(inum, DataSlot(i / BSIZE))) != 0
    ensures var r := Ref(sb, fs, Slot(inum, DataSlot(i / BSIZE)));
            0 < r < |fs.blocks| && Peek(sb, fs, inum, i) == fs.blocks[r][i % BSIZE]
  {
    RefUsed(sb, fs, owner, Slot(inum, DataSlot(i / BSIZE)));
    hide Good, Used, Ref;
  }

  lemma {:induction false} BlockPeek(sb: Super, fs: Fs, owner: Owner, inum: int, bn: int)
    requires Sound(sb, fs, owner) && 0 <= inum < sb.ninodes && 0 <= bn < MAXFILE
    requires Ref(sb, fs, Slot(inum, DataSlot(bn))) != 0
    ensures var r := Ref(sb, fs, Slot(inum, DataSlot(bn)));
            0 < r < |fs.blocks| && fs.blocks[r] == Span(sb, fs, inum, bn * BSIZE, BSIZE)
  {
    PeekIn(sb, fs, owner, inum, bn * BSIZE);
    hide Good, Ref, Peek, DataSlot;
    var r := Ref(sb, fs, Slot(inum, DataSlot(bn)));
    forall j | 0 <= j < BSIZE
      ensures fs.blocks[r][j] == Peek(sb, fs, inum, bn * BSIZE + j)
    {
      var i := bn * BSIZE + j;
      assert i / BSIZE == bn && i % BSIZE == j;
      PeekIn(sb, fs, owner, inum, i);
    }
  }

  // ---------- no block too many ----------

  /** As appending leaves a file: no block is noted behind its end. */
  ghost predicate NothingBehind(sb: Super, fs: Fs, inum: int)
    requires Shaped(sb, fs) && 0 <= inum < sb.ninodes
  {
    forall bn {:trigger DataSlot(bn)} :: 0 <= bn < MAXFILE && bn * BSIZE >= fs.inodes[inum].size ==>
      Ref(sb, fs, Slot(inum, DataSlot(bn))) == 0
  }

  /** And there is no indirect block without need. */
  ghost predicate Lean(sb: Super, fs: Fs, inum: int)
    requires Shaped(sb, fs) && 0 <= inum < sb.ninodes
  {
    && NothingBehind(sb, fs, inum)
    && (fs.inodes[inum].size <= NDIRECT * BSIZE ==> Ref(sb, fs, Slot(inum, TABLE)) == 0)
  }

  /** The place is that of file block bn, or of the indirect block on the way to it. */
  ghost predicate OnWay(y: Slot, inum: int, bn: int) {
    y.inum == inum && (y.k == DataSlot(bn) || (y.k == TABLE && bn >= NDIRECT))
  }

  /** Nothing new is noted but on the way to file block bn. */
  ghost predicate OnlyOnWay(sb: Super, fs: Fs, fs': Fs, inum: int, bn: int) {
    && Shaped(sb, fs) && Shaped(sb, fs')
    && forall y {:trigger Ref(sb, fs', y)} :: IsSlot(sb, y) && !OnWay(y, inum, bn) ==> Ref(sb, fs', y) == Ref(sb, fs, y)
  }

  /** Nothing new is noted but what the first `upto` bytes of the file need. */
  ghost predicate OnlyBelow(sb: Super, fs: Fs, fs': Fs, inum: int, upto: int) {
    && Shaped(sb, fs) && Shaped(sb, fs')
    && (forall y {:trigger Ref(sb, fs', y)} :: IsSlot(sb, y) && y.inum != inum ==> Ref(sb, fs', y) == Ref(sb, fs, y))
    && (forall bn {:trigger DataSlot(bn)} :: 0 <= bn < MAXFILE && bn * BSIZE >= upto && 0 <= inum < sb.ninodes ==>
          Ref(sb, fs', Slot(inum, DataSlot(bn))) == Ref(sb, fs, Slot(inum, DataSlot(bn))))
    && (0 <= inum < sb.ninodes && upto <= NDIRECT * BSIZE ==> Ref(sb, fs', Slot(inum, TABLE)) == Ref(sb, fs, Slot(inum, TABLE)))
  }

  lemma {:induction false} OnlyBelowMore(sb: Super, a: Fs, b: Fs, c: Fs, inum: int, upto: int, more: int)
    requires OnlyBelow(sb, a, b, inum, upto) && OnlyBelow(sb, b, c, inum, more) && upto <= more
    ensures OnlyBelow(sb, a, c, inum, more)
  {
    hide Ref;
    forall y {:trigger Ref(sb, c, y)} | IsSlot(sb, y) && y.inum != inum
      ensures Ref(sb, c, y) == Ref(sb, a, y)
    {
      assert Ref(sb, b, y) == Ref(sb, a, y);
    }
  }

  lemma {:induction false} WayIsBelow(sb: Super, fs: Fs, fs': Fs, inum: int, bn: int, upto: int)
    requires OnlyOnWay(sb, fs, fs', inum, bn) && bn * BSIZE < upto
    ensures OnlyBelow(sb, fs, fs', inum, upto)
  {
    hide Ref;
  }

  /** A file that is as long as what it needs new blocks for stays lean. */
  lemma {:induction false} StaysLean(sb: Super, fs: Fs, fs': Fs, inum: int, upto: int, j: int)
    requires OnlyBelow(sb, fs, fs', inum, upto) && 0 <= j < sb.ninodes && Lean(sb, fs, j)
    requires fs'.inodes[j].size >= fs.inodes[j].size && (j == inum ==> fs'.inodes[j].size >= upto)
    ensures Lean(sb, fs', j)
  {
    hide Ref;
    forall bn {:trigger DataSlot(bn)} | 0 <= bn < MAXFILE && bn * BSIZE >= fs'.inodes[j].size
      ensures Ref(sb, fs', Slot(j, DataSlot(bn))) == 0
    {
      assert Ref(sb, fs', Slot(j, DataSlot(bn))) == Ref(sb, fs, Slot(j, DataSlot(bn)));
    }
  }

  // ---------- consequences ----------

  /** Two places never note the same block. */
  lemma {:induction false} RefsDistinct(sb: Super, fs: Fs, owner: Owner, y: Slot, z: Slot)
    requires Sound(sb, fs, owner) && IsSlot(sb, y) && IsSlot(sb, z) && y != z && Ref(sb, fs, y) != 0
    ensures Ref(sb, fs, y) != Ref(sb, fs, z)
  {
    assert NotedOk(sb, fs, owner, y) && NotedOk(sb, fs, owner, z);
  }

  /** A noted block is a used data block. */
  lemma {:induction false} RefUsed(sb: Super, fs: Fs, owner: Owner, y: Slot)
    requires Sound(sb, fs, owner) && IsSlot(sb, y) && Ref(sb, fs, y) != 0
    ensures sb.DataStart() <= Ref(sb, fs, y) < sb.size && Used(sb, fs.blocks, Ref(sb, fs, y))
  {
    var r := Ref(sb, fs, y);
    assert NotedOk(sb, fs, owner, y) && OwnedOk(sb, fs, owner, r) && MapOk(sb, fs, owner, r);
  }

  lemma {:induction false} FreeIsData(sb: Super, fs: Fs, owner: Owner, b: int)
    requires Sound(sb, fs, owner) && 0 <= b < sb.size && !Used(sb, fs.blocks, b)
    ensures 0 < sb.DataStart() <= b && b !in owner
  {
    assert MapOk(sb, fs, owner, b);
  }

  /** Only bitmap blocks say what is used. */
  lemma {:induction false} UsedDependsOnMap(sb: Super, blocks: Blocks, blocks': Blocks, c: int)
    requires sb.Ok() && |blocks| == |blocks'| == sb.size && 0 <= c < sb.size
    requires blocks'[sb.BBlock(c)] == blocks[sb.BBlock(c)]
    ensures Used(sb, blocks', c) <==> Used(sb, blocks, c)
  {
  }

  /** The indirect block of an inode is a used data block, and no other inode's. */
  lemma {:induction false} TableUsed(sb: Super, fs: Fs, owner: Owner, inum: int)
    requires Sound(sb, fs, owner) && 0 <= inum < sb.ninodes && fs.inodes[inum].addrs[TABLE] != 0
    ensures var t := fs.inodes[inum].addrs[TABLE];
            && sb.DataStart() <= t < sb.size && Used(sb, fs.blocks, t)
            && (forall i :: 0 <= i < sb.ninodes && i != inum ==> fs.inodes[i].addrs[TABLE] != t)
            && (forall y {:trigger Ref(sb, fs, y)} :: IsSlot(sb, y) && y != Slot(inum, TABLE) ==> Ref(sb, fs, y) != t)
  {
    RefUsed(sb, fs, owner, Slot(inum, TABLE));
    forall y {:trigger Ref(sb, fs, y)} | IsSlot(sb, y) && y != Slot(inum, TABLE)
      ensures Ref(sb, fs, y) != fs.inodes[inum].addrs[TABLE]
    {
      RefsDistinct(sb, fs, owner, Slot(inum, TABLE), y);
    }
    forall i | 0 <= i < sb.ninodes && i != inum
      ensures fs.inodes[i].addrs[TABLE] != fs.inodes[inum].addrs[TABLE]
    {
      assert Ref(sb, fs, Slot(i, TABLE)) == fs.inodes[i].addrs[TABLE];
    }
  }

  /** What noted a block still notes it, no inode but one has changed, and no size. */
  ghost predicate Kept(sb: Super, fs: Fs, fs': Fs, inum: int) {
    && Shaped(sb, fs) && Shaped(sb, fs') && 0 <= inum < sb.ninodes
    && (forall y {:trigger Ref(sb, fs', y)} :: IsSlot(sb, y) && Ref(sb, fs, y) != 0 ==> Ref(sb, fs', y) == Ref(sb, fs, y))
    && (forall c :: 0 <= c < sb.bmapstart ==> fs'.blocks[c] == fs.blocks[c])
    && fs'.inodes == fs.inodes[inum := Dinode(fs.inodes[inum].size, fs'.inodes[inum].addrs)]
  }

  lemma {:induction false} KeptTwice(sb: Super, a: Fs, b: Fs, c: Fs, inum: int)
    requires Kept(sb, a, b, inum) && Kept(sb, b, c, inum)
    ensures Kept(sb, a, c, inum)
    ensures SamePeek(sb, a, b) && SamePeek(sb, b, c) ==> SamePeek(sb, a, c)
  {
    hide Ref, Peek;
    forall y {:trigger Ref(sb, c, y)} | IsSlot(sb, y) && Ref(sb, a, y) != 0
      ensures Ref(sb, c, y) == Ref(sb, a, y)
    {
      assert Ref(sb, b, y) == Ref(sb, a, y);
    }
    if SamePeek(sb, a, b) && SamePeek(sb, b, c) {
      forall j, i {:trigger Peek(sb, c, j, i)} | 0 <= j < sb.ninodes && 0 <= i < MAXFILE * BSIZE
        ensures Peek(sb, c, j, i) == Peek(sb, a, j, i)
      {
        assert Peek(sb, b, j, i) == Peek(sb, a, j, i);
      }
    }
  }

  lemma {:induction false} DirectRef(sb: Super, fs: Fs, inum: int, k: int)
    requires Shaped(sb, fs) && 0 <= inum < sb.ninodes && 0 <= k <= TABLE
    ensures Ref(sb, fs, Slot(inum, k)) == fs.inodes[inum].addrs[k]
  {
  }

  lemma {:induction false} SameDiskInode(sb: Super, a: Blocks, b: Blocks, i: int)
    requires sb.Ok() && |a| == |b| == sb.size && 0 <= i < sb.ninodes && b[sb.IBlock(i)] == a[sb.IBlock(i)]
    ensures DiskInode(sb, b, i) == DiskInode(sb, a, i)
  {
  }

  /** Block numbers fit in a word. */
  lemma {:induction false} AddrsAreWords(sb: Super, fs: Fs, owner: Owner, inum: int)
    requires Good(sb, fs, owner) && 0 <= inum < sb.ninodes
    ensures fs.inodes[inum].size <= MAXFILE * BSIZE
    ensures forall k :: 0 <= k <= TABLE ==> 0 <= fs.inodes[inum].addrs[k] < UINT
  {
    assert Filled(sb, fs, inum, fs.inodes[inum].size);
    forall k | 0 <= k <= TABLE
      ensures 0 <= fs.inodes[inum].addrs[k] < UINT
    {
      if Ref(sb, fs, Slot(inum, k)) != 0 {
        RefUsed(sb, fs, owner, Slot(inum, k));
      }
    }
  }

  /** A disk without files, on which exactly the blocks before the data are in use, is well formed. */
  lemma {:induction false} NoFilesGood(sb: Super, blocks: Blocks)
    requires sb.Ok() && |blocks| == sb.size
    requires forall b {:trigger Used(sb, blocks, b)} :: 0 <= b < sb.size ==> (Used(sb, blocks, b) <==> b < sb.DataStart())
    requires forall i :: 0 <= i < sb.ninodes ==>
               DiskInode(sb, blocks, i).size == 0 && forall k :: 0 <= k <= TABLE ==> DiskInode(sb, blocks, i).addrs[k] == 0
    ensures Good(sb, Mounted(sb, blocks), map[])
    ensures forall i :: 0 <= i < sb.ninodes ==> Contents(sb, Mounted(sb, blocks), i) == [] && Lean(sb, Mounted(sb, blocks), i)
  {
    var fs := Mounted(sb, blocks);
    hide Used;
    forall y {:trigger NotedOk(sb, fs, map[], y)} | IsSlot(sb, y)
      ensures NotedOk(sb, fs, map[], y)
    {
      assert fs.inodes[y.inum] == DiskInode(sb, blocks, y.inum);
    }
    forall b {:trigger MapOk(sb, fs, map[], b)} | 0 <= b < sb.size
      ensures MapOk(sb, fs, map[], b)
    {
      assert Used(sb, blocks, b) <==> b < sb.DataStart();
    }
    forall i {:trigger Filled(sb, fs, i, fs.inodes[i].size)} | 0 <= i < sb.ninodes
      ensures Filled(sb, fs, i, fs.inodes[i].size)
    {
      assert fs.inodes[i] == DiskInode(sb, blocks, i);
    }
    forall i | 0 <= i < sb.ninodes
      ensures Contents(sb, fs, i) == [] && Lean(sb, fs, i)
    {
      assert fs.inodes[i] == DiskInode(sb, blocks, i);
    }
  }
}
