/** Freeing all blocks of an inode. */
module FsTruncate {
  import opened FsBlocks
  import opened FsShape
  import opened FsWrite

  /** The blocks of one inode. */
  ghost function BlocksOf(owner: Owner, inum: int): set<int> {
    set c | c in owner && owner[c].inum == inum
  }

  const NO_ADDRS: seq<int> := [0, 0, 0, 0, 0, 0, 0, 0]

  function Emptied(fs: Fs, inum: int, blocks: Blocks): Fs
    requires 0 <= inum < |fs.inodes|
  {
    Fs(blocks, fs.inodes[inum := Dinode(0, NO_ADDRS)])
  }

  /** blocks is fs.blocks, but for the free map, where the bits of `freed` have been cleared. */
  ghost predicate FreedTo(sb: Super, fs: Fs, blocks: Blocks, freed: set<int>)
    requires Shaped(sb, fs)
  {
    && |blocks| == sb.size
    && (forall c :: 0 <= c < sb.bmapstart || sb.DataStart() <= c < sb.size ==> blocks[c] == fs.blocks[c])
    && (forall c {:trigger Used(sb, blocks, c)} :: 0 <= c < sb.size ==>
          (Used(sb, blocks, c) <==> Used(sb, fs.blocks, c) && c !in freed))
  }

  lemma {:induction false} EmptiedRef(sb: Super, fs: Fs, owner: Owner, inum: int, blocks: Blocks, y: Slot)
    requires Good(sb, fs, owner) && 0 <= inum < sb.ninodes && IsSlot(sb, y)
    requires FreedTo(sb, fs, blocks, BlocksOf(owner, inum))
    ensures Shaped(sb, Emptied(fs, inum, blocks))
    ensures Ref(sb, Emptied(fs, inum, blocks), y) == if y.inum == inum then 0 else Ref(sb, fs, y)
  {
    if fs.inodes[y.inum].addrs[TABLE] != 0 {
      TableUsed(sb, fs, owner, y.inum);
    }
    hide Good, Used, GetWord;
  }

  lemma {:induction false} EmptiedPeek(sb: Super, fs: Fs, owner: Owner, inum: int, blocks: Blocks, j: int, i: int)
    requires Good(sb, fs, owner) && 0 <= inum < sb.ninodes && FreedTo(sb, fs, blocks, BlocksOf(owner, inum))
    requires 0 <= j < sb.ninodes && 0 <= i < MAXFILE * BSIZE
    ensures Shaped(sb, Emptied(fs, inum, blocks))
    ensures Peek(sb, Emptied(fs, inum, blocks), j, i) == if j == inum then 0 else Peek(sb, fs, j, i)
  {
    var y := Slot(j, DataSlot(i / BSIZE));
    assert IsSlot(sb, y);
    EmptiedRef(sb, fs, owner, inum, blocks, y);
    if Ref(sb, fs, y) != 0 {
      RefUsed(sb, fs, owner, y);
    }
    hide Good, Used, Ref;
  }

  /** Freeing exactly the blocks of an inode, and clearing it, keeps everything well formed; every other file keeps
      its blocks. */
  lemma {:induction false} EmptiedGood(sb: Super, fs: Fs, owner: Owner, inum: int, blocks: Blocks)
    requires Good(sb, fs, owner) && 0 <= inum < sb.ninodes && FreedTo(sb, fs, blocks, BlocksOf(owner, inum))
    ensures Good(sb, Emptied(fs, inum, blocks), owner - BlocksOf(owner, inum))
  {
    var fs', owner' := Emptied(fs, inum, blocks), owner - BlocksOf(owner, inum);
    assert Shaped(sb, fs');
    forall y {:trigger Ref(sb, fs', y)} | IsSlot(sb, y)
      ensures Ref(sb, fs', y) == if y.inum == inum then 0 else Ref(sb, fs, y)
    {
      EmptiedRef(sb, fs, owner, inum, blocks, y);
    }
    hide Ref, Used;
    forall y {:trigger NotedOk(sb, fs', owner', y)} | IsSlot(sb, y)
      ensures NotedOk(sb, fs', owner', y)
    {
      assert NotedOk(sb, fs, owner, y);
    }
    forall r {:trigger OwnedOk(sb, fs', owner', r)} | r in owner'
      ensures OwnedOk(sb, fs', owner', r)
    {
      assert OwnedOk(sb, fs, owner, r);
    }
    forall c {:trigger MapOk(sb, fs', owner', c)} | 0 <= c < sb.size
      ensures MapOk(sb, fs', owner', c)
    {
      assert MapOk(sb, fs, owner, c);
      assert c in owner ==> OwnedOk(sb, fs, owner, c);
    }
    forall i {:trigger Filled(sb, fs', i, fs'.inodes[i].size)} | 0 <= i < sb.ninodes
      ensures Filled(sb, fs', i, fs'.inodes[i].size)
    {
      assert Filled(sb, fs, i, fs.inodes[i].size);
    }
  }

  /** The numbers from..upto. */
  ghost function Range(from: int, upto: int): (s: set<int>)
    ensures forall k :: (k in s <==> from <= k < upto)
    decreases if from < upto then upto - from else 0
  {
    if from >= upto then {} else Range(from, upto - 1) + {upto - 1}
  }

  /** The blocks noted in some of an inode's places. */
  ghost function NotesOf(sb: Super, fs: Fs, inum: int, done: set<int>): set<int>
    requires Shaped(sb, fs) && 0 <= inum < sb.ninodes && forall k :: k in done ==> 0 <= k <= MAXFILE
  {
    set k | k in done && Ref(sb, fs, Slot(inum, k)) != 0 :: Ref(sb, fs, Slot(inum, k))
  }

  ghost predicate Freeing(sb: Super, fs: Fs, inum: int, done: set<int>, blocks: Blocks)
    requires Shaped(sb, fs) && 0 <= inum < sb.ninodes
  {
    && (forall k :: k in done ==> 0 <= k <= MAXFILE)
    && FreedTo(sb, fs, blocks, NotesOf(sb, fs, inum, done))
  }

  /** A block noted in a place that has not been freed yet is still in use, and freeing it frees one place more. */
  lemma {:induction false} FreeingOne(sb: Super, fs: Fs, owner: Owner, inum: int, done: set<int>, blocks: Blocks, k: int)
    requires Good(sb, fs, owner) && 0 <= inum < sb.ninodes && Freeing(sb, fs, inum, done, blocks)
    requires 0 <= k <= MAXFILE && k !in done
    ensures var b := Ref(sb, fs, Slot(inum, k));
            if b == 0 then Freeing(sb, fs, inum, done + {k}, blocks)
            else 0 <= b < sb.size && Used(sb, blocks, b) && Freeing(sb, fs, inum, done + {k}, Marked(sb, blocks, b, false))
  {
    var x := Slot(inum, k);
    var b := Ref(sb, fs, x);
    if b == 0 {
      assert NotesOf(sb, fs, inum, done + {k}) == NotesOf(sb, fs, inum, done);
    } else {
      RefUsed(sb, fs, owner, x);
      forall d | d in done && Ref(sb, fs, Slot(inum, d)) != 0
        ensures Ref(sb, fs, Slot(inum, d)) != b
      {
        RefsDistinct(sb, fs, owner, x, Slot(inum, d));
      }
      var blocks' := Marked(sb, blocks, b, false);
      FreeingMore(sb, fs, inum, done, k);
      hide Good, Ref, Used, NotesOf;
      forall c {:trigger Used(sb, blocks', c)} | 0 <= c < sb.size
        ensures Used(sb, blocks', c) <==> Used(sb, fs.blocks, c) && c !in NotesOf(sb, fs, inum, done + {k})
      {
        MarkedUsed(sb, blocks, b, false, c);
      }
      hide PutBit;
    }
  }

  lemma {:induction false} FreeingMore(sb: Super, fs: Fs, inum: int, done: set<int>, k: int)
    requires Shaped(sb, fs) && 0 <= inum < sb.ninodes && (forall d :: d in done ==> 0 <= d <= MAXFILE) && 0 <= k <= MAXFILE
    requires Ref(sb, fs, Slot(inum, k)) != 0
    ensures NotesOf(sb, fs, inum, done + {k}) == NotesOf(sb, fs, inum, done) + {Ref(sb, fs, Slot(inum, k))}
  {
    hide Ref, Shaped;
  }

  /** Without an indirect block there are no entries to free. */
  lemma {:induction false} NoEntries(sb: Super, fs: Fs, inum: int, done: set<int>, all: set<int>, blocks: Blocks)
    requires Shaped(sb, fs) && 0 <= inum < sb.ninodes && Freeing(sb, fs, inum, done, blocks)
    requires fs.inodes[inum].addrs[TABLE] == 0
    requires done <= all && forall k :: k in all - done ==> TABLE <= k <= MAXFILE
    ensures Freeing(sb, fs, inum, all, blocks)
  {
    forall k | k in all
      ensures 0 <= k <= MAXFILE && (k !in done ==> Ref(sb, fs, Slot(inum, k)) == 0)
    {
      assert k !in done ==> k in all - done;
    }
    hide Ref, Used;
    assert NotesOf(sb, fs, inum, all) == NotesOf(sb, fs, inum, done);
  }

  /** The indirect block is as it was while other blocks are freed. */
  lemma {:induction false} TableUntouched(sb: Super, fs: Fs, owner: Owner, inum: int, freed: set<int>, blocks: Blocks)
    requires Good(sb, fs, owner) && 0 <= inum < sb.ninodes && fs.inodes[inum].addrs[TABLE] != 0
    requires FreedTo(sb, fs, blocks, freed)
    ensures var t := fs.inodes[inum].addrs[TABLE];
            && 0 < t < sb.size && blocks[t] == fs.blocks[t]
            && forall j :: 0 <= j < NINDIRECT ==> GetWord(blocks[t], j) == Ref(sb, fs, Slot(inum, TABLE + 1 + j))
  {
    TableUsed(sb, fs, owner, inum);
    hide Good, Used, GetWord;
  }

  lemma {:induction false} EntryFreed(j: int)
    requires 0 <= j
    ensures Range(0, NDIRECT) + Range(TABLE + 1, TABLE + 1 + j) + {TABLE + 1 + j}
            == Range(0, NDIRECT) + Range(TABLE + 1, TABLE + 1 + j + 1)
  {
  }

  /** The noted blocks are the blocks of the inode, when no other place notes any. */
  lemma {:induction false} NotesAre(sb: Super, fs: Fs, owner: Owner, inum: int, done: set<int>)
    requires Sound(sb, fs, owner) && 0 <= inum < sb.ninodes && forall k :: k in done ==> 0 <= k <= MAXFILE
    requires forall k :: 0 <= k <= MAXFILE && k !in done ==> Ref(sb, fs, Slot(inum, k)) == 0
    ensures NotesOf(sb, fs, inum, done) == BlocksOf(owner, inum)
  {
    hide Ref, Used, MapOk;
    forall c
      ensures c in NotesOf(sb, fs, inum, done) <==> c in BlocksOf(owner, inum)
    {
      if c in NotesOf(sb, fs, inum, done) {
        var k :| k in done && Ref(sb, fs, Slot(inum, k)) == c && c != 0;
        assert NotedOk(sb, fs, owner, Slot(inum, k));
      }
      if c in BlocksOf(owner, inum) {
        assert OwnedOk(sb, fs, owner, c);
        assert owner[c] == Slot(inum, owner[c].k);
      }
    }
  }

  /** All places together are all blocks of the inode. */
  lemma {:induction false} FreeingAll(sb: Super, fs: Fs, owner: Owner, inum: int, done: set<int>, blocks: Blocks)
    requires Good(sb, fs, owner) && 0 <= inum < sb.ninodes && Freeing(sb, fs, inum, done, blocks)
    requires forall k :: 0 <= k <= MAXFILE ==> k in done
    ensures FreedTo(sb, fs, blocks, BlocksOf(owner, inum))
  {
    NotesAre(sb, fs, owner, inum, done);
  }

  /** After the inode has gone to disk too: the file is empty, the others are as they were. */
  lemma {:induction false} TruncatedGood(sb: Super, fs: Fs, owner: Owner, inum: int, mid: Fs, fs': Fs)
    requires Shaped(sb, fs) && Good(sb, fs, owner) && 0 <= inum < sb.ninodes && DiskSynced(sb, fs)
    requires FreedTo(sb, fs, mid.blocks, BlocksOf(owner, inum)) && mid == Emptied(fs, inum, mid.blocks)
    requires |fs'.blocks| == sb.size && fs'.blocks == mid.blocks[sb.IBlock(inum) := fs'.blocks[sb.IBlock(inum)]]
    requires fs'.inodes == mid.inodes
    requires forall i :: 0 <= i < sb.ninodes ==>
               DiskInode(sb, fs'.blocks, i) == if i == inum then mid.inodes[inum] else DiskInode(sb, mid.blocks, i)
    ensures Good(sb, fs', owner - BlocksOf(owner, inum)) && DiskSynced(sb, fs')
    ensures forall c {:trigger Used(sb, fs'.blocks, c)} :: 0 <= c < sb.size ==>
              (Used(sb, fs'.blocks, c) <==> Used(sb, fs.blocks, c) && c !in BlocksOf(owner, inum))
    ensures forall j :: 0 <= j < sb.ninodes ==> fs'.inodes[j].size <= MAXFILE * BSIZE && fs.inodes[j].size <= MAXFILE * BSIZE
    ensures forall j {:trigger Contents(sb, fs', j)} :: 0 <= j < sb.ninodes ==>
              Contents(sb, fs', j) == if j == inum then [] else Contents(sb, fs, j)
    ensures forall j :: 0 <= j < sb.ninodes && (j == inum || Lean(sb, fs, j)) ==> Lean(sb, fs', j)
  {
    var owner' := owner - BlocksOf(owner, inum);
    EmptiedGood(sb, fs, owner, inum, mid.blocks);
    TruncatedDisk(sb, fs, owner, inum, mid, fs');
    hide Lean;
    forall j | 0 <= j < sb.ninodes && (j == inum || Lean(sb, fs, j))
      ensures Lean(sb, fs', j)
    {
      TruncatedLean(sb, fs, owner, inum, mid, fs', j);
    }
    SameFromMapNotes(sb, mid, owner', fs');
    SameNotesGood(sb, mid, owner', fs');
    hide Good, Used, Peek, Ref, DiskSynced;
    forall c {:trigger Used(sb, fs'.blocks, c)} | 0 <= c < sb.size
      ensures Used(sb, fs'.blocks, c) <==> Used(sb, fs.blocks, c) && c !in BlocksOf(owner, inum)
    {
      assert Used(sb, fs'.blocks, c) <==> Used(sb, mid.blocks, c);
    }
    hide FreedTo, BlocksOf;
    forall j | 0 <= j < sb.ninodes
      ensures fs'.inodes[j].size <= MAXFILE * BSIZE && fs.inodes[j].size <= MAXFILE * BSIZE
    {
      AddrsAreWords(sb, fs, owner, j);
    }
    forall j {:trigger Contents(sb, fs', j)} | 0 <= j < sb.ninodes
      ensures Contents(sb, fs', j) == if j == inum then [] else Contents(sb, fs, j)
    {
      if j != inum {
        TruncatedContents(sb, fs, owner, inum, mid, fs', j);
      } else {
        assert fs'.inodes[j].size == 0 && Contents(sb, fs', j) == [];
      }
    }
  }

  lemma {:induction false} TruncatedDisk(sb: Super, fs: Fs, owner: Owner, inum: int, mid: Fs, fs': Fs)
    requires Shaped(sb, fs) && Good(sb, fs, owner) && 0 <= inum < sb.ninodes && DiskSynced(sb, fs)
    requires FreedTo(sb, fs, mid.blocks, BlocksOf(owner, inum)) && mid == Emptied(fs, inum, mid.blocks)
    requires |fs'.blocks| == sb.size && fs'.blocks == mid.blocks[sb.IBlock(inum) := fs'.blocks[sb.IBlock(inum)]]
    requires fs'.inodes == mid.inodes
    requires forall i :: 0 <= i < sb.ninodes ==>
               DiskInode(sb, fs'.blocks, i) == if i == inum then mid.inodes[inum] else DiskInode(sb, mid.blocks, i)
    ensures Shaped(sb, fs') && SameFromMap(sb, mid, fs') && DiskSynced(sb, fs')
  {
    hide Good, Used;
    assert SameFromMap(sb, mid, fs');
    forall i | 0 <= i < sb.ninodes
      ensures DiskInode(sb, mid.blocks, i) == DiskInode(sb, fs.blocks, i)
    {
      SameDiskInode(sb, fs.blocks, mid.blocks, i);
    }
    SyncedAgain(sb, fs, fs', inum);
  }

  lemma {:induction false} TruncatedContents(sb: Super, fs: Fs, owner: Owner, inum: int, mid: Fs, fs': Fs, j: int)
    requires Shaped(sb, fs) && Good(sb, fs, owner) && 0 <= inum < sb.ninodes && 0 <= j < sb.ninodes && j != inum
    requires FreedTo(sb, fs, mid.blocks, BlocksOf(owner, inum)) && mid == Emptied(fs, inum, mid.blocks)
    requires Shaped(sb, mid) && Shaped(sb, fs') && SamePeek(sb, mid, fs') && fs'.inodes == mid.inodes
    requires fs.inodes[j].size <= MAXFILE * BSIZE
    ensures Contents(sb, fs', j) == Contents(sb, fs, j)
  {
    assert fs'.inodes[j] == fs.inodes[j];
    hide Good, Peek, FreedTo, BlocksOf;
    forall i | 0 <= i < fs.inodes[j].size
      ensures Contents(sb, fs', j)[i] == Contents(sb, fs, j)[i]
    {
      EmptiedPeek(sb, fs, owner, inum, mid.blocks, j, i);
      assert Peek(sb, fs', j, i) == Peek(sb, mid, j, i);
    }
  }

  // ---------- how many blocks a file has ----------

  /** The file has no block left, and the others have none too many that had none before. */
  lemma {:induction false} TruncatedLean(sb: Super, fs: Fs, owner: Owner, inum: int, mid: Fs, fs': Fs, j: int)
    requires Shaped(sb, fs) && Good(sb, fs, owner) && 0 <= inum < sb.ninodes && 0 <= j < sb.ninodes
    requires FreedTo(sb, fs, mid.blocks, BlocksOf(owner, inum)) && mid == Emptied(fs, inum, mid.blocks)
    requires Shaped(sb, mid) && SameFromMap(sb, mid, fs') && fs'.inodes == mid.inodes
    requires j == inum || Lean(sb, fs, j)
    ensures Lean(sb, fs', j)
  {
    EmptiedGood(sb, fs, owner, inum, mid.blocks);
    SameFromMapNotes(sb, mid, owner - BlocksOf(owner, inum), fs');
    hide Good, FreedTo, BlocksOf;
    forall k | 0 <= k <= MAXFILE
      ensures Ref(sb, fs', Slot(j, k)) == if j == inum then 0 else Ref(sb, fs, Slot(j, k))
    {
      EmptiedRef(sb, fs, owner, inum, mid.blocks, Slot(j, k));
      assert Ref(sb, fs', Slot(j, k)) == Ref(sb, mid, Slot(j, k));
    }
    hide Ref;
  }

  lemma {:induction false} DistinctNotes(sb: Super, fs: Fs, owner: Owner, inum: int, m: int)
    requires Sound(sb, fs, owner) && 0 <= inum < sb.ninodes && 0 <= m <= MAXFILE + 1
    requires forall k :: 0 <= k < m ==> Ref(sb, fs, Slot(inum, k)) != 0
    ensures |NotesOf(sb, fs, inum, Range(0, m))| == m
  {
    if m == 0 {
      assert NotesOf(sb, fs, inum, Range(0, 0)) == {};
    } else {
      DistinctNotes(sb, fs, owner, inum, m - 1);
      FreeingMore(sb, fs, inum, Range(0, m - 1), m - 1);
      forall k | 0 <= k < m - 1
        ensures Ref(sb, fs, Slot(inum, k)) != Ref(sb, fs, Slot(inum, m - 1))
      {
        RefsDistinct(sb, fs, owner, Slot(inum, k), Slot(inum, m - 1));
      }
      hide Ref, Sound;
    }
  }

  /** A lean file has exactly the blocks that its size needs, and one more for the indirect block if it needs that. */
  lemma {:induction false} BlockCount(sb: Super, fs: Fs, owner: Owner, inum: int)
    requires Good(sb, fs, owner) && 0 <= inum < sb.ninodes && Lean(sb, fs, inum)
    ensures var n := (fs.inodes[inum].size + BSIZE - 1) / BSIZE;
            |BlocksOf(owner, inum)| == if n <= NDIRECT then n else n + 1
  {
    var size := fs.inodes[inum].size;
    var n := (size + BSIZE - 1) / BSIZE;
    var m := if n <= NDIRECT then n else n + 1;
    assert Filled(sb, fs, inum, size);
    forall k | 0 <= k <= MAXFILE
      ensures Ref(sb, fs, Slot(inum, k)) != 0 <==> k < m
    {
      NeededPlace(sb, fs, inum, size, n, k);
    }
    DistinctNotes(sb, fs, owner, inum, m);
    NotesAre(sb, fs, owner, inum, Range(0, m));
  }

  lemma {:induction false} NeededPlace(sb: Super, fs: Fs, inum: int, size: int, n: int, k: int)
    requires Shaped(sb, fs) && 0 <= inum < sb.ninodes && Lean(sb, fs, inum) && Filled(sb, fs, inum, size) && 0 <= k <= MAXFILE
    requires size == fs.inodes[inum].size && n == (size + BSIZE - 1) / BSIZE
    ensures n <= MAXFILE
    ensures Ref(sb, fs, Slot(inum, k)) != 0 <==> k < if n <= NDIRECT then n else n + 1
  {
    hide GetWord;
    if k < TABLE {
      assert DataSlot(k) == k;
    } else if k > TABLE {
      assert DataSlot(k - 1) == k;
    } else if n > NDIRECT {
      assert Ref(sb, fs, Slot(inum, DataSlot(NDIRECT))) != 0;
    }
  }
}
