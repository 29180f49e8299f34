/** Allocating a block: a free block, zeroed, gets noted in a place of an inode that had none. */
module FsAlloc {
  import opened FsBlocks
  import opened FsShape

  /** fs' is fs with free block b, zeroed, noted at x. */
  ghost predicate Added(sb: Super, fs: Fs, fs': Fs, x: Slot, b: int) {
    && Shaped(sb, fs) && Shaped(sb, fs') && IsSlot(sb, x) && Ref(sb, fs, x) == 0
    && sb.DataStart() <= b < sb.size && !Used(sb, fs.blocks, b)
    && (forall y {:trigger Ref(sb, fs', y)} :: IsSlot(sb, y) ==> Ref(sb, fs', y) == if y == x then b else Ref(sb, fs, y))
    && (forall c {:trigger Used(sb, fs'.blocks, c)} :: 0 <= c < sb.size ==>
          (Used(sb, fs'.blocks, c) <==> c == b || Used(sb, fs.blocks, c)))
    && (forall i :: 0 <= i < sb.ninodes ==> fs'.inodes[i].size == fs.inodes[i].size)
  }

  lemma {:induction false} AddedGood(sb: Super, fs: Fs, owner: Owner, fs': Fs, x: Slot, b: int)
    requires Sound(sb, fs, owner) && Added(sb, fs, fs', x, b)
    ensures Sound(sb, fs', owner[b := x]) && b !in owner
    ensures Good(sb, fs, owner) ==> Good(sb, fs', owner[b := x])
  {
    var owner' := owner[b := x];
    hide Ref, Used;
    assert MapOk(sb, fs, owner, b);
    forall y {:trigger NotedOk(sb, fs', owner', y)} | IsSlot(sb, y)
      ensures NotedOk(sb, fs', owner', y)
    {
      assert NotedOk(sb, fs, owner, y);
    }
    forall r {:trigger OwnedOk(sb, fs', owner', r)} | r in owner'
      ensures OwnedOk(sb, fs', owner', r)
    {
      assert r != b ==> OwnedOk(sb, fs, owner, r);
    }
    forall c {:trigger MapOk(sb, fs', owner', c)} | 0 <= c < sb.size
      ensures MapOk(sb, fs', owner', c)
    {
      assert MapOk(sb, fs, owner, c);
    }
    forall i {:trigger Filled(sb, fs', i, fs'.inodes[i].size)} | 0 <= i < sb.ninodes && Good(sb, fs, owner)
      ensures Filled(sb, fs', i, fs'.inodes[i].size)
    {
      assert Filled(sb, fs, i, fs.inodes[i].size);
    }
  }

  function Allocated(sb: Super, blocks: Blocks, b: int): (a: Blocks)
    requires sb.Ok() && |blocks| == sb.size && 0 <= b < sb.size
    ensures |a| == sb.size
  {
    Marked(sb, blocks, b, true)[b := Zeros()]
  }

  /** The file system after allocating b and noting it at x. */
  function Noted(sb: Super, fs: Fs, x: Slot, b: int): Fs
    requires Shaped(sb, fs) && IsSlot(sb, x) && 0 <= b < sb.size
  {
    var a := Allocated(sb, fs.blocks, b);
    var ip := fs.inodes[x.inum];
    var t := ip.addrs[TABLE];
    if x.k <= TABLE then Fs(a, fs.inodes[x.inum := ip.(addrs := ip.addrs[x.k := b])])
    else if 0 < t < |a| then Fs(a[t := PutWord(a[t], x.k - TABLE - 1, b)], fs.inodes)
    else fs
  }

  /** b is free, and x has room for its number. */
  ghost predicate CanNote(sb: Super, fs: Fs, owner: Owner, x: Slot, b: int) {
    && Sound(sb, fs, owner) && IsSlot(sb, x) && Ref(sb, fs, x) == 0
    && 0 <= b < sb.size && !Used(sb, fs.blocks, b)
    && (x.k > TABLE ==> fs.inodes[x.inum].addrs[TABLE] != 0)
  }

  /** A data block that was used, and is not the indirect block being changed, is as it was. */
  lemma {:induction false} NotedBlocks(sb: Super, fs: Fs, owner: Owner, x: Slot, b: int, c: int)
    requires CanNote(sb, fs, owner, x, b)
    requires sb.DataStart() <= c < sb.size && Used(sb, fs.blocks, c)
    ensures Shaped(sb, Noted(sb, fs, x, b)) && sb.DataStart() <= b
    ensures x.k <= TABLE || c != fs.inodes[x.inum].addrs[TABLE] ==> Noted(sb, fs, x, b).blocks[c] == fs.blocks[c]
    ensures x.k > TABLE && c == fs.inodes[x.inum].addrs[TABLE] ==>
              Noted(sb, fs, x, b).blocks[c] == PutWord(fs.blocks[c], x.k - TABLE - 1, b)
  {
    assert MapOk(sb, fs, owner, b);
    hide Good, Used, PutWord;
  }

  /** The entries of an indirect block after noting b at x. */
  lemma {:induction false} NotedEntry(sb: Super, fs: Fs, owner: Owner, x: Slot, b: int, y: Slot)
    requires CanNote(sb, fs, owner, x, b) && IsSlot(sb, y) && y.k > TABLE && x != Slot(y.inum, TABLE)
    ensures Shaped(sb, Noted(sb, fs, x, b))
    ensures Ref(sb, Noted(sb, fs, x, b), y) == if y == x then b else Ref(sb, fs, y)
  {
    var t, u := fs.inodes[x.inum].addrs[TABLE], fs.inodes[y.inum].addrs[TABLE];
    assert u == Ref(sb, fs, Slot(y.inum, TABLE));
    NotedAddrs(sb, fs, x, b, y.inum, TABLE);
    if u != 0 {
      TableUsed(sb, fs, owner, y.inum);
      NotedBlocks(sb, fs, owner, x, b, u);
      if x.k > TABLE && u == t {
        PutWordWords(fs.blocks[u], x.k - TABLE - 1, b, y.k - TABLE - 1);
      }
    }
    hide Good, Used, GetWord, PutWord, Noted, IsSlot;
  }

  lemma {:induction false} NotedAddrs(sb: Super, fs: Fs, x: Slot, b: int, i: int, k: int)
    requires Shaped(sb, fs) && IsSlot(sb, x) && 0 <= b < sb.size && 0 <= i < sb.ninodes && 0 <= k <= TABLE
    ensures var fs' := Noted(sb, fs, x, b);
            && Shaped(sb, fs')
            && fs'.inodes[i].addrs[k] == if x == Slot(i, k) then b else fs.inodes[i].addrs[k]
  {
    hide Allocated, PutWord;
  }

  /** A new indirect block has no entries. */
  lemma {:induction false} NotedNewTable(sb: Super, fs: Fs, x: Slot, b: int, j: int)
    requires Shaped(sb, fs) && IsSlot(sb, x) && 0 < b < sb.size && x.k == TABLE && 0 <= j < NINDIRECT
    ensures Shaped(sb, Noted(sb, fs, x, b)) && Entry(Noted(sb, fs, x, b).blocks, b, j) == 0
  {
    hide GetWord, Allocated, Zeros, PutWord;
    NotedAddrs(sb, fs, x, b, x.inum, TABLE);
    AllocatedZeroed(sb, fs.blocks, b);
    EmptyTable(j);
  }

  /** Allocating a block does not touch another data block. */
  lemma {:induction false} AllocatedTable(sb: Super, blocks: Blocks, b: int, t: int)
    requires sb.Ok() && |blocks| == sb.size && 0 <= b < sb.size && sb.DataStart() <= t < sb.size && t != b
    ensures Allocated(sb, blocks, b)[t] == blocks[t]
  {
    hide PutBit;
  }

  lemma {:induction false} AllocatedZeroed(sb: Super, blocks: Blocks, b: int)
    requires sb.Ok() && |blocks| == sb.size && 0 <= b < sb.size
    ensures Allocated(sb, blocks, b)[b] == Zeros()
  {
    hide Marked, Zeros;
  }

  lemma {:induction false} NotedRef(sb: Super, fs: Fs, owner: Owner, x: Slot, b: int, y: Slot)
    requires CanNote(sb, fs, owner, x, b) && IsSlot(sb, y)
    ensures Shaped(sb, Noted(sb, fs, x, b))
    ensures Ref(sb, Noted(sb, fs, x, b), y) == if y == x then b else Ref(sb, fs, y)
  {
    assert Shaped(sb, fs);
    hide Good, Used, Noted, GetWord, Entry;
    FreeIsData(sb, fs, owner, b);
    NotedAddrs(sb, fs, x, b, y.inum, TABLE);
    if y.k <= TABLE {
      NotedAddrs(sb, fs, x, b, y.inum, y.k);
    } else if x == Slot(y.inum, TABLE) {
      NotedNewTable(sb, fs, x, b, y.k - TABLE - 1);
      NoTable(fs.blocks, y.k - TABLE - 1);
    } else {
      NotedEntry(sb, fs, owner, x, b, y);
    }
  }

  lemma {:induction false} NoTable(blocks: Blocks, j: int)
    requires 0 <= j < NINDIRECT
    ensures Entry(blocks, 0, j) == 0
  {
  }

  lemma {:induction false} EmptyTable(j: int)
    requires 0 <= j < NINDIRECT
    ensures GetWord(Zeros(), j) == 0
  {
  }

  lemma {:induction false} NotedUsed(sb: Super, fs: Fs, owner: Owner, x: Slot, b: int, c: int)
    requires CanNote(sb, fs, owner, x, b) && 0 <= c < sb.size
    ensures Shaped(sb, Noted(sb, fs, x, b)) && sb.DataStart() <= b
    ensures Used(sb, Noted(sb, fs, x, b).blocks, c) <==> c == b || Used(sb, fs.blocks, c)
  {
    assert MapOk(sb, fs, owner, b);
    MarkedUsed(sb, fs.blocks, b, true, c);
    if fs.inodes[x.inum].addrs[TABLE] != 0 {
      TableUsed(sb, fs, owner, x.inum);
    }
    hide Good, Used;
    UsedDependsOnMap(sb, Marked(sb, fs.blocks, b, true), Noted(sb, fs, x, b).blocks, c);
  }

  lemma {:induction false} NotedPeek(sb: Super, fs: Fs, owner: Owner, x: Slot, b: int, inum: int, i: int)
    requires CanNote(sb, fs, owner, x, b) && 0 <= inum < sb.ninodes && 0 <= i < MAXFILE * BSIZE
    ensures Shaped(sb, Noted(sb, fs, x, b))
    ensures Peek(sb, Noted(sb, fs, x, b), inum, i) == Peek(sb, fs, inum, i)
  {
    var y := Slot(inum, DataSlot(i / BSIZE));
    var r := Ref(sb, fs, y);
    assert IsSlot(sb, y) && y.k != TABLE;
    FreeIsData(sb, fs, owner, b);
    hide Good, Used, Noted, Ref, Shaped;
    NotedRef(sb, fs, owner, x, b, y);
    if x.k > TABLE {
      TableUsed(sb, fs, owner, x.inum);
    }
    if r != 0 {
      RefUsed(sb, fs, owner, y);
      NotedBlocks(sb, fs, owner, x, b, r);
    } else if y == x {
      NotedData(sb, fs, x, b);
    }
  }

  lemma {:induction false} NotedData(sb: Super, fs: Fs, x: Slot, b: int)
    requires Shaped(sb, fs) && IsSlot(sb, x) && sb.DataStart() <= b < sb.size
    requires x.k > TABLE ==> b != fs.inodes[x.inum].addrs[TABLE] && 0 < fs.inodes[x.inum].addrs[TABLE] < sb.size
    ensures Noted(sb, fs, x, b).blocks[b] == Zeros()
  {
  }

  lemma {:induction false} NotedKept(sb: Super, fs: Fs, owner: Owner, x: Slot, b: int)
    requires CanNote(sb, fs, owner, x, b)
    ensures Kept(sb, fs, Noted(sb, fs, x, b), x.inum)
  {
    var fs' := Noted(sb, fs, x, b);
    NotedAddrs(sb, fs, x, b, x.inum, 0);
    forall y {:trigger Ref(sb, fs', y)} | IsSlot(sb, y) && Ref(sb, fs, y) != 0
      ensures Ref(sb, fs', y) == Ref(sb, fs, y)
    {
      NotedRef(sb, fs, owner, x, b, y);
    }
    FreeIsData(sb, fs, owner, b);
    if fs.inodes[x.inum].addrs[TABLE] != 0 {
      TableUsed(sb, fs, owner, x.inum);
    }
    hide Good, Used, Ref, PutWord, PutBit;
  }

  /** Allocating a free block for a place that has none keeps everything well formed and changes no byte of any
      file, even beyond its end. */
  lemma {:induction false} NotedGood(sb: Super, fs: Fs, owner: Owner, x: Slot, b: int)
    requires CanNote(sb, fs, owner, x, b)
    ensures var fs' := Noted(sb, fs, x, b);
            && Sound(sb, fs', owner[b := x]) && b !in owner && (Good(sb, fs, owner) ==> Good(sb, fs', owner[b := x]))
            && Kept(sb, fs, fs', x.inum) && SamePeek(sb, fs, fs')
            && forall y {:trigger Ref(sb, fs', y)} :: IsSlot(sb, y) && y != x ==> Ref(sb, fs', y) == Ref(sb, fs, y)
  {
    var fs' := Noted(sb, fs, x, b);
    NotedAddrs(sb, fs, x, b, x.inum, 0);
    NotedKept(sb, fs, owner, x, b);
    FreeIsData(sb, fs, owner, b);
    hide Used, Ref, Peek, Kept;
    forall y {:trigger Ref(sb, fs', y)} | IsSlot(sb, y)
      ensures Ref(sb, fs', y) == if y == x then b else Ref(sb, fs, y)
    {
      NotedRef(sb, fs, owner, x, b, y);
    }
    forall c {:trigger Used(sb, fs'.blocks, c)} | 0 <= c < sb.size
      ensures Used(sb, fs'.blocks, c) <==> c == b || Used(sb, fs.blocks, c)
    {
      NotedUsed(sb, fs, owner, x, b, c);
    }
    forall inum, i {:trigger Peek(sb, fs', inum, i)} | 0 <= inum < sb.ninodes && 0 <= i < MAXFILE * BSIZE
      ensures Peek(sb, fs', inum, i) == Peek(sb, fs, inum, i)
    {
      NotedPeek(sb, fs, owner, x, b, inum, i);
    }
    assert forall i :: 0 <= i < sb.ninodes ==> fs'.inodes[i].size == fs.inodes[i].size;
    hide Noted, Good, Sound, NotedOk, OwnedOk, MapOk, Filled, IsSlot;
    AddedGood(sb, fs, owner, fs', x, b);
  }
}
