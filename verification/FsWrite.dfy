/** Writing into the blocks of a file, and writing an inode to disk. */
module FsWrite {
  import opened FsBlocks
  import opened FsShape

  // ---------- nothing moves ----------

  /** fs' notes the same blocks in the same places and uses the same blocks. */
  ghost predicate SameNotes(sb: Super, fs: Fs, fs': Fs) {
    && Shaped(sb, fs) && Shaped(sb, fs')
    && (forall y {:trigger Ref(sb, fs', y)} :: IsSlot(sb, y) ==> Ref(sb, fs', y) == Ref(sb, fs, y))
    && (forall c {:trigger Used(sb, fs'.blocks, c)} :: 0 <= c < sb.size ==>
          (Used(sb, fs'.blocks, c) <==> Used(sb, fs.blocks, c)))
  }

  lemma {:induction false} SameNotesSound(sb: Super, fs: Fs, owner: Owner, fs': Fs)
    requires Sound(sb, fs, owner) && SameNotes(sb, fs, fs')
    ensures Sound(sb, fs', owner)
  {
    hide Ref, Used;
    forall y {:trigger NotedOk(sb, fs', owner, y)} | IsSlot(sb, y)
      ensures NotedOk(sb, fs', owner, y)
    {
      assert NotedOk(sb, fs, owner, y);
    }
    forall r {:trigger OwnedOk(sb, fs', owner, r)} | r in owner
      ensures OwnedOk(sb, fs', owner, r)
    {
      assert OwnedOk(sb, fs, owner, r);
    }
    forall c {:trigger MapOk(sb, fs', owner, c)} | 0 <= c < sb.size
      ensures MapOk(sb, fs', owner, c)
    {
      assert MapOk(sb, fs, owner, c);
    }
  }

  lemma {:induction false} SameNotesGood(sb: Super, fs: Fs, owner: Owner, fs': Fs)
    requires Good(sb, fs, owner) && SameNotes(sb, fs, fs')
    requires forall i :: 0 <= i < sb.ninodes ==> fs'.inodes[i].size == fs.inodes[i].size || Filled(sb, fs, i, fs'.inodes[i].size)
    ensures Good(sb, fs', owner)
  {
    hide Ref, Used;
    SameNotesSound(sb, fs, owner, fs');
    forall i {:trigger Filled(sb, fs', i, fs'.inodes[i].size)} | 0 <= i < sb.ninodes
      ensures Filled(sb, fs', i, fs'.inodes[i].size)
    {
      assert Filled(sb, fs, i, fs.inodes[i].size);
    }
  }

  // ---------- a block of a file is written ----------

  function Written(fs: Fs, r: int, data: Bytes): Fs
    requires 0 <= r < |fs.blocks|
  {
    Fs(fs.blocks[r := data], fs.inodes)
  }

  lemma {:induction false} WrittenRef(sb: Super, fs: Fs, owner: Owner, x: Slot, data: Bytes, y: Slot)
    requires Good(sb, fs, owner) && IsSlot(sb, x) && x.k != TABLE && Ref(sb, fs, x) != 0 && IsSlot(sb, y)
    ensures 0 <= Ref(sb, fs, x) < |fs.blocks|
    ensures Shaped(sb, Written(fs, Ref(sb, fs, x), data))
    ensures Ref(sb, Written(fs, Ref(sb, fs, x), data), y) == Ref(sb, fs, y)
  {
    RefUsed(sb, fs, owner, x);
    if fs.inodes[y.inum].addrs[TABLE] != 0 {
      TableUsed(sb, fs, owner, y.inum);
      assert Ref(sb, fs, x) != fs.inodes[y.inum].addrs[TABLE];
    }
    hide Good, Used, GetWord;
  }

  lemma {:induction false} WrittenNotes(sb: Super, fs: Fs, owner: Owner, x: Slot, data: Bytes)
    requires Good(sb, fs, owner) && IsSlot(sb, x) && x.k != TABLE && Ref(sb, fs, x) != 0
    ensures 0 <= Ref(sb, fs, x) < |fs.blocks| && SameNotes(sb, fs, Written(fs, Ref(sb, fs, x), data))
  {
    RefUsed(sb, fs, owner, x);
    var fs' := Written(fs, Ref(sb, fs, x), data);
    forall y {:trigger Ref(sb, fs', y)} | IsSlot(sb, y)
      ensures Ref(sb, fs', y) == Ref(sb, fs, y)
    {
      WrittenRef(sb, fs, owner, x, data, y);
    }
    hide Good, Ref;
    forall c {:trigger Used(sb, fs'.blocks, c)} | 0 <= c < sb.size
      ensures Used(sb, fs'.blocks, c) <==> Used(sb, fs.blocks, c)
    {
      UsedDependsOnMap(sb, fs.blocks, fs'.blocks, c);
    }
  }

  /** Writing file block bn changes its bytes of this file, and no other byte of any file. */
  lemma {:induction false} WrittenPeek(sb: Super, fs: Fs, owner: Owner, inum: int, bn: int, data: Bytes, j: int, i: int)
    requires Good(sb, fs, owner) && 0 <= inum < sb.ninodes && 0 <= bn < MAXFILE
    requires Ref(sb, fs, Slot(inum, DataSlot(bn))) != 0
    requires 0 <= j < sb.ninodes && 0 <= i < MAXFILE * BSIZE
    ensures var r := Ref(sb, fs, Slot(inum, DataSlot(bn)));
            && 0 <= r < |fs.blocks| && Shaped(sb, Written(fs, r, data))
            && Peek(sb, Written(fs, r, data), j, i)
                 == if j == inum && i / BSIZE == bn then data[i % BSIZE] else Peek(sb, fs, j, i)
  {
    var x, y := Slot(inum, DataSlot(bn)), Slot(j, DataSlot(i / BSIZE));
    assert IsSlot(sb, x) && IsSlot(sb, y) && x.k != TABLE && (x == y <==> j == inum && i / BSIZE == bn);
    WrittenRef(sb, fs, owner, x, data, y);
    RefUsed(sb, fs, owner, x);
    if x != y {
      RefsDistinct(sb, fs, owner, x, y);
    }
    hide Good, Used, Ref, DataSlot;
  }

  /** The bytes of src replace those of one file from off on; no other byte of any file changes. */
  ghost predicate Overlaid(sb: Super, fs: Fs, fs': Fs, inum: int, off: int, src: seq<Byte>)
    requires Shaped(sb, fs) && Shaped(sb, fs')
  {
    forall j, i {:trigger Peek(sb, fs', j, i)} :: 0 <= j < sb.ninodes && 0 <= i < MAXFILE * BSIZE ==>
      Peek(sb, fs', j, i) == if j == inum && off <= i < off + |src| then src[i - off] else Peek(sb, fs, j, i)
  }

  lemma {:induction false} OverlaidMore(sb: Super, a: Fs, b: Fs, c: Fs, inum: int, off: int, s: seq<Byte>, t: seq<Byte>)
    requires Shaped(sb, a) && Shaped(sb, b) && Shaped(sb, c)
    requires Overlaid(sb, a, b, inum, off, s) && Overlaid(sb, b, c, inum, off + |s|, t)
    ensures Overlaid(sb, a, c, inum, off, s + t)
  {
    hide Peek, Shaped;
    forall j, i {:trigger Peek(sb, c, j, i)} | 0 <= j < sb.ninodes && 0 <= i < MAXFILE * BSIZE
      ensures Peek(sb, c, j, i) == if j == inum && off <= i < off + |s + t| then (s + t)[i - off] else Peek(sb, a, j, i)
    {
      assert Peek(sb, b, j, i) == if j == inum && off <= i < off + |s| then s[i - off] else Peek(sb, a, j, i);
    }
  }

  lemma {:induction false} OverlaidSame(sb: Super, a: Fs, b: Fs, inum: int, off: int)
    requires Shaped(sb, a) && Shaped(sb, b)
    ensures SamePeek(sb, a, b) <==> Overlaid(sb, a, b, inum, off, [])
  {
    hide Peek, Shaped;
  }

  /** A block with some bytes copied into it. */
  function Spliced(bp: Bytes, at: int, data: seq<Byte>): Bytes
    requires 0 <= at && at + |data| <= BSIZE
  {
    bp[..at] + data + bp[at + |data|..]
  }

  lemma {:induction false} SplicedPeek(sb: Super, fs: Fs, owner: Owner, inum: int, at: int, data: seq<Byte>, j: int, i: int)
    requires Good(sb, fs, owner) && 0 <= inum < sb.ninodes && 0 <= at < MAXFILE * BSIZE && at % BSIZE + |data| <= BSIZE
    requires Ref(sb, fs, Slot(inum, DataSlot(at / BSIZE))) != 0
    requires 0 <= j < sb.ninodes && 0 <= i < MAXFILE * BSIZE
    ensures var r := Ref(sb, fs, Slot(inum, DataSlot(at / BSIZE)));
            && 0 < r < |fs.blocks|
            && var fs' := Written(fs, r, Spliced(fs.blocks[r], at % BSIZE, data));
               && Shaped(sb, fs')
               && Peek(sb, fs', j, i) == if j == inum && at <= i < at + |data| then data[i - at] else Peek(sb, fs, j, i)
  {
    var r := Ref(sb, fs, Slot(inum, DataSlot(at / BSIZE)));
    PeekIn(sb, fs, owner, inum, at);
    if i / BSIZE == at / BSIZE {
      PeekIn(sb, fs, owner, inum, i);
      assert at <= i < at + |data| <==> at % BSIZE <= i % BSIZE < at % BSIZE + |data|;
    }
    WrittenPeek(sb, fs, owner, inum, at / BSIZE, Spliced(fs.blocks[r], at % BSIZE, data), j, i);
    hide Good, Ref, Peek, Written, Shaped;
  }

  /** Copying bytes into a block that is there. */
  lemma {:induction false} SplicedGood(sb: Super, fs: Fs, owner: Owner, inum: int, at: int, data: seq<Byte>)
    requires Good(sb, fs, owner) && 0 <= inum < sb.ninodes && 0 <= at < MAXFILE * BSIZE && at % BSIZE + |data| <= BSIZE
    requires Ref(sb, fs, Slot(inum, DataSlot(at / BSIZE))) != 0
    ensures var r := Ref(sb, fs, Slot(inum, DataSlot(at / BSIZE)));
            && 0 < r < |fs.blocks|
            && var fs' := Written(fs, r, Spliced(fs.blocks[r], at % BSIZE, data));
               && Good(sb, fs', owner) && Kept(sb, fs, fs', inum) && Overlaid(sb, fs, fs', inum, at, data)
               && SameNotes(sb, fs, fs')
  {
    var x := Slot(inum, DataSlot(at / BSIZE));
    assert IsSlot(sb, x) && x.k != TABLE;
    RefUsed(sb, fs, owner, x);
    var r := Ref(sb, fs, x);
    var bp := Spliced(fs.blocks[r], at % BSIZE, data);
    var fs' := Written(fs, r, bp);
    WrittenNotes(sb, fs, owner, x, bp);
    hide Ref, Used, Spliced, Peek;
    SameNotesGood(sb, fs, owner, fs');
    forall j, i {:trigger Peek(sb, fs', j, i)} | 0 <= j < sb.ninodes && 0 <= i < MAXFILE * BSIZE
      ensures Peek(sb, fs', j, i) == if j == inum && at <= i < at + |data| then data[i - at] else Peek(sb, fs, j, i)
    {
      SplicedPeek(sb, fs, owner, inum, at, data, j, i);
    }
  }

  /** One more block is there, next to those that were. */
  lemma {:induction false} FilledMore(sb: Super, fs: Fs, fs': Fs, inum: int, upto: int, at: int, m: int)
    requires Kept(sb, fs, fs', inum) && Filled(sb, fs, inum, upto) && 0 <= at <= upto && 0 <= m && at + m <= MAXFILE * BSIZE
    requires at % BSIZE + m <= BSIZE && at < MAXFILE * BSIZE
    requires Ref(sb, fs', Slot(inum, DataSlot(at / BSIZE))) != 0
    ensures Filled(sb, fs', inum, upto) && Filled(sb, fs', inum, at + m)
  {
    hide Ref;
    forall bn {:trigger DataSlot(bn)} | 0 <= bn && (bn * BSIZE < upto || bn * BSIZE < at + m) && bn < MAXFILE
      ensures Ref(sb, fs', Slot(inum, DataSlot(bn))) != 0
    {
      if bn * BSIZE < upto {
        assert Ref(sb, fs, Slot(inum, DataSlot(bn))) != 0;
      } else {
        assert bn == at / BSIZE;
      }
    }
  }

  // ---------- an inode is written ----------

  /** Nothing from the free map on has changed, and no block number in an inode. */
  ghost predicate SameFromMap(sb: Super, fs: Fs, fs': Fs) {
    && Shaped(sb, fs) && Shaped(sb, fs')
    && (forall c :: sb.bmapstart <= c < sb.size ==> fs'.blocks[c] == fs.blocks[c])
    && (forall i :: 0 <= i < sb.ninodes ==> fs'.inodes[i].addrs == fs.inodes[i].addrs)
  }

  lemma {:induction false} SameFromMapRef(sb: Super, fs: Fs, owner: Owner, fs': Fs, y: Slot)
    requires Good(sb, fs, owner) && SameFromMap(sb, fs, fs') && IsSlot(sb, y)
    ensures Ref(sb, fs', y) == Ref(sb, fs, y)
  {
    if fs.inodes[y.inum].addrs[TABLE] != 0 {
      TableUsed(sb, fs, owner, y.inum);
    }
    hide Good, Used, GetWord;
  }

  lemma {:induction false} SameFromMapNotes(sb: Super, fs: Fs, owner: Owner, fs': Fs)
    requires Good(sb, fs, owner) && SameFromMap(sb, fs, fs')
    ensures SameNotes(sb, fs, fs') && SamePeek(sb, fs, fs')
  {
    forall y {:trigger Ref(sb, fs', y)} | IsSlot(sb, y)
      ensures Ref(sb, fs', y) == Ref(sb, fs, y)
    {
      SameFromMapRef(sb, fs, owner, fs', y);
    }
    hide Ref;
    forall c {:trigger Used(sb, fs'.blocks, c)} | 0 <= c < sb.size
      ensures Used(sb, fs'.blocks, c) <==> Used(sb, fs.blocks, c)
    {
      UsedDependsOnMap(sb, fs.blocks, fs'.blocks, c);
    }
    forall inum, i {:trigger Peek(sb, fs', inum, i)} | 0 <= inum < sb.ninodes && 0 <= i < MAXFILE * BSIZE
      ensures Peek(sb, fs', inum, i) == Peek(sb, fs, inum, i)
    {
      var y := Slot(inum, DataSlot(i / BSIZE));
      assert IsSlot(sb, y);
      if Ref(sb, fs, y) != 0 {
        RefUsed(sb, fs, owner, y);
      }
    }
  }

  /** A file gets a size up to which it has all its blocks. */
  lemma {:induction false} ResizedGood(sb: Super, fs: Fs, owner: Owner, fs': Fs, inum: int)
    requires Good(sb, fs, owner) && SameFromMap(sb, fs, fs') && 0 <= inum < sb.ninodes
    requires Filled(sb, fs, inum, fs'.inodes[inum].size)
    requires forall i :: 0 <= i < sb.ninodes && i != inum ==> fs'.inodes[i] == fs.inodes[i]
    ensures Good(sb, fs', owner) && SamePeek(sb, fs, fs') && SameNotes(sb, fs, fs')
  {
    SameFromMapNotes(sb, fs, owner, fs');
    SameNotesGood(sb, fs, owner, fs');
  }

  /** Writing the one inode that has changed brings the disk up to date. */
  lemma {:induction false} SyncedAgain(sb: Super, fs: Fs, fs': Fs, inum: int)
    requires Shaped(sb, fs) && Shaped(sb, fs') && DiskSynced(sb, fs) && 0 <= inum < sb.ninodes
    requires DiskInode(sb, fs'.blocks, inum) == fs'.inodes[inum]
    requires forall i :: 0 <= i < sb.ninodes && i != inum ==>
               fs'.inodes[i] == fs.inodes[i] && DiskInode(sb, fs'.blocks, i) == DiskInode(sb, fs.blocks, i)
    ensures DiskSynced(sb, fs')
  {
  }

  lemma {:induction false} KeptSynced(sb: Super, fs: Fs, fs': Fs, inum: int)
    requires Kept(sb, fs, fs', inum) && DiskSynced(sb, fs) && fs'.inodes == fs.inodes
    ensures DiskSynced(sb, fs')
  {
    forall i {:trigger DiskInode(sb, fs'.blocks, i)} | 0 <= i < sb.ninodes
      ensures DiskInode(sb, fs'.blocks, i) == fs'.inodes[i]
    {
      SameDiskInode(sb, fs.blocks, fs'.blocks, i);
    }
  }

  /** src over c from off on. */
  function Overlay(c: seq<Byte>, off: int, src: seq<Byte>): seq<Byte>
    requires 0 <= off <= |c|
  {
    c[..off] + src + if off + |src| < |c| then c[off + |src|..] else []
  }

  /** Reading back what was written gives it, and around it nothing has changed. */
  lemma {:induction false} OverlayReadBack(c: seq<Byte>, off: int, src: seq<Byte>, from: int, n: int)
    requires 0 <= off <= |c| && 0 <= from && 0 <= n && from + n <= |Overlay(c, off, src)|
    ensures |Overlay(c, off, src)| == if off + |src| < |c| then |c| else off + |src|
    ensures from == off && n == |src| ==> Overlay(c, off, src)[from..from + n] == src
    ensures from + n <= off ==> Overlay(c, off, src)[from..from + n] == c[from..from + n]
    ensures off + |src| <= from && n > 0 ==> Overlay(c, off, src)[from..from + n] == c[from..from + n]
  {
  }

  lemma {:induction false} OverlaidContents(sb: Super, fs: Fs, fs': Fs, inum: int, off: int, src: seq<Byte>, j: int)
    requires Shaped(sb, fs) && Shaped(sb, fs') && 0 <= inum < sb.ninodes && 0 <= j < sb.ninodes
    requires 0 <= off <= fs.inodes[inum].size && fs.inodes[j].size <= MAXFILE * BSIZE && fs'.inodes[j].size <= MAXFILE * BSIZE
    requires fs.inodes[inum].size <= MAXFILE * BSIZE
    requires Overlaid(sb, fs, fs', inum, off, src)
    requires fs'.inodes[j].size == if j == inum && off + |src| > fs.inodes[j].size then off + |src| else fs.inodes[j].size
    ensures Contents(sb, fs', j) == if j == inum then Overlay(Contents(sb, fs, j), off, src) else Contents(sb, fs, j)
  {
    hide Peek;
    var c, c' := Contents(sb, fs, j), Contents(sb, fs', j);
    var e := if j == inum then Overlay(c, off, src) else c;
    assert |c'| == |e|;
    forall i | 0 <= i < |c'|
      ensures c'[i] == e[i]
    {
      assert c'[i] == Peek(sb, fs', j, i);
      assert i < |c| ==> c[i] == Peek(sb, fs, j, i);
    }
  }

  lemma {:induction false} AllContents(sb: Super, fs: Fs, fs': Fs, inum: int, off: int, src: seq<Byte>)
    requires Shaped(sb, fs) && Shaped(sb, fs') && 0 <= inum < sb.ninodes && 0 <= off <= fs.inodes[inum].size
    requires forall j :: 0 <= j < sb.ninodes ==> fs.inodes[j].size <= MAXFILE * BSIZE && fs'.inodes[j].size <= MAXFILE * BSIZE
    requires Overlaid(sb, fs, fs', inum, off, src)
    requires forall j :: 0 <= j < sb.ninodes ==>
               fs'.inodes[j].size == if j == inum && off + |src| > fs.inodes[j].size then off + |src| else fs.inodes[j].size
    ensures forall j {:trigger Contents(sb, fs', j)} :: 0 <= j < sb.ninodes ==>
              Contents(sb, fs', j) == if j == inum then Overlay(Contents(sb, fs, j), off, src) else Contents(sb, fs, j)
  {
    forall j {:trigger Contents(sb, fs', j)} | 0 <= j < sb.ninodes
      ensures Contents(sb, fs', j) == if j == inum then Overlay(Contents(sb, fs, j), off, src) else Contents(sb, fs, j)
    {
      OverlaidContents(sb, fs, fs', inum, off, src, j);
    }
  }
}
