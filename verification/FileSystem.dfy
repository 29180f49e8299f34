/** Files on disk: block allocation, and reading, writing and truncating the contents of an inode. The blocks are
    those that the buffer cache shows; an inode that is not in memory counts as in memory with its copy on disk.
 */
module FileSystem {
  import opened FsBlocks
  import opened FsShape
  import opened FsAlloc
  import opened FsWrite
  import opened FsTruncate

  datatype Option<T> = None | Some(value: T)

  function Min(a: int, b: int): int { if a < b then a else b }

  class Files {
    const sb: Super
    var blocks: Blocks
    var inodes: seq<Dinode>
    // where each used data block belongs
    ghost var owner: Owner

    ghost function State(): Fs
      reads this
    {
      Fs(blocks, inodes)
    }

    ghost predicate Valid()
      reads this
    {
      Good(sb, State(), owner)
    }

    /** The blocks are as in a well-formed file system, whether or not every file has all of its own. */
    ghost predicate Tracked()
      reads this
    {
      Sound(sb, State(), owner)
    }

    /** Mounting: every inode as it is on disk. */
    constructor (sb: Super, blocks: Blocks, ghost owner: Owner)
      requires sb.Ok() && |blocks| == sb.size && Sound(sb, Mounted(sb, blocks), owner)
      ensures this.sb == sb && State() == Mounted(sb, blocks) && this.owner == owner && Tracked() && Synced()
      ensures Valid() <==> Good(sb, Mounted(sb, blocks), owner)
    {
      this.sb, this.blocks, this.owner := sb, blocks, owner;
      inodes := Mounted(sb, blocks).inodes;
    }

    // ---------- blocks ----------

    /** A block becomes all zeros. */
    method Bzero(bno: int)
      requires 0 <= bno < |blocks|
      modifies `blocks
      ensures blocks == old(blocks)[bno := Zeros()]
    {
      blocks := blocks[bno := seq(BSIZE, _ => 0)];
    }

    /** Allocate a zeroed block: the first free one. None is the kernel's panic. */
    method Balloc() returns (r: Option<int>)
      requires sb.Ok() && |blocks| == sb.size
      modifies `blocks
      ensures r.None? ==> blocks == old(blocks) && forall c :: 0 <= c < sb.size ==> Used(sb, blocks, c)
      ensures r.Some? ==>
                && 0 <= r.value < sb.size && !Used(sb, old(blocks), r.value)
                && (forall c :: 0 <= c < r.value ==> Used(sb, old(blocks), c))
                && blocks == Allocated(sb, old(blocks), r.value)
    {
      hide Bit, PutBit, Zeros;
      var b := 0;
      while b < sb.size
        invariant 0 <= b && b % BPB == 0 && blocks == old(blocks)
        invariant forall c :: 0 <= c < b && c < sb.size ==> Used(sb, blocks, c)
      {
        var bp := blocks[sb.BBlock(b)];
        var bi := 0;
        while bi < BPB && b + bi < sb.size
          invariant 0 <= bi <= BPB && b + bi <= sb.size && blocks == old(blocks)
          invariant forall c :: 0 <= c < b + bi ==> Used(sb, blocks, c)
        {
          assert sb.BBlock(b + bi) == sb.BBlock(b) && (b + bi) % BPB == bi;
          if !Bit(bp[bi / 8], bi % 8) {
            PutBitBelow(bp[bi / 8], bi % 8, true, 8, 256);
            bp := bp[bi / 8 := PutBit(bp[bi / 8], bi % 8, true)];
            blocks := blocks[sb.BBlock(b) := bp];
            assert blocks == Marked(sb, old(blocks), b + bi, true);
            Bzero(b + bi);
            return Some(b + bi);
          }
          bi := bi + 1;
        }
        b := b + BPB;
      }
      return None;
    }

    /** Free a block. !ok is the kernel's panic "freeing free block". */
    method Bfree(b: int) returns (ok: bool)
      requires sb.Ok() && |blocks| == sb.size && 0 <= b < sb.size
      modifies `blocks
      ensures ok <==> Used(sb, old(blocks), b)
      ensures blocks == if ok then Marked(sb, old(blocks), b, false) else old(blocks)
    {
      hide Bit, PutBit;
      var bp := blocks[sb.BBlock(b)];
      var bi := b % BPB;
      if !Bit(bp[bi / 8], bi % 8) {
        return false;
      }
      PutBitBelow(bp[bi / 8], bi % 8, false, 8, 256);
      bp := bp[bi / 8 := PutBit(bp[bi / 8], bi % 8, false)];
      blocks := blocks[sb.BBlock(b) := bp];
      return true;
    }

    // ---------- inodes ----------

    /** Copy an inode to disk. */
    method Iupdate(inum: int)
      requires Shaped(sb, State()) && 0 <= inum < sb.ninodes && inodes[inum].size < UINT
      requires forall k :: 0 <= k <= TABLE ==> 0 <= inodes[inum].addrs[k] < UINT
      modifies `blocks
      ensures |blocks| == sb.size && blocks == old(blocks)[sb.IBlock(inum) := blocks[sb.IBlock(inum)]]
      ensures forall i :: 0 <= i < sb.ninodes ==>
                DiskInode(sb, blocks, i) == if i == inum then inodes[inum] else DiskInode(sb, old(blocks), i)
    {
      hide GetWord, PutWord;
      var ip := inodes[inum];
      ghost var was := blocks[sb.IBlock(inum)];
      var dip := PutWord(blocks[sb.IBlock(inum)], SizeWord(inum), ip.size);
      forall w | 0 <= w < NINDIRECT
        ensures GetWord(dip, w) == if w == SizeWord(inum) then ip.size else GetWord(was, w)
      {
        PutWordWords(was, SizeWord(inum), ip.size, w);
      }
      for k := 0 to TABLE + 1
        invariant forall w :: 0 <= w < NINDIRECT ==>
                    GetWord(dip, w) == if w == SizeWord(inum) then ip.size
                                       else if 0 <= w - AddrWord(inum, 0) < k then ip.addrs[w - AddrWord(inum, 0)]
                                       else GetWord(was, w)
      {
        forall w | 0 <= w < NINDIRECT
          ensures GetWord(PutWord(dip, AddrWord(inum, k), ip.addrs[k]), w)
                  == if w == AddrWord(inum, k) then ip.addrs[k] else GetWord(dip, w)
        {
          PutWordWords(dip, AddrWord(inum, k), ip.addrs[k], w);
        }
        dip := PutWord(dip, AddrWord(inum, k), ip.addrs[k]);
      }
      blocks := blocks[sb.IBlock(inum) := dip];
      forall i | 0 <= i < sb.ninodes
        ensures DiskInode(sb, blocks, i) == if i == inum then ip else DiskInode(sb, old(blocks), i)
      {
        if i == inum {
          assert DiskInode(sb, blocks, i).addrs == ip.addrs;
        } else {
          assert DiskInode(sb, blocks, i).addrs == DiskInode(sb, old(blocks), i).addrs;
        }
      }
    }

    // ---------- where the contents are ----------

    /** bmap's way to a direct block and to the indirect block: what the inode notes, or else a new block. */
    method AddrOrAlloc(inum: int, k: int) returns (r: Option<int>)
      requires Tracked() && 0 <= inum < sb.ninodes && 0 <= k <= TABLE
      modifies `blocks, `inodes, `owner
      ensures Tracked() && (old(Valid()) ==> Valid())
      ensures Kept(sb, old(State()), State(), inum) && SamePeek(sb, old(State()), State())
      ensures forall y {:trigger Ref(sb, State(), y)} :: IsSlot(sb, y) && y != Slot(inum, k) ==> Ref(sb, State(), y) == Ref(sb, old(State()), y)
      ensures r.None? ==> blocks == old(blocks) && inodes == old(inodes) && forall c :: 0 <= c < sb.size ==> Used(sb, blocks, c)
      ensures r.Some? ==> r.value == inodes[inum].addrs[k] != 0
      ensures old(inodes)[inum].addrs[k] != 0 ==> r.Some? && blocks == old(blocks) && inodes == old(inodes)
    {
      var addr := inodes[inum].addrs[k];
      if addr == 0 {
        assert Ref(sb, State(), Slot(inum, k)) == 0;
        ghost var fs := State();
        hide Good, Sound, Used, Ref, Peek, Allocated;
        r := Balloc();
        if r.None? {
          return;
        }
        addr := r.value;
        inodes := inodes[inum := Dinode(inodes[inum].size, inodes[inum].addrs[k := addr])];
        FreeIsData(sb, fs, owner, addr);
        NotedGood(sb, fs, owner, Slot(inum, k), addr);
        owner := owner[addr := Slot(inum, k)];
      }
      return Some(addr);
    }

    /** The rest of bmap for a block that the indirect block lists. */
    method EntryOrAlloc(inum: int, bn: int) returns (r: Option<int>)
      requires Tracked() && 0 <= inum < sb.ninodes && 0 <= bn < NINDIRECT && inodes[inum].addrs[TABLE] != 0
      modifies `blocks, `owner
      ensures Tracked() && (old(Valid()) ==> Valid())
      ensures Kept(sb, old(State()), State(), inum) && SamePeek(sb, old(State()), State())
      ensures forall y {:trigger Ref(sb, State(), y)} :: IsSlot(sb, y) && y != Slot(inum, TABLE + 1 + bn) ==>
                Ref(sb, State(), y) == Ref(sb, old(State()), y)
      ensures r.None? ==> blocks == old(blocks) && forall c :: 0 <= c < sb.size ==> Used(sb, blocks, c)
      ensures r.Some? ==> r.value == Ref(sb, State(), Slot(inum, TABLE + 1 + bn)) != 0
      ensures Ref(sb, old(State()), Slot(inum, TABLE + 1 + bn)) != 0 ==> r.Some? && blocks == old(blocks)
    {
      ghost var fs, x := State(), Slot(inum, TABLE + 1 + bn);
      TableUsed(sb, fs, owner, inum);
      var table := inodes[inum].addrs[TABLE];
      var bp := blocks[table];
      var addr := GetWord(bp, bn);
      assert addr == Ref(sb, fs, x);
      if addr == 0 {
        hide Good, Sound, Used, Ref, Peek, PutWord, GetWord;
        r := Balloc();
        if r.None? {
          return;
        }
        addr := r.value;
        FreeIsData(sb, fs, owner, addr);
        NotedGood(sb, fs, owner, x, addr);
        NotedRef(sb, fs, owner, x, addr, x);
        AllocatedTable(sb, fs.blocks, addr, table);
        bp := PutWord(bp, bn, addr);
        blocks := blocks[table := bp];
        assert State() == Noted(sb, fs, x, addr);
        owner := owner[addr := x];
      }
      return Some(addr);
    }

    /** The block that holds file block bn, allocated if there is none. None is a panic. */
    method Bmap(inum: int, bn: int) returns (r: Option<int>)
      requires Tracked() && 0 <= inum < sb.ninodes && 0 <= bn
      modifies `blocks, `inodes, `owner
      ensures Tracked() && (old(Valid()) ==> Valid())
      ensures Kept(sb, old(State()), State(), inum) && SamePeek(sb, old(State()), State())
      ensures OnlyOnWay(sb, old(State()), State(), inum, bn)
      ensures bn >= MAXFILE ==> r.None? && blocks == old(blocks) && inodes == old(inodes)
      ensures bn < MAXFILE && r.None? ==> forall c :: 0 <= c < sb.size ==> Used(sb, blocks, c)
      ensures r.Some? ==> r.value == Ref(sb, State(), Slot(inum, DataSlot(bn))) != 0
      ensures bn < MAXFILE && Ref(sb, old(State()), Slot(inum, DataSlot(bn))) != 0 ==>
                r.Some? && blocks == old(blocks) && inodes == old(inodes)
    {
      ghost var fs := State();
      assert Kept(sb, fs, fs, inum) && SamePeek(sb, fs, fs);
      hide Good, Sound, Used, Peek;
      if bn < NDIRECT {
        r := AddrOrAlloc(inum, bn);
        return;
      }
      var bn' := bn - NDIRECT;
      if bn' < NINDIRECT {
        r := AddrOrAlloc(inum, NDIRECT);
        if r.Some? {
          ghost var mid := State();
          r := EntryOrAlloc(inum, bn');
          KeptTwice(sb, fs, mid, State(), inum);
        }
        return;
      }
      return None;
    }

    // ---------- reading ----------

    /** What a read sees of a file block that is there. */
    method ReadBlock(inum: int, bn: int) returns (bp: Bytes)
      requires Valid() && 0 <= inum < sb.ninodes && 0 <= bn < MAXFILE
      requires Ref(sb, State(), Slot(inum, DataSlot(bn))) != 0
      modifies `blocks, `inodes, `owner
      ensures Valid() && blocks == old(blocks) && inodes == old(inodes)
      ensures bp == Span(sb, State(), inum, bn * BSIZE, BSIZE)
    {
      hide Good, Used, Peek, Ref;
      var addr := Bmap(inum, bn);
      BlockPeek(sb, State(), owner, inum, bn);
      bp := blocks[addr.value];
    }

    /** Read up to n bytes at off; -1 beyond the end, or when off + n wraps. */
    method Readi(inum: int, off: int, n: int) returns (r: int, dst: seq<Byte>)
      requires Valid() && 0 <= inum < sb.ninodes && 0 <= off < UINT && 0 <= n < UINT
      modifies `blocks, `inodes, `owner
      ensures blocks == old(blocks) && inodes == old(inodes) && Valid() && inodes[inum].size <= MAXFILE * BSIZE
      ensures r == -1 <==> off > inodes[inum].size || off + n >= UINT
      ensures r != -1 ==> r == Min(n, inodes[inum].size - off) && dst == Contents(sb, State(), inum)[off..off + r]
    {
      ghost var fs := State();
      assert Filled(sb, fs, inum, fs.inodes[inum].size);
      assert Span(sb, fs, inum, off, 0) == [];
      dst := [];
      if off > inodes[inum].size || (off + n) % UINT < off {
        return -1, [];
      }
      hide Good, Used, Peek, Ref, Shaped, Span;
      var n := Min(n, inodes[inum].size - off);
      var tot, at := 0, off;
      while tot < n
        invariant 0 <= tot <= n && at == off + tot
        invariant State() == fs && Valid() && dst == Span(sb, fs, inum, off, tot)
      {
        assert Ref(sb, fs, Slot(inum, DataSlot(at / BSIZE))) != 0;
        var bp := ReadBlock(inum, at / BSIZE);
        var m := Min(n - tot, BSIZE - at % BSIZE);
        SpanPart(sb, fs, inum, at - at % BSIZE, BSIZE, at % BSIZE, m);
        SpanAppend(sb, fs, inum, off, tot, m);
        dst := dst + bp[at % BSIZE..at % BSIZE + m];
        tot, at := tot + m, at + m;
      }
      SpanPart(sb, fs, inum, 0, inodes[inum].size, off, n);
      return n, dst;
    }

    // ---------- writing ----------

    /** Every inode on disk is as it is in memory. */
    ghost predicate Synced()
      requires Shaped(sb, State())
      reads this
    {
      DiskSynced(sb, State())
    }

    lemma {:induction false} Shape()
      requires Valid()
      ensures Shaped(sb, State()) && forall i :: 0 <= i < sb.ninodes ==> 0 <= inodes[i].size <= MAXFILE * BSIZE
    {
      forall i | 0 <= i < sb.ninodes
        ensures inodes[i].size <= MAXFILE * BSIZE
      {
        assert Filled(sb, State(), i, inodes[i].size);
      }
    }

    /** One turn of writei's loop: bytes that lie within one block. */
    method WriteChunk(inum: int, at: int, data: seq<Byte>) returns (ok: bool)
      requires Valid() && 0 <= inum < sb.ninodes && 0 <= at < MAXFILE * BSIZE && at % BSIZE + |data| <= BSIZE
      modifies `blocks, `inodes, `owner
      ensures Valid() && Kept(sb, old(State()), State(), inum)
      ensures !ok ==> forall c :: 0 <= c < sb.size ==> Used(sb, blocks, c)
      ensures ok ==>
                && Overlaid(sb, old(State()), State(), inum, at, data)
                && IsSlot(sb, Slot(inum, DataSlot(at / BSIZE)))
                && OnlyOnWay(sb, old(State()), State(), inum, at / BSIZE)
                && Ref(sb, State(), Slot(inum, DataSlot(at / BSIZE))) != 0
      ensures Ref(sb, old(State()), Slot(inum, DataSlot(at / BSIZE))) != 0 ==> ok && inodes == old(inodes)
    {
      ghost var fs := State();
      assert IsSlot(sb, Slot(inum, DataSlot(at / BSIZE)));
      hide Good, Used, Peek, Ref;
      var addr := Bmap(inum, at / BSIZE);
      if addr.None? {
        return false;
      }
      ghost var mid := State();
      SplicedGood(sb, mid, owner, inum, at, data);
      var bp := blocks[addr.value];
      bp := bp[..at % BSIZE] + data + bp[at % BSIZE + |data|..];
      blocks := blocks[addr.value := bp];
      assert State() == Written(mid, addr.value, Spliced(mid.blocks[addr.value], at % BSIZE, data));
      OverlaidSame(sb, fs, mid, inum, at);
      OverlaidMore(sb, fs, mid, State(), inum, at, [], data);
      assert [] + data == data;
      KeptTwice(sb, fs, mid, State(), inum);
      return true;
    }

    /** The bytes `done` of a write at off have been written to the file system fs; a block can only have been added
        behind the old end of the file. */
    ghost predicate Writing(fs: Fs, inum: int, off: int, done: seq<Byte>)
      reads this
    {
      && Valid() && Kept(sb, fs, State(), inum) && Overlaid(sb, fs, State(), inum, off, done)
      && 0 <= off <= fs.inodes[inum].size && off + |done| <= MAXFILE * BSIZE
      && OnlyBelow(sb, fs, State(), inum, off + |done|)
      && Filled(sb, State(), inum, fs.inodes[inum].size) && Filled(sb, State(), inum, off + |done|)
      && (inodes == fs.inodes || off + |done| > fs.inodes[inum].size)
    }

    method WriteNext(ghost fs: Fs, inum: int, ghost off: int, ghost done: seq<Byte>, at: int, data: seq<Byte>) returns (ok: bool)
      requires Writing(fs, inum, off, done) && at == off + |done| < MAXFILE * BSIZE
      requires data != [] && at % BSIZE + |data| <= BSIZE && at + |data| <= MAXFILE * BSIZE
      modifies `blocks, `inodes, `owner
      ensures !ok ==> Valid() && forall c :: 0 <= c < sb.size ==> Used(sb, blocks, c)
      ensures ok ==> Writing(fs, inum, off, done + data)
    {
      ghost var was, size := State(), fs.inodes[inum].size;
      assert at / BSIZE * BSIZE < size ==> Ref(sb, was, Slot(inum, DataSlot(at / BSIZE))) != 0;
      hide Good, Used, Peek, Ref;
      ok := WriteChunk(inum, at, data);
      if !ok {
        return;
      }
      KeptTwice(sb, fs, was, State(), inum);
      WayIsBelow(sb, was, State(), inum, at / BSIZE, at + |data|);
      OnlyBelowMore(sb, fs, was, State(), inum, at, at + |data|);
      OverlaidMore(sb, fs, was, State(), inum, off, done, data);
      FilledMore(sb, was, State(), inum, if at > size then at else size, at, |data|);
      FilledMore(sb, was, State(), inum, at, at, |data|);
    }

    /** The end of a write that made the file longer: the new size, in memory and on disk. */
    method SetSize(ghost fs: Fs, inum: int, ghost off: int, ghost src: seq<Byte>, at: int)
      requires Writing(fs, inum, off, src) && Shaped(sb, fs) && DiskSynced(sb, fs)
      requires at == off + |src| > fs.inodes[inum].size
      modifies `blocks, `inodes
      ensures Valid() && Synced() && Overlaid(sb, fs, State(), inum, off, src)
      ensures inodes[inum].size == off + |src| && OnlyBelow(sb, fs, State(), inum, off + |src|)
      ensures forall i :: 0 <= i < sb.ninodes && i != inum ==> inodes[i] == fs.inodes[i]
    {
      ghost var was := State();
      hide Good, Used, Peek, Ref;
      AddrsAreWords(sb, was, owner, inum);
      inodes := inodes[inum := Dinode(at, inodes[inum].addrs)];
      Iupdate(inum);
      forall i | 0 <= i < sb.ninodes
        ensures DiskInode(sb, was.blocks, i) == DiskInode(sb, fs.blocks, i)
      {
        SameDiskInode(sb, fs.blocks, was.blocks, i);
      }
      ResizedGood(sb, was, owner, State(), inum);
      OnlyBelowMore(sb, fs, was, State(), inum, at, at);
      OverlaidSame(sb, was, State(), inum, at);
      OverlaidMore(sb, fs, was, State(), inum, off, src, []);
      assert src + [] == src;
      SyncedAgain(sb, fs, State(), inum);
    }

    /** Write bytes at off, not beyond the end; -1 when that is not possible. !ok is the panic for want of a block.
        The inode goes to disk only when the file has grown, and that is enough. */
    method Writei(inum: int, src: seq<Byte>, off: int, n: int) returns (r: int, ok: bool)
      requires Valid() && Synced() && 0 <= inum < sb.ninodes && 0 <= off < UINT && 0 <= n == |src| < UINT
      modifies `blocks, `inodes, `owner
      ensures Valid()
      ensures ok ==> Synced() && (r == -1 <==> off > old(inodes)[inum].size || off + n >= UINT || off + n > MAXFILE * BSIZE)
      ensures ok && r == -1 ==> blocks == old(blocks) && inodes == old(inodes)
      ensures forall j :: 0 <= j < sb.ninodes ==> inodes[j].size <= MAXFILE * BSIZE && old(inodes)[j].size <= MAXFILE * BSIZE
      ensures ok && r != -1 ==>
                && r == n
                && (forall j :: 0 <= j < sb.ninodes && j != inum ==> inodes[j] == old(inodes)[j])
                && (forall j {:trigger Contents(sb, State(), j)} :: 0 <= j < sb.ninodes ==>
                      Contents(sb, State(), j) == if j == inum then Overlay(Contents(sb, old(State()), j), off, src)
                                                  else Contents(sb, old(State()), j))
      ensures ok ==> forall j :: 0 <= j < sb.ninodes && Lean(sb, old(State()), j) ==> Lean(sb, State(), j)
      ensures !ok ==> forall c :: 0 <= c < sb.size ==> Used(sb, blocks, c)
    {
      Shape();
      ghost var fs := State();
      if off > inodes[inum].size || (off + n) % UINT < off {
        return -1, true;
      }
      if off + n > MAXFILE * BSIZE {
        return -1, true;
      }
      assert Filled(sb, fs, inum, inodes[inum].size);
      OverlaidSame(sb, fs, fs, inum, off);
      hide Good, Used, Peek, Ref;
      assert Writing(fs, inum, off, []);
      var tot, at := 0, off;
      while tot < n
        invariant 0 <= tot <= n && at == off + tot && Writing(fs, inum, off, src[..tot])
      {
        var m := Min(n - tot, BSIZE - at % BSIZE);
        ok := WriteNext(fs, inum, off, src[..tot], at, src[tot..tot + m]);
        if !ok {
          Shape();
          return -1, false;
        }
        assert src[..tot] + src[tot..tot + m] == src[..tot + m];
        tot, at := tot + m, at + m;
      }
      assert src[..tot] == src;
      if n > 0 && at > inodes[inum].size {
        SetSize(fs, inum, off, src, at);
      } else {
        KeptSynced(sb, fs, State(), inum);
      }
      AllContents(sb, fs, State(), inum, off, src);
      forall j | 0 <= j < sb.ninodes && Lean(sb, fs, j)
        ensures Lean(sb, State(), j)
      {
        StaysLean(sb, fs, State(), inum, at, j);
      }
      return n, true;
    }

    // ---------- truncating ----------

    /** if(b) bfree(dev, b): the block noted at place k of the inode, in a file system that began as fs. */
    method FreeNoted(ghost fs: Fs, inum: int, ghost done: set<int>, ghost k: int, b: int) returns (ok: bool)
      requires Good(sb, fs, owner) && 0 <= inum < sb.ninodes && Freeing(sb, fs, inum, done, blocks)
      requires 0 <= k <= MAXFILE && k !in done && b == Ref(sb, fs, Slot(inum, k))
      modifies `blocks
      ensures ok && Freeing(sb, fs, inum, done + {k}, blocks)
    {
      FreeingOne(sb, fs, owner, inum, done, blocks, k);
      hide Good, Ref, Used, NotesOf;
      ok := true;
      if b != 0 {
        ok := Bfree(b);
      }
    }

    /** The part of itrunc about the indirect block. */
    method FreeTable(ghost fs: Fs, inum: int) returns (ok: bool)
      requires Shaped(sb, fs) && Good(sb, fs, owner) && 0 <= inum < sb.ninodes
      requires Freeing(sb, fs, inum, Range(0, NDIRECT), blocks) && inum < |inodes|
      requires |inodes[inum].addrs| == TABLE + 1 && inodes[inum].addrs[TABLE] == fs.inodes[inum].addrs[TABLE]
      modifies `blocks, `inodes
      ensures ok && FreedTo(sb, fs, blocks, BlocksOf(owner, inum))
      ensures inodes == old(inodes)[inum := Dinode(old(inodes)[inum].size, old(inodes)[inum].addrs[TABLE := 0])]
    {
      ghost var done := Range(0, NDIRECT);
      assert FreedTo(sb, fs, blocks, NotesOf(sb, fs, inum, done));
      hide Good, Ref, Used, NotesOf, GetWord, Freeing, FreedTo, Range;
      ok := true;
      if inodes[inum].addrs[TABLE] != 0 {
        TableUntouched(sb, fs, owner, inum, NotesOf(sb, fs, inum, done), blocks);
        ok := FreeEntries(fs, inum, blocks[inodes[inum].addrs[TABLE]]);
        DirectRef(sb, fs, inum, TABLE);
        done := done + Range(TABLE + 1, MAXFILE + 1);
        ok := FreeNoted(fs, inum, done, TABLE, inodes[inum].addrs[TABLE]);
        inodes := inodes[inum := Dinode(inodes[inum].size, inodes[inum].addrs[TABLE := 0])];
        done := done + {TABLE};
      } else {
        NoEntries(sb, fs, inum, done, Range(0, MAXFILE + 1), blocks);
        done := Range(0, MAXFILE + 1);
        assert inodes[inum] == Dinode(inodes[inum].size, inodes[inum].addrs[TABLE := 0]);
      }
      FreeingAll(sb, fs, owner, inum, done, blocks);
    }

    method FreeEntries(ghost fs: Fs, inum: int, bp: Bytes) returns (ok: bool)
      requires Shaped(sb, fs) && Good(sb, fs, owner) && 0 <= inum < sb.ninodes
      requires Freeing(sb, fs, inum, Range(0, NDIRECT), blocks)
      requires forall j :: 0 <= j < NINDIRECT ==> GetWord(bp, j) == Ref(sb, fs, Slot(inum, TABLE + 1 + j))
      modifies `blocks
      ensures ok && Freeing(sb, fs, inum, Range(0, NDIRECT) + Range(TABLE + 1, MAXFILE + 1), blocks)
    {
      hide Good, Ref, Used, GetWord, Freeing;
      assert Range(0, NDIRECT) + Range(TABLE + 1, TABLE + 1) == Range(0, NDIRECT);
      hide Range;
      ok := true;
      var j := 0;
      while j < NINDIRECT
        invariant 0 <= j <= NINDIRECT && ok
        invariant Freeing(sb, fs, inum, Range(0, NDIRECT) + Range(TABLE + 1, TABLE + 1 + j), blocks)
      {
        ok := FreeNoted(fs, inum, Range(0, NDIRECT) + Range(TABLE + 1, TABLE + 1 + j), TABLE + 1 + j, GetWord(bp, j));
        EntryFreed(j);
        j := j + 1;
      }
    }

    /** The part of itrunc about the direct blocks. */
    method FreeDirect(inum: int) returns (ok: bool)
      requires Valid() && Shaped(sb, State()) && 0 <= inum < sb.ninodes
      modifies `blocks, `inodes
      ensures ok && Freeing(sb, old(State()), inum, Range(0, NDIRECT), blocks) && |inodes| == sb.ninodes
      ensures inodes == old(inodes)[inum := Dinode(old(inodes)[inum].size, inodes[inum].addrs)]
      ensures inodes[inum].addrs == NO_ADDRS[TABLE := old(inodes)[inum].addrs[TABLE]]
    {
      ghost var fs := State();
      assert Freeing(sb, fs, inum, Range(0, 0), blocks);
      hide Good, Ref, Used, Freeing;
      ok := true;
      var i := 0;
      while i < NDIRECT
        invariant 0 <= i <= NDIRECT && ok && Freeing(sb, fs, inum, Range(0, i), blocks)
        invariant |inodes| == sb.ninodes && |inodes[inum].addrs| == TABLE + 1
        invariant inodes == fs.inodes[inum := Dinode(fs.inodes[inum].size, inodes[inum].addrs)]
        invariant forall k :: 0 <= k <= TABLE ==> inodes[inum].addrs[k] == if k < i then 0 else fs.inodes[inum].addrs[k]
      {
        DirectRef(sb, fs, inum, i);
        ok := FreeNoted(fs, inum, Range(0, i), i, inodes[inum].addrs[i]);
        if inodes[inum].addrs[i] != 0 {
          inodes := inodes[inum := Dinode(inodes[inum].size, inodes[inum].addrs[i := 0])];
        }
        i := i + 1;
      }
    }

    /** Discard the contents of an inode. The panic "freeing free block" (!ok) cannot be reached. */
    method Itrunc(inum: int) returns (ok: bool)
      requires Valid() && Synced() && 0 <= inum < sb.ninodes
      modifies `blocks, `inodes, `owner
      ensures ok && Valid() && Synced()
      ensures inodes == old(inodes)[inum := Dinode(0, NO_ADDRS)] && owner == old(owner) - BlocksOf(old(owner), inum)
      ensures forall c {:trigger Used(sb, blocks, c)} :: 0 <= c < sb.size ==>
                (Used(sb, blocks, c) <==> Used(sb, old(blocks), c) && c !in BlocksOf(old(owner), inum))
      ensures forall j :: 0 <= j < sb.ninodes ==> inodes[j].size <= MAXFILE * BSIZE && old(inodes)[j].size <= MAXFILE * BSIZE
      ensures forall j {:trigger Contents(sb, State(), j)} :: 0 <= j < sb.ninodes ==>
                Contents(sb, State(), j) == if j == inum then [] else Contents(sb, old(State()), j)
      ensures forall j :: 0 <= j < sb.ninodes && (j == inum || Lean(sb, old(State()), j)) ==> Lean(sb, State(), j)
    {
      ghost var fs := State();
      Shape();
      hide Good, Ref, Used, Freeing, BlocksOf, DiskSynced, Contents, FreedTo, Lean;
      ok := FreeDirect(inum);
      ok := FreeTable(fs, inum);
      inodes := inodes[inum := Dinode(0, inodes[inum].addrs)];
      assert inodes[inum].addrs == NO_ADDRS;
      ghost var mid := State();
      assert mid == Emptied(fs, inum, blocks);
      EmptiedGood(sb, fs, owner, inum, blocks);
      owner := owner - BlocksOf(owner, inum);
      assert Shaped(sb, mid);
      AddrsAreWords(sb, mid, owner, inum);
      Iupdate(inum);
      TruncatedGood(sb, fs, old(owner), inum, mid, State());
    }
  }
}
