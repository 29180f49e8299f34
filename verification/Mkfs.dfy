/** The last things that mkfs does: it rounds the size of the root directory up to whole blocks, and writes the free map.
    Whether the image it leaves is well formed depends on the size that the directory had.
 */
module Mkfs {
  import opened FsBlocks
  import opened FsShape
  import opened FsAlloc
  import opened FsWrite
  import opened FileSystem

  function Rounded(off: int): int { (off / BSIZE + 1) * BSIZE }

  /** The disk with a new size in one inode: rinode, then winode with another size. */
  function WithSize(sb: Super, blocks: Blocks, inum: int, size: Word): (changed: Blocks)
    requires sb.Ok() && |blocks| == sb.size && 0 <= inum < sb.ninodes
    ensures |changed| == sb.size
  {
    blocks[sb.IBlock(inum) := PutWord(blocks[sb.IBlock(inum)], SizeWord(inum), size)]
  }

  /** Only the size of that inode changes. */
  lemma {:induction false} SizeWritten(sb: Super, blocks: Blocks, inum: int, size: Word)
    requires sb.Ok() && |blocks| == sb.size && 0 <= inum < sb.ninodes
    ensures var fs, fs' := Mounted(sb, blocks), Mounted(sb, WithSize(sb, blocks, inum, size));
            && Shaped(sb, fs) && Shaped(sb, fs') && SameFromMap(sb, fs, fs')
            && fs'.inodes == fs.inodes[inum := Dinode(size, fs.inodes[inum].addrs)]
  {
    var fs, changed := Mounted(sb, blocks), WithSize(sb, blocks, inum, size);
    forall i | 0 <= i < sb.ninodes
      ensures DiskInode(sb, changed, i) == if i == inum then Dinode(size, fs.inodes[inum].addrs) else fs.inodes[i]
    {
      if sb.IBlock(i) == sb.IBlock(inum) {
        InodeWords(sb, blocks, inum, size, i);
      }
    }
  }

  lemma {:induction false} InodeWords(sb: Super, blocks: Blocks, inum: int, size: Word, i: int)
    requires sb.Ok() && |blocks| == sb.size && 0 <= inum < sb.ninodes && 0 <= i < sb.ninodes
    requires sb.IBlock(i) == sb.IBlock(inum)
    ensures var was, now := DiskInode(sb, blocks, i), DiskInode(sb, WithSize(sb, blocks, inum, size), i);
            now == if i == inum then Dinode(size, was.addrs) else was
  {
    var s := blocks[sb.IBlock(inum)];
    PutWordWords(s, SizeWord(inum), size, SizeWord(i));
    forall k | 0 <= k < NDIRECT + 1
      ensures GetWord(PutWord(s, SizeWord(inum), size), AddrWord(i, k)) == GetWord(s, AddrWord(i, k))
    {
      PutWordWords(s, SizeWord(inum), size, AddrWord(i, k));
    }
  }

  /** Rounding the size up leaves a well-formed image, with every block below the size there, if and only if the size
      was not a whole number of blocks already: then one block more is claimed than there is. */
  lemma {:induction false} ResizedRootIff(sb: Super, blocks: Blocks, owner: Owner, inum: int)
    requires sb.Ok() && |blocks| == sb.size && 0 <= inum < sb.ninodes
    requires Good(sb, Mounted(sb, blocks), owner) && NothingBehind(sb, Mounted(sb, blocks), inum)
    ensures var off := DiskInode(sb, blocks, inum).size;
            && Rounded(off) < UINT
            && (Good(sb, Mounted(sb, WithSize(sb, blocks, inum, Rounded(off))), owner) <==> off % BSIZE != 0)
  {
    var fs := Mounted(sb, blocks);
    var off := fs.inodes[inum].size;
    assert Filled(sb, fs, inum, off);
    SizeWritten(sb, blocks, inum, Rounded(off));
    var fs' := Mounted(sb, WithSize(sb, blocks, inum, Rounded(off)));
    if off % BSIZE != 0 {
      FilledToRounded(sb, fs, inum, off);
      hide WithSize, Mounted, DiskInode, Filled, NothingBehind;
      ResizedGood(sb, fs, owner, fs', inum);
    } else if Good(sb, fs', owner) {
      assert Filled(sb, fs', inum, fs'.inodes[inum].size);
      BlockMissing(sb, blocks, owner, inum);
    }
  }

  lemma {:induction false} FilledToRounded(sb: Super, fs: Fs, inum: int, off: int)
    requires Shaped(sb, fs) && 0 <= inum < sb.ninodes && Filled(sb, fs, inum, off) && 0 <= off && off % BSIZE != 0
    ensures Filled(sb, fs, inum, Rounded(off))
  {
    forall bn {:trigger DataSlot(bn)} | 0 <= bn && bn * BSIZE < Rounded(off)
      ensures Ref(sb, fs, Slot(inum, DataSlot(bn))) != 0
    {
      BelowRounded(bn, off);
    }
    BelowRounded(MAXFILE - 1, off);
  }

  lemma {:induction false} BelowRounded(bn: int, off: int)
    requires 0 <= off && off % BSIZE != 0
    ensures bn * BSIZE < Rounded(off) <==> bn * BSIZE < off
    ensures off <= (bn + 1) * BSIZE ==> Rounded(off) <= (bn + 1) * BSIZE
  {
    var k := off / BSIZE;
    assert k * BSIZE < off < (k + 1) * BSIZE;
    if bn <= k {
      assert bn * BSIZE <= k * BSIZE;
    } else {
      assert (k + 1) * BSIZE <= bn * BSIZE;
    }
    if bn < k {
      assert (bn + 1) * BSIZE <= k * BSIZE;
    } else {
      assert (k + 1) * BSIZE <= (bn + 1) * BSIZE;
    }
  }

  /** At a whole number of blocks, the block at the old end is below the new size, and missing. */
  lemma {:induction false} BlockMissing(sb: Super, blocks: Blocks, owner: Owner, inum: int)
    requires sb.Ok() && |blocks| == sb.size && 0 <= inum < sb.ninodes
    requires Good(sb, Mounted(sb, blocks), owner) && NothingBehind(sb, Mounted(sb, blocks), inum)
    requires DiskInode(sb, blocks, inum).size % BSIZE == 0
    ensures var off := DiskInode(sb, blocks, inum).size;
            && Rounded(off) == off + BSIZE < UINT
            && var fs' := Mounted(sb, WithSize(sb, blocks, inum, Rounded(off)));
               Shaped(sb, fs') && (off / BSIZE < MAXFILE ==> Ref(sb, fs', Slot(inum, DataSlot(off / BSIZE))) == 0)
  {
    var fs := Mounted(sb, blocks);
    var off := fs.inodes[inum].size;
    assert Filled(sb, fs, inum, off);
    SizeWritten(sb, blocks, inum, Rounded(off));
    var fs' := Mounted(sb, WithSize(sb, blocks, inum, Rounded(off)));
    if off / BSIZE < MAXFILE {
      SameFromMapRef(sb, fs, owner, fs', Slot(inum, DataSlot(off / BSIZE)));
    }
  }

  // ---------- the free map, written last ----------

  /** The first `used` bits are set. */
  function Bitmap(used: nat): Bytes
    requires used <= BPB
  {
    if used == 0 then Zeros()
    else
      var s := Bitmap(used - 1);
      PutBitBelow(s[(used - 1) / 8], (used - 1) % 8, true, 8, 256);
      s[(used - 1) / 8 := PutBit(s[(used - 1) / 8], (used - 1) % 8, true)]
  }

  lemma {:induction false} BitmapBits(used: nat, b: nat)
    requires used <= BPB && b < BPB
    ensures Bit(Bitmap(used)[b / 8], b % 8) <==> b < used
  {
    if used == 0 {
      ZeroBits(b % 8);
    } else {
      BitmapBits(used - 1, b);
      var s := Bitmap(used - 1);
      PutBitBits(s[(used - 1) / 8], (used - 1) % 8, true, b % 8);
    }
  }

  lemma {:induction false} ZeroBits(k: nat)
    ensures !Bit(0, k)
  {
    if k > 0 {
      ZeroBits(k - 1);
    }
  }

  /** The loop that sets the bits. */
  method MakeBitmap(used: nat) returns (buf: Bytes)
    requires used < BPB
    ensures buf == Bitmap(used)
  {
    buf := Zeros();
    for i := 0 to used
      invariant buf == Bitmap(i)
    {
      PutBitBelow(buf[i / 8], i % 8, true, 8, 256);
      buf := buf[i / 8 := PutBit(buf[i / 8], i % 8, true)];
    }
  }

  function WithBitmap(sb: Super, blocks: Blocks, used: nat): (changed: Blocks)
    requires sb.Ok() && |blocks| == sb.size && used <= BPB
    ensures |changed| == sb.size
  {
    blocks[sb.bmapstart := Bitmap(used)]
  }

  /** The kernel reads in it what mkfs means: exactly the first blocks are in use. */
  lemma {:induction false} BitmapUsed(sb: Super, blocks: Blocks, used: nat, b: int)
    requires sb.Ok() && |blocks| == sb.size && used <= BPB && 0 <= b < sb.size && b < BPB
    ensures Used(sb, WithBitmap(sb, blocks, used), b) <==> b < used
  {
    BitmapBits(used, b);
  }

  /** The last two steps of mkfs, on the blocks as appending has left them. It makes no difference that the free map comes
      after the resize: the image is well formed if and only if it would have been without the resize, given the size was
      not a whole number of blocks already. */
  lemma {:induction false} ImageGoodIff(sb: Super, blocks: Blocks, used: nat, owner: Owner, inum: int)
    requires sb.Ok() && |blocks| == sb.size && 0 <= inum < sb.ninodes && used <= BPB
    requires Good(sb, Mounted(sb, WithBitmap(sb, blocks, used)), owner)
    requires NothingBehind(sb, Mounted(sb, WithBitmap(sb, blocks, used)), inum)
    ensures var off := DiskInode(sb, blocks, inum).size;
            && Rounded(off) < UINT
            && (Good(sb, Mounted(sb, WithBitmap(sb, WithSize(sb, blocks, inum, Rounded(off)), used)), owner) <==> off % BSIZE != 0)
  {
    ResizedRootIff(sb, WithBitmap(sb, blocks, used), owner, inum);
    var off := DiskInode(sb, blocks, inum).size;
    var b := blocks[sb.IBlock(inum)];
    assert WithBitmap(sb, blocks, used)[sb.IBlock(inum)] == b;
    assert DiskInode(sb, WithBitmap(sb, blocks, used), inum) == DiskInode(sb, blocks, inum);
    Commutes(sb, blocks, used, inum, Rounded(off));
  }

  lemma {:induction false} Commutes(sb: Super, blocks: Blocks, used: nat, inum: int, size: FsBlocks.Word)
    requires sb.Ok() && |blocks| == sb.size && 0 <= inum < sb.ninodes && used <= BPB
    ensures WithBitmap(sb, WithSize(sb, blocks, inum, size), used) == WithSize(sb, WithBitmap(sb, blocks, used), inum, size)
  {
    assert sb.IBlock(inum) < sb.bmapstart;
  }

  // ---------- reading a root that was resized too far ----------

  /** The resized image is still sound, and every file but the root has all its blocks. */
  lemma {:induction false} ResizedSound(sb: Super, blocks: Blocks, owner: Owner, inum: int, size: FsBlocks.Word)
    requires sb.Ok() && |blocks| == sb.size && 0 <= inum < sb.ninodes && Good(sb, Mounted(sb, blocks), owner)
    ensures var fs, fs' := Mounted(sb, blocks), Mounted(sb, WithSize(sb, blocks, inum, size));
            && Shaped(sb, fs) && Sound(sb, fs', owner) && FilledBut(sb, fs', inum) && fs'.inodes[inum].size == size
            && Filled(sb, fs', inum, fs.inodes[inum].size)
  {
    var fs, fs' := Mounted(sb, blocks), Mounted(sb, WithSize(sb, blocks, inum, size));
    SizeWritten(sb, blocks, inum, size);
    hide Mounted, WithSize;
    SameFromMapNotes(sb, fs, owner, fs');
    SameNotesSound(sb, fs, owner, fs');
    forall i {:trigger Filled(sb, fs', i, fs'.inodes[i].size)} | 0 <= i < sb.ninodes && i != inum
      ensures Filled(sb, fs', i, fs'.inodes[i].size)
    {
      assert Filled(sb, fs, i, fs.inodes[i].size);
      StillFilled(sb, fs, fs', i, fs.inodes[i].size);
    }
    assert Filled(sb, fs, inum, fs.inodes[inum].size);
    StillFilled(sb, fs, fs', inum, fs.inodes[inum].size);
  }

  lemma {:induction false} StillFilled(sb: Super, fs: Fs, fs': Fs, i: int, upto: int)
    requires SameNotes(sb, fs, fs') && 0 <= i < sb.ninodes && Filled(sb, fs, i, upto)
    ensures Filled(sb, fs', i, upto)
  {
  }

  ghost predicate FilledBut(sb: Super, fs: Fs, inum: int)
    requires Shaped(sb, fs)
  {
    forall i {:trigger Filled(sb, fs, i, fs.inodes[i].size)} :: 0 <= i < sb.ninodes && i != inum ==> Filled(sb, fs, i, fs.inodes[i].size)
  }

  /** What happens when the kernel mounts an image whose root had a whole number of blocks, 32 entries say, and reads the
      root to its end: bmap does not find the last block and allocates it. Reading thereby changes the disk, outside of any
      transaction. From then on the file system is well formed. */
  method ReadMissingBlock(f: Files, inum: int, ghost image: Blocks) returns (r: Option<int>)
    requires f.sb.Ok() && |image| == f.sb.size && 0 <= inum < f.sb.ninodes
    requires Good(f.sb, Mounted(f.sb, image), f.owner) && NothingBehind(f.sb, Mounted(f.sb, image), inum)
    requires var off := DiskInode(f.sb, image, inum).size;
             && off % BSIZE == 0 && off / BSIZE < MAXFILE
             && f.State() == Mounted(f.sb, WithSize(f.sb, image, inum, Rounded(off)))
    modifies f`blocks, f`inodes, f`owner
    ensures f.Tracked() && !old(f.Valid())
    ensures r.None? ==> forall c :: 0 <= c < f.sb.size ==> Used(f.sb, f.blocks, c)
    ensures r.Some? ==> f.Valid() && 0 <= r.value < f.sb.size && !Used(f.sb, old(f.blocks), r.value) && Used(f.sb, f.blocks, r.value)
    ensures r.Some? ==> f.blocks != old(f.blocks)
  {
    ghost var off := DiskInode(f.sb, image, inum).size;
    ghost var fs, owns := f.State(), f.owner;
    BlockMissing(f.sb, image, f.owner, inum);
    ResizedRootIff(f.sb, image, f.owner, inum);
    ResizedSound(f.sb, image, f.owner, inum, Rounded(off));
    var bn := f.inodes[inum].size / BSIZE - 1;
    assert bn == off / BSIZE;
    hide Mounted, WithSize, DiskInode, NothingBehind, Good, Sound;
    r := f.Bmap(inum, bn);
    if r.Some? {
      NowFilled(f.sb, fs, owns, f.State(), f.owner, inum, bn);
    }
  }

  lemma {:induction false} NowFilled(sb: Super, fs: Fs, owner: Owner, fs': Fs, owner': Owner, inum: int, bn: int)
    requires Sound(sb, fs, owner) && Sound(sb, fs', owner') && Kept(sb, fs, fs', inum) && FilledBut(sb, fs, inum)
    requires 0 <= bn < MAXFILE && fs.inodes[inum].size == (bn + 1) * BSIZE && Filled(sb, fs, inum, bn * BSIZE)
    requires Ref(sb, fs, Slot(inum, DataSlot(bn))) == 0 != Ref(sb, fs', Slot(inum, DataSlot(bn)))
    ensures Good(sb, fs', owner')
    ensures var r := Ref(sb, fs', Slot(inum, DataSlot(bn)));
            0 <= r < sb.size && !Used(sb, fs.blocks, r) && Used(sb, fs'.blocks, r)
  {
    var x := Slot(inum, DataSlot(bn));
    var r := Ref(sb, fs', x);
    RefUsed(sb, fs', owner', x);
    if Used(sb, fs.blocks, r) {
      assert MapOk(sb, fs, owner, r) && OwnedOk(sb, fs, owner, r);
      assert Ref(sb, fs', owner[r]) == r;
      RefsDistinct(sb, fs', owner', owner[r], x);
    }
    forall i {:trigger Filled(sb, fs', i, fs'.inodes[i].size)} | 0 <= i < sb.ninodes
      ensures Filled(sb, fs', i, fs'.inodes[i].size)
    {
      if i != inum {
        assert Filled(sb, fs, i, fs.inodes[i].size);
      } else {
        forall k {:trigger DataSlot(k)} | 0 <= k && k * BSIZE < (bn + 1) * BSIZE
          ensures Ref(sb, fs', Slot(inum, DataSlot(k))) != 0
        {
          assert k < bn ==> k * BSIZE < bn * BSIZE;
        }
      }
    }
  }
}
