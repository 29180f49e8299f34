/** Directories: files of 16-byte entries that stand for a map from names to inode numbers. */
module Directory {
  import opened FsBlocks
  import opened FsShape
  import opened FsWrite
  import opened FileSystem

  const DIRSIZ := 14
  const DIRENT := 16

  type Name = seq<Byte>

  // ---------- names ----------

  /** As much of a string as strncmp and strncpy look at: up to a zero byte, and no more than `room`. */
  function Upto(s: Name, room: nat): Name {
    if room == 0 || s == [] || s[0] == 0 then [] else [s[0]] + Upto(s[1..], room - 1)
  }

  /** namecmp(s, t) == 0 */
  predicate SameName(s: Name, t: Name) { Upto(s, DIRSIZ) == Upto(t, DIRSIZ) }

  /** What strncpy(d, s, room) leaves in d. */
  function Padded(s: Name, room: nat): (d: Name)
    ensures |d| == room
    decreases room
  {
    if room == 0 then []
    else if s == [] || s[0] == 0 then [0] + Padded([], room - 1)
    else [s[0]] + Padded(s[1..], room - 1)
  }

  /** A copied name compares equal to the original. */
  lemma {:induction false} PaddedUpto(s: Name, room: nat)
    ensures Upto(Padded(s, room), room) == Upto(s, room)
  {
    if room > 0 && s != [] && s[0] != 0 {
      PaddedUpto(s[1..], room - 1);
      assert Padded(s, room)[1..] == Padded(s[1..], room - 1);
    }
  }

  /** Byte k of a string, which ends at a zero byte or at its length. */
  function CharAt(s: Name, k: nat): Byte { if k < |s| then s[k] else 0 }

  /** What Upto keeps: no byte of it is zero, and if it is shorter than the room the string ends there. */
  lemma {:induction false} UptoEnds(s: Name, room: nat)
    ensures var u := Upto(s, room);
            && |u| <= |s| && |u| <= room && (forall k :: 0 <= k < |u| ==> u[k] == s[k] && s[k] != 0)
            && (|u| < room ==> CharAt(s, |u|) == 0)
  {
    if room > 0 && s != [] && s[0] != 0 {
      UptoEnds(s[1..], room - 1);
    }
  }

  /** One position before k is the end of both strings. */
  ghost predicate BothEnd(s: Name, t: Name, k: nat) {
    exists j :: 0 <= j < k && CharAt(s, j) == 0 == CharAt(t, j)
  }

  /** Two names count as the same if and only if at each of the first 14 positions they have the same byte, or both end
      before it. */
  lemma {:induction false} SameNameIff(s: Name, t: Name)
    ensures SameName(s, t) <==> forall k: nat :: k < DIRSIZ ==> CharAt(s, k) == CharAt(t, k) || BothEnd(s, t, k)
  {
    UptoEnds(s, DIRSIZ);
    UptoEnds(t, DIRSIZ);
    var u, v := Upto(s, DIRSIZ), Upto(t, DIRSIZ);
    hide Upto;
    if SameName(s, t) {
      forall k: nat | k < DIRSIZ
        ensures CharAt(s, k) == CharAt(t, k) || BothEnd(s, t, k)
      {
        assert k < |u| ==> u[k] == v[k];
        assert |u| < k ==> CharAt(s, |u|) == 0 == CharAt(t, |u|);
      }
    }
    if forall k: nat :: k < DIRSIZ ==> CharAt(s, k) == CharAt(t, k) || BothEnd(s, t, k) {
      var n := if |u| < |v| then |u| else |v|;
      assert n < DIRSIZ ==> CharAt(s, n) == CharAt(t, n);
      forall k | 0 <= k < n
        ensures u[k] == v[k]
      {
        assert CharAt(s, k) == CharAt(t, k);
      }
    }
  }

  /** Names of at most 14 bytes, none of them zero, are the same only if they are equal. */
  lemma {:induction false} ShortNames(s: Name, t: Name)
    requires |s| <= DIRSIZ && |t| <= DIRSIZ && 0 !in s && 0 !in t
    ensures SameName(s, t) <==> s == t
  {
    UptoEnds(s, DIRSIZ);
    UptoEnds(t, DIRSIZ);
    hide Upto;
  }

  /** A copied name is followed by zeros only. */
  lemma {:induction false} PaddedBytes(s: Name, room: nat, k: nat)
    requires k < room
    ensures Padded(s, room)[k] == (if CharAt(s, k) == 0 || BothEnd(s, s, k) then 0 else s[k])
    decreases room
  {
    if s == [] || s[0] == 0 {
      assert CharAt(s, 0) == 0 == CharAt(s, 0);
      if k > 0 {
        PaddedBytes([], room - 1, k - 1);
      }
    } else if k > 0 {
      PaddedBytes(s[1..], room - 1, k - 1);
      assert forall j :: 0 <= j < k - 1 ==> CharAt(s[1..], j) == CharAt(s, j + 1);
      assert forall j :: 0 < j < k ==> CharAt(s[1..], j - 1) == CharAt(s, j);
    }
  }

  // ---------- entries ----------

  datatype Dirent = Dirent(inum: int, name: Name)

  function Decode(e: seq<Byte>): Dirent
    requires |e| == DIRENT
  {
    Dirent(e[0] as int + 0x100 * (e[1] as int), e[2..])
  }

  function Encode(de: Dirent): (e: seq<Byte>)
    requires 0 <= de.inum < 0x1_0000 && |de.name| == DIRSIZ
    ensures |e| == DIRENT && Decode(e) == de
  {
    [de.inum % 0x100, de.inum / 0x100] + de.name
  }

  function Entries(c: seq<Byte>): int { |c| / DIRENT }

  function EntryAt(c: seq<Byte>, k: int): Dirent
    requires 0 <= k < Entries(c)
  {
    Decode(c[k * DIRENT..k * DIRENT + DIRENT])
  }

  predicate Matches(c: seq<Byte>, k: int, name: Name)
    requires 0 <= k < Entries(c)
  {
    EntryAt(c, k).inum != 0 && SameName(name, EntryAt(c, k).name)
  }

  /** The first entry from k on that carries the name, or the number of entries. */
  function First(c: seq<Byte>, name: Name, k: int): (i: int)
    requires 0 <= k <= Entries(c)
    ensures k <= i <= Entries(c) && (i < Entries(c) ==> Matches(c, i, name))
    ensures forall j :: k <= j < i ==> !Matches(c, j, name)
    decreases Entries(c) - k
  {
    if k == Entries(c) || Matches(c, k, name) then k else First(c, name, k + 1)
  }

  /** The map a directory stands for: the inode number of a name, 0 for none. */
  function Lookup(c: seq<Byte>, name: Name): int {
    var i := First(c, name, 0);
    if i < Entries(c) then EntryAt(c, i).inum else 0
  }

  // ---------- adding an entry ----------

  lemma {:induction false} OverlayEntries(c: seq<Byte>, k: int, de: Dirent, j: int)
    requires |c| % DIRENT == 0 && 0 <= k <= Entries(c) && 0 <= de.inum < 0x1_0000 && |de.name| == DIRSIZ
    ensures var c' := Overlay(c, k * DIRENT, Encode(de));
            && Entries(c') == (if k < Entries(c) then Entries(c) else Entries(c) + 1) && |c'| % DIRENT == 0
            && (0 <= j < Entries(c') ==> EntryAt(c', j) == if j == k then de else EntryAt(c, j))
  {
    var e := Encode(de);
    var c' := Overlay(c, k * DIRENT, e);
    assert |c| == Entries(c) * DIRENT;
    if 0 <= j < Entries(c') {
      var s := c'[j * DIRENT..j * DIRENT + DIRENT];
      if j == k {
        assert s == e;
      } else {
        assert s == c[j * DIRENT..j * DIRENT + DIRENT];
      }
    }
  }

  /** c' is c with entry k, which was empty or behind the last, now de. */
  ghost predicate EntryPut(c: seq<Byte>, c': seq<Byte>, k: int, de: Dirent) {
    && 0 <= k <= Entries(c) && (k < Entries(c) ==> EntryAt(c, k).inum == 0)
    && Entries(c') == (if k < Entries(c) then Entries(c) else Entries(c) + 1)
    && forall j :: 0 <= j < Entries(c') ==> EntryAt(c', j) == if j == k then de else EntryAt(c, j)
  }

  /** The name has gone to the first empty entry, or behind the last when all are in use; no other entry has changed. */
  ghost predicate Linked(c: seq<Byte>, c': seq<Byte>, k: int, name: Name, inum: int) {
    && EntryPut(c, c', k, Dirent(inum % 0x1_0000, Padded(name, DIRSIZ)))
    && forall j :: 0 <= j < k ==> EntryAt(c, j).inum != 0
  }

  /** The name of the new entry is found there. */
  lemma {:induction false} PutFound(c: seq<Byte>, c': seq<Byte>, k: int, de: Dirent, m: Name)
    requires EntryPut(c, c', k, de) && SameName(m, de.name) && First(c, m, 0) == Entries(c)
    ensures Lookup(c', m) == de.inum
  {
    hide EntryAt, Entries, SameName;
    var i' := First(c', m, 0);
    assert i' < Entries(c') && i' != k ==> Matches(c, i', m);
    assert de.inum != 0 ==> Matches(c', k, m);
  }

  /** Any other name is found where it was. */
  lemma {:induction false} PutOther(c: seq<Byte>, c': seq<Byte>, k: int, de: Dirent, m: Name)
    requires EntryPut(c, c', k, de) && !SameName(m, de.name)
    ensures Lookup(c', m) == Lookup(c, m)
  {
    hide EntryAt, Entries, SameName;
    var i, i' := First(c, m, 0), First(c', m, 0);
    assert i < Entries(c) ==> Matches(c', i, m);
    assert i' < Entries(c') ==> Matches(c, i', m);
  }

  lemma {:induction false} LinkPut(c: seq<Byte>, k: int, de: Dirent)
    requires |c| % DIRENT == 0 && 0 <= k <= Entries(c) && (k < Entries(c) ==> EntryAt(c, k).inum == 0)
    requires 0 <= de.inum < 0x1_0000 && |de.name| == DIRSIZ
    ensures EntryPut(c, Overlay(c, k * DIRENT, Encode(de)), k, de)
  {
    var c' := Overlay(c, k * DIRENT, Encode(de));
    OverlayEntries(c, k, de, k);
    forall j | 0 <= j < Entries(c')
      ensures EntryAt(c', j) == if j == k then de else EntryAt(c, j)
    {
      OverlayEntries(c, k, de, j);
    }
  }

  /** Writing an entry over an empty one, or behind the last, adds its name to the map and changes no other. */
  lemma {:induction false} LinkAdds(c: seq<Byte>, k: int, de: Dirent, name: Name, m: Name)
    requires |c| % DIRENT == 0 && 0 <= k <= Entries(c) && (k < Entries(c) ==> EntryAt(c, k).inum == 0)
    requires 0 <= de.inum < 0x1_0000 && de.name == Padded(name, DIRSIZ) && First(c, name, 0) == Entries(c)
    ensures Lookup(Overlay(c, k * DIRENT, Encode(de)), m) == if SameName(m, name) then de.inum else Lookup(c, m)
  {
    var c' := Overlay(c, k * DIRENT, Encode(de));
    PaddedUpto(name, DIRSIZ);
    LinkPut(c, k, de);
    hide Overlay, EntryAt, Encode, Upto, Padded, Entries;
    if SameName(m, name) {
      forall j | 0 <= j < Entries(c)
        ensures !Matches(c, j, m)
      {
        assert !Matches(c, j, name);
      }
      PutFound(c, c', k, de, m);
    } else {
      PutOther(c, c', k, de, m);
    }
  }

  // ---------- dirlookup and dirlink ----------

  datatype Found = At(inum: int, off: int) | Absent | Panic

  /** What dirlookup finds in the contents of a directory; a directory that ends within an entry is a panic unless
      the name comes before. */
  function FoundIn(c: seq<Byte>, name: Name): Found {
    var i := First(c, name, 0);
    if i < Entries(c) then At(EntryAt(c, i).inum, i * DIRENT) else if |c| % DIRENT == 0 then Absent else Panic
  }

  lemma {:induction false} FirstFrom(c: seq<Byte>, name: Name, k: int)
    requires 0 <= k <= Entries(c) && forall j :: 0 <= j < k ==> !Matches(c, j, name)
    ensures First(c, name, 0) == First(c, name, k)
  {
    hide Matches;
    var i, i' := First(c, name, 0), First(c, name, k);
    assert !(i < i');
    assert !(i' < i);
  }

  /** Where the next entry lies in the contents, and that there is none behind the last whole one. */
  lemma {:induction false} EntryBytes(c: seq<Byte>, k: int)
    requires 0 <= k && k * DIRENT < |c|
    ensures k < Entries(c) <==> k * DIRENT + DIRENT <= |c|
    ensures k < Entries(c) ==> EntryAt(c, k) == Decode(c[k * DIRENT..k * DIRENT + DIRENT])
    ensures k >= Entries(c) ==> k == Entries(c) && |c| % DIRENT != 0
  {
  }

  /** The k-th entry as both loops read it; None is their panic at a read that comes up short. */
  method ReadEntry(fs: Files, dp: int, off: int, ghost k: int) returns (r: Option<Dirent>)
    requires fs.Valid() && 0 <= dp < fs.sb.ninodes && 0 <= k && off == k * DIRENT < fs.inodes[dp].size
    modifies fs`blocks, fs`inodes, fs`owner
    ensures fs.Valid() && fs.blocks == old(fs.blocks) && fs.inodes == old(fs.inodes)
    ensures fs.inodes[dp].size <= MAXFILE * BSIZE
    ensures var c := Contents(fs.sb, fs.State(), dp);
            && (r.Some? <==> k < Entries(c)) && (r.Some? ==> r.value == EntryAt(c, k))
            && (r.None? ==> k == Entries(c) && |c| % DIRENT != 0)
  {
    fs.Shape();
    EntryBytes(Contents(fs.sb, fs.State(), dp), k);
    hide Good, Span, Entries, EntryAt;
    var n, e := fs.Readi(dp, off, DIRENT);
    if n != DIRENT {
      return None;
    }
    return Some(Decode(e));
  }

  /** Look for a name in a directory. */
  method Dirlookup(fs: Files, dp: int, name: Name) returns (r: Found)
    requires fs.Valid() && 0 <= dp < fs.sb.ninodes
    modifies fs`blocks, fs`inodes, fs`owner
    ensures fs.Valid() && fs.blocks == old(fs.blocks) && fs.inodes == old(fs.inodes)
    ensures fs.inodes[dp].size <= MAXFILE * BSIZE && r == FoundIn(Contents(fs.sb, fs.State(), dp), name)
  {
    fs.Shape();
    ghost var c := Contents(fs.sb, fs.State(), dp);
    hide Good, Contents, EntryAt;
    var off := 0;
    ghost var k := 0;
    while off < fs.inodes[dp].size
      invariant 0 <= k <= Entries(c) && off == k * DIRENT
      invariant fs.Valid() && fs.blocks == old(fs.blocks) && fs.inodes == old(fs.inodes)
      invariant forall j :: 0 <= j < k ==> !Matches(c, j, name)
    {
      var de := ReadEntry(fs, dp, off, k);
      FirstFrom(c, name, k);
      if de.None? {
        return Panic;
      }
      if de.value.inum != 0 && SameName(name, de.value.name) {
        return At(de.value.inum, off);
      }
      off, k := off + DIRENT, k + 1;
    }
    FirstFrom(c, name, k);
    return Absent;
  }

  /** The loop of dirlink: the first empty entry, or the end. */
  method EmptyEntry(fs: Files, dp: int) returns (off: int, ghost k: int, ok: bool)
    requires fs.Valid() && 0 <= dp < fs.sb.ninodes
    modifies fs`blocks, fs`inodes, fs`owner
    ensures fs.Valid() && fs.blocks == old(fs.blocks) && fs.inodes == old(fs.inodes) && fs.inodes[dp].size <= MAXFILE * BSIZE
    ensures var c := Contents(fs.sb, fs.State(), dp);
            && (!ok ==> |c| % DIRENT != 0)
            && (ok ==> off == k * DIRENT && 0 <= k <= Entries(c)
                       && (if k < Entries(c) then EntryAt(c, k).inum == 0 else |c| % DIRENT == 0)
                       && forall j :: 0 <= j < k ==> EntryAt(c, j).inum != 0)
  {
    fs.Shape();
    ghost var c := Contents(fs.sb, fs.State(), dp);
    hide Good, Contents, EntryAt;
    off, k, ok := 0, 0, true;
    while off < fs.inodes[dp].size
      invariant 0 <= k <= Entries(c) && off == k * DIRENT
      invariant fs.Valid() && fs.blocks == old(fs.blocks) && fs.inodes == old(fs.inodes)
      invariant forall j :: 0 <= j < k ==> EntryAt(c, j).inum != 0
    {
      var de := ReadEntry(fs, dp, off, k);
      if de.None? {
        return off, k, false;
      }
      if de.value.inum == 0 {
        return;
      }
      off, k := off + DIRENT, k + 1;
    }
  }

  /** Enter a name with an inode number; -1 if the name is taken. !ok is a panic: a directory that ends within an
      entry, one that is as long as a file can be, or a disk without a free block. */
  method Dirlink(fs: Files, dp: int, name: Name, inum: int) returns (r: int, ok: bool)
    requires fs.Valid() && fs.Synced() && 0 <= dp < fs.sb.ninodes && 0 <= inum < UINT
    modifies fs`blocks, fs`inodes, fs`owner
    ensures fs.Valid()
    ensures forall j :: 0 <= j < fs.sb.ninodes ==>
              fs.inodes[j].size <= MAXFILE * BSIZE && old(fs.inodes)[j].size <= MAXFILE * BSIZE
    ensures ok ==> fs.Synced() && r in {0, -1}
    ensures ok && r == -1 ==>
              && fs.blocks == old(fs.blocks) && fs.inodes == old(fs.inodes)
              && Lookup(Contents(fs.sb, old(fs.State()), dp), name) != 0
    ensures ok && r == 0 ==>
              && Lookup(Contents(fs.sb, old(fs.State()), dp), name) == 0
              && (exists k :: Linked(Contents(fs.sb, old(fs.State()), dp), Contents(fs.sb, fs.State(), dp), k, name, inum))
              && (forall m {:trigger SameName(m, name)} ::
                    Lookup(Contents(fs.sb, fs.State(), dp), m)
                    == if SameName(m, name) then inum % 0x1_0000 else Lookup(Contents(fs.sb, old(fs.State()), dp), m))
              && (forall j {:trigger Contents(fs.sb, fs.State(), j)} :: 0 <= j < fs.sb.ninodes && j != dp ==>
                    Contents(fs.sb, fs.State(), j) == Contents(fs.sb, old(fs.State()), j))
    ensures !ok ==>
              var c := Contents(fs.sb, old(fs.State()), dp);
              && Lookup(c, name) == 0
              && (|c| % DIRENT != 0 || |c| + DIRENT > MAXFILE * BSIZE
                  || forall b :: 0 <= b < fs.sb.size ==> Used(fs.sb, fs.blocks, b))
  {
    fs.Shape();
    ghost var c := Contents(fs.sb, fs.State(), dp);
    hide Good, Contents, Used, EntryAt, DiskSynced;
    var found := Dirlookup(fs, dp, name);
    if found.At? {
      return -1, true;
    }
    if found.Panic? {
      return -1, false;
    }
    var off, k, ok' := EmptyEntry(fs, dp);
    if !ok' {
      return -1, false;
    }
    var de := Dirent(inum % 0x1_0000, Padded(name, DIRSIZ));
    r, ok := fs.Writei(dp, Encode(de), off, DIRENT);
    if !ok || r != DIRENT {
      return -1, false;
    }
    LinkPut(c, k, de);
    assert Linked(c, Contents(fs.sb, fs.State(), dp), k, name, inum);
    forall m
      ensures Lookup(Overlay(c, k * DIRENT, Encode(de)), m) == if SameName(m, name) then de.inum else Lookup(c, m)
    {
      LinkAdds(c, k, de, name, m);
    }
    return 0, true;
  }
}
