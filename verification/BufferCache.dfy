/** The buffer cache: a fixed array of buffers on a circular doubly linked list in order of use, in front of a disk
    on which single-block writes are atomic.
 */
module BufferCache {
  import opened LogDisk

  const NBUF := 30
  // The list head is one more node, after the buffers.
  const HEAD := NBUF
  const ROOTDEV := 1

  datatype Option<T> = None | Some(value: T)

  datatype Buf = Buf(valid: bool, dirty: bool, dev: nat, blockno: nat, locked: bool, refcnt: nat, data: Block)

  const ZEROES: Block := Block(seq(WORDS, _ => 0))

  // ---------- the list, on the values of the link arrays ----------

  function Ring(nodes: seq<nat>): seq<nat> { [HEAD] + nodes + [HEAD] }

  /** nx and pv link a circle through the head and exactly the nodes of `nodes`, in both directions. */
  ghost predicate Linked(nodes: seq<nat>, nx: seq<nat>, pv: seq<nat>)
    requires |nx| == |pv| == NBUF + 1
  {
    && (forall k :: 0 <= k < |nodes| ==> nodes[k] < NBUF)
    && (forall j, k :: 0 <= j < k < |nodes| ==> nodes[j] != nodes[k])
    && (forall k :: 0 <= k <= |nodes| ==> Link(nodes, nx, pv, k))
  }

  ghost predicate Link(nodes: seq<nat>, nx: seq<nat>, pv: seq<nat>, k: int)
    requires |nx| == |pv| == NBUF + 1 && 0 <= k <= |nodes|
    requires forall k :: 0 <= k < |nodes| ==> nodes[k] < NBUF
  {
    nx[Ring(nodes)[k]] == Ring(nodes)[k + 1] && pv[Ring(nodes)[k + 1]] == Ring(nodes)[k]
  }

  function Without(s: seq<nat>, k: nat): seq<nat>
    requires k < |s|
  {
    s[..k] + s[k + 1..]
  }

  lemma {:induction false} WithoutMembers(s: seq<nat>, k: nat)
    requires k < |s| && forall i, j :: 0 <= i < j < |s| ==> s[i] != s[j]
    ensures forall x :: x in Without(s, k) <==> x in s && x != s[k]
  {
    forall x | x in s && x != s[k]
      ensures x in Without(s, k)
    {
      var i :| 0 <= i < |s| && s[i] == x;
      assert Without(s, k)[if i < k then i else i - 1] == x;
    }
  }

  lemma {:induction false} UnlinkNode(nodes: seq<nat>, nx: seq<nat>, pv: seq<nat>, k: nat)
    requires |nx| == |pv| == NBUF + 1 && Linked(nodes, nx, pv) && k < |nodes|
    ensures var b := nodes[k];
            && pv[b] <= NBUF && nx[b] <= NBUF
            && Linked(Without(nodes, k), nx[pv[b] := nx[b]], pv[nx[b] := pv[b]])
  {
    var c := Ring(nodes);
    var rest := Without(nodes, k);
    assert Link(nodes, nx, pv, k) && Link(nodes, nx, pv, k + 1);
    var nx', pv' := nx[c[k] := c[k + 2]], pv[c[k + 2] := c[k]];
    forall j | 0 <= j <= |rest|
      ensures Link(rest, nx', pv', j)
    {
      if j < k {
        assert Link(nodes, nx, pv, j) && c[j] != c[k] && c[j + 1] != c[k + 2];
      } else if j > k {
        assert Link(nodes, nx, pv, j + 1) && c[j + 1] != c[k] && c[j + 2] != c[k + 2];
      }
    }
  }

  lemma {:induction false} LinkNode(nodes: seq<nat>, nx: seq<nat>, pv: seq<nat>, b: nat)
    requires |nx| == |pv| == NBUF + 1 && Linked(nodes, nx, pv) && b < NBUF && b !in nodes
    ensures var first := nx[HEAD];
            && first <= NBUF
            && Linked([b] + nodes, nx[b := first][HEAD := b], pv[b := HEAD][first := b])
  {
    var c, d := Ring(nodes), Ring([b] + nodes);
    assert Link(nodes, nx, pv, 0);
    var nx', pv' := nx[b := c[1]][HEAD := b], pv[b := HEAD][c[1] := b];
    forall k | 0 <= k <= |nodes| + 1
      ensures Link([b] + nodes, nx', pv', k)
    {
      if k >= 2 {
        assert Link(nodes, nx, pv, k - 1) && d[k] == c[k - 1] && d[k + 1] == c[k];
        assert c[k - 1] == nodes[k - 2] && c[k] != c[1];
      }
    }
  }

  /** The same buffers are referred to, and they are the same. */
  ghost predicate SameHeld(bufs: seq<Buf>, bufs': seq<Buf>) {
    && |bufs| == |bufs'|
    && forall b :: 0 <= b < |bufs| ==>
         (bufs[b].refcnt > 0 <==> bufs'[b].refcnt > 0) && (bufs[b].refcnt > 0 ==> bufs'[b] == bufs[b])
  }

  /** Nobody refers to a buffer. */
  ghost predicate NoneHeld(bufs: seq<Buf>) {
    forall b :: 0 <= b < |bufs| ==> bufs[b].refcnt == 0
  }

  class Cache {
    const buf: array<Buf>
    const next: array<nat>
    const prev: array<nat>
    var disk: Disk
    // the buffers on the list, most recently used first
    ghost var order: seq<nat>
    // the disk after each block written so far
    ghost var images: seq<Disk>

    // ---------- invariants ----------

    ghost predicate Shape()
    {
      && buf.Length == NBUF && next.Length == NBUF + 1 && prev.Length == NBUF + 1
      && next != prev && buf as object != next && buf as object != prev
    }

    ghost predicate Circle(nodes: seq<nat>)
      requires Shape()
      reads next, prev
    {
      Linked(nodes, next[..], prev[..])
    }

    ghost predicate Holds(b: nat, dev: nat, blockno: nat)
      requires Shape() && b < NBUF
      reads buf
    {
      buf[b].dev == dev && buf[b].blockno == blockno
    }

    ghost predicate Busy(b: nat)
      requires Shape() && b < NBUF
      reads buf
    {
      buf[b].refcnt > 0 || buf[b].dirty
    }

    /** A clean copy that nobody has locked is what the disk holds; only a block of the disk is ever dirty. */
    ghost predicate BufferOk(b: nat)
      requires Shape() && b < NBUF
      reads this`disk, buf
    {
      var x := buf[b];
      && (x.locked ==> x.refcnt > 0)
      && (x.dirty ==> x.valid)
      && (x.valid ==> x.dev == ROOTDEV && x.blockno < |disk|)
      && (x.valid && !x.dirty && !x.locked ==> x.data == disk[x.blockno])
    }

    ghost predicate Valid()
      reads this, buf, next, prev
      ensures Valid() ==> Shape()
    {
      && Shape()
      && Circle(order)
      && |order| == NBUF && (forall b :: 0 <= b < NBUF ==> b in order)
      && (forall b, c :: 0 <= b < c < NBUF && buf[b].dev == buf[c].dev != 0 ==> buf[b].blockno != buf[c].blockno)
      && (forall b :: 0 <= b < NBUF ==> BufferOk(b))
    }

    /** The contents of a block as a process sees it: the cached copy if there is one. */
    ghost function Logical(blockno: nat): Block
      requires Shape() && blockno < |disk|
      reads this, buf
    {
      if exists b :: 0 <= b < NBUF && Holds(b, ROOTDEV, blockno) && buf[b].valid then
        var b :| 0 <= b < NBUF && Holds(b, ROOTDEV, blockno) && buf[b].valid;
        buf[b].data
      else
        disk[blockno]
    }

    ghost function View(): (v: Disk)
      requires Shape()
      reads this, buf
      ensures |v| == |disk|
    {
      seq(|disk|, blockno requires 0 <= blockno < |disk| reads this, buf => Logical(blockno))
    }

    /** The blocks pinned in the cache. */
    ghost function Pins(): set<int>
      requires Shape()
      reads buf
    {
      set b | 0 <= b < NBUF && buf[b].dirty :: buf[b].blockno as int
    }

    /** The buffers somebody refers to. */
    ghost function Refs(): set<int>
      requires Shape()
      reads buf
    {
      set b | 0 <= b < NBUF && buf[b].refcnt > 0
    }

    /** Some buffer could be recycled. */
    ghost predicate SomeFree()
      requires Shape()
      reads buf
    {
      exists b :: 0 <= b < NBUF && !Busy(b)
    }

    /** What others hold is as it was in bufs. */
    ghost predicate HeldAs(bufs: seq<Buf>)
      requires Shape()
      reads buf
    {
      SameHeld(bufs, buf[..])
    }

    /** Nobody refers to the block. */
    ghost predicate Unreferenced(blockno: nat)
      requires Shape()
      reads buf
    {
      forall b :: 0 <= b < NBUF && Holds(b, ROOTDEV, blockno) ==> buf[b].refcnt == 0
    }

    /** Somebody has a buffer of the block locked. */
    ghost predicate Locked(blockno: nat)
      requires Shape()
      reads buf
    {
      exists b :: 0 <= b < NBUF && Holds(b, ROOTDEV, blockno) && buf[b].locked
    }

    /** Buffer b is locked with the contents of a block; others may be waiting for it. */
    ghost predicate Held(b: nat, blockno: nat)
      requires Shape()
      reads this, buf
    {
      b < NBUF && Holds(b, ROOTDEV, blockno) && buf[b].valid && buf[b].locked && buf[b].refcnt > 0 && blockno < |disk|
    }

    /** What the cache shows of a block is determined by any valid buffer holding it. */
    lemma {:induction false} LogicalOf(b: nat)
      requires Valid() && b < NBUF && BufferOk(b) && buf[b].valid
      ensures View()[buf[b].blockno] == buf[b].data
    {
      assert Holds(b, ROOTDEV, buf[b].blockno);
    }

    ghost predicate SameCopy(x: Buf, y: Buf) {
      x.valid == y.valid && x.dev == y.dev && x.blockno == y.blockno && x.data == y.data
    }

    ghost predicate Redundant(d: Disk, x: Buf) {
      x.valid ==> x.blockno < |d| && x.data == d[x.blockno]
    }

    /** Changing one buffer leaves the view alone if its copy stays the same, or if before and after it holds no
        more than the disk does. */
    twostate lemma {:induction false} ViewKept(b: nat)
      requires old(Valid()) && Valid() && disk == old(disk) && b < NBUF
      requires forall c :: 0 <= c < NBUF && c != b ==> buf[c] == old(buf[c])
      requires SameCopy(old(buf[b]), buf[b]) || (Redundant(disk, old(buf[b])) && Redundant(disk, buf[b]))
      ensures View() == old(View())
    {
      forall n | 0 <= n < |disk|
        ensures Logical(n) == old(Logical(n))
      {
        if c :| 0 <= c < NBUF && Holds(c, ROOTDEV, n) && buf[c].valid {
          assert old(Holds(c, ROOTDEV, n)) || c == b;
        }
        if c :| 0 <= c < NBUF && old(Holds(c, ROOTDEV, n)) && old(buf[c]).valid {
          assert Holds(c, ROOTDEV, n) || c == b;
        }
      }
    }

    /** Changing one buffer keeps the cache valid if the buffer is still sound and nobody else has its block. */
    twostate lemma {:induction false} ValidKept(b: nat)
      requires old(Valid()) && Shape() && b < NBUF && BufferOk(b)
      requires disk == old(disk) && order == old(order) && next[..] == old(next[..]) && prev[..] == old(prev[..])
      requires forall c :: 0 <= c < NBUF && c != b ==>
                 && buf[c] == old(buf[c])
                 && !(buf[b].dev == buf[c].dev != 0 && buf[b].blockno == buf[c].blockno)
      ensures Valid()
    {
      forall c | 0 <= c < NBUF && c != b
        ensures BufferOk(c)
      {
        assert old(BufferOk(c));
      }
    }

    lemma {:induction false} Links(k: nat)
      requires Shape() && Circle(order) && k <= |order|
      ensures next[if k == 0 then HEAD else order[k - 1]] == if k < |order| then order[k] else HEAD
      ensures prev[if k < |order| then order[k] else HEAD] == if k == 0 then HEAD else order[k - 1]
    {
      assert Link(order, next[..], prev[..], k);
    }

    // ---------- binit ----------

    constructor (image: Disk)
      ensures Valid() && fresh(buf) && fresh(next) && fresh(prev)
      ensures disk == image && images == []
      ensures View() == image
      ensures forall b :: 0 <= b < NBUF ==> buf[b] == Buf(false, false, 0, 0, false, 0, ZEROES)
    {
      // static storage is zero
      buf := new Buf[NBUF](_ => Buf(false, false, 0, 0, false, 0, ZEROES));
      next := new nat[NBUF + 1](_ => 0);
      prev := new nat[NBUF + 1](_ => 0);
      disk := image;
      order := [];
      images := [];
      new;
      prev[HEAD] := HEAD;
      next[HEAD] := HEAD;
      for b := 0 to NBUF
        invariant Shape() && Circle(order)
        invariant |order| == b && forall c :: 0 <= c < b <==> c in order
        invariant forall c :: 0 <= c < NBUF ==> buf[c] == Buf(false, false, 0, 0, false, 0, ZEROES)
        invariant disk == image && images == []
      {
        PushFront(b);
      }
    }

    /** The four assignments that put b behind the head. */
    method PushFront(b: nat)
      requires Shape() && Circle(order) && b < NBUF && b !in order
      modifies this`order, next, prev
      ensures order == [b] + old(order) && Circle(order)
    {
      LinkNode(order, next[..], prev[..], b);
      ghost var first := next[HEAD];
      next[b] := next[HEAD];
      prev[b] := HEAD;
      prev[next[HEAD]] := b;
      next[HEAD] := b;
      assert next[..] == old(next[..])[b := first][HEAD := b];
      assert prev[..] == old(prev[..])[b := HEAD][first := b];
      order := [b] + order;
    }
  
    // ---------- bget ----------

    /** Every buffer used less recently than b is referenced or dirty. */
    ghost predicate LeastRecentlyUsed(bufs: seq<Buf>, b: nat)
      reads this`order
    {
      exists k :: 0 <= k < |order| && order[k] == b &&
                  forall i :: k < i < |order| && order[i] < |bufs| ==> bufs[order[i]].refcnt > 0 || bufs[order[i]].dirty
    }

    /** bget's critical section: a reference to the buffer of a block, whoever else refers to it or has it locked. If
        the block has no buffer the least recently used one that is neither referenced nor dirty is recycled; if there
        is none (None) the kernel panics. */
    method Bget(dev: nat, blockno: nat) returns (r: Option<nat>)
      requires Valid() && dev != 0
      modifies buf
      ensures Valid() && View() == old(View()) && Pins() == old(Pins())
      ensures r.None? ==> buf[..] == old(buf[..])
      ensures r.None? <==> (forall b :: 0 <= b < NBUF ==> !old(Holds(b, dev, blockno)) && old(Busy(b)))
      ensures r.Some? ==>
                var b := r.value;
                && b < NBUF && buf[..] == old(buf[..])[b := buf[b]] && Holds(b, dev, blockno)
                && (if old(Holds(b, dev, blockno)) then
                      buf[b] == old(buf[b]).(refcnt := old(buf[b]).refcnt + 1)
                    else
                      && !old(Busy(b)) && (forall c :: 0 <= c < NBUF ==> !old(Holds(c, dev, blockno)))
                      && buf[b] == Buf(false, false, dev, blockno, false, 1, old(buf[b]).data)
                      && LeastRecentlyUsed(old(buf[..]), b))
    {
      var b := Cached(dev, blockno);
      if b != HEAD {
        assert BufferOk(b) && old(Holds(b, dev, blockno));
        buf[b] := buf[b].(refcnt := buf[b].refcnt + 1);
      } else {
        b := Unused();
        if b == HEAD {
          forall c | 0 <= c < NBUF
            ensures !old(Holds(c, dev, blockno)) && old(Busy(c))
          {
            assert !Holds(c, dev, blockno) && Busy(c);
          }
          return None;
        }
        assert BufferOk(b);
        forall c | 0 <= c < NBUF
          ensures !old(Holds(c, dev, blockno)) && !(buf[c].dev == dev && buf[c].blockno == blockno)
        {
          assert !Holds(c, dev, blockno);
        }
        buf[b] := Buf(false, false, dev, blockno, false, 1, buf[b].data);
      }
      assert BufferOk(b) && old(BufferOk(b));
      ValidKept(b);
      ViewKept(b);
      SamePins(b);
      return Some(b);
    }

    /** One try of acquiresleep on a buffer that the caller refers to; without success it sleeps and tries again. */
    method Acquire(b: nat) returns (ok: bool)
      requires Valid() && b < NBUF && buf[b].refcnt > 0
      modifies buf
      ensures Valid() && View() == old(View()) && Pins() == old(Pins())
      ensures ok <==> !old(buf[b]).locked
      ensures buf[..] == old(buf[..])[b := old(buf[b]).(locked := true)]
    {
      if buf[b].locked {
        assert buf[..] == old(buf[..])[b := old(buf[b]).(locked := true)];
        return false;
      }
      assert BufferOk(b);
      buf[b] := buf[b].(locked := true);
      assert BufferOk(b);
      ValidKept(b);
      ViewKept(b);
      SamePins(b);
      return true;
    }

    /** The buffer that holds a block, or the list head. */
    method Cached(dev: nat, blockno: nat) returns (b: nat)
      requires Valid()
      ensures b <= NBUF
      ensures b == HEAD <==> forall c :: 0 <= c < NBUF ==> !Holds(c, dev, blockno)
      ensures b != HEAD ==> Holds(b, dev, blockno)
    {
      Links(0);
      b := next[HEAD];
      ghost var k := 0;
      while b != HEAD && !(buf[b].dev == dev && buf[b].blockno == blockno)
        invariant 0 <= k <= NBUF
        invariant b == if k < NBUF then order[k] else HEAD
        invariant forall i :: 0 <= i < k ==> !Holds(order[i], dev, blockno)
        decreases NBUF - k
      {
        Links(k + 1);
        b := next[b];
        k := k + 1;
      }
      assert b != HEAD ==> Holds(b, dev, blockno);
      forall c | 0 <= c < NBUF && b == HEAD
        ensures !Holds(c, dev, blockno)
      {
        assert c in order;
      }
    }

    /** An unused buffer to recycle, searched from the least recently used end, or the list head. */
    method Unused() returns (b: nat)
      requires Valid()
      ensures b <= NBUF
      ensures b == HEAD <==> forall c :: 0 <= c < NBUF ==> Busy(c)
      ensures b != HEAD ==> !Busy(b) && LeastRecentlyUsed(buf[..], b)
    {
      Links(NBUF);
      b := prev[HEAD];
      ghost var k := NBUF;
      while b != HEAD && !(buf[b].refcnt == 0 && !buf[b].dirty)
        invariant 0 <= k <= NBUF
        invariant b == if k > 0 then order[k - 1] else HEAD
        invariant forall i :: k <= i < NBUF ==> Busy(order[i])
        decreases k
      {
        Links(k - 1);
        b := prev[b];
        k := k - 1;
      }
      assert b != HEAD ==> !Busy(b);
      forall c | 0 <= c < NBUF && b == HEAD
        ensures Busy(c)
      {
        assert c in order;
      }
    }

    // ---------- iderw, bread, bwrite ----------

    /** Sync a buffer with the disk: write it if dirty, otherwise read it if not valid. */
    method Iderw(b: nat)
      requires Valid() && b < NBUF && buf[b].locked
      requires !buf[b].valid || buf[b].dirty
      requires buf[b].dev == ROOTDEV && buf[b].blockno < |disk|
      modifies this`disk, this`images, buf
      ensures Valid()
      ensures old(buf[b]).dirty ==>
                && buf[..] == old(buf[..])[b := old(buf[b]).(dirty := false)]
                && disk == old(disk)[buf[b].blockno := buf[b].data] && images == old(images) + [disk]
                && View() == old(View())
      ensures !old(buf[b]).dirty ==>
                && disk == old(disk) && images == old(images)
                && buf[..] == old(buf[..])[b := old(buf[b]).(valid := true, data := disk[old(buf[b]).blockno])]
                && View() == old(View())
    {
      assert BufferOk(b);
      if buf[b].dirty {
        buf[b] := buf[b].(dirty := false);
        disk := disk[buf[b].blockno := buf[b].data];
        images := images + [disk];
        assert BufferOk(b);
        forall c | 0 <= c < NBUF && c != b
          ensures BufferOk(c)
        {
          assert old(BufferOk(c));
        }
        WriteKeepsView(b);
      } else {
        buf[b] := buf[b].(valid := true, data := disk[buf[b].blockno]);
        assert BufferOk(b);
        ValidKept(b);
        ViewKept(b);
      }
    }

    /** Writing a buffer to its home changes the disk but not what is seen. */
    twostate lemma {:induction false} WriteKeepsView(b: nat)
      requires old(Valid()) && Valid() && b < NBUF
      requires old(buf[b]).valid && BufferOk(b) && old(BufferOk(b))
      requires buf[..] == old(buf[..])[b := old(buf[b]).(dirty := false)]
      requires disk == old(disk)[buf[b].blockno := buf[b].data]
      ensures View() == old(View())
    {
      forall n | 0 <= n < |disk|
        ensures Logical(n) == old(Logical(n))
      {
        if c :| 0 <= c < NBUF && Holds(c, ROOTDEV, n) && buf[c].valid {
          assert old(Holds(c, ROOTDEV, n));
        }
        if c :| 0 <= c < NBUF && old(Holds(c, ROOTDEV, n)) && old(buf[c]).valid {
          assert Holds(c, ROOTDEV, n);
        }
        assert Holds(b, ROOTDEV, buf[b].blockno);
      }
    }

    /** The rest of bread, for the holder of the lock: the buffer has the latest contents of the block, whether it was
        the first to read it or has waited for others. */
    method ReadIn(b: nat)
      requires Valid() && b < NBUF && buf[b].locked && buf[b].refcnt > 0 && buf[b].dev == ROOTDEV && buf[b].blockno < |disk|
      modifies buf, this`disk, this`images
      ensures Valid() && View() == old(View()) && disk == old(disk) && images == old(images) && Pins() == old(Pins())
      ensures buf[..] == old(buf[..])[b := old(buf[b]).(valid := true, data := View()[old(buf[b]).blockno])]
      ensures old(buf[b]).valid ==> buf[b] == old(buf[b])
    {
      assert BufferOk(b);
      if !buf[b].valid {
        Iderw(b);
      }
      assert BufferOk(b) && old(BufferOk(b));
      LogicalOf(b);
      SamePins(b);
    }

    /** bread up to its end or to the first wait: a locked buffer with the contents of the block, or, if somebody has the
        buffer locked, a reference to it with which the caller waits. Others may refer to the buffer either way. None is
        the kernel's panic for want of a buffer. */
    method Bread(blockno: nat) returns (r: Option<nat>, waits: bool)
      requires Valid() && blockno < |disk|
      modifies buf, this`disk, this`images
      ensures Valid() && View() == old(View()) && disk == old(disk) && images == old(images)
      ensures Pins() == old(Pins())
      ensures r.None? <==> (forall b :: 0 <= b < NBUF ==> !old(Holds(b, ROOTDEV, blockno)) && old(Busy(b)))
      ensures r.None? ==> buf[..] == old(buf[..])
      ensures waits <==> old(Locked(blockno))
      ensures r.Some? ==>
                var b := r.value;
                && b < NBUF && Holds(b, ROOTDEV, blockno) && buf[..] == old(buf[..])[b := buf[b]]
                && buf[b].refcnt == (if old(Holds(b, ROOTDEV, blockno)) then old(buf[b]).refcnt else 0) + 1
                && (!old(Holds(b, ROOTDEV, blockno)) ==> !old(Busy(b)))
                && (waits ==> buf[b] == old(buf[b]).(refcnt := old(buf[b]).refcnt + 1))
      ensures r.Some? && !waits ==>
                var b := r.value;
                && Held(b, blockno) && buf[b].data == View()[blockno] && (buf[b].dirty <==> blockno in Pins())
                && (!buf[b].dirty ==> buf[b].data == disk[blockno])
    {
      LockedBuffer(blockno);
      r := Bget(ROOTDEV, blockno);
      if r.None? {
        return r, false;
      }
      var b := r.value;
      assert BufferOk(b);
      var ok := Acquire(b);
      if !ok {
        return r, true;
      }
      ReadIn(b);
      assert BufferOk(b) && old(BufferOk(b));
      PinsOf(b);
      return r, false;
    }

    /** A block is locked when its one buffer is. */
    lemma {:induction false} LockedBuffer(blockno: nat)
      requires Valid()
      ensures forall b :: 0 <= b < NBUF && Holds(b, ROOTDEV, blockno) ==> (buf[b].locked <==> Locked(blockno))
      ensures (forall b :: 0 <= b < NBUF ==> !Holds(b, ROOTDEV, blockno)) ==> !Locked(blockno)
    {
    }

    lemma {:induction false} PinsOf(b: nat)
      requires Valid() && b < NBUF && BufferOk(b) && buf[b].dev == ROOTDEV
      ensures buf[b].dirty <==> buf[b].blockno in Pins()
    {
      forall c | 0 <= c < NBUF && buf[c].dirty && buf[c].blockno == buf[b].blockno
        ensures c == b
      {
        assert BufferOk(c);
      }
    }

    /** With nothing pinned the cache shows the disk, but for what somebody has locked. */
    lemma {:induction false} CleanView()
      requires Valid() && Pins() == {}
      ensures forall n :: 0 <= n < |disk| && !Locked(n) ==> View()[n] == disk[n]
    {
      forall n | 0 <= n < |disk| && !Locked(n)
        ensures Logical(n) == disk[n]
      {
        if b :| 0 <= b < NBUF && Holds(b, ROOTDEV, n) && buf[b].valid {
          assert BufferOk(b);
          DirtyIsPinned(b);
        }
      }
    }

    lemma {:induction false} DirtyIsPinned(b: nat)
      requires Shape() && b < NBUF
      ensures buf[b].dirty ==> buf[b].blockno in Pins()
      ensures b !in Refs() ==> buf[b].refcnt == 0
    {
    }

    lemma {:induction false} PinIsCached(blockno: nat)
      requires Valid() && blockno in Pins()
      ensures exists b :: 0 <= b < NBUF && Holds(b, ROOTDEV, blockno)
    {
      var b :| 0 <= b < NBUF && buf[b].dirty && buf[b].blockno == blockno;
      assert BufferOk(b);
      assert Holds(b, ROOTDEV, blockno);
    }

    /** A change to one buffer adds or removes at most its own pin. */
    twostate lemma {:induction false} SamePins(b: nat)
      requires old(Valid()) && Shape() && b < NBUF && old(BufferOk(b))
      requires buf[..] == old(buf[..])[b := buf[b]]
      requires old(buf[b]).dirty ==> buf[b].blockno == old(buf[b]).blockno
      ensures buf[b].dirty ==> Pins() == old(Pins()) + {buf[b].blockno}
      ensures old(buf[b]).dirty && !buf[b].dirty ==> Pins() == old(Pins()) - {buf[b].blockno}
      ensures !old(buf[b]).dirty && !buf[b].dirty ==> Pins() == old(Pins())
    {
      forall c | 0 <= c < NBUF
        ensures c != b ==> buf[c] == old(buf[c])
        ensures old(BufferOk(c))
      {
      }
    }

    /** The holder of a buffer changes its contents. */
    method Fill(b: nat, data: Block)
      requires Valid() && b < NBUF && Held(b, buf[b].blockno)
      modifies buf
      ensures Valid() && buf[..] == old(buf[..])[b := old(buf[b]).(data := data)]
      ensures Pins() == old(Pins())
      ensures View() == old(View())[buf[b].blockno := data]
    {
      assert BufferOk(b);
      buf[b] := buf[b].(data := data);
      assert BufferOk(b);
      ValidKept(b);
      SamePins(b);
      forall n | 0 <= n < |disk|
        ensures Logical(n) == if n == buf[b].blockno then data else old(Logical(n))
      {
        if c :| 0 <= c < NBUF && Holds(c, ROOTDEV, n) && buf[c].valid {
          assert old(Holds(c, ROOTDEV, n));
        }
        if c :| 0 <= c < NBUF && old(Holds(c, ROOTDEV, n)) && old(buf[c]).valid {
          assert Holds(c, ROOTDEV, n);
        }
        assert Holds(b, ROOTDEV, buf[b].blockno);
      }
    }

    /** Write a held buffer to the disk. */
    method Bwrite(b: nat)
      requires Valid() && b < NBUF && Held(b, buf[b].blockno)
      modifies buf, this`disk, this`images
      ensures Valid() && View() == old(View())
      ensures Pins() == old(Pins()) - {buf[b].blockno}
      ensures buf[..] == old(buf[..])[b := old(buf[b]).(dirty := false)]
      ensures disk == old(disk)[buf[b].blockno := buf[b].data] && images == old(images) + [disk]
    {
      assert BufferOk(b);
      PinsOf(b);
      Pin(b);
      assert BufferOk(b);
      Iderw(b);
      SamePins(b);
    }

    /** The flag that keeps a buffer from being recycled. */
    method Pin(b: nat)
      requires Valid() && b < NBUF && Held(b, buf[b].blockno)
      modifies buf
      ensures Valid() && buf[..] == old(buf[..])[b := old(buf[b]).(dirty := true)]
      ensures Pins() == old(Pins()) + {buf[b].blockno}
      ensures View() == old(View())
    {
      assert BufferOk(b);
      buf[b] := buf[b].(dirty := true);
      assert BufferOk(b);
      ValidKept(b);
      ViewKept(b);
      SamePins(b);
    }

    // ---------- brelse ----------

    /** Release a locked buffer; when nobody else refers to it or waits for it, it becomes the most recently used one.
        The cache stays sound exactly if the contents are pinned or on the disk: callers log or write what they change. */
    method Brelse(b: nat)
      requires Valid() && b < NBUF && buf[b].locked
      modifies buf, this`order, next, prev
      ensures Shape() && View() == old(View()) && Pins() == old(Pins())
      ensures old(buf[b]).valid ==> old(buf[b]).blockno < |disk|
      ensures Valid() <==> old(buf[b]).dirty || !old(buf[b]).valid || old(buf[b]).data == disk[old(buf[b]).blockno]
      ensures old(buf[b]).refcnt > 0
      ensures buf[..] == old(buf[..])[b := old(buf[b]).(locked := false, refcnt := old(buf[b]).refcnt - 1)]
      ensures exists k :: 0 <= k < NBUF && old(order)[k] == b &&
                          order == if buf[b].refcnt == 0 then [b] + Without(old(order), k)
                                   else old(order)
    {
      assert BufferOk(b);
      buf[b] := buf[b].(locked := false, refcnt := buf[b].refcnt - 1);
      SamePins(b);
      assert b in order;
      ghost var k :| 0 <= k < NBUF && order[k] == b;
      if buf[b].refcnt == 0 {
        Unlink(b, k);
        PushFront(b);
      }
      ReleasedView(b);
      forall c | 0 <= c < NBUF
        ensures c in order && (c != b ==> BufferOk(c))
      {
        assert old(BufferOk(c));
      }
      assert BufferOk(b) <==> old(buf[b]).dirty || !old(buf[b]).valid || old(buf[b]).data == disk[old(buf[b]).blockno];
    }

    twostate lemma {:induction false} ReleasedView(b: nat)
      requires Shape() && disk == old(disk) && b < NBUF
      requires buf[..] == old(buf[..])[b := buf[b]] && SameCopy(old(buf[b]), buf[b])
      requires old(Valid())
      ensures View() == old(View())
    {
      forall c | 0 <= c < NBUF
        ensures SameCopy(old(buf[c]), buf[c])
      {
        assert c != b ==> buf[..][c] == old(buf[..])[c];
      }
      forall n | 0 <= n < |disk|
        ensures Logical(n) == old(Logical(n))
      {
        if c :| 0 <= c < NBUF && Holds(c, ROOTDEV, n) && buf[c].valid {
          assert old(Holds(c, ROOTDEV, n));
        }
        if c :| 0 <= c < NBUF && old(Holds(c, ROOTDEV, n)) && old(buf[c]).valid {
          assert Holds(c, ROOTDEV, n);
        }
      }
    }

    /** The two assignments that take a buffer off the list. */
    method Unlink(b: nat, ghost k: nat)
      requires Shape() && Circle(order) && k < |order| && order[k] == b
      modifies this`order, next, prev
      ensures order == Without(old(order), k) && Circle(order)
      ensures forall c :: c in order <==> c in old(order) && c != b
    {
      UnlinkNode(order, next[..], prev[..], k);
      WithoutMembers(order, k);
      ghost var before, after := prev[b], next[b];
      prev[next[b]] := prev[b];
      next[prev[b]] := next[b];
      assert prev[..] == old(prev[..])[after := before];
      assert next[..] == old(next[..])[before := after];
      order := Without(order, k);
    }
  }
}
