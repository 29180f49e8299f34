/** malloc and free as the program runs them: header words in memory and a roving pointer into the list. */
module Malloc {
  import opened Allocator

  /** Header-sized units for a request of nbytes, header included, in C's unsigned arithmetic. */
  function Units(nbytes: nat): nat
    requires nbytes < UINT
  {
    (nbytes + HEADER_BYTES - 1) % UINT / HEADER_BYTES + 1
  }

  /** The block has room for the request exactly when the rounding does not wrap. */
  lemma {:induction false} UnitsHold(nbytes: nat)
    requires nbytes < UINT
    ensures (Units(nbytes) - 1) * HEADER_BYTES >= nbytes <==> nbytes + HEADER_BYTES <= UINT
    ensures nbytes + HEADER_BYTES <= UINT ==> (Units(nbytes) - 1) * HEADER_BYTES < nbytes + HEADER_BYTES
  {
  }

  // ---------- how much sbrk can be asked for ----------

  const KERNBASE := 0x8000_0000

  /** An unsigned count as the int that sbrk takes. */
  function Signed(x: int): int
    requires 0 <= x < UINT
  {
    if x < 0x8000_0000 then x else x - UINT
  }

  /** The size of a process of size sz after growproc(n), or None when it fails; `frames` says if there are frames. */
  function GrowProc(sz: int, n: int, frames: bool): Option<int> {
    var newsz := (sz + n) % UINT;
    var end := if n == 0 then sz
               else if n > 0 then (if newsz >= KERNBASE then 0 else if newsz < sz then sz else if frames then newsz else 0)
               else if newsz >= sz then sz else newsz;
    if end == 0 && n != 0 then None else Some(end)
  }

  /** growproc in exact arithmetic: a process grows below 2 GB as far as there are frames; it shrinks, but not to nothing, which
      counts as a failure; and to shrink by more than there is does nothing. */
  lemma {:induction false} GrowProcIs(sz: int, n: int, frames: bool)
    requires 0 < sz < KERNBASE && -0x8000_0000 <= n < 0x8000_0000
    ensures GrowProc(sz, n, frames)
            == if n > 0 then (if sz + n < 0x8000_0000 && frames then Some(sz + n) else None)
               else if sz + n > 0 then Some(sz + n)
               else if sz + n == 0 then None
               else Some(sz)
  {
  }

  /** When sbrk succeeds for a number of units, the memory is there if and only if that is less than 2 GB. From there on
      the count is negative, and the process gets no larger or even smaller. */
  lemma {:induction false} SbrkCoversIff(sz: int, nu: int, frames: bool)
    requires 0 < sz < KERNBASE && 0 < nu * HEADER_BYTES <= UINT
    ensures var end := GrowProc(sz, Signed(nu * HEADER_BYTES % UINT), frames);
            end.Some? ==> (end.value >= sz + nu * HEADER_BYTES <==> nu * HEADER_BYTES < 0x8000_0000)
  {
  }

  /** Such a request: malloc of 2 GB less 8 bytes asks for 2 GB, and the process stays as large as it was. */
  lemma {:induction false} HugeRequest(frames: bool)
    ensures Units(0x7fff_fff8) * HEADER_BYTES == 0x8000_0000
    ensures GrowProc(4096, Signed(Units(0x7fff_fff8) * HEADER_BYTES), frames) == Some(4096)
  {
  }

  /** Steps from the j-th element of a circle of n to the f-th. */
  function Ahead(f: nat, j: nat, n: nat): int {
    if j <= f then f - j else f - j + n
  }

  /** free's search stops at the slot and nowhere else. */
  lemma {:induction false} StopsAtSlot(mem: Memory, list: seq<int>, i: nat, bp: int, k: nat)
    requires Circular(mem, list) && Slot(list, i, bp) && k < |list|
    ensures list[k] in mem && mem[list[k]].ptr == Next(list, k)
    ensures var p := list[k];
            (bp > p && bp < mem[p].ptr) || (p >= mem[p].ptr && (bp > p || bp < mem[p].ptr)) <==> k == i
  {
    assert LinkOk(mem, list, k);
    assert (k < i ==> list[k] < list[i] && list[k + 1] <= list[i]) && (i < k ==> list[i + 1] <= list[k]);
    assert list[0] <= list[i] && list[0] <= list[k];
  }

  /** The n units at a are the last ones of a free block. */
  ghost predicate IsTail(blocks: Blocks, live: set<int>, a: int, n: int) {
    exists b :: b in blocks && b !in live && b <= a && a + n == b + blocks[b]
  }

  /** No free block has n units. */
  ghost predicate NoneFits(blocks: Blocks, live: set<int>, n: int) {
    forall b :: b in blocks && b !in live ==> blocks[b] < n
  }

  class Heap {
    var mem: Memory
    // null before the first call
    var freep: Option<int>
    // the end of the heap, and how far the system lets it grow
    var brk: int
    const limit: int
    ghost var list: seq<int>
    ghost var blocks: Blocks
    ghost var live: set<int>

    ghost predicate Valid()
      reads this
    {
      && BASE < brk && brk * HEADER_BYTES < KERNBASE && limit * HEADER_BYTES < KERNBASE
      && (freep.Some? ==> Ok(mem, list, blocks, live, brk) && freep.value in list)
      && (freep.None? ==> blocks == map[] && live == {})
    }

    constructor (start: int, limit: int)
      requires BASE < start && start * HEADER_BYTES < KERNBASE && limit * HEADER_BYTES < KERNBASE
      ensures Valid() && freep.None? && brk == start && this.limit == limit
    {
      mem, freep, brk, this.limit := map[], None, start, limit;
      list, blocks, live := [], map[], {};
    }

    /** Blocks in use stay where they are and as large as they are. */
    ghost predicate Kept(was: Blocks, some: set<int>)
      reads this
    {
      forall a :: a in some ==> a in was && a in blocks && blocks[a] == was[a]
    }

    /** free's search for the list element behind which a block belongs. */
    method FindSlot(bp: int, ghost i: nat) returns (p: int)
      requires Circular(mem, list) && Slot(list, i, bp) && freep.Some? && freep.value in list
      ensures p == list[i]
    {
      ghost var c: nat :| c < |list| && list[c] == freep.value;
      StopsAtSlot(mem, list, i, bp, c);
      assert i < |list|;
      hide Slot, Circular;
      p := freep.value;
      while !(bp > p && bp < mem[p].ptr)
        invariant c < |list| && p == list[c] && p in mem && mem[p].ptr == Next(list, c)
        invariant (bp > p && bp < mem[p].ptr) || (p >= mem[p].ptr && (bp > p || bp < mem[p].ptr)) <==> c == i
        decreases Ahead(i, c, |list|)
      {
        if p >= mem[p].ptr && (bp > p || bp < mem[p].ptr) {
          break;
        }
        c := if c + 1 < |list| then c + 1 else 0;
        StopsAtSlot(mem, list, i, bp, c);
        p := mem[p].ptr;
      }
    }

    /** The header writes of free. */
    method Relink(p: int, bp: int)
      requires p in mem && bp in mem && mem[p].ptr in mem
      modifies this`mem
      ensures mem == JoinPrev(JoinNext(old(mem), p, bp), p, bp)
    {
      var next := mem[p].ptr;
      if bp + mem[bp].size == next {
        mem := mem[bp := Header(mem[bp].ptr, mem[bp].size + mem[next].size)];
        mem := mem[bp := Header(mem[next].ptr, mem[bp].size)];
      } else {
        mem := mem[bp := Header(next, mem[bp].size)];
      }
      if p + mem[p].size == bp {
        mem := mem[p := Header(mem[p].ptr, mem[p].size + mem[bp].size)];
        mem := mem[p := Header(mem[bp].ptr, mem[p].size)];
      } else {
        mem := mem[p := Header(bp, mem[p].size)];
      }
    }

    /** Put block ap back in the free list. */
    method Free(ap: int) returns (ghost k: nat)
      requires Valid() && ap - 1 in live
      modifies this`mem, this`freep, this`list, this`blocks, this`live
      ensures Valid() && freep.Some? && live == old(live) - {ap - 1}
      ensures Kept(old(blocks), live) && SameUnits(old(blocks), blocks)
      ensures ap - 1 in old(blocks) && k < |list| && list[k] in mem && mem[list[k]].size >= old(blocks)[ap - 1]
    {
      var bp := ap - 1;
      assert FreeOk(list, blocks, live, bp) && BlockOk(mem, blocks, brk, bp);
      ghost var i := HasSlot(list, bp);
      var p := FindSlot(bp, i);
      ghost var list', blocks', k' := FreedOk(mem, list, blocks, live, brk, i, bp);
      hide OkBut, Slot, JoinNext, JoinPrev, SameUnits;
      Relink(p, bp);
      freep := Some(p);
      list, blocks, live, k := list', blocks', live - {bp}, k';
    }

    /** sbrk, for a number of units: the old end of the heap, or None when the system refuses. From 2 GB on its argument is
        negative. */
    method Sbrk(n: nat) returns (r: Option<int>)
      requires BASE < brk && brk * HEADER_BYTES < KERNBASE && limit * HEADER_BYTES < KERNBASE && n * HEADER_BYTES <= UINT
      modifies this`brk
      ensures var end := GrowProc(old(brk) * HEADER_BYTES, Signed(n * HEADER_BYTES % UINT), old(brk) + n <= limit);
              if end.Some? then r == Some(old(brk)) && brk * HEADER_BYTES == end.value else r.None? && brk == old(brk)
    {
      var end := GrowProc(brk * HEADER_BYTES, Signed(n * HEADER_BYTES % UINT), brk + n <= limit);
      if end.None? {
        return None;
      }
      r := Some(brk);
      brk := end.value / HEADER_BYTES;
    }

    /** A number of units below 2 GB is what sbrk makes the heap grow by. */
    lemma {:induction false} SmallGrowth(n: nat)
      requires BASE < brk && brk * HEADER_BYTES < KERNBASE && limit * HEADER_BYTES < KERNBASE
      requires 0 < n && n * HEADER_BYTES < 0x8000_0000
      ensures GrowProc(brk * HEADER_BYTES, Signed(n * HEADER_BYTES % UINT), brk + n <= limit)
              == if brk + n <= limit then Some((brk + n) * HEADER_BYTES) else None
    {
    }

    /** Ask the system for more units, and free them onto the list. `beyond` says that the system has granted a request of
        2 GB or more, for which there is no memory: the program goes on to write where it has none, and nothing more is
        promised. */
    method Morecore(nu: nat) returns (r: Option<int>, beyond: bool, ghost k: nat)
      requires Valid() && freep.Some? && 0 < nu && nu * HEADER_BYTES <= UINT
      modifies this`mem, this`freep, this`brk, this`list, this`blocks, this`live
      ensures beyond <==> nu * HEADER_BYTES >= 0x8000_0000 && Granted(old(brk), nu)
      ensures nu * HEADER_BYTES >= 0x8000_0000 ==> r.None?
      ensures !beyond ==> Valid() && freep.Some? && live == old(live) && Kept(old(blocks), live)
      ensures !beyond && r.None? ==>
                && mem == old(mem) && freep == old(freep) && list == old(list) && blocks == old(blocks) && brk == old(brk)
                && brk + (if nu < 4096 then 4096 else nu) > limit
      ensures r.Some? ==> r == freep && k < |list| && list[k] in mem && mem[list[k]].size >= nu && !Small(k, nu) && old(brk) < brk
      ensures !beyond ==>
                forall u {:trigger Covered(blocks, u)} :: Covered(blocks, u) <==> Covered(old(blocks), u) || old(brk) <= u < brk
    {
      var nu := if nu < 4096 then 4096 else nu;
      if nu * HEADER_BYTES < 0x8000_0000 {
        SmallGrowth(nu);
      }
      var p := Sbrk(nu);
      if p.None? {
        return None, false, 0;
      }
      if nu * HEADER_BYTES >= 0x8000_0000 {
        return None, true, 0;
      }
      var hp := p.value;
      var h := Header(if hp in mem then mem[hp].ptr else 0, nu);
      GrowOk(mem, list, blocks, live, hp, hp, nu, h);
      mem := mem[hp := h];
      blocks, live := blocks[hp := nu], live + {hp};
      assert hp !in old(live);
      ghost var grown := blocks;
      k := Free(hp + 1);
      assert live == old(live);
      forall u {:trigger Covered(blocks, u)}
        ensures Covered(blocks, u) <==> Covered(old(blocks), u) || old(brk) <= u < brk
      {
        assert Covered(grown, u) <==> Covered(old(blocks), u) || old(brk) <= u < brk;
      }
      return freep, false, k;
    }

    /** sbrk does not refuse. */
    predicate Granted(end: int, nu: nat)
      requires nu * HEADER_BYTES <= UINT
      reads this
    {
      GrowProc(end * HEADER_BYTES, Signed(nu * HEADER_BYTES % UINT), end + nu <= limit).Some?
    }

    /** No block is as large as 2 GB. */
    lemma {:induction false} NoneSoLarge(j: nat)
      requires Valid() && freep.Some? && j < |list|
      ensures list[j] in mem && mem[list[j]].size * HEADER_BYTES < 0x8000_0000
    {
      ListBlock(mem, list, blocks, live, brk, {}, j);
    }

    ghost predicate Small(j: nat, nunits: nat)
      reads this
    {
      j < |list| && list[j] in mem && mem[list[j]].size < nunits
    }

    /** malloc's search has left freep (element f) and stands at element c, behind prevp; what it has passed is too
        small. */
    ghost predicate Searching(f: nat, c: nat, prevp: int, p: int, nunits: nat)
      reads this
    {
      && freep.Some? && Ok(mem, list, blocks, live, brk) && f < |list| && c < |list|
      && freep.value == list[f] && p == list[c] && p in mem && prevp == list[if c > 0 then c - 1 else |list| - 1]
      && forall j {:trigger Small(j, nunits)} :: 0 <= j < |list| && Ahead(f, j, |list|) > Ahead(f, c, |list|) ==> Small(j, nunits)
    }

    /** The search begins behind freep. */
    lemma {:induction false} SearchBegins(f: nat, nunits: nat)
      requires freep.Some? && Ok(mem, list, blocks, live, brk) && f < |list| && freep.value == list[f]
      ensures freep.value in mem
      ensures Searching(f, if f + 1 < |list| then f + 1 else 0, freep.value, mem[freep.value].ptr, nunits)
    {
      assert LinkOk(mem, list, f);
      assert LinkOk(mem, list, if f + 1 < |list| then f + 1 else 0);
    }

    /** One step on. */
    lemma {:induction false} SearchOn(f: nat, c: nat, prevp: int, p: int, nunits: nat)
      requires Searching(f, c, prevp, p, nunits) && mem[p].size < nunits && p != freep.value
      ensures Searching(f, if c + 1 < |list| then c + 1 else 0, p, mem[p].ptr, nunits)
      ensures 0 <= Ahead(f, if c + 1 < |list| then c + 1 else 0, |list|) < Ahead(f, c, |list|)
    {
      var c' := if c + 1 < |list| then c + 1 else 0;
      assert LinkOk(mem, list, c) && LinkOk(mem, list, c') && Small(c, nunits);
      forall j {:trigger Small(j, nunits)} | 0 <= j < |list| && Ahead(f, j, |list|) > Ahead(f, c', |list|)
        ensures Small(j, nunits)
      {
        assert j != c ==> Ahead(f, j, |list|) > Ahead(f, c, |list|);
      }
    }

    /** Back at freep without success, every element is too small. */
    lemma {:induction false} SearchEnds(f: nat, c: nat, prevp: int, p: int, nunits: nat)
      requires Searching(f, c, prevp, p, nunits) && mem[p].size < nunits && p == freep.value
      ensures forall j {:trigger Small(j, nunits)} :: 0 <= j < |list| ==> Small(j, nunits)
    {
      assert c == f && Small(f, nunits);
      forall j {:trigger Small(j, nunits)} | 0 <= j < |list|
        ensures Small(j, nunits)
      {
        assert j != f ==> Ahead(f, j, |list|) > 0;
      }
    }

    lemma {:induction false} FreeAreSmall(nunits: nat)
      requires Ok(mem, list, blocks, live, brk) && forall j {:trigger Small(j, nunits)} :: 0 <= j < |list| ==> Small(j, nunits)
      ensures NoneFits(blocks, live, nunits)
    {
      forall b | b in blocks && b !in live
        ensures blocks[b] < nunits
      {
        assert FreeOk(list, blocks, live, b) && BlockOk(mem, blocks, brk, b);
        var j: nat :| j < |list| && list[j] == b;
        assert Small(j, nunits);
      }
    }

    /** The block at p, or the tail of it, is taken off the list. */
    method Allot(prevp: int, p: int, nunits: nat, ghost f: nat, ghost c: nat) returns (r: int)
      requires Valid() && Searching(f, c, prevp, p, nunits) && mem[p].size >= nunits > 0
      modifies this`mem, this`freep, this`list, this`blocks, this`live
      ensures Valid() && freep.Some? && Kept(old(blocks), old(live)) && SameUnits(old(blocks), blocks)
      ensures r - 1 !in old(live) && live == old(live) + {r - 1} && r - 1 in blocks && blocks[r - 1] == nunits
      ensures IsTail(old(blocks), old(live), r - 1, nunits) && freep == Some(prevp)
    {
      var q := p;
      ListBlock(mem, list, blocks, live, brk, {}, c);
      assert mem[BASE].size == 0 && c > 0;
      if mem[p].size == nunits {
        TakeOk(mem, list, blocks, live, brk, c);
        ListBlock(mem, list, blocks, live, brk, {}, c - 1);
        assert Dropped(list, c)[c - 1] == prevp;
        hide OkBut;
        mem := mem[prevp := Header(mem[p].ptr, mem[prevp].size)];
        list, live := Dropped(list, c), live + {p};
      } else {
        CutOk(mem, list, blocks, live, brk, c, nunits);
        assert prevp in list;
        hide OkBut;
        var rest := mem[p].size - nunits;
        mem := mem[p := Header(mem[p].ptr, rest)];
        q := p + rest;
        mem := mem[q := Header(if q in mem then mem[q].ptr else 0, nunits)];
        assert mem == Cut(old(mem), p, nunits);
        blocks, live := blocks[p := rest][q := nunits], live + {q};
      }
      freep := Some(prevp);
      return q + 1;
    }

    /** Back at freep: more units, or null, and the search begins again. */
    method Refill(ghost f: nat, ghost c: nat, ghost prevp: int, p: int, nunits: nat)
        returns (r: Option<int>, beyond: bool, ghost f': nat, ghost c': nat, ghost k: nat)
      requires Valid() && Searching(f, c, prevp, p, nunits) && mem[p].size < nunits && freep == Some(p) && nunits * HEADER_BYTES <= UINT
      modifies this`mem, this`freep, this`brk, this`list, this`blocks, this`live
      ensures NoneFits(old(blocks), old(live), nunits) && forall j {:trigger old(Small(j, nunits))} :: 0 <= j < |old(list)| ==> old(Small(j, nunits))
      ensures beyond <==> nunits * HEADER_BYTES >= 0x8000_0000 && Granted(old(brk), nunits)
      ensures nunits * HEADER_BYTES >= 0x8000_0000 ==> r.None?
      ensures !beyond ==> Valid() && freep.Some? && live == old(live) && Kept(old(blocks), live)
      ensures !beyond && r.None? ==>
                && mem == old(mem) && list == old(list) && blocks == old(blocks) && brk == old(brk)
                && brk + (if nunits < 4096 then 4096 else nunits) > limit
      ensures r.Some? ==>
                && r.value in mem && Searching(f', c', r.value, mem[r.value].ptr, nunits)
                && k < |list| && !Small(k, nunits) && old(brk) < brk
      ensures !beyond ==>
                forall u {:trigger Covered(blocks, u)} :: Covered(blocks, u) <==> Covered(old(blocks), u) || old(brk) <= u < brk
    {
      SearchEnds(f, c, prevp, p, nunits);
      FreeAreSmall(nunits);
      hide OkBut, Searching, Covered, NoneFits, Small, Granted;
      r, beyond, k := Morecore(nunits);
      f', c' := 0, 0;
      if r.Some? {
        f' :| f' < |list| && list[f'] == freep.value;
        SearchBegins(f', nunits);
        c' := if f' + 1 < |list| then f' + 1 else 0;
      }
    }

    /** A block for nbytes, or null when the system has no more memory to give. `beyond` is as in Morecore: it is met
        exactly by requests of 2 GB or more, after rounding, that the system does not refuse. */
    method Malloc(nbytes: nat) returns (r: Option<int>, beyond: bool)
      requires Valid() && nbytes < UINT
      modifies this
      ensures Units(nbytes) * HEADER_BYTES <= UINT
      ensures beyond <==> Units(nbytes) * HEADER_BYTES >= 0x8000_0000 && Granted(old(brk), Units(nbytes))
      ensures Units(nbytes) * HEADER_BYTES >= 0x8000_0000 ==> r.None?
      ensures !beyond ==> Valid() && freep.Some? && old(brk) <= brk && Kept(old(blocks), old(live))
      ensures !beyond ==>
                forall u {:trigger Covered(blocks, u)} :: Covered(blocks, u) <==> Covered(old(blocks), u) || old(brk) <= u < brk
      ensures !beyond && r.None? ==>
                && live == old(live) && blocks == old(blocks) && brk == old(brk)
                && brk + (if Units(nbytes) < 4096 then 4096 else Units(nbytes)) > limit
      ensures r.None? || brk != old(brk) ==> NoneFits(old(blocks), old(live), Units(nbytes))
      ensures r.Some? ==>
                var a := r.value - 1;
                && a !in old(live) && live == old(live) + {a} && a in blocks && blocks[a] == Units(nbytes)
                && (brk == old(brk) ==> IsTail(old(blocks), old(live), a, Units(nbytes)))
    {
      var nunits := (nbytes + HEADER_BYTES - 1) % UINT / HEADER_BYTES + 1;
      FirstCall();
      var prevp := freep.value;
      ghost var f: nat :| f < |list| && list[f] == freep.value;
      SearchBegins(f, nunits);
      hide OkBut, Searching, Covered, IsTail, NoneFits, Small, Granted;
      var p := mem[prevp].ptr;
      ghost var c: nat := if f + 1 < |list| then f + 1 else 0;
      ghost var grown, fits: nat := false, 0;
      while true
        invariant Valid() && Searching(f, c, prevp, p, nunits) && freep.Some? && p in mem
        invariant live == old(live) && Kept(old(blocks), live) && old(brk) <= brk
        invariant forall u {:trigger Covered(blocks, u)} :: Covered(blocks, u) <==> Covered(old(blocks), u) || old(brk) <= u < brk
        invariant grown ==> NoneFits(old(blocks), old(live), nunits)
        invariant if grown then old(brk) < brk && fits < |list| && !Small(fits, nunits) && nunits * HEADER_BYTES < 0x8000_0000
                  else blocks == old(blocks) && brk == old(brk)
        decreases if grown then 0 else 1, Ahead(f, c, |list|)
      {
        if mem[p].size >= nunits {
          LargeEnough(f, c, prevp, p, nunits);
          ghost var was := blocks;
          var a := Allot(prevp, p, nunits, f, c);
          assert forall u {:trigger Covered(blocks, u)} :: Covered(blocks, u) <==> Covered(was, u);
          return Some(a), false;
        }
        if Some(p) == freep {
          var q, lost;
          q, lost, f, c, fits := Refill(f, c, prevp, p, nunits);
          if q.None? {
            return None, lost;
          }
          p := q.value;
          grown := true;
        } else {
          SearchOn(f, c, prevp, p, nunits);
          c := if c + 1 < |list| then c + 1 else 0;
        }
        prevp := p;
        p := mem[p].ptr;
      }
    }

    /** So a request that a block is large enough for is below 2 GB. */
    lemma {:induction false} LargeEnough(f: nat, c: nat, prevp: int, p: int, nunits: nat)
      requires Valid() && Searching(f, c, prevp, p, nunits) && mem[p].size >= nunits
      ensures nunits * HEADER_BYTES < 0x8000_0000
    {
      NoneSoLarge(c);
    }

    /** The first call makes a list of the empty block alone. */
    method FirstCall()
      requires Valid()
      modifies this`mem, this`freep, this`list
      ensures Valid() && freep.Some? && Ok(mem, list, blocks, live, brk)
    {
      if freep.None? {
        mem := mem[BASE := Header(BASE, 0)];
        freep := Some(BASE);
        list := [BASE];
        assert LinkOk(mem, list, 0);
      }
    }

    /** A program writes into its own block, behind the header. */
    method Use(a: int, u: int, h: Header)
      requires Valid() && freep.Some? && a in live && a in blocks && a < u < a + blocks[a]
      modifies this`mem
      ensures Valid()
    {
      UseOk(mem, list, blocks, live, brk, a, u, h);
      mem := mem[u := h];
    }
  }
}
