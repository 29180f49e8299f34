/** The storage allocator of section 8.7 of Kernighan and Ritchie, "The C Programming Language", second edition:
    free blocks in one circular list in address order, first fit from a roving pointer, neighbours merged on free.

    An address is a number of header-sized units. A block is a header and the units behind it.
 */
module Allocator {

  datatype Option<T> = None | Some(value: T)

  // union header
  datatype Header = Header(ptr: int, size: nat)

  type Memory = map<int, Header>

  // &base, an empty block below the heap that is always on the list
  const BASE := 0
  const HEADER_BYTES := 8
  const UINT := 0x1_0000_0000

  // ---------- the list ----------

  function Next(list: seq<int>, i: nat): int
    requires i < |list|
  {
    if i + 1 < |list| then list[i + 1] else list[0]
  }

  ghost predicate LinkOk(mem: Memory, list: seq<int>, i: nat)
    requires i < |list|
  {
    list[i] in mem && mem[list[i]].ptr == Next(list, i)
  }

  ghost predicate Ascending(list: seq<int>) {
    forall i, j :: 0 <= i < j < |list| ==> list[i] < list[j]
  }

  /** One circle, in address order, through base. */
  ghost predicate Circular(mem: Memory, list: seq<int>) {
    && list != [] && list[0] == BASE && Ascending(list)
    && forall i {:trigger LinkOk(mem, list, i)} :: 0 <= i < |list| ==> LinkOk(mem, list, i)
  }

  /** The i-th block ends before the next begins: two free blocks are never adjacent. */
  ghost predicate GapOk(mem: Memory, list: seq<int>, i: nat) {
    i + 1 < |list| && list[i] in mem && list[i] + mem[list[i]].size < list[i + 1]
  }

  /** But for the blocks in `loose`, which may touch the next free one, as happens while a block is being put back. */
  ghost predicate Gaps(mem: Memory, list: seq<int>, loose: set<int>) {
    forall i {:trigger GapOk(mem, list, i)} :: 0 <= i && i + 1 < |list| && list[i] !in loose ==> GapOk(mem, list, i)
  }

  // ---------- the blocks ----------

  /** Start and size of every block, free or in use. */
  type Blocks = map<int, nat>

  ghost predicate Before(blocks: Blocks, a: int, b: int)
    requires a in blocks
  {
    a + blocks[a] <= b
  }

  ghost predicate BlockOk(mem: Memory, blocks: Blocks, brk: int, a: int)
    requires a in blocks
  {
    BASE < a && blocks[a] >= 1 && a + blocks[a] <= brk && a in mem && mem[a].size == blocks[a]
  }

  ghost predicate FreeOk(list: seq<int>, blocks: Blocks, live: set<int>, a: int) {
    a in list && a != BASE <==> a in blocks && a !in live
  }

  /** No two blocks overlap. */
  ghost predicate Apart(blocks: Blocks) {
    forall a, b {:trigger Before(blocks, a, b)} :: a in blocks && b in blocks && a < b ==> Before(blocks, a, b)
  }

  ghost predicate AllBlocks(mem: Memory, blocks: Blocks, brk: int) {
    forall a {:trigger BlockOk(mem, blocks, brk, a)} :: a in blocks ==> BlockOk(mem, blocks, brk, a)
  }

  /** The list holds exactly the free blocks. */
  ghost predicate ListsFree(list: seq<int>, blocks: Blocks, live: set<int>) {
    forall a {:trigger FreeOk(list, blocks, live, a)} :: FreeOk(list, blocks, live, a)
  }

  ghost predicate OkBut(mem: Memory, list: seq<int>, blocks: Blocks, live: set<int>, brk: int, loose: set<int>) {
    && Circular(mem, list) && BASE in mem && mem[BASE].size == 0 && BASE < brk && live <= blocks.Keys
    && Gaps(mem, list, loose) && AllBlocks(mem, blocks, brk) && Apart(blocks) && ListsFree(list, blocks, live)
  }

  ghost predicate Ok(mem: Memory, list: seq<int>, blocks: Blocks, live: set<int>, brk: int) {
    OkBut(mem, list, blocks, live, brk, {})
  }

  /** A unit lies in some block. */
  ghost predicate Covered(blocks: Blocks, u: int) {
    exists a :: a in blocks && a <= u < a + blocks[a]
  }

  ghost predicate SameUnits(blocks: Blocks, blocks': Blocks) {
    forall u {:trigger Covered(blocks', u)} :: Covered(blocks', u) <==> Covered(blocks, u)
  }

  // ---------- lists with one element changed ----------

  /** The place of an address in the list: the last element below it. */
  ghost predicate Slot(list: seq<int>, i: nat, bp: int) {
    i < |list| && list[i] < bp && (i + 1 < |list| ==> bp < list[i + 1])
  }

  lemma {:induction false} HasSlot(list: seq<int>, bp: int) returns (i: nat)
    requires list != [] && Ascending(list) && list[0] < bp && bp !in list
    ensures Slot(list, i, bp)
  {
    i := 0;
    while i + 1 < |list| && list[i + 1] < bp
      invariant i < |list| && list[i] < bp
    {
      i := i + 1;
    }
    assert i + 1 < |list| ==> list[i + 1] in list;
  }

  function Inserted(list: seq<int>, i: nat, bp: int): seq<int>
    requires i < |list|
  {
    list[..i + 1] + [bp] + list[i + 1..]
  }

  function Dropped(list: seq<int>, k: nat): seq<int>
    requires k < |list|
  {
    list[..k] + list[k + 1..]
  }

  /** A block on the list is a block, and the one before it is on the list. */
  lemma {:induction false} ListBlock(mem: Memory, list: seq<int>, blocks: Blocks, live: set<int>, brk: int, loose: set<int>, i: nat)
    requires OkBut(mem, list, blocks, live, brk, loose) && i < |list|
    ensures LinkOk(mem, list, i)
    ensures i > 0 ==> list[i] in blocks && list[i] !in live && BlockOk(mem, blocks, brk, list[i])
  {
    assert LinkOk(mem, list, i) && FreeOk(list, blocks, live, list[i]);
    assert i > 0 ==> list[0] < list[i];
    assert i > 0 ==> BlockOk(mem, blocks, brk, list[i]);
  }

  // ---------- free ----------

  /** Putting a block on the list, before it is merged with its neighbours. */
  function PutBack(mem: Memory, p: int, bp: int): Memory
    requires p in mem && bp in mem
  {
    mem[bp := Header(mem[p].ptr, mem[bp].size)][p := Header(bp, mem[p].size)]
  }

  lemma {:induction false} PutBackLinks(mem: Memory, list: seq<int>, i: nat, bp: int)
    requires Circular(mem, list) && Slot(list, i, bp) && bp in mem
    ensures list[i] in mem && Circular(PutBack(mem, list[i], bp), Inserted(list, i, bp))
  {
    assert LinkOk(mem, list, i);
    var mem', list' := PutBack(mem, list[i], bp), Inserted(list, i, bp);
    forall j {:trigger LinkOk(mem', list', j)} | 0 <= j < |list'|
      ensures LinkOk(mem', list', j)
    {
      if j <= i {
        assert LinkOk(mem, list, j);
      } else if j > i + 1 {
        assert LinkOk(mem, list, j - 1);
      }
    }
  }

  lemma {:induction false} PutBackOk(mem: Memory, list: seq<int>, blocks: Blocks, live: set<int>, brk: int, i: nat, bp: int)
    requires Ok(mem, list, blocks, live, brk) && bp in live && Slot(list, i, bp)
    ensures list[i] in mem && bp in mem
    ensures OkBut(PutBack(mem, list[i], bp), Inserted(list, i, bp), blocks, live - {bp}, brk, {list[i], bp})
  {
    assert BlockOk(mem, blocks, brk, bp);
    PutBackLinks(mem, list, i, bp);
    assert LinkOk(mem, list, i);
    var mem', list', live' := PutBack(mem, list[i], bp), Inserted(list, i, bp), live - {bp};
    forall j {:trigger GapOk(mem', list', j)} | 0 <= j && j + 1 < |list'| && list'[j] !in {list[i], bp}
      ensures GapOk(mem', list', j)
    {
      assert GapOk(mem, list, if j < i then j else j - 1);
    }
    forall a {:trigger BlockOk(mem', blocks, brk, a)} | a in blocks
      ensures BlockOk(mem', blocks, brk, a)
    {
      assert BlockOk(mem, blocks, brk, a);
    }
    forall a {:trigger FreeOk(list', blocks, live', a)}
      ensures FreeOk(list', blocks, live', a)
    {
      assert FreeOk(list, blocks, live, a);
      assert a in list' <==> a in list || a == bp;
    }
  }

  // ---------- merging ----------

  function Merged(mem: Memory, a: int, b: int): Memory
    requires a in mem && b in mem
  {
    mem[a := Header(mem[b].ptr, mem[a].size + mem[b].size)]
  }

  function MergedBlocks(blocks: Blocks, a: int, b: int): Blocks
    requires a in blocks && b in blocks
  {
    (blocks - {b})[a := blocks[a] + blocks[b]]
  }

  lemma {:induction false} MergeLinks(mem: Memory, list: seq<int>, k: nat)
    requires Circular(mem, list) && k + 1 < |list|
    ensures list[k] in mem && list[k + 1] in mem && Circular(Merged(mem, list[k], list[k + 1]), Dropped(list, k + 1))
  {
    assert LinkOk(mem, list, k) && LinkOk(mem, list, k + 1);
    var mem', list' := Merged(mem, list[k], list[k + 1]), Dropped(list, k + 1);
    forall j {:trigger LinkOk(mem', list', j)} | 0 <= j < |list'|
      ensures LinkOk(mem', list', j)
    {
      assert LinkOk(mem, list, if j <= k then j else j + 1);
    }
  }

  lemma {:induction false} MergeGaps(mem: Memory, list: seq<int>, loose: set<int>, k: nat)
    requires Ascending(list) && Gaps(mem, list, loose) && k + 1 < |list| && list[k] in mem && list[k + 1] in mem
    requires list[k] + mem[list[k]].size == list[k + 1] && list[k + 1] !in loose
    ensures Gaps(Merged(mem, list[k], list[k + 1]), Dropped(list, k + 1), loose - {list[k]})
  {
    var mem', list', loose' := Merged(mem, list[k], list[k + 1]), Dropped(list, k + 1), loose - {list[k]};
    forall j {:trigger GapOk(mem', list', j)} | 0 <= j && j + 1 < |list'| && list'[j] !in loose'
      ensures GapOk(mem', list', j)
    {
      var i := if j < k then j else j + 1;
      assert (i < k ==> list[i] < list[k]) && (k < i ==> list[k] < list[i]);
      assert list[i] !in loose && GapOk(mem, list, i) && list'[j + 1] == list[i + 1];
    }
  }

  /** Merging a free block with the next free block, which it touches. */
  lemma {:induction false} MergeOk(mem: Memory, list: seq<int>, blocks: Blocks, live: set<int>, brk: int, loose: set<int>, k: nat)
    requires OkBut(mem, list, blocks, live, brk, loose) && 0 < k && k + 1 < |list|
    requires list[k] in mem && list[k] + mem[list[k]].size == list[k + 1] && list[k + 1] !in loose
    ensures list[k] in blocks && list[k + 1] in blocks && list[k + 1] in mem
    ensures var blocks' := MergedBlocks(blocks, list[k], list[k + 1]);
            && OkBut(Merged(mem, list[k], list[k + 1]), Dropped(list, k + 1), blocks', live, brk, loose - {list[k]})
            && SameUnits(blocks, blocks') && forall x :: x in live ==> blocks'[x] == blocks[x]
  {
    ListBlock(mem, list, blocks, live, brk, loose, k);
    ListBlock(mem, list, blocks, live, brk, loose, k + 1);
    MergeLinks(mem, list, k);
    var a, b := list[k], list[k + 1];
    var mem', list', blocks', loose' := Merged(mem, a, b), Dropped(list, k + 1), MergedBlocks(blocks, a, b), loose - {a};
    MergeGaps(mem, list, loose, k);
    forall x {:trigger BlockOk(mem', blocks', brk, x)} | x in blocks'
      ensures BlockOk(mem', blocks', brk, x)
    {
      assert BlockOk(mem, blocks, brk, x);
    }
    MergeApart(blocks, a, b);
    forall x {:trigger FreeOk(list', blocks', live, x)}
      ensures FreeOk(list', blocks', live, x)
    {
      assert FreeOk(list, blocks, live, x);
      DroppedMembers(list, k + 1, x);
    }
  }

  lemma {:induction false} DroppedMembers(list: seq<int>, k: nat, x: int)
    requires k < |list| && Ascending(list)
    ensures x in Dropped(list, k) <==> x in list && x != list[k]
  {
    if x in list && x != list[k] {
      var j :| 0 <= j < |list| && list[j] == x;
      assert Dropped(list, k)[if j < k then j else j - 1] == x;
    }
    if x in Dropped(list, k) {
      var j :| 0 <= j < |Dropped(list, k)| && Dropped(list, k)[j] == x;
      var i := if j < k then j else j + 1;
      assert list[i] == x && (i < k ==> list[i] < list[k]) && (k < i ==> list[k] < list[i]);
    }
  }

  lemma {:induction false} MergeApart(blocks: Blocks, a: int, b: int)
    requires Apart(blocks) && a in blocks && b in blocks && a + blocks[a] == b && blocks[a] >= 1 && blocks[b] >= 1
    ensures Apart(MergedBlocks(blocks, a, b)) && SameUnits(blocks, MergedBlocks(blocks, a, b))
  {
    var blocks' := MergedBlocks(blocks, a, b);
    forall x, y {:trigger Before(blocks', x, y)} | x in blocks' && y in blocks' && x < y
      ensures Before(blocks', x, y)
    {
      assert Before(blocks, x, y);
      assert x == a ==> Before(blocks, a, y) && (y > b ==> Before(blocks, b, y));
    }
    forall u {:trigger Covered(blocks', u)}
      ensures Covered(blocks', u) <==> Covered(blocks, u)
    {
      if Covered(blocks, u) {
        var x :| x in blocks && x <= u < x + blocks[x];
        var y := if x == b then a else x;
        assert y in blocks' && y <= u < y + blocks'[y];
      }
      if Covered(blocks', u) {
        var x :| x in blocks' && x <= u < x + blocks'[x];
        var y := if x == a && u >= b then b else x;
        assert y in blocks && y <= u < y + blocks[y];
      }
    }
  }

  /** A block that does not touch the next free one is no longer loose. */
  lemma {:induction false} Tightened(mem: Memory, list: seq<int>, blocks: Blocks, live: set<int>, brk: int, loose: set<int>, k: nat)
    requires OkBut(mem, list, blocks, live, brk, loose) && k < |list|
    requires list[k] in mem && (k + 1 < |list| ==> list[k] + mem[list[k]].size != list[k + 1])
    ensures OkBut(mem, list, blocks, live, brk, loose - {list[k]})
  {
    ListBlock(mem, list, blocks, live, brk, loose, k);
    if k + 1 < |list| {
      ListBlock(mem, list, blocks, live, brk, loose, k + 1);
      assert list[k] < list[k + 1];
      assert k > 0 ==> Before(blocks, list[k], list[k + 1]);
    }
    forall j {:trigger GapOk(mem, list, j)} | 0 <= j && j + 1 < |list| && list[j] !in loose - {list[k]}
      ensures GapOk(mem, list, j)
    {
      assert j != k ==> list[j] !in loose;
    }
  }

  /** The header writes of free, with p in front of the block bp. */
  function JoinNext(mem: Memory, p: int, bp: int): Memory
    requires p in mem && bp in mem && mem[p].ptr in mem
  {
    var n := mem[p].ptr;
    if bp + mem[bp].size == n then mem[bp := Header(mem[n].ptr, mem[bp].size + mem[n].size)]
    else mem[bp := Header(n, mem[bp].size)]
  }

  function JoinPrev(mem: Memory, p: int, bp: int): Memory
    requires p in mem && bp in mem
  {
    if p + mem[p].size == bp then mem[p := Header(mem[bp].ptr, mem[p].size + mem[bp].size)]
    else mem[p := Header(bp, mem[p].size)]
  }

  /** After the first step, were p to point at bp, bp is on the list, merged with the block behind it if it touches it. */
  lemma {:induction false} NextJoined(mem: Memory, list: seq<int>, blocks: Blocks, live: set<int>, brk: int, i: nat, bp: int)
      returns (list': seq<int>, blocks': Blocks)
    requires Ok(mem, list, blocks, live, brk) && bp in live && Slot(list, i, bp)
    ensures list[i] in mem && bp in mem && mem[list[i]].ptr in mem && bp in blocks
    ensures i + 1 < |list'| && list'[i] == list[i] && list'[i + 1] == bp
    ensures var p := list[i];
            var m := JoinNext(mem, p, bp);
            && OkBut(m[p := Header(bp, m[p].size)], list', blocks', live - {bp}, brk, {p})
            && SameUnits(blocks, blocks') && (forall x :: x in live - {bp} ==> x in blocks && blocks'[x] == blocks[x])
            && bp in blocks' && blocks'[bp] >= blocks[bp]
  {
    PutBackOk(mem, list, blocks, live, brk, i, bp);
    SlotNeighbours(mem, list, blocks, live, brk, i, bp);
    var p, n := list[i], mem[list[i]].ptr;
    var m1, l1 := PutBack(mem, p, bp), Inserted(list, i, bp);
    assert l1[i] == p && l1[i + 1] == bp && (i + 2 < |l1| ==> l1[i + 2] == n);
    JoinNextIs(mem, p, bp);
    assert {p, bp} - {bp} == {p} && m1[bp].size == mem[bp].size;
    hide OkBut, JoinNext, PutBack, Inserted, Slot;
    if bp + mem[bp].size == n {
      MergeOk(m1, l1, blocks, live - {bp}, brk, {p, bp}, i + 1);
      list', blocks' := Dropped(l1, i + 2), MergedBlocks(blocks, bp, n);
    } else {
      Tightened(m1, l1, blocks, live - {bp}, brk, {p, bp}, i + 1);
      list', blocks' := l1, blocks;
    }
  }

  lemma {:induction false} SlotNeighbours(mem: Memory, list: seq<int>, blocks: Blocks, live: set<int>, brk: int, i: nat, bp: int)
    requires Ok(mem, list, blocks, live, brk) && bp in live && Slot(list, i, bp)
    ensures bp in blocks && bp in mem && list[i] in mem && mem[list[i]].ptr in mem && mem[bp].size == blocks[bp] >= 1
    ensures mem[list[i]].ptr == (if i + 1 < |list| then list[i + 1] else BASE)
    ensures bp + mem[bp].size == mem[list[i]].ptr ==> i + 1 < |list| && bp < mem[list[i]].ptr
  {
    assert BlockOk(mem, blocks, brk, bp) && LinkOk(mem, list, i);
    assert i + 1 < |list| ==> LinkOk(mem, list, i + 1);
  }

  lemma {:induction false} JoinNextIs(mem: Memory, p: int, bp: int)
    requires p in mem && bp in mem && mem[p].ptr in mem && p < bp
    requires bp + mem[bp].size == mem[p].ptr ==> bp < mem[p].ptr
    ensures var m, m1, n := JoinNext(mem, p, bp), PutBack(mem, p, bp), mem[p].ptr;
            m[p := Header(bp, m[p].size)] == if bp + mem[bp].size == n then Merged(m1, bp, n) else m1
  {
  }

  /** free puts a block in use back on the list, merged with what it touches. */
  lemma {:induction false} FreedOk(mem: Memory, list: seq<int>, blocks: Blocks, live: set<int>, brk: int, i: nat, bp: int)
      returns (list': seq<int>, blocks': Blocks, k: nat)
    requires Ok(mem, list, blocks, live, brk) && bp in live && Slot(list, i, bp)
    ensures list[i] in mem && bp in mem && mem[list[i]].ptr in mem && bp in blocks
    ensures var p := list[i];
            var m := JoinPrev(JoinNext(mem, p, bp), p, bp);
            && Ok(m, list', blocks', live - {bp}, brk) && p in list'
            && SameUnits(blocks, blocks') && (forall x :: x in live - {bp} ==> x in blocks && blocks'[x] == blocks[x])
            && k < |list'| && list'[k] in m && m[list'[k]].size >= blocks[bp]
  {
    var l, b := NextJoined(mem, list, blocks, live, brk, i, bp);
    var p, c := list[i], JoinNext(mem, list[i], bp);
    var m1 := c[p := Header(bp, c[p].size)];
    ListBlock(m1, l, b, live - {bp}, brk, {p}, i);
    ListBlock(m1, l, b, live - {bp}, brk, {p}, i + 1);
    assert m1[BASE].size == 0 && l[0] == BASE;
    hide OkBut, JoinNext;
    var m := JoinPrev(c, p, bp);
    if p + c[p].size == bp {
      MergeOk(m1, l, b, live - {bp}, brk, {p}, i);
      list', blocks', k := Dropped(l, i + 1), MergedBlocks(b, p, bp), i;
      assert m == Merged(m1, p, bp);
      assert list'[i] == p;
    } else {
      Tightened(m1, l, b, live - {bp}, brk, {p}, i);
      list', blocks', k := l, b, i + 1;
      assert m == m1;
    }
    assert {p} - {p} == {};
    assert SameUnits(blocks, blocks') by {
      assert SameUnits(blocks, b) && SameUnits(b, blocks');
      SameUnitsTwice(blocks, b, blocks');
    }
  }

  lemma {:induction false} SameUnitsTwice(a: Blocks, b: Blocks, c: Blocks)
    requires SameUnits(a, b) && SameUnits(b, c)
    ensures SameUnits(a, c)
  {
    hide Covered;
    forall u {:trigger Covered(c, u)}
      ensures Covered(c, u) <==> Covered(a, u)
    {
      assert Covered(b, u) <==> Covered(a, u);
    }
  }

  // ---------- malloc ----------

  lemma {:induction false} TakeLinks(mem: Memory, list: seq<int>, k: nat)
    requires Circular(mem, list) && 0 < k < |list|
    ensures list[k] in mem && list[k - 1] in mem
    ensures Circular(mem[list[k - 1] := Header(mem[list[k]].ptr, mem[list[k - 1]].size)], Dropped(list, k))
  {
    assert LinkOk(mem, list, k) && LinkOk(mem, list, k - 1);
    var mem', list' := mem[list[k - 1] := Header(mem[list[k]].ptr, mem[list[k - 1]].size)], Dropped(list, k);
    forall j {:trigger LinkOk(mem', list', j)} | 0 <= j < |list'|
      ensures LinkOk(mem', list', j)
    {
      assert LinkOk(mem, list, if j < k then j else j + 1);
    }
  }

  lemma {:induction false} TakeGaps(mem: Memory, list: seq<int>, k: nat)
    requires Ascending(list) && Gaps(mem, list, {}) && 0 < k < |list| && list[k] in mem && list[k - 1] in mem
    ensures Gaps(mem[list[k - 1] := Header(mem[list[k]].ptr, mem[list[k - 1]].size)], Dropped(list, k), {})
  {
    var mem', list' := mem[list[k - 1] := Header(mem[list[k]].ptr, mem[list[k - 1]].size)], Dropped(list, k);
    forall j {:trigger GapOk(mem', list', j)} | 0 <= j && j + 1 < |list'|
      ensures GapOk(mem', list', j)
    {
      var i := if j < k then j else j + 1;
      assert list'[j] == list[i] && GapOk(mem, list, i) && list[i + 1] <= list'[j + 1];
    }
  }

  /** Taking a free block as a whole. */
  lemma {:induction false} TakeOk(mem: Memory, list: seq<int>, blocks: Blocks, live: set<int>, brk: int, k: nat)
    requires Ok(mem, list, blocks, live, brk) && 0 < k < |list|
    ensures list[k] in mem && list[k - 1] in mem && list[k] in blocks
    ensures var mem' := mem[list[k - 1] := Header(mem[list[k]].ptr, mem[list[k - 1]].size)];
            Ok(mem', Dropped(list, k), blocks, live + {list[k]}, brk)
  {
    ListBlock(mem, list, blocks, live, brk, {}, k - 1);
    ListBlock(mem, list, blocks, live, brk, {}, k);
    var mem' := mem[list[k - 1] := Header(mem[list[k]].ptr, mem[list[k - 1]].size)];
    var list', live' := Dropped(list, k), live + {list[k]};
    TakeLinks(mem, list, k);
    TakeGaps(mem, list, k);
    forall x {:trigger BlockOk(mem', blocks, brk, x)} | x in blocks
      ensures BlockOk(mem', blocks, brk, x)
    {
      assert BlockOk(mem, blocks, brk, x);
    }
    hide Circular, LinkOk, Gaps, BlockOk;
    forall x {:trigger FreeOk(list', blocks, live', x)}
      ensures FreeOk(list', blocks, live', x)
    {
      assert FreeOk(list, blocks, live, x);
      DroppedMembers(list, k, x);
    }
  }

  /** The tail of a free block, cut off: n units from its end. */
  function Cut(mem: Memory, p: int, n: nat): Memory
    requires p in mem && n < mem[p].size
  {
    var q := p + mem[p].size - n;
    mem[p := Header(mem[p].ptr, mem[p].size - n)][q := Header(if q in mem then mem[q].ptr else 0, n)]
  }

  lemma {:induction false} CutApart(blocks: Blocks, p: int, n: nat)
    requires Apart(blocks) && p in blocks && 0 < n < blocks[p]
    ensures var q := p + blocks[p] - n;
            var blocks' := blocks[p := blocks[p] - n][q := n];
            q !in blocks && Apart(blocks') && SameUnits(blocks, blocks')
  {
    var q := p + blocks[p] - n;
    assert q in blocks ==> Before(blocks, p, q);
    var blocks' := blocks[p := blocks[p] - n][q := n];
    forall x, y {:trigger Before(blocks', x, y)} | x in blocks' && y in blocks' && x < y
      ensures Before(blocks', x, y)
    {
      assert x != q && y != q ==> Before(blocks, x, y);
      assert x == q && y != p ==> Before(blocks, p, y);
      assert y == q && x != p ==> x < p ==> Before(blocks, x, p);
      assert y == q && x != p && x > p ==> Before(blocks, p, x);
    }
    forall u {:trigger Covered(blocks', u)}
      ensures Covered(blocks', u) <==> Covered(blocks, u)
    {
      if Covered(blocks, u) {
        var x :| x in blocks && x <= u < x + blocks[x];
        var y := if x == p && u >= q then q else x;
        assert y in blocks' && y <= u < y + blocks'[y];
      }
      if Covered(blocks', u) {
        var x :| x in blocks' && x <= u < x + blocks'[x];
        var y := if x == q then p else x;
        assert y in blocks && y <= u < y + blocks[y];
      }
    }
  }

  lemma {:induction false} CutOk(mem: Memory, list: seq<int>, blocks: Blocks, live: set<int>, brk: int, k: nat, n: nat)
    requires Ok(mem, list, blocks, live, brk) && 0 < k < |list| && list[k] in mem && 0 < n < mem[list[k]].size
    ensures list[k] in blocks && mem[list[k]].size == blocks[list[k]]
    ensures var p := list[k];
            var q := p + blocks[p] - n;
            var blocks' := blocks[p := blocks[p] - n][q := n];
            && Ok(Cut(mem, p, n), list, blocks', live + {q}, brk)
            && q !in blocks && SameUnits(blocks, blocks') && forall x :: x in live ==> blocks'[x] == blocks[x]
  {
    ListBlock(mem, list, blocks, live, brk, {}, k);
    var p := list[k];
    var q := p + blocks[p] - n;
    var blocks', mem', live' := blocks[p := blocks[p] - n][q := n], Cut(mem, p, n), live + {q};
    CutApart(blocks, p, n);
    assert FreeOk(list, blocks, live, q);
    forall j {:trigger LinkOk(mem', list, j)} | 0 <= j < |list|
      ensures LinkOk(mem', list, j)
    {
      assert LinkOk(mem, list, j);
    }
    forall j {:trigger GapOk(mem', list, j)} | 0 <= j && j + 1 < |list|
      ensures GapOk(mem', list, j)
    {
      assert GapOk(mem, list, j);
    }
    forall x {:trigger BlockOk(mem', blocks', brk, x)} | x in blocks'
      ensures BlockOk(mem', blocks', brk, x)
    {
      assert x != q ==> BlockOk(mem, blocks, brk, x);
    }
    forall x {:trigger FreeOk(list, blocks', live', x)}
      ensures FreeOk(list, blocks', live', x)
    {
      assert FreeOk(list, blocks, live, x);
    }
  }

  // ---------- sbrk ----------

  /** Fresh units from the system, made to look like a block in use. */
  lemma {:induction false} GrowOk(mem: Memory, list: seq<int>, blocks: Blocks, live: set<int>, brk: int, brk': int, n: nat, h: Header)
    requires Ok(mem, list, blocks, live, brk) && n > 0 && h.size == n && brk' >= brk
    ensures Ok(mem[brk' := h], list, blocks[brk' := n], live + {brk'}, brk' + n) && brk' !in blocks && brk' !in list
    ensures forall u {:trigger Covered(blocks[brk' := n], u)} ::
              Covered(blocks[brk' := n], u) <==> Covered(blocks, u) || brk' <= u < brk' + n
  {
    var mem', blocks', live' := mem[brk' := h], blocks[brk' := n], live + {brk'};
    assert brk' in blocks ==> BlockOk(mem, blocks, brk, brk');
    assert FreeOk(list, blocks, live, brk');
    forall j {:trigger LinkOk(mem', list, j)} | 0 <= j < |list|
      ensures LinkOk(mem', list, j)
    {
      assert LinkOk(mem, list, j);
    }
    forall j {:trigger GapOk(mem', list, j)} | 0 <= j && j + 1 < |list|
      ensures GapOk(mem', list, j)
    {
      assert GapOk(mem, list, j);
    }
    forall x {:trigger BlockOk(mem', blocks', brk' + n, x)} | x in blocks'
      ensures BlockOk(mem', blocks', brk' + n, x)
    {
      assert x != brk' ==> BlockOk(mem, blocks, brk, x);
    }
    forall x, y {:trigger Before(blocks', x, y)} | x in blocks' && y in blocks' && x < y
      ensures Before(blocks', x, y)
    {
      assert x != brk' ==> BlockOk(mem, blocks, brk, x);
      assert y != brk' ==> BlockOk(mem, blocks, brk, y);
      assert x != brk' && y != brk' ==> Before(blocks, x, y);
    }
    forall x {:trigger FreeOk(list, blocks', live', x)}
      ensures FreeOk(list, blocks', live', x)
    {
      assert FreeOk(list, blocks, live, x);
    }
    forall u {:trigger Covered(blocks', u)}
      ensures Covered(blocks', u) <==> Covered(blocks, u) || brk' <= u < brk' + n
    {
      if Covered(blocks, u) {
        var x :| x in blocks && x <= u < x + blocks[x];
        assert x in blocks' && blocks'[x] == blocks[x];
      }
      if brk' <= u < brk' + n {
        assert blocks'[brk'] == n;
      }
    }
  }

  /** What a program writes into its own block, behind the header, does not matter. */
  lemma {:induction false} UseOk(mem: Memory, list: seq<int>, blocks: Blocks, live: set<int>, brk: int, a: int, u: int, h: Header)
    requires Ok(mem, list, blocks, live, brk) && a in live && a < u < a + blocks[a]
    ensures Ok(mem[u := h], list, blocks, live, brk)
  {
    var mem' := mem[u := h];
    assert BlockOk(mem, blocks, brk, a) && FreeOk(list, blocks, live, u);
    assert u in blocks ==> Before(blocks, a, u);
    forall j {:trigger LinkOk(mem', list, j)} | 0 <= j < |list|
      ensures LinkOk(mem', list, j)
    {
      assert LinkOk(mem, list, j);
    }
    forall j {:trigger GapOk(mem', list, j)} | 0 <= j && j + 1 < |list|
      ensures GapOk(mem', list, j)
    {
      assert GapOk(mem, list, j);
    }
    forall x {:trigger BlockOk(mem', blocks, brk, x)} | x in blocks
      ensures BlockOk(mem', blocks, brk, x)
    {
      assert BlockOk(mem, blocks, brk, x);
    }
  }
}
