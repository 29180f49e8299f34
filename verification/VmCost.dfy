/** How many frames it takes to map pages: one for each page, and one for each page table that is not there yet. */
module VmCost {
  import opened VmShape

  /** Page v is the first of its table among the pages from `from` on. */
  predicate OpensTable(from: int, v: int) { v == from || v % ENTRIES == 0 }

  /** The frames for the pages from..upto of p. */
  function Needed(mem: Memory, p: int, from: int, upto: int): nat
    requires 0 <= p < |mem| && 0 <= from <= upto <= USER_PAGES
    decreases upto
  {
    if upto == from then 0
    else
      Needed(mem, p, from, upto - 1) + 1
      + if OpensTable(from, upto - 1) && TableOf(mem, p, (upto - 1) / ENTRIES) == -1 then 1 else 0
  }

  lemma {:induction false} NeededGrows(mem: Memory, p: int, from: int, k: int, upto: int)
    requires 0 <= p < |mem| && 0 <= from <= k <= upto <= USER_PAGES
    ensures Needed(mem, p, from, k) <= Needed(mem, p, from, upto)
    decreases upto - k
  {
    if k < upto {
      NeededGrows(mem, p, from, k, upto - 1);
    }
  }

  /** An address space without tables needs one for every ENTRIES pages or part of them. */
  lemma {:induction false} NeededEmpty(mem: Memory, p: int, n: int)
    requires 0 <= p < |mem| && 0 <= n <= USER_PAGES
    requires forall e {:trigger TableOf(mem, p, e)} :: 0 <= e < USER_DIRS ==> TableOf(mem, p, e) == -1
    ensures Needed(mem, p, 0, n) == n + (n + ENTRIES - 1) / ENTRIES
  {
    if n > 0 {
      NeededEmpty(mem, p, n - 1);
      assert TableOf(mem, p, (n - 1) / ENTRIES) == -1;
    }
  }

  /** With the pages from..k of p mapped, `left` of `had` frames are still free: of the tables of the memory `was` only
      those of these pages may have been added. */
  ghost predicate Spent(was: Memory, mem: Memory, p: int, from: int, k: int, had: int, left: int) {
    && 0 <= p < |was| && |mem| == |was| && 0 <= from <= k <= USER_PAGES
    && left + Needed(was, p, from, k) == had
    && (forall e {:trigger TableOf(mem, p, e)} :: 0 <= e < USER_DIRS && (k == from || e * ENTRIES >= k) ==>
          TableOf(mem, p, e) == TableOf(was, p, e))
    && (k > from ==> TableOf(mem, p, (k - 1) / ENTRIES) != -1)
  }

  lemma {:induction false} NothingSpent(mem: Memory, p: int, from: int, had: int)
    requires 0 <= p < |mem| && 0 <= from <= USER_PAGES
    ensures Spent(mem, mem, p, from, from, had, had)
  {
  }

  lemma {:induction false} Afforded(was: Memory, mem: Memory, p: int, from: int, k: int, had: int, left: int)
    requires Spent(was, mem, p, from, k, had, left) && left >= 0
    ensures 0 <= p < |was| && 0 <= from <= k <= USER_PAGES && Needed(was, p, from, k) <= had
  {
  }

  function TableCost(mem: Memory, p: int, v: int): nat
    requires 0 <= p < |mem| && 0 <= v < USER_PAGES
  {
    if TableOf(mem, p, v / ENTRIES) == -1 then 1 else 0
  }

  /** What the next page costs. */
  lemma {:induction false} NextCost(was: Memory, mem: Memory, p: int, from: int, k: int, had: int, left: int)
    requires Spent(was, mem, p, from, k, had, left) && k < USER_PAGES
    ensures Needed(was, p, from, k + 1) == Needed(was, p, from, k) + 1 + TableCost(mem, p, k)
  {
    if !OpensTable(from, k) {
      assert k / ENTRIES == (k - 1) / ENTRIES;
    }
  }

  /** The tables of p are the same, but for that of page v, which is there afterwards. */
  ghost predicate TablesBut(mem: Memory, mem': Memory, p: int, v: int) {
    && 0 <= p < |mem| && |mem'| == |mem| && 0 <= v < USER_PAGES
    && TableOf(mem', p, v / ENTRIES) != -1
    && forall e {:trigger TableOf(mem', p, e)} :: 0 <= e < USER_DIRS && e != v / ENTRIES ==> TableOf(mem', p, e) == TableOf(mem, p, e)
  }

  lemma {:induction false} SpentMore(was: Memory, mem: Memory, mem': Memory, p: int, from: int, k: int, had: int, left: int)
    requires Spent(was, mem, p, from, k, had, left) && k < USER_PAGES && TablesBut(mem, mem', p, k)
    ensures Spent(was, mem', p, from, k + 1, had, left - 1 - TableCost(mem, p, k))
  {
    NextCost(was, mem, p, from, k, had, left);
  }

  /** Only the directory says which tables there are. */
  lemma {:induction false} TablesAround(a: Memory, b: Memory, c: Memory, d: Memory, p: int, v: int)
    requires |a| == |b| == |c| == |d| && 0 <= p < |a| && a[p] == b[p] && c[p] == d[p] && TablesBut(b, c, p, v)
    ensures TablesBut(a, d, p, v) && TableCost(a, p, v) == TableCost(b, p, v)
  {
    assert forall e :: 0 <= e < USER_DIRS ==> TableOf(a, p, e) == TableOf(b, p, e) && TableOf(c, p, e) == TableOf(d, p, e);
  }
}
