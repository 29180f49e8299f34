/** Two-level page tables over a pool of physical frames, and what a well-formed state of both is: every frame is free
    or belongs to exactly one place in exactly one page directory.
 */
module VmShape {

  const PGSIZE := 4096
  const ENTRIES := 1024      // entries in a directory or a table
  const USER_DIRS := 512     // directory entries below KERNBASE
  const USER_PAGES := 524288 // pages below KERNBASE
  const KERNBASE := 0x8000_0000

  const PTE_P := 1
  const PTE_W := 2
  const PTE_U := 4

  type Word = x: int | 0 <= x < 0x1_0000_0000
  type Page = s: seq<Word> | |s| == ENTRIES witness seq(ENTRIES, _ => 0)

  function Filled(w: Word): Page { seq(ENTRIES, _ => w) }

  datatype Option<T> = None | Some(value: T)

  // ---------- entries ----------

  predicate Present(e: Word) { e % 2 == 1 }

  /** The frame an entry points to, and its flags. */
  function FrameOf(e: Word): int { e / PGSIZE }

  function FlagsOf(e: Word): int { e % PGSIZE }

  function EntryFor(frame: int, flags: int): int { frame * PGSIZE + flags }

  lemma {:induction false} EntryParts(frame: int, flags: int)
    requires 0 <= frame < 0x10_0000 && 0 <= flags < PGSIZE && flags % 2 == 1
    ensures 0 <= EntryFor(frame, flags) < 0x1_0000_0000
    ensures Present(EntryFor(frame, flags)) && FrameOf(EntryFor(frame, flags)) == frame
            && FlagsOf(EntryFor(frame, flags)) == flags
  {
  }

  // ---------- places for frame numbers ----------

  /** The directory of an address space, a table of it, a user page of it (by page number). */
  datatype Slot = Dir(p: int) | Table(p: int, d: int) | User(p: int, v: int)

  predicate IsSlot(dirs: set<int>, y: Slot) {
    && y.p in dirs
    && (y.Table? ==> 0 <= y.d < ENTRIES) && (y.User? ==> 0 <= y.v < USER_PAGES)
  }

  type Memory = seq<Page>

  ghost predicate Shaped(mem: Memory, dirs: set<int>) {
    |mem| <= 0x10_0000 && forall p :: p in dirs ==> 0 <= p < |mem|
  }

  /** The frame of a table, or -1. */
  function TableOf(mem: Memory, p: int, d: int): int
    requires 0 <= p < |mem| && 0 <= d < ENTRIES
  {
    if Present(mem[p][d]) then FrameOf(mem[p][d]) else -1
  }

  /** The page table entry of a page, 0 without a table. */
  function Pte(mem: Memory, p: int, v: int): Word
    requires 0 <= p < |mem| && 0 <= v < USER_PAGES
  {
    var t := TableOf(mem, p, v / ENTRIES);
    if 0 <= t < |mem| then mem[t][v % ENTRIES] else 0
  }

  /** The frame noted in a place, or -1. */
  function Ref(mem: Memory, dirs: set<int>, y: Slot): int
    requires Shaped(mem, dirs) && IsSlot(dirs, y)
  {
    match y
    case Dir(p) => p
    case Table(p, d) => TableOf(mem, p, d)
    case User(p, v) => var e := Pte(mem, p, v); if Present(e) then FrameOf(e) else -1
  }

  type Owner = map<int, Slot>

  ghost predicate NotedOk(mem: Memory, dirs: set<int>, owner: Owner, y: Slot)
    requires Shaped(mem, dirs) && IsSlot(dirs, y)
  {
    var r := Ref(mem, dirs, y);
    r != -1 ==> r in owner && owner[r] == y
  }

  ghost predicate OwnedOk(mem: Memory, dirs: set<int>, owner: Owner, lo: int, r: int)
    requires Shaped(mem, dirs) && r in owner
  {
    IsSlot(dirs, owner[r]) && Ref(mem, dirs, owner[r]) == r && lo <= r < |mem|
  }

  /** A frame of the pool is free, in some place, or in the hands of the kernel. */
  ghost predicate FreeOk(mem: Memory, free: seq<int>, owner: Owner, held: set<int>, lo: int, f: int) {
    && (f in free <==> lo <= f < |mem| && f !in owner && f !in held)
    && (f in held ==> lo <= f < |mem| && f !in owner)
  }

  ghost predicate Distinct(free: seq<int>) {
    forall i, j :: 0 <= i < j < |free| ==> free[i] != free[j]
  }

  ghost predicate Good(mem: Memory, free: seq<int>, dirs: set<int>, owner: Owner, held: set<int>, lo: int) {
    && 0 < lo && Shaped(mem, dirs) && Distinct(free)
    && (forall y {:trigger NotedOk(mem, dirs, owner, y)} :: IsSlot(dirs, y) ==> NotedOk(mem, dirs, owner, y))
    && (forall r {:trigger OwnedOk(mem, dirs, owner, lo, r)} :: r in owner ==> OwnedOk(mem, dirs, owner, lo, r))
    && (forall f {:trigger FreeOk(mem, free, owner, held, lo, f)} :: FreeOk(mem, free, owner, held, lo, f))
  }

  // ---------- the flat map ----------

  datatype UserPage = UserPage(flags: int, data: Page)

  /** What an address space shows at a page: flags and contents. */
  function View(mem: Memory, p: int, v: int): Option<UserPage>
    requires 0 <= p < |mem| && 0 <= v < USER_PAGES
  {
    var e := Pte(mem, p, v);
    if Present(e) && 0 <= FrameOf(e) < |mem| then Some(UserPage(FlagsOf(e), mem[FrameOf(e)])) else None
  }

  ghost predicate InRange(dirs: set<int>, p: int, v: int) { p in dirs && 0 <= v < USER_PAGES }

  /** The page has the same entry and shows the same. */
  ghost predicate Same(mem: Memory, mem': Memory, q: int, v: int)
    requires 0 <= q < |mem| && 0 <= q < |mem'| && 0 <= v < USER_PAGES
  {
    Pte(mem', q, v) == Pte(mem, q, v) && View(mem', q, v) == View(mem, q, v)
  }

  /** Every page of every address space is the same, but for the pages v of p, lo <= v < hi. */
  ghost predicate SameBut(mem: Memory, mem': Memory, dirs: set<int>, p: int, lo: int, hi: int)
    requires Shaped(mem, dirs) && Shaped(mem', dirs)
  {
    forall q, v {:trigger Same(mem, mem', q, v)} :: InRange(dirs, q, v) && !(q == p && lo <= v < hi) ==> Same(mem, mem', q, v)
  }

  lemma {:induction false} SameTwice(a: Memory, b: Memory, c: Memory, dirs: set<int>, p: int, lo: int, hi: int)
    requires Shaped(a, dirs) && Shaped(b, dirs) && Shaped(c, dirs)
    requires SameBut(a, b, dirs, p, lo, hi) && SameBut(b, c, dirs, p, lo, hi)
    ensures SameBut(a, c, dirs, p, lo, hi)
  {
    hide Pte, View;
    forall q, v {:trigger Same(a, c, q, v)} | InRange(dirs, q, v) && !(q == p && lo <= v < hi)
      ensures Same(a, c, q, v)
    {
      assert Same(a, b, q, v) && Same(b, c, q, v);
    }
  }

  /** Less may change. */
  lemma {:induction false} SameWider(a: Memory, b: Memory, dirs: set<int>, p: int, lo: int, hi: int, p': int, lo': int, hi': int)
    requires Shaped(a, dirs) && Shaped(b, dirs) && SameBut(a, b, dirs, p, lo, hi)
    requires lo >= hi || (p == p' && lo' <= lo && hi <= hi')
    ensures SameBut(a, b, dirs, p', lo', hi')
  {
    hide Same;
  }

  // ---------- consequences ----------

  lemma {:induction false} RefsDistinct(mem: Memory, free: seq<int>, dirs: set<int>, owner: Owner, held: set<int>, lo: int,
                                        y: Slot, z: Slot)
    requires Good(mem, free, dirs, owner, held, lo) && IsSlot(dirs, y) && IsSlot(dirs, z) && y != z && Ref(mem, dirs, y) != -1
    ensures Ref(mem, dirs, y) != Ref(mem, dirs, z)
  {
    assert NotedOk(mem, dirs, owner, y) && NotedOk(mem, dirs, owner, z);
  }

  lemma {:induction false} RefOwned(mem: Memory, free: seq<int>, dirs: set<int>, owner: Owner, held: set<int>, lo: int, y: Slot)
    requires Good(mem, free, dirs, owner, held, lo) && IsSlot(dirs, y) && Ref(mem, dirs, y) != -1
    ensures var r := Ref(mem, dirs, y); 0 < lo <= r < |mem| && r in owner && owner[r] == y && r !in free && r !in held
  {
    var r := Ref(mem, dirs, y);
    assert NotedOk(mem, dirs, owner, y) && OwnedOk(mem, dirs, owner, lo, r) && FreeOk(mem, free, owner, held, lo, r);
  }

  /** The tables of an address space are frames of its own. */
  lemma {:induction false} TableOwned(mem: Memory, free: seq<int>, dirs: set<int>, owner: Owner, held: set<int>, lo: int, p: int, d: int)
    requires Good(mem, free, dirs, owner, held, lo) && p in dirs && 0 <= d < ENTRIES && TableOf(mem, p, d) != -1
    ensures var t := TableOf(mem, p, d); 0 < lo <= t < |mem| && t in owner && owner[t] == Table(p, d) && t !in held && t !in dirs
  {
    RefOwned(mem, free, dirs, owner, held, lo, Table(p, d));
    var t := TableOf(mem, p, d);
    if t in dirs {
      RefOwned(mem, free, dirs, owner, held, lo, Dir(t));
    }
  }
}
