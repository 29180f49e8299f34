/** The steps that change frames and page tables: each keeps the state well formed and shows in at most one page of one
    address space.
 */
module VmSteps {
  import opened VmShape

  // ---------- the pool ----------

  /** The frame at the head of the free list is taken. */
  lemma {:induction false} Taken(mem: Memory, free: seq<int>, dirs: set<int>, owner: Owner, held: set<int>, lo: int)
    requires Good(mem, free, dirs, owner, held, lo) && free != []
    ensures Good(mem, free[1..], dirs, owner, held + {free[0]}, lo)
    ensures lo <= free[0] < |mem| && free[0] !in held && free[0] !in owner && free[0] !in dirs
  {
    var f := free[0];
    assert FreeOk(mem, free, owner, held, lo, f);
    HeldIsNoDir(mem, free, dirs, owner, held, lo, f);
    forall g {:trigger FreeOk(mem, free[1..], owner, held + {f}, lo, g)}
      ensures FreeOk(mem, free[1..], owner, held + {f}, lo, g)
    {
      assert FreeOk(mem, free, owner, held, lo, g);
      if g in free && g != f {
        var i :| 0 <= i < |free| && free[i] == g;
        assert free[1..][i - 1] == g;
      }
    }
  }

  lemma {:induction false} HeldIsNoDir(mem: Memory, free: seq<int>, dirs: set<int>, owner: Owner, held: set<int>, lo: int, f: int)
    requires Good(mem, free, dirs, owner, held, lo) && f !in owner
    ensures f !in dirs
  {
    if f in dirs {
      RefOwned(mem, free, dirs, owner, held, lo, Dir(f));
    }
  }

  /** A frame in the kernel's hands is put back. */
  lemma {:induction false} GivenBack(mem: Memory, free: seq<int>, dirs: set<int>, owner: Owner, held: set<int>, lo: int, f: int)
    requires Good(mem, free, dirs, owner, held, lo) && f in held
    ensures Good(mem, [f] + free, dirs, owner, held - {f}, lo) && f !in free
  {
    assert FreeOk(mem, free, owner, held, lo, f);
    forall g {:trigger FreeOk(mem, [f] + free, owner, held - {f}, lo, g)}
      ensures FreeOk(mem, [f] + free, owner, held - {f}, lo, g)
    {
      assert FreeOk(mem, free, owner, held, lo, g);
    }
  }

  /** Nothing points into a frame that belongs to nobody. */
  lemma {:induction false} HeldRef(mem: Memory, free: seq<int>, dirs: set<int>, owner: Owner, held: set<int>, lo: int,
                                   f: int, page: Page, y: Slot)
    requires Good(mem, free, dirs, owner, held, lo) && f in held && IsSlot(dirs, y)
    ensures 0 <= f < |mem| && Shaped(mem[f := page], dirs) && Ref(mem[f := page], dirs, y) == Ref(mem, dirs, y)
    ensures y.User? ==> Pte(mem[f := page], y.p, y.v) == Pte(mem, y.p, y.v)
  {
    assert FreeOk(mem, free, owner, held, lo, f);
    HeldIsNoDir(mem, free, dirs, owner, held, lo, f);
    if y.User? && TableOf(mem, y.p, y.v / ENTRIES) != -1 {
      TableOwned(mem, free, dirs, owner, held, lo, y.p, y.v / ENTRIES);
    }
    hide Good;
  }

  /** Filling a frame that belongs to nobody. */
  lemma {:induction false} HeldWritten(mem: Memory, free: seq<int>, dirs: set<int>, owner: Owner, held: set<int>, lo: int,
                                       f: int, page: Page)
    requires Good(mem, free, dirs, owner, held, lo) && f in held
    ensures 0 <= f < |mem| && Good(mem[f := page], free, dirs, owner, held, lo)
    ensures SameBut(mem, mem[f := page], dirs, 0, 0, 0)
  {
    assert FreeOk(mem, free, owner, held, lo, f);
    HeldIsNoDir(mem, free, dirs, owner, held, lo, f);
    var mem' := mem[f := page];
    forall y {:trigger Ref(mem', dirs, y)} | IsSlot(dirs, y)
      ensures Ref(mem', dirs, y) == Ref(mem, dirs, y)
    {
      HeldRef(mem, free, dirs, owner, held, lo, f, page, y);
    }
    SameRefsGood(mem, free, dirs, owner, held, lo, mem');
    forall q, v {:trigger Same(mem, mem', q, v)} | InRange(dirs, q, v)
      ensures Same(mem, mem', q, v)
    {
      HeldRef(mem, free, dirs, owner, held, lo, f, page, User(q, v));
      if Ref(mem, dirs, User(q, v)) != -1 {
        RefOwned(mem, free, dirs, owner, held, lo, User(q, v));
      }
    }
  }

  // ---------- what a change of places amounts to ----------

  lemma {:induction false} SameRefsGood(mem: Memory, free: seq<int>, dirs: set<int>, owner: Owner, held: set<int>, lo: int, mem': Memory)
    requires Good(mem, free, dirs, owner, held, lo) && |mem'| == |mem|
    requires forall y {:trigger Ref(mem', dirs, y)} :: IsSlot(dirs, y) ==> Ref(mem', dirs, y) == Ref(mem, dirs, y)
    ensures Good(mem', free, dirs, owner, held, lo)
  {
    hide Ref;
    forall y {:trigger NotedOk(mem', dirs, owner, y)} | IsSlot(dirs, y)
      ensures NotedOk(mem', dirs, owner, y)
    {
      assert NotedOk(mem, dirs, owner, y);
    }
    forall r {:trigger OwnedOk(mem', dirs, owner, lo, r)} | r in owner
      ensures OwnedOk(mem', dirs, owner, lo, r)
    {
      assert OwnedOk(mem, dirs, owner, lo, r);
    }
    forall f {:trigger FreeOk(mem', free, owner, held, lo, f)}
      ensures FreeOk(mem', free, owner, held, lo, f)
    {
      assert FreeOk(mem, free, owner, held, lo, f);
    }
  }

  /** A frame in the kernel's hands is noted in an empty place. */
  lemma {:induction false} AddedGood(mem: Memory, free: seq<int>, dirs: set<int>, owner: Owner, held: set<int>, lo: int,
                                     mem': Memory, x: Slot, f: int)
    requires Good(mem, free, dirs, owner, held, lo) && f in held && |mem'| == |mem|
    requires IsSlot(dirs, x) && Ref(mem, dirs, x) == -1
    requires forall y {:trigger Ref(mem', dirs, y)} :: IsSlot(dirs, y) ==> Ref(mem', dirs, y) == if y == x then f else Ref(mem, dirs, y)
    ensures Good(mem', free, dirs, owner[f := x], held - {f}, lo)
  {
    hide Ref;
    var owner', held' := owner[f := x], held - {f};
    assert FreeOk(mem, free, owner, held, lo, f);
    forall y {:trigger NotedOk(mem', dirs, owner', y)} | IsSlot(dirs, y)
      ensures NotedOk(mem', dirs, owner', y)
    {
      assert NotedOk(mem, dirs, owner, y);
    }
    forall r {:trigger OwnedOk(mem', dirs, owner', lo, r)} | r in owner'
      ensures OwnedOk(mem', dirs, owner', lo, r)
    {
      assert r != f ==> OwnedOk(mem, dirs, owner, lo, r);
    }
    forall g {:trigger FreeOk(mem', free, owner', held', lo, g)}
      ensures FreeOk(mem', free, owner', held', lo, g)
    {
      assert FreeOk(mem, free, owner, held, lo, g);
    }
  }

  /** A place is emptied, and its frame is in the kernel's hands. */
  lemma {:induction false} RemovedGood(mem: Memory, free: seq<int>, dirs: set<int>, owner: Owner, held: set<int>, lo: int,
                                       mem': Memory, x: Slot, f: int)
    requires Good(mem, free, dirs, owner, held, lo) && |mem'| == |mem|
    requires IsSlot(dirs, x) && Ref(mem, dirs, x) == f != -1
    requires forall y {:trigger Ref(mem', dirs, y)} :: IsSlot(dirs, y) ==> Ref(mem', dirs, y) == if y == x then -1 else Ref(mem, dirs, y)
    ensures Good(mem', free, dirs, owner - {f}, held + {f}, lo)
  {
    RefOwned(mem, free, dirs, owner, held, lo, x);
    hide Ref;
    var owner', held' := owner - {f}, held + {f};
    forall y {:trigger NotedOk(mem', dirs, owner', y)} | IsSlot(dirs, y)
      ensures NotedOk(mem', dirs, owner', y)
    {
      assert NotedOk(mem, dirs, owner, y);
    }
    forall r {:trigger OwnedOk(mem', dirs, owner', lo, r)} | r in owner'
      ensures OwnedOk(mem', dirs, owner', lo, r)
    {
      assert OwnedOk(mem, dirs, owner, lo, r);
    }
    forall g {:trigger FreeOk(mem', free, owner', held', lo, g)}
      ensures FreeOk(mem', free, owner', held', lo, g)
    {
      assert FreeOk(mem, free, owner, held, lo, g);
    }
  }

  // ---------- a table is added ----------

  function TableAdded(mem: Memory, p: int, d: int, f: int): Memory
    requires 0 <= p < |mem| && 0 <= d < ENTRIES && 0 <= f < 0x10_0000
  {
    mem[p := mem[p][d := EntryFor(f, PTE_P + PTE_W + PTE_U)]]
  }

  ghost predicate CanAddTable(mem: Memory, free: seq<int>, dirs: set<int>, owner: Owner, held: set<int>, lo: int, p: int, d: int, f: int) {
    && Good(mem, free, dirs, owner, held, lo) && f in held && p in dirs && 0 <= d < ENTRIES
    && 0 <= f < |mem| && TableOf(mem, p, d) == -1 && mem[f] == Filled(0)
  }

  lemma {:induction false} TableAddedAt(mem: Memory, free: seq<int>, dirs: set<int>, owner: Owner, held: set<int>, lo: int,
                                        p: int, d: int, f: int, q: int, e: int)
    requires CanAddTable(mem, free, dirs, owner, held, lo, p, d, f) && q in dirs && 0 <= e < ENTRIES
    ensures var mem' := TableAdded(mem, p, d, f);
            && TableOf(mem', q, e) == (if q == p && e == d then f else TableOf(mem, q, e))
            && (TableOf(mem, q, e) != -1 ==> var t := TableOf(mem, q, e); 0 <= t < |mem| && mem'[t] == mem[t])
            && mem'[f] == Filled(0)
  {
    EntryParts(f, PTE_P + PTE_W + PTE_U);
    assert FreeOk(mem, free, owner, held, lo, f);
    HeldIsNoDir(mem, free, dirs, owner, held, lo, f);
    if TableOf(mem, q, e) != -1 {
      TableOwned(mem, free, dirs, owner, held, lo, q, e);
    }
    hide Good, EntryFor, Filled;
  }

  lemma {:induction false} TableAddedPte(mem: Memory, free: seq<int>, dirs: set<int>, owner: Owner, held: set<int>, lo: int,
                                         p: int, d: int, f: int, q: int, v: int)
    requires CanAddTable(mem, free, dirs, owner, held, lo, p, d, f) && InRange(dirs, q, v)
    ensures Pte(TableAdded(mem, p, d, f), q, v) == Pte(mem, q, v)
  {
    TableAddedAt(mem, free, dirs, owner, held, lo, p, d, f, q, v / ENTRIES);
    assert Filled(0)[v % ENTRIES] == 0;
    hide Good, TableAdded, TableOf, Filled;
  }

  /** An empty table changes nothing that an address space shows. */
  lemma {:induction false} TableAddedGood(mem: Memory, free: seq<int>, dirs: set<int>, owner: Owner, held: set<int>, lo: int,
                                          p: int, d: int, f: int)
    requires CanAddTable(mem, free, dirs, owner, held, lo, p, d, f)
    ensures var mem' := TableAdded(mem, p, d, f);
            && Good(mem', free, dirs, owner[f := Table(p, d)], held - {f}, lo) && SameBut(mem, mem', dirs, 0, 0, 0)
            && TableOf(mem', p, d) == f && f !in owner
  {
    var mem', x := TableAdded(mem, p, d, f), Table(p, d);
    assert FreeOk(mem, free, owner, held, lo, f);
    TableAddedAt(mem, free, dirs, owner, held, lo, p, d, f, p, d);
    forall y {:trigger Ref(mem', dirs, y)} | IsSlot(dirs, y)
      ensures Ref(mem', dirs, y) == if y == x then f else Ref(mem, dirs, y)
    {
      match y
      case Dir(_) =>
      case Table(q, e) => TableAddedAt(mem, free, dirs, owner, held, lo, p, d, f, q, e);
      case User(q, v) => TableAddedPte(mem, free, dirs, owner, held, lo, p, d, f, q, v);
    }
    forall q, v {:trigger Same(mem, mem', q, v)} | InRange(dirs, q, v)
      ensures Same(mem, mem', q, v)
    {
      TableAddedPte(mem, free, dirs, owner, held, lo, p, d, f, q, v);
      if Ref(mem, dirs, User(q, v)) != -1 {
        RefOwned(mem, free, dirs, owner, held, lo, User(q, v));
        RefOwned(mem, free, dirs, owner, held, lo, Dir(p));
      }
    }
    hide Ref, TableAdded;
    AddedGood(mem, free, dirs, owner, held, lo, mem', x, f);
  }

  // ---------- a page table entry is written ----------

  function PteSet(mem: Memory, p: int, v: int, e: Word): Memory
    requires 0 <= p < |mem| && 0 <= v < USER_PAGES
  {
    var t := TableOf(mem, p, v / ENTRIES);
    if 0 <= t < |mem| then mem[t := mem[t][v % ENTRIES := e]] else mem
  }

  ghost predicate HasPte(mem: Memory, free: seq<int>, dirs: set<int>, owner: Owner, held: set<int>, lo: int, p: int, v: int) {
    && Good(mem, free, dirs, owner, held, lo) && InRange(dirs, p, v) && TableOf(mem, p, v / ENTRIES) != -1
  }

  lemma {:induction false} PteSetAt(mem: Memory, free: seq<int>, dirs: set<int>, owner: Owner, held: set<int>, lo: int,
                                    p: int, v: int, e: Word, q: int, w: int)
    requires HasPte(mem, free, dirs, owner, held, lo, p, v) && InRange(dirs, q, w)
    ensures var mem' := PteSet(mem, p, v, e);
            && |mem'| == |mem| && mem'[q] == mem[q]
            && Pte(mem', q, w) == if q == p && w == v then e else Pte(mem, q, w)
  {
    TableOwned(mem, free, dirs, owner, held, lo, p, v / ENTRIES);
    if TableOf(mem, q, w / ENTRIES) != -1 {
      TableOwned(mem, free, dirs, owner, held, lo, q, w / ENTRIES);
    }
    hide Good;
  }

  /** A frame that is no table is not touched. */
  lemma {:induction false} PteSetElsewhere(mem: Memory, free: seq<int>, dirs: set<int>, owner: Owner, held: set<int>, lo: int,
                                           p: int, v: int, e: Word, f: int)
    requires HasPte(mem, free, dirs, owner, held, lo, p, v) && 0 <= f < |mem|
    requires f !in owner || owner[f] != Table(p, v / ENTRIES)
    ensures |PteSet(mem, p, v, e)| == |mem| && PteSet(mem, p, v, e)[f] == mem[f]
  {
    TableOwned(mem, free, dirs, owner, held, lo, p, v / ENTRIES);
    hide Good;
  }

  lemma {:induction false} PteSetRefs(mem: Memory, free: seq<int>, dirs: set<int>, owner: Owner, held: set<int>, lo: int,
                                      p: int, v: int, e: Word)
    requires HasPte(mem, free, dirs, owner, held, lo, p, v)
    ensures var mem' := PteSet(mem, p, v, e);
            && |mem'| == |mem|
            && (forall y {:trigger Ref(mem', dirs, y)} :: IsSlot(dirs, y) ==>
                  Ref(mem', dirs, y) == if y == User(p, v) then (if Present(e) then FrameOf(e) else -1) else Ref(mem, dirs, y))
  {
    var mem' := PteSet(mem, p, v, e);
    PteSetAt(mem, free, dirs, owner, held, lo, p, v, e, p, v);
    forall y {:trigger Ref(mem', dirs, y)} | IsSlot(dirs, y)
      ensures Ref(mem', dirs, y) == if y == User(p, v) then (if Present(e) then FrameOf(e) else -1) else Ref(mem, dirs, y)
    {
      PteSetAt(mem, free, dirs, owner, held, lo, p, v, e, y.p, if y.User? then y.v else 0);
    }
  }

  lemma {:induction false} PteSetViews(mem: Memory, free: seq<int>, dirs: set<int>, owner: Owner, held: set<int>, lo: int,
                                       p: int, v: int, e: Word, q: int, w: int)
    requires HasPte(mem, free, dirs, owner, held, lo, p, v) && InRange(dirs, q, w) && !(q == p && w == v)
    ensures |PteSet(mem, p, v, e)| == |mem| && Same(mem, PteSet(mem, p, v, e), q, w)
  {
    PteSetAt(mem, free, dirs, owner, held, lo, p, v, e, q, w);
    var r := Ref(mem, dirs, User(q, w));
    if r != -1 {
      RefOwned(mem, free, dirs, owner, held, lo, User(q, w));
      PteSetElsewhere(mem, free, dirs, owner, held, lo, p, v, e, r);
    }
    hide Good, PteSet;
  }

  /** A frame is mapped at a page that was not. */
  lemma {:induction false} MappedGood(mem: Memory, free: seq<int>, dirs: set<int>, owner: Owner, held: set<int>, lo: int,
                                      p: int, v: int, f: int, flags: int)
    requires HasPte(mem, free, dirs, owner, held, lo, p, v) && f in held && !Present(Pte(mem, p, v))
    requires 0 <= flags < PGSIZE && flags % 2 == 1
    ensures 0 <= f < |mem| && f !in owner && 0 <= EntryFor(f, flags) < 0x1_0000_0000
    ensures var mem' := PteSet(mem, p, v, EntryFor(f, flags));
            && Good(mem', free, dirs, owner[f := User(p, v)], held - {f}, lo) && SameBut(mem, mem', dirs, p, v, v + 1)
            && View(mem', p, v) == Some(UserPage(flags, mem[f]))
  {
    assert FreeOk(mem, free, owner, held, lo, f);
    EntryParts(f, flags);
    var e := EntryFor(f, flags);
    var mem' := PteSet(mem, p, v, e);
    PteSetRefs(mem, free, dirs, owner, held, lo, p, v, e);
    PteSetAt(mem, free, dirs, owner, held, lo, p, v, e, p, v);
    PteSetElsewhere(mem, free, dirs, owner, held, lo, p, v, e, f);
    forall q, w {:trigger Same(mem, mem', q, w)} | InRange(dirs, q, w) && !(q == p && v <= w < v + 1)
      ensures Same(mem, mem', q, w)
    {
      PteSetViews(mem, free, dirs, owner, held, lo, p, v, e, q, w);
    }
    assert Ref(mem, dirs, User(p, v)) == -1;
    hide Ref, PteSet, EntryFor;
    AddedGood(mem, free, dirs, owner, held, lo, mem', User(p, v), f);
  }

  /** A mapped page is unmapped; its frame comes into the kernel's hands. */
  lemma {:induction false} UnmappedGood(mem: Memory, free: seq<int>, dirs: set<int>, owner: Owner, held: set<int>, lo: int,
                                        p: int, v: int)
    requires HasPte(mem, free, dirs, owner, held, lo, p, v) && Present(Pte(mem, p, v))
    ensures var mem', f := PteSet(mem, p, v, 0), FrameOf(Pte(mem, p, v));
            && Good(mem', free, dirs, owner - {f}, held + {f}, lo) && SameBut(mem, mem', dirs, p, v, v + 1)
            && View(mem', p, v) == None && f in owner && owner[f] == User(p, v) && 0 < lo <= f < |mem| == |mem'|
            && TableOf(mem, p, v / ENTRIES) != f && f !in held
            && Pte(mem', p, v) == 0
  {
    var mem', f := PteSet(mem, p, v, 0), FrameOf(Pte(mem, p, v));
    assert Ref(mem, dirs, User(p, v)) == f;
    RefOwned(mem, free, dirs, owner, held, lo, User(p, v));
    TableOwned(mem, free, dirs, owner, held, lo, p, v / ENTRIES);
    PteSetRefs(mem, free, dirs, owner, held, lo, p, v, 0);
    PteSetAt(mem, free, dirs, owner, held, lo, p, v, 0, p, v);
    forall q, w {:trigger Same(mem, mem', q, w)} | InRange(dirs, q, w) && !(q == p && v <= w < v + 1)
      ensures Same(mem, mem', q, w)
    {
      PteSetViews(mem, free, dirs, owner, held, lo, p, v, 0, q, w);
    }
    hide Ref, PteSet;
    RemovedGood(mem, free, dirs, owner, held, lo, mem', User(p, v), f);
  }

  // ---------- address spaces come and go ----------

  /** A zeroed frame becomes an empty address space. */
  lemma {:induction false} DirAddedGood(mem: Memory, free: seq<int>, dirs: set<int>, owner: Owner, held: set<int>, lo: int, f: int)
    requires Good(mem, free, dirs, owner, held, lo) && f in held && 0 <= f < |mem| && mem[f] == Filled(0)
    ensures Good(mem, free, dirs + {f}, owner[f := Dir(f)], held - {f}, lo) && f !in owner && f !in dirs
    ensures forall v :: 0 <= v < USER_PAGES ==> Pte(mem, f, v) == 0
  {
    assert FreeOk(mem, free, owner, held, lo, f);
    HeldIsNoDir(mem, free, dirs, owner, held, lo, f);
    var dirs', owner', held' := dirs + {f}, owner[f := Dir(f)], held - {f};
    assert forall d :: 0 <= d < ENTRIES ==> !Present(mem[f][d]);
    forall y {:trigger NotedOk(mem, dirs', owner', y)} | IsSlot(dirs', y)
      ensures NotedOk(mem, dirs', owner', y)
    {
      if y.p != f {
        assert Ref(mem, dirs', y) == Ref(mem, dirs, y);
        assert NotedOk(mem, dirs, owner, y);
      }
    }
    forall r {:trigger OwnedOk(mem, dirs', owner', lo, r)} | r in owner'
      ensures OwnedOk(mem, dirs', owner', lo, r)
    {
      if r != f {
        assert OwnedOk(mem, dirs, owner, lo, r);
        assert Ref(mem, dirs', owner[r]) == Ref(mem, dirs, owner[r]);
      }
    }
    forall g {:trigger FreeOk(mem, free, owner', held', lo, g)}
      ensures FreeOk(mem, free, owner', held', lo, g)
    {
      assert FreeOk(mem, free, owner, held, lo, g);
    }
  }

  /** The tables of an address space from directory entry d on. */
  ghost function TablesFrom(mem: Memory, p: int, d: int): set<int>
    requires 0 <= p < |mem| && 0 <= d
    decreases ENTRIES - d
  {
    if d >= ENTRIES then {}
    else (if TableOf(mem, p, d) != -1 then {TableOf(mem, p, d)} else {}) + TablesFrom(mem, p, d + 1)
  }

  lemma {:induction false} TablesFromIs(mem: Memory, p: int, d: int, t: int)
    requires 0 <= p < |mem| && 0 <= d
    ensures t in TablesFrom(mem, p, d) <==> exists e :: d <= e < ENTRIES && TableOf(mem, p, e) == t && t != -1
    decreases ENTRIES - d
  {
    if d < ENTRIES {
      TablesFromIs(mem, p, d + 1, t);
    }
  }

  /** The next table is not among the later ones, and neither is the directory. */
  lemma {:induction false} TablesFromNext(mem: Memory, free: seq<int>, dirs: set<int>, owner: Owner, held: set<int>, lo: int,
                                          p: int, d: int)
    requires Good(mem, free, dirs, owner, held, lo) && p in dirs && 0 <= d < ENTRIES && TableOf(mem, p, d) != -1
    ensures var t := TableOf(mem, p, d);
            && t !in TablesFrom(mem, p, d + 1) && t != p && t !in held && lo <= t < |mem|
            && TablesFrom(mem, p, d) - {t} == TablesFrom(mem, p, d + 1)
  {
    var t := TableOf(mem, p, d);
    TableOwned(mem, free, dirs, owner, held, lo, p, d);
    TablesFromIs(mem, p, d + 1, t);
    if e :| d + 1 <= e < ENTRIES && TableOf(mem, p, e) == t {
      TableOwned(mem, free, dirs, owner, held, lo, p, e);
    }
  }

  ghost function WithoutSpace(owner: Owner, p: int): Owner {
    map r | r in owner && owner[r].p != p :: owner[r]
  }

  /** An address space that shows nothing is given up: its directory and tables are in the kernel's hands. */
  lemma {:induction false} DirDroppedGood(mem: Memory, free: seq<int>, dirs: set<int>, owner: Owner, held: set<int>, lo: int, p: int)
    requires Good(mem, free, dirs, owner, held, lo) && p in dirs
    requires forall v {:trigger Pte(mem, p, v)} :: 0 <= v < USER_PAGES ==> !Present(Pte(mem, p, v))
    ensures Good(mem, free, dirs - {p}, WithoutSpace(owner, p), held + {p} + TablesFrom(mem, p, 0), lo)
  {
    var dirs', owner', held' := dirs - {p}, WithoutSpace(owner, p), held + {p} + TablesFrom(mem, p, 0);
    forall y {:trigger NotedOk(mem, dirs', owner', y)} | IsSlot(dirs', y)
      ensures NotedOk(mem, dirs', owner', y)
    {
      assert Ref(mem, dirs', y) == Ref(mem, dirs, y) && NotedOk(mem, dirs, owner, y);
    }
    forall r {:trigger OwnedOk(mem, dirs', owner', lo, r)} | r in owner'
      ensures OwnedOk(mem, dirs', owner', lo, r)
    {
      assert OwnedOk(mem, dirs, owner, lo, r);
      assert Ref(mem, dirs', owner[r]) == Ref(mem, dirs, owner[r]);
    }
    forall g {:trigger FreeOk(mem, free, owner', held', lo, g)}
      ensures FreeOk(mem, free, owner', held', lo, g)
    {
      DroppedFrame(mem, free, dirs, owner, held, lo, p, g);
      assert FreeOk(mem, free, owner, held, lo, g);
    }
  }

  /** The frames of an address space that shows nothing are its directory and its tables. */
  lemma {:induction false} DroppedFrame(mem: Memory, free: seq<int>, dirs: set<int>, owner: Owner, held: set<int>, lo: int, p: int, g: int)
    requires Good(mem, free, dirs, owner, held, lo) && p in dirs
    requires forall v {:trigger Pte(mem, p, v)} :: 0 <= v < USER_PAGES ==> !Present(Pte(mem, p, v))
    ensures (g in owner && owner[g].p == p) <==> g == p || g in TablesFrom(mem, p, 0)
    ensures g == p || g in TablesFrom(mem, p, 0) ==> lo <= g < |mem|
  {
    TablesFromIs(mem, p, 0, g);
    if g in owner && owner[g].p == p {
      assert OwnedOk(mem, dirs, owner, lo, g);
      assert owner[g].Table? ==> TableOf(mem, p, owner[g].d) == g;
    }
    if g == p {
      RefOwned(mem, free, dirs, owner, held, lo, Dir(p));
    }
    if e :| 0 <= e < ENTRIES && TableOf(mem, p, e) == g && g != -1 {
      TableOwned(mem, free, dirs, owner, held, lo, p, e);
    }
  }
}
