/** The kernel's frame allocator and page tables as the program runs them: growing, shrinking, freeing and copying the
    user part of an address space.
 */
module VirtualMemory {
  import opened VmShape
  import opened VmSteps
  import opened VmCost

  const JUNK: Word := 0x0101_0101
  const UINT := 0x1_0000_0000

  /** PGROUNDUP, for sizes that do not wrap. */
  function RoundUp(sz: int): int { (sz + PGSIZE - 1) / PGSIZE * PGSIZE }

  /** Number of the first page that begins at or behind a. */
  function PageUp(a: int): int { (a + PGSIZE - 1) / PGSIZE }

  function Min(a: int, b: int): int { if a < b then a else b }


  /** Frames mapped at the pages v of p, from <= v < to, have left their places; the others are where they were. */
  ghost predicate Gone(owner: Owner, owner': Owner, p: int, from: int, upto: int) {
    && (forall f :: f in owner' ==> f in owner && owner'[f] == owner[f])
    && (forall f :: f in owner ==> (f in owner' <==> !(owner[f].User? && owner[f].p == p && from <= owner[f].v < upto)))
  }

  /** Frames have only been added, as tables of p or at its pages v, from <= v < to. */
  ghost predicate Grown(owner: Owner, owner': Owner, p: int, from: int, upto: int) {
    && (forall f :: f in owner ==> f in owner' && owner'[f] == owner[f])
    && (forall f :: f in owner' && f !in owner ==> owner'[f].p == p && (owner'[f].User? ==> from <= owner'[f].v < upto))
  }

  /** An address at the start of a page is below sz exactly when its page is. */
  lemma {:induction false} PageBelow(a: int, sz: int)
    requires a % PGSIZE == 0
    ensures a < sz <==> a / PGSIZE < PageUp(sz)
    ensures (a + PGSIZE) % PGSIZE == 0 && (a + PGSIZE) / PGSIZE == a / PGSIZE + 1
  {
  }

  lemma {:induction false} RoundedUp(sz: int)
    ensures RoundUp(sz) % PGSIZE == 0 && RoundUp(sz) / PGSIZE == PageUp(sz)
    ensures 0 <= sz <= KERNBASE ==> 0 <= PageUp(sz) <= USER_PAGES
  {
  }

  /** The permissions with which a page is mapped: perm | PTE_P. */
  function WithP(perm: int): int { if perm % 2 == 1 then perm else perm + PTE_P }

  /** The directory entry is present, writable and the user's: what the program may do is up to the page's own entry. */
  predicate AllowsAll(mem: Memory, p: int, d: int) {
    && 0 <= p < |mem| && 0 <= d < ENTRIES
    && var flags := FlagsOf(mem[p][d]); flags % 2 == 1 && flags / 2 % 2 == 1 && flags / 4 % 2 == 1 && flags < 8
  }

  lemma {:induction false} PushDistinct(free: seq<int>, f: int)
    requires Distinct(free) && f !in free
    ensures Distinct([f] + free) && forall g :: (g in [f] + free <==> g == f || g in free)
  {
    var free' := [f] + free;
    forall i, j | 0 <= i < j < |free'|
      ensures free'[i] != free'[j]
    {
      assert free'[j] == free[j - 1] && free[j - 1] in free && (i > 0 ==> free'[i] == free[i - 1]);
    }
  }

  lemma {:induction false} AllFreeGood(mem: Memory, free: seq<int>, lo: int)
    requires 0 < lo <= |mem| <= 0x10_0000 && Distinct(free) && forall g :: (g in free <==> lo <= g < |mem|)
    ensures Good(mem, free, {}, map[], {}, lo)
  {
  }

  lemma {:induction false} WithoutGone(o: Owner, o': Owner, p: int, from: int, upto: int)
    requires Gone(o, o', p, from, upto)
    ensures WithoutSpace(o', p) == WithoutSpace(o, p)
  {
    var w, w' := WithoutSpace(o, p), WithoutSpace(o', p);
    forall f
      ensures f in w' <==> f in w
      ensures f in w ==> w'[f] == w[f]
    {
      assert f in o' ==> f in o;
    }
    assert w'.Keys == w.Keys;
  }

  /** Giving up a new address space leaves what was there before it. */
  lemma {:induction false} WithoutNew(o: Owner, o': Owner, d: int)
    requires forall f :: f in o ==> f in o' && o'[f] == o[f] && o[f].p != d
    requires forall f :: f in o' && f !in o ==> o'[f].p == d
    ensures WithoutSpace(o', d) == o
  {
    var w := WithoutSpace(o', d);
    forall f
      ensures f in w <==> f in o
      ensures f in o ==> w[f] == o[f]
    {
      assert f in o ==> f in o';
    }
    assert w.Keys == o.Keys;
  }

  class Kernel {
    var mem: Memory
    // kmem.freelist
    var freelist: seq<int>
    // the first frame behind the kernel
    const lo: int
    // the directory entries above the user's that every address space has, for the kernel's own mappings
    const kdirs: seq<int>
    ghost var dirs: set<int>
    ghost var owner: Owner
    // frames between kalloc and their first use
    ghost var held: set<int>

    ghost predicate Valid()
      reads this
    {
      && Good(mem, freelist, dirs, owner, held, lo)
      && (forall i :: 0 <= i < |kdirs| ==> USER_DIRS <= kdirs[i] < ENTRIES)
      && (forall i, j :: 0 <= i < j < |kdirs| ==> kdirs[i] != kdirs[j])
    }

    /** freerange: all frames behind the kernel are free. */
    constructor (mem: Memory, lo: int, kdirs: seq<int>)
      requires 0 < lo <= |mem| <= 0x10_0000
      requires (forall i :: 0 <= i < |kdirs| ==> USER_DIRS <= kdirs[i] < ENTRIES)
      requires (forall i, j :: 0 <= i < j < |kdirs| ==> kdirs[i] != kdirs[j])
      ensures this.kdirs == kdirs
      ensures Valid() && dirs == {} && owner == map[] && held == {} && this.lo == lo && this.mem == mem
    {
      this.mem, this.lo, this.kdirs := mem, lo, kdirs;
      freelist := [];
      dirs, owner, held := {}, map[], {};
      new;
      FreeRange();
      AllFreeGood(mem, freelist, lo);
    }

    method FreeRange()
      requires freelist == [] && lo <= |mem|
      modifies `freelist
      ensures Distinct(freelist) && forall g :: (g in freelist <==> lo <= g < |mem|)
    {
      var f := lo;
      while f < |mem|
        invariant lo <= f <= |mem|
        invariant Distinct(freelist) && forall g :: (g in freelist <==> lo <= g < f)
      {
        PushDistinct(freelist, f);
        freelist := [f] + freelist;
        f := f + 1;
      }
    }

    /** A frame, or None when there is none left. */
    method Kalloc() returns (r: Option<int>)
      requires Valid()
      modifies `freelist, `held
      ensures Valid()
      ensures r.None? <==> old(freelist) == []
      ensures r.None? ==> freelist == old(freelist) && held == old(held)
      ensures r.Some? ==>
                && r.value == old(freelist)[0] && freelist == old(freelist)[1..]
                && held == old(held) + {r.value} && r.value !in old(held) && r.value !in owner && r.value !in dirs
                && lo <= r.value < |mem|
    {
      if freelist == [] {
        return None;
      }
      Taken(mem, freelist, dirs, owner, held, lo);
      r := Some(freelist[0]);
      freelist := freelist[1..];
      held := held + {r.value};
    }

    /** Free a frame; it is filled with junk. */
    method Kfree(f: int)
      requires Valid() && f in held
      modifies `mem, `freelist, `held
      ensures Valid() && freelist == [f] + old(freelist) && held == old(held) - {f}
      ensures 0 <= f < |old(mem)| && mem == old(mem)[f := Filled(JUNK)]
      ensures Shaped(old(mem), dirs) && SameBut(old(mem), mem, dirs, 0, 0, 0)
    {
      HeldWritten(mem, freelist, dirs, owner, held, lo, f, Filled(JUNK));
      GivenBack(mem[f := Filled(JUNK)], freelist, dirs, owner, held, lo, f);
      mem := mem[f := Filled(JUNK)];
      freelist := [f] + freelist;
      held := held - {f};
    }

    /** A frame, zeroed. */
    method KallocZeroed() returns (r: Option<int>)
      requires Valid()
      modifies `mem, `freelist, `held
      ensures Valid() && |mem| == |old(mem)| && Shaped(old(mem), dirs) && SameBut(old(mem), mem, dirs, 0, 0, 0)
      ensures r.None? <==> old(freelist) == []
      ensures r.None? ==> mem == old(mem) && freelist == old(freelist) && held == old(held)
      ensures r.Some? ==>
                && 0 <= r.value < |mem| && mem == old(mem)[r.value := Filled(0)]
                && r.value == old(freelist)[0] && freelist == old(freelist)[1..]
                && held == old(held) + {r.value} && r.value !in old(held) && r.value !in owner && r.value !in dirs
    {
      ghost var was := mem;
      r := Kalloc();
      if r.Some? {
        HeldWritten(mem, freelist, dirs, owner, held, lo, r.value, Filled(0));
        mem := mem[r.value := Filled(0)];
      }
    }

    /** The table that holds the entry of page v. With alloc, it is made if there is none. */
    method Walkpgdir(p: int, v: int, alloc: bool) returns (r: Option<int>)
      requires Valid() && InRange(dirs, p, v)
      modifies `mem, `freelist, `owner, `held
      ensures Valid() && held == old(held) && |mem| == |old(mem)| && Shaped(old(mem), dirs) && SameBut(old(mem), mem, dirs, 0, 0, 0)
      ensures r.Some? ==> r.value == TableOf(mem, p, v / ENTRIES) != -1
      ensures !alloc || r.None? || TableOf(old(mem), p, v / ENTRIES) != -1 ==>
                mem == old(mem) && freelist == old(freelist) && owner == old(owner)
      ensures r.None? <==> TableOf(old(mem), p, v / ENTRIES) == -1 && (!alloc || old(freelist) == [])
      ensures r.Some? ==> TablesBut(old(mem), mem, p, v) && |freelist| == |old(freelist)| - TableCost(old(mem), p, v)
      ensures r.Some? && TableOf(old(mem), p, v / ENTRIES) == -1 ==> AllowsAll(mem, p, v / ENTRIES)
      ensures forall f :: f in held ==> 0 <= f < |mem| && mem[f] == old(mem)[f]
      ensures forall f :: f in owner && f !in old(owner) ==> owner[f].Table? && owner[f].p == p
      ensures forall f :: f in old(owner) ==> f in owner && owner[f] == old(owner)[f]
    {
      ghost var was := mem;
      var d := v / ENTRIES;
      Directory(p, d);
      HeldFrames();
      assert SameBut(mem, mem, dirs, 0, 0, 0);
      hide Good, SameBut;
      var pde := mem[p][d];
      if Present(pde) {
        return Some(FrameOf(pde));
      }
      if !alloc {
        return None;
      }
      r := MakeTable(p, d);
    }

    /** walkpgdir's way to a page table that is missing. */
    method MakeTable(p: int, d: int) returns (r: Option<int>)
      requires Valid() && p in dirs && 0 <= d < ENTRIES && 0 <= p < |mem| && TableOf(mem, p, d) == -1
      modifies `mem, `freelist, `owner, `held
      ensures Valid() && held == old(held) && |mem| == |old(mem)| && Shaped(old(mem), dirs) && SameBut(old(mem), mem, dirs, 0, 0, 0)
      ensures r.None? <==> old(freelist) == []
      ensures r.None? ==> mem == old(mem) && freelist == old(freelist) && owner == old(owner)
      ensures r.Some? ==>
                && r.value == TableOf(mem, p, d) != -1 && |freelist| == |old(freelist)| - 1
                && AllowsAll(mem, p, d)
                && r.value !in old(owner) && owner == old(owner)[r.value := Table(p, d)]
                && forall e {:trigger TableOf(mem, p, e)} :: 0 <= e < ENTRIES && e != d ==> TableOf(mem, p, e) == TableOf(old(mem), p, e)
      ensures forall f :: f in held ==> 0 <= f < |mem| && mem[f] == old(mem)[f]
    {
      ghost var was := mem;
      Directory(p, d);
      HeldFrames();
      assert SameBut(mem, mem, dirs, 0, 0, 0);
      hide Good, SameBut;
      r := KallocZeroed();
      if r.None? {
        return None;
      }
      var pgtab := r.value;
      TableStaysMissing(was, p, d, pgtab);
      TableAddedGood(mem, freelist, dirs, owner, held, lo, p, d, pgtab);
      EntryParts(pgtab, PTE_P + PTE_W + PTE_U);
      SameTwice(was, mem, TableAdded(mem, p, d, pgtab), dirs, 0, 0, 0);
      HeldFrames();
      mem := mem[p := mem[p][d := EntryFor(pgtab, PTE_P + PTE_W + PTE_U)]];
      owner := owner[pgtab := Table(p, d)];
      held := held - {pgtab};
      assert forall e {:trigger TableOf(mem, p, e)} :: 0 <= e < ENTRIES && e != d ==> mem[p][e] == was[p][e];
    }

    lemma {:induction false} Directory(p: int, d: int)
      requires Valid() && p in dirs && 0 <= d < ENTRIES
      ensures Shaped(mem, dirs) && 0 <= p < |mem| && p in owner && p !in held
      ensures TableOf(mem, p, d) != -1 <==> Present(mem[p][d])
    {
      RefOwned(mem, freelist, dirs, owner, held, lo, Dir(p));
    }

    lemma {:induction false} HeldFrames()
      requires Valid()
      ensures forall f :: f in held ==> lo <= f < |mem| && f !in owner && f !in dirs
    {
      forall f | f in held
        ensures lo <= f < |mem| && f !in owner && f !in dirs
      {
        assert FreeOk(mem, freelist, owner, held, lo, f);
        HeldIsNoDir(mem, freelist, dirs, owner, held, lo, f);
      }
    }

    /** Zeroing a frame that was free does not make a table. */
    lemma {:induction false} TableStaysMissing(was: Memory, p: int, d: int, f: int)
      requires Valid() && p in dirs && 0 <= d < ENTRIES && f in held
      requires |was| == |mem| && 0 <= f < |mem| && mem == was[f := Filled(0)]
      requires 0 <= p < |was| && TableOf(was, p, d) == -1
      ensures TableOf(mem, p, d) == -1
    {
      HeldFrames();
    }

    // ---------- mapping and unmapping ----------

    /** One turn of mappages' loop. Panic "remap" if the page is mapped. */
    method MapPage(p: int, v: int, f: int, perm: int) returns (r: int, ok: bool)
      requires Valid() && InRange(dirs, p, v) && f in held && 0 <= perm < PGSIZE
      modifies `mem, `freelist, `owner, `held
      ensures Valid() && |mem| == |old(mem)| && Shaped(old(mem), dirs) && 0 <= f < |mem|
      ensures ok <==> r == -1 || !Present(Pte(old(mem), p, v))
      ensures r in {0, -1} && SameBut(old(mem), mem, dirs, p, v, if ok && r == 0 then v + 1 else v)
      ensures ok && r == 0 ==>
                && View(mem, p, v) == Some(UserPage(WithP(perm), old(mem)[f])) && held == old(held) - {f}
                && f in owner && owner[f] == User(p, v)
      ensures !ok || r == -1 ==> held == old(held)
      ensures r == -1 <==> old(freelist) == [] && 0 <= p < |old(mem)| && TableOf(old(mem), p, v / ENTRIES) == -1
      ensures r == -1 ==> mem == old(mem) && owner == old(owner) && freelist == []
      ensures r == 0 ==> TablesBut(old(mem), mem, p, v) && |freelist| == |old(freelist)| - TableCost(old(mem), p, v)
      ensures forall g :: g in owner && g !in old(owner) ==> owner[g].p == p && (owner[g].User? ==> g == f)
      ensures forall g :: g in old(owner) ==> g in owner && owner[g] == old(owner)[g]
    {
      ghost var was := mem;
      HeldFrames();
      var pgtab := Walkpgdir(p, v, true);
      if pgtab.None? {
        SameWider(was, mem, dirs, 0, 0, 0, p, v, v);
        return -1, true;
      }
      ghost var mid := mem;
      SameWider(was, mid, dirs, 0, 0, 0, p, v, v + 1);
      SameWider(was, mid, dirs, 0, 0, 0, p, v, v);
      assert Same(was, mid, p, v);
      TableOwned(mem, freelist, dirs, owner, held, lo, p, v / ENTRIES);
      var t := pgtab.value;
      if Present(mem[t][v % ENTRIES]) {
        return 0, false;
      }
      MappedGood(mem, freelist, dirs, owner, held, lo, p, v, f, WithP(perm));
      SameTwice(was, mid, PteSet(mid, p, v, EntryFor(f, WithP(perm))), dirs, p, v, v + 1);
      hide Good, SameBut, View, Pte;
      mem := mem[t := mem[t][v % ENTRIES := EntryFor(f, WithP(perm))]];
      assert mem == PteSet(mid, p, v, EntryFor(f, WithP(perm)));
      TablesAround(was, was, mid, mem, p, v);
      owner := owner[f := User(p, v)];
      held := held - {f};
      return 0, true;
    }

    /** One turn of deallocuvm's loop at a page that has a table. */
    method Unmap(p: int, v: int, t: int)
      requires Valid() && InRange(dirs, p, v) && t == TableOf(mem, p, v / ENTRIES) != -1
      modifies `mem, `freelist, `owner
      ensures Valid() && |mem| == |old(mem)| && Shaped(old(mem), dirs) && SameBut(old(mem), mem, dirs, p, v, v + 1)
      ensures View(mem, p, v) == None && !Present(Pte(mem, p, v))
      ensures !Present(Pte(old(mem), p, v)) ==> mem == old(mem) && freelist == old(freelist) && owner == old(owner)
      ensures Present(Pte(old(mem), p, v)) ==>
                var f := FrameOf(Pte(old(mem), p, v));
                freelist == [f] + old(freelist) && owner == old(owner) - {f} && f in old(owner) && old(owner)[f] == User(p, v)
    {
      ghost var was := mem;
      TableOwned(mem, freelist, dirs, owner, held, lo, p, v / ENTRIES);
      var pte := mem[t][v % ENTRIES];
      if Present(pte) {
        var f := FrameOf(pte);
        UnmappedGood(mem, freelist, dirs, owner, held, lo, p, v);
        ghost var cleared := PteSet(was, p, v, 0);
        HeldWritten(cleared, freelist, dirs, owner - {f}, held + {f}, lo, f, Filled(JUNK));
        GivenBack(cleared[f := Filled(JUNK)], freelist, dirs, owner - {f}, held + {f}, lo, f);
        SameWider(cleared, cleared[f := Filled(JUNK)], dirs, 0, 0, 0, p, v, v + 1);
        SameTwice(was, cleared, cleared[f := Filled(JUNK)], dirs, p, v, v + 1);
        assert held + {f} - {f} == held;
        mem := mem[f := Filled(JUNK)];
        freelist := [f] + freelist;
        mem := mem[t := mem[t][v % ENTRIES := 0]];
        owner := owner - {f};
        assert mem == cleared[f := Filled(JUNK)];
        SameWider(cleared, mem, dirs, 0, 0, 0, p, v + 1, v + 1);
        assert Same(cleared, mem, p, v);
      } else {
        assert SameBut(mem, mem, dirs, p, v, v + 1);
      }
    }

    // ---------- deallocuvm ----------

    /** A directory entry that is absent maps nothing: the jump over it skips no frame. */
    lemma {:induction false} JumpSkipsNothing(p: int, v: int)
      requires Valid() && InRange(dirs, p, v) && TableOf(mem, p, v / ENTRIES) == -1
      ensures 0 <= p < |mem|
      ensures forall w {:trigger Pte(mem, p, w)} :: v <= w < (v / ENTRIES + 1) * ENTRIES && w < USER_PAGES ==> !Present(Pte(mem, p, w))
      ensures forall f :: f in owner && owner[f].User? && owner[f].p == p ==> !(v <= owner[f].v < (v / ENTRIES + 1) * ENTRIES)
    {
      forall f | f in owner && owner[f].User? && owner[f].p == p
        ensures !(v <= owner[f].v < (v / ENTRIES + 1) * ENTRIES)
      {
        assert OwnedOk(mem, dirs, owner, lo, f);
        assert owner[f] == User(p, owner[f].v);
        var w := owner[f].v;
        assert TableOf(mem, p, w / ENTRIES) != -1 && w / ENTRIES != v / ENTRIES;
      }
      forall w {:trigger Pte(mem, p, w)} | v <= w < (v / ENTRIES + 1) * ENTRIES && w < USER_PAGES
        ensures !Present(Pte(mem, p, w))
      {
        assert w / ENTRIES == v / ENTRIES;
      }
    }

    /** What deallocuvm has done when it stands at page k: those of the pages from..upto of p that it has passed are gone
        from the state (was, owns). */
    ghost predicate Dealloced(was: Memory, owns: Owner, p: int, from: int, upto: int, k: int)
      reads this
    {
      && Valid() && p in dirs && Shaped(was, dirs) && |was| == |mem| && 0 <= from <= k
      && SameBut(was, mem, dirs, p, from, Min(k, upto)) && Gone(owns, owner, p, from, Min(k, upto))
      && forall v {:trigger Pte(mem, p, v)} :: from <= v < k && v < USER_PAGES ==> !Present(Pte(mem, p, v))
    }

    /** One turn of deallocuvm's loop, at page k; the next turn is at page k'. */
    method DeallocTurn(p: int, k: int, ghost was: Memory, ghost owns: Owner, ghost from: int, ghost upto: int) returns (k': int)
      requires Dealloced(was, owns, p, from, upto, k) && k < upto <= USER_PAGES
      modifies `mem, `freelist, `owner
      ensures k < k' && Dealloced(was, owns, p, from, upto, k')
    {
      assert Shaped(mem, dirs);
      ghost var before, o := mem, owner;
      var pte := Walk(p, k);
      if pte.None? {
        JumpSkipsNothing(p, k);
        k' := (k / ENTRIES + 1) * ENTRIES - 1;
        k' := k' + 1;
        SameWider(was, mem, dirs, p, from, k, p, from, Min(k', upto));
        return;
      }
      Unmap(p, k, pte.value);
      k' := k + 1;
      SameWider(was, before, dirs, p, from, k, p, from, k');
      SameWider(before, mem, dirs, p, k, k + 1, p, from, k');
      SameTwice(was, before, mem, dirs, p, from, k');
      UnmapGone(before, o, owner, p, k);
      hide Good, SameBut, View;
      forall v {:trigger Pte(mem, p, v)} | from <= v < k' && v < USER_PAGES
        ensures !Present(Pte(mem, p, v))
      {
        if v != k {
          StillSame(before, p, k, v);
        }
      }
    }

    lemma {:induction false} StillSame(before: Memory, p: int, k: int, v: int)
      requires Shaped(mem, dirs) && Shaped(before, dirs) && SameBut(before, mem, dirs, p, k, k + 1) && p in dirs
      requires 0 <= v < USER_PAGES && v != k
      ensures Pte(mem, p, v) == Pte(before, p, v) && View(mem, p, v) == View(before, p, v)
    {
      assert Same(before, mem, p, v);
    }

    lemma {:induction false} UnmapGone(before: Memory, o: Owner, o': Owner, p: int, k: int)
      requires Good(before, [], dirs, o, held, lo) || exists free :: Good(before, free, dirs, o, held, lo)
      requires InRange(dirs, p, k) && Shaped(before, dirs)
      requires if Present(Pte(before, p, k)) then var f := FrameOf(Pte(before, p, k)); f in o && o[f] == User(p, k) && o' == o - {f}
               else o' == o
      ensures Gone(o, o', p, k, k + 1)
    {
      forall f | f in o && o[f].User? && o[f].p == p && o[f].v == k
        ensures Present(Pte(before, p, k)) && f == FrameOf(Pte(before, p, k))
      {
        assert OwnedOk(before, dirs, o, lo, f);
        assert o[f] == User(p, k);
      }
    }

    /** walkpgdir(pgdir, a, 0) */
    method Walk(p: int, v: int) returns (r: Option<int>)
      requires Valid() && InRange(dirs, p, v)
      ensures 0 <= p < |mem| && r == if TableOf(mem, p, v / ENTRIES) == -1 then None else Some(TableOf(mem, p, v / ENTRIES))
    {
      Directory(p, v / ENTRIES);
      var pde := mem[p][v / ENTRIES];
      if Present(pde) {
        return Some(FrameOf(pde));
      }
      return None;
    }

    lemma {:induction false} DeallocDone(was: Memory, owns: Owner, p: int, from: int, upto: int, k: int)
      requires Dealloced(was, owns, p, from, upto, k) && k >= upto && upto <= USER_PAGES
      ensures Valid() && Shaped(was, dirs) && |was| == |mem| && 0 <= p < |mem|
      ensures SameBut(was, mem, dirs, p, from, upto) && Gone(owns, owner, p, from, upto)
      ensures forall v {:trigger Pte(mem, p, v)} :: 0 <= from <= v < upto ==> !Present(Pte(mem, p, v))
    {
    }

    /** Unmap and free the pages between two sizes. */
    method Deallocuvm(p: int, oldsz: int, newsz: int) returns (r: int)
      requires Valid() && p in dirs && 0 <= newsz && 0 <= oldsz <= KERNBASE
      modifies `mem, `freelist, `owner
      ensures Valid() && |mem| == |old(mem)| && Shaped(old(mem), dirs)
      ensures r == (if newsz >= oldsz then oldsz else newsz)
      ensures SameBut(old(mem), mem, dirs, p, PageUp(newsz), PageUp(oldsz))
      ensures Gone(old(owner), owner, p, PageUp(newsz), PageUp(oldsz))
      ensures forall v {:trigger Pte(mem, p, v)} :: PageUp(newsz) <= v < PageUp(oldsz) ==> !Present(Pte(mem, p, v))
    {
      ghost var was, owns, from := mem, owner, PageUp(newsz);
      if newsz >= oldsz {
        assert PageUp(oldsz) <= PageUp(newsz) && SameBut(mem, mem, dirs, p, PageUp(newsz), PageUp(oldsz));
        return oldsz;
      }
      ghost var upto := PageUp(oldsz);
      assert Dealloced(was, owns, p, from, upto, from);
      hide Dealloced;
      var a := RoundUp(newsz);
      while a < oldsz
        invariant 0 <= a && a % PGSIZE == 0 && Dealloced(was, owns, p, from, upto, a / PGSIZE)
      {
        var k := DeallocTurn(p, a / PGSIZE, was, owns, from, upto);
        a := k * PGSIZE;
      }
      DeallocDone(was, owns, p, from, upto, a / PGSIZE);
      return newsz;
    }

    // ---------- allocuvm ----------

    /** What allocuvm has done when it stands at page k: pages from..k of p are new and zeroed. */
    ghost predicate Alloced(was: Memory, owns: Owner, holds: set<int>, p: int, from: int, k: int)
      reads this
    {
      && Valid() && held == holds && p in dirs && Shaped(was, dirs) && |was| == |mem| && 0 <= from <= k <= USER_PAGES
      && SameBut(was, mem, dirs, p, from, k) && Grown(owns, owner, p, from, k)
      && forall v {:trigger View(mem, p, v)} :: from <= v < k ==> View(mem, p, v) == Some(UserPage(PTE_P + PTE_W + PTE_U, Filled(0)))
    }

    /** One turn of allocuvm's loop, at page k. Without success, a zeroed frame may still be in the kernel's hands. */
    method AllocTurn(p: int, k: int, ghost was: Memory, ghost owns: Owner, ghost holds: set<int>, ghost from: int,
                     ghost had: nat)
        returns (ok: bool, frame: Option<int>)
      requires Alloced(was, owns, holds, p, from, k) && k < USER_PAGES && !Present(Pte(was, p, k))
      requires Spent(was, mem, p, from, k, had, |freelist|)
      modifies `mem, `freelist, `owner, `held
      ensures ok ==> Alloced(was, owns, holds, p, from, k + 1)
      ensures !ok && frame.None? ==> Alloced(was, owns, holds, p, from, k)
      ensures !ok && frame.Some? ==> Alloced(was, owns, holds + {frame.value}, p, from, k) && frame.value !in holds
      ensures if ok then Spent(was, mem, p, from, k + 1, had, |freelist|) else had < Needed(was, p, from, k + 1)
    {
      ghost var before, o := mem, owner;
      NextCost(was, mem, p, from, k, had, |freelist|);
      ghost var left := |freelist|;
      assert Same(was, before, p, k);
      frame := KallocZeroed();
      if frame.None? {
        return false, None;
      }
      ghost var zeroed := mem;
      assert Same(before, zeroed, p, k);
      var r, _ := MapPage(p, k, frame.value, PTE_W + PTE_U);
      if r == -1 {
        SameWider(before, mem, dirs, 0, 0, 0, p, from, k);
        SameTwice(was, before, mem, dirs, p, from, k);
        AllocKeeps(before, p, from, k);
        return false, frame;
      }
      assert View(mem, p, k) == Some(UserPage(PTE_P + PTE_W + PTE_U, Filled(0)));
      SameWider(before, zeroed, dirs, 0, 0, 0, p, k, k + 1);
      SameTwice(before, zeroed, mem, dirs, p, k, k + 1);
      AllocKeeps(before, p, from, k);
      SameWider(before, mem, dirs, p, k, k + 1, p, from, k + 1);
      SameWider(was, before, dirs, p, from, k, p, from, k + 1);
      SameTwice(was, before, mem, dirs, p, from, k + 1);
      assert held == holds;
      SpentMore(was, before, mem, p, from, k, had, left);
      return true, frame;
    }

    /** Pages before k are as they were. */
    lemma {:induction false} AllocKeeps(before: Memory, p: int, from: int, k: int)
      requires Shaped(before, dirs) && Shaped(mem, dirs) && p in dirs && 0 <= from <= k < USER_PAGES
      requires SameBut(before, mem, dirs, p, k, k + 1) || SameBut(before, mem, dirs, 0, 0, 0)
      requires forall v {:trigger View(before, p, v)} :: from <= v < k ==> View(before, p, v) == Some(UserPage(PTE_P + PTE_W + PTE_U, Filled(0)))
      ensures forall v {:trigger View(mem, p, v)} :: from <= v < k ==> View(mem, p, v) == Some(UserPage(PTE_P + PTE_W + PTE_U, Filled(0)))
    {
      forall v {:trigger View(mem, p, v)} | from <= v < k
        ensures View(mem, p, v) == Some(UserPage(PTE_P + PTE_W + PTE_U, Filled(0)))
      {
        assert Same(before, mem, p, v);
      }
    }

    /** A failed allocuvm takes back what it has done. */
    lemma {:induction false} AllocUndone(was: Memory, free: seq<int>, holds: set<int>, owns: Owner, mid: Memory, grown: Owner,
                                         p: int, from: int, k: int, upto: int)
      requires Good(was, free, dirs, owns, holds, lo) && Valid() && p in dirs && |was| == |mid| == |mem| && 0 <= from <= k <= upto <= USER_PAGES
      requires forall v {:trigger Pte(was, p, v)} :: from <= v < USER_PAGES ==> !Present(Pte(was, p, v))
      requires SameBut(was, mid, dirs, p, from, k) && Grown(owns, grown, p, from, k)
      requires SameBut(mid, mem, dirs, p, from, upto) && Gone(grown, owner, p, from, upto)
      requires forall v {:trigger Pte(mem, p, v)} :: from <= v < upto ==> !Present(Pte(mem, p, v))
      ensures forall q, v {:trigger View(mem, q, v)} :: InRange(dirs, q, v) ==> View(mem, q, v) == View(was, q, v)
      ensures Grown(owns, owner, p, 0, 0)
    {
      forall q, v {:trigger View(mem, q, v)} | InRange(dirs, q, v)
        ensures View(mem, q, v) == View(was, q, v)
      {
        if q == p && from <= v < upto {
          assert !Present(Pte(mem, p, v)) && !Present(Pte(was, p, v));
        } else {
          assert Same(was, mid, q, v) && Same(mid, mem, q, v);
        }
      }
      forall f | f in owns && owns[f].User? && owns[f].p == p
        ensures owns[f].v < from
      {
        assert OwnedOk(was, dirs, owns, lo, f);
        assert Present(Pte(was, p, owns[f].v));
      }
    }

    lemma {:induction false} SameViews(was: Memory, undone: Memory)
      requires Shaped(mem, dirs) && Shaped(undone, dirs) && Shaped(was, dirs) && SameBut(undone, mem, dirs, 0, 0, 0)
      requires forall q, v {:trigger View(undone, q, v)} :: InRange(dirs, q, v) ==> View(undone, q, v) == View(was, q, v)
      ensures forall q, v {:trigger View(mem, q, v)} :: InRange(dirs, q, v) ==> View(mem, q, v) == View(was, q, v)
    {
      forall q, v {:trigger View(mem, q, v)} | InRange(dirs, q, v)
        ensures View(mem, q, v) == View(was, q, v)
      {
        assert Same(undone, mem, q, v) && View(undone, q, v) == View(was, q, v);
      }
    }

    /** allocuvm's way out at page k: deallocuvm(pgdir, newsz, oldsz), and the frame that has not been mapped is freed. */
    method TakeBack(p: int, oldsz: int, newsz: int, frame: Option<int>,
                    ghost was: Memory, ghost free: seq<int>, ghost owns: Owner, ghost holds: set<int>, ghost k: int)
      requires 0 <= oldsz <= newsz < KERNBASE && Good(was, free, dirs, owns, holds, lo)
      requires Alloced(was, owns, if frame.Some? then holds + {frame.value} else holds, p, PageUp(oldsz), k) && k <= PageUp(newsz)
      requires frame.Some? ==> frame.value !in holds
      requires p in dirs && forall v {:trigger Pte(was, p, v)} :: PageUp(oldsz) <= v < USER_PAGES ==> !Present(Pte(was, p, v))
      modifies `mem, `freelist, `owner, `held
      ensures Valid() && held == holds && |mem| == |was| && Shaped(was, dirs)
      ensures forall q, v {:trigger View(mem, q, v)} :: InRange(dirs, q, v) ==> View(mem, q, v) == View(was, q, v)
      ensures Grown(owns, owner, p, 0, 0)
    {
      RoundedUp(newsz);
      hide Good, SameBut, View, PageUp;
      ghost var mid, grown := mem, owner;
      var _ := Deallocuvm(p, newsz, oldsz);
      AllocUndone(was, free, holds, owns, mid, grown, p, PageUp(oldsz), k, PageUp(newsz));
      if frame.Some? {
        ghost var undone := mem;
        Kfree(frame.value);
        SameViews(was, undone);
      }
    }

    /** More pages for an address space, up to a new size; without success everything that it shows is as before, and no user frame
        has been lost. */
    method Allocuvm(p: int, oldsz: int, newsz: int) returns (r: int, ok: bool)
      requires Valid() && p in dirs && 0 <= oldsz < UINT && 0 <= newsz < UINT
      requires forall v :: PageUp(oldsz) <= v < USER_PAGES ==> Shaped(mem, dirs) && !Present(Pte(mem, p, v))
      modifies `mem, `freelist, `owner, `held
      ensures Valid() && held == old(held) && |mem| == |old(mem)| && Shaped(old(mem), dirs)
      ensures newsz < KERNBASE && oldsz <= newsz ==>
                0 <= p < |old(mem)| && (ok <==> Needed(old(mem), p, PageUp(oldsz), PageUp(newsz)) <= |old(freelist)|)
      ensures newsz >= KERNBASE ==> !ok
      ensures newsz < KERNBASE && newsz < oldsz ==> ok
      ensures r == if !ok then 0 else if newsz < oldsz then oldsz else newsz
      ensures ok ==>
                && SameBut(old(mem), mem, dirs, p, PageUp(oldsz), PageUp(newsz))
                && Grown(old(owner), owner, p, PageUp(oldsz), PageUp(newsz))
                && forall v {:trigger View(mem, p, v)} :: PageUp(oldsz) <= v < PageUp(newsz) ==>
                     View(mem, p, v) == Some(UserPage(PTE_P + PTE_W + PTE_U, Filled(0)))
      ensures !ok ==>
                && (forall q, v {:trigger View(mem, q, v)} :: InRange(dirs, q, v) ==> View(mem, q, v) == View(old(mem), q, v))
                && Grown(old(owner), owner, p, 0, 0)
    {
      ghost var was, free, owns, holds, from := mem, freelist, owner, held, PageUp(oldsz);
      assert SameBut(mem, mem, dirs, p, from, from) && Shaped(mem, dirs);
      if newsz >= KERNBASE {
        return 0, false;
      }
      RoundedUp(oldsz);
      RoundedUp(newsz);
      if newsz < oldsz {
        assert PageUp(newsz) <= from;
        SameWider(was, mem, dirs, p, from, from, p, from, PageUp(newsz));
        return oldsz, true;
      }
      NothingSpent(was, p, from, |freelist|);
      hide Good, View, Spent, Needed, PageUp;
      ok := AllocPages(p, oldsz, newsz, was, free, owns, holds);
      return if ok then newsz else 0, ok;
    }

    /** allocuvm's loop. */
    method AllocPages(p: int, oldsz: int, newsz: int, ghost was: Memory, ghost free: seq<int>, ghost owns: Owner, ghost holds: set<int>)
        returns (ok: bool)
      requires 0 <= oldsz <= newsz < KERNBASE && Good(was, free, dirs, owns, holds, lo)
      requires Alloced(was, owns, holds, p, PageUp(oldsz), PageUp(oldsz))
      requires Spent(was, mem, p, PageUp(oldsz), PageUp(oldsz), |freelist|, |freelist|)
      requires p in dirs && forall v {:trigger Pte(was, p, v)} :: PageUp(oldsz) <= v < USER_PAGES ==> !Present(Pte(was, p, v))
      modifies `mem, `freelist, `owner, `held
      ensures ok ==> Alloced(was, owns, holds, p, PageUp(oldsz), PageUp(newsz))
      ensures !ok ==>
                && Valid() && held == holds && |mem| == |was| && Shaped(was, dirs)
                && (forall q, v {:trigger View(mem, q, v)} :: InRange(dirs, q, v) ==> View(mem, q, v) == View(was, q, v))
                && Grown(owns, owner, p, 0, 0)
      ensures 0 <= p < |was| && 0 <= PageUp(oldsz) <= PageUp(newsz) <= USER_PAGES
      ensures ok <==> Needed(was, p, PageUp(oldsz), PageUp(newsz)) <= |old(freelist)|
    {
      RoundedUp(oldsz);
      RoundedUp(newsz);
      assert PageUp(oldsz) <= PageUp(newsz);
      hide Alloced, Spent, Needed, PageUp, RoundUp, Good, Valid, SameBut, Same, View, Pte, Grown, TableOf;
      var a := RoundUp(oldsz);
      while a < newsz
        invariant a % PGSIZE == 0 && PageUp(oldsz) <= a / PGSIZE <= PageUp(newsz)
        invariant Alloced(was, owns, holds, p, PageUp(oldsz), a / PGSIZE)
        invariant Spent(was, mem, p, PageUp(oldsz), a / PGSIZE, |old(freelist)|, |freelist|)
      {
        PageBelow(a, newsz);
        var done, frame := AllocTurn(p, a / PGSIZE, was, owns, holds, PageUp(oldsz), |old(freelist)|);
        if !done {
          NeededGrows(was, p, PageUp(oldsz), a / PGSIZE + 1, PageUp(newsz));
          TakeBack(p, oldsz, newsz, frame, was, free, owns, holds, a / PGSIZE);
          return false;
        }
        a := a + PGSIZE;
      }
      PageBelow(a, newsz);
      Afforded(was, mem, p, PageUp(oldsz), a / PGSIZE, |old(freelist)|, |freelist|);
      return true;
    }

    // ---------- freevm ----------

    /** What freevm has done when it stands at directory entry i of p, which is no address space any more: was is the
        memory before, and the directory and the later tables are still in the kernel's hands. */
    ghost predicate Freeing(was: Memory, p: int, holds: set<int>, i: int)
      reads this
    {
      && Valid() && p !in dirs && |was| == |mem| && 0 <= p < |mem| && mem[p] == was[p] && 0 <= i && p !in holds
      && held == holds + {p} + TablesFrom(was, p, i)
      && Shaped(was, dirs) && SameBut(was, mem, dirs, 0, 0, 0)
    }

    /** One turn of freevm's loop over the directory. */
    method FreeTurn(p: int, i: int, ghost was: Memory, ghost free: seq<int>, ghost ds: set<int>, ghost owns: Owner, ghost holds: set<int>)
      requires Freeing(was, p, holds, i) && i < ENTRIES && Good(was, free, ds, owns, holds, lo) && p in ds
      modifies `mem, `freelist, `held
      ensures Freeing(was, p, holds, i + 1)
    {
      var pde := mem[p][i];
      if Present(pde) {
        TablesFromNext(was, free, ds, owns, holds, lo, p, i);
        ghost var before, had := mem, held;
        Kfree(FrameOf(pde));
        SameTwice(was, before, mem, dirs, 0, 0, 0);
        assert held == holds + {p} + TablesFrom(was, p, i + 1);
      } else {
        assert TablesFrom(was, p, i) == TablesFrom(was, p, i + 1);
      }
    }

    /** Free an address space: its user pages, its tables, its directory, and nothing else. */
    method Freevm(p: int)
      requires Valid() && p in dirs
      modifies `mem, `freelist, `dirs, `owner, `held
      ensures Valid() && held == old(held) && |mem| == |old(mem)| && dirs == old(dirs) - {p}
      ensures owner == WithoutSpace(old(owner), p)
      ensures Shaped(old(mem), dirs) && SameBut(old(mem), mem, dirs, 0, 0, 0)
    {
      ghost var start, owns0 := mem, owner;
      var _ := Deallocuvm(p, KERNBASE, 0);
      ghost var was, free, ds, owns, holds := mem, freelist, dirs, owner, held;
      RefOwned(mem, freelist, dirs, owner, held, lo, Dir(p));
      DirDroppedGood(mem, freelist, dirs, owner, held, lo, p);
      dirs := dirs - {p};
      owner := WithoutSpace(owner, p);
      held := held + {p} + TablesFrom(mem, p, 0);
      FewerSpaces(start, was, ds, p);
      WithoutGone(owns0, owns, p, 0, PageUp(KERNBASE));
      assert SameBut(was, mem, dirs, 0, 0, 0);
      hide Good, SameBut;
      var i := 0;
      while i < ENTRIES
        invariant 0 <= i <= ENTRIES && Freeing(was, p, holds, i) && dirs == ds - {p} && owner == WithoutSpace(owns, p)
      {
        FreeTurn(p, i, was, free, ds, owns, holds);
        i := i + 1;
      }
      assert TablesFrom(was, p, ENTRIES) == {};
      ghost var last := mem;
      Kfree(p);
      SameTwice(was, last, mem, dirs, 0, 0, 0);
      SameTwice(start, was, mem, dirs, 0, 0, 0);
      assert held == holds;
    }

    /** Pages of p do not count among the other address spaces. */
    lemma {:induction false} FewerSpaces(was: Memory, mem': Memory, ds: set<int>, p: int)
      requires Shaped(was, ds) && Shaped(mem', ds) && SameBut(was, mem', ds, p, 0, USER_PAGES)
      ensures Shaped(was, ds - {p}) && Shaped(mem', ds - {p}) && SameBut(was, mem', ds - {p}, 0, 0, 0)
    {
      hide Same;
    }

    // ---------- copyuvm ----------

    /** setupkvm: an address space that shows the user nothing, with a table for each of the kernel's directory entries.
        Without enough frames all that had been allocated is given back. */
    method NewSpace() returns (r: Option<int>)
      requires Valid()
      modifies `mem, `freelist, `dirs, `owner, `held
      ensures Valid() && held == old(held) && |mem| == |old(mem)|
      ensures r.Some? <==> 1 + |kdirs| <= |old(freelist)|
      ensures r.None? ==> dirs == old(dirs) && owner == old(owner)
      ensures r.Some? ==> Built(r.value, old(mem), old(dirs), old(owner), old(held), |kdirs|) && |freelist| == |old(freelist)| - 1 - |kdirs|
      ensures Shaped(old(mem), old(dirs)) && Shaped(mem, old(dirs)) && SameBut(old(mem), mem, old(dirs), 0, 0, 0)
    {
      ghost var was, ds, owns, holds := mem, dirs, owner, held;
      var d := NewDirectory();
      if d.None? {
        return None;
      }
      hide Good, SameBut, Pte, TableOf, Built;
      var i := 0;
      while i < |kdirs|
        invariant 0 <= i <= |kdirs| && Built(d.value, was, ds, owns, holds, i) && |freelist| == |old(freelist)| - 1 - i
      {
        var ok := KernelTable(d.value, i, was, ds, owns, holds);
        if !ok {
          GiveUpNew(d.value, was, ds, owns, holds, i);
          return None;
        }
        i := i + 1;
      }
      BuiltSame(d.value, was, ds, owns, holds);
      return d;
    }

    /** A new directory d with the first i of the kernel's tables, in a state that was (was, ds, owns, holds). */
    ghost predicate Built(d: int, was: Memory, ds: set<int>, owns: Owner, holds: set<int>, i: nat)
      reads this
    {
      && Valid() && held == holds && d !in ds && dirs == ds + {d} && |mem| == |was| && 0 <= d < |mem| && i <= |kdirs|
      && Shaped(was, ds) && Shaped(mem, ds) && SameBut(was, mem, ds, 0, 0, 0)
      && (forall v {:trigger Pte(mem, d, v)} :: 0 <= v < USER_PAGES ==> Pte(mem, d, v) == 0)
      && (forall e {:trigger TableOf(mem, d, e)} :: 0 <= e < ENTRIES && e !in kdirs[..i] ==> TableOf(mem, d, e) == -1)
      && (forall f :: f in owns ==> f in owner && owner[f] == owns[f] && owns[f].p != d)
      && (forall f :: f in owner && f !in owns ==> owner[f].p == d)
    }

    lemma {:induction false} BuiltSame(d: int, was: Memory, ds: set<int>, owns: Owner, holds: set<int>)
      requires Built(d, was, ds, owns, holds, |kdirs|)
      ensures Valid() && held == holds && |mem| == |was| && Shaped(was, ds) && Shaped(mem, ds) && SameBut(was, mem, ds, 0, 0, 0)
    {
    }

    method NewDirectory() returns (r: Option<int>)
      requires Valid()
      modifies `mem, `freelist, `dirs, `owner, `held
      ensures r.None? <==> old(freelist) == []
      ensures r.None? ==> Valid() && mem == old(mem) && dirs == old(dirs) && owner == old(owner) && held == old(held)
      ensures r.Some? ==> Built(r.value, old(mem), old(dirs), old(owner), old(held), 0) && |freelist| == |old(freelist)| - 1
      ensures Shaped(mem, old(dirs)) && Shaped(old(mem), old(dirs)) && SameBut(old(mem), mem, old(dirs), 0, 0, 0)
    {
      OwnersKnown();
      assert SameBut(mem, mem, dirs, 0, 0, 0);
      r := KallocZeroed();
      if r.Some? {
        DirAddedGood(mem, freelist, dirs, owner, held, lo, r.value);
        dirs := dirs + {r.value};
        owner := owner[r.value := Dir(r.value)];
        held := held - {r.value};
        assert mem[r.value] == Filled(0);
      }
    }

    /** One more of the kernel's tables. */
    method KernelTable(d: int, i: nat, ghost was: Memory, ghost ds: set<int>, ghost owns: Owner, ghost holds: set<int>) returns (ok: bool)
      requires Built(d, was, ds, owns, holds, i) && i < |kdirs|
      modifies `mem, `freelist, `owner, `held
      ensures ok <==> old(freelist) != []
      ensures Built(d, was, ds, owns, holds, if ok then i + 1 else i)
      ensures |freelist| == if ok then |old(freelist)| - 1 else 0
    {
      ghost var before := mem;
      assert kdirs[..i + 1] == kdirs[..i] + [kdirs[i]];
      hide Good, Pte, TableOf;
      var r := MakeTable(d, kdirs[i]);
      if r.None? {
        return false;
      }
      forall q, v {:trigger Same(was, mem, q, v)} | InRange(ds, q, v)
        ensures Same(was, mem, q, v)
      {
        assert Same(was, before, q, v) && Same(before, mem, q, v);
      }
      forall v {:trigger Pte(mem, d, v)} | 0 <= v < USER_PAGES
        ensures Pte(mem, d, v) == 0
      {
        assert Same(before, mem, d, v);
      }
      return true;
    }

    /** setupkvm's way out: what there is of the new address space is freed. */
    method GiveUpNew(d: int, ghost was: Memory, ghost ds: set<int>, ghost owns: Owner, ghost holds: set<int>, ghost i: nat)
      requires Built(d, was, ds, owns, holds, i)
      modifies `mem, `freelist, `dirs, `owner, `held
      ensures Valid() && held == holds && dirs == ds && owner == owns && |mem| == |was|
      ensures Shaped(was, ds) && Shaped(mem, ds) && SameBut(was, mem, ds, 0, 0, 0)
    {
      hide Good, SameBut, Pte;
      ghost var mid, owned := mem, owner;
      Freevm(d);
      assert dirs == ds;
      SameTwice(was, mid, mem, ds, 0, 0, 0);
      WithoutNew(owns, owned, d);
    }

    /** What copyuvm has done when it stands at page k: the first k pages of p, as they were, show in the copy d. */
    ghost predicate Copied(was: Memory, ds: set<int>, owns: Owner, holds: set<int>, p: int, d: int, k: int)
      reads this
    {
      && Valid() && held == holds && p in ds && d !in ds && dirs == ds + {d} && 0 <= k <= USER_PAGES && |was| == |mem|
      && Shaped(was, ds) && Shaped(mem, ds) && SameBut(was, mem, ds, 0, 0, 0)
      && (forall v {:trigger View(mem, d, v)} :: 0 <= v < k ==> View(mem, d, v) == View(was, p, v))
      && (forall v {:trigger Pte(mem, d, v)} :: k <= v < USER_PAGES ==> Pte(mem, d, v) == 0)
      && (forall f :: f in owns ==> f in owner && owner[f] == owns[f])
      && (forall f :: f in owner && f !in owns ==> owner[f].p == d)
      && (forall f :: f in owns ==> owns[f].p != d)
    }

    /** The first half of a turn of copyuvm: a frame with the contents of a page, and the flags of that page. */
    method CopyFrame(p: int, k: int) returns (frame: Option<int>, flags: int)
      requires Valid() && InRange(dirs, p, k) && Present(Pte(mem, p, k))
      modifies `mem, `freelist, `held
      ensures Valid() && |mem| == |old(mem)| && Shaped(old(mem), dirs) && SameBut(old(mem), mem, dirs, 0, 0, 0)
      ensures frame.None? <==> old(freelist) == []
      ensures frame.None? ==> mem == old(mem) && held == old(held)
      ensures frame.Some? ==>
                && 0 <= frame.value < |mem| && held == old(held) + {frame.value} && frame.value !in old(held)
                && frame.value !in dirs && frame.value !in owner && |freelist| == |old(freelist)| - 1
                && 0 <= flags < PGSIZE && WithP(flags) == flags
                && mem == old(mem)[frame.value := mem[frame.value]]
                && View(old(mem), p, k) == Some(UserPage(flags, mem[frame.value]))
    {
      assert SameBut(mem, mem, dirs, 0, 0, 0);
      var pte := Walk(p, k);
      TableOwned(mem, freelist, dirs, owner, held, lo, p, k / ENTRIES);
      RefOwned(mem, freelist, dirs, owner, held, lo, User(p, k));
      var e := mem[pte.value][k % ENTRIES];
      var pa := FrameOf(e);
      flags := FlagsOf(e);
      hide SameBut;
      frame := Kalloc();
      if frame.Some? {
        HeldWritten(mem, freelist, dirs, owner, held, lo, frame.value, mem[pa]);
        mem := mem[frame.value := mem[pa]];
      }
    }

    /** One turn of copyuvm's loop; !ok is goto bad, with the frame that had been allocated given back. */
    method CopyTurn(p: int, d: int, k: int, ghost was: Memory, ghost ds: set<int>, ghost owns: Owner, ghost holds: set<int>,
                    ghost start: Memory, ghost had: nat)
        returns (ok: bool)
      requires Copied(was, ds, owns, holds, p, d, k) && k < USER_PAGES && Present(Pte(was, p, k))
      requires Spent(start, mem, d, 0, k, had, |freelist|)
      modifies `mem, `freelist, `owner, `held
      ensures Copied(was, ds, owns, holds, p, d, if ok then k + 1 else k)
      ensures if ok then Spent(start, mem, d, 0, k + 1, had, |freelist|) else had < Needed(start, d, 0, k + 1)
    {
      ghost var before, left := mem, |freelist|;
      NextCost(start, mem, d, 0, k, had, left);
      assert Same(was, before, p, k);
      var frame, flags := CopyFrame(p, k);
      if frame.None? {
        return false;
      }
      ghost var filled := mem;
      assert filled[d] == before[d];
      hide Good, TableOf, View, Pte, Needed, SameBut;
      CopyKeeps(was, before, ds, owns, p, d, k, k);
      hide Copied;
      ok := PlaceFrame(d, k, frame.value, flags, was, ds, owns, holds, p);
      if ok {
        TablesAround(before, filled, mem, mem, d, k);
        SpentMore(start, before, mem, d, 0, k, had, left);
      }
    }

    /** The second half of a turn of copyuvm: the frame is mapped in the copy, or freed when there is none for a table. */
    method PlaceFrame(d: int, k: int, frame: int, flags: int,
                      ghost was: Memory, ghost ds: set<int>, ghost owns: Owner, ghost holds: set<int>, ghost p: int)
        returns (ok: bool)
      requires Copied(was, ds, owns, holds + {frame}, p, d, k) && k < USER_PAGES && frame !in holds
      requires 0 <= flags < PGSIZE && WithP(flags) == flags
      requires 0 <= frame < |mem| && 0 <= p < |was| && View(was, p, k) == Some(UserPage(flags, mem[frame]))
      modifies `mem, `freelist, `owner, `held
      ensures Copied(was, ds, owns, holds, p, d, if ok then k + 1 else k)
      ensures 0 <= d < |old(mem)| && (!ok <==> old(freelist) == [] && TableOf(old(mem), d, k / ENTRIES) == -1)
      ensures ok ==> TablesBut(old(mem), mem, d, k) && |freelist| == |old(freelist)| - TableCost(old(mem), d, k)
    {
      hide Good, TableOf, View, Pte, SameBut;
      ghost var before := mem;
      var r, _ := MapPage(d, k, frame, flags);
      if r == -1 {
        Kfree(frame);
        CopyKeeps(was, before, ds, owns, p, d, k, k);
        assert held == holds;
        return false;
      }
      CopyKeeps(was, before, ds, owns, p, d, k, k + 1);
      assert held == holds;
      return true;
    }

    /** bad: the copy is freed. */
    method GiveUpCopy(d: int, ghost was: Memory, ghost ds: set<int>, ghost owns: Owner, ghost holds: set<int>, ghost p: int, ghost k: int)
      requires Copied(was, ds, owns, holds, p, d, k)
      modifies `mem, `freelist, `dirs, `owner, `held
      ensures Valid() && held == holds && dirs == ds && owner == owns && |mem| == |was|
      ensures Shaped(was, ds) && Shaped(mem, ds) && SameBut(was, mem, ds, 0, 0, 0)
    {
      hide Good, SameBut, View, Pte;
      ghost var mid, owned := mem, owner;
      Freevm(d);
      assert dirs == ds;
      SameTwice(was, mid, mem, ds, 0, 0, 0);
      WithoutNew(owns, owned, d);
    }

    lemma {:induction false} CopyKeeps(was: Memory, before: Memory, ds: set<int>, owns: Owner, p: int, d: int, k: int, k': int)
      requires p in ds && d !in ds && dirs == ds + {d} && 0 <= k <= k' <= k + 1 && k < USER_PAGES && |was| == |mem| == |before|
      requires Shaped(was, ds) && Shaped(before, dirs) && Shaped(mem, dirs)
      requires SameBut(was, before, ds, 0, 0, 0)
      requires if k' == k then SameBut(before, mem, dirs, 0, 0, 0) else SameBut(before, mem, dirs, d, k, k + 1)
      requires k' == k + 1 ==> View(mem, d, k) == View(was, p, k)
      requires forall v {:trigger View(before, d, v)} :: 0 <= v < k ==> View(before, d, v) == View(was, p, v)
      requires forall v {:trigger Pte(before, d, v)} :: k <= v < USER_PAGES ==> Pte(before, d, v) == 0
      ensures SameBut(was, mem, ds, 0, 0, 0)
      ensures forall v {:trigger View(mem, d, v)} :: 0 <= v < k' ==> View(mem, d, v) == View(was, p, v)
      ensures forall v {:trigger Pte(mem, d, v)} :: k' <= v < USER_PAGES ==> Pte(mem, d, v) == 0
    {
      hide Pte, View;
      forall q, v {:trigger Same(was, mem, q, v)} | InRange(ds, q, v)
        ensures Same(was, mem, q, v)
      {
        assert Same(was, before, q, v) && Same(before, mem, q, v);
      }
      forall v {:trigger View(mem, d, v)} | 0 <= v < k'
        ensures View(mem, d, v) == View(was, p, v)
      {
        assert v < k ==> Same(before, mem, d, v);
      }
      forall v {:trigger Pte(mem, d, v)} | k' <= v < USER_PAGES
        ensures Pte(mem, d, v) == 0
      {
        assert Same(before, mem, d, v);
      }
    }

    lemma {:induction false} OwnersKnown()
      requires Valid()
      ensures forall f :: f in owner ==> owner[f].p in dirs
    {
      forall f | f in owner
        ensures owner[f].p in dirs
      {
        assert OwnedOk(mem, dirs, owner, lo, f);
      }
    }

    lemma {:induction false} CopyDone(was: Memory, ds: set<int>, owns: Owner, holds: set<int>, p: int, d: int, k: int)
      requires Copied(was, ds, owns, holds, p, d, k)
      ensures 0 <= d < |mem| && 0 <= p < |was|
      ensures Valid() && held == holds && d !in ds && dirs == ds + {d} && |was| == |mem|
      ensures Shaped(was, ds) && Shaped(mem, ds) && SameBut(was, mem, ds, 0, 0, 0)
      ensures forall v {:trigger View(mem, d, v)} :: 0 <= v < USER_PAGES ==>
                View(mem, d, v) == if v < k then View(was, p, v) else None
    {
      forall v {:trigger View(mem, d, v)} | k <= v < USER_PAGES
        ensures View(mem, d, v) == None
      {
        assert Pte(mem, d, v) == 0;
      }
    }

    /** A copy of the first sz bytes of an address space: equal flags and contents at every page, in frames of its own.
        Without success, all that had been allocated has been given back. The panics cannot be reached. */
    method Copyuvm(p: int, sz: int) returns (r: Option<int>)
      requires Valid() && p in dirs && 0 <= sz <= KERNBASE
      requires forall v :: 0 <= v < PageUp(sz) ==> Shaped(mem, dirs) && Present(Pte(mem, p, v))
      modifies `mem, `freelist, `dirs, `owner, `held
      ensures Valid() && held == old(held) && |mem| == |old(mem)|
      ensures Shaped(old(mem), old(dirs)) && Shaped(mem, old(dirs)) && SameBut(old(mem), mem, old(dirs), 0, 0, 0)
      ensures r.Some? ==>
                && r.value !in old(dirs) && dirs == old(dirs) + {r.value} && 0 <= r.value < |mem| && 0 <= p < |old(mem)|
                && forall v {:trigger View(mem, r.value, v)} :: 0 <= v < USER_PAGES ==>
                     View(mem, r.value, v) == if v < PageUp(sz) then View(old(mem), p, v) else None
      ensures r.None? ==> dirs == old(dirs) && owner == old(owner)
      ensures r.Some? <==> 1 + |kdirs| + PageUp(sz) + (PageUp(sz) + ENTRIES - 1) / ENTRIES <= |old(freelist)|
    {
      ghost var was, ds, owns, holds := mem, dirs, owner, held;
      assert Shaped(mem, dirs);
      OwnersKnown();
      var d := NewSpace();
      if d.None? {
        return None;
      }
      assert Copied(was, ds, owns, holds, p, d.value, 0);
      NeededEmpty(mem, d.value, PageUp(sz));
      NothingSpent(mem, d.value, 0, |freelist|);
      hide Good, SameBut, View, Pte, TableOf, Spent, Needed;
      var ok := CopyPages(p, d.value, sz, was, ds, owns, holds);
      if !ok {
        return None;
      }
      CopyDone(was, ds, owns, holds, p, d.value, PageUp(sz));
      return d;
    }

    /** copyuvm's loop. */
    method CopyPages(p: int, d: int, sz: int, ghost was: Memory, ghost ds: set<int>, ghost owns: Owner, ghost holds: set<int>)
        returns (ok: bool)
      requires Copied(was, ds, owns, holds, p, d, 0) && 0 <= sz <= KERNBASE
      requires Spent(mem, mem, d, 0, 0, |freelist|, |freelist|)
      requires forall v {:trigger Pte(was, p, v)} :: 0 <= v < PageUp(sz) ==> Present(Pte(was, p, v))
      modifies `mem, `freelist, `dirs, `owner, `held
      ensures ok ==> Copied(was, ds, owns, holds, p, d, PageUp(sz))
      ensures !ok ==>
                && Valid() && held == holds && dirs == ds && owner == owns && |mem| == |was|
                && Shaped(was, ds) && Shaped(mem, ds) && SameBut(was, mem, ds, 0, 0, 0)
      ensures 0 <= d < |old(mem)| && 0 <= PageUp(sz) <= USER_PAGES
      ensures ok <==> Needed(old(mem), d, 0, PageUp(sz)) <= |old(freelist)|
    {
      RoundedUp(sz);
      PageBelow(0, sz);
      hide Copied, Spent, Needed, PageUp, RoundUp, Good, Valid, SameBut, Same, View, Pte, TableOf;
      var i := 0;
      while i < sz
        invariant i % PGSIZE == 0 && 0 <= i / PGSIZE <= PageUp(sz)
        invariant Copied(was, ds, owns, holds, p, d, i / PGSIZE)
        invariant Spent(old(mem), mem, d, 0, i / PGSIZE, |old(freelist)|, |freelist|)
      {
        PageBelow(i, sz);
        var done := CopyTurn(p, d, i / PGSIZE, was, ds, owns, holds, old(mem), |old(freelist)|);
        if !done {
          NeededGrows(old(mem), d, 0, i / PGSIZE + 1, PageUp(sz));
          GiveUpCopy(d, was, ds, owns, holds, p, i / PGSIZE);
          return false;
        }
        i := i + PGSIZE;
      }
      PageBelow(i, sz);
      Afforded(old(mem), mem, d, 0, PageUp(sz), |old(freelist)|, |freelist|);
      return true;
    }
  }
}
