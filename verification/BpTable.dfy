/** The table file and the operations on it, as the program performs them: pages are loaded, changed entry by entry
    in loops, and written back.
 */
module BpTable {
  import opened BpShape
  import opened BpInsert
  import opened BpParent
  import opened BpDelete

  const RECORDS := 31
  const ENTRIES := 248
  const PAGE_SIZE := 4240
  const HEADER_SIZE := 4096

  /** struct Page: only the first n records (of a leaf) or entries (of an inner page) mean anything. An inner page
      keeps its leftmost child in `next`. */
  datatype Page = Page(parent: Off, isLeaf: bool, n: nat, next: Off, entries: seq<Entry>, records: seq<Record>)

  const ZERO_PAGE: Page := Page(0, false, 0, 0, seq(ENTRIES, _ => Entry(0, 0)), seq(RECORDS, _ => Record(0, false, "")))

  predicate PageOk(p: Page) {
    |p.entries| == ENTRIES && |p.records| == RECORDS && p.n <= (if p.isLeaf then RECORDS else ENTRIES)
  }

  function View(p: Page): Node
    requires PageOk(p)
  {
    if p.isLeaf then Leaf(p.parent, p.next, p.records[..p.n]) else Inner(p.parent, p.next, p.entries[..p.n])
  }

  function ViewAll(pages: map<Off, Page>): (t: Tree)
    requires forall o :: o in pages ==> PageOk(pages[o])
    ensures t.Keys == pages.Keys
  {
    map o | o in pages :: View(pages[o])
  }

  /** Writing one page changes one node. */
  lemma {:induction false} ViewWrite(pages: map<Off, Page>, o: Off, p: Page)
    requires PageOk(p) && forall x :: x in pages ==> PageOk(pages[x])
    ensures ViewAll(pages[o := p]) == ViewAll(pages)[o := View(p)]
    ensures o in pages ==> ViewAll(pages)[o] == View(pages[o])
  {
  }

  /** Pages that form a tree holding m, with q still to be passed up. */
  ghost predicate Good(pages: map<Off, Page>, root: Off, s: Shape, m: map<int, string>, q: Pending)
    requires forall o :: o in pages ==> PageOk(pages[o])
  {
    var t := ViewAll(pages);
    && TreeOk(t, root, s, q) && Sized(t, root) && Holds(t, s, m)
    && (q.Split? ==> Count(t[q.left]) >= MinCount(t[q.left]))
  }

  /** The page's interval contains the key. */
  ghost predicate Covers(s: Shape, p: Off, k: int) {
    p in s.lo && p in s.hi && In(s, p, k)
  }

  lemma {:induction false} FewerAbove(s: Shape, o: Off, p: Off, key: int, u: Off)
    requires o in s.height && p in s.height && p in s.hi && u !in s.height && s.height[p] == s.height[o] + 1
    ensures PagesAbove(SplitShape(s, p, key, u), p) < PagesAbove(s, o)
  {
    assert p in PagesAbove(s, o) && p !in PagesAbove(SplitShape(s, p, key, u), p);
  }

  lemma {:induction false} PositionUnique(recs: seq<Record>, k: int, i: nat)
    requires i <= |recs| && (forall j :: 0 <= j < i ==> recs[j].key < k) && (i < |recs| ==> k <= recs[i].key)
    ensures i == Position(recs, k)
  {
  }

  /** One record more in a page, and nothing else different. */
  ghost predicate RecordAdded(was: Page, now: Page, r: Record) {
    && PageOk(was) && PageOk(now) && was.isLeaf && now == was.(n := was.n + 1, records := now.records)
    && exists i :: 0 <= i <= was.n && now.records[..now.n] == was.records[..i] + [r] + was.records[i..was.n]
  }

  /** The live record of a key has been deleted: from a full leaf it is taken out, and then there is room again; elsewhere it
      is marked and stays. Nothing else is different. */
  ghost predicate RecordDeleted(was: Page, now: Page, key: int) {
    && PageOk(was) && PageOk(now) && was.isLeaf && now == was.(n := now.n, records := now.records)
    && exists i :: 0 <= i < was.n && was.records[i].key == key && !was.records[i].dead &&
                   now.records[..now.n] == if was.n == LEAF_MAX then was.records[..i] + was.records[i + 1..was.n]
                                           else was.records[..was.n][i := Record(key, true, was.records[i].value)]
  }

  /** The records of a full leaf and a new one, in order, in two leaves that follow each other in the chain. */
  ghost predicate LeafDivided(was: Page, low: Page, high: Page, right: Off, r: Record) {
    && PageOk(was) && PageOk(low) && PageOk(high) && was.isLeaf && low.isLeaf && high.isLeaf && was.n == LEAF_MAX
    && low.next == right && high.next == was.next
    && exists i :: 0 <= i <= was.n &&
                   low.records[..low.n] + high.records[..high.n] == was.records[..i] + [r] + was.records[i..was.n]
  }

  /** Every leaf of `was` has kept its records and its place in the chain. */
  ghost predicate LeafPagesKept(was: map<Off, Page>, now: map<Off, Page>) {
    forall o :: o in was && was[o].isLeaf ==> o in now && now[o] == was[o].(parent := now[o].parent)
  }

  /** What an insertion does to the pages: the leaf for the key gets one record more, and no other page changes; or it was full,
      is divided, and no other leaf changes. */
  ghost predicate Inserted(was: map<Off, Page>, s: Shape, now: map<Off, Page>, s': Shape, r: Record) {
    forall p :: p in was && was[p].isLeaf && Covers(s, p, r.key) ==>
      && p in now
      && if was[p].n < LEAF_MAX then s' == s && now == was[p := now[p]] && RecordAdded(was[p], now[p], r)
         else LeafPagesKept(was - {p}, now)
              && exists right :: right in now && right !in was && LeafDivided(was[p], now[p], now[right], right, r)
  }

  lemma {:induction false} InsertedAt(was: map<Off, Page>, s: Shape, now: map<Off, Page>, s': Shape, r: Record, leaf: Off, right: Off)
    requires forall p :: p in was && was[p].isLeaf && Covers(s, p, r.key) ==> p == leaf
    requires leaf in was && leaf in now
    requires was[leaf].n < LEAF_MAX ==> s' == s && now == was[leaf := now[leaf]] && RecordAdded(was[leaf], now[leaf], r)
    requires was[leaf].n >= LEAF_MAX ==>
               LeafPagesKept(was - {leaf}, now) && right in now && right !in was && LeafDivided(was[leaf], now[leaf], now[right], right, r)
    ensures Inserted(was, s, now, s', r)
  {
    hide RecordAdded, LeafDivided, LeafPagesKept;
  }

  lemma {:induction false} DeletedRecord(was: Page, now: Page, i: nat, key: int)
    requires PageOk(was) && PageOk(now) && was.isLeaf && now == was.(n := now.n, records := now.records)
    requires i < was.n <= LEAF_MAX && was.records[i].key == key && !was.records[i].dead
    requires now.records[..now.n] == Deleted(was.records[..was.n], i)
    ensures RecordDeleted(was, now, key)
  {
    assert was.records[..was.n][i] == was.records[i];
    assert was.records[..was.n][..i] + was.records[..was.n][i + 1..] == was.records[..i] + was.records[i + 1..was.n];
  }

  lemma {:induction false} RoomAfterDeletion(was: Page, now: Page, key: int)
    requires RecordDeleted(was, now, key) && was.n <= LEAF_MAX
    ensures now.n < LEAF_MAX && now.isLeaf == was.isLeaf
  {
    assert |now.records[..now.n]| == now.n;
  }

  // ---------- loops over one page ----------

  /** The first record whose key is not smaller. */
  method InsertionPoint(p: Page, key: int) returns (i: nat)
    requires PageOk(p) && p.isLeaf
    ensures i == Position(p.records[..p.n], key)
  {
    i := 0;
    while i < p.n && p.records[i].key < key
      invariant i <= p.n
      invariant forall j :: 0 <= j < i ==> p.records[j].key < key
    {
      i := i + 1;
    }
    PositionUnique(p.records[..p.n], key, i);
  }

  /** Records shifted up by one from the insertion point to make room. */
  method ShiftRecordIn(p: Page, point: nat, inst: Record) returns (q: Page)
    requires PageOk(p) && p.isLeaf && point <= p.n < RECORDS
    ensures PageOk(q) && q == p.(n := p.n + 1, records := q.records)
    ensures q.records[..q.n] == p.records[..point] + [inst] + p.records[point..p.n]
  {
    q := p;
    var i := p.n;
    while i > point
      invariant point <= i <= p.n
      invariant q == p.(records := q.records) && |q.records| == RECORDS
      invariant forall j :: 0 <= j <= i && j < p.n ==> q.records[j] == p.records[j]
      invariant forall j :: i < j <= p.n ==> q.records[j] == p.records[j - 1]
    {
      q := q.(records := q.records[i := q.records[i - 1]]);
      i := i - 1;
    }
    q := q.(records := q.records[point := inst]);
    q := q.(n := q.n + 1);
  }

  /** Records shifted down by one over the i-th. */
  method ShiftRecordOut(p: Page, at: nat) returns (q: Page)
    requires PageOk(p) && p.isLeaf && at < p.n
    ensures PageOk(q) && q == p.(n := p.n - 1, records := q.records)
    ensures q.records[..q.n] == p.records[..at] + p.records[at + 1..p.n]
    ensures q.records[p.n - 1..] == p.records[p.n - 1..]
  {
    q := p;
    var i := at + 1;
    while i < p.n
      invariant at < i <= p.n && q == p.(records := q.records) && |q.records| == RECORDS
      invariant q.records[p.n - 1..] == p.records[p.n - 1..]
      invariant forall j :: 0 <= j < at ==> q.records[j] == p.records[j]
      invariant forall j :: at <= j < i - 1 ==> q.records[j] == p.records[j + 1]
      invariant forall j :: i <= j < p.n ==> q.records[j] == p.records[j]
    {
      q := q.(records := q.records[i - 1 := q.records[i]]);
      i := i + 1;
    }
    q := q.(n := q.n - 1);
  }

  method ShiftEntryIn(p: Page, point: nat, inst: Entry) returns (q: Page)
    requires PageOk(p) && !p.isLeaf && point <= p.n < ENTRIES
    ensures PageOk(q) && q == p.(n := p.n + 1, entries := q.entries)
    ensures q.entries[..q.n] == WithEntry(p.entries[..p.n], point, inst)
  {
    q := p;
    var i := p.n;
    while i > point
      invariant point <= i <= p.n
      invariant q == p.(entries := q.entries) && |q.entries| == ENTRIES
      invariant forall j :: 0 <= j <= i && j < p.n ==> q.entries[j] == p.entries[j]
      invariant forall j :: i < j <= p.n ==> q.entries[j] == p.entries[j - 1]
    {
      q := q.(entries := q.entries[i := q.entries[i - 1]]);
      i := i - 1;
    }
    q := q.(entries := q.entries[point := inst]);
    q := q.(n := q.n + 1);
  }

  /** A copy of all elements with a gap for the new one, then the new one. */
  method Spread<T>(items: seq<T>, zero: T, point: nat, inst: T) returns (temp: seq<T>)
    requires point <= |items|
    ensures temp == items[..point] + [inst] + items[point..]
  {
    temp := seq(|items| + 1, _ => zero);
    var i, j := 0, 0;
    while i < |items|
      invariant 0 <= i <= |items| && |temp| == |items| + 1
      invariant j == if i <= point then i else i + 1
      invariant forall k :: 0 <= k < i ==> temp[if k < point then k else k + 1] == items[k]
    {
      if j == point {
        j := j + 1;
      }
      temp := temp[j := items[i]];
      i, j := i + 1, j + 1;
    }
    temp := temp[point := inst];
    assert forall k :: 0 <= k < |items| ==> temp[if k < point then k else k + 1] == items[k];
    assert forall k :: 0 <= k <= |items| ==>
      temp[k] == if k < point then items[k] else if k == point then inst else items[k - 1];
  }

  /** Records from..upto of temp become the records of p. */
  method FillRecords(p: Page, temp: seq<Record>, from: nat, upto: nat) returns (q: Page)
    requires PageOk(p) && p.isLeaf && from <= upto <= |temp| && upto - from <= LEAF_MAX
    ensures PageOk(q) && q == p.(n := upto - from, records := q.records)
    ensures q.records[..q.n] == temp[from..upto]
  {
    q := p.(n := 0);
    var i, j := from, 0;
    while i < upto
      invariant from <= i <= upto && j == i - from && q == p.(n := j, records := q.records)
      invariant |q.records| == RECORDS && q.records[..j] == temp[from..i]
    {
      q := q.(records := q.records[j := temp[i]]);
      q := q.(n := q.n + 1);
      assert temp[from..i + 1] == temp[from..i] + [temp[i]];
      i, j := i + 1, j + 1;
    }
    while j < LEAF_MAX
      invariant q.n <= j <= LEAF_MAX && q == p.(n := upto - from, records := q.records)
      invariant |q.records| == RECORDS && q.records[..q.n] == temp[from..upto]
    {
      q := q.(records := q.records[j := q.records[j].(key := 0)]);
      j := j + 1;
    }
  }

  method FillEntries(p: Page, temp: seq<Entry>, from: nat, upto: nat) returns (q: Page)
    requires PageOk(p) && !p.isLeaf && from <= upto <= |temp| && upto - from <= INTERNAL_MAX
    ensures PageOk(q) && q == p.(n := upto - from, entries := q.entries)
    ensures q.entries[..q.n] == temp[from..upto]
  {
    q := p.(n := 0);
    var i, j := from, 0;
    while i < upto
      invariant from <= i <= upto && j == i - from && q == p.(n := j, entries := q.entries)
      invariant |q.entries| == ENTRIES && q.entries[..j] == temp[from..i]
    {
      q := q.(entries := q.entries[j := temp[i]]);
      q := q.(n := q.n + 1);
      assert temp[from..i + 1] == temp[from..i] + [temp[i]];
      i, j := i + 1, j + 1;
    }
  }

  class Table {
    // the file
    var pages: map<Off, Page>
    var end: nat
    // the header page: first free page, root page, number of pages
    var fpo: Off
    var rpo: Off
    var numPages: nat
    // the root page as last loaded, or None before the first insertion
    var rt: Option<Page>
    // what the tree looks like and holds
    ghost var shape: Shape
    ghost var contents: map<int, string>

    ghost predicate PagesOk()
      reads this
    {
      && (forall o :: o in pages ==> PageOk(pages[o]) && 0 < o < end)
      && 0 < end && fpo == 0
      && (rt.Some? ==> rt.value.n > 0)
    }

    ghost function T(): Tree
      requires PagesOk()
      reads this
    {
      ViewAll(pages)
    }

    ghost predicate Valid()
      reads this
    {
      && PagesOk()
      && (rt.None? ==> pages == map[] && rpo == 0 && contents == map[])
      && (rt.Some? ==> Good(pages, rpo, shape, contents, Whole))
    }

    /** open_table on a new file. */
    constructor ()
      ensures Valid() && rt.None? && contents == map[]
    {
      pages, end := map[], HEADER_SIZE;
      fpo, rpo, numPages := 0, 0, 1;
      rt := None;
      shape := Shape(map[], map[], map[], []);
      contents := map[];
    }

    // ---------- pages ----------

    /** A zeroed page: the first free one, or a new one at the end of the file. */
    method NewPage() returns (newp: Off)
      requires fpo != 0 ==> fpo in pages
      modifies `pages, `end, `fpo, `numPages
      ensures old(fpo) != 0 ==>
                && newp == old(fpo) && fpo == old(pages)[newp].parent && end == old(end) && numPages == old(numPages)
                && pages == old(pages)[newp := old(pages)[newp].(parent := 0, isLeaf := false, n := 0, next := 0)]
      ensures old(fpo) == 0 ==>
                && newp == old(end) && fpo == 0 && end == old(end) + PAGE_SIZE && numPages == old(numPages) + 1
                && pages == old(pages)[newp := ZERO_PAGE]
    {
      if fpo != 0 {
        newp := fpo;
        var np := pages[newp];
        fpo := np.parent;
        var reset := pages[newp];
        reset := reset.(parent := 0);
        reset := reset.(isLeaf := false);
        reset := reset.(n := 0);
        reset := reset.(next := 0);
        pages := pages[newp := reset];
        return;
      }
      newp := end;
      pages := pages[newp := ZERO_PAGE];
      end := end + PAGE_SIZE;
      numPages := numPages + 1;
    }

    // ---------- search ----------

    /** The leaf whose interval contains the key; 0 before the first insertion. */
    method FindLeaf(key: int) returns (loc: Off)
      requires Valid()
      ensures rt.None? ==> loc == 0
      ensures rt.Some? ==> loc in pages && pages[loc].isLeaf && Covers(shape, loc, key)
    {
      if rt.None? {
        return 0;
      }
      ghost var t := T();
      loc := rpo;
      var p := pages[loc];
      assert LinkOk(t, shape, rpo, Whole, rpo);
      while !p.isLeaf
        invariant loc in pages && p == pages[loc] && Covers(shape, loc, key)
        decreases shape.height[loc]
      {
        assert t[loc] == View(p) && InnerOk(t, shape, Whole, loc);
        var i := 0;
        while i < p.n && key >= p.entries[i].key
          invariant 0 <= i <= p.n
          invariant i > 0 ==> p.entries[i - 1].key <= key
        {
          i := i + 1;
        }
        assert ChildOk(t, shape, Whole, loc, i);
        if i == 0 {
          loc := p.next;
        } else {
          loc := p.entries[i - 1].child;
        }
        p := pages[loc];
      }
      assert t[loc] == View(p);
    }

    /** The value of the first record with the key, unless there is none or it is deleted. Before the first insertion
        there is no page to load, and a null pointer is followed (!ok). */
    method DbFind(key: int) returns (r: Option<string>, ok: bool)
      requires Valid()
      ensures ok <==> rt.Some?
      ensures ok ==> r == if key in contents then Some(contents[key]) else None
    {
      var fin := FindLeaf(key);
      if fin !in pages {
        return None, false;
      }
      ghost var t := T();
      var p := pages[fin];
      assert t[fin] == View(p) && LeafOk(t, shape, fin) && LeafHolds(t, shape, contents, fin);
      ghost var recs := t[fin].recs;
      var i := 0;
      while i < p.n && p.records[i].key != key
        invariant 0 <= i <= p.n
        invariant forall j :: 0 <= j < i ==> recs[j].key != key
      {
        i := i + 1;
      }
      FirstDecides(recs, key, i);
      assert Count(t[fin]) <= MaxCount(t[fin]);
      if p.records[i].dead {
        return None, true;
      }
      if i == p.n {
        return None, true;
      } else {
        return Some(p.records[i].value), true;
      }
    }

    /** The first record with a key says whether a live one exists. */
    static lemma {:induction false} FirstDecides(recs: seq<Record>, key: int, i: nat)
      requires SortedRecs(recs) && i <= |recs| && (forall j :: 0 <= j < i ==> recs[j].key != key)
      requires i < |recs| ==> recs[i].key == key
      ensures LiveAt(recs, key) <==> i < |recs| && !recs[i].dead
    {
      if LiveAt(recs, key) {
        var j :| 0 <= j < |recs| && recs[j].key == key && !recs[j].dead;
        assert j == i;
      }
    }
  
    // ---------- insertion ----------

    /** The state while a split of `left` at `key` is passed up. */
    ghost predicate PendingSplit(left: Off, key: int, right: Off)
      reads this
    {
      PagesOk() && rt.Some? && Good(pages, rpo, shape, contents, Split(left, key, right))
    }

    method StartNewFile(rec: Record)
      requires Valid() && rt.None? && !rec.dead
      modifies this
      ensures Valid() && rt.Some? && contents == map[rec.key := rec.value]
    {
      var ro := NewPage();
      rpo := ro;
      var root := pages[ro];
      root := root.(n := 1);
      root := root.(isLeaf := true);
      root := root.(records := root.records[0 := rec]);
      pages := pages[rpo := root];
      rt := Some(pages[rpo]);
      assert root.records[..1] == [rec];
      shape := Shape(map[ro := None], map[ro := None], map[ro := 0], [ro]);
      contents := map[rec.key := rec.value];
      OneLeaf(T(), ro, shape, rec);
    }

    static lemma {:induction false} OneLeaf(t: Tree, ro: Off, s: Shape, rec: Record)
      requires ro != 0 && !rec.dead && t == map[ro := Leaf(0, 0, [rec])]
      requires s == Shape(map[ro := None], map[ro := None], map[ro := 0], [ro])
      ensures TreeOk(t, ro, s, Whole) && Sized(t, ro) && Holds(t, s, map[rec.key := rec.value])
    {
      assert LiveAt([rec], rec.key) by {
        assert [rec][0] == rec;
      }
      assert NextOk(t, s.chain, 0);
    }

    method InsertIntoLeaf(leaf: Off, inst: Record)
      requires Valid() && rt.Some? && leaf in pages && pages[leaf].isLeaf && Covers(shape, leaf, inst.key)
      requires pages[leaf].n < LEAF_MAX && !inst.dead && inst.key !in contents
      modifies this
      ensures Valid() && rt.Some? && contents == old(contents)[inst.key := inst.value]
      ensures shape == old(shape) && pages == old(pages)[leaf := pages[leaf]] && RecordAdded(old(pages)[leaf], pages[leaf], inst)
    {
      hide Good;
      var p := pages[leaf];
      var insertionPoint := InsertionPoint(p, inst.key);
      p := ShiftRecordIn(p, insertionPoint, inst);
      LeafInsertGood(pages, rpo, shape, contents, leaf, inst, p);
      assert RecordAdded(pages[leaf], p, inst);
      pages := pages[leaf := p];
      contents := contents[inst.key := inst.value];
    }

    static lemma {:induction false} LeafInsertGood(pages: map<Off, Page>, root: Off, s: Shape, m: map<int, string>,
                                                   leaf: Off, r: Record, p: Page)
      requires (forall o :: o in pages ==> PageOk(pages[o])) && Good(pages, root, s, m, Whole)
      requires leaf in pages && pages[leaf].isLeaf && Covers(s, leaf, r.key)
      requires pages[leaf].n < LEAF_MAX && !r.dead && r.key !in m
      requires PageOk(p) && p.isLeaf && p == pages[leaf].(n := p.n, records := p.records)
      requires p.records[..p.n] == InsertRec(pages[leaf].records[..pages[leaf].n], r)
      ensures Good(pages[leaf := p], root, s, m[r.key := r.value], Whole)
    {
      var t := ViewAll(pages);
      ViewWrite(pages, leaf, p);
      LeafInsertOk(t, root, s, m, leaf, r);
      LeafInsertSized(t, root, leaf, r);
    }

    /** A full leaf without deleted records is split, and the split passed up. */
    method InsertIntoLeafAs(leaf: Off, inst: Record) returns (ghost right: Off)
      requires Valid() && rt.Some? && leaf in pages && pages[leaf].isLeaf && Covers(shape, leaf, inst.key)
      requires pages[leaf].n == LEAF_MAX && (forall i :: 0 <= i < LEAF_MAX ==> !pages[leaf].records[i].dead)
      requires !inst.dead && inst.key !in contents
      modifies this
      ensures Valid() && rt.Some? && contents == old(contents)[inst.key := inst.value]
      ensures right in pages && right !in old(pages) && leaf in pages && LeafPagesKept(old(pages) - {leaf}, pages)
      ensures LeafDivided(old(pages)[leaf], pages[leaf], pages[right], right, inst)
    {
      hide Good;
      ghost var was := pages;
      var newKey, newLeaf := DivideLeaf(leaf, inst);
      right := newLeaf;
      ghost var divided := pages;
      InsertIntoParent(leaf, newKey, newLeaf);
      KeptThrough(was, divided, pages, leaf);
      StillDivided(was[leaf], divided, pages, leaf, right, inst);
    }

    /** The part of insert_into_leaf_as before its call of insert_into_parent. */
    method DivideLeaf(leaf: Off, inst: Record) returns (newKey: int, newLeaf: Off)
      requires Valid() && rt.Some? && leaf in pages && pages[leaf].isLeaf && Covers(shape, leaf, inst.key)
      requires pages[leaf].n == LEAF_MAX && (forall i :: 0 <= i < LEAF_MAX ==> !pages[leaf].records[i].dead)
      requires !inst.dead && inst.key !in contents
      modifies this
      ensures PendingSplit(leaf, newKey, newLeaf) && contents == old(contents)[inst.key := inst.value]
      ensures newLeaf !in old(pages) && leaf in pages && newLeaf in pages && leaf != newLeaf
      ensures forall o :: o in old(pages) && o != leaf ==> o in pages && pages[o] == old(pages)[o]
      ensures LeafDivided(old(pages)[leaf], pages[leaf], pages[newLeaf], newLeaf, inst)
    {
      hide Good;
      ghost var was := pages;
      newLeaf := NewPage();
      var nl := pages[newLeaf];
      nl := nl.(isLeaf := true);
      var ol := pages[leaf];
      var insertionIndex := InsertionPoint(ol, inst.key);
      var temp := Spread(ol.records[..ol.n], Record(0, false, ""), insertionIndex, inst);
      var split := Cut(LEAF_MAX);
      ol := FillRecords(ol, temp, 0, split);
      nl := FillRecords(nl, temp, split, LEAF_MAX + 1);
      nl := nl.(next := ol.next);
      ol := ol.(next := newLeaf);
      nl := nl.(parent := ol.parent);
      newKey := nl.records[0].key;
      LeafSplitGood(was, rpo, shape, contents, leaf, newLeaf, inst, ol, nl);
      Divided(was[leaf], ol, nl, newLeaf, inst, temp, insertionIndex);
      hide LeafDivided;
      pages := pages[newLeaf := nl];
      pages := pages[leaf := ol];
      shape := LeafSplitShape(shape, leaf, newKey, newLeaf);
      contents := contents[inst.key := inst.value];
    }

    static lemma {:induction false} Divided(was: Page, ol: Page, nl: Page, right: Off, r: Record, temp: seq<Record>, i: nat)
      requires PageOk(was) && PageOk(ol) && PageOk(nl) && was.isLeaf && ol.isLeaf && nl.isLeaf && i <= was.n == LEAF_MAX
      requires ol.next == right && nl.next == was.next && temp == was.records[..was.n][..i] + [r] + was.records[..was.n][i..]
      requires ol.records[..ol.n] == temp[0..Cut(LEAF_MAX)] && nl.records[..nl.n] == temp[Cut(LEAF_MAX)..LEAF_MAX + 1]
      ensures LeafDivided(was, ol, nl, right, r)
    {
      assert temp == was.records[..i] + [r] + was.records[i..was.n];
      assert temp[0..Cut(LEAF_MAX)] + temp[Cut(LEAF_MAX)..LEAF_MAX + 1] == temp;
    }

    static lemma {:induction false} StillDivided(was: Page, divided: map<Off, Page>, now: map<Off, Page>, leaf: Off, right: Off, r: Record)
      requires leaf in divided && right in divided && LeafDivided(was, divided[leaf], divided[right], right, r)
      requires LeafPagesKept(divided, now)
      ensures leaf in now && right in now && LeafDivided(was, now[leaf], now[right], right, r)
    {
    }

    static lemma {:induction false} KeptThrough(was: map<Off, Page>, divided: map<Off, Page>, now: map<Off, Page>, leaf: Off)
      requires forall o :: o in was && o != leaf ==> o in divided && divided[o] == was[o]
      requires LeafPagesKept(divided, now)
      ensures LeafPagesKept(was - {leaf}, now)
    {
    }

    static lemma {:induction false} GoodIs(pages: map<Off, Page>, root: Off, s: Shape, m: map<int, string>, q: Pending)
      requires forall o :: o in pages ==> PageOk(pages[o])
      requires var t := ViewAll(pages);
               && TreeOk(t, root, s, q) && Sized(t, root) && Mapped(t, s) && Holds(t, s, m)
               && (q.Split? ==> q.left in t && Count(t[q.left]) >= MinCount(t[q.left]))
      ensures Good(pages, root, s, m, q)
    {
    }

    static lemma {:induction false} LeafSplitWritten(t: Tree, leaf: Off, right: Off, r: Record, z: Node, ol: Node, nl: Node)
      requires leaf in t && t[leaf].Leaf? && |t[leaf].recs| == LEAF_MAX && right !in t
      requires var full := InsertRec(t[leaf].recs, r);
               && ol == Leaf(t[leaf].parent, right, full[..Cut(LEAF_MAX)])
               && nl == Leaf(t[leaf].parent, t[leaf].next, full[Cut(LEAF_MAX)..])
      ensures t[right := z][right := nl][leaf := ol] == LeafSplit(t, leaf, right, r)
    {
    }

    static lemma {:induction false} LeafSplitGood(pages: map<Off, Page>, root: Off, s: Shape, m: map<int, string>,
                                                  leaf: Off, right: Off, r: Record, ol: Page, nl: Page)
      requires (forall o :: o in pages ==> PageOk(pages[o])) && Good(pages, root, s, m, Whole)
      requires leaf in pages && pages[leaf].isLeaf && Covers(s, leaf, r.key)
      requires pages[leaf].n == LEAF_MAX && (forall i :: 0 <= i < LEAF_MAX ==> !pages[leaf].records[i].dead)
      requires right != 0 && right !in pages && !r.dead && r.key !in m
      requires PageOk(ol) && PageOk(nl)
      requires var full := InsertRec(pages[leaf].records[..LEAF_MAX], r);
               && View(ol) == Leaf(pages[leaf].parent, right, full[..Cut(LEAF_MAX)])
               && View(nl) == Leaf(pages[leaf].parent, pages[leaf].next, full[Cut(LEAF_MAX)..])
      ensures var pages' := pages[right := ZERO_PAGE][right := nl][leaf := ol];
              && (forall o :: o in pages' ==> PageOk(pages'[o]))
              && leaf in s.height
              && Good(pages', root, LeafSplitShape(s, leaf, nl.records[0].key, right), m[r.key := r.value],
                      Split(leaf, nl.records[0].key, right))
    {
      var t := ViewAll(pages);
      var full := InsertRec(pages[leaf].records[..LEAF_MAX], r);
      LeafSplitOk(t, root, s, m, leaf, right, r);
      LeafSplitSized(t, root, leaf, right, r);
      assert nl.records[0].key == nl.records[..nl.n][0].key == full[Cut(LEAF_MAX)].key;
      hide Good, TreeOk, Sized, Holds, InsertRec, ViewAll;
      LeafSplitPages(pages, leaf, right, r, ol, nl);
      GoodIs(pages[right := ZERO_PAGE][right := nl][leaf := ol], root,
             LeafSplitShape(s, leaf, full[Cut(LEAF_MAX)].key, right), m[r.key := r.value],
             Split(leaf, full[Cut(LEAF_MAX)].key, right));
    }

    /** The pages after the split, as nodes. */
    static lemma {:induction false} LeafSplitPages(pages: map<Off, Page>, leaf: Off, right: Off, r: Record, ol: Page, nl: Page)
      requires (forall o :: o in pages ==> PageOk(pages[o])) && leaf in pages && right !in pages && PageOk(ol) && PageOk(nl)
      requires PageOk(pages[leaf]) && pages[leaf].isLeaf && pages[leaf].n == LEAF_MAX
      requires var full := InsertRec(pages[leaf].records[..LEAF_MAX], r);
               && View(ol) == Leaf(pages[leaf].parent, right, full[..Cut(LEAF_MAX)])
               && View(nl) == Leaf(pages[leaf].parent, pages[leaf].next, full[Cut(LEAF_MAX)..])
      ensures var pages' := pages[right := ZERO_PAGE][right := nl][leaf := ol];
              && (forall o :: o in pages' ==> PageOk(pages'[o]))
              && ViewAll(pages') == LeafSplit(ViewAll(pages), leaf, right, r)
    {
      var t := ViewAll(pages);
      ViewWrite(pages, leaf, ol);
      assert t[leaf].recs == pages[leaf].records[..LEAF_MAX];
      hide InsertRec, ViewAll;
      ViewWrite(pages, right, ZERO_PAGE);
      ViewWrite(pages[right := ZERO_PAGE], right, nl);
      ViewWrite(pages[right := ZERO_PAGE][right := nl], leaf, ol);
      LeafSplitWritten(t, leaf, right, r, View(ZERO_PAGE), View(ol), View(nl));
    }

    method InsertIntoParent(left: Off, key: int, newp: Off)
      requires PendingSplit(left, key, newp)
      modifies this
      ensures Valid() && rt.Some? && contents == old(contents)
      ensures LeafPagesKept(old(pages), pages)
      decreases PagesAbove(shape, left), 1
    {
      var bumo := pages[left].parent;
      if bumo == 0 {
        InsertIntoNewRoot(left, key, newp);
        return;
      }
      var leftIndex := GetLeftIndex(left, key, newp);
      var parent := pages[bumo];
      if parent.n < INTERNAL_MAX {
        InsertIntoInternal(bumo, leftIndex, key, newp, left);
      } else {
        InsertIntoInternalAs(bumo, leftIndex, key, newp, left);
      }
    }
  
    /** The entry of the parent that leads to `left`, or -1 for the leftmost child. */
    method GetLeftIndex(left: Off, ghost key: int, ghost newp: Off) returns (i: int)
      requires PendingSplit(left, key, newp) && T()[left].parent != 0
      ensures var t := T();
              && -1 <= i && ChildSplit(t, rpo, shape, t[left].parent, i + 1, left, key, newp)
    {
      ghost var t := T();
      assert LinkOk(t, shape, rpo, Split(left, key, newp), left);
      var po := pages[left].parent;
      assert IsChild(t, po, left) && t[po] == View(pages[po]);
      var parent := pages[po];
      if left == parent.next {
        return -1;
      }
      i := 0;
      while i < parent.n && parent.entries[i].child != left
        invariant 0 <= i <= parent.n
        invariant forall j :: 0 <= j <= i ==> Child(t[po], j) != left
      {
        i := i + 1;
      }
    }

    method InsertIntoNewRoot(left: Off, key: int, newp: Off)
      requires PendingSplit(left, key, newp) && T()[left].parent == 0
      modifies this
      ensures Valid() && rt.Some? && contents == old(contents)
      ensures LeafPagesKept(old(pages), pages)
    {
      hide Good;
      SplitOfRoot(pages, rpo, shape, contents, left, key, newp);
      ghost var was := pages;
      var newRoot := NewPage();
      var nr := pages[newRoot];
      nr := nr.(entries := nr.entries[0 := nr.entries[0].(key := key)]);
      nr := nr.(next := left);
      nr := nr.(entries := nr.entries[0 := nr.entries[0].(child := newp)]);
      nr := nr.(n := nr.n + 1);
      assert nr.entries[..1] == [Entry(key, newp)];
      var l := pages[left];
      var r := pages[newp];
      l := l.(parent := newRoot);
      r := r.(parent := newRoot);
      NewRootGood(was, shape, contents, left, key, newp, newRoot, nr);
      NewRootLeaves(was, newRoot, nr, left, l, newp, r);
      hide PageOk, View, LeafPagesKept;
      pages := pages[newRoot := nr];
      pages := pages[left := l];
      pages := pages[newp := r];
      rt := Some(pages[newRoot]);
      rpo := newRoot;
      shape := NewRootShape(shape, left, newRoot);
    }

    static lemma {:induction false} NewRootLeaves(was: map<Off, Page>, root: Off, nr: Page, left: Off, l: Page, right: Off, r: Page)
      requires left in was && right in was && left != right && root !in was
      requires l == was[left].(parent := l.parent) && r == was[right].(parent := r.parent)
      ensures LeafPagesKept(was, was[root := ZERO_PAGE][root := nr][left := l][right := r])
    {
    }

    /** A split page without a parent is the root. */
    static lemma {:induction false} SplitOfRoot(pages: map<Off, Page>, root: Off, s: Shape, m: map<int, string>,
                                                left: Off, key: int, right: Off)
      requires (forall o :: o in pages ==> PageOk(pages[o])) && Good(pages, root, s, m, Split(left, key, right))
      ensures left in pages && right in pages && left != right && left in s.height
      ensures pages[left].parent == 0 ==> left == root
    {
      assert LinkOk(ViewAll(pages), s, root, Split(left, key, right), left);
    }

    static lemma {:induction false} NewRootWritten(t: Tree, left: Off, key: int, right: Off, r: Off, z: Node)
      requires left in t && right in t && left != right && r !in t
      ensures t[r := z][r := Inner(0, left, [Entry(key, right)])]
                       [left := t[left].(parent := r)][right := t[right].(parent := r)]
           == NewRoot(t, left, key, right, r)
    {
    }

    static lemma {:induction false} NewRootGood(pages: map<Off, Page>, s: Shape, m: map<int, string>,
                                                left: Off, key: int, right: Off, r: Off, nr: Page)
      requires (forall o :: o in pages ==> PageOk(pages[o])) && Good(pages, left, s, m, Split(left, key, right))
      requires left in pages && right in pages && left != right && r !in pages && r != 0 && PageOk(nr)
      requires View(nr) == Inner(0, left, [Entry(key, right)]) && left in s.height
      ensures var pages' := pages[r := ZERO_PAGE][r := nr]
                                 [left := pages[left].(parent := r)][right := pages[right].(parent := r)];
              && (forall o :: o in pages' ==> PageOk(pages'[o]))
              && Good(pages', r, NewRootShape(s, left, r), m, Whole)
    {
      var t := ViewAll(pages);
      NewRootOk(t, s, m, left, key, right, r);
      NewRootSized(t, left, key, right, r);
      hide Good, TreeOk, Sized, Holds, ViewAll;
      var l, rr := pages[left].(parent := r), pages[right].(parent := r);
      NewRootPages(pages, left, key, right, r, nr);
      GoodIs(pages[r := ZERO_PAGE][r := nr][left := l][right := rr], r, NewRootShape(s, left, r), m, Whole);
    }

    /** The pages with the new root, as nodes. */
    static lemma {:induction false} NewRootPages(pages: map<Off, Page>, left: Off, key: int, right: Off, r: Off, nr: Page)
      requires forall o :: o in pages ==> PageOk(pages[o])
      requires left in pages && right in pages && left != right && r !in pages && PageOk(nr)
      requires View(nr) == Inner(0, left, [Entry(key, right)])
      ensures var pages' := pages[r := ZERO_PAGE][r := nr]
                                 [left := pages[left].(parent := r)][right := pages[right].(parent := r)];
              && (forall o :: o in pages' ==> PageOk(pages'[o]))
              && ViewAll(pages') == NewRoot(ViewAll(pages), left, key, right, r)
    {
      hide ViewAll;
      var t, l, rr := ViewAll(pages), pages[left].(parent := r), pages[right].(parent := r);
      ViewWrite(pages, left, l);
      ViewWrite(pages, right, rr);
      ViewWrite(pages, r, ZERO_PAGE);
      ViewWrite(pages[r := ZERO_PAGE], r, nr);
      ViewWrite(pages[r := ZERO_PAGE][r := nr], left, l);
      ViewWrite(pages[r := ZERO_PAGE][r := nr][left := l], right, rr);
      NewRootWritten(t, left, key, right, r, View(ZERO_PAGE));
    }

    method InsertIntoInternal(bumo: Off, leftIndex: int, key: int, newp: Off, ghost left: Off)
      requires PendingSplit(left, key, newp) && -1 <= leftIndex
      requires ChildSplit(T(), rpo, shape, bumo, leftIndex + 1, left, key, newp) && Count(T()[bumo]) < INTERNAL_MAX
      modifies this
      ensures Valid() && rt.Some? && contents == old(contents)
      ensures LeafPagesKept(old(pages), pages)
    {
      hide Good, TreeOk;
      var parent := pages[bumo];
      parent := ShiftEntryIn(parent, leftIndex + 1, Entry(key, newp));
      EntryGood(pages, rpo, shape, contents, bumo, leftIndex + 1, left, key, newp, parent);
      pages := pages[bumo := parent];
      if bumo == rpo {
        rt := Some(pages[bumo]);
      }
    }

    static lemma {:induction false} EntryGood(pages: map<Off, Page>, root: Off, s: Shape, m: map<int, string>,
                                              p: Off, j: nat, left: Off, key: int, right: Off, q: Page)
      requires (forall o :: o in pages ==> PageOk(pages[o])) && Good(pages, root, s, m, Split(left, key, right))
      requires ChildSplit(ViewAll(pages), root, s, p, j, left, key, right) && pages[p].n < INTERNAL_MAX
      requires PageOk(q) && View(q) == View(pages[p]).(kids := WithEntry(pages[p].entries[..pages[p].n], j, Entry(key, right)))
      ensures Good(pages[p := q], root, s, m, Whole)
    {
      var t := ViewAll(pages);
      EntryInsertedOk(t, root, s, m, p, j, left, key, right);
      EntryInsertedSized(t, root, p, j, key, right);
      hide TreeOk, Sized, Holds;
      ViewWrite(pages, p, q);
    }

    method InsertIntoInternalAs(bumo: Off, leftIndex: int, key: int, newp: Off, ghost left: Off)
      requires PendingSplit(left, key, newp) && -1 <= leftIndex
      requires ChildSplit(T(), rpo, shape, bumo, leftIndex + 1, left, key, newp) && Count(T()[bumo]) == INTERNAL_MAX
      modifies this
      ensures Valid() && rt.Some? && contents == old(contents)
      ensures LeafPagesKept(old(pages), pages)
      decreases PagesAbove(shape, left), 0
    {
      var kPrime, newP := SplitInternal(bumo, leftIndex, key, newp, left);
      InsertIntoParent(bumo, kPrime, newP);
    }

    /** The part of insert_into_internal_as before its call of insert_into_parent. */
    method SplitInternal(bumo: Off, leftIndex: int, key: int, newp: Off, ghost left: Off) returns (kPrime: int, newP: Off)
      requires PendingSplit(left, key, newp) && -1 <= leftIndex
      requires ChildSplit(T(), rpo, shape, bumo, leftIndex + 1, left, key, newp) && Count(T()[bumo]) == INTERNAL_MAX
      modifies this
      ensures PendingSplit(bumo, kPrime, newP) && contents == old(contents) && LeafPagesKept(old(pages), pages)
      ensures PagesAbove(shape, bumo) < PagesAbove(old(shape), left)
    {
      hide Good, TreeOk, ChildSplit, View, ViewAll, PagesAbove, SplitShape, WithEntry, Moved;
      ghost var was := pages;
      var oldParent, newParent;
      kPrime, newP, oldParent, newParent := DivideParent(bumo, leftIndex, key, newp, left);
      InnerSplitGood(was, rpo, shape, contents, bumo, leftIndex + 1, left, key, newp, newP, pages, oldParent, newParent);
      pages := pages[bumo := oldParent];
      pages := pages[newP := newParent];
      shape := SplitShape(shape, bumo, kPrime, newP);
    }

    /** The two halves of the parent, not yet written, with the children of the upper half moved to a new page. */
    method DivideParent(bumo: Off, leftIndex: int, key: int, newp: Off, ghost left: Off)
        returns (kPrime: int, newP: Off, oldParent: Page, newParent: Page)
      requires PendingSplit(left, key, newp) && -1 <= leftIndex
      requires ChildSplit(T(), rpo, shape, bumo, leftIndex + 1, left, key, newp) && Count(T()[bumo]) == INTERNAL_MAX
      modifies `pages, `end, `fpo, `numPages
      ensures fpo == 0 && end > old(end) && 0 < newP < end && newP !in old(pages) && pages.Keys == old(pages).Keys + {newP}
      ensures bumo in old(pages) && old(pages)[bumo].n == INTERNAL_MAX && !old(pages)[bumo].isLeaf && PageOk(oldParent) && PageOk(newParent)
      ensures var temp := WithEntry(old(pages)[bumo].entries[..INTERNAL_MAX], leftIndex + 1, Entry(key, newp));
              && kPrime == temp[HALF].key
              && (forall o :: o in old(pages) ==>
                    pages[o] == if o in Moved(temp) then old(pages)[o].(parent := newP) else old(pages)[o])
              && View(oldParent) == Inner(old(pages)[bumo].parent, old(pages)[bumo].next, temp[..HALF])
              && View(newParent) == Inner(old(pages)[bumo].parent, temp[HALF].child, temp[HALF + 1..])
    {
      hide Good, TreeOk, ChildSplit, View, ViewAll, WithEntry;
      var temp := Overflow(bumo, leftIndex, key, newp, left);
      oldParent := pages[bumo];
      var split := Cut(INTERNAL_MAX);
      newP := NewPage();
      newParent := pages[newP];
      kPrime := temp[split].key;
      oldParent, newParent := ShareOut(oldParent, newParent, temp);
      TempMoved(temp);
      assert forall e :: e in temp[HALF + 1..] ==> e in temp;
      hide Moved, Children;
      Reparent(newParent, newP);
    }

    /** The entries of a full parent and the new one. */
    method Overflow(bumo: Off, leftIndex: int, key: int, newp: Off, ghost left: Off) returns (temp: seq<Entry>)
      requires PendingSplit(left, key, newp) && -1 <= leftIndex
      requires ChildSplit(T(), rpo, shape, bumo, leftIndex + 1, left, key, newp) && Count(T()[bumo]) == INTERNAL_MAX
      ensures bumo in pages && !pages[bumo].isLeaf && pages[bumo].n == INTERNAL_MAX && leftIndex + 1 <= INTERNAL_MAX
      ensures temp == WithEntry(pages[bumo].entries[..INTERNAL_MAX], leftIndex + 1, Entry(key, newp))
      ensures |temp| == INTERNAL_MAX + 1 && forall e :: e in temp ==> e.child in pages
    {
      hide Good, TreeOk, ChildSplit, View, ViewAll;
      ChildrenPresent(pages, rpo, shape, contents, bumo, leftIndex + 1, left, key, newp);
      temp := Spread(pages[bumo].entries[..pages[bumo].n], Entry(0, 0), leftIndex + 1, Entry(key, newp));
      assert temp == WithEntry(pages[bumo].entries[..INTERNAL_MAX], leftIndex + 1, Entry(key, newp));
    }

    /** The lower half of temp stays in the old page, the upper half goes to the new one, less the middle entry. */
    method ShareOut(oldParent: Page, newParent: Page, temp: seq<Entry>) returns (o: Page, u: Page)
      requires PageOk(oldParent) && PageOk(newParent) && !oldParent.isLeaf && !newParent.isLeaf && |temp| == INTERNAL_MAX + 1
      ensures PageOk(o) && PageOk(u)
      ensures View(o) == Inner(oldParent.parent, oldParent.next, temp[..HALF])
      ensures View(u) == Inner(oldParent.parent, temp[HALF].child, temp[HALF + 1..])
      ensures !u.isLeaf && u.next == temp[HALF].child && u.entries[..u.n] == temp[HALF + 1..]
    {
      var split := Cut(INTERNAL_MAX);
      o := FillEntries(oldParent, temp, 0, split);
      u := newParent.(next := temp[split].child);
      u := FillEntries(u, temp, split + 1, INTERNAL_MAX + 1);
      u := u.(parent := o.parent);
    }

    static lemma {:induction false} ChildrenPresent(pages: map<Off, Page>, root: Off, s: Shape, m: map<int, string>,
                                                    p: Off, j: nat, left: Off, key: int, right: Off)
      requires (forall o :: o in pages ==> PageOk(pages[o])) && Good(pages, root, s, m, Split(left, key, right))
      requires ChildSplit(ViewAll(pages), root, s, p, j, left, key, right)
      ensures p in pages && !pages[p].isLeaf && j <= pages[p].n && Count(ViewAll(pages)[p]) == pages[p].n
      ensures p in s.height && p in s.hi && s.height.Keys == pages.Keys && left in pages
      ensures s.height[p] == s.height[left] + 1
      ensures forall e :: e in WithEntry(pages[p].entries[..pages[p].n], j, Entry(key, right)) ==> e.child in pages
    {
      var t := ViewAll(pages);
      var t1 := EntryInserted(t, p, j, key, right);
      EntryInsertedOk(t, root, s, m, p, j, left, key, right);
      assert InnerOk(t1, s, Whole, p);
      forall i | 0 <= i < |t1[p].kids|
        ensures t1[p].kids[i].child in pages
      {
        assert ChildOk(t1, s, Whole, p, i + 1);
      }
      EntryChildren(t, root, s, p, j, left, key, right, j);
    }

    /** The new page's children are those behind the middle of temp. */
    static lemma {:induction false} TempMoved(temp: seq<Entry>)
      requires |temp| == INTERNAL_MAX + 1
      ensures Moved(temp) == {temp[HALF].child} + Children(temp[HALF + 1..])
    {
      forall i | HALF < i < |temp|
        ensures temp[i].child in Children(temp[HALF + 1..])
      {
        assert temp[HALF + 1..][i - HALF - 1] == temp[i];
      }
    }

    static lemma {:induction false} InnerSplitGood(pages: map<Off, Page>, root: Off, s: Shape, m: map<int, string>,
                                                   p: Off, j: nat, left: Off, key: int, right: Off, u: Off,
                                                   moved: map<Off, Page>, oldP: Page, newP: Page)
      requires (forall o :: o in pages ==> PageOk(pages[o])) && Good(pages, root, s, m, Split(left, key, right))
      requires ChildSplit(ViewAll(pages), root, s, p, j, left, key, right) && pages[p].n == INTERNAL_MAX
      requires u != 0 && u !in pages && moved.Keys == pages.Keys + {u} && PageOk(oldP) && PageOk(newP)
      requires var temp := WithEntry(pages[p].entries[..INTERNAL_MAX], j, Entry(key, right));
               && (forall o :: o in pages ==>
                     moved[o] == if o in Moved(temp) then pages[o].(parent := u) else pages[o])
               && View(oldP) == Inner(pages[p].parent, pages[p].next, temp[..HALF])
               && View(newP) == Inner(pages[p].parent, temp[HALF].child, temp[HALF + 1..])
      ensures var temp := WithEntry(pages[p].entries[..INTERNAL_MAX], j, Entry(key, right));
              var pages' := moved[p := oldP][u := newP];
              && (forall o :: o in pages' ==> PageOk(pages'[o])) && p in s.hi && p in s.height && left in s.height
              && Good(pages', root, SplitShape(s, p, temp[HALF].key, u), m, Split(p, temp[HALF].key, u))
              && PagesAbove(SplitShape(s, p, temp[HALF].key, u), p) < PagesAbove(s, left)
    {
      var t := ViewAll(pages);
      var t1 := EntryInserted(t, p, j, key, right);
      var temp := WithEntry(pages[p].entries[..INTERNAL_MAX], j, Entry(key, right));
      ChildrenPresent(pages, root, s, m, p, j, left, key, right);
      FewerAbove(s, left, p, temp[HALF].key, u);
      EntryInsertedOk(t, root, s, m, p, j, left, key, right);
      InnerSplitOk(t1, root, s, m, p, u);
      InnerSplitSized(t, root, p, j, key, right, u);
      InnerSplitPages(pages, root, s, p, u, t1, moved, oldP, newP);
    }

    static lemma {:induction false} InnerSplitPages(pages: map<Off, Page>, root: Off, s: Shape, p: Off, u: Off, t1: Tree,
                                                    moved: map<Off, Page>, oldP: Page, newP: Page)
      requires (forall o :: o in pages ==> PageOk(pages[o])) && Overfull(t1, root, s, p, u) && p in pages
      requires !pages[p].isLeaf && t1 == ViewAll(pages)[p := Inner(pages[p].parent, pages[p].next, t1[p].kids)]
      requires moved.Keys == pages.Keys + {u} && PageOk(oldP) && PageOk(newP)
      requires forall o :: o in pages ==>
                 moved[o] == if o in Moved(t1[p].kids) then pages[o].(parent := u) else pages[o]
      requires View(oldP) == Inner(pages[p].parent, pages[p].next, t1[p].kids[..HALF])
      requires View(newP) == Inner(pages[p].parent, t1[p].kids[HALF].child, t1[p].kids[HALF + 1..])
      ensures var pages' := moved[p := oldP][u := newP];
              (forall o :: o in pages' ==> PageOk(pages'[o])) && ViewAll(pages') == InnerSplit(t1, p, u)
    {
      var pages' := moved[p := oldP][u := newP];
      InnerSplitAt(t1, root, s, p, u, p);
      assert p !in Moved(t1[p].kids);
      hide TreeOk, InnerSplit, Moved, View, PageOk;
      forall o | o in pages'
        ensures PageOk(pages'[o]) && View(pages'[o]) == InnerSplit(t1, p, u)[o]
      {
        if o != p && o != u {
          InnerSplitPage(pages, root, s, p, u, t1, moved[o], o);
        }
      }
      assert ViewAll(pages') == InnerSplit(t1, p, u);
    }

    static lemma {:induction false} InnerSplitPage(pages: map<Off, Page>, root: Off, s: Shape, p: Off, u: Off, t1: Tree, page: Page, o: Off)
      requires (forall o :: o in pages ==> PageOk(pages[o])) && Overfull(t1, root, s, p, u) && p in pages
      requires t1 == ViewAll(pages)[p := t1[p]] && o in pages && o != p && o != u
      requires page == if o in Moved(t1[p].kids) then pages[o].(parent := u) else pages[o]
      ensures o in InnerSplit(t1, p, u) && PageOk(page) && View(page) == InnerSplit(t1, p, u)[o]
    {
      InnerSplitAt(t1, root, s, p, u, o);
      hide TreeOk, InnerSplit, Moved;
      MovedPage(pages[o], u);
    }

    static lemma {:induction false} MovedPage(p: Page, parent: Off)
      requires PageOk(p)
      ensures PageOk(p.(parent := parent)) && View(p.(parent := parent)) == View(p).(parent := parent)
    {
    }

    /** The children of p are told that it is now their parent. */
    method Reparent(p: Page, newP: Off)
      requires PageOk(p) && !p.isLeaf && p.next in pages && forall e :: e in p.entries[..p.n] ==> e.child in pages
      modifies `pages
      ensures pages.Keys == old(pages).Keys
      ensures forall o :: o in pages ==>
                pages[o] == if o == p.next || o in Children(p.entries[..p.n]) then old(pages)[o].(parent := newP) else old(pages)[o]
    {
      var nn := pages[p.next];
      nn := nn.(parent := newP);
      pages := pages[p.next := nn];
      var i := 0;
      while i < p.n
        invariant 0 <= i <= p.n && pages.Keys == old(pages).Keys
        invariant forall o :: o in pages ==>
                    pages[o] == if o == p.next || o in Children(p.entries[..i]) then old(pages)[o].(parent := newP) else old(pages)[o]
      {
        assert p.entries[i] in p.entries[..p.n];
        var child := p.entries[i].child;
        var ch := pages[child];
        ch := ch.(parent := newP);
        pages := pages[child := ch];
        assert p.entries[..i + 1] == p.entries[..i] + [p.entries[i]];
        ChildrenAppend(p.entries[..i], p.entries[i]);
        i := i + 1;
      }
    }

    static lemma {:induction false} ChildrenAppend(entries: seq<Entry>, e: Entry)
      ensures Children(entries + [e]) == Children(entries) + {e.child}
    {
      forall i | 0 <= i < |entries|
        ensures entries[i].child in Children(entries + [e])
      {
        assert (entries + [e])[i] == entries[i];
      }
      assert (entries + [e])[|entries|] == e;
    }

    /** Two keys belong to one leaf. */
    ghost predicate SameLeaf(key: int, k: int)
      reads this
    {
      exists p :: p in pages && pages[p].isLeaf && Covers(shape, p, key) && Covers(shape, p, k)
    }

    /** The leaf for the key, if it must be split, holds no deleted record (db_insert would first purge those). */
    ghost predicate SplitsCleanly(key: int)
      requires PagesOk()
      reads this
    {
      forall p :: p in pages && pages[p].isLeaf && Covers(shape, p, key) && pages[p].n >= LEAF_MAX ==>
        forall i :: 0 <= i < pages[p].n ==> !pages[p].records[i].dead
    }

    /** 0 for a new key, -1 for one that is already there. `stale` says that the key is new and its leaf is full and holds
        a deleted record; the model stops there. */
    method DbInsert(key: int, value: string) returns (r: int, stale: bool)
      requires Valid()
      modifies this
      ensures Valid()
      ensures stale <==> old(rt).Some? && key !in old(contents) && !old(SplitsCleanly(key))
      ensures stale ==> pages == old(pages) && contents == old(contents)
      ensures !stale ==> rt.Some?
      ensures !stale && key in old(contents) ==> r == -1 && contents == old(contents) && pages == old(pages)
      ensures !stale && key !in old(contents) ==> r == 0 && contents == old(contents)[key := value]
      ensures !stale && key !in old(contents) && old(rt).Some? ==>
                Inserted(old(pages), old(shape), pages, shape, Record(key, false, value))
    {
      var nr := Record(key, false, value);
      if rt == None {
        StartNewFile(nr);
        return 0, false;
      }
      var dupcheck, _ := DbFind(key);
      if dupcheck != None {
        return -1, false;
      }
      var leaf := FindLeaf(key);
      var leafp := pages[leaf];
      LeafCount(pages, rpo, shape, contents, leaf);
      OneLeafFor(key, leaf);
      if leafp.n >= LEAF_MAX {
        for i := 0 to leafp.n
          invariant forall k :: 0 <= k < i ==> !leafp.records[k].dead
        {
          if leafp.records[i].dead {
            return 0, true;  // what follows is the subject of module BpStale
          }
        }
      }
      forall p | p in pages && pages[p].isLeaf && Covers(shape, p, key)
        ensures p == leaf
      {
        OnlyLeaf(key, leaf, p);
      }
      hide Good, RecordAdded, LeafDivided, LeafPagesKept, SplitsCleanly, Covers, Inserted;
      ghost var was, s := pages, shape;
      if leafp.n < LEAF_MAX {
        InsertIntoLeaf(leaf, nr);
        InsertedAt(was, s, pages, shape, nr, leaf, leaf);
        return 0, false;
      }
      ghost var right := InsertIntoLeafAs(leaf, nr);
      InsertedAt(was, s, pages, shape, nr, leaf, right);
      return 0, false;
    }

    lemma {:induction false} OnlyLeaf(key: int, leaf: Off, p: Off)
      requires Valid() && rt.Some? && leaf in pages && pages[leaf].isLeaf && Covers(shape, leaf, key)
      requires p in pages && pages[p].isLeaf && Covers(shape, p, key)
      ensures p == leaf
    {
      if p != leaf {
        LeavesDisjoint(T(), shape, p, leaf, key);
      }
    }

    /** The key's leaf is the only one that the test of db_insert is about. */
    lemma {:induction false} OneLeafFor(key: int, leaf: Off)
      requires Valid() && rt.Some? && leaf in pages && pages[leaf].isLeaf && Covers(shape, leaf, key)
      ensures SplitsCleanly(key) <==>
                (pages[leaf].n >= LEAF_MAX ==> forall i :: 0 <= i < pages[leaf].n ==> !pages[leaf].records[i].dead)
    {
      forall p | p in pages && pages[p].isLeaf && Covers(shape, p, key)
        ensures p == leaf
      {
        OnlyLeaf(key, leaf, p);
      }
    }

    static lemma {:induction false} LeafCount(pages: map<Off, Page>, root: Off, s: Shape, m: map<int, string>, leaf: Off)
      requires (forall o :: o in pages ==> PageOk(pages[o])) && Good(pages, root, s, m, Whole)
      requires leaf in pages && pages[leaf].isLeaf
      ensures 1 <= pages[leaf].n <= LEAF_MAX && (leaf != root ==> pages[leaf].n >= Cut(LEAF_MAX))
    {
      var n := ViewAll(pages)[leaf];
      assert 1 <= Count(n) <= MaxCount(n) && (leaf != root ==> Count(n) >= MinCount(n));
    }

    // ---------- deletion ----------

    /** 0 if the key was there, -1 otherwise. Before the first insertion a null pointer is followed (!ok). */
    method DbDelete(key: int) returns (r: int, ok: bool)
      requires Valid()
      modifies this
      ensures Valid() && contents == old(contents) - {key}
      ensures ok <==> old(rt).Some?
      ensures ok ==> r == if key in old(contents) then 0 else -1
      ensures key !in old(contents) ==> pages == old(pages)
      ensures key in old(contents) ==>
                && shape == old(shape) && pages.Keys == old(pages).Keys
                && (forall p :: p in pages ==>
                      if old(pages)[p].isLeaf && Covers(shape, p, key) then RecordDeleted(old(pages)[p], pages[p], key)
                      else pages[p] == old(pages)[p])
                && (forall k {:trigger SplitsCleanly(k)} :: SameLeaf(key, k) ==> SplitsCleanly(k))
    {
      if rt.None? {
        return 0, false;
      }
      if rt.value.n == 0 {
        assert false;
      }
      var check, _ := DbFind(key);
      if check == None {
        return -1, true;
      }
      var deloff := FindLeaf(key);
      forall p | p in pages && pages[p].isLeaf && Covers(shape, p, key)
        ensures p == deloff
      {
        OnlyLeaf(key, deloff, p);
      }
      LeafCount(pages, rpo, shape, contents, deloff);
      hide Good, RecordDeleted, SplitsCleanly, SameLeaf;
      ghost var was := pages[deloff];
      DeleteEntry(key, deloff);
      RoomAfterDeletion(was, pages[deloff], key);
      RoomForNext(key, deloff);
      return 0, true;
    }

    /** With room in its leaf, every key of it can be inserted as promised. */
    lemma {:induction false} RoomForNext(key: int, leaf: Off)
      requires Valid() && rt.Some? && leaf in pages && pages[leaf].isLeaf && Covers(shape, leaf, key) && pages[leaf].n < LEAF_MAX
      ensures forall k {:trigger SplitsCleanly(k)} :: SameLeaf(key, k) ==> SplitsCleanly(k)
    {
      hide Good, SplitsCleanly;
      forall k {:trigger SplitsCleanly(k)} | SameLeaf(key, k)
        ensures SplitsCleanly(k)
      {
        var p :| p in pages && pages[p].isLeaf && Covers(shape, p, key) && Covers(shape, p, k);
        OnlyLeaf(key, leaf, p);
        OneLeafFor(k, leaf);
      }
    }

    /** The leaf never gets too small, so nothing is left to do after removing the entry. */
    method DeleteEntry(key: int, deloff: Off)
      requires Valid() && rt.Some? && key in contents && deloff in pages && pages[deloff].isLeaf && Covers(shape, deloff, key)
      modifies this
      ensures Valid() && rt.Some? && contents == old(contents) - {key}
      ensures shape == old(shape) && pages == old(pages)[deloff := pages[deloff]]
      ensures RecordDeleted(old(pages)[deloff], pages[deloff], key)
    {
      RemoveEntryFromPage(key, deloff);
      if deloff == rpo {
        AdjustRoot();
        return;
      }
      LeafCount(pages, rpo, shape, contents, deloff);
      var notEnough := pages[deloff];
      var check := Cut(LEAF_MAX);
      if notEnough.n >= check {
        return;
      }
      assert false;
    }

    /** The root page never becomes empty. */
    method AdjustRoot()
      requires Valid() && rt.Some?
    {
      if rt.value.n > 0 {
        return;
      }
      assert false;
    }

    method RemoveEntryFromPage(key: int, deloff: Off)
      requires Valid() && rt.Some? && key in contents && deloff in pages && pages[deloff].isLeaf && Covers(shape, deloff, key)
      modifies this
      ensures Valid() && rt.Some? && contents == old(contents) - {key}
      ensures shape == old(shape) && rpo == old(rpo) && pages == old(pages)[deloff := pages[deloff]]
      ensures RecordDeleted(old(pages)[deloff], pages[deloff], key)
    {
      hide Good, RecordDeleted;
      var lp := pages[deloff];
      LeafHasKey(pages, rpo, shape, contents, deloff, key);
      LeafCount(pages, rpo, shape, contents, deloff);
      var check := Cut(LEAF_MAX);
      var i := 0;
      while lp.records[i].key != key
        invariant 0 <= i < lp.n
        invariant forall j :: 0 <= j < i ==> lp.records[j].key != key
        decreases lp.n - i
      {
        i := i + 1;
      }
      FirstDecides(lp.records[..lp.n], key, i);
      if lp.n - 1 < check {  // when this deletion would modify the tree, just mark the record
        lp := lp.(records := lp.records[i := lp.records[i].(dead := true)]);
        LeafDeleteGood(pages, rpo, shape, contents, deloff, i, lp);
        DeletedRecord(pages[deloff], lp, i, key);
        pages := pages[deloff := lp];
        contents := contents - {key};
        return;
      }
      lp := ShiftRecordOut(lp, i);
      LeafDeleteGood(pages, rpo, shape, contents, deloff, i, lp);
      DeletedRecord(pages[deloff], lp, i, key);
      pages := pages[deloff := lp];
      contents := contents - {key};
      if deloff == rpo {
        rt := Some(pages[deloff]);
      }
    }

    static lemma {:induction false} LeafHasKey(pages: map<Off, Page>, root: Off, s: Shape, m: map<int, string>, leaf: Off, key: int)
      requires (forall o :: o in pages ==> PageOk(pages[o])) && Good(pages, root, s, m, Whole)
      requires leaf in pages && pages[leaf].isLeaf && Covers(s, leaf, key) && key in m
      ensures SortedRecs(pages[leaf].records[..pages[leaf].n]) && LiveAt(pages[leaf].records[..pages[leaf].n], key)
    {
      var t := ViewAll(pages);
      assert LeafOk(t, s, leaf) && LeafHolds(t, s, m, leaf);
    }

    static lemma {:induction false} LeafDeleteGood(pages: map<Off, Page>, root: Off, s: Shape, m: map<int, string>,
                                                   leaf: Off, i: nat, p: Page)
      requires (forall o :: o in pages ==> PageOk(pages[o])) && Good(pages, root, s, m, Whole)
      requires leaf in pages && pages[leaf].isLeaf && i < pages[leaf].n && !pages[leaf].records[i].dead
      requires PageOk(p) && p == pages[leaf].(n := p.n, records := p.records)
      requires p.records[..p.n] == Deleted(pages[leaf].records[..pages[leaf].n], i)
      ensures Good(pages[leaf := p], root, s, m - {pages[leaf].records[i].key}, Whole)
    {
      ViewWrite(pages, leaf, p);
      LeafDeleteOk(ViewAll(pages), root, s, m, leaf, i);
    }
  }

  function Children(entries: seq<Entry>): set<Off> {
    set i | 0 <= i < |entries| :: entries[i].child
  }
}
