/** Passing a split up: an entry for the new page goes into the parent, a full parent splits in turn, and a split of
    the root puts a new root on top.
 */
module BpParent {
  import opened BpShape
  import opened BpInsert

  // ---------- children are distinct ----------

  lemma {:induction false} ChildrenDistinct(t: Tree, s: Shape, q: Pending, p: Off, i: nat, j: nat)
    requires Mapped(t, s) && p in t && t[p].Inner? && (q.Split? ==> q.right in t) && InnerOk(t, s, q, p)
    requires i < j <= |t[p].kids|
    ensures Child(t[p], i) != Child(t[p], j)
  {
    assert ChildOk(t, s, q, p, i) && ChildOk(t, s, q, p, j);
    if i > 0 {
      assert t[p].kids[i - 1].key < t[p].kids[j - 1].key;
    } else if j > 1 {
      assert t[p].kids[0].key < t[p].kids[j - 1].key;
    }
  }

  // ---------- insert_into_new_root ----------

  function NewRoot(t: Tree, left: Off, key: int, right: Off, r: Off): Tree
    requires left in t && right in t
  {
    t[left := t[left].(parent := r)][right := t[right].(parent := r)][r := Inner(0, left, [Entry(key, right)])]
  }

  function NewRootShape(s: Shape, left: Off, r: Off): Shape
    requires left in s.height
  {
    Shape(s.lo[r := None], s.hi[r := None], s.height[r := s.height[left] + 1], s.chain)
  }

  ghost predicate RootSplit(t: Tree, s: Shape, left: Off, key: int, right: Off, r: Off) {
    TreeOk(t, left, s, Split(left, key, right)) && r != 0 && r !in t
  }

  lemma {:induction false} NewRootInner(t: Tree, s: Shape, left: Off, key: int, right: Off, r: Off, o: Off)
    requires RootSplit(t, s, left, key, right, r)
    requires o in NewRoot(t, left, key, right, r) && NewRoot(t, left, key, right, r)[o].Inner?
    ensures var t', s' := NewRoot(t, left, key, right, r), NewRootShape(s, left, r);
            Mapped(t', s') && InnerOk(t', s', Whole, o)
  {
    var t', s' := NewRoot(t, left, key, right, r), NewRootShape(s, left, r);
    var q := Split(left, key, right);
    assert LinkOk(t, s, left, q, left);
    if o == r {
      assert Child(t'[r], 0) == left && Child(t'[r], 1) == right;
      assert ChildOk(t', s', Whole, r, 0) && ChildOk(t', s', Whole, r, 1);
    } else {
      assert InnerOk(t, s, q, o);
      InnerKept(t, t', s, s', q, Whole, o);
    }
  }

  lemma {:induction false} NewRootLink(t: Tree, s: Shape, left: Off, key: int, right: Off, r: Off, o: Off)
    requires RootSplit(t, s, left, key, right, r)
    requires o in NewRoot(t, left, key, right, r)
    ensures var t', s' := NewRoot(t, left, key, right, r), NewRootShape(s, left, r);
            Mapped(t', s') && LinkOk(t', s', r, Whole, o)
  {
    var t', s' := NewRoot(t, left, key, right, r), NewRootShape(s, left, r);
    assert Child(t'[r], 0) == left && Child(t'[r], 1) == right;
    if o != r && o != left && o != right {
      var p := t[o].parent;
      assert LinkOk(t, s, left, Split(left, key, right), o);
      var i :| 0 <= i <= |t[p].kids| && Child(t[p], i) == o;
      assert Child(t'[p], i) == o;
    }
  }

  /** A new root over the two halves of the old one completes the split. */
  lemma {:induction false} NewRootOk(t: Tree, s: Shape, m: map<int, string>, left: Off, key: int, right: Off, r: Off)
    requires RootSplit(t, s, left, key, right, r) && Holds(t, s, m)
    ensures var t', s' := NewRoot(t, left, key, right, r), NewRootShape(s, left, r);
            TreeOk(t', r, s', Whole) && Holds(t', s', m)
  {
    var t', s' := NewRoot(t, left, key, right, r), NewRootShape(s, left, r);
    ChainKept(t, t', s, s');
    hide InnerOk, LinkOk, LeafOk, LeafHolds, ChainOk;
    forall o {:trigger InnerOk(t', s', Whole, o)} | o in t' && t'[o].Inner?
      ensures InnerOk(t', s', Whole, o)
    {
      NewRootInner(t, s, left, key, right, r, o);
    }
    forall o {:trigger LinkOk(t', s', r, Whole, o)} | o in t'
      ensures LinkOk(t', s', r, Whole, o)
    {
      NewRootLink(t, s, left, key, right, r, o);
    }
    LeavesKept(t, t', s, s', m);
  }

  lemma {:induction false} NewRootSized(t: Tree, left: Off, key: int, right: Off, r: Off)
    requires left in t && right in t && r !in t && Sized(t, left) && Count(t[left]) >= MinCount(t[left])
    ensures Sized(NewRoot(t, left, key, right, r), r)
  {
    var t' := NewRoot(t, left, key, right, r);
    forall o | o in t && o != r
      ensures Count(t'[o]) == Count(t[o]) && MaxCount(t'[o]) == MaxCount(t[o]) && MinCount(t'[o]) == MinCount(t[o])
    {
    }
  }

  /** Leaves that keep their records and intervals keep their order and their agreement with the map. */
  lemma {:induction false} LeavesKept(t: Tree, t': Tree, s: Shape, s': Shape, m: map<int, string>)
    requires Mapped(t, s) && Mapped(t', s') && Holds(t, s, m)
    requires forall o {:trigger LeafOk(t, s, o)} :: o in t && t[o].Leaf? ==> LeafOk(t, s, o)
    requires forall o :: o in t' && t'[o].Leaf? ==> o in t && t[o].Leaf? && t'[o].recs == t[o].recs
    requires t.Keys <= t'.Keys
    requires forall o :: o in t && t[o].Leaf? ==> s'.lo[o] == s.lo[o] && s'.hi[o] == s.hi[o] && s'.height[o] == s.height[o]
    ensures forall o {:trigger LeafOk(t', s', o)} :: o in t' && t'[o].Leaf? ==> LeafOk(t', s', o)
    ensures Holds(t', s', m)
  {
    hide LeafOk, LeafHolds;
    forall o | o in t' && t'[o].Leaf?
      ensures LeafOk(t', s', o) && LeafHolds(t', s', m, o)
    {
      assert LeafOk(t, s, o) && LeafHolds(t, s, m, o);
      LeafKept(t, t', s, s', o);
      LeafHoldsKept(t, t', s, s', m, o);
    }
  }

  // ---------- insert_into_internal ----------

  function WithEntry(kids: seq<Entry>, j: nat, e: Entry): seq<Entry>
    requires j <= |kids|
  {
    kids[..j] + [e] + kids[j..]
  }

  /** The entry for the new page goes right behind the child that was split, the j-th. */
  function EntryInserted(t: Tree, p: Off, j: nat, key: int, right: Off): Tree
    requires p in t && t[p].Inner? && j <= |t[p].kids|
  {
    t[p := t[p].(kids := WithEntry(t[p].kids, j, Entry(key, right)))]
  }

  ghost predicate ChildSplit(t: Tree, root: Off, s: Shape, p: Off, j: nat, left: Off, key: int, right: Off) {
    && TreeOk(t, root, s, Split(left, key, right))
    && p in t && t[p].Inner? && t[left].parent == p && j <= |t[p].kids| && Child(t[p], j) == left
  }

  lemma {:induction false} EntryOrder(t: Tree, root: Off, s: Shape, p: Off, j: nat, left: Off, key: int, right: Off)
    requires ChildSplit(t, root, s, p, j, left, key, right)
    ensures var kids := WithEntry(t[p].kids, j, Entry(key, right));
            Sorted(kids) && Above(s.lo[p], kids[0].key) && Below(s.hi[p], kids[|kids| - 1].key)
  {
    var q := Split(left, key, right);
    var kids, kids' := t[p].kids, WithEntry(t[p].kids, j, Entry(key, right));
    assert InnerOk(t, s, q, p) && ChildOk(t, s, q, p, j);
    forall a, b | 0 <= a < b < |kids'|
      ensures kids'[a].key < kids'[b].key
    {
      if a == j {
        assert key < kids[j].key <= kids[b - 1].key;
      } else if b == j {
        assert kids[a].key <= kids[j - 1].key < key;
      }
    }
  }

  lemma {:induction false} EntryChildren(t: Tree, root: Off, s: Shape, p: Off, j: nat, left: Off, key: int, right: Off, i: nat)
    requires ChildSplit(t, root, s, p, j, left, key, right) && i <= |t[p].kids| + 1
    ensures var t' := EntryInserted(t, p, j, key, right);
            && Mapped(t', s) && ChildOk(t', s, Whole, p, i)
            && Child(t'[p], i) == if i <= j then Child(t[p], i) else if i == j + 1 then right else Child(t[p], i - 1)
  {
    var q := Split(left, key, right);
    assert InnerOk(t, s, q, p) && ChildOk(t, s, q, p, j);
    var t' := EntryInserted(t, p, j, key, right);
    var old' := if i <= j then i else i - 1;
    assert ChildOk(t, s, q, p, old');
    if i < j {
      ChildrenDistinct(t, s, q, p, i, j);
    } else if i > j + 1 {
      ChildrenDistinct(t, s, q, p, j, i - 1);
    }
  }

  lemma {:induction false} EntryInner(t: Tree, root: Off, s: Shape, p: Off, j: nat, left: Off, key: int, right: Off, o: Off)
    requires ChildSplit(t, root, s, p, j, left, key, right) && o in t && t[o].Inner?
    ensures var t' := EntryInserted(t, p, j, key, right);
            Mapped(t', s) && InnerOk(t', s, Whole, o)
  {
    var q := Split(left, key, right);
    var t' := EntryInserted(t, p, j, key, right);
    if o == p {
      EntryOrder(t, root, s, p, j, left, key, right);
      forall i {:trigger ChildOk(t', s, Whole, p, i)} | 0 <= i <= |t'[p].kids|
        ensures ChildOk(t', s, Whole, p, i)
      {
        EntryChildren(t, root, s, p, j, left, key, right, i);
      }
    } else {
      assert InnerOk(t, s, q, o);
      InnerKept(t, t', s, s, q, Whole, o);
    }
  }

  lemma {:induction false} EntryLink(t: Tree, root: Off, s: Shape, p: Off, j: nat, left: Off, key: int, right: Off, o: Off)
    requires ChildSplit(t, root, s, p, j, left, key, right) && o in t
    ensures var t' := EntryInserted(t, p, j, key, right);
            Mapped(t', s) && LinkOk(t', s, root, Whole, o)
  {
    var q := Split(left, key, right);
    var t' := EntryInserted(t, p, j, key, right);
    assert LinkOk(t, s, root, q, o) && LinkOk(t, s, root, q, left);
    if o == right {
      EntryChildren(t, root, s, p, j, left, key, right, j + 1);
    } else if o != root {
      var u := t[o].parent;
      var i :| 0 <= i <= |t[u].kids| && Child(t[u], i) == o;
      if u == p {
        var i' := if i <= j then i else i + 1;
        EntryChildren(t, root, s, p, j, left, key, right, i');
        assert Child(t'[p], i') == o;
      } else {
        assert Child(t'[u], i) == o;
      }
    }
  }

  /** insert_into_internal completes the split, but for the size of the parent. */
  lemma {:induction false} EntryInsertedOk(t: Tree, root: Off, s: Shape, m: map<int, string>,
                                           p: Off, j: nat, left: Off, key: int, right: Off)
    requires ChildSplit(t, root, s, p, j, left, key, right) && Holds(t, s, m)
    ensures var t' := EntryInserted(t, p, j, key, right);
            TreeOk(t', root, s, Whole) && Holds(t', s, m)
  {
    var t' := EntryInserted(t, p, j, key, right);
    ChainKept(t, t', s, s);
    hide InnerOk, LinkOk, LeafOk, LeafHolds, ChainOk;
    forall o {:trigger InnerOk(t', s, Whole, o)} | o in t' && t'[o].Inner?
      ensures InnerOk(t', s, Whole, o)
    {
      EntryInner(t, root, s, p, j, left, key, right, o);
    }
    forall o {:trigger LinkOk(t', s, root, Whole, o)} | o in t'
      ensures LinkOk(t', s, root, Whole, o)
    {
      EntryLink(t, root, s, p, j, left, key, right, o);
    }
    LeavesKept(t, t', s, s, m);
  }

  // ---------- insert_into_internal_as ----------

  const HALF := Cut(INTERNAL_MAX)

  /** The children of an overfull page that move to the new one. */
  function Moved(kids: seq<Entry>): set<Off> {
    set i | HALF <= i < |kids| :: kids[i].child
  }

  /** Page p, with one entry too many, shared out over itself and the new page u: the middle entry goes up. */
  function InnerSplit(t: Tree, p: Off, u: Off): Tree
    requires p in t && t[p].Inner? && |t[p].kids| == INTERNAL_MAX + 1
  {
    var n := t[p];
    (map o | o in t :: if o in Moved(n.kids) then t[o].(parent := u) else t[o])
      [p := n.(kids := n.kids[..HALF])]
      [u := Inner(n.parent, n.kids[HALF].child, n.kids[HALF + 1..])]
  }

  ghost predicate Overfull(t: Tree, root: Off, s: Shape, p: Off, u: Off) {
    && TreeOk(t, root, s, Whole) && p in t && t[p].Inner? && |t[p].kids| == INTERNAL_MAX + 1
    && u != 0 && u !in t
  }

  lemma {:induction false} MovedChild(t: Tree, root: Off, s: Shape, p: Off, u: Off, i: nat)
    requires Overfull(t, root, s, p, u) && i <= |t[p].kids|
    ensures ChildOk(t, s, Whole, p, i)
    ensures Child(t[p], i) in Moved(t[p].kids) <==> i > HALF
    ensures Child(t[p], i) != p && p !in Moved(t[p].kids)
  {
    assert InnerOk(t, s, Whole, p) && ChildOk(t, s, Whole, p, i);
    var kids := t[p].kids;
    if i > HALF {
      assert kids[i - 1].child == Child(t[p], i);
    }
    forall k | HALF <= k < |kids|
      ensures kids[k].child == Child(t[p], k + 1) && kids[k].child != p
      ensures i <= HALF ==> kids[k].child != Child(t[p], i)
    {
      assert ChildOk(t, s, Whole, p, k + 1);
      if i <= HALF {
        ChildrenDistinct(t, s, Whole, p, i, k + 1);
      }
    }
  }

  /** The pages after the split, one at a time. */
  lemma {:induction false} InnerSplitAt(t: Tree, root: Off, s: Shape, p: Off, u: Off, o: Off)
    requires Overfull(t, root, s, p, u) && o in t
    ensures var t' := InnerSplit(t, p, u);
            && t'.Keys == t.Keys + {u}
            && t'[u] == Inner(t[p].parent, t[p].kids[HALF].child, t[p].kids[HALF + 1..])
            && t'[o] == if o == p then t[p].(kids := t[p].kids[..HALF])
                        else if o in Moved(t[p].kids) then t[o].(parent := u) else t[o]
    ensures o in Moved(t[p].kids) ==> t[o].parent == p && p != o
  {
    MovedChild(t, root, s, p, u, 0);
    if o in Moved(t[p].kids) {
      var i :| HALF <= i < |t[p].kids| && t[p].kids[i].child == o;
      MovedChild(t, root, s, p, u, i + 1);
    }
  }

  lemma {:induction false} SplitHalves(t: Tree, root: Off, s: Shape, p: Off, u: Off)
    requires Overfull(t, root, s, p, u)
    ensures var t', key := InnerSplit(t, p, u), t[p].kids[HALF].key;
            var s' := SplitShape(s, p, key, u);
            && Mapped(t', s')
            && InnerOk(t', s', Split(p, key, u), p) && InnerOk(t', s', Split(p, key, u), u)
            && Above(s.lo[p], key) && Below(s.hi[p], key)
  {
    var t', kids := InnerSplit(t, p, u), t[p].kids;
    var key := kids[HALF].key;
    var s', q := SplitShape(s, p, key, u), Split(p, key, u);
    InnerSplitAt(t, root, s, p, u, p);
    assert InnerOk(t, s, Whole, p);
    assert kids[0].key < key < kids[|kids| - 1].key;
    forall i {:trigger ChildOk(t', s', q, p, i)} | 0 <= i <= HALF
      ensures ChildOk(t', s', q, p, i)
    {
      LowerChild(t, root, s, p, u, i);
    }
    forall i {:trigger ChildOk(t', s', q, u, i)} | 0 <= i <= |t'[u].kids|
      ensures ChildOk(t', s', q, u, i)
    {
      UpperChild(t, root, s, p, u, i);
    }
    hide InnerSplit, ChildOk;
    assert forall i :: 0 <= i < |t'[u].kids| ==> t'[u].kids[i] == kids[HALF + 1 + i];
  }

  lemma {:induction false} LowerChild(t: Tree, root: Off, s: Shape, p: Off, u: Off, i: nat)
    requires Overfull(t, root, s, p, u) && i <= HALF
    ensures var t', key := InnerSplit(t, p, u), t[p].kids[HALF].key;
            var s' := SplitShape(s, p, key, u);
            Mapped(t', s') && |t'[p].kids| == HALF && Child(t'[p], i) == Child(t[p], i)
            && ChildOk(t', s', Split(p, key, u), p, i)
  {
    MovedChild(t, root, s, p, u, i);
    InnerSplitAt(t, root, s, p, u, p);
    InnerSplitAt(t, root, s, p, u, Child(t[p], i));
    hide InnerSplit;
  }

  lemma {:induction false} UpperChild(t: Tree, root: Off, s: Shape, p: Off, u: Off, i: nat)
    requires Overfull(t, root, s, p, u) && i <= INTERNAL_MAX - HALF
    ensures var t', key := InnerSplit(t, p, u), t[p].kids[HALF].key;
            var s' := SplitShape(s, p, key, u);
            Mapped(t', s') && |t'[u].kids| == INTERNAL_MAX - HALF && Child(t'[u], i) == Child(t[p], HALF + 1 + i)
            && ChildOk(t', s', Split(p, key, u), u, i)
  {
    MovedChild(t, root, s, p, u, HALF + 1 + i);
    InnerSplitAt(t, root, s, p, u, p);
    InnerSplitAt(t, root, s, p, u, Child(t[p], HALF + 1 + i));
    hide InnerSplit;
  }

  lemma {:induction false} InnerSplitInner(t: Tree, root: Off, s: Shape, p: Off, u: Off, o: Off)
    requires Overfull(t, root, s, p, u) && o in t && t[o].Inner? && o != p
    ensures var t', key := InnerSplit(t, p, u), t[p].kids[HALF].key;
            var s' := SplitShape(s, p, key, u);
            Mapped(t', s') && InnerOk(t', s', Split(p, key, u), o)
  {
    var t', key := InnerSplit(t, p, u), t[p].kids[HALF].key;
    var s' := SplitShape(s, p, key, u);
    InnerSplitAt(t, root, s, p, u, o);
    assert InnerOk(t, s, Whole, o);
    forall c | c in t && t[c].parent == o
      ensures c in t' && t'[c].parent == o
    {
      InnerSplitAt(t, root, s, p, u, c);
    }
    hide InnerSplit;
    InnerKept(t, t', s, s', Whole, Split(p, key, u), o);
  }

  /** Every page hangs on the page that its parent pointer names afterwards. */
  lemma {:induction false} ChildMoves(t: Tree, root: Off, s: Shape, p: Off, u: Off, o: Off)
    requires Overfull(t, root, s, p, u) && o in t && IsChild(t, t[o].parent, o)
    ensures var t' := InnerSplit(t, p, u); o in t' && IsChild(t', t'[o].parent, o)
  {
    var t', w := InnerSplit(t, p, u), t[o].parent;
    InnerSplitAt(t, root, s, p, u, o);
    InnerSplitAt(t, root, s, p, u, w);
    var i :| 0 <= i <= |t[w].kids| && Child(t[w], i) == o;
    if w == p {
      MovedChild(t, root, s, p, u, i);
      hide TreeOk, InnerSplit, Moved, ChildOk;
      if i <= HALF {
        LowerChild(t, root, s, p, u, i);
      } else {
        UpperChild(t, root, s, p, u, i - HALF - 1);
      }
    } else {
      hide TreeOk, InnerSplit, ChildOk;
      assert Child(t'[w], i) == o;
    }
  }

  lemma {:induction false} InnerSplitLink(t: Tree, root: Off, s: Shape, p: Off, u: Off, o: Off)
    requires Overfull(t, root, s, p, u) && (o in t || o == u)
    ensures var t', key := InnerSplit(t, p, u), t[p].kids[HALF].key;
            var s' := SplitShape(s, p, key, u);
            Mapped(t', s') && o in t' && LinkOk(t', s', root, Split(p, key, u), o)
  {
    var t', key := InnerSplit(t, p, u), t[p].kids[HALF].key;
    var s' := SplitShape(s, p, key, u);
    InnerSplitAt(t, root, s, p, u, p);
    if o != u {
      InnerSplitAt(t, root, s, p, u, o);
      assert LinkOk(t, s, root, Whole, o);
      hide TreeOk, InnerSplit, Moved, ChildOk, IsChild;
      if o != root {
        ChildMoves(t, root, s, p, u, o);
      }
    }
  }

  /** Splitting an inner page touches no leaf. */
  lemma {:induction false} InnerSplitPages(t: Tree, root: Off, s: Shape, p: Off, u: Off)
    requires Overfull(t, root, s, p, u)
    ensures var t' := InnerSplit(t, p, u);
            && t'.Keys == t.Keys + {u} && t'[u].Inner? && t'[u].parent == t'[p].parent && t'[p].Inner?
            && forall o :: o in t ==>
                 (t'[o].Leaf? <==> t[o].Leaf?) && (t[o].Leaf? ==> t'[o].next == t[o].next && t'[o].recs == t[o].recs)
  {
    InnerSplitAt(t, root, s, p, u, p);
    var t' := InnerSplit(t, p, u);
    hide InnerSplit, TreeOk, Moved;
    forall o | o in t
      ensures (t'[o].Leaf? <==> t[o].Leaf?) && (t[o].Leaf? ==> t'[o].next == t[o].next && t'[o].recs == t[o].recs)
    {
      InnerSplitAt(t, root, s, p, u, o);
    }
  }

  /** Splitting an overfull inner page leaves a split to be passed up. */
  lemma {:induction false} InnerSplitOk(t: Tree, root: Off, s: Shape, m: map<int, string>, p: Off, u: Off)
    requires Overfull(t, root, s, p, u) && Holds(t, s, m)
    ensures var t', key := InnerSplit(t, p, u), t[p].kids[HALF].key;
            var s' := SplitShape(s, p, key, u);
            TreeOk(t', root, s', Split(p, key, u)) && Holds(t', s', m)
  {
    var t', key := InnerSplit(t, p, u), t[p].kids[HALF].key;
    var s', q := SplitShape(s, p, key, u), Split(p, key, u);
    SplitHalves(t, root, s, p, u);
    InnerSplitPages(t, root, s, p, u);
    hide InnerSplit, Moved, Child, ChildOk, SortedRecs, Above, Below;
    ChainKept(t, t', s, s');
    hide InnerOk, LinkOk, LeafOk, LeafHolds, ChainOk;
    forall o {:trigger InnerOk(t', s', q, o)} | o in t' && t'[o].Inner?
      ensures InnerOk(t', s', q, o)
    {
      if o != p && o != u {
        InnerSplitInner(t, root, s, p, u, o);
      }
    }
    forall o {:trigger LinkOk(t', s', root, q, o)} | o in t'
      ensures LinkOk(t', s', root, q, o)
    {
      InnerSplitLink(t, root, s, p, u, o);
    }
    LeavesKept(t, t', s, s', m);
  }

  // ---------- page sizes ----------

  lemma {:induction false} EntryInsertedSized(t: Tree, root: Off, p: Off, j: nat, key: int, right: Off)
    requires Sized(t, root) && p in t && t[p].Inner? && Count(t[p]) < INTERNAL_MAX && j <= |t[p].kids|
    ensures Sized(EntryInserted(t, p, j, key, right), root)
  {
    var t' := EntryInserted(t, p, j, key, right);
    assert Count(t'[p]) == Count(t[p]) + 1 && MinCount(t'[p]) == MinCount(t[p]);
    forall o | o in t && o != p
      ensures Count(t'[o]) == Count(t[o]) && MaxCount(t'[o]) == MaxCount(t[o]) && MinCount(t'[o]) == MinCount(t[o])
    {
    }
  }

  /** Both halves of a full inner page that got one entry more. */
  lemma {:induction false} InnerSplitSized(t: Tree, root: Off, p: Off, j: nat, key: int, right: Off, u: Off)
    requires Sized(t, root) && p in t && t[p].Inner? && Count(t[p]) == INTERNAL_MAX && j <= |t[p].kids| && u !in t
    ensures var t' := InnerSplit(EntryInserted(t, p, j, key, right), p, u);
            && Sized(t', root) && Count(t'[p]) >= MinCount(t'[p])
            && Count(t'[p]) + Count(t'[u]) == INTERNAL_MAX && INTERNAL_MAX <= 2 * Count(t'[p]) <= INTERNAL_MAX + 1
  {
    var t1 := EntryInserted(t, p, j, key, right);
    var t' := InnerSplit(t1, p, u);
    assert Count(t'[p]) == HALF && Count(t'[u]) == INTERNAL_MAX - HALF;
    forall o | o in t && o != p
      ensures Count(t'[o]) == Count(t[o]) && MaxCount(t'[o]) == MaxCount(t[o]) && MinCount(t'[o]) == MinCount(t[o])
    {
    }
  }
}
