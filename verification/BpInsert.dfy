/** Inserting into a B+ tree, as changes of the page map: a record goes into a leaf, a full leaf or inner page splits,
    and an entry for the new page goes into the parent or into a new root. Every change keeps the tree well formed.
 */
module BpInsert {
  import opened BpShape

  // ---------- a record into a leaf ----------

  /** The number of leading records with a smaller key. */
  function Position(recs: seq<Record>, k: int): (i: nat)
    ensures i <= |recs|
    ensures forall j :: 0 <= j < i ==> recs[j].key < k
    ensures i < |recs| ==> k <= recs[i].key
  {
    if recs == [] || k <= recs[0].key then 0 else 1 + Position(recs[1..], k)
  }

  function InsertRec(recs: seq<Record>, r: Record): seq<Record> {
    var i := Position(recs, r.key);
    recs[..i] + [r] + recs[i..]
  }

  /** The records after the insertion: the old ones in order, around the new one. */
  lemma {:induction false} InsertRecAt(recs: seq<Record>, r: Record)
    ensures var i := Position(recs, r.key);
            var s := InsertRec(recs, r);
            && |s| == |recs| + 1 && s[i] == r
            && forall j :: 0 <= j < |recs| ==> s[if j < i then j else j + 1] == recs[j]
  {
  }

  /** A live record goes in front of dead ones with its key, so order and liveness are kept. */
  lemma {:induction false} InsertRecSorted(recs: seq<Record>, r: Record)
    requires SortedRecs(recs) && !LiveAt(recs, r.key) && !r.dead
    ensures SortedRecs(InsertRec(recs, r))
  {
    var i := Position(recs, r.key);
    var s := InsertRec(recs, r);
    InsertRecAt(recs, r);
    hide InsertRec, Position;
    forall a, b | 0 <= a < b < |s|
      ensures s[a].key <= s[b].key && (s[a].key == s[b].key ==> s[b].dead)
    {
      if a == i {
        assert s[b] == recs[b - 1] && recs[i].key <= recs[b - 1].key;
        assert recs[b - 1].key == r.key && !recs[b - 1].dead ==> LiveAt(recs, r.key);
      } else if b == i {
        assert s[a] == recs[a];
      } else {
        var a', b' := if a < i then a else a - 1, if b < i then b else b - 1;
        assert s[a] == recs[a'] && s[b] == recs[b'];
      }
    }
  }

  lemma {:induction false} InsertRecMembers(recs: seq<Record>, r: Record)
    ensures forall x :: x in InsertRec(recs, r) <==> x in recs || x == r
  {
    InsertRecAt(recs, r);
    var i, s := Position(recs, r.key), InsertRec(recs, r);
    hide InsertRec;
    forall x
      ensures x in s <==> x in recs || x == r
    {
      if x in recs {
        var j :| 0 <= j < |recs| && recs[j] == x;
        assert s[if j < i then j else j + 1] == x;
      }
      if x in s {
        var j :| 0 <= j < |s| && s[j] == x;
        if j != i {
          var j' := if j < i then j else j - 1;
          assert s[if j' < i then j' else j' + 1] == recs[j'];
        }
      }
    }
  }

  // ---------- what a change of one leaf keeps ----------

  function LeafInserted(t: Tree, p: Off, r: Record): Tree
    requires p in t && t[p].Leaf?
  {
    t[p := t[p].(recs := InsertRec(t[p].recs, r))]
  }

  /** Different leaves have disjoint intervals. */
  lemma {:induction false} LeavesDisjoint(t: Tree, s: Shape, p: Off, o: Off, k: int)
    requires Mapped(t, s) && ChainOk(t, s) && p in t && o in t && t[p].Leaf? && t[o].Leaf? && p != o
    ensures !(In(s, p, k) && In(s, o, k))
  {
    assert p in s.chain && o in s.chain;
    var i :| 0 <= i < |s.chain| && s.chain[i] == p;
    var j :| 0 <= j < |s.chain| && s.chain[j] == o;
    if i < j {
      assert Before(s, s.chain[i], s.chain[j]);
    } else {
      assert Before(s, s.chain[j], s.chain[i]);
    }
  }

  /** A change of one leaf and of the map on its interval leaves the others in agreement with the map. */
  lemma {:induction false} HoldsAfter(t: Tree, t': Tree, s: Shape, m: map<int, string>, m': map<int, string>, p: Off)
    requires Mapped(t, s) && Mapped(t', s) && ChainOk(t, s) && Holds(t, s, m)
    requires forall o {:trigger LeafOk(t, s, o)} :: o in t && t[o].Leaf? ==> LeafOk(t, s, o)
    requires p in t && t[p].Leaf? && t'[p].Leaf? && LeafHolds(t', s, m', p)
    requires forall o :: o in t && o != p ==> t'[o] == t[o]
    requires forall k :: !In(s, p, k) ==> (k in m <==> k in m') && (k in m ==> m[k] == m'[k])
    ensures Holds(t', s, m')
  {
    forall o | o in t' && t'[o].Leaf? && o != p
      ensures LeafHolds(t', s, m', o)
    {
      assert LeafHolds(t, s, m, o) && LeafOk(t, s, o);
      forall k
        ensures In(s, o, k) ==> !In(s, p, k)
      {
        LeavesDisjoint(t, s, p, o, k);
      }
      forall i | 0 <= i < |t[o].recs| && !t[o].recs[i].dead
        ensures t[o].recs[i].key in m' && m'[t[o].recs[i].key] == t[o].recs[i].value
      {
        assert In(s, o, t[o].recs[i].key);
      }
    }
  }

  /** A leaf with a new live record agrees with the map with the new pair. */
  lemma {:induction false} LeafHoldsInserted(t: Tree, t': Tree, s: Shape, m: map<int, string>, p: Off, r: Record)
    requires Mapped(t, s) && Mapped(t', s) && p in t && t[p].Leaf? && t'[p].Leaf?
    requires LeafHolds(t, s, m, p) && !r.dead && r.key !in m
    requires t'[p].recs == InsertRec(t[p].recs, r)
    ensures !LiveAt(t[p].recs, r.key)
    ensures LeafHolds(t', s, m[r.key := r.value], p)
  {
    var recs, recs' := t[p].recs, t'[p].recs;
    InsertRecMembers(recs, r);
    hide InsertRec;
    assert recs' == InsertRec(recs, r);
    forall k | k in m[r.key := r.value] && In(s, p, k)
      ensures LiveAt(recs', k)
    {
      if k == r.key {
        assert r in recs';
      } else {
        var i :| 0 <= i < |recs| && recs[i].key == k && !recs[i].dead;
        assert recs[i] in recs';
      }
    }
    forall i | 0 <= i < |recs'| && !recs'[i].dead
      ensures recs'[i].key in m[r.key := r.value] && m[r.key := r.value][recs'[i].key] == recs'[i].value
    {
      assert recs'[i] in recs || recs'[i] == r;
    }
  }

  // ---------- pages that a change does not touch ----------

  /** What a parent can see of a child is the same before and after. */
  ghost predicate SameChild(t: Tree, t': Tree, s: Shape, s': Shape, q: Pending, q': Pending, c: Off)
    requires Mapped(t, s) && Mapped(t', s') && c in t && (q.Split? ==> q.right in t) && (q'.Split? ==> q'.right in t')
  {
    && c in t' && t'[c].parent == t[c].parent && s'.height[c] == s.height[c] && s'.lo[c] == s.lo[c]
    && SeenHi(s', q', c) == SeenHi(s, q, c) && !(q'.Split? && c == q'.right)
  }

  lemma {:induction false} InnerKept(t: Tree, t': Tree, s: Shape, s': Shape, q: Pending, q': Pending, p: Off)
    requires Mapped(t, s) && Mapped(t', s') && p in t && t[p].Inner? && p in t'
    requires (q.Split? ==> q.right in t) && (q'.Split? ==> q'.right in t')
    requires InnerOk(t, s, q, p) && t'[p].Inner? && t'[p].first == t[p].first && t'[p].kids == t[p].kids
    requires s'.lo[p] == s.lo[p] && s'.hi[p] == s.hi[p] && s'.height[p] == s.height[p]
    requires forall c :: c in t && t[c].parent == p && !(q.Split? && c == q.right) ==> SameChild(t, t', s, s', q, q', c)
    ensures InnerOk(t', s', q', p)
  {
    forall i | 0 <= i <= |t'[p].kids|
      ensures ChildOk(t', s', q', p, i)
    {
      assert ChildOk(t, s, q, p, i);
    }
  }

  lemma {:induction false} LinkKept(t: Tree, t': Tree, s: Shape, s': Shape, root: Off, q: Pending, q': Pending, c: Off)
    requires Mapped(t, s) && Mapped(t', s') && c in t && c in t'
    requires (q.Split? ==> q.right in t) && (q'.Split? ==> q'.right in t')
    requires LinkOk(t, s, root, q, c) && t'[c].parent == t[c].parent && s'.lo[c] == s.lo[c]
    requires SeenHi(s', q', c) == SeenHi(s, q, c)
    requires c != root && !(q'.Split? && c == q'.right) ==>
               && !(q.Split? && c == q.right)
               && (IsChild(t, t[c].parent, c) ==>
                     && t[c].parent in t' && t'[t[c].parent].Inner?
                     && t'[t[c].parent].first == t[t[c].parent].first && t'[t[c].parent].kids == t[t[c].parent].kids)
    ensures LinkOk(t', s', root, q', c)
  {
    if c != root && !(q'.Split? && c == q'.right) {
      var p := t[c].parent;
      var i :| 0 <= i <= |t[p].kids| && Child(t[p], i) == c;
      assert Child(t'[p], i) == c;
    }
  }

  lemma {:induction false} ChainKept(t: Tree, t': Tree, s: Shape, s': Shape)
    requires Mapped(t, s) && Mapped(t', s') && ChainOk(t, s) && s'.chain == s.chain
    requires forall o :: o in t ==> o in t' && (t'[o].Leaf? <==> t[o].Leaf?)
    requires forall o :: o in t && t[o].Leaf? ==> t'[o].next == t[o].next && s'.lo[o] == s.lo[o] && s'.hi[o] == s.hi[o]
    requires forall o :: o in t' && o !in t ==> t'[o].Inner?
    ensures ChainOk(t', s')
  {
    var c := s.chain;
    forall o | o in t'
      ensures t'[o].Leaf? <==> o in c
    {
      assert o in t ==> (t[o].Leaf? <==> o in c);
    }
    forall i | 0 <= i < |c|
      ensures c[i] in t' && t'[c[i]].Leaf? && NextOk(t', c, i)
    {
      var o := c[i];
      assert o in t && t[o].Leaf? && NextOk(t, c, i);
      assert o in t' && t'[o].Leaf? && t'[o].next == t[o].next;
    }
    forall i, j | 0 <= i < j < |c|
      ensures Before(s', c[i], c[j])
    {
      assert Before(s, c[i], c[j]);
    }
  }

  // ---------- insert_into_leaf ----------

  /** insert_into_leaf: room in the leaf. */
  lemma {:induction false} LeafInsertOk(t: Tree, root: Off, s: Shape, m: map<int, string>, p: Off, r: Record)
    requires TreeOk(t, root, s, Whole) && Holds(t, s, m)
    requires p in t && t[p].Leaf? && In(s, p, r.key) && |t[p].recs| < LEAF_MAX
    requires !r.dead && r.key !in m
    ensures TreeOk(LeafInserted(t, p, r), root, s, Whole)
    ensures Holds(LeafInserted(t, p, r), s, m[r.key := r.value])
  {
    var t' := LeafInserted(t, p, r);
    LeafInsertedOk(t, root, s, m, p, r);
    LeafChanged(t, t', root, s, p);
    hide InnerOk, LinkOk, LeafHolds;
    HoldsAfter(t, t', s, m, m[r.key := r.value], p);
  }

  lemma {:induction false} LeafInsertedOk(t: Tree, root: Off, s: Shape, m: map<int, string>, p: Off, r: Record)
    requires TreeOk(t, root, s, Whole) && Holds(t, s, m)
    requires p in t && t[p].Leaf? && In(s, p, r.key) && |t[p].recs| < LEAF_MAX
    requires !r.dead && r.key !in m
    ensures var t' := LeafInserted(t, p, r);
            && Mapped(t', s) && LeafOk(t', s, p) && LeafHolds(t', s, m[r.key := r.value], p)
  {
    var t' := LeafInserted(t, p, r);
    assert LeafHolds(t, s, m, p) && LeafOk(t, s, p) && LinkOk(t, s, root, Whole, p);
    hide InnerOk, LinkOk;
    LeafHoldsInserted(t, t', s, m, p, r);
    InsertRecSorted(t[p].recs, r);
    InsertRecMembers(t[p].recs, r);
    forall i | 0 <= i < |t'[p].recs|
      ensures AtLeast(s.lo[p], t'[p].recs[i].key) && Below(s.hi[p], t'[p].recs[i].key)
    {
      assert t'[p].recs[i] in InsertRec(t[p].recs, r);
    }
  }

  /** Replacing the records of one leaf by others of its interval. */
  lemma {:induction false} LeafChanged(t: Tree, t': Tree, root: Off, s: Shape, p: Off)
    requires TreeOk(t, root, s, Whole) && p in t && t[p].Leaf? && t'.Keys == t.Keys
    requires t'[p].Leaf? && t'[p].parent == t[p].parent && t'[p].next == t[p].next
    requires forall o :: o in t && o != p ==> t'[o] == t[o]
    requires Mapped(t', s) && LeafOk(t', s, p)
    ensures TreeOk(t', root, s, Whole)
  {
    ChainKept(t, t', s, s);
    hide InnerOk, LinkOk, LeafOk, ChainOk;
    forall o {:trigger InnerOk(t', s, Whole, o)} | o in t' && t'[o].Inner?
      ensures InnerOk(t', s, Whole, o)
    {
      assert InnerOk(t, s, Whole, o);
      InnerKept(t, t', s, s, Whole, Whole, o);
    }
    forall o {:trigger LinkOk(t', s, root, Whole, o)} | o in t'
      ensures LinkOk(t', s, root, Whole, o)
    {
      assert LinkOk(t, s, root, Whole, o);
      LinkLeafKept(t, t', root, s, p, o);
    }
    forall o {:trigger LeafOk(t', s, o)} | o in t' && t'[o].Leaf?
      ensures LeafOk(t', s, o)
    {
      if o != p {
        assert LeafOk(t, s, o);
        LeafKept(t, t', s, s, o);
      }
    }
  }

  lemma {:induction false} LeafKept(t: Tree, t': Tree, s: Shape, s': Shape, o: Off)
    requires Mapped(t, s) && Mapped(t', s') && o in t && t[o].Leaf? && o in t' && t'[o].Leaf?
    requires LeafOk(t, s, o) && t'[o].recs == t[o].recs
    requires s'.lo[o] == s.lo[o] && s'.hi[o] == s.hi[o] && s'.height[o] == s.height[o]
    ensures LeafOk(t', s', o)
  {
  }

  lemma {:induction false} LinkLeafKept(t: Tree, t': Tree, root: Off, s: Shape, p: Off, o: Off)
    requires Mapped(t, s) && Mapped(t', s) && p in t && t[p].Leaf? && t'.Keys == t.Keys && o in t
    requires t'[p].Leaf? && t'[p].parent == t[p].parent
    requires forall x :: x in t && x != p ==> t'[x] == t[x]
    requires LinkOk(t, s, root, Whole, o)
    ensures LinkOk(t', s, root, Whole, o)
  {
    LinkKept(t, t', s, s, root, Whole, Whole, o);
  }

  // ---------- insert_into_leaf_as ----------

  function InsertAfter(chain: seq<Off>, p: Off, o: Off): seq<Off> {
    if chain == [] then []
    else if chain[0] == p then [p, o] + chain[1..]
    else [chain[0]] + InsertAfter(chain[1..], p, o)
  }

  /** A full leaf and a new record shared out over the leaf and a new one to its right. */
  function LeafSplit(t: Tree, p: Off, right: Off, r: Record): Tree
    requires p in t && t[p].Leaf? && |t[p].recs| == LEAF_MAX
  {
    var n := t[p];
    var full := InsertRec(n.recs, r);
    t[p := Leaf(n.parent, right, full[..Cut(LEAF_MAX)])]
     [right := Leaf(n.parent, n.next, full[Cut(LEAF_MAX)..])]
  }

  /** The new page takes over the upper part of the interval. */
  function SplitShape(s: Shape, p: Off, key: int, right: Off): Shape
    requires p in s.hi && p in s.height
  {
    Shape(s.lo[right := Some(key)], s.hi[right := s.hi[p]][p := Some(key)], s.height[right := s.height[p]], s.chain)
  }

  function LeafSplitShape(s: Shape, p: Off, key: int, right: Off): Shape
    requires p in s.hi && p in s.height
  {
    SplitShape(s, p, key, right).(chain := InsertAfter(s.chain, p, right))
  }

  /** The records to be shared out: all live and in strict order. */
  ghost predicate Shareable(full: seq<Record>, lo: Bound, hi: Bound) {
    && |full| == LEAF_MAX + 1
    && (forall i :: 0 <= i < |full| ==> AtLeast(lo, full[i].key) && Below(hi, full[i].key))
    && (forall i, j :: 0 <= i < j < |full| ==> full[i].key < full[j].key)
    && SortedRecs(full)
  }

  lemma {:induction false} FullLeafShareable(t: Tree, s: Shape, m: map<int, string>, p: Off, r: Record)
    requires Mapped(t, s) && p in t && t[p].Leaf? && LeafOk(t, s, p) && LeafHolds(t, s, m, p)
    requires In(s, p, r.key) && |t[p].recs| == LEAF_MAX && !r.dead && r.key !in m
    requires forall i :: 0 <= i < LEAF_MAX ==> !t[p].recs[i].dead
    ensures Shareable(InsertRec(t[p].recs, r), s.lo[p], s.hi[p])
  {
    var recs := t[p].recs;
    var full := InsertRec(recs, r);
    var t' := LeafInserted(t, p, r);
    LeafHoldsInserted(t, t', s, m, p, r);
    InsertRecSorted(recs, r);
    InsertRecMembers(recs, r);
    InsertRecAt(recs, r);
    hide InsertRec;
    forall i | 0 <= i < |full|
      ensures !full[i].dead && AtLeast(s.lo[p], full[i].key) && Below(s.hi[p], full[i].key)
    {
      assert full[i] in full;
    }
  }

  lemma {:induction false} SplitLeavesOk(t: Tree, s: Shape, p: Off, right: Off, r: Record, full: seq<Record>)
    requires Mapped(t, s) && p in t && t[p].Leaf? && LeafOk(t, s, p) && |t[p].recs| == LEAF_MAX
    requires right != 0 && right !in t && full == InsertRec(t[p].recs, r) && Shareable(full, s.lo[p], s.hi[p])
    ensures var key := full[Cut(LEAF_MAX)].key;
            var t', s' := LeafSplit(t, p, right, r), LeafSplitShape(s, p, key, right);
            && Mapped(t', s') && LeafOk(t', s', p) && LeafOk(t', s', right)
            && Above(s.lo[p], key) && Below(s.hi[p], key)
  {
    var c := Cut(LEAF_MAX);
    hide InsertRec, InsertAfter;
    assert full[0].key < full[c].key;
    assert forall i :: 0 <= i < |full[..c]| ==> full[..c][i] == full[i];
    assert forall i :: 0 <= i < |full[c..]| ==> full[c..][i] == full[i + c];
  }

  lemma {:induction false} SplitLive(full: seq<Record>, c: nat, k: int)
    requires c < |full| && (forall i, j :: 0 <= i < j < |full| ==> full[i].key < full[j].key) && LiveAt(full, k)
    ensures if k < full[c].key then LiveAt(full[..c], k) else LiveAt(full[c..], k)
  {
    var i :| 0 <= i < |full| && full[i].key == k && !full[i].dead;
    if i < c {
      assert full[..c][i] == full[i];
    } else {
      assert full[c..][i - c] == full[i];
    }
  }

  /** The halves of the records hold the map on either side of the key between them. */
  lemma {:induction false} HalvesHold(full: seq<Record>, c: nat, m: map<int, string>, lo: Bound, hi: Bound)
    requires Shareable(full, lo, hi) && 0 < c < |full|
    requires forall i :: 0 <= i < |full| && !full[i].dead ==> full[i].key in m && m[full[i].key] == full[i].value
    requires forall k :: k in m && AtLeast(lo, k) && Below(hi, k) ==> LiveAt(full, k)
    ensures forall i :: 0 <= i < c && !full[..c][i].dead ==> full[..c][i].key in m && m[full[..c][i].key] == full[..c][i].value
    ensures forall i :: 0 <= i < |full[c..]| && !full[c..][i].dead ==>
              full[c..][i].key in m && m[full[c..][i].key] == full[c..][i].value
    ensures forall k :: k in m && AtLeast(lo, k) && k < full[c].key ==> LiveAt(full[..c], k)
    ensures forall k :: k in m && full[c].key <= k && Below(hi, k) ==> LiveAt(full[c..], k)
  {
    assert full[0].key < full[c].key && AtLeast(lo, full[0].key) && Below(hi, full[c].key);
    forall k | k in m && AtLeast(lo, k) && Below(hi, k)
      ensures if k < full[c].key then LiveAt(full[..c], k) else LiveAt(full[c..], k)
    {
      SplitLive(full, c, k);
    }
    forall i | 0 <= i < |full[c..]| && !full[c..][i].dead
      ensures full[c..][i].key in m && m[full[c..][i].key] == full[c..][i].value
    {
      assert full[c..][i] == full[c + i];
    }
  }

  lemma {:induction false} SplitLeavesHold(t: Tree, s: Shape, p: Off, right: Off, r: Record, full: seq<Record>, m: map<int, string>)
    requires Mapped(t, s) && p in t && t[p].Leaf? && |t[p].recs| == LEAF_MAX
    requires right != 0 && right !in t && full == InsertRec(t[p].recs, r) && Shareable(full, s.lo[p], s.hi[p])
    requires LeafHolds(LeafInserted(t, p, r), s, m, p)
    ensures var key := full[Cut(LEAF_MAX)].key;
            var t', s' := LeafSplit(t, p, right, r), LeafSplitShape(s, p, key, right);
            && Mapped(t', s') && LeafHolds(t', s', m, p) && LeafHolds(t', s', m, right)
  {
    hide InsertRec, InsertAfter;
    assert LeafInserted(t, p, r)[p].recs == full;
    HalvesHold(full, Cut(LEAF_MAX), m, s.lo[p], s.hi[p]);
    hide Shareable, LiveAt;
  }

  // ---------- the chain ----------

  lemma {:induction false} InsertAfterAt(chain: seq<Off>, p: Off, o: Off, i: nat)
    requires i < |chain| && chain[i] == p && forall j :: 0 <= j < i ==> chain[j] != p
    ensures InsertAfter(chain, p, o) == chain[..i + 1] + [o] + chain[i + 1..]
  {
    if i > 0 {
      InsertAfterAt(chain[1..], p, o, i - 1);
    }
  }

  /** The chain has no repetition, since intervals are not empty. */
  lemma {:induction false} ChainNoRepeat(t: Tree, s: Shape, i: nat, j: nat)
    requires Mapped(t, s) && ChainOk(t, s) && i < j < |s.chain|
    requires forall p {:trigger LeafOk(t, s, p)} :: p in t && t[p].Leaf? ==> LeafOk(t, s, p)
    ensures s.chain[i] != s.chain[j]
  {
    var p := s.chain[i];
    assert Before(s, p, s.chain[j]) && LeafOk(t, s, p);
    var first := t[p].recs[0];
    assert AtLeast(s.lo[p], first.key) && Below(s.hi[p], first.key);
  }

  lemma {:induction false} SplitChain(t: Tree, t': Tree, s: Shape, s': Shape, p: Off, right: Off)
    requires Mapped(t, s) && Mapped(t', s') && ChainOk(t, s) && p in t && t[p].Leaf?
    requires forall o {:trigger LeafOk(t, s, o)} :: o in t && t[o].Leaf? ==> LeafOk(t, s, o)
    requires right !in t && t'.Keys == t.Keys + {right}
    requires t'[p].Leaf? && t'[p].next == right && t'[right].Leaf? && t'[right].next == t[p].next
    requires forall o :: o in t && o != p ==> t'[o] == t[o]
    requires s'.chain == InsertAfter(s.chain, p, right)
    requires s'.lo == s.lo[right := s'.lo[right]] && s'.hi == s.hi[right := s.hi[p]][p := s'.hi[p]]
    requires s'.hi[p] == s'.lo[right] && s'.lo[right].Some? && AtLeast(s.lo[p], s'.lo[right].value)
    requires s.hi[p].Some? ==> s'.lo[right].value <= s.hi[p].value
    ensures ChainOk(t', s')
  {
    var c, c' := s.chain, s'.chain;
    assert p in c;
    var i :| 0 <= i < |c| && c[i] == p;
    forall j | 0 <= j < |c| && j != i
      ensures c[j] != p
    {
      ChainNoRepeat(t, s, if j < i then j else i, if j < i then i else j);
    }
    InsertAfterAt(c, p, right, i);
    hide InsertAfter, LeafOk;
    SplitChainMembers(t, t', s, c', i, right);
    SplitChainNext(t, t', s, c', i, right);
    SplitChainOrder(t, s, s', c', i, right);
    assert c' != [];
    hide Follows, Before;
  }

  /** c' is c with `right` after position i. */
  ghost predicate Follows(c: seq<Off>, c': seq<Off>, i: nat, right: Off) {
    i < |c| && c' == c[..i + 1] + [right] + c[i + 1..]
  }

  lemma {:induction false} SplitChainMembers(t: Tree, t': Tree, s: Shape, c': seq<Off>, i: nat, right: Off)
    requires Mapped(t, s) && ChainOk(t, s) && Follows(s.chain, c', i, right)
    requires right !in t && t'.Keys == t.Keys + {right} && t'[right].Leaf?
    requires forall o :: o in t ==> (t'[o].Leaf? <==> t[o].Leaf?)
    ensures forall o {:trigger o in c'} :: o in t' ==> (t'[o].Leaf? <==> o in c')
  {
    var c := s.chain;
    forall o | o in t'
      ensures t'[o].Leaf? <==> o in c'
    {
      if o in c {
        var j :| 0 <= j < |c| && c[j] == o;
        assert c'[if j <= i then j else j + 1] == o;
      }
      if o in c' && o != right {
        var j :| 0 <= j < |c'| && c'[j] == o;
        assert c[if j <= i then j else j - 1] == o;
      }
    }
  }

  lemma {:induction false} SplitChainNext(t: Tree, t': Tree, s: Shape, c': seq<Off>, i: nat, right: Off)
    requires Mapped(t, s) && ChainOk(t, s) && Follows(s.chain, c', i, right)
    requires forall j :: 0 <= j < |s.chain| && j != i ==> s.chain[j] != s.chain[i]
    requires right !in t && t'.Keys == t.Keys + {right} && t'[right].Leaf?
    requires forall o :: o in t && o != s.chain[i] ==> t'[o] == t[o]
    requires t'[s.chain[i]].Leaf? && t'[s.chain[i]].next == right && t'[right].next == t[s.chain[i]].next
    ensures forall a :: 0 <= a < |c'| ==> c'[a] in t' && t'[c'[a]].Leaf?
    ensures forall a {:trigger NextOk(t', c', a)} :: 0 <= a < |c'| ==> NextOk(t', c', a)
  {
    var c := s.chain;
    forall a | 0 <= a < |c'|
      ensures c'[a] in t' && t'[c'[a]].Leaf?
      ensures NextOk(t', c', a)
    {
      var j := if a <= i then a else a - 1;
      assert c[j] in t && t[c[j]].Leaf? && NextOk(t, c, j);
      if a != i && a != i + 1 {
        assert c'[a] == c[j] && c[j] != c[i];
      }
    }
  }

  lemma {:induction false} SplitChainOrder(t: Tree, s: Shape, s': Shape, c': seq<Off>, i: nat, right: Off)
    requires Mapped(t, s) && ChainOk(t, s) && Follows(s.chain, c', i, right) && right !in t
    requires forall j :: 0 <= j < |s.chain| && j != i ==> s.chain[j] != s.chain[i]
    requires var p := s.chain[i];
             && p in s'.hi && right in s'.lo
             && s'.lo == s.lo[right := s'.lo[right]] && s'.hi == s.hi[right := s.hi[p]][p := s'.hi[p]]
             && s'.hi[p] == s'.lo[right] && s'.lo[right].Some? && AtLeast(s.lo[p], s'.lo[right].value)
             && (s.hi[p].Some? ==> s'.lo[right].value <= s.hi[p].value)
    ensures forall a :: 0 <= a < |c'| ==> c'[a] in s'.lo && c'[a] in s'.hi
    ensures forall a, b {:trigger Before(s', c'[a], c'[b])} :: 0 <= a < b < |c'| ==> Before(s', c'[a], c'[b])
  {
    var c := s.chain;
    forall a | 0 <= a < |c'|
      ensures c'[a] in s'.lo && c'[a] in s'.hi
      ensures c'[a] == if a == i + 1 then right else c[if a <= i then a else a - 1]
      ensures a != i + 1 ==> c'[a] in s.lo
    {
      var j := if a <= i then a else a - 1;
      assert c[j] in t;
    }
    forall a, b | 0 <= a < b < |c'|
      ensures Before(s', c'[a], c'[b])
    {
      var a', b' := if a <= i then a else a - 1, if b <= i then b else b - 1;
      assert a' < b' ==> Before(s, c[a'], c[b']);
    }
  }

  // ---------- the tree after a split ----------

  /** The pages that a split of p does not touch: all inner pages, ... */
  lemma {:induction false} LeafSplitInner(t: Tree, t': Tree, root: Off, s: Shape, s': Shape, p: Off, key: int, right: Off, o: Off)
    requires TreeOk(t, root, s, Whole) && Mapped(t', s') && p in t && t[p].Leaf? && right !in t
    requires t'.Keys == t.Keys + {right} && t'[p].parent == t[p].parent && t'[p].Leaf? && t'[right].Leaf?
    requires forall x :: x in t && x != p ==> t'[x] == t[x]
    requires s' == LeafSplitShape(s, p, key, right)
    requires o in t && t[o].Inner?
    ensures InnerOk(t', s', Split(p, key, right), o)
  {
    assert InnerOk(t, s, Whole, o);
    InnerKept(t, t', s, s', Whole, Split(p, key, right), o);
  }

  lemma {:induction false} LeafSplitLink(t: Tree, t': Tree, root: Off, s: Shape, s': Shape, p: Off, key: int, right: Off, o: Off)
    requires TreeOk(t, root, s, Whole) && Mapped(t', s') && p in t && t[p].Leaf? && right !in t
    requires t'.Keys == t.Keys + {right} && t'[p].parent == t[p].parent && t'[p].Leaf? && t'[right].Leaf?
    requires forall x :: x in t && x != p ==> t'[x] == t[x]
    requires s' == LeafSplitShape(s, p, key, right)
    requires o in t'
    ensures LinkOk(t', s', root, Split(p, key, right), o)
  {
    if o != right {
      assert LinkOk(t, s, root, Whole, o);
      LinkKept(t, t', s, s', root, Whole, Split(p, key, right), o);
    }
  }

  lemma {:induction false} LeafSplitTree(t: Tree, root: Off, s: Shape, p: Off, right: Off, r: Record)
    requires TreeOk(t, root, s, Whole) && p in t && t[p].Leaf? && |t[p].recs| == LEAF_MAX && right != 0 && right !in t
    requires Shareable(InsertRec(t[p].recs, r), s.lo[p], s.hi[p])
    ensures var key := InsertRec(t[p].recs, r)[Cut(LEAF_MAX)].key;
            TreeOk(LeafSplit(t, p, right, r), root, LeafSplitShape(s, p, key, right), Split(p, key, right))
  {
    var full := InsertRec(t[p].recs, r);
    var key := full[Cut(LEAF_MAX)].key;
    var t', s' := LeafSplit(t, p, right, r), LeafSplitShape(s, p, key, right);
    assert LeafOk(t, s, p);
    SplitLeavesOk(t, s, p, right, r, full);
    SplitChain(t, t', s, s', p, right);
    hide InsertRec, InsertAfter, ChainOk, InnerOk, LinkOk, LeafOk;
    forall o {:trigger InnerOk(t', s', Split(p, key, right), o)} | o in t' && t'[o].Inner?
      ensures InnerOk(t', s', Split(p, key, right), o)
    {
      LeafSplitInner(t, t', root, s, s', p, key, right, o);
    }
    forall o {:trigger LinkOk(t', s', root, Split(p, key, right), o)} | o in t'
      ensures LinkOk(t', s', root, Split(p, key, right), o)
    {
      LeafSplitLink(t, t', root, s, s', p, key, right, o);
    }
    forall o {:trigger LeafOk(t', s', o)} | o in t' && t'[o].Leaf?
      ensures LeafOk(t', s', o)
    {
      if o != p && o != right {
        assert LeafOk(t, s, o);
        LeafKept(t, t', s, s', o);
      }
    }
  }

  lemma {:induction false} LeafSplitHolds(t: Tree, s: Shape, m: map<int, string>, p: Off, right: Off, r: Record)
    requires Mapped(t, s) && p in t && t[p].Leaf? && |t[p].recs| == LEAF_MAX && right != 0 && right !in t
    requires Shareable(InsertRec(t[p].recs, r), s.lo[p], s.hi[p])
    requires Holds(LeafInserted(t, p, r), s, m)
    ensures var key := InsertRec(t[p].recs, r)[Cut(LEAF_MAX)].key;
            var t', s' := LeafSplit(t, p, right, r), LeafSplitShape(s, p, key, right);
            Mapped(t', s') && Holds(t', s', m)
  {
    var full := InsertRec(t[p].recs, r);
    var key := full[Cut(LEAF_MAX)].key;
    var t1, t', s' := LeafInserted(t, p, r), LeafSplit(t, p, right, r), LeafSplitShape(s, p, key, right);
    assert LeafHolds(t1, s, m, p);
    SplitLeavesHold(t, s, p, right, r, full, m);
    hide InsertRec, InsertAfter, LeafHolds;
    forall o {:trigger LeafHolds(t', s', m, o)} | o in t' && t'[o].Leaf?
      ensures LeafHolds(t', s', m, o)
    {
      if o != p && o != right {
        assert LeafHolds(t1, s, m, o);
        LeafHoldsKept(t1, t', s, s', m, o);
      }
    }
  }

  /** insert_into_leaf_as, up to the call of insert_into_parent: the leaf is full and holds no dead record. */
  lemma {:induction false} LeafSplitOk(t: Tree, root: Off, s: Shape, m: map<int, string>, p: Off, right: Off, r: Record)
    requires TreeOk(t, root, s, Whole) && Holds(t, s, m)
    requires p in t && t[p].Leaf? && In(s, p, r.key) && |t[p].recs| == LEAF_MAX
    requires forall i :: 0 <= i < LEAF_MAX ==> !t[p].recs[i].dead
    requires right != 0 && right !in t && !r.dead && r.key !in m
    ensures var key := InsertRec(t[p].recs, r)[Cut(LEAF_MAX)].key;
            var t', s' := LeafSplit(t, p, right, r), LeafSplitShape(s, p, key, right);
            && TreeOk(t', root, s', Split(p, key, right))
            && Mapped(t', s') && Holds(t', s', m[r.key := r.value])
  {
    assert LeafHolds(t, s, m, p) && LeafOk(t, s, p);
    FullLeafShareable(t, s, m, p, r);
    LeafHoldsInserted(t, LeafInserted(t, p, r), s, m, p, r);
    hide InsertRec, InsertAfter, ChainOk, InnerOk, LinkOk, LeafOk, LeafHolds;
    HoldsAfter(t, LeafInserted(t, p, r), s, m, m[r.key := r.value], p);
    LeafSplitTree(t, root, s, p, right, r);
    LeafSplitHolds(t, s, m[r.key := r.value], p, right, r);
  }

  lemma {:induction false} LeafHoldsKept(t: Tree, t': Tree, s: Shape, s': Shape, m: map<int, string>, o: Off)
    requires Mapped(t, s) && Mapped(t', s') && o in t && t[o].Leaf? && o in t' && t'[o].Leaf?
    requires LeafHolds(t, s, m, o) && t'[o].recs == t[o].recs && s'.lo[o] == s.lo[o] && s'.hi[o] == s.hi[o]
    ensures LeafHolds(t', s', m, o)
  {
  }

  // ---------- page sizes ----------

  lemma {:induction false} LeafInsertSized(t: Tree, root: Off, p: Off, r: Record)
    requires Sized(t, root) && p in t && t[p].Leaf? && Count(t[p]) < LEAF_MAX
    ensures Sized(LeafInserted(t, p, r), root)
  {
    var t' := LeafInserted(t, p, r);
    assert Count(t'[p]) == Count(t[p]) + 1;
    forall o | o in t && o != p
      ensures Count(t'[o]) == Count(t[o]) && MaxCount(t'[o]) == MaxCount(t[o]) && MinCount(t'[o]) == MinCount(t[o])
    {
    }
    assert MinCount(t'[p]) == MinCount(t[p]);
  }

  lemma {:induction false} LeafSplitSized(t: Tree, root: Off, p: Off, right: Off, r: Record)
    requires Sized(t, root) && p in t && t[p].Leaf? && Count(t[p]) == LEAF_MAX && right !in t
    ensures var t' := LeafSplit(t, p, right, r);
            && Sized(t', root) && Count(t'[p]) >= MinCount(t'[p])
            && Count(t'[p]) + Count(t'[right]) == LEAF_MAX + 1 && LEAF_MAX <= 2 * Count(t'[p]) <= LEAF_MAX + 1
  {
    var t' := LeafSplit(t, p, right, r);
    assert Count(t'[p]) == Cut(LEAF_MAX) && Count(t'[right]) == LEAF_MAX + 1 - Cut(LEAF_MAX);
    forall o | o in t && o != p
      ensures Count(t'[o]) == Count(t[o]) && MaxCount(t'[o]) == MaxCount(t[o]) && MinCount(t'[o]) == MinCount(t[o])
    {
    }
  }
}
