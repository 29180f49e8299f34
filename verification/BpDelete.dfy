/** Delayed deletion: a record is only marked as deleted when its leaf would get too small without it. */
module BpDelete {
  import opened BpShape
  import opened BpInsert

  /** The records of a leaf after the deletion of the i-th. */
  function Deleted(recs: seq<Record>, i: nat): seq<Record>
    requires i < |recs|
  {
    if |recs| - 1 < Cut(LEAF_MAX) then recs[i := recs[i].(dead := true)] else recs[..i] + recs[i + 1..]
  }

  function LeafDeleted(t: Tree, p: Off, i: nat): Tree
    requires p in t && t[p].Leaf? && i < |t[p].recs|
  {
    t[p := t[p].(recs := Deleted(t[p].recs, i))]
  }

  /** The live records afterwards are those of other keys; what is left was there before, but for the mark. */
  lemma {:induction false} DeletedRecords(recs: seq<Record>, i: nat)
    requires SortedRecs(recs) && i < |recs| && !recs[i].dead
    ensures SortedRecs(Deleted(recs, i)) && Deleted(recs, i) != []
    ensures forall j :: 0 <= j < |Deleted(recs, i)| ==>
              exists k :: 0 <= k < |recs| && recs[k].key == Deleted(recs, i)[j].key
                          && (!Deleted(recs, i)[j].dead ==> k != i && recs[k] == Deleted(recs, i)[j])
    ensures forall k :: k != recs[i].key ==> (LiveAt(recs, k) ==> LiveAt(Deleted(recs, i), k))
  {
    var d := Deleted(recs, i);
    var marked := |recs| - 1 < Cut(LEAF_MAX);
    forall j | 0 <= j < |d|
      ensures exists k :: 0 <= k < |recs| && recs[k].key == d[j].key && (!d[j].dead ==> k != i && recs[k] == d[j])
    {
      var k := if marked || j < i then j else j + 1;
      assert recs[k].key == d[j].key && (!d[j].dead ==> k != i && recs[k] == d[j]);
    }
    forall k | k != recs[i].key && LiveAt(recs, k)
      ensures LiveAt(d, k)
    {
      var j :| 0 <= j < |recs| && recs[j].key == k && !recs[j].dead;
      assert d[if marked || j < i then j else j - 1] == recs[j];
    }
  }

  /** A live record is the only live one with its key. */
  lemma {:induction false} OneLive(recs: seq<Record>, i: nat)
    requires SortedRecs(recs) && i < |recs| && !recs[i].dead
    ensures forall j :: 0 <= j < |recs| && j != i && !recs[j].dead ==> recs[j].key != recs[i].key
  {
  }

  lemma {:induction false} DeletedLeafOk(t: Tree, s: Shape, m: map<int, string>, p: Off, i: nat)
    requires Mapped(t, s) && p in t && t[p].Leaf? && LeafOk(t, s, p) && LeafHolds(t, s, m, p)
    requires i < |t[p].recs| && !t[p].recs[i].dead
    ensures var t' := LeafDeleted(t, p, i);
            Mapped(t', s) && LeafOk(t', s, p) && LeafHolds(t', s, m - {t[p].recs[i].key}, p)
  {
    var recs, d, k := t[p].recs, Deleted(t[p].recs, i), t[p].recs[i].key;
    DeletedRecords(recs, i);
    OneLive(recs, i);
    hide Deleted;
    var t', m' := LeafDeleted(t, p, i), m - {k};
    forall j | 0 <= j < |d|
      ensures AtLeast(s.lo[p], d[j].key) && Below(s.hi[p], d[j].key)
      ensures !d[j].dead ==> d[j].key in m' && m'[d[j].key] == d[j].value
    {
      var o :| 0 <= o < |recs| && recs[o].key == d[j].key && (!d[j].dead ==> o != i && recs[o] == d[j]);
    }
  }

  /** Deleting a live record, by mark or for good, keeps the tree and takes its key out of the map. */
  lemma {:induction false} LeafDeleteOk(t: Tree, root: Off, s: Shape, m: map<int, string>, p: Off, i: nat)
    requires TreeOk(t, root, s, Whole) && Sized(t, root) && Holds(t, s, m)
    requires p in t && t[p].Leaf? && i < |t[p].recs| && !t[p].recs[i].dead
    ensures var t' := LeafDeleted(t, p, i);
            TreeOk(t', root, s, Whole) && Sized(t', root) && Holds(t', s, m - {t[p].recs[i].key})
  {
    var t', m' := LeafDeleted(t, p, i), m - {t[p].recs[i].key};
    assert LeafOk(t, s, p) && LeafHolds(t, s, m, p);
    assert In(s, p, t[p].recs[i].key);
    DeletedLeafOk(t, s, m, p, i);
    LeafDeleteSized(t, root, p, i);
    hide Deleted, LeafOk, LeafHolds, LinkOk, InnerOk;
    LeafChanged(t, t', root, s, p);
    HoldsAfter(t, t', s, m, m', p);
  }

  /** No deletion brings a leaf below its minimum. */
  lemma {:induction false} LeafDeleteSized(t: Tree, root: Off, p: Off, i: nat)
    requires Sized(t, root) && p in t && t[p].Leaf? && i < |t[p].recs|
    ensures Sized(LeafDeleted(t, p, i), root)
    ensures Count(LeafDeleted(t, p, i)[p]) >= (if |t[p].recs| - 1 < Cut(LEAF_MAX) then |t[p].recs| else Cut(LEAF_MAX))
  {
    var t' := LeafDeleted(t, p, i);
    forall o | o in t && o != p
      ensures Count(t'[o]) == Count(t[o]) && MaxCount(t'[o]) == MaxCount(t[o]) && MinCount(t'[o]) == MinCount(t[o])
    {
    }
    assert Count(t[p]) <= MaxCount(t[p]) && (p != root ==> Count(t[p]) >= MinCount(t[p]));
  }
}
