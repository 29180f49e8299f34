/** What a scan along the leaf chain sees: every record, in key order, and of these the live ones are the map. */
module BpChain {
  import opened BpShape

  /** The records met by following `next` from leaf to leaf. */
  function ChainRecs(t: Tree, c: seq<Off>): seq<Record>
    requires forall i :: 0 <= i < |c| ==> c[i] in t && t[c[i]].Leaf?
  {
    if c == [] then [] else t[c[0]].recs + ChainRecs(t, c[1..])
  }

  /** Where a record of the chain comes from. */
  lemma {:induction false} ChainRecAt(t: Tree, c: seq<Off>, k: nat) returns (i: nat, j: nat)
    requires forall i :: 0 <= i < |c| ==> c[i] in t && t[c[i]].Leaf?
    requires k < |ChainRecs(t, c)|
    ensures i < |c| && j < |t[c[i]].recs| && ChainRecs(t, c)[k] == t[c[i]].recs[j]
  {
    var n := |t[c[0]].recs|;
    if k < n {
      i, j := 0, k;
    } else {
      i, j := ChainRecAt(t, c[1..], k - n);
      i := i + 1;
    }
  }

  lemma {:induction false} ChainHasRec(t: Tree, c: seq<Off>, i: nat, j: nat) returns (k: nat)
    requires forall i :: 0 <= i < |c| ==> c[i] in t && t[c[i]].Leaf?
    requires i < |c| && j < |t[c[i]].recs|
    ensures k < |ChainRecs(t, c)| && ChainRecs(t, c)[k] == t[c[i]].recs[j]
  {
    if i == 0 {
      k := j;
    } else {
      k := ChainHasRec(t, c[1..], i - 1, j);
      k := k + |t[c[0]].recs|;
    }
  }

  ghost predicate Ascending(recs: seq<Record>) {
    forall i, j :: 0 <= i < j < |recs| ==> recs[i].key <= recs[j].key
  }

  lemma {:induction false} ChainAscending(t: Tree, s: Shape, from: nat)
    requires Mapped(t, s) && ChainOk(t, s) && from <= |s.chain|
    requires forall p {:trigger LeafOk(t, s, p)} :: p in t && t[p].Leaf? ==> LeafOk(t, s, p)
    ensures Ascending(ChainRecs(t, s.chain[from..]))
    decreases |s.chain| - from
  {
    if from < |s.chain| {
      var p, rest := s.chain[from], s.chain[from + 1..];
      ChainAscending(t, s, from + 1);
      assert s.chain[from..][1..] == rest && LeafOk(t, s, p);
      var tail := ChainRecs(t, rest);
      forall a, k | 0 <= a < |t[p].recs| && 0 <= k < |tail|
        ensures t[p].recs[a].key <= tail[k].key
      {
        var i, j := ChainRecAt(t, rest, k);
        assert Before(s, s.chain[from], s.chain[from + 1 + i]) && LeafOk(t, s, rest[i]);
      }
    }
  }

  /** Below every page there is a leaf for each key of its interval. */
  lemma {:induction false} LeafFor(t: Tree, root: Off, s: Shape, p: Off, k: int) returns (leaf: Off)
    requires TreeOk(t, root, s, Whole) && p in t && In(s, p, k)
    ensures leaf in t && t[leaf].Leaf? && In(s, leaf, k)
    decreases s.height[p]
  {
    if t[p].Leaf? {
      leaf := p;
    } else {
      assert InnerOk(t, s, Whole, p);
      var i := Route(t[p].kids, k);
      assert ChildOk(t, s, Whole, p, i);
      leaf := LeafFor(t, root, s, Child(t[p], i), k);
    }
  }

  /** The number of leading entries whose key is not greater. */
  function Route(kids: seq<Entry>, k: int): (i: nat)
    ensures i <= |kids|
    ensures i > 0 ==> kids[i - 1].key <= k
    ensures i < |kids| ==> k < kids[i].key
  {
    if kids == [] || k < kids[0].key then 0 else 1 + Route(kids[1..], k)
  }

  /** The chain lists all records in ascending key order, and the live ones are exactly the pairs of the map. */
  lemma {:induction false} ChainListsContents(t: Tree, root: Off, s: Shape, m: map<int, string>)
    requires TreeOk(t, root, s, Whole) && Holds(t, s, m)
    ensures var recs := ChainRecs(t, s.chain);
            && Ascending(recs)
            && (forall k :: k in m <==> LiveAt(recs, k))
            && (forall i :: 0 <= i < |recs| && !recs[i].dead ==> recs[i].key in m && m[recs[i].key] == recs[i].value)
  {
    var recs := ChainRecs(t, s.chain);
    assert s.chain[0..] == s.chain;
    ChainAscending(t, s, 0);
    forall i | 0 <= i < |recs| && !recs[i].dead
      ensures recs[i].key in m && m[recs[i].key] == recs[i].value
    {
      var a, b := ChainRecAt(t, s.chain, i);
      assert LeafHolds(t, s, m, s.chain[a]);
    }
    forall k | k in m
      ensures LiveAt(recs, k)
    {
      assert LinkOk(t, s, root, Whole, root);
      var p := LeafFor(t, root, s, root, k);
      assert LeafHolds(t, s, m, p) && p in s.chain;
      var a :| 0 <= a < |s.chain| && s.chain[a] == p;
      var b :| 0 <= b < |t[p].recs| && t[p].recs[b].key == k && !t[p].recs[b].dead;
      var i := ChainHasRec(t, s.chain, a, b);
    }
  }

  /** From every page, as many steps up as it is lower than the root lead to the root; so all leaves are equally deep. */
  lemma {:induction false} SameDepth(t: Tree, root: Off, s: Shape, p: Off)
    requires TreeOk(t, root, s, Whole) && p in t
    ensures s.height[p] <= s.height[root] && Ancestor(t, p, s.height[root] - s.height[p]) == Some(root)
    ensures t[p].Leaf? ==> s.height[p] == 0
    decreases PagesAbove(s, p)
  {
    assert LinkOk(t, s, root, Whole, p);
    assert t[p].Leaf? ==> LeafOk(t, s, p);
    if p != root {
      var u := t[p].parent;
      var i :| 0 <= i <= |t[u].kids| && Child(t[u], i) == p;
      assert InnerOk(t, s, Whole, u) && ChildOk(t, s, Whole, u, i);
      assert u in PagesAbove(s, p) && u !in PagesAbove(s, u);
      SameDepth(t, root, s, u);
    }
  }

  function Ancestor(t: Tree, p: Off, n: nat): Option<Off>
    decreases n
  {
    if n == 0 then Some(p) else if p in t then Ancestor(t, t[p].parent, n - 1) else None
  }
}
