/** What a well-formed B+ tree on pages is, stated page by page: every page has a key interval, its children divide
    that interval, parents and children point at each other, leaves form a chain, and the leaves hold a finite map.

    While a split is being passed up, one page (`Split`) has a right sibling that its parent does not know yet.
 */
module BpShape {

  const LEAF_MAX := 3
  const INTERNAL_MAX := 24

  /** Half of a page, rounded up. */
  function Cut(length: nat): nat {
    if length % 2 == 0 then length / 2 else length / 2 + 1
  }

  datatype Option<T> = None | Some(value: T)

  type Off = int

  datatype Record = Record(key: int, dead: bool, value: string)
  datatype Entry = Entry(key: int, child: Off)

  /** The meaningful part of a page. An inner page has one more child than entries, the leftmost is `first`. */
  datatype Node =
    | Leaf(parent: Off, next: Off, recs: seq<Record>)
    | Inner(parent: Off, first: Off, kids: seq<Entry>)

  type Tree = map<Off, Node>

  // None is minus or plus infinity.
  type Bound = Option<int>

  /** The key interval [lo, hi) and the height of each page, and the leaves from left to right. */
  datatype Shape = Shape(lo: map<Off, Bound>, hi: map<Off, Bound>, height: map<Off, nat>, chain: seq<Off>)

  /** left has just been split at key, and right holds the upper part. */
  datatype Pending = Whole | Split(left: Off, key: int, right: Off)

  // ---------- inner pages ----------

  function Child(n: Node, i: nat): Off
    requires n.Inner? && i <= |n.kids|
  {
    if i == 0 then n.first else n.kids[i - 1].child
  }

  function LoAt(n: Node, lo: Bound, i: nat): Bound
    requires n.Inner? && i <= |n.kids|
  {
    if i == 0 then lo else Some(n.kids[i - 1].key)
  }

  function HiAt(n: Node, hi: Bound, i: nat): Bound
    requires n.Inner? && i <= |n.kids|
  {
    if i == |n.kids| then hi else Some(n.kids[i].key)
  }

  predicate AtLeast(lo: Bound, k: int) { lo.Some? ==> lo.value <= k }

  predicate Above(lo: Bound, k: int) { lo.Some? ==> lo.value < k }

  predicate Below(hi: Bound, k: int) { hi.Some? ==> k < hi.value }

  function Count(n: Node): nat {
    match n
    case Leaf(_, _, recs) => |recs|
    case Inner(_, _, kids) => |kids|
  }

  /** The fewest records or entries a page other than the root may have. */
  function MinCount(n: Node): nat { if n.Leaf? then Cut(LEAF_MAX) else Cut(INTERNAL_MAX) }

  function MaxCount(n: Node): nat { if n.Leaf? then LEAF_MAX else INTERNAL_MAX }

  ghost predicate Sorted(kids: seq<Entry>) {
    forall i, j :: 0 <= i < j < |kids| ==> kids[i].key < kids[j].key
  }

  /** Records in key order; of equal keys only the first may be live. */
  ghost predicate SortedRecs(recs: seq<Record>) {
    forall i, j :: 0 <= i < j < |recs| ==>
      recs[i].key <= recs[j].key && (recs[i].key == recs[j].key ==> recs[j].dead)
  }

  ghost predicate Mapped(t: Tree, s: Shape) {
    s.lo.Keys == s.hi.Keys == s.height.Keys == t.Keys && 0 !in t
  }

  /** The upper end of a page's interval as its parent still sees it. */
  function SeenHi(s: Shape, q: Pending, c: Off): Bound
    requires c in s.hi && (q.Split? ==> q.right in s.hi)
  {
    if q.Split? && c == q.left then s.hi[q.right] else s.hi[c]
  }

  ghost predicate ChildOk(t: Tree, s: Shape, q: Pending, p: Off, i: nat)
    requires Mapped(t, s) && p in t && t[p].Inner? && i <= |t[p].kids| && (q.Split? ==> q.right in t)
  {
    var c := Child(t[p], i);
    && c in t && t[c].parent == p && s.height[c] + 1 == s.height[p]
    && s.lo[c] == LoAt(t[p], s.lo[p], i) && SeenHi(s, q, c) == HiAt(t[p], s.hi[p], i)
    && !(q.Split? && c == q.right)
  }

  ghost predicate InnerOk(t: Tree, s: Shape, q: Pending, p: Off)
    requires Mapped(t, s) && p in t && t[p].Inner? && (q.Split? ==> q.right in t)
  {
    var n := t[p];
    && n.kids != [] && Sorted(n.kids)
    && Above(s.lo[p], n.kids[0].key) && Below(s.hi[p], n.kids[|n.kids| - 1].key)
    && forall i {:trigger ChildOk(t, s, q, p, i)} :: 0 <= i <= |n.kids| ==> ChildOk(t, s, q, p, i)
  }

  ghost predicate LeafOk(t: Tree, s: Shape, p: Off)
    requires Mapped(t, s) && p in t && t[p].Leaf?
  {
    var n := t[p];
    && n.recs != [] && SortedRecs(n.recs) && s.height[p] == 0
    && forall i :: 0 <= i < |n.recs| ==> AtLeast(s.lo[p], n.recs[i].key) && Below(s.hi[p], n.recs[i].key)
  }

  ghost predicate IsChild(t: Tree, p: Off, c: Off) {
    p in t && t[p].Inner? && exists i :: 0 <= i <= |t[p].kids| && Child(t[p], i) == c
  }

  /** Every page but the root hangs on its parent, the new right half of a split excepted. */
  ghost predicate LinkOk(t: Tree, s: Shape, root: Off, q: Pending, c: Off)
    requires Mapped(t, s) && c in t && (q.Split? ==> q.right in t)
  {
    && (c == root ==> t[c].parent == 0 && s.lo[c].None? && SeenHi(s, q, c).None?)
    && (c != root && !(q.Split? && c == q.right) ==> IsChild(t, t[c].parent, c))
  }

  ghost predicate PendingOk(t: Tree, s: Shape, root: Off, q: Pending)
    requires Mapped(t, s)
  {
    q.Split? ==>
      && q.left in t && q.right in t && q.left != q.right && q.right != root
      && t[q.right].parent == t[q.left].parent && s.height[q.right] == s.height[q.left]
      && s.hi[q.left] == Some(q.key) == s.lo[q.right]
      && Above(s.lo[q.left], q.key) && Below(s.hi[q.right], q.key)
  }

  // ---------- the leaf chain ----------

  ghost predicate Before(s: Shape, a: Off, b: Off)
    requires a in s.hi && b in s.lo
  {
    s.hi[a].Some? && s.lo[b].Some? && s.hi[a].value <= s.lo[b].value
  }

  ghost predicate NextOk(t: Tree, c: seq<Off>, i: nat)
    requires i < |c| && c[i] in t && t[c[i]].Leaf?
  {
    t[c[i]].next == if i + 1 < |c| then c[i + 1] else 0
  }

  ghost predicate ChainOk(t: Tree, s: Shape)
    requires Mapped(t, s)
  {
    var c := s.chain;
    && c != []
    && (forall p {:trigger p in c} :: p in t ==> (t[p].Leaf? <==> p in c))
    && (forall i :: 0 <= i < |c| ==> c[i] in t && t[c[i]].Leaf?)
    && (forall i {:trigger NextOk(t, c, i)} :: 0 <= i < |c| ==> NextOk(t, c, i))
    && (forall i, j {:trigger Before(s, c[i], c[j])} :: 0 <= i < j < |c| ==> Before(s, c[i], c[j]))
  }

  // ---------- the tree ----------

  ghost predicate TreeOk(t: Tree, root: Off, s: Shape, q: Pending) {
    && Mapped(t, s) && root in t && PendingOk(t, s, root, q)
    && (forall p {:trigger InnerOk(t, s, q, p)} :: p in t && t[p].Inner? ==> InnerOk(t, s, q, p))
    && (forall p {:trigger LeafOk(t, s, p)} :: p in t && t[p].Leaf? ==> LeafOk(t, s, p))
    && (forall p {:trigger LinkOk(t, s, root, q, p)} :: p in t ==> LinkOk(t, s, root, q, p))
    && ChainOk(t, s)
  }

  /** The pages above a given height: they get fewer as a split moves up. */
  ghost function PagesAbove(s: Shape, o: Off): set<Off> {
    set x | x in s.height && o in s.height && s.height[x] > s.height[o]
  }

  /** Page sizes: within the maximum, and at least half full but for the root. */
  ghost predicate Sized(t: Tree, root: Off) {
    && (forall p {:trigger Count(t[p])} :: p in t ==> 1 <= Count(t[p]) <= MaxCount(t[p]))
    && (forall p {:trigger MinCount(t[p])} :: p in t && p != root ==> Count(t[p]) >= MinCount(t[p]))
  }

  // ---------- contents ----------

  ghost predicate In(s: Shape, p: Off, k: int)
    requires p in s.lo && p in s.hi
  {
    AtLeast(s.lo[p], k) && Below(s.hi[p], k)
  }

  ghost predicate LiveAt(recs: seq<Record>, k: int) {
    exists i :: 0 <= i < |recs| && recs[i].key == k && !recs[i].dead
  }

  /** A leaf agrees with the map on its interval. */
  ghost predicate LeafHolds(t: Tree, s: Shape, m: map<int, string>, p: Off)
    requires Mapped(t, s) && p in t && t[p].Leaf?
  {
    && (forall i :: 0 <= i < |t[p].recs| && !t[p].recs[i].dead ==>
          t[p].recs[i].key in m && m[t[p].recs[i].key] == t[p].recs[i].value)
    && (forall k :: k in m && In(s, p, k) ==> LiveAt(t[p].recs, k))
  }

  ghost predicate Holds(t: Tree, s: Shape, m: map<int, string>)
    requires Mapped(t, s)
  {
    forall p {:trigger LeafHolds(t, s, m, p)} :: p in t && t[p].Leaf? ==> LeafHolds(t, s, m, p)
  }
}
