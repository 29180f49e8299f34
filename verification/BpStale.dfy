/** The insertion that the theorems about whole trees exclude: into a leaf that is full and holds deleted records.

    db_insert then purges the deleted records from the file first, but goes on with the copy of the leaf loaded
    before the purge, which still says that the leaf is full. The leaf is therefore split although it has room. What
    becomes of its records is modelled here exactly, and it is never what an insertion promises.
 */
module BpStale {
  import opened BpShape
  import opened BpInsert
  import opened BpDelete
  import opened BpTable

  const ZERO_RECORD := Record(0, false, "")

  // ---------- what the code computes ----------

  /** The index of the first record of that key. */
  function FirstOf(recs: seq<Record>, k: int): (i: nat)
    ensures i <= |recs| && (i < |recs| ==> recs[i].key == k)
    ensures forall j :: 0 <= j < i ==> recs[j].key != k
  {
    if recs == [] || recs[0].key == k then 0 else 1 + FirstOf(recs[1..], k)
  }

  /** cur is what a purge of the first i records makes of the leaf: too short to shrink further once a record has
      gone, and still with the key of every live record and every key that the loop has yet to ask for. */
  ghost predicate PurgedTo(copy: seq<Record>, i: nat, cur: seq<Record>)
    requires i <= |copy| == LEAF_MAX
  {
    && (if forall j :: 0 <= j < i ==> !copy[j].dead then cur == copy else |cur| == LEAF_MAX - 1)
    && forall j :: 0 <= j < LEAF_MAX && (i <= j || !copy[j].dead) ==> FirstOf(cur, copy[j].key) < |cur|
  }

  /** The first record of that key is deleted. (It is never missing: see PurgedNext.) */
  function DeletedFirst(cur: seq<Record>, k: int): seq<Record> {
    var f := FirstOf(cur, k);
    if f < |cur| then Deleted(cur, f) else cur
  }

  /** Of three records, with a deleted one at i, the first of its key goes: every other key stays, and so does this
      one if the record that went was live. */
  lemma {:induction false} KeysKept(cur: seq<Record>, i: nat, j: nat)
    requires i < |cur| == LEAF_MAX && cur[i].dead && j < LEAF_MAX && (i < j || !cur[j].dead)
    ensures FirstOf(DeletedFirst(cur, cur[i].key), cur[j].key) < LEAF_MAX - 1
  {
    var f := FirstOf(cur, cur[i].key);
    var d := DeletedFirst(cur, cur[i].key);
    assert d == cur[..f] + cur[f + 1..];
    var left := if j == f then i else j;
    hide DeletedFirst;
    assert d[if left < f then left else left - 1] == cur[left];
  }

  lemma {:induction false} MarkKeepsKeys(cur: seq<Record>, k: int, other: int)
    requires |cur| < LEAF_MAX && FirstOf(cur, other) < |cur|
    ensures FirstOf(DeletedFirst(cur, k), other) < |DeletedFirst(cur, k)| == |cur|
  {
    assert DeletedFirst(cur, k)[FirstOf(cur, other)].key == other;
  }

  lemma {:induction false} PurgeOne(copy: seq<Record>, i: nat, cur: seq<Record>)
    requires i < |copy| == LEAF_MAX && PurgedTo(copy, i, cur)
    ensures FirstOf(cur, copy[i].key) < |cur|
    ensures PurgedTo(copy, i + 1, if copy[i].dead then DeletedFirst(cur, copy[i].key) else cur)
  {
    if copy[i].dead {
      var d := DeletedFirst(cur, copy[i].key);
      assert |d| == LEAF_MAX - 1;
      hide DeletedFirst, FirstOf;
      forall j | 0 <= j < LEAF_MAX && (i < j || !copy[j].dead)
        ensures FirstOf(d, copy[j].key) < |d|
      {
        if |cur| == LEAF_MAX {
          KeysKept(copy, i, j);
        } else {
          MarkKeepsKeys(cur, copy[i].key, copy[j].key);
        }
      }
    }
  }

  /** The leaf in the file once the loop has looked at the first i records of the copy: the first record with the
      key of a deleted one goes, or is marked, whichever a deletion would do. */
  function Purged(copy: seq<Record>, i: nat): (cur: seq<Record>)
    requires i <= |copy|
  {
    if i == 0 then copy
    else
      var cur := Purged(copy, i - 1);
      if copy[i - 1].dead then DeletedFirst(cur, copy[i - 1].key) else cur
  }

  lemma {:induction false} PurgedNext(copy: seq<Record>, i: nat)
    requires i <= |copy| == LEAF_MAX
    ensures PurgedTo(copy, i, Purged(copy, i))
    ensures i < LEAF_MAX ==> FirstOf(Purged(copy, i), copy[i].key) < |Purged(copy, i)|
  {
    hide DeletedFirst, FirstOf, PurgedTo;
    if i == 0 {
      PurgedNone(copy);
    } else {
      PurgedNext(copy, i - 1);
      PurgeOne(copy, i - 1, Purged(copy, i - 1));
    }
    if i < LEAF_MAX {
      PurgeOne(copy, i, Purged(copy, i));
    }
  }

  lemma {:induction false} PurgedNone(copy: seq<Record>)
    requires |copy| == LEAF_MAX
    ensures PurgedTo(copy, 0, copy)
  {
  }

  lemma {:induction false} PurgedShort(copy: seq<Record>)
    requires |copy| == LEAF_MAX
    ensures LEAF_MAX - 1 <= |Purged(copy, LEAF_MAX)| <= LEAF_MAX
    ensures (forall j :: 0 <= j < LEAF_MAX ==> !copy[j].dead) ==> Purged(copy, LEAF_MAX) == copy
  {
    PurgedNext(copy, LEAF_MAX);
    hide Purged;
  }

  /** The record array of the leaf after the purge: a slot that is no longer in use still holds what it held. */
  function Slots(copy: seq<Record>): (s: seq<Record>)
    requires |copy| == LEAF_MAX
    ensures |s| == LEAF_MAX
  {
    PurgedShort(copy);
    var cur := Purged(copy, LEAF_MAX);
    cur + copy[|cur|..]
  }

  /** The records in use, copied into a zeroed array with a gap for inst. */
  function SpreadOut(cur: seq<Record>, at: nat, inst: Record): (s: seq<Record>)
    requires LEAF_MAX - 1 <= |cur| <= LEAF_MAX && at <= LEAF_MAX
    ensures |s| == LEAF_MAX + 1
  {
    if |cur| == LEAF_MAX then cur[..at] + [inst] + cur[at..]
    else if at < LEAF_MAX then cur[..at] + [inst] + cur[at..] + [ZERO_RECORD]
    else cur + [ZERO_RECORD, inst]
  }

  /** The array that is then shared out over two leaves: the insertion point was sought among all slots, but only the
      records in use have been copied. */
  function Temp(copy: seq<Record>, inst: Record): (s: seq<Record>)
    requires |copy| == LEAF_MAX
    ensures |s| == LEAF_MAX + 1
  {
    PurgedShort(copy);
    var cur := Purged(copy, LEAF_MAX);
    SpreadOut(cur, Position(Slots(copy), inst.key), inst)
  }

  // ---------- what the purge loses ----------

  /** The first record of a key, taken out or marked: order is kept, a live record of the key is gone, and the others stay. */
  lemma {:induction false} DeletedFirstMembers(cur: seq<Record>, k: int, r: Record)
    requires SortedRecs(cur) && !r.dead
    ensures SortedRecs(DeletedFirst(cur, k))
    ensures r in DeletedFirst(cur, k) <==> r in cur && r.key != k
  {
    var f, d := FirstOf(cur, k), DeletedFirst(cur, k);
    hide FirstOf;
    if f < |cur| {
      var marked := |cur| - 1 < Cut(LEAF_MAX);
      forall j | 0 <= j < |cur| && cur[j] == r && r.key != k
        ensures r in d
      {
        assert d[if marked || j < f then j else j - 1] == r;
      }
      forall j | 0 <= j < |d| && d[j] == r
        ensures r in cur && r.key != k
      {
        assert cur[if marked || j < f then j else j + 1] == r;
      }
    }
  }

  /** The purge takes live records too: a live record survives it if and only if no deleted record has its key. */
  lemma {:induction false} SurvivesPurgeIff(copy: seq<Record>, i: nat, r: Record)
    requires SortedRecs(copy) && i <= |copy| && r in copy && !r.dead
    ensures SortedRecs(Purged(copy, i))
    ensures r in Purged(copy, i) <==> forall j :: 0 <= j < i && copy[j].dead ==> copy[j].key != r.key
  {
    hide DeletedFirst;
    if i > 0 {
      SurvivesPurgeIff(copy, i - 1, r);
      DeletedFirstMembers(Purged(copy, i - 1), copy[i - 1].key, r);
    }
  }

  // ---------- what an insertion promises ----------

  ghost function LiveRecords(recs: seq<Record>): set<Record> {
    set r | r in recs && !r.dead
  }

  /** The records of a leaf, or of the two it was split into, after inserting inst: in order, and the live ones are
      the old ones and inst. */
  ghost predicate Promised(recs: seq<Record>, inst: Record, after: seq<Record>) {
    SortedRecs(after) && LiveRecords(after) == LiveRecords(recs) + {inst}
  }

  ghost predicate Insertable(recs: seq<Record>, inst: Record) {
    SortedRecs(recs) && !inst.dead && !LiveAt(recs, inst.key)
  }

  lemma {:induction false} CleanInsertPromised(recs: seq<Record>, inst: Record)
    requires Insertable(recs, inst)
    ensures Promised(recs, inst, InsertRec(recs, inst))
  {
    InsertRecSorted(recs, inst);
    InsertRecMembers(recs, inst);
    hide InsertRec;
  }

  /** The purge empties a slot, and a record that nobody inserted takes it, behind everything that was kept. */
  lemma {:induction false} ZeroIsLast(copy: seq<Record>, inst: Record) returns (z: nat)
    requires |copy| == LEAF_MAX && exists j :: 0 <= j < LEAF_MAX && copy[j].dead
    ensures var cur, temp := Purged(copy, LEAF_MAX), Temp(copy, inst);
            && PurgedTo(copy, LEAF_MAX, cur) && |cur| == LEAF_MAX - 1
            && z <= LEAF_MAX && temp[z] == ZERO_RECORD
            && cur[0] in temp[..z] && cur[1] in temp[..z] && (inst == ZERO_RECORD ==> inst in temp[..z])
  {
    var cur, temp := Purged(copy, LEAF_MAX), Temp(copy, inst);
    PurgedNext(copy, LEAF_MAX);
    var at := Position(Slots(copy), inst.key);
    hide Purged, Position;
    if at < LEAF_MAX || inst == ZERO_RECORD {
      z := LEAF_MAX;
      assert temp == if at < LEAF_MAX then cur[..at] + [inst] + cur[at..] + [ZERO_RECORD] else cur + [ZERO_RECORD, inst];
      var c0, c1, i := if at == 0 then 1 else 0, if at <= 1 then 2 else 1, if at <= 2 then at else 2;
      assert temp[..z][c0] == cur[0] && temp[..z][c1] == cur[1] && (temp[..z][i] == inst);
    } else {
      z := LEAF_MAX - 1;
      assert temp == cur + [ZERO_RECORD, inst];
      assert temp[..z] == cur;
    }
  }

  /** Exactly where the records go, when a slot has been emptied: the new record in front of the first that is left with no
      smaller key; behind both, and then behind the empty one too if even what the last slot still holds is smaller. */
  lemma {:induction false} TempIs(copy: seq<Record>, inst: Record)
    requires |copy| == LEAF_MAX && SortedRecs(copy) && exists j :: 0 <= j < LEAF_MAX && copy[j].dead
    ensures var cur, temp := Purged(copy, LEAF_MAX), Temp(copy, inst);
            && |cur| == LEAF_MAX - 1
            && temp == if inst.key <= cur[0].key then [inst, cur[0], cur[1], ZERO_RECORD]
                       else if inst.key <= cur[1].key then [cur[0], inst, cur[1], ZERO_RECORD]
                       else if inst.key <= copy[2].key then [cur[0], cur[1], inst, ZERO_RECORD]
                       else [cur[0], cur[1], ZERO_RECORD, inst]
  {
    var cur := Purged(copy, LEAF_MAX);
    PurgedNext(copy, LEAF_MAX);
    hide Purged, Position;
    var slots := Slots(copy);
    assert slots == [cur[0], cur[1], copy[2]];
    var at := if inst.key <= cur[0].key then 0 else if inst.key <= cur[1].key then 1 else if inst.key <= copy[2].key then 2 else 3;
    PositionUnique(slots, inst.key, at);
  }

  lemma {:induction false} ExtraRecord(recs: seq<Record>, inst: Record, after: seq<Record>, z: nat)
    requires z < |after| && after[z] == ZERO_RECORD
    requires ZERO_RECORD in recs || ZERO_RECORD == inst ==> exists x :: 0 <= x < z && after[x].key == 0
    ensures !Promised(recs, inst, after)
  {
    if LiveRecords(after) == LiveRecords(recs) + {inst} {
      assert ZERO_RECORD in LiveRecords(after);
      var x :| 0 <= x < z && after[x].key == 0;
      assert !(after[x].key == after[z].key ==> after[z].dead);
    }
  }

  lemma {:induction false} NotPromised(copy: seq<Record>, inst: Record)
    requires |copy| == LEAF_MAX && exists j :: 0 <= j < LEAF_MAX && copy[j].dead
    ensures !Promised(copy, inst, Temp(copy, inst))
  {
    var cur, temp := Purged(copy, LEAF_MAX), Temp(copy, inst);
    var z := ZeroIsLast(copy, inst);
    hide Temp, Slots, Position, Deleted, Purged;
    if ZERO_RECORD in copy {
      // a record with its key has stayed in the leaf
      var j :| 0 <= j < LEAF_MAX && copy[j] == ZERO_RECORD;
      var f := FirstOf(cur, copy[j].key);
      assert cur[f].key == 0 && cur[f] in temp[..z];
    }
    ExtraRecord(copy, inst, temp, z);
  }

  /** Splitting a full leaf does what an insertion promises if and only if no record in it is deleted: the guard of
      the purge never fires. */
  lemma {:induction false} SplitPromisedIff(copy: seq<Record>, inst: Record)
    requires Insertable(copy, inst) && |copy| == LEAF_MAX
    ensures Promised(copy, inst, Temp(copy, inst)) <==> forall j :: 0 <= j < LEAF_MAX ==> !copy[j].dead
  {
    if j :| 0 <= j < LEAF_MAX && copy[j].dead {
      NotPromised(copy, inst);
    } else {
      CleanInsertPromised(copy, inst);
      PurgedShort(copy);
      hide Promised, Insertable, Purged, PurgedTo, Position;
      assert Slots(copy) == copy && Temp(copy, inst) == InsertRec(copy, inst);
    }
  }

  // ---------- the loops ----------

  /** The purge: every deleted record of the copy is looked for, by key, in the leaf in the file. */
  method Purge(leafp: Page) returns (file: Page)
    requires PageOk(leafp) && leafp.isLeaf && leafp.n == LEAF_MAX
    ensures PageOk(file) && file == leafp.(n := file.n, records := file.records)
    ensures file.records[..file.n] == Purged(leafp.records[..LEAF_MAX], LEAF_MAX)
    ensures file.records[..LEAF_MAX] == Slots(leafp.records[..LEAF_MAX])
  {
    ghost var copy := leafp.records[..LEAF_MAX];
    file := leafp;
    assert Purged(copy, 0) == copy;
    PurgedShort(copy);
    hide PurgedTo, DeletedFirst, FirstOf;
    var i := 0;
    while i < leafp.n
      invariant 0 <= i <= LEAF_MAX && PageOk(file) && file == leafp.(n := file.n, records := file.records)
      invariant file.n <= LEAF_MAX && file.records[..file.n] == Purged(copy, i)
      invariant LEAF_MAX - 1 <= file.n && (file.n == LEAF_MAX ==> file == leafp)
      invariant file.records[file.n..] == leafp.records[file.n..]
    {
      PurgedNext(copy, i);
      if leafp.records[i].dead {
        file := RemoveEntry(file, leafp.records[i].key);
      }
      i := i + 1;
    }
    SlotsOf(file.records, leafp.records, file.n);
  }

  lemma {:induction false} SlotsOf(a: seq<Record>, b: seq<Record>, n: nat)
    requires |a| == |b| == RECORDS && n <= LEAF_MAX && a[n..] == b[n..]
    ensures a[..LEAF_MAX] == a[..n] + b[..LEAF_MAX][n..]
  {
    forall i | n <= i < LEAF_MAX
      ensures a[i] == b[i]
    {
      assert a[n..][i - n] == b[n..][i - n];
    }
  }

  /** remove_entry_from_page on a leaf that has the key, with its unbounded search. */
  method RemoveEntry(p: Page, key: int) returns (q: Page)
    requires PageOk(p) && p.isLeaf && p.n <= LEAF_MAX && FirstOf(p.records[..p.n], key) < p.n
    ensures PageOk(q) && q == p.(n := q.n, records := q.records)
    ensures q.n == if p.n < LEAF_MAX then p.n else LEAF_MAX - 1
    ensures q.records[..q.n] == DeletedFirst(p.records[..p.n], key)
    ensures q.records[q.n..] == p.records[q.n..]
  {
    var i := 0;
    while p.records[i].key != key
      invariant 0 <= i <= FirstOf(p.records[..p.n], key)
      invariant forall j :: 0 <= j < i ==> p.records[j].key != key
      decreases p.n - i
    {
      i := i + 1;
    }
    assert i == FirstOf(p.records[..p.n], key);
    if p.n - 1 < Cut(LEAF_MAX) {
      q := p.(records := p.records[i := p.records[i].(dead := true)]);
      return;
    }
    q := ShiftRecordOut(p, i);
  }

  /** insert_into_leaf_as up to the sharing out: the temporary array of the leaf found in the file. */
  method SpreadStale(ol: Page, inst: Record) returns (temp: seq<Record>)
    requires PageOk(ol) && ol.isLeaf && LEAF_MAX - 1 <= ol.n <= LEAF_MAX
    ensures temp == SpreadOut(ol.records[..ol.n], Position(ol.records[..LEAF_MAX], inst.key), inst)
  {
    temp := seq(LEAF_MAX + 1, _ => ZERO_RECORD);
    var insertionIndex := 0;
    while insertionIndex < LEAF_MAX && ol.records[insertionIndex].key < inst.key
      invariant 0 <= insertionIndex <= LEAF_MAX
      invariant forall j :: 0 <= j < insertionIndex ==> ol.records[j].key < inst.key
    {
      insertionIndex := insertionIndex + 1;
    }
    PositionUnique(ol.records[..LEAF_MAX], inst.key, insertionIndex);
    var i, j := 0, 0;
    while i < ol.n
      invariant 0 <= i <= ol.n && |temp| == LEAF_MAX + 1
      invariant j == if i <= insertionIndex then i else i + 1
      invariant forall k :: 0 <= k < i ==> temp[if k < insertionIndex then k else k + 1] == ol.records[k]
      invariant forall k :: i < k <= LEAF_MAX ==> temp[k] == ZERO_RECORD
      invariant i <= insertionIndex ==> temp[i] == ZERO_RECORD
    {
      if j == insertionIndex {
        j := j + 1;
      }
      temp := temp[j := ol.records[i]];
      i, j := i + 1, j + 1;
    }
    temp := temp[insertionIndex := inst];
    SpreadIs(temp, ol.records[..ol.n], insertionIndex, inst);
  }

  lemma {:induction false} SpreadIs(temp: seq<Record>, cur: seq<Record>, at: nat, inst: Record)
    requires LEAF_MAX - 1 <= |cur| <= LEAF_MAX && at <= LEAF_MAX && |temp| == LEAF_MAX + 1 && temp[at] == inst
    requires forall k :: 0 <= k < |cur| ==> temp[if k < at then k else k + 1] == cur[k]
    requires |cur| < LEAF_MAX ==> temp[if at < LEAF_MAX then LEAF_MAX else |cur|] == ZERO_RECORD
    ensures temp == SpreadOut(cur, at, inst)
  {
    assert forall k :: 0 <= k <= |cur| && at <= |cur| ==>
      temp[k] == if k < at then cur[k] else if k == at then inst else cur[k - 1];
  }

  /** db_insert on a full leaf, as far as the records go: the lower half stays in the leaf, the upper half moves. */
  method SplitFullLeaf(leafp: Page, inst: Record) returns (low: seq<Record>, high: seq<Record>)
    requires PageOk(leafp) && leafp.isLeaf && leafp.n == LEAF_MAX
    requires Insertable(leafp.records[..LEAF_MAX], inst)
    ensures low + high == Temp(leafp.records[..LEAF_MAX], inst) && |low| == Cut(LEAF_MAX)
    ensures Promised(leafp.records[..LEAF_MAX], inst, low + high) <==>
              forall i :: 0 <= i < LEAF_MAX ==> !leafp.records[i].dead
  {
    PurgedShort(leafp.records[..LEAF_MAX]);
    hide Purged, PurgedTo, Promised, Insertable, Position, Slots, SpreadOut;
    var file := Purge(leafp);
    var temp := SpreadStale(file, inst);
    low, high := temp[..Cut(LEAF_MAX)], temp[Cut(LEAF_MAX)..];
    SplitPromisedIff(leafp.records[..LEAF_MAX], inst);
    assert low + high == temp;
  }
}
