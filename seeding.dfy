/** Specification of the seeding loop of the round-robin component: which
    table entries are occupied, and the process list that results from
    pushing one node per occupied entry onto the head of a list. */
module Seeding {
  import opened Wrappers
  import opened KernelSched

  /** The process table as the component sees it: one entry per process
      slot, reduced to the app id of the process occupying it. */
  type Table = seq<Option<AppId>>

  /** Number of occupied entries, counted from the front; never more than
      the number of entries. */
  function CountOccupied(entries: Table): (r: nat)
    ensures r <= |entries|
    ensures r == 0 <==> forall i :: 0 <= i < |entries| ==> entries[i].None?
  {
    if entries == [] then 0
    else (if entries[0].Some? then 1 else 0) + CountOccupied(entries[1..])
  }

  /** The indices the seeding loop writes, in the order it writes them;
      each is the index of an occupied entry. */
  function OccupiedIndices(entries: Table): (r: seq<nat>)
    ensures forall k :: 0 <= k < |r| ==> r[k] < |entries| && entries[r[k]].Some?
  {
    if entries == [] then []
    else
      var n := |entries| - 1;
      OccupiedIndices(entries[..n]) + (if entries[n].Some? then [n] else [])
  }

  /** The list left by visiting `entries` in index order and pushing, onto
      the head of `list`, a node for every occupied entry. */
  function PushHeads(list: seq<ProcessNode>, entries: Table): (r: seq<ProcessNode>)
    ensures |list| <= |r| <= |list| + |entries|
  {
    if entries == [] then list
    else
      var n := |entries| - 1;
      var before := PushHeads(list, entries[..n]);
      match entries[n]
      case Some(id) => [ProcessNode(id)] + before
      case None => before
  }

  /** The loop writes the occupied slots in strictly increasing index order,
      so none is written twice. */
  lemma {:induction false} OccupiedIndicesIncreasing(entries: Table)
    ensures forall k, m :: 0 <= k < m < |OccupiedIndices(entries)| ==>
      OccupiedIndices(entries)[k] < OccupiedIndices(entries)[m]
  {
    if entries != [] {
      var n := |entries| - 1;
      OccupiedIndicesIncreasing(entries[..n]);
    }
  }

  /** Every occupied slot is written: an index is among the written ones if
      and only if its entry is occupied. */
  lemma {:induction false} OccupiedIndicesComplete(entries: Table, i: nat)
    requires i < |entries|
    ensures i in OccupiedIndices(entries) <==> entries[i].Some?
  {
    var n := |entries| - 1;
    if i < n {
      OccupiedIndicesComplete(entries[..n], i);
    }
  }

  /** Appending an entry adds one to the count exactly when it is occupied. */
  lemma {:induction false} CountOccupiedSnoc(entries: Table, e: Option<AppId>)
    ensures CountOccupied(entries + [e]) == CountOccupied(entries) + (if e.Some? then 1 else 0)
  {
    if entries != [] {
      assert (entries + [e])[1..] == entries[1..] + [e];
      CountOccupiedSnoc(entries[1..], e);
    } else {
      assert (entries + [e])[1..] == [];
    }
  }

  /** The loop writes as many slots as the table has occupied entries. */
  lemma {:induction false} OccupiedIndicesCount(entries: Table)
    ensures |OccupiedIndices(entries)| == CountOccupied(entries)
  {
    if entries != [] {
      var n := |entries| - 1;
      OccupiedIndicesCount(entries[..n]);
      CountOccupiedSnoc(entries[..n], entries[n]);
      assert entries[..n] + [entries[n]] == entries;
    }
  }

  /** The seeded list holds one node per occupied entry in front of the
      list that was there before, which is kept unchanged as its suffix. */
  lemma {:induction false} PushHeadsSuffix(list: seq<ProcessNode>, entries: Table)
    ensures |PushHeads(list, entries)| == |OccupiedIndices(entries)| + |list|
    ensures PushHeads(list, entries)[|OccupiedIndices(entries)|..] == list
  {
    if entries != [] {
      var n := |entries| - 1;
      PushHeadsSuffix(list, entries[..n]);
      var before, after := PushHeads(list, entries[..n]), PushHeads(list, entries);
      if entries[n].Some? {
        assert after[|OccupiedIndices(entries)|..] == before[|OccupiedIndices(entries[..n])|..];
      }
    }
  }

  /** Order of the seeded list: the node at position `k` is that of the
      `k`-th occupied entry counted from the END of the table, so nodes
      appear in decreasing index order and the last one pushed is the head. */
  lemma {:induction false} PushHeadsOrder(list: seq<ProcessNode>, entries: Table, k: nat)
    requires k < |OccupiedIndices(entries)|
    ensures |PushHeads(list, entries)| > k
    ensures PushHeads(list, entries)[k] ==
      ProcessNode(entries[OccupiedIndices(entries)[|OccupiedIndices(entries)| - 1 - k]].value)
  {
    assert entries != [];
    var n := |entries| - 1;
    var prefix := entries[..n];
    var idx, idx' := OccupiedIndices(prefix), OccupiedIndices(entries);
    var before, after := PushHeads(list, prefix), PushHeads(list, entries);
    if entries[n].Some? {
      assert idx' == idx + [n];
      assert after == [ProcessNode(entries[n].value)] + before;
      if k > 0 {
        PushHeadsOrder(list, prefix, k - 1);
        var j := idx[|idx| - 1 - (k - 1)];
        assert idx'[|idx'| - 1 - k] == j;
        assert entries[j] == prefix[j];
        assert after[k] == before[k - 1];
        assert after[k] == ProcessNode(entries[j].value);
      } else {
        assert idx'[|idx'| - 1] == n;
      }
    } else {
      assert idx' == idx;
      assert after == before;
      PushHeadsOrder(list, prefix, k);
      var j := idx[|idx| - 1 - k];
      assert entries[j] == prefix[j];
      assert idx'[|idx'| - 1 - k] == j;
      assert after[k] == ProcessNode(entries[j].value);
    }
  }

  /** Buffer slots and list agree: if every occupied entry's slot holds that
      entry's node, then the slot written `k`-th from last holds the node at
      position `k` of the seeded list. */
  lemma {:induction false} SeededSlots(entries: Table, slots: seq<Option<ProcessNode>>)
    requires |slots| == |entries|
    requires forall i :: 0 <= i < |entries| && entries[i].Some? ==>
      slots[i] == Some(ProcessNode(entries[i].value))
    ensures |PushHeads([], entries)| == |OccupiedIndices(entries)|
    ensures forall k :: 0 <= k < |OccupiedIndices(entries)| ==>
      slots[OccupiedIndices(entries)[|OccupiedIndices(entries)| - 1 - k]] ==
        Some(PushHeads([], entries)[k])
  {
    PushHeadsSuffix([], entries);
    forall k | 0 <= k < |OccupiedIndices(entries)|
      ensures slots[OccupiedIndices(entries)[|OccupiedIndices(entries)| - 1 - k]] ==
        Some(PushHeads([], entries)[k])
    {
      PushHeadsOrder([], entries, k);
    }
  }

  /** Pushing onto a non-empty list gives the list seeded from scratch
      followed by the old list. */
  lemma {:induction false} PushHeadsOnto(list: seq<ProcessNode>, entries: Table)
    ensures PushHeads(list, entries) == PushHeads([], entries) + list
  {
    PushHeadsSuffix(list, entries);
    PushHeadsSuffix([], entries);
    var a, b := PushHeads(list, entries), PushHeads([], entries) + list;
    var m := |OccupiedIndices(entries)|;
    forall k | 0 <= k < m ensures a[k] == b[k] {
      PushHeadsOrder(list, entries, k);
      PushHeadsOrder([], entries, k);
    }
    assert a[..m] == b[..m];
    assert a == a[..m] + a[m..];
    assert b == b[..m] + b[m..];
  }

  /** One node per occupied entry: the seeded list is exactly as long as the
      table has occupied entries, which is at most the table's length. */
  lemma {:induction false} SeededLength(entries: Table)
    ensures |PushHeads([], entries)| == CountOccupied(entries) <= |entries|
  {
    PushHeadsSuffix([], entries);
    OccupiedIndicesCount(entries);
  }

  /** Every node of the seeded list carries the app id of an occupied entry. */
  lemma {:induction false} SeededFromTable(entries: Table, k: nat)
    requires k < |PushHeads([], entries)|
    ensures exists i :: 0 <= i < |entries| && entries[i] == Some(PushHeads([], entries)[k].appid)
  {
    PushHeadsSuffix([], entries);
    PushHeadsOrder([], entries, k);
    var idx := OccupiedIndices(entries);
    var i := idx[|idx| - 1 - k];
    assert entries[i] == Some(PushHeads([], entries)[k].appid);
  }

  /** Every occupied entry's node is in the seeded list. */
  lemma {:induction false} TableInSeeded(entries: Table, i: nat)
    requires i < |entries| && entries[i].Some?
    ensures ProcessNode(entries[i].value) in PushHeads([], entries)
  {
    PushHeadsSuffix([], entries);
    OccupiedIndicesComplete(entries, i);
    var idx := OccupiedIndices(entries);
    var m :| 0 <= m < |idx| && idx[m] == i;
    PushHeadsOrder([], entries, |idx| - 1 - m);
    assert PushHeads([], entries)[|idx| - 1 - m] == ProcessNode(entries[i].value);
  }

  /** A process is in the seeded list if and only if some entry of the table
      holds its app id. */
  lemma {:induction false} SeededMembers(entries: Table, id: AppId)
    ensures ProcessNode(id) in PushHeads([], entries) <==>
      exists i :: 0 <= i < |entries| && entries[i] == Some(id)
  {
    var list := PushHeads([], entries);
    if ProcessNode(id) in list {
      var k :| 0 <= k < |list| && list[k] == ProcessNode(id);
      SeededFromTable(entries, k);
    }
    if i :| 0 <= i < |entries| && entries[i] == Some(id) {
      TableInSeeded(entries, i);
    }
  }

  /** The head of the seeded list is the node of the highest-indexed
      occupied entry. */
  lemma {:induction false} SeededHead(entries: Table, j: nat)
    requires j < |entries| && entries[j].Some?
    requires forall k :: j < k < |entries| ==> entries[k].None?
    ensures PushHeads([], entries) != []
    ensures PushHeads([], entries)[0] == ProcessNode(entries[j].value)
  {
    var idx := OccupiedIndices(entries);
    OccupiedIndicesComplete(entries, j);
    OccupiedIndicesIncreasing(entries);
    var last := |idx| - 1;
    assert idx[last] <= j;
    assert idx[last] == j;
    PushHeadsOrder([], entries, 0);
  }

  /** The table `[A, empty, B, C]` seeds the list `C, B, A`: head insertion
      reverses table order. */
  lemma SeededExample(a: AppId, b: AppId, c: AppId)
    ensures PushHeads([], [Some(a), None, Some(b), Some(c)]) ==
      [ProcessNode(c), ProcessNode(b), ProcessNode(a)]
  {
    var t := [Some(a), None, Some(b), Some(c)];
    assert t[..3] == [Some(a), None, Some(b)];
    assert t[..3][..2] == [Some(a), None];
    assert t[..3][..2][..1] == [Some(a)];
    assert t[..3][..2][..1][..0] == [];
    assert PushHeads([], [Some(a)]) == [ProcessNode(a)];
    assert PushHeads([], [Some(a), None]) == [ProcessNode(a)];
    assert PushHeads([], t[..3]) == [ProcessNode(b), ProcessNode(a)];
  }
}
