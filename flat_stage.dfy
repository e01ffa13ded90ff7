/**
 * The flat demo page: fetched records are kept as a pre-order sequence of
 * rows with levels, and each batch is spliced in under the rows it names as
 * parents.
 */
module FlatStage {
  import opened TreeTypes
  import opened Loading

  /** A record with the level it is shown at. */
  datatype Row = Row(rec: Record, level: nat)

  // ---------------------------------------------------------------------------
  // Specification
  // ---------------------------------------------------------------------------

  /** The highest index of a row with the id, or -1 when there is none. */
  function LastIndex(rows: seq<Row>, id: NodeId): (r: int)
    ensures -1 <= r < |rows|
    ensures r == -1 <==> forall j :: 0 <= j < |rows| ==> rows[j].rec.id != id
    ensures r >= 0 ==> rows[r].rec.id == id && forall j :: r < j < |rows| ==> rows[j].rec.id != id
    decreases |rows|
  {
    if rows == [] then -1
    else if rows[|rows| - 1].rec.id == id then |rows| - 1
    else LastIndex(rows[..|rows| - 1], id)
  }

  /** The first index from start on whose row is not deeper than level, or the length. */
  function SkipDeeper(rows: seq<Row>, start: nat, level: nat): (r: nat)
    requires start <= |rows|
    ensures start <= r <= |rows|
    ensures forall j :: start <= j < r ==> rows[j].level > level
    ensures r < |rows| ==> rows[r].level <= level
    decreases |rows| - start
  {
    if start == |rows| || rows[start].level <= level then start else SkipDeeper(rows, start + 1, level)
  }

  /** The level of the row a record will be placed under (0 when there is none). */
  function ParentLevel(rows: seq<Row>, v: Record): nat
    requires HasParent(v)
  {
    var index := LastIndex(rows, v.pid.value);
    if index == -1 then 0 else rows[index].level
  }

  /** Where a record is placed. */
  function Slot(rows: seq<Row>, v: Record): (r: nat)
    ensures r <= |rows|
  {
    if !HasParent(v) then |rows|
    else
      var index := LastIndex(rows, v.pid.value);
      SkipDeeper(rows, if index == -1 then |rows| else index + 1, ParentLevel(rows, v))
  }

  /** The level a record is placed at. */
  function Level(rows: seq<Row>, v: Record): nat
  {
    if !HasParent(v) then 0 else ParentLevel(rows, v) + 1
  }

  /** One record placed. */
  function InsertOne(rows: seq<Row>, v: Record): seq<Row>
  {
    var slot := Slot(rows, v);
    rows[..slot] + [Row(v, Level(rows, v))] + rows[slot..]
  }

  /** A batch placed record by record, each search seeing the records placed before it. */
  function InsertAll(rows: seq<Row>, data: seq<Record>): seq<Row>
    decreases |data|
  {
    if data == [] then rows else InsertOne(InsertAll(rows, data[..|data| - 1]), data[|data| - 1])
  }

  // ---------------------------------------------------------------------------
  // The code
  // ---------------------------------------------------------------------------

  /** Search from the end for a row with the id. */
  method LastIndexOf(arr: seq<Row>, id: NodeId) returns (index: int)
    ensures index == LastIndex(arr, id)
  {
    index := -1;
    var i := |arr| - 1;
    while i >= 0
      invariant -1 <= i < |arr|
      invariant index == -1
      invariant forall j :: i < j < |arr| ==> arr[j].rec.id != id
      decreases i + 1
    {
      if id == arr[i].rec.id {
        index := i;
        break;
      }
      i := i - 1;
    }
    LastIndexUnique(arr, id, index);
  }

  /** The characterisation of LastIndex fixes it. */
  lemma {:induction false} LastIndexUnique(rows: seq<Row>, id: NodeId, r: int)
    requires -1 <= r < |rows|
    requires r == -1 ==> forall j :: 0 <= j < |rows| ==> rows[j].rec.id != id
    requires r >= 0 ==> rows[r].rec.id == id && forall j :: r < j < |rows| ==> rows[j].rec.id != id
    ensures r == LastIndex(rows, id)
  {
    var l := LastIndex(rows, id);
    if r >= 0 {
      assert l >= 0 && rows[l].rec.id == id;
    }
  }

  /** Place one record: search for its parent, skip the parent's descendants, splice it in. */
  method Place(res: seq<Row>, v: Record) returns (r: seq<Row>)
    ensures r == InsertOne(res, v)
  {
    var child := Row(v, 0);
    if HasParent(v) {
      var index := LastIndexOf(res, v.pid.value);
      var level := if index == -1 then 0 else res[index].level;
      index := if index == -1 then |res| else index + 1;
      ghost var start := index;
      while index < |res|
        invariant start <= index <= |res|
        invariant forall j :: start <= j < index ==> res[j].level > level
        decreases |res| - index
      {
        if res[index].level <= level {
          break;
        }
        index := index + 1;
      }
      SkipDeeperUnique(res, start, level, index);
      child := child.(level := level + 1);
      r := res[..index] + [child] + res[index..];
    } else {
      r := res + [child];
      assert res[..|res|] == res && res[|res|..] == [];
    }
  }

  /** Merge a fetched batch into a copy of the rows. */
  method Insert(arr: seq<Row>, data: seq<Record>) returns (res: seq<Row>)
    ensures res == InsertAll(arr, data)
  {
    res := arr;
    for k := 0 to |data|
      invariant res == InsertAll(arr, data[..k])
    {
      assert data[..k + 1][..k] == data[..k] && data[..k + 1][k] == data[k];
      res := Place(res, data[k]);
    }
    assert data[..|data|] == data;
  }

  /** The characterisation of SkipDeeper fixes it. */
  lemma {:induction false} SkipDeeperUnique(rows: seq<Row>, start: nat, level: nat, r: nat)
    requires start <= r <= |rows|
    requires forall j :: start <= j < r ==> rows[j].level > level
    requires r < |rows| ==> rows[r].level <= level
    ensures r == SkipDeeper(rows, start, level)
    decreases r - start
  {
    if start < r {
      assert rows[start].level > level;
      SkipDeeperUnique(rows, start + 1, level, r);
    }
  }

  /** The rows after placing v: those before the slot, the new row, then the rest. */
  lemma {:induction false} InsertOneAt(rows: seq<Row>, v: Record)
    ensures var slot := Slot(rows, v); var big := InsertOne(rows, v);
      |big| == |rows| + 1 &&
      (forall i :: 0 <= i < slot ==> big[i] == rows[i]) &&
      big[slot] == Row(v, Level(rows, v)) &&
      (forall i :: slot < i < |big| ==> big[i] == rows[i - 1])
  {
    var slot := Slot(rows, v);
    var big := InsertOne(rows, v);
    forall i | 0 <= i < slot ensures big[i] == rows[i] {
      assert big[i] == rows[..slot][i];
    }
    forall i | slot < i < |big| ensures big[i] == rows[i - 1] {
      assert big[i] == rows[slot..][i - 1 - slot];
    }
  }

  // ---------------------------------------------------------------------------
  // Properties
  // ---------------------------------------------------------------------------

  /** Each batch record adds exactly one row. */
  lemma {:induction false} InsertAllLength(rows: seq<Row>, data: seq<Record>)
    ensures |InsertAll(rows, data)| == |rows| + |data|
    decreases |data|
  {
    if data != [] {
      InsertAllLength(rows, data[..|data| - 1]);
    }
  }

  /** f places the rows of small, in order, among the rows of big. */
  ghost predicate Embedding(f: seq<nat>, small: seq<Row>, big: seq<Row>)
  {
    |f| == |small| &&
    (forall i :: 0 <= i < |f| ==> f[i] < |big| && big[f[i]] == small[i]) &&
    (forall i, j :: 0 <= i < j < |f| ==> f[i] < f[j])
  }

  /** Placing one record keeps every existing row, with its level, in its relative order. */
  lemma {:induction false} InsertOneKeeps(rows: seq<Row>, v: Record) returns (f: seq<nat>)
    ensures Embedding(f, rows, InsertOne(rows, v))
  {
    var slot := Slot(rows, v);
    var big := InsertOne(rows, v);
    f := seq(|rows|, i requires 0 <= i < |rows| => if i < slot then i else i + 1);
    forall i | 0 <= i < |f| ensures f[i] < |big| && big[f[i]] == rows[i] {
      if i < slot {
        assert big[i] == rows[..slot][i];
      } else {
        assert big[i + 1] == rows[slot..][i - slot];
      }
    }
  }

  /** Embeddings compose. */
  lemma {:induction false} EmbeddingCompose(f: seq<nat>, g: seq<nat>, a: seq<Row>, b: seq<Row>, c: seq<Row>) returns (h: seq<nat>)
    requires Embedding(f, a, b) && Embedding(g, b, c)
    ensures Embedding(h, a, c)
  {
    h := seq(|f|, i requires 0 <= i < |f| => g[f[i]]);
  }

  /** A batch keeps every existing row, with its level, in its relative order. */
  lemma {:induction false} InsertAllKeeps(rows: seq<Row>, data: seq<Record>) returns (f: seq<nat>)
    ensures Embedding(f, rows, InsertAll(rows, data))
    decreases |data|
  {
    if data == [] {
      f := seq(|rows|, i requires 0 <= i < |rows| => i);
    } else {
      var mid := InsertAll(rows, data[..|data| - 1]);
      var f1 := InsertAllKeeps(rows, data[..|data| - 1]);
      var f2 := InsertOneKeeps(mid, data[|data| - 1]);
      f := EmbeddingCompose(f1, f2, rows, mid, InsertAll(rows, data));
    }
  }

  /**
   * A record whose parent row is present goes right after the parent's
   * current descendants (the rows after it that are deeper), one level
   * below the parent.
   */
  lemma {:induction false} PlacedUnderParent(rows: seq<Row>, v: Record)
    requires HasParent(v) && LastIndex(rows, v.pid.value) != -1
    ensures var p := LastIndex(rows, v.pid.value); var slot := Slot(rows, v);
      p < slot &&
      InsertOne(rows, v)[slot] == Row(v, rows[p].level + 1) &&
      (forall j :: p < j < slot ==> rows[j].level > rows[p].level) &&
      (slot < |rows| ==> rows[slot].level <= rows[p].level)
  {
    var slot := Slot(rows, v);
    assert InsertOne(rows, v)[slot] == ([Row(v, Level(rows, v))] + rows[slot..])[0];
  }

  /** A record without a parent id goes at the end, at level 0. */
  lemma {:induction false} PlacedAsRoot(rows: seq<Row>, v: Record)
    requires !HasParent(v)
    ensures InsertOne(rows, v) == rows + [Row(v, 0)]
  {
    assert rows[..|rows|] == rows && rows[|rows|..] == [];
  }

  /** A record whose parent is not among the rows goes at the end, at level 1. */
  lemma {:induction false} PlacedAsOrphan(rows: seq<Row>, v: Record)
    requires HasParent(v) && forall j :: 0 <= j < |rows| ==> rows[j].rec.id != v.pid.value
    ensures InsertOne(rows, v) == rows + [Row(v, 1)]
  {
    assert rows[..|rows|] == rows && rows[|rows|..] == [];
  }

  /** No row is more than one level deeper than the row before it. */
  ghost predicate Stepped(rows: seq<Row>)
  {
    forall i :: 0 < i < |rows| ==> rows[i].level <= rows[i - 1].level + 1
  }

  /** Placing a record keeps the rows stepped. */
  lemma {:induction false} InsertOneStepped(rows: seq<Row>, v: Record)
    requires Stepped(rows)
    ensures Stepped(InsertOne(rows, v))
  {
    var slot := Slot(rows, v);
    var big := InsertOne(rows, v);
    InsertOneAt(rows, v);
    forall i | 0 < i < |big| ensures big[i].level <= big[i - 1].level + 1 {
      if i > slot + 1 {
        assert big[i] == rows[i - 1] && big[i - 1] == rows[i - 2];
      } else if i == slot + 1 {
        assert big[i] == rows[slot];
      } else if i < slot {
        assert big[i] == rows[i] && big[i - 1] == rows[i - 1];
      } else if HasParent(v) && LastIndex(rows, v.pid.value) != -1 {
        PlacedUnderParent(rows, v);
        var p := LastIndex(rows, v.pid.value);
        assert p <= slot - 1;
        if p < slot - 1 {
          assert rows[slot - 1].level > rows[p].level;
        }
      }
    }
  }

  /** A batch keeps the rows stepped. */
  lemma {:induction false} InsertAllStepped(rows: seq<Row>, data: seq<Record>)
    requires Stepped(rows)
    ensures Stepped(InsertAll(rows, data))
    decreases |data|
  {
    if data != [] {
      InsertAllStepped(rows, data[..|data| - 1]);
      InsertOneStepped(InsertAll(rows, data[..|data| - 1]), data[|data| - 1]);
    }
  }

  /**
   * Two records of one batch with the same present parent end up next to
   * each other in batch order: the second search sees the first record.
   */
  lemma {:induction false} SiblingsInBatchOrder(rows: seq<Row>, v1: Record, v2: Record)
    requires HasParent(v1) && v2.pid == v1.pid && LastIndex(rows, v1.pid.value) != -1
    requires v1.id != v1.pid.value
    ensures Slot(InsertOne(rows, v1), v2) == Slot(rows, v1) + 1
    ensures Level(InsertOne(rows, v1), v2) == Level(rows, v1)
  {
    var pid := v1.pid.value;
    var p := LastIndex(rows, pid);
    var slot := Slot(rows, v1);
    var big := InsertOne(rows, v1);
    PlacedUnderParent(rows, v1);
    InsertOneAt(rows, v1);
    var lvl := rows[p].level;
    forall j | p < j < |big| ensures big[j].rec.id != pid {
      if j > slot {
        assert big[j] == rows[j - 1];
      } else if j < slot {
        assert big[j] == rows[j];
      }
    }
    assert big[p] == rows[p];
    LastIndexUnique(big, pid, p);
    forall j | p + 1 <= j < slot + 1 ensures big[j].level > lvl {
      if j < slot {
        assert big[j] == rows[j];
      }
    }
    if slot + 1 < |big| {
      assert big[slot + 1] == rows[slot];
    }
    SkipDeeperUnique(big, p + 1, lvl, slot + 1);
  }

  /**
   * A record whose parent was placed earlier in the same batch, under a
   * fresh id, lands right after that parent, one level deeper.
   */
  lemma {:induction false} ChildAfterBatchParent(rows: seq<Row>, parent: Record, v: Record)
    requires HasParent(v) && v.pid.value == parent.id
    requires forall j :: 0 <= j < |rows| ==> rows[j].rec.id != parent.id
    ensures Slot(InsertOne(rows, parent), v) == Slot(rows, parent) + 1
    ensures Level(InsertOne(rows, parent), v) == Level(rows, parent) + 1
  {
    var slot := Slot(rows, parent);
    var big := InsertOne(rows, parent);
    var lvl := Level(rows, parent);
    InsertOneAt(rows, parent);
    forall j | slot < j < |big| ensures big[j].rec.id != parent.id {
      assert big[j] == rows[j - 1];
    }
    LastIndexUnique(big, parent.id, slot);
    if slot + 1 < |big| {
      assert big[slot + 1] == rows[slot];
    }
    SkipDeeperUnique(big, slot + 1, lvl, slot + 1);
  }
}
