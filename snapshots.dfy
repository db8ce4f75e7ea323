/** Snapshot assembly: the columns one poll cycle collects for the bound variables, and the
    `{result, prev_result}` pairs the poll loops emit. */
module Snapshots {
  import opened Types
  import opened Provider
  import opened Cells

  /** `wmi_wrapper_result_map`: binding handle to the column of cells read this cycle. */
  type Columns = map<Uint64, seq<Cell>>

  /** `wmi_wrapper_result`: this cycle's columns and the previous cycle's. */
  datatype Snapshot = Snapshot(result: Columns, prevResult: Columns)

  /** The cells one property yields over the rows `objs`, in row order, one per row whose
      read succeeds; a failed read leaves no entry. */
  function Column(objs: seq<Obj>, p: PropertyHandle): (col: seq<Cell>)
    ensures |col| <= |objs|
    decreases |objs|
  {
    if objs == [] then []
    else
      Column(objs[..|objs| - 1], p) +
      match ReadCell(objs[|objs| - 1], p)
      case Some(c) => [c]
      case None => []
  }

  /** Extending the rows by one extends the column by that row's read, if it succeeds. */
  lemma ColumnOfPrefix(objs: seq<Obj>, i: nat, p: PropertyHandle)
    requires i < |objs|
    ensures Column(objs[..i + 1], p) ==
            if ReadCell(objs[i], p).Some? then Column(objs[..i], p) + [ReadCell(objs[i], p).value]
            else Column(objs[..i], p)
  {
    assert objs[..i + 1][..i] == objs[..i];
  }

  /** The positions of the rows whose read of `p` succeeds, ascending. */
  function ReadableRows(objs: seq<Obj>, p: PropertyHandle): (idx: seq<nat>)
    ensures forall k :: 0 <= k < |idx| ==> idx[k] < |objs| && ReadCell(objs[idx[k]], p).Some?
    ensures forall i :: 0 <= i < |objs| && ReadCell(objs[i], p).Some? ==> i in idx
    ensures forall j, k :: 0 <= j < k < |idx| ==> idx[j] < idx[k]
    decreases |objs|
  {
    if objs == [] then []
    else
      var front := ReadableRows(objs[..|objs| - 1], p);
      if ReadCell(objs[|objs| - 1], p).Some? then front + [|objs| - 1] else front
  }

  /** A column is exactly the successful reads, taken in row order: its k-th cell is the
      read of the k-th readable row. */
  lemma {:induction false} ColumnIsReadsInRowOrder(objs: seq<Obj>, p: PropertyHandle)
    ensures |Column(objs, p)| == |ReadableRows(objs, p)|
    ensures forall k :: 0 <= k < |ReadableRows(objs, p)| ==>
              ReadCell(objs[ReadableRows(objs, p)[k]], p) == Some(Column(objs, p)[k])
    decreases |objs|
  {
    if objs != [] {
      var front := objs[..|objs| - 1];
      ColumnIsReadsInRowOrder(front, p);
      var idx, col := ReadableRows(objs, p), Column(objs, p);
      var idx0, col0 := ReadableRows(front, p), Column(front, p);
      var last := ReadCell(objs[|objs| - 1], p);
      if last.Some? {
        assert idx == idx0 + [|objs| - 1] && col == col0 + [last.value];
      } else {
        assert idx == idx0 && col == col0;
      }
      forall k | 0 <= k < |idx0| ensures ReadCell(objs[idx[k]], p) == Some(col[k]) {
        assert idx[k] == idx0[k] && col[k] == col0[k] && objs[idx0[k]] == front[idx0[k]];
      }
    }
  }

  /** The columns of one cycle over the enumerated rows `objs` (row 0 first). A variable gets
      a key only when its property handle resolves on row 0 and at least one read succeeds:
      the source creates the key on its first `push_back`. */
  function CycleResults(vars: map<Uint64, string>, objs: seq<Obj>): (r: Columns)
    requires objs != []
    ensures r.Keys <= vars.Keys
  {
    map h | h in vars && NamedColumn(objs, vars[h]) != [] :: NamedColumn(objs, vars[h])
  }

  /** The column of the property called `name`, resolved on row 0; empty when it does not
      resolve there. */
  function NamedColumn(objs: seq<Obj>, name: string): (col: seq<Cell>)
    requires objs != []
    ensures name !in objs[0].props ==> col == []
  {
    if name in objs[0].props then Column(objs, objs[0].props[name]) else []
  }

  /** Adding one variable to those already assembled adds its column, when it has one,
      and changes nothing else: the loop over the bound variables builds `CycleResults`. */
  lemma CycleResultsExtend(vars: map<Uint64, string>, pending: set<Uint64>, h: Uint64, objs: seq<Obj>)
    requires objs != [] && h in pending && h in vars
    ensures var before := CycleResults(vars - pending, objs);
            var after := CycleResults(vars - (pending - {h}), objs);
            after == if NamedColumn(objs, vars[h]) == [] then before else before[h := NamedColumn(objs, vars[h])]
  {
    var smaller := vars - pending;
    assert vars - (pending - {h}) == smaller[h := vars[h]];
    CycleResultsInsert(smaller, h, vars[h], objs);
  }

  /** Binding one more variable adds its column, when it has one, and changes nothing else. */
  lemma CycleResultsInsert(vars: map<Uint64, string>, h: Uint64, name: string, objs: seq<Obj>)
    requires objs != [] && h !in vars
    ensures var before, after := CycleResults(vars, objs), CycleResults(vars[h := name], objs);
            after == if NamedColumn(objs, name) == [] then before else before[h := NamedColumn(objs, name)]
  {
    var before, after := CycleResults(vars, objs), CycleResults(vars[h := name], objs);
    var col := NamedColumn(objs, name);
    if col == [] {
      assert after.Keys == before.Keys;
    } else {
      assert after.Keys == before.Keys + {h};
    }
  }

  /** Which variables a cycle reports, in both directions, and what their columns hold. */
  lemma {:induction false} CycleResultsColumn(vars: map<Uint64, string>, objs: seq<Obj>, h: Uint64)
    requires objs != []
    ensures h in CycleResults(vars, objs) <==>
              h in vars && GetPropertyHandle(objs[0], vars[h]).Some? &&
              exists i :: 0 <= i < |objs| && ReadCell(objs[i], objs[0].props[vars[h]]).Some?
    ensures h in CycleResults(vars, objs) ==>
              var p := objs[0].props[vars[h]];
              var col := CycleResults(vars, objs)[h];
              1 <= |col| <= |objs| && |col| == |ReadableRows(objs, p)| &&
              forall k :: 0 <= k < |col| ==> col[k].tag == p.tag && |col[k].payload| == AnySize
  {
    if h in vars && vars[h] in objs[0].props {
      var p := objs[0].props[vars[h]];
      ReadableColumn(objs, p);
    }
  }

  /** A property's column is non-empty exactly when some row's read succeeds, and every
      cell carries the property's tag and a full reserved area. */
  lemma {:induction false} ReadableColumn(objs: seq<Obj>, p: PropertyHandle)
    ensures Column(objs, p) != [] <==> exists i :: 0 <= i < |objs| && ReadCell(objs[i], p).Some?
    ensures |Column(objs, p)| == |ReadableRows(objs, p)|
    ensures forall k :: 0 <= k < |Column(objs, p)| ==>
              Column(objs, p)[k].tag == p.tag && |Column(objs, p)[k].payload| == AnySize
  {
    ColumnIsReadsInRowOrder(objs, p);
    ColumnNonEmpty(objs, p);
    var idx := ReadableRows(objs, p);
    var col := Column(objs, p);
    forall k | 0 <= k < |col|
      ensures col[k].tag == p.tag && |col[k].payload| == AnySize
    {
      assert ReadCell(objs[idx[k]], p) == Some(col[k]);
    }
  }

  /** Given that the column has one cell per readable row, it is empty exactly when no row's
      read succeeds. */
  lemma ColumnNonEmpty(objs: seq<Obj>, p: PropertyHandle)
    requires |Column(objs, p)| == |ReadableRows(objs, p)|
    ensures Column(objs, p) != [] <==> exists i :: 0 <= i < |objs| && ReadCell(objs[i], p).Some?
  {
    var idx := ReadableRows(objs, p);
    if i :| 0 <= i < |objs| && ReadCell(objs[i], p).Some? {
      assert i in idx;
    }
    if idx != [] {
      assert ReadCell(objs[idx[0]], p).Some?;
    }
  }

  /** Snapshots form a chain: the first one's previous columns are `first`, and each later
      one's previous columns are the columns of the one before it. */
  ghost predicate Chained(first: Columns, snaps: seq<Snapshot>) {
    && (snaps != [] ==> snaps[0].prevResult == first)
    && forall k :: 0 < k < |snaps| ==> snaps[k].prevResult == snaps[k - 1].result
  }
}
