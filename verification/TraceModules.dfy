// References to trace columns, and the modules which hold those columns.
module ColumnRefs {
  import opened Congruence

  /** A column of a module. */
  datatype ColumnRef = ColumnRef(mid: nat, rid: nat)

  /** A unique number for a column, given the number of modules. */
  function Index(r: ColumnRef, width: nat): nat {
    r.mid + width * r.rid
  }

  function NewIndexedColumnRef(index: nat, width: nat): ColumnRef
    requires width > 0
  {
    ColumnRef(index % width, index / width)
  }

  /** The column is recovered from its number, so no two columns share one. */
  lemma IndexRoundTrip(r: ColumnRef, width: nat)
    requires r.mid < width
    ensures NewIndexedColumnRef(Index(r, width), width) == r
  {
    assert Index(r, width) == r.rid * width + r.mid;
    RemainderUnique(width, Index(r, width), r.rid, r.mid);
  }

  lemma IndexInjective(r: ColumnRef, s: ColumnRef, width: nat)
    requires r.mid < width && s.mid < width && Index(r, width) == Index(s, width)
    ensures r == s
  {
    IndexRoundTrip(r, width);
    IndexRoundTrip(s, width);
  }

  /** Without bounding the module, two columns can well share a number. */
  lemma IndexCollides(width: nat)
    requires width > 0
    ensures Index(ColumnRef(width, 0), width) == Index(ColumnRef(0, 1), width)
  {
    assert width * 1 == width;
  }
}

module TraceModules {
  import opened Options
  import opened ColumnRefs

  type Column = seq<nat>

  /** A module with one (possibly still missing) column for each of its registers. */
  datatype TraceModule = TraceModule(height: nat, columns: seq<Option<Column>>)

  /** All columns present have the height of their module. */
  ghost predicate Even(m: TraceModule) {
    forall c :: c in m.columns && c.Some? ==> |c.value| == m.height
  }

  predicate Untouched(m: TraceModule) {
    forall c :: c in m.columns ==> c.None?
  }

  /** Construct a module from its columns, unless their heights (or number) do not match. */
  method NewModule(width: nat, data: seq<Option<Column>>) returns (r: Option<TraceModule>)
    ensures r.Some? <==>
              |data| == width && forall c, d :: c in data && d in data && c.Some? && d.Some? ==> |c.value| == |d.value|
    ensures r.Some? ==> r.value.columns == data && Even(r.value) && (Untouched(r.value) ==> r.value.height == 0)
  {
    if |data| != width {
      return None;
    }
    var height := 0;
    for i := 0 to |data|
      invariant forall k :: 0 <= k < i && data[k].Some? ==> |data[k].value| <= height
      invariant height == 0 || exists k :: 0 <= k < i && data[k].Some? && |data[k].value| == height
    {
      if data[i].Some? && |data[i].value| > height {
        height := |data[i].value|;
      }
    }
    for i := 0 to |data|
      invariant forall k :: 0 <= k < i && data[k].Some? ==> |data[k].value| == height
    {
      if data[i].Some? && |data[i].value| != height {
        assert data[i] in data;
        var k :| 0 <= k < |data| && data[k].Some? && |data[k].value| == height;
        assert data[k] in data;
        return None;
      }
    }
    if height > 0 {
      var k :| 0 <= k < |data| && data[k].Some?;
      assert data[k] in data;
    }
    return Some(TraceModule(height, data));
  }

  /** Fill a missing column, unless there is one already or its height does not match that of the module. */
  function Expand(m: TraceModule, col: nat, data: Column): Option<TraceModule> {
    if col >= |m.columns| || m.columns[col].Some? then None
    else if Untouched(m) then Some(TraceModule(|data|, m.columns[col := Some(data)]))
    else if |data| != m.height then None
    else Some(TraceModule(m.height, m.columns[col := Some(data)]))
  }

  /** Expansion keeps all columns of a module equally high. */
  lemma ExpandEven(m: TraceModule, col: nat, data: Column)
    requires Even(m) && Expand(m, col, data).Some?
    ensures Even(Expand(m, col, data).value) && !Untouched(Expand(m, col, data).value)
  {
    var n := Expand(m, col, data).value;
    assert n.columns[col] == Some(data) && n.columns[col] in n.columns;
    forall c | c in n.columns && c.Some? ensures |c.value| == n.height {
      assert c == Some(data) || c in m.columns;
    }
  }

  // ---------------------------------------------------------------------------
  // Traces
  // ---------------------------------------------------------------------------

  type Trace = seq<TraceModule>

  /** The contents of a column, if it is there. */
  function ColumnAt(tr: Trace, r: ColumnRef): Option<Column> {
    if r.mid < |tr| && r.rid < |tr[r.mid].columns| then tr[r.mid].columns[r.rid] else None
  }

  /** Fill the columns with the computed ones, or nothing where that is impossible. */
  function Fill(tr: Trace, refs: seq<ColumnRef>, cols: seq<Column>): Option<Trace>
    decreases |refs|
  {
    if refs == [] then Some(tr)
    else if cols == [] || refs[0].mid >= |tr| then None
    else
      match Expand(tr[refs[0].mid], refs[0].rid, cols[0])
      case None => None
      case Some(m) => Fill(tr[refs[0].mid := m], refs[1..], cols[1..])
  }

  method FillComputedColumns(tr: Trace, refs: seq<ColumnRef>, cols: seq<Column>) returns (r: Option<Trace>)
    ensures r == Fill(tr, refs, cols)
  {
    var modules := tr;
    for i := 0 to |refs|
      invariant i <= |cols|
      invariant Fill(modules, refs[i..], cols[i..]) == Fill(tr, refs, cols)
    {
      assert refs[i..][1..] == refs[i + 1..];
      if i >= |cols| || refs[i].mid >= |modules| {
        return None;
      }
      assert cols[i..][1..] == cols[i + 1..];
      var mid := refs[i].mid;
      var m := Expand(modules[mid], refs[i].rid, cols[i]);
      if m.None? {
        return None;
      }
      modules := modules[mid := m.value];
    }
    return Some(modules);
  }

  /** Traces with the same modules, all of them with equally high columns. */
  ghost predicate SameShape(tr: Trace, was: Trace) {
    && |tr| == |was|
    && forall i :: 0 <= i < |tr| ==>
         && Even(tr[i]) && |tr[i].columns| == |was[i].columns|
         && (Untouched(tr[i]) ==> tr[i].height == was[i].height)
         && (!Untouched(was[i]) ==> !Untouched(tr[i]))
  }

  /** Filling columns affects those columns, and nothing else. */
  lemma {:induction false} FillSound(tr: Trace, refs: seq<ColumnRef>, cols: seq<Column>, was: Trace)
    requires SameShape(tr, was) && Fill(tr, refs, cols).Some?
    requires forall i, j :: 0 <= i < j < |refs| ==> refs[i] != refs[j]
    ensures var next := Fill(tr, refs, cols).value;
      && SameShape(next, was) && |cols| >= |refs|
      && (forall i :: 0 <= i < |refs| ==> ColumnAt(tr, refs[i]) == None && ColumnAt(next, refs[i]) == Some(cols[i]))
      && (forall r :: r !in refs ==> ColumnAt(next, r) == ColumnAt(tr, r))
    decreases |refs|
  {
    if refs != [] {
      var r0 := refs[0];
      var m := Expand(tr[r0.mid], r0.rid, cols[0]).value;
      var mid := tr[r0.mid := m];
      var next := Fill(tr, refs, cols).value;
      ExpandEven(tr[r0.mid], r0.rid, cols[0]);
      FillSound(mid, refs[1..], cols[1..], was);
      assert forall r :: r != r0 ==> ColumnAt(mid, r) == ColumnAt(tr, r);
      assert ColumnAt(mid, r0) == Some(cols[0]);
      assert r0 !in refs[1..];
      forall i | 0 <= i < |refs| ensures ColumnAt(tr, refs[i]) == None && ColumnAt(next, refs[i]) == Some(cols[i]) {
        if i > 0 {
          assert refs[i] == refs[1..][i - 1];
        }
      }
    }
  }

  /** Whether filling succeeds, given a trace which agrees on all columns and has those to be filled. */
  lemma {:induction false} FillSucceeds(tr: Trace, refs: seq<ColumnRef>, cols: seq<Column>, was: Trace, target: Trace)
    requires SameShape(tr, was) && SameShape(target, was) && |cols| >= |refs|
    requires forall i, j :: 0 <= i < j < |refs| ==> refs[i] != refs[j]
    requires forall i :: 0 <= i < |refs| ==> ColumnAt(tr, refs[i]) == None && ColumnAt(target, refs[i]) == Some(cols[i])
    requires forall r :: ColumnAt(tr, r).Some? ==> ColumnAt(target, r) == ColumnAt(tr, r)
    ensures Fill(tr, refs, cols).Some?
    decreases |refs|
  {
    if refs != [] {
      var r0 := refs[0];
      ExpandSucceeds(tr, r0, cols[0], was, target);
      var m := Expand(tr[r0.mid], r0.rid, cols[0]).value;
      var mid := tr[r0.mid := m];
      ExpandEven(tr[r0.mid], r0.rid, cols[0]);
      assert forall r :: r != r0 ==> ColumnAt(mid, r) == ColumnAt(tr, r);
      assert ColumnAt(mid, r0) == Some(cols[0]);
      forall i | 0 <= i < |refs[1..]|
        ensures ColumnAt(mid, refs[1..][i]) == None && ColumnAt(target, refs[1..][i]) == Some(cols[1..][i])
      {
        assert refs[1..][i] == refs[i + 1] && refs[i + 1] != r0;
      }
      FillSucceeds(mid, refs[1..], cols[1..], was, target);
    }
  }

  lemma ExpandSucceeds(tr: Trace, r: ColumnRef, data: Column, was: Trace, target: Trace)
    requires SameShape(tr, was) && SameShape(target, was)
    requires ColumnAt(tr, r) == None && ColumnAt(target, r) == Some(data)
    requires forall s :: ColumnAt(tr, s).Some? ==> ColumnAt(target, s) == ColumnAt(tr, s)
    ensures r.mid < |tr| && Expand(tr[r.mid], r.rid, data).Some?
  {
    var m, t := tr[r.mid], target[r.mid];
    assert t.columns[r.rid] in t.columns;
    if !Untouched(m) {
      var c :| c in m.columns && c.Some?;
      var i :| 0 <= i < |m.columns| && m.columns[i] == c;
      assert ColumnAt(tr, ColumnRef(r.mid, i)) == c;
      assert t.columns[i] in t.columns;
    }
  }

  /** Traces of the same shape with the same columns are the same. */
  lemma SameColumns(tr: Trace, other: Trace, was: Trace)
    requires SameShape(tr, was) && SameShape(other, was)
    requires forall r :: ColumnAt(tr, r) == ColumnAt(other, r)
    ensures tr == other
  {
    forall i | 0 <= i < |tr| ensures tr[i] == other[i] {
      forall j | 0 <= j < |tr[i].columns| ensures tr[i].columns[j] == other[i].columns[j] {
        assert ColumnAt(tr, ColumnRef(i, j)) == ColumnAt(other, ColumnRef(i, j));
      }
      assert tr[i].columns == other[i].columns;
      if !Untouched(tr[i]) {
        var c :| c in tr[i].columns && c.Some?;
        assert |c.value| == tr[i].height && |c.value| == other[i].height;
      }
    }
  }
}
