/** The table body of src/App.js lines 76-118: the entries of the store,
    filtered by the threshold, sorted by the 1m relative volume and turned
    into one row per symbol (the `toFixed(2)` rendering left aside). */
module Projection {
  import opened JsValues
  import opened VolumeStore
  import opened Filtering
  import opened Sorting

  /** A (Volume, Relative Volume) pair of the table; `None` is shown as 'N/A'. */
  datatype Cell = Cell(volume: Option<JsValue>, relative: Option<real>)

  /** A table row: the symbol, then one cell per shown timeframe in column order. */
  datatype Row = Row(symbol: string, cells: seq<Cell>)

  /** `timeframes[tf]?.latestVolume ?? 'N/A'` and
      `typeof timeframes[tf]?.relativeVolume === 'number' ? ... : 'N/A'`. */
  function CellOf(tfs: Timeframes, tf: string): (c: Cell)
    ensures c.volume.None? <==> tf !in tfs || Nullish(tfs[tf].latestVolume)
    ensures c.volume.Some? ==> c.volume.value == tfs[tf].latestVolume
    ensures c.relative.Some? <==> tf in tfs && tfs[tf].relativeVolume.Num?
    ensures c.relative.Some? ==> c.relative.value == tfs[tf].relativeVolume.n
  {
    var volume := if tf in tfs && !Nullish(tfs[tf].latestVolume) then Some(tfs[tf].latestVolume) else None;
    var relative :=
      if tf in tfs && IsNumber(tfs[tf].relativeVolume) then
        match tfs[tf].relativeVolume
        case Num(n) => Some(n)
        case _ => None
      else None;
    Cell(volume, relative)
  }

  /** The `<tr>` of one entry. */
  function RowOf(e: Entry): Row
  {
    Row(e.0, [CellOf(e.1, "1m"), CellOf(e.1, "5m"), CellOf(e.1, "15m"), CellOf(e.1, "1hr")])
  }

  /** The `.map` to rows; the ensures only unfold the comprehension. */
  function Rows(es: seq<Entry>): (rows: seq<Row>)
    ensures |rows| == |es|
    ensures forall i :: 0 <= i < |es| ==> rows[i] == RowOf(es[i])
  {
    seq(|es|, i requires 0 <= i < |es| => RowOf(es[i]))
  }

  /** The sorted entries the rows are made from. */
  function Ordered(st: Snapshot, threshold: real): seq<Entry>
    requires forall s :: s in st.order ==> s in st.data
  {
    SortByRelVol(Kept(Entries(st), threshold))
  }

  /** `Object.entries(volumeData).filter(...).sort(...).map(...)`. */
  function Project(st: Snapshot, threshold: real): seq<Row>
    requires forall s :: s in st.order ==> s in st.data
  {
    Rows(Ordered(st, threshold))
  }

  /** The Symbol column; the ensures only unfold the comprehension. */
  function Symbols(rows: seq<Row>): (r: seq<string>)
    ensures |r| == |rows|
    ensures forall i :: 0 <= i < |rows| ==> r[i] == rows[i].symbol
  {
    seq(|rows|, i requires 0 <= i < |rows| => rows[i].symbol)
  }

  /** The `Entry` of a stored symbol. */
  ghost predicate IsEntryOf(st: Snapshot, e: Entry)
  {
    e.0 in st.data && e.1 == st.data[e.0]
  }

  /** Every sorted entry is a stored symbol with its own timeframes, and it
      passed the filter. */
  lemma OrderedEntry(st: Snapshot, threshold: real, i: nat)
    requires WellFormed(st)
    requires i < |Ordered(st, threshold)|
    ensures IsEntryOf(st, Ordered(st, threshold)[i])
    ensures Qualifies(Ordered(st, threshold)[i].1, threshold)
  {
    var es := Entries(st);
    var kept := Kept(es, threshold);
    var e := Ordered(st, threshold)[i];
    assert e in multiset(Ordered(st, threshold));
    assert e in kept;
    var j :| 0 <= j < |es| && es[j] == e;
  }

  /** A position of the first-insertion order, read back from a kept entry. */
  lemma KeptEntryPositions(st: Snapshot, threshold: real, p: nat, q: nat)
    requires WellFormed(st)
    requires p < q < |Kept(Entries(st), threshold)|
    ensures exists p', q' :: (0 <= p' < q' < |st.order| &&
      st.order[p'] == Kept(Entries(st), threshold)[p].0 && st.order[q'] == Kept(Entries(st), threshold)[q].0)
  {
    var es := Entries(st);
    FilterKeepsOrder(es, AtThreshold(threshold), p, q);
    var p', q' :| 0 <= p' < q' < |es| && es[p'] == Kept(es, threshold)[p] && es[q'] == Kept(es, threshold)[q];
    assert st.order[p'] == es[p'].0 && st.order[q'] == es[q'].0;
  }

  /** Rows with equal 1m keys appear in the order their symbols were first
      seen. */
  lemma OrderedTies(st: Snapshot, threshold: real, i: nat, j: nat)
    requires WellFormed(st)
    requires i < j < |Ordered(st, threshold)|
    requires Key(Ordered(st, threshold)[i]) == Key(Ordered(st, threshold)[j])
    ensures exists p, q :: (0 <= p < q < |st.order| &&
      st.order[p] == Ordered(st, threshold)[i].0 && st.order[q] == Ordered(st, threshold)[j].0)
  {
    var kept := Kept(Entries(st), threshold);
    SortKeepsTies(kept, i, j);
    var p, q :| 0 <= p < q < |kept| && kept[p] == Ordered(st, threshold)[i] && kept[q] == Ordered(st, threshold)[j];
    KeptEntryPositions(st, threshold, p, q);
  }

  /** A qualifying stored symbol survives the filter stage. */
  lemma StoredEntryKept(st: Snapshot, threshold: real, s: string)
    requires WellFormed(st)
    requires s in st.data && Qualifies(st.data[s], threshold)
    ensures (s, st.data[s]) in Kept(Entries(st), threshold)
  {
    var es := Entries(st);
    var j :| 0 <= j < |st.order| && st.order[j] == s;
    assert es[j] == (s, st.data[s]);
  }

  /** Every entry that reaches the sort yields a row. */
  lemma SortedEntryHasRow(kept: seq<Entry>, e: Entry)
    requires e in kept
    ensures e.0 in Symbols(Rows(SortByRelVol(kept)))
  {
    var out := SortByRelVol(kept);
    assert e in multiset(out);
    var i :| 0 <= i < |out| && out[i] == e;
    assert Symbols(Rows(out))[i] == e.0;
  }

  /** A qualifying stored symbol reaches the table. */
  lemma QualifyingSymbolHasRow(st: Snapshot, threshold: real, s: string)
    requires WellFormed(st)
    requires s in st.data && Qualifies(st.data[s], threshold)
    ensures s in Symbols(Project(st, threshold))
  {
    var kept := Kept(Entries(st), threshold);
    StoredEntryKept(st, threshold, s);
    SortedEntryHasRow(kept, (s, st.data[s]));
  }

  /** Filter correctness of the table: a symbol has a row iff it is stored
      and one of 1m, 5m, 15m, 1hr holds a finite relative volume at or above
      the threshold. */
  lemma ProjectHasQualifyingSymbols(st: Snapshot, threshold: real, s: string)
    requires WellFormed(st)
    ensures s in Symbols(Project(st, threshold)) <==>
      s in st.data &&
      exists i :: 0 <= i < 4 && NumericRelVol(st.data[s], Shown[i]).Some? && NumericRelVol(st.data[s], Shown[i]).value >= threshold
  {
    var syms := Symbols(Project(st, threshold));
    if s in syms {
      var i :| 0 <= i < |syms| && syms[i] == s;
      OrderedEntry(st, threshold, i);
    }
    if s in st.data {
      QualifiesIff(st.data[s], threshold);
      if Qualifies(st.data[s], threshold) {
        QualifyingSymbolHasRow(st, threshold, s);
      }
    }
  }

  /** One row per kept symbol: no symbol appears twice. */
  lemma ProjectSymbolsDistinct(st: Snapshot, threshold: real)
    requires WellFormed(st)
    ensures Distinct(Symbols(Project(st, threshold)))
  {
    var out := Ordered(st, threshold);
    var syms := Symbols(Project(st, threshold));
    forall i, j | 0 <= i < j < |syms| ensures syms[i] != syms[j] {
      if syms[i] == syms[j] {
        OrderedEntry(st, threshold, i);
        OrderedEntry(st, threshold, j);
        assert out[i] == out[j];
        OrderedTies(st, threshold, i, j);
        assert false;
      }
    }
  }

  /** Sort correctness of the table: rows are non-increasing by the 1m
      relative volume, and a row without a numeric 1m value comes after every
      row with one. */
  lemma ProjectSorted(st: Snapshot, threshold: real)
    requires forall s :: s in st.order ==> s in st.data
    ensures forall i, j :: 0 <= i < j < |Project(st, threshold)| ==>
      KeyGe(Project(st, threshold)[i].cells[0].relative, Project(st, threshold)[j].cells[0].relative)
    ensures forall i, j :: 0 <= i < j < |Project(st, threshold)| && Project(st, threshold)[i].cells[0].relative.None? ==>
      Project(st, threshold)[j].cells[0].relative.None?
  {
    var out := Ordered(st, threshold);
    var rows := Project(st, threshold);
    forall i | 0 <= i < |rows| ensures rows[i].cells[0].relative == Key(out[i]) {
      assert rows[i] == RowOf(out[i]);
    }
  }

  /** Stability of the table: rows with equal 1m keys keep the order in
      which their symbols were first seen. */
  lemma ProjectTiesKeepInsertionOrder(st: Snapshot, threshold: real, i: nat, j: nat)
    requires WellFormed(st)
    requires i < j < |Project(st, threshold)|
    requires Project(st, threshold)[i].cells[0].relative == Project(st, threshold)[j].cells[0].relative
    ensures exists p, q :: (0 <= p < q < |st.order| &&
      st.order[p] == Project(st, threshold)[i].symbol && st.order[q] == Project(st, threshold)[j].symbol)
  {
    var out := Ordered(st, threshold);
    var rows := Project(st, threshold);
    assert rows[i] == RowOf(out[i]) && rows[j] == RowOf(out[j]);
    OrderedTies(st, threshold, i, j);
  }

  /** The cells of one row, for timeframes written by the updater. */
  lemma RowCells(e: Entry, c: nat)
    requires c < 4
    requires forall tf :: tf in e.1 ==> NormalForm(e.1[tf])
    ensures |RowOf(e).cells| == 4
    ensures var cell := RowOf(e).cells[c];
      && (cell.volume.None? <==> Shown[c] !in e.1)
      && (cell.volume.Some? ==> cell.volume.value == e.1[Shown[c]].latestVolume)
      && (cell.relative.Some? <==> Shown[c] in e.1 && e.1[Shown[c]].relativeVolume.Num?)
      && (cell.relative.Some? ==> cell.relative.value == e.1[Shown[c]].relativeVolume.n)
  {
    assert RowOf(e).cells[c] == CellOf(e.1, Shown[c]);
  }

  /** Projection shape: each row carries its symbol's stored cells, the
      volume absent exactly when the timeframe has no entry and the relative
      volume present exactly when the stored value is a number. */
  lemma ProjectCells(st: Snapshot, threshold: real, i: nat, c: nat)
    requires WellFormed(st)
    requires i < |Project(st, threshold)| && c < 4
    ensures Project(st, threshold)[i].symbol in st.data
    ensures |Project(st, threshold)[i].cells| == 4
    ensures var tfs := st.data[Project(st, threshold)[i].symbol];
      var cell := Project(st, threshold)[i].cells[c];
      && (cell.volume.None? <==> Shown[c] !in tfs)
      && (cell.volume.Some? ==> cell.volume.value == tfs[Shown[c]].latestVolume)
      && (cell.relative.Some? <==> Shown[c] in tfs && tfs[Shown[c]].relativeVolume.Num?)
      && (cell.relative.Some? ==> cell.relative.value == tfs[Shown[c]].relativeVolume.n)
  {
    var e := Ordered(st, threshold)[i];
    OrderedEntry(st, threshold, i);
    assert Project(st, threshold)[i] == RowOf(e);
    RowCells(e, c);
  }

  /** Filter monotonicity of the table: raising the threshold only removes rows. */
  lemma ProjectMonotone(st: Snapshot, low: real, high: real, s: string)
    requires WellFormed(st)
    requires low <= high
    ensures s in Symbols(Project(st, high)) ==> s in Symbols(Project(st, low))
  {
    ProjectHasQualifyingSymbols(st, low, s);
    ProjectHasQualifyingSymbols(st, high, s);
  }
}
