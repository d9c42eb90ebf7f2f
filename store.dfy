/** The `volumeData` state of src/App.js: symbol -> (timeframe -> observation),
    together with the order in which symbols were first seen (the order in
    which `Object.entries` later lists them), and the updater that folds one
    `volumeData` event into it. */
module VolumeStore {
  import opened JsValues

  /** One stored cell `{ latestVolume, relativeVolume }`. */
  datatype Obs = Obs(latestVolume: JsValue, relativeVolume: JsValue)

  /** A raw event.  `symbol` and `timeframe` are the property keys the updater
      uses; nothing about them is checked. */
  datatype Event = Event(symbol: string, timeframe: string, latestVolume: JsValue, relativeVolume: JsValue)

  type Timeframes = map<string, Obs>

  /** An immutable view of the store: the two-level map and the symbols in
      first-insertion order. */
  datatype Snapshot = Snapshot(data: map<string, Timeframes>, order: seq<string>)

  /** The cell written for an event: `latestVolume || 0`, `relativeVolume || 'N/A'`. */
  function Normalised(e: Event): (o: Obs)
    ensures Truthy(e.latestVolume) ==> o.latestVolume == e.latestVolume
    ensures !Truthy(e.latestVolume) ==> o.latestVolume == Num(0.0)
    ensures Truthy(e.relativeVolume) ==> o.relativeVolume == e.relativeVolume
    ensures !Truthy(e.relativeVolume) ==> o.relativeVolume == Str("N/A")
  {
    Obs(Or(e.latestVolume, Num(0.0)), Or(e.relativeVolume, Str("N/A")))
  }

  /** What every written cell looks like: a truthy relative volume (so never
      0, NaN, null or undefined) and a volume that is truthy or 0. */
  predicate NormalForm(o: Obs)
  {
    Truthy(o.relativeVolume) && (Truthy(o.latestVolume) || o.latestVolume == Num(0.0))
  }

  predicate Distinct(s: seq<string>)
  {
    forall i, j :: 0 <= i < j < |s| ==> s[i] != s[j]
  }

  /** The invariant the updater keeps: the order lists each stored symbol
      exactly once, and every cell is in normal form. */
  ghost predicate WellFormed(st: Snapshot)
  {
    && Distinct(st.order)
    && (forall s :: s in st.data <==> s in st.order)
    && (forall s, tf :: s in st.data && tf in st.data[s] ==> NormalForm(st.data[s][tf]))
  }

  function Empty(): (st: Snapshot)
    ensures WellFormed(st) && st.data == map[] && st.order == []
  {
    Snapshot(map[], [])
  }

  /** The updater of lines 17-31 as a transition on snapshots. */
  function Ingested(st: Snapshot, e: Event): (r: Snapshot)
    // last write wins: the event's cell holds exactly its normalised payload
    ensures e.symbol in r.data && e.timeframe in r.data[e.symbol]
    ensures r.data[e.symbol][e.timeframe] == Normalised(e)
    // every other timeframe of the same symbol keeps its cell
    ensures e.symbol in st.data ==>
      forall tf :: tf != e.timeframe ==>
        (tf in r.data[e.symbol] <==> tf in st.data[e.symbol]) &&
        (tf in st.data[e.symbol] ==> r.data[e.symbol][tf] == st.data[e.symbol][tf])
    // a symbol seen for the first time gets exactly one cell
    ensures e.symbol !in st.data ==> r.data[e.symbol].Keys == {e.timeframe}
    // every other symbol is untouched, and nothing is removed
    ensures r.data.Keys == st.data.Keys + {e.symbol}
    ensures forall s :: s in st.data && s != e.symbol ==> r.data[s] == st.data[s]
    // the order grows only by the new symbol, at the end
    ensures r.order == if e.symbol in st.data then st.order else st.order + [e.symbol]
  {
    var inner := if e.symbol in st.data then st.data[e.symbol] else map[];
    var order := if e.symbol in st.data then st.order else st.order + [e.symbol];
    Snapshot(st.data[e.symbol := inner[e.timeframe := Normalised(e)]], order)
  }

  lemma IngestedPreservesWellFormed(st: Snapshot, e: Event)
    requires WellFormed(st)
    ensures WellFormed(Ingested(st, e))
  {
    var r := Ingested(st, e);
    assert NormalForm(Normalised(e));
    forall s, tf | s in r.data && tf in r.data[s]
      ensures NormalForm(r.data[s][tf])
    {
      if s == e.symbol && tf != e.timeframe {
        assert e.symbol in st.data;
      }
    }
  }

  /** Applying the same event twice leaves the store as applying it once. */
  lemma IngestIdempotent(st: Snapshot, e: Event)
    ensures Ingested(Ingested(st, e), e) == Ingested(st, e)
  {
    var once := Ingested(st, e);
    var twice := Ingested(once, e);
    assert twice.data[e.symbol] == once.data[e.symbol];
    assert twice.data == once.data;
  }

  /** A stream of events applied in arrival order. */
  function IngestAll(st: Snapshot, es: seq<Event>): Snapshot
    decreases |es|
  {
    if es == [] then st else IngestAll(Ingested(st, es[0]), es[1..])
  }

  predicate Targets(e: Event, symbol: string, timeframe: string)
  {
    e.symbol == symbol && e.timeframe == timeframe
  }

  lemma {:induction false} IngestAllPreservesWellFormed(st: Snapshot, es: seq<Event>)
    requires WellFormed(st)
    ensures WellFormed(IngestAll(st, es))
    decreases |es|
  {
    if es != [] {
      IngestedPreservesWellFormed(st, es[0]);
      IngestAllPreservesWellFormed(Ingested(st, es[0]), es[1..]);
    }
  }

  /** Symbols are never removed, and the first-insertion order only grows at
      its end. */
  lemma {:induction false} IngestAllGrows(st: Snapshot, es: seq<Event>)
    ensures st.data.Keys <= IngestAll(st, es).data.Keys
    ensures st.order <= IngestAll(st, es).order
    decreases |es|
  {
    if es != [] {
      IngestAllGrows(Ingested(st, es[0]), es[1..]);
    }
  }

  /** The cell stored under `symbol` and `timeframe`, if any. */
  function CellAt(st: Snapshot, symbol: string, timeframe: string): Option<Obs>
  {
    if symbol in st.data && timeframe in st.data[symbol] then Some(st.data[symbol][timeframe]) else None
  }

  /** An event leaves every cell it does not target as it was, present or
      absent, even when it creates the cell's symbol. */
  lemma IngestedFrame(st: Snapshot, e: Event, symbol: string, timeframe: string)
    requires !Targets(e, symbol, timeframe)
    ensures CellAt(Ingested(st, e), symbol, timeframe) == CellAt(st, symbol, timeframe)
  {
    if symbol == e.symbol && e.symbol !in st.data {
      assert timeframe !in Ingested(st, e).data[symbol];
    }
  }

  /** A cell no event of the stream targets keeps its value, or its absence,
      whether or not the stream creates its symbol. */
  lemma {:induction false} IngestAllFrame(st: Snapshot, es: seq<Event>, symbol: string, timeframe: string)
    requires forall k :: 0 <= k < |es| ==> !Targets(es[k], symbol, timeframe)
    ensures CellAt(IngestAll(st, es), symbol, timeframe) == CellAt(st, symbol, timeframe)
    decreases |es|
  {
    if es != [] {
      IngestedFrame(st, es[0], symbol, timeframe);
      IngestAllFrame(Ingested(st, es[0]), es[1..], symbol, timeframe);
    }
  }

  /** Last-write-wins over a stream: the final value of a cell is the
      normalised payload of the last event that targets it, whatever came
      before. */
  lemma {:induction false} LastWriteWins(st: Snapshot, es: seq<Event>, k: nat)
    requires k < |es|
    requires forall j :: k < j < |es| ==> !Targets(es[j], es[k].symbol, es[k].timeframe)
    ensures es[k].symbol in IngestAll(st, es).data
    ensures es[k].timeframe in IngestAll(st, es).data[es[k].symbol]
    ensures IngestAll(st, es).data[es[k].symbol][es[k].timeframe] == Normalised(es[k])
    decreases |es|
  {
    if k == 0 {
      var rest := es[1..];
      forall j | 0 <= j < |rest| ensures !Targets(rest[j], es[0].symbol, es[0].timeframe) {
        assert rest[j] == es[j + 1];
      }
      IngestAllFrame(Ingested(st, es[0]), rest, es[0].symbol, es[0].timeframe);
      assert CellAt(Ingested(st, es[0]), es[0].symbol, es[0].timeframe) == Some(Normalised(es[0]));
    } else {
      assert es[k] == es[1..][k - 1];
      LastWriteWins(Ingested(st, es[0]), es[1..], k - 1);
    }
  }

  /** The React state holding the store.  The updater copies the outer map,
      creates the inner map on first sight of a symbol and assigns one cell. */
  class VolumeData {
    var data: map<string, Timeframes>
    var order: seq<string>

    function Snap(): Snapshot
      reads this
    {
      Snapshot(data, order)
    }

    ghost predicate Valid()
      reads this
    {
      WellFormed(Snap())
    }

    /** `useState({})`. */
    constructor ()
      ensures Valid() && data == map[] && order == []
    {
      data := map[];
      order := [];
    }

    /** The `setVolumeData` updater for one event. */
    method Ingest(e: Event)
      requires Valid()
      modifies this
      ensures Valid()
      ensures Snap() == Ingested(old(Snap()), e)
      ensures e.symbol in data && e.timeframe in data[e.symbol]
      ensures data[e.symbol][e.timeframe] == Normalised(e)
      ensures forall s :: s in old(data) && s != e.symbol ==> s in data && data[s] == old(data)[s]
      ensures order == if e.symbol in old(data) then old(order) else old(order) + [e.symbol]
    {
      ghost var before := Snap();
      var updated := data;
      if e.symbol !in updated {
        updated := updated[e.symbol := map[]];
        order := order + [e.symbol];
      }
      var cell := Obs(Or(e.latestVolume, Num(0.0)), Or(e.relativeVolume, Str("N/A")));
      updated := updated[e.symbol := updated[e.symbol][e.timeframe := cell]];
      data := updated;
      assert Snap() == Ingested(before, e);
      IngestedPreservesWellFormed(before, e);
    }
  }
}
