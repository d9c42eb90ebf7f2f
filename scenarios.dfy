/** Concrete event streams and the table they produce. */
module Scenarios {
  import opened JsValues
  import opened VolumeStore
  import opened Filtering
  import opened Sorting
  import opened Projection

  const NoCell := Cell(None, None)

  lemma IngestTwo(st: Snapshot, e1: Event, e2: Event)
    ensures IngestAll(st, [e1, e2]) == Ingested(Ingested(st, e1), e2)
  {
    var st1 := Ingested(st, e1);
    assert [e1, e2][1..] == [e2];
    assert IngestAll(st, [e1, e2]) == IngestAll(st1, [e2]);
    assert [e2][1..] == [];
    assert IngestAll(st1, [e2]) == IngestAll(Ingested(st1, e2), []);
  }

  /** The store after two events about two different symbols. */
  lemma IngestTwoSymbols(e1: Event, e2: Event)
    requires e1.symbol != e2.symbol
    ensures IngestAll(Empty(), [e1, e2]) ==
      Snapshot(map[e1.symbol := map[e1.timeframe := Normalised(e1)], e2.symbol := map[e2.timeframe := Normalised(e2)]],
               [e1.symbol, e2.symbol])
  {
    IngestTwo(Empty(), e1, e2);
    assert Ingested(Empty(), e1) == Snapshot(map[e1.symbol := map[e1.timeframe := Normalised(e1)]], [e1.symbol]);
  }

  lemma KeptTwo(a: Entry, b: Entry, threshold: real)
    ensures Kept([a, b], threshold) ==
      (if Qualifies(a.1, threshold) then [a] else []) + (if Qualifies(b.1, threshold) then [b] else [])
  {
    var keep := AtThreshold(threshold);
    assert keep(a) == Qualifies(a.1, threshold);
    assert keep(b) == Qualifies(b.1, threshold);
    assert [a, b][1..] == [b];
    assert [b][1..] == [];
    assert Filter([b], keep) == (if keep(b) then [b] else []);
  }

  /** The table of a store holding two symbols. */
  lemma ProjectTwo(a: Entry, b: Entry, threshold: real)
    requires a.0 != b.0
    ensures Project(Snapshot(map[a.0 := a.1, b.0 := b.1], [a.0, b.0]), threshold) ==
      Rows(SortByRelVol((if Qualifies(a.1, threshold) then [a] else []) + (if Qualifies(b.1, threshold) then [b] else [])))
  {
    var st := Snapshot(map[a.0 := a.1, b.0 := b.1], [a.0, b.0]);
    assert Entries(st) == [a, b];
    KeptTwo(a, b, threshold);
  }

  lemma SortTwo(a: Entry, b: Entry)
    ensures SortByRelVol([a, b]) == if KeyGe(Key(a), Key(b)) then [a, b] else [b, a]
  {
    assert [a, b][1..] == [b];
    assert [b][1..] == [];
    assert [a][1..] == [];
  }

  const Btc: Entry := ("BTCUSDT", map["1m" := Obs(Num(100.0), Num(5.0))])
  const Eth: Entry := ("ETHUSDT", map["1m" := Obs(Num(50.0), Num(2.0))])

  lemma ScenarioAStore()
    ensures IngestAll(Empty(), [Event("BTCUSDT", "1m", Num(100.0), Num(5.0)), Event("ETHUSDT", "1m", Num(50.0), Num(2.0))])
      == Snapshot(map[Btc.0 := Btc.1, Eth.0 := Eth.1], [Btc.0, Eth.0])
  {
    IngestTwoSymbols(Event("BTCUSDT", "1m", Num(100.0), Num(5.0)), Event("ETHUSDT", "1m", Num(50.0), Num(2.0)));
  }

  lemma ScenarioAFilter()
    ensures Qualifies(Btc.1, 3.0) && !Qualifies(Eth.1, 3.0)
  {
    QualifiesIff(Eth.1, 3.0);
  }

  lemma ScenarioARow()
    ensures Rows(SortByRelVol([Btc])) == [Row("BTCUSDT", [Cell(Some(Num(100.0)), Some(5.0)), NoCell, NoCell, NoCell])]
  {
    assert SortByRelVol([Btc]) == [Btc];
  }

  /** Two 1m events; at threshold 3 only BTCUSDT is shown, with its other
      timeframes empty. */
  lemma ScenarioA()
    ensures var st := IngestAll(Empty(), [Event("BTCUSDT", "1m", Num(100.0), Num(5.0)),
                                          Event("ETHUSDT", "1m", Num(50.0), Num(2.0))]);
      Project(st, 3.0) == [Row("BTCUSDT", [Cell(Some(Num(100.0)), Some(5.0)), NoCell, NoCell, NoCell])]
  {
    ScenarioAStore();
    ProjectTwo(Btc, Eth, 3.0);
    ScenarioAFilter();
    ScenarioARow();
  }

  const Xrp: Entry := ("XRPUSDT", map["5m" := Obs(Num(200.0), Num(7.0))])
  const Btc6: Entry := ("BTCUSDT", map["1m" := Obs(Num(100.0), Num(6.0))])

  lemma ScenarioBStore()
    ensures IngestAll(Empty(), [Event("XRPUSDT", "5m", Num(200.0), Num(7.0)), Event("BTCUSDT", "1m", Num(100.0), Num(6.0))])
      == Snapshot(map[Xrp.0 := Xrp.1, Btc6.0 := Btc6.1], [Xrp.0, Btc6.0])
  {
    IngestTwoSymbols(Event("XRPUSDT", "5m", Num(200.0), Num(7.0)), Event("BTCUSDT", "1m", Num(100.0), Num(6.0)));
  }

  lemma ScenarioBFilter()
    ensures Qualifies(Xrp.1, 5.0) && Qualifies(Btc6.1, 5.0)
  {
    assert MeetsThreshold(Xrp.1, "5m", 5.0);
  }

  lemma ScenarioBSort()
    ensures SortByRelVol([Xrp, Btc6]) == [Btc6, Xrp]
  {
    assert Key(Xrp) == None && Key(Btc6) == Some(6.0);
    SortTwo(Xrp, Btc6);
  }

  lemma ScenarioBRows()
    ensures Symbols(Rows([Btc6, Xrp])) == ["BTCUSDT", "XRPUSDT"]
    ensures Rows([Btc6, Xrp])[1].cells == [NoCell, Cell(Some(Num(200.0)), Some(7.0)), NoCell, NoCell]
  {
    assert Rows([Btc6, Xrp])[1] == RowOf(Xrp);
  }

  /** A symbol seen only under 5m qualifies through it, and sorts after a
      later symbol that has a numeric 1m value. */
  lemma ScenarioB()
    ensures var st := IngestAll(Empty(), [Event("XRPUSDT", "5m", Num(200.0), Num(7.0)),
                                          Event("BTCUSDT", "1m", Num(100.0), Num(6.0))]);
      Symbols(Project(st, 5.0)) == ["BTCUSDT", "XRPUSDT"] &&
      Project(st, 5.0)[1].cells == [NoCell, Cell(Some(Num(200.0)), Some(7.0)), NoCell, NoCell]
  {
    ScenarioBStore();
    ProjectTwo(Xrp, Btc6, 5.0);
    ScenarioBFilter();
    ScenarioBSort();
    ScenarioBRows();
  }

  /** A second event for the same cell replaces the first outright. */
  lemma ScenarioC()
    ensures var st := IngestAll(Empty(), [Event("BTCUSDT", "1m", Num(100.0), Num(5.0)),
                                          Event("BTCUSDT", "1m", Num(150.0), Num(8.0))]);
      st.data["BTCUSDT"] == map["1m" := Obs(Num(150.0), Num(8.0))] && st.order == ["BTCUSDT"]
  {
    var e1 := Event("BTCUSDT", "1m", Num(100.0), Num(5.0));
    var e2 := Event("BTCUSDT", "1m", Num(150.0), Num(8.0));
    IngestTwo(Empty(), e1, e2);
  }

  /** A missing relative volume is stored as 'N/A' and never meets any
      threshold; neither does a relative volume of 0, which `||` also turns
      into 'N/A' (so even threshold 0 hides it). */
  lemma ScenarioD(symbol: string, tf: string, volume: JsValue, rv: JsValue, threshold: real)
    requires rv == Undefined || rv == Num(0.0)
    ensures var st := Ingested(Empty(), Event(symbol, tf, volume, rv));
      st.data[symbol][tf].relativeVolume == Str("N/A") &&
      !Qualifies(st.data[symbol], threshold) &&
      Project(st, threshold) == []
  {
    var st := Ingested(Empty(), Event(symbol, tf, volume, rv));
    IngestedPreservesWellFormed(Empty(), Event(symbol, tf, volume, rv));
    NoNumberNoRow(st.data[symbol], threshold);
    QualifiesIff(st.data[symbol], threshold);
  }

  /** The empty symbol is a property key like any other: it is stored,
      listed by `Object.entries`, filtered and shown with a blank symbol. */
  lemma ScenarioEmptySymbol()
    ensures var st := Ingested(Empty(), Event("", "1m", Num(1.0), Num(5.0)));
      "" in st.data && st.order == [""] &&
      Symbols(Project(st, 3.0)) == [""]
  {
    var e := Event("", "1m", Num(1.0), Num(5.0));
    var st := Ingested(Empty(), e);
    var entry: Entry := ("", map["1m" := Obs(Num(1.0), Num(5.0))]);
    assert Entries(st) == [entry];
    assert MeetsThreshold(entry.1, "1m", 3.0);
    assert Kept([entry], 3.0) == [entry];
    assert SortByRelVol([entry]) == [entry];
  }

  const Sol: Entry := ("SOLUSDT", map["15m" := Obs(Num(10.0), Num(4.0))])
  const Ada: Entry := ("ADAUSDT", map["1hr" := Obs(Num(20.0), Num(9.0))])

  lemma ScenarioTiesStore()
    ensures IngestAll(Empty(), [Event("SOLUSDT", "15m", Num(10.0), Num(4.0)), Event("ADAUSDT", "1hr", Num(20.0), Num(9.0))])
      == Snapshot(map[Sol.0 := Sol.1, Ada.0 := Ada.1], [Sol.0, Ada.0])
  {
    IngestTwoSymbols(Event("SOLUSDT", "15m", Num(10.0), Num(4.0)), Event("ADAUSDT", "1hr", Num(20.0), Num(9.0)));
  }

  lemma ScenarioTiesFilter()
    ensures Qualifies(Sol.1, 2.0) && Qualifies(Ada.1, 2.0)
  {
    assert MeetsThreshold(Sol.1, "15m", 2.0);
    assert MeetsThreshold(Ada.1, "1hr", 2.0);
  }

  lemma ScenarioTiesSort()
    ensures SortByRelVol([Sol, Ada]) == [Sol, Ada]
  {
    assert Key(Sol) == None && Key(Ada) == None;
    SortTwo(Sol, Ada);
  }

  lemma ScenarioTiesRows()
    ensures Symbols(Rows([Sol, Ada])) == ["SOLUSDT", "ADAUSDT"]
  {
  }

  /** Two symbols without a 1m value tie at -Infinity and keep the order in
      which they were first seen. */
  lemma ScenarioTies()
    ensures var st := IngestAll(Empty(), [Event("SOLUSDT", "15m", Num(10.0), Num(4.0)),
                                          Event("ADAUSDT", "1hr", Num(20.0), Num(9.0))]);
      Symbols(Project(st, 2.0)) == ["SOLUSDT", "ADAUSDT"]
  {
    ScenarioTiesStore();
    ProjectTwo(Sol, Ada, 2.0);
    ScenarioTiesFilter();
    ScenarioTiesSort();
    ScenarioTiesRows();
  }
}
