/** `Object.entries(volumeData).filter(...)` of src/App.js: a symbol is kept
    when one of the four displayed timeframes holds a numeric relative volume
    at or above the threshold. */
module Filtering {
  import opened JsValues
  import opened VolumeStore

  /** The timeframes the screener shows, in column order. */
  const Shown: seq<string> := ["1m", "5m", "15m", "1hr"]

  /** The thresholds the dropdown offers (0 to 14) and the initial one; the
      filter itself accepts any number. */
  const ThresholdChoices: seq<int> := seq(15, i => i)
  const DefaultThreshold: int := 1

  /** An element of `Object.entries(volumeData)`. */
  type Entry = (string, Timeframes)

  /** `Object.entries` of a snapshot: its symbols in first-insertion order,
      each paired with its timeframe map.  The ensures only unfold the
      comprehension for callers; `EntriesListEachSymbolOnce` states what the
      listing promises. */
  function Entries(st: Snapshot): (es: seq<Entry>)
    requires forall s :: s in st.order ==> s in st.data
    ensures |es| == |st.order|
    ensures forall i :: 0 <= i < |es| ==> es[i].0 == st.order[i] && es[i].1 == st.data[st.order[i]]
  {
    seq(|st.order|, i requires 0 <= i < |st.order| => (st.order[i], st.data[st.order[i]]))
  }

  /** `Object.entries` of a well-formed store lists every stored symbol, and
      only those, each exactly once and with its own timeframe map. */
  lemma EntriesListEachSymbolOnce(st: Snapshot)
    requires WellFormed(st)
    ensures forall s :: s in st.data <==> exists i :: 0 <= i < |Entries(st)| && Entries(st)[i].0 == s
    ensures forall i, j :: 0 <= i < j < |Entries(st)| ==> Entries(st)[i].0 != Entries(st)[j].0
    ensures forall i :: 0 <= i < |Entries(st)| ==> Entries(st)[i].1 == st.data[Entries(st)[i].0]
  {
    var es := Entries(st);
    forall s | s in st.data ensures exists i :: 0 <= i < |es| && es[i].0 == s {
      var i :| 0 <= i < |st.order| && st.order[i] == s;
      assert es[i].0 == s;
    }
  }

  /** `Array.prototype.filter`: the elements that satisfy `keep`, in order. */
  function Filter<T(!new)>(s: seq<T>, keep: T -> bool): (r: seq<T>)
    ensures |r| <= |s|
    ensures forall x :: x in r <==> x in s && keep(x)
    decreases |s|
  {
    if s == [] then []
    else if keep(s[0]) then [s[0]] + Filter(s[1..], keep)
    else Filter(s[1..], keep)
  }

  /** Two elements of a filtered sequence stand in the same order in the
      sequence that was filtered. */
  lemma {:induction false} FilterKeepsOrder<T(!new)>(s: seq<T>, keep: T -> bool, i: nat, j: nat)
    requires i < j < |Filter(s, keep)|
    ensures exists p, q :: 0 <= p < q < |s| && s[p] == Filter(s, keep)[i] && s[q] == Filter(s, keep)[j]
    decreases |s|
  {
    var f := Filter(s, keep);
    var tail := Filter(s[1..], keep);
    if keep(s[0]) {
      assert f == [s[0]] + tail;
      if i == 0 {
        assert f[j] in s[1..] by { assert f[j] == tail[j - 1]; }
        var q' :| 0 <= q' < |s[1..]| && s[1..][q'] == f[j];
        assert s[0] == f[0] && s[q' + 1] == f[j];
      } else {
        FilterKeepsOrder(s[1..], keep, i - 1, j - 1);
        var p', q' :| 0 <= p' < q' < |s[1..]| && s[1..][p'] == tail[i - 1] && s[1..][q'] == tail[j - 1];
        assert s[p' + 1] == f[i] && s[q' + 1] == f[j];
      }
    } else {
      assert f == tail;
      FilterKeepsOrder(s[1..], keep, i, j);
      var p', q' :| 0 <= p' < q' < |s[1..]| && s[1..][p'] == tail[i] && s[1..][q'] == tail[j];
      assert s[p' + 1] == f[i] && s[q' + 1] == f[j];
    }
  }

  /** Two kept elements keep their relative order in the filtered sequence. */
  lemma {:induction false} FilterKeepsPair<T(!new)>(s: seq<T>, keep: T -> bool, i: nat, j: nat)
    requires i < j < |s| && keep(s[i]) && keep(s[j])
    ensures exists p, q :: 0 <= p < q < |Filter(s, keep)| && Filter(s, keep)[p] == s[i] && Filter(s, keep)[q] == s[j]
    decreases |s|
  {
    var f := Filter(s, keep);
    var tail := Filter(s[1..], keep);
    if i == 0 {
      assert f == [s[0]] + tail;
      assert s[j] in tail by { assert s[j] == s[1..][j - 1]; }
      var q' :| 0 <= q' < |tail| && tail[q'] == s[j];
      assert f[0] == s[0] && f[q' + 1] == s[j];
    } else {
      assert s[i] == s[1..][i - 1] && s[j] == s[1..][j - 1];
      FilterKeepsPair(s[1..], keep, i - 1, j - 1);
      var p', q' :| 0 <= p' < q' < |tail| && tail[p'] == s[i] && tail[q'] == s[j];
      if keep(s[0]) {
        assert f == [s[0]] + tail;
        assert f[p' + 1] == s[i] && f[q' + 1] == s[j];
      } else {
        assert f == tail;
      }
    }
  }

  /** `timeframes[tf]?.relativeVolume`, when it is a finite number. */
  function NumericRelVol(tfs: Timeframes, tf: string): Option<real>
  {
    if tf in tfs && tfs[tf].relativeVolume.Num? then Some(tfs[tf].relativeVolume.n) else None
  }

  /** `typeof timeframes[tf]?.relativeVolume === 'number' &&
      timeframes[tf].relativeVolume >= filterValue` (NaN is a number and
      compares false). */
  predicate MeetsThreshold(tfs: Timeframes, tf: string, threshold: real)
  {
    && tf in tfs
    && IsNumber(tfs[tf].relativeVolume)
    && match tfs[tf].relativeVolume
       case Num(n) => n >= threshold
       case _ => false
  }

  /** `Array.prototype.some` over a list of timeframes. */
  predicate SomeMeets(tfs: Timeframes, tfList: seq<string>, threshold: real)
    decreases |tfList|
  {
    tfList != [] && (MeetsThreshold(tfs, tfList[0], threshold) || SomeMeets(tfs, tfList[1..], threshold))
  }

  /** The `.filter` predicate of lines 77-84. */
  predicate Qualifies(tfs: Timeframes, threshold: real)
  {
    SomeMeets(tfs, Shown, threshold)
  }

  /** `.some` is an existential over the list it walks. */
  lemma {:induction false} SomeMeetsIff(tfs: Timeframes, tfList: seq<string>, threshold: real)
    ensures SomeMeets(tfs, tfList, threshold) <==>
      exists i :: 0 <= i < |tfList| && NumericRelVol(tfs, tfList[i]).Some? && NumericRelVol(tfs, tfList[i]).value >= threshold
    decreases |tfList|
  {
    if tfList != [] {
      SomeMeetsIff(tfs, tfList[1..], threshold);
      if SomeMeets(tfs, tfList[1..], threshold) {
        var i :| 0 <= i < |tfList[1..]| && NumericRelVol(tfs, tfList[1..][i]).Some? && NumericRelVol(tfs, tfList[1..][i]).value >= threshold;
        assert tfList[i + 1] == tfList[1..][i];
      }
      if exists i :: 0 <= i < |tfList| && NumericRelVol(tfs, tfList[i]).Some? && NumericRelVol(tfs, tfList[i]).value >= threshold {
        var i :| 0 <= i < |tfList| && NumericRelVol(tfs, tfList[i]).Some? && NumericRelVol(tfs, tfList[i]).value >= threshold;
        if i > 0 {
          assert tfList[1..][i - 1] == tfList[i];
        }
      }
    }
  }

  /** Filter correctness: a symbol's timeframes qualify iff one of 1m, 5m,
      15m, 1hr holds a finite relative volume at or above the threshold. */
  lemma QualifiesIff(tfs: Timeframes, threshold: real)
    ensures Qualifies(tfs, threshold) <==>
      exists i :: 0 <= i < 4 && NumericRelVol(tfs, Shown[i]).Some? && NumericRelVol(tfs, Shown[i]).value >= threshold
  {
    SomeMeetsIff(tfs, Shown, threshold);
  }

  /** A symbol none of whose shown timeframes holds a number never qualifies:
      neither one without entries, nor one holding only 'N/A', nor one whose
      entries are all under other timeframe keys. */
  lemma NoNumberNoRow(tfs: Timeframes, threshold: real)
    requires forall i :: 0 <= i < 4 ==> NumericRelVol(tfs, Shown[i]).None?
    ensures !Qualifies(tfs, threshold)
  {
    QualifiesIff(tfs, threshold);
  }

  /** Raising the threshold can only drop symbols. */
  lemma QualifiesMonotone(tfs: Timeframes, low: real, high: real)
    requires low <= high
    ensures Qualifies(tfs, high) ==> Qualifies(tfs, low)
  {
    QualifiesIff(tfs, low);
    QualifiesIff(tfs, high);
  }

  /** The filter callback, as the value passed to `.filter`. */
  function AtThreshold(threshold: real): Entry -> bool
  {
    (e: Entry) => Qualifies(e.1, threshold)
  }

  /** The filter stage of the projection. */
  function Kept(es: seq<Entry>, threshold: real): (r: seq<Entry>)
    ensures forall e :: e in r <==> e in es && Qualifies(e.1, threshold)
  {
    Filter(es, AtThreshold(threshold))
  }

  /** Filter monotonicity: what is kept at a higher threshold is kept at a
      lower one, and in the same order. */
  lemma {:induction false} KeptMonotone(es: seq<Entry>, low: real, high: real)
    requires low <= high
    ensures forall e :: e in Kept(es, high) ==> e in Kept(es, low)
    ensures Kept(es, high) == Kept(Kept(es, low), high)
    decreases |es|
  {
    if es != [] {
      QualifiesMonotone(es[0].1, low, high);
      KeptMonotone(es[1..], low, high);
    }
  }
}
