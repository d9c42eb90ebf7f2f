/** The `.sort` of src/App.js lines 85-89: descending by the 1m relative
    volume, a missing or non-numeric value counting as -Infinity, stable as
    `Array.prototype.sort` is since ECMAScript 2019. */
module Sorting {
  import opened JsValues
  import opened VolumeStore
  import opened Filtering

  /** The sort key of an entry: its finite 1m relative volume, `None`
      standing for -Infinity. */
  function Key(e: Entry): Option<real>
  {
    NumericRelVol(e.1, "1m")
  }

  /** "a sorts no later than b": None is below every number. */
  predicate KeyGe(a: Option<real>, b: Option<real>)
  {
    match (a, b)
    case (_, None) => true
    case (None, Some(_)) => false
    case (Some(x), Some(y)) => x >= y
  }

  /** The key order is a total preorder, so a stable sort by it is well defined. */
  lemma KeyGeTotalPreorder(a: Option<real>, b: Option<real>, c: Option<real>)
    ensures KeyGe(a, a)
    ensures KeyGe(a, b) || KeyGe(b, a)
    ensures KeyGe(a, b) && KeyGe(b, c) ==> KeyGe(a, c)
    ensures KeyGe(a, b) && KeyGe(b, a) ==> a == b
  {
  }

  /** `typeof a['1m']?.relativeVolume === 'number' ? a['1m'].relativeVolume : -Infinity`. */
  function SortValue(tfs: Timeframes): ExtNumber
  {
    if "1m" !in tfs then NegInfinity
    else match tfs["1m"].relativeVolume
      case Num(n) => Finite(n)
      case NaN => NotANumber
      case _ => NegInfinity
  }

  /** The comparator `(a, b) => relativeB - relativeA`. */
  function Compare(a: Entry, b: Entry): ExtNumber
  {
    Minus(SortValue(b.1), SortValue(a.1))
  }

  predicate NoNaNAt1m(tfs: Timeframes)
  {
    "1m" in tfs ==> !tfs["1m"].relativeVolume.NaN?
  }

  /** Stored cells never hold NaN, since `relativeVolume || 'N/A'` replaces it. */
  lemma WellFormedHasNoNaN(st: Snapshot, s: string)
    requires WellFormed(st) && s in st.data
    ensures NoNaNAt1m(st.data[s])
  {
    if "1m" in st.data[s] {
      assert NormalForm(st.data[s]["1m"]);
    }
  }

  /** The comparator agrees with the key order: it puts `a` first (or keeps
      the two in place) exactly when a's key is at least b's, and reports
      a tie exactly when the keys are equal (two -Infinity values give NaN,
      which the sort reads as a tie). */
  lemma CompareAgreesWithKey(a: Entry, b: Entry)
    requires NoNaNAt1m(a.1) && NoNaNAt1m(b.1)
    ensures ComparatorSign(Compare(a, b)) <= 0 <==> KeyGe(Key(a), Key(b))
    ensures ComparatorSign(Compare(a, b)) == 0 <==> Key(a) == Key(b)
  {
  }

  ghost predicate Sorted(s: seq<Entry>)
  {
    forall i, j :: 0 <= i < j < |s| ==> KeyGe(Key(s[i]), Key(s[j]))
  }

  /** Places `x`, which came before every element of `ys` in the input, in
      front of the first element whose key it is not below. */
  function Insert(x: Entry, ys: seq<Entry>): (r: seq<Entry>)
    ensures multiset(r) == multiset{x} + multiset(ys)
    decreases |ys|
  {
    if ys == [] then [x]
    else if KeyGe(Key(x), Key(ys[0])) then [x] + ys
    else
      assert ys == [ys[0]] + ys[1..];
      [ys[0]] + Insert(x, ys[1..])
  }

  /** A sorted sequence stays sorted under a new head that dominates it. */
  lemma ConsSorted(y: Entry, rest: seq<Entry>)
    requires Sorted(rest)
    requires forall z :: z in rest ==> KeyGe(Key(y), Key(z))
    ensures Sorted([y] + rest)
  {
    var r := [y] + rest;
    forall i, j | 0 <= i < j < |r| ensures KeyGe(Key(r[i]), Key(r[j])) {
      assert r[j] == rest[j - 1];
      if i > 0 {
        assert r[i] == rest[i - 1];
      }
    }
  }

  /** Inserting into a sorted sequence keeps it sorted. */
  lemma {:induction false} InsertSorted(x: Entry, ys: seq<Entry>)
    requires Sorted(ys)
    ensures Sorted(Insert(x, ys))
    decreases |ys|
  {
    if ys == [] {
    } else if KeyGe(Key(x), Key(ys[0])) {
      forall z | z in ys ensures KeyGe(Key(x), Key(z)) {
        var j :| 0 <= j < |ys| && ys[j] == z;
        KeyGeTotalPreorder(Key(x), Key(ys[0]), Key(z));
      }
      ConsSorted(x, ys);
    } else {
      var rest := Insert(x, ys[1..]);
      InsertSorted(x, ys[1..]);
      KeyGeTotalPreorder(Key(x), Key(ys[0]), Key(x));
      forall z | z in rest ensures KeyGe(Key(ys[0]), Key(z)) {
        assert z in multiset(rest);
        if z != x {
          assert z in ys[1..];
        }
      }
      ConsSorted(ys[0], rest);
    }
  }

  /** The sort stage of the projection: a stable insertion sort by `Key`. */
  function SortByRelVol(es: seq<Entry>): (r: seq<Entry>)
    ensures multiset(r) == multiset(es)
    ensures Sorted(r)
    decreases |es|
  {
    if es == [] then []
    else
      assert es == [es[0]] + es[1..];
      InsertSorted(es[0], SortByRelVol(es[1..]));
      Insert(es[0], SortByRelVol(es[1..]))
  }

  /** Selects the entries whose key is `k`. */
  function HasKey(k: Option<real>): Entry -> bool
  {
    (e: Entry) => Key(e) == k
  }

  lemma {:induction false} InsertSelect(x: Entry, ys: seq<Entry>, k: Option<real>)
    ensures Filter(Insert(x, ys), HasKey(k)) ==
      if Key(x) == k then [x] + Filter(ys, HasKey(k)) else Filter(ys, HasKey(k))
    decreases |ys|
  {
    if ys != [] && !KeyGe(Key(x), Key(ys[0])) {
      InsertSelect(x, ys[1..], k);
      assert Insert(x, ys) == [ys[0]] + Insert(x, ys[1..]);
      assert Key(ys[0]) != Key(x);
    }
  }

  /** Stability: for every key, the entries with that key appear in the
      output in the order they had in the input. */
  lemma {:induction false} SortStable(es: seq<Entry>, k: Option<real>)
    ensures Filter(SortByRelVol(es), HasKey(k)) == Filter(es, HasKey(k))
    decreases |es|
  {
    if es != [] {
      InsertSelect(es[0], SortByRelVol(es[1..]), k);
      SortStable(es[1..], k);
    }
  }

  /** Two entries with equal keys stand in the output in their input order. */
  lemma SortKeepsTies(es: seq<Entry>, i: nat, j: nat)
    requires i < j < |SortByRelVol(es)|
    requires Key(SortByRelVol(es)[i]) == Key(SortByRelVol(es)[j])
    ensures exists p, q :: 0 <= p < q < |es| && es[p] == SortByRelVol(es)[i] && es[q] == SortByRelVol(es)[j]
  {
    var out := SortByRelVol(es);
    var k := Key(out[i]);
    FilterKeepsPair(out, HasKey(k), i, j);
    var p, q :| 0 <= p < q < |Filter(out, HasKey(k))| &&
      Filter(out, HasKey(k))[p] == out[i] && Filter(out, HasKey(k))[q] == out[j];
    SortStable(es, k);
    FilterKeepsOrder(es, HasKey(k), p, q);
  }

  lemma SelectsHead(a: seq<Entry>)
    ensures a != [] ==> Filter(a, HasKey(Key(a[0]))) != []
  {
    if a != [] {
      assert a[0] in Filter(a, HasKey(Key(a[0])));
    }
  }

  /** Of two sorted sequences that agree, key by key, on their entries,
      neither can start with a larger key than the other. */
  lemma HeadKeysAgree(a: seq<Entry>, b: seq<Entry>)
    requires Sorted(a) && Sorted(b) && a != [] && b != []
    requires forall k :: Filter(a, HasKey(k)) == Filter(b, HasKey(k))
    ensures Key(a[0]) == Key(b[0])
  {
    var ka, kb := Key(a[0]), Key(b[0]);
    assert a[0] in Filter(a, HasKey(ka));
    assert a[0] in Filter(b, HasKey(ka));
    var j :| 0 <= j < |b| && b[j] == a[0];
    assert KeyGe(kb, ka);
    assert b[0] in Filter(b, HasKey(kb));
    assert b[0] in Filter(a, HasKey(kb));
    var i :| 0 <= i < |a| && a[i] == b[0];
    assert KeyGe(ka, kb);
    KeyGeTotalPreorder(ka, kb, kb);
  }

  /** Two sorted sequences that agree, key by key, on the order of their
      entries are equal. */
  lemma {:induction false} SortedStableUnique(a: seq<Entry>, b: seq<Entry>)
    requires Sorted(a) && Sorted(b)
    requires forall k :: Filter(a, HasKey(k)) == Filter(b, HasKey(k))
    ensures a == b
    decreases |a|
  {
    if a == [] && b == [] {
    } else if a == [] || b == [] {
      SelectsHead(a);
      SelectsHead(b);
      assert false;
    } else {
      HeadKeysAgree(a, b);
      var k0 := Key(a[0]);
      assert Filter(a, HasKey(k0)) == [a[0]] + Filter(a[1..], HasKey(k0));
      assert Filter(b, HasKey(k0)) == [b[0]] + Filter(b[1..], HasKey(k0));
      assert Filter(a, HasKey(k0)) == Filter(b, HasKey(k0));
      assert a[0] == Filter(a, HasKey(k0))[0] == b[0];
      forall k ensures Filter(a[1..], HasKey(k)) == Filter(b[1..], HasKey(k)) {
        assert Filter(a, HasKey(k)) == Filter(b, HasKey(k));
        if k == k0 {
          assert Filter(a, HasKey(k0))[1..] == Filter(a[1..], HasKey(k0));
          assert Filter(b, HasKey(k0))[1..] == Filter(b[1..], HasKey(k0));
        } else {
          assert !HasKey(k)(a[0]) && !HasKey(k)(b[0]);
        }
      }
      SortedStableUnique(a[1..], b[1..]);
      assert a == [a[0]] + a[1..] && b == [b[0]] + b[1..];
    }
  }

  /** Every stable sort by the comparator gives the same result, whatever
      algorithm the runtime uses: an output that is sorted and keeps the
      input order among equal keys is `SortByRelVol` of the input. */
  lemma StableSortIsSortByRelVol(es: seq<Entry>, out: seq<Entry>)
    requires Sorted(out)
    requires forall k :: Filter(out, HasKey(k)) == Filter(es, HasKey(k))
    ensures out == SortByRelVol(es)
  {
    forall k ensures Filter(out, HasKey(k)) == Filter(SortByRelVol(es), HasKey(k)) {
      SortStable(es, k);
    }
    SortedStableUnique(out, SortByRelVol(es));
  }
}
