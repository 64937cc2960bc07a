/**
 * The orderings used before display: `sorted(composers.items(), key=points,
 * reverse=True)` (main.py:69) and the same by percentage for the publishers
 * (main.py:74). Python's sort is stable, and `reverse=True` keeps records
 * with equal keys in their original (first-seen) order.
 */
module Ranking {
  import opened Ledger
  import opened Aggregator

  datatype SortKey = ByPoints | ByPercentage

  function Key(h: Holder, key: SortKey): real {
    match key
    case ByPoints => h.points as real
    case ByPercentage => h.percentage
  }

  /** Highest key first. */
  predicate Descending(hs: seq<Holder>, key: SortKey) {
    forall i, j :: 0 <= i < j < |hs| ==> Key(hs[j], key) <= Key(hs[i], key)
  }

  /** The records of `hs` whose key is `v`, in their order in `hs`. */
  function WithKey(hs: seq<Holder>, key: SortKey, v: real): seq<Holder> {
    if hs == [] then []
    else (if Key(hs[0], key) == v then [hs[0]] else []) + WithKey(hs[1..], key, v)
  }

  /** Put `x` before the first record whose key is not greater than its own. */
  function Insert(x: Holder, hs: seq<Holder>, key: SortKey): (r: seq<Holder>)
    requires Descending(hs, key)
    ensures Descending(r, key)
    ensures multiset(r) == multiset(hs) + multiset{x}
  {
    if hs == [] then [x]
    else if Key(hs[0], key) <= Key(x, key) then [x] + hs
    else
      var rest := Insert(x, hs[1..], key);
      assert hs == [hs[0]] + hs[1..];
      BelowHead(x, hs, rest, key);
      [hs[0]] + rest
  }

  /** Every record of `rest`, a permutation of `hs[1..]` and `x`, ranks no higher than `hs[0]`. */
  lemma BelowHead(x: Holder, hs: seq<Holder>, rest: seq<Holder>, key: SortKey)
    requires hs != [] && Descending(hs, key) && Key(x, key) < Key(hs[0], key)
    requires multiset(rest) == multiset(hs[1..]) + multiset{x}
    ensures forall k :: 0 <= k < |rest| ==> Key(rest[k], key) <= Key(hs[0], key)
  {
    forall k | 0 <= k < |rest|
      ensures Key(rest[k], key) <= Key(hs[0], key)
    {
      assert rest[k] in multiset(rest);
      if rest[k] != x {
        assert rest[k] in hs[1..];
        var m :| 0 <= m < |hs| - 1 && hs[1..][m] == rest[k];
        assert hs[m + 1] == rest[k];
      }
    }
  }

  /** `sorted(hs, key=..., reverse=True)`: descending and a permutation of `hs`. */
  function SortDescending(hs: seq<Holder>, key: SortKey): (r: seq<Holder>)
    ensures Descending(r, key)
    ensures multiset(r) == multiset(hs)
  {
    if hs == [] then []
    else
      assert hs == [hs[0]] + hs[1..];
      Insert(hs[0], SortDescending(hs[1..], key), key)
  }

  /** Inserting `x` puts it ahead of every record with its key, and keeps all others' order. */
  lemma {:induction false} InsertWithKey(x: Holder, hs: seq<Holder>, key: SortKey, v: real)
    requires Descending(hs, key)
    ensures WithKey(Insert(x, hs, key), key, v) == (if Key(x, key) == v then [x] else []) + WithKey(hs, key, v)
  {
    if hs == [] {
      WithKeyCons(x, [], key, v);
    } else if Key(hs[0], key) <= Key(x, key) {
      WithKeyCons(x, hs, key, v);
    } else {
      var rest := Insert(x, hs[1..], key);
      var own := if Key(x, key) == v then [x] else [];
      var first := if Key(hs[0], key) == v then [hs[0]] else [];
      var tail := WithKey(hs[1..], key, v);
      InsertWithKey(x, hs[1..], key, v);
      WithKeyCons(hs[0], rest, key, v);
      assert WithKey(hs, key, v) == first + tail;
      assert own == [] || first == [];
      if own == [] {
        assert own + tail == tail;
        assert own + (first + tail) == first + tail;
      } else {
        assert first + (own + tail) == own + tail;
        assert first + tail == tail;
      }
    }
  }

  lemma WithKeyCons(h: Holder, hs: seq<Holder>, key: SortKey, v: real)
    ensures WithKey([h] + hs, key, v) == (if Key(h, key) == v then [h] else []) + WithKey(hs, key, v)
  {
    assert ([h] + hs)[1..] == hs;
  }

  /** Stability: records with equal keys keep their relative order. */
  lemma {:induction false} SortStable(hs: seq<Holder>, key: SortKey, v: real)
    ensures WithKey(SortDescending(hs, key), key, v) == WithKey(hs, key, v)
  {
    if hs != [] {
      SortStable(hs[1..], key, v);
      InsertWithKey(hs[0], SortDescending(hs[1..], key), key, v);
    }
  }

  /** Two keys that order the records of `hs` alike. */
  predicate SameOrder(hs: seq<Holder>, k1: SortKey, k2: SortKey) {
    forall x, y :: x in hs && y in hs ==> (Key(x, k1) <= Key(y, k1) <==> Key(x, k2) <= Key(y, k2))
  }

  lemma {:induction false} InsertSameOrder(x: Holder, hs: seq<Holder>, all: seq<Holder>, k1: SortKey, k2: SortKey)
    requires Descending(hs, k1) && Descending(hs, k2)
    requires SameOrder(all, k1, k2) && x in all && forall k :: 0 <= k < |hs| ==> hs[k] in all
    ensures Insert(x, hs, k1) == Insert(x, hs, k2)
  {
    if hs != [] {
      assert hs[0] in all;
      InsertSameOrder(x, hs[1..], all, k1, k2);
    }
  }

  /** Sorting by either of two keys that order the records alike gives the same sequence. */
  lemma {:induction false} SortSameOrder(hs: seq<Holder>, all: seq<Holder>, k1: SortKey, k2: SortKey)
    requires SameOrder(all, k1, k2) && forall k :: 0 <= k < |hs| ==> hs[k] in all
    ensures SortDescending(hs, k1) == SortDescending(hs, k2)
  {
    if hs != [] {
      SortSameOrder(hs[1..], all, k1, k2);
      var sorted := SortDescending(hs[1..], k1);
      forall k | 0 <= k < |sorted|
        ensures sorted[k] in all
      {
        assert sorted[k] in multiset(hs[1..]);
      }
      assert hs[0] in all;
      InsertSameOrder(hs[0], sorted, all, k1, k2);
    }
  }

  /**
   * In a report, points and percentage rank the records alike, so sorting
   * the composers by percentage would list them as the sort by points does.
   */
  lemma ReportKeysAgree(sheet: Sheet, role: Role)
    requires HasColumns(sheet)
    ensures SortDescending(Holders(Aggregate(sheet).value, role), ByPoints)
         == SortDescending(Holders(Aggregate(sheet).value, role), ByPercentage)
  {
    var full := FullRows(sheet.rows);
    ReportConservation(sheet, role);
    if full != [] {
      NormalizedKeysAgree(LedgerOf(full, role), |full|);
    }
  }

  /** Sorting a normalized ledger by points or by percentage gives the same order. */
  lemma NormalizedKeysAgree(ts: seq<Tally>, numTracks: nat)
    requires numTracks > 0
    ensures SortDescending(Normalized(ts, numTracks), ByPoints) == SortDescending(Normalized(ts, numTracks), ByPercentage)
  {
    var hs := Normalized(ts, numTracks);
    PercentageRanksAsPoints(ts, numTracks);
    SortSameOrder(hs, hs, ByPoints, ByPercentage);
  }

  /** Records whose percentage is their points over the same track count rank alike by either. */
  lemma PercentageRanksAsPoints(ts: seq<Tally>, numTracks: nat)
    requires numTracks > 0
    ensures SameOrder(Normalized(ts, numTracks), ByPoints, ByPercentage)
  {
    var hs := Normalized(ts, numTracks);
    forall x, y | x in hs && y in hs
      ensures Key(x, ByPoints) <= Key(y, ByPoints) <==> Key(x, ByPercentage) <= Key(y, ByPercentage)
    {
      var i :| 0 <= i < |hs| && hs[i] == x;
      var j :| 0 <= j < |hs| && hs[j] == y;
      PercentageMonotone(x.points, y.points, numTracks);
    }
  }

  /** Dividing by the same number of tracks keeps the order of the points. */
  lemma PercentageMonotone(p: nat, q: nat, numTracks: nat)
    requires numTracks > 0
    ensures Percentage(p, numTracks) <= Percentage(q, numTracks) <==> p <= q
  {
    var d := (numTracks * 100) as real;
    assert d > 0.0;
    if p <= q {
      assert p as real / d <= q as real / d;
    } else {
      assert q as real / d < p as real / d;
    }
  }
}
