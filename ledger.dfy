/**
 * The insertion-ordered dictionaries `composers` and `publishers` of
 * `process_file` (main.py:23-24, 37-38, 45-46): name -> {'pro', 'ipi',
 * 'points'}. A ledger is a sequence of records with distinct names, in the
 * order the names were first inserted, which is the iteration order of a
 * Python `dict`.
 */
module Ledger {
  import opened Wrappers
  import opened EntryParser

  /** One record: `{'pro': pro, 'ipi': ipi, 'points': points}` under key `name`. */
  datatype Tally = Tally(name: string, pro: string, ipi: string, points: nat)

  function Names(ts: seq<Tally>): seq<string> {
    seq(|ts|, k requires 0 <= k < |ts| => ts[k].name)
  }

  /** The keys of a dictionary are distinct. */
  predicate DistinctNames(ts: seq<Tally>) {
    forall a, b :: 0 <= a < b < |ts| ==> ts[a].name != ts[b].name
  }

  /** Where key `name` is stored, if anywhere. */
  function Find(ts: seq<Tally>, name: string): (r: Option<nat>)
    ensures r.Some? ==> r.value < |ts| && ts[r.value].name == name
    ensures r.None? ==> forall k :: 0 <= k < |ts| ==> ts[k].name != name
  {
    if ts == [] then None
    else if ts[0].name == name then Some(0)
    else
      match Find(ts[1..], name)
      case None => None
      case Some(k) => Some(k + 1)
  }

  /** `d.get(name)`: the record stored under `name`, if any. */
  function Lookup(ts: seq<Tally>, name: string): (r: Option<Tally>)
    ensures r.Some? ==> r.value.name == name && exists k :: 0 <= k < |ts| && ts[k] == r.value
    ensures r.None? ==> name !in Names(ts)
  {
    match Find(ts, name)
    case Some(k) => Some(ts[k])
    case None => None
  }

  /**
   * `d[name] = d.get(name, {'pro': pro, 'ipi': ipi, 'points': 0})` followed by
   * `d[name]['points'] += share`: an existing record keeps its place, its PRO
   * and its IPI and only gains points; a new name is appended.
   */
  function Credit(ts: seq<Tally>, e: Entry): seq<Tally> {
    match Find(ts, e.name)
    case Some(k) => ts[k := ts[k].(points := ts[k].points + e.share)]
    case None => ts + [Tally(e.name, e.pro, e.ipi, e.share)]
  }

  /** The ledger after crediting the entries `es` in order, starting from `ts`. */
  function Tallied(ts: seq<Tally>, es: seq<Entry>): seq<Tally> {
    if es == [] then ts else Credit(Tallied(ts, es[..|es| - 1]), es[|es| - 1])
  }

  // ---------------------------------------------------------------------------
  // Reference quantities the lemmas compare the ledger with

  /** The total share of the entries named `name`. */
  function SharesOf(es: seq<Entry>, name: string): nat {
    if es == [] then 0
    else SharesOf(es[..|es| - 1], name) + (if es[|es| - 1].name == name then es[|es| - 1].share else 0)
  }

  /** The total share of all entries. */
  function TotalShares(es: seq<Entry>): nat {
    if es == [] then 0 else TotalShares(es[..|es| - 1]) + es[|es| - 1].share
  }

  /** The total points of all records. */
  function TotalPoints(ts: seq<Tally>): nat {
    if ts == [] then 0 else TotalPoints(ts[..|ts| - 1]) + ts[|ts| - 1].points
  }

  function EntryNames(es: seq<Entry>): seq<string> {
    seq(|es|, k requires 0 <= k < |es| => es[k].name)
  }

  /** The distinct elements of `ns`, in the order of their first occurrence. */
  function FirstSeen(ns: seq<string>): seq<string> {
    if ns == [] then []
    else
      var seen := FirstSeen(ns[..|ns| - 1]);
      if ns[|ns| - 1] in seen then seen else seen + [ns[|ns| - 1]]
  }

  // ---------------------------------------------------------------------------
  // One credit

  /** In a dictionary with distinct keys, any position holding `ts[k].name` is the one found. */
  lemma FindAt(ts: seq<Tally>, k: nat)
    requires DistinctNames(ts) && k < |ts|
    ensures Find(ts, ts[k].name) == Some(k)
  {
  }

  /** Crediting an entry keeps the keys distinct and adds its share to the total. */
  lemma CreditKeeps(ts: seq<Tally>, e: Entry)
    requires DistinctNames(ts)
    ensures DistinctNames(Credit(ts, e))
    ensures TotalPoints(Credit(ts, e)) == TotalPoints(ts) + e.share
    ensures Names(Credit(ts, e)) == if e.name in Names(ts) then Names(ts) else Names(ts) + [e.name]
  {
    match Find(ts, e.name)
    case Some(k) =>
      assert e.name == Names(ts)[k];
      TotalPointsUpdate(ts, k, ts[k].points + e.share);
    case None =>
      var ts' := Credit(ts, e);
      assert ts'[..|ts'| - 1] == ts;
  }

  /** Raising one record's points raises the total by the same amount. */
  lemma {:induction false} TotalPointsUpdate(ts: seq<Tally>, k: nat, p: nat)
    requires k < |ts| && ts[k].points <= p
    ensures TotalPoints(ts[k := ts[k].(points := p)]) == TotalPoints(ts) + (p - ts[k].points)
  {
    var ts' := ts[k := ts[k].(points := p)];
    var n := |ts|;
    if k < n - 1 {
      assert ts'[..n - 1] == ts[..n - 1][k := ts[k].(points := p)];
      TotalPointsUpdate(ts[..n - 1], k, p);
    } else {
      assert ts'[..n - 1] == ts[..n - 1];
    }
  }

  /** Crediting an entry leaves the record of every other key as it was. */
  lemma CreditOther(ts: seq<Tally>, e: Entry, name: string)
    requires DistinctNames(ts) && name != e.name
    ensures Lookup(Credit(ts, e), name) == Lookup(ts, name)
  {
    CreditKeeps(ts, e);
    if Find(ts, name).Some? {
      FindAt(Credit(ts, e), Find(ts, name).value);
    }
  }

  /** An entry whose name is already a key only adds its share to that record. */
  lemma CreditExisting(ts: seq<Tally>, e: Entry, t: Tally)
    requires DistinctNames(ts) && Lookup(ts, e.name) == Some(t)
    ensures Lookup(Credit(ts, e), e.name) == Some(t.(points := t.points + e.share))
  {
    var k := Find(ts, e.name).value;
    assert ts[k] == t;
    var updated := ts[k := t.(points := t.points + e.share)];
    assert Credit(ts, e) == updated;
    CreditKeeps(ts, e);
    FindAt(updated, k);
  }

  /** An entry with a new name creates a record with its own PRO, IPI and share. */
  lemma CreditNew(ts: seq<Tally>, e: Entry)
    requires DistinctNames(ts) && Lookup(ts, e.name) == None
    ensures Lookup(Credit(ts, e), e.name) == Some(Tally(e.name, e.pro, e.ipi, e.share))
  {
    CreditKeeps(ts, e);
    FindAt(Credit(ts, e), |ts|);
  }

  // ---------------------------------------------------------------------------
  // Many credits

  /** Crediting two runs of entries one after the other is crediting their concatenation. */
  lemma {:induction false} TalliedAppend(ts: seq<Tally>, es: seq<Entry>, more: seq<Entry>)
    ensures Tallied(ts, es + more) == Tallied(Tallied(ts, es), more)
    decreases |more|
  {
    if more == [] {
      assert es + more == es;
    } else {
      var all := es + more;
      assert all[..|all| - 1] == es + more[..|more| - 1];
      TalliedAppend(ts, es, more[..|more| - 1]);
    }
  }

  /** The shares of consecutive runs of entries add up. */
  lemma {:induction false} TotalSharesAppend(es: seq<Entry>, more: seq<Entry>)
    ensures TotalShares(es + more) == TotalShares(es) + TotalShares(more)
    decreases |more|
  {
    if more == [] {
      assert es + more == es;
    } else {
      var all := es + more;
      assert all[..|all| - 1] == es + more[..|more| - 1];
      TotalSharesAppend(es, more[..|more| - 1]);
    }
  }

  /** Conservation: the points of a ledger grow by exactly the total share credited. */
  lemma {:induction false} TalliedTotal(ts: seq<Tally>, es: seq<Entry>)
    requires DistinctNames(ts)
    ensures DistinctNames(Tallied(ts, es))
    ensures TotalPoints(Tallied(ts, es)) == TotalPoints(ts) + TotalShares(es)
  {
    if es != [] {
      TalliedTotal(ts, es[..|es| - 1]);
      CreditKeeps(Tallied(ts, es[..|es| - 1]), es[|es| - 1]);
    }
  }

  /** A name no entry carries has no record in a fresh ledger, and no share. */
  lemma {:induction false} TalliedAbsent(es: seq<Entry>, name: string)
    requires forall m :: 0 <= m < |es| ==> es[m].name != name
    ensures Lookup(Tallied([], es), name) == None
    ensures SharesOf(es, name) == 0
  {
    if es != [] {
      TalliedAbsent(es[..|es| - 1], name);
      TalliedTotal([], es[..|es| - 1]);
      CreditOther(Tallied([], es[..|es| - 1]), es[|es| - 1], name);
    }
  }

  /**
   * First write wins, points add up: when `es[m]` is the first entry with its
   * name, the ledger's record for that name carries the PRO and IPI of
   * `es[m]` and the total share of every entry with that name.
   */
  lemma {:induction false} TalliedFirstWins(es: seq<Entry>, m: nat)
    requires m < |es|
    requires forall m' :: 0 <= m' < m ==> es[m'].name != es[m].name
    ensures Lookup(Tallied([], es), es[m].name)
         == Some(Tally(es[m].name, es[m].pro, es[m].ipi, SharesOf(es, es[m].name)))
  {
    var n := |es|;
    var prefix := es[..n - 1];
    if m == n - 1 {
      forall m' | 0 <= m' < |prefix|
        ensures prefix[m'].name != es[m].name
      {
        assert prefix[m'] == es[m'];
      }
      TalliedAbsent(prefix, es[m].name);
      FirstWinsNew(es);
    } else {
      assert prefix[m] == es[m];
      forall m' | 0 <= m' < m
        ensures prefix[m'].name != prefix[m].name
      {
        assert prefix[m'] == es[m'];
      }
      TalliedFirstWins(prefix, m);
      FirstWinsLater(es, es[m]);
    }
  }

  /** The step of `TalliedFirstWins` where the last entry is the first with its name. */
  lemma FirstWinsNew(es: seq<Entry>)
    requires es != []
    requires Lookup(Tallied([], es[..|es| - 1]), es[|es| - 1].name) == None
    requires SharesOf(es[..|es| - 1], es[|es| - 1].name) == 0
    ensures Lookup(Tallied([], es), es[|es| - 1].name)
         == Some(Tally(es[|es| - 1].name, es[|es| - 1].pro, es[|es| - 1].ipi, SharesOf(es, es[|es| - 1].name)))
  {
    TalliedTotal([], es[..|es| - 1]);
    CreditNew(Tallied([], es[..|es| - 1]), es[|es| - 1]);
  }

  /** The step of `TalliedFirstWins` where the record of `e` already exists before the last entry. */
  lemma FirstWinsLater(es: seq<Entry>, e: Entry)
    requires es != []
    requires Lookup(Tallied([], es[..|es| - 1]), e.name)
          == Some(Tally(e.name, e.pro, e.ipi, SharesOf(es[..|es| - 1], e.name)))
    ensures Lookup(Tallied([], es), e.name) == Some(Tally(e.name, e.pro, e.ipi, SharesOf(es, e.name)))
  {
    var prefix := es[..|es| - 1];
    var last := es[|es| - 1];
    assert Tallied([], es) == Credit(Tallied([], prefix), last);
    assert SharesOf(es, e.name) == SharesOf(prefix, e.name) + (if last.name == e.name then last.share else 0);
    TalliedTotal([], prefix);
    var before := Tallied([], prefix);
    var goal := Tally(e.name, e.pro, e.ipi, SharesOf(es, e.name));
    if last.name == e.name {
      var t := Tally(e.name, e.pro, e.ipi, SharesOf(prefix, e.name));
      CreditExisting(before, last, t);
      assert t.(points := t.points + last.share) == goal;
      assert Lookup(Credit(before, last), e.name) == Some(goal);
    } else {
      CreditOther(before, last, e.name);
    }
  }

  /** The keys of a fresh ledger are the entries' names, in order of first appearance. */
  lemma {:induction false} TalliedOrder(es: seq<Entry>)
    ensures Names(Tallied([], es)) == FirstSeen(EntryNames(es))
  {
    if es != [] {
      var n := |es|;
      var before := Tallied([], es[..n - 1]);
      TalliedOrder(es[..n - 1]);
      TalliedTotal([], es[..n - 1]);
      CreditKeeps(before, es[n - 1]);
      EntryNamesSnoc(es);
      FirstSeenSnoc(EntryNames(es[..n - 1]), es[n - 1].name);
    }
  }

  /** One more name is kept only when it has not been seen. */
  lemma FirstSeenSnoc(ns: seq<string>, x: string)
    ensures FirstSeen(ns + [x]) == if x in FirstSeen(ns) then FirstSeen(ns) else FirstSeen(ns) + [x]
  {
    assert (ns + [x])[..|ns|] == ns;
  }

  lemma EntryNamesSnoc(es: seq<Entry>)
    requires es != []
    ensures EntryNames(es) == EntryNames(es[..|es| - 1]) + [es[|es| - 1].name]
  {
  }
}
