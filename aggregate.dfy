/**
 * `process_file` (main.py:20-57): keep the rows whose column 18 contains
 * "Full", credit every accepted composer entry of column 22 and publisher
 * entry of column 26 to its ledger, and turn points into percentages of
 * `num_tracks * 100`.
 *
 * The workbook is given already loaded: a sheet is its column count and, per
 * row, the `str()` of the three cells the code reads (an empty cell reads
 * "nan").
 */
module Aggregator {
  import opened Wrappers
  import opened PyText
  import opened EntryParser
  import opened Ledger

  /** The three cells of one row that `process_file` reads, as strings. */
  datatype Row = Row(marker: string, composers: string, publishers: string)

  /** A sheet read with `header=None`: columns `0 .. width - 1`, and its rows. */
  datatype Sheet = Sheet(width: nat, rows: seq<Row>)

  datatype Role = Composers | Publishers

  /** A ledger record after `'percentage'` has been added to it. */
  datatype Holder = Holder(name: string, pro: string, ipi: string, points: nat, percentage: real)

  /** `(composers, publishers, num_tracks, total_points_possible)` when the columns exist. */
  datatype Report = Report(composers: seq<Holder>, publishers: seq<Holder>, numTracks: nat, totalPoints: nat)

  const MarkerColumn: nat := 18
  const ComposerColumn: nat := 22
  const PublisherColumn: nat := 26

  predicate HasColumns(sheet: Sheet) {
    MarkerColumn < sheet.width && ComposerColumn < sheet.width && PublisherColumn < sheet.width
  }

  /** `df[18].astype(str).str.contains('Full')` for one row. */
  predicate IsFull(row: Row) {
    Contains(row.marker, "Full")
  }

  /** The rows of `df_full_tracks`, in sheet order. */
  function FullRows(rows: seq<Row>): (full: seq<Row>)
    ensures |full| <= |rows|
    ensures forall k :: 0 <= k < |full| ==> IsFull(full[k])
  {
    if rows == [] then []
    else FullRows(rows[..|rows| - 1]) + (if IsFull(rows[|rows| - 1]) then [rows[|rows| - 1]] else [])
  }

  /** The kept rows are exactly the sheet's full rows. */
  lemma {:induction false} FullRowsMembers(rows: seq<Row>)
    ensures forall r :: r in FullRows(rows) <==> r in rows && IsFull(r)
  {
    if rows != [] {
      var last := rows[|rows| - 1];
      FullRowsMembers(rows[..|rows| - 1]);
      assert rows == rows[..|rows| - 1] + [last];
    }
  }

  /** A one-row sheet keeps its row exactly when the row is full. */
  lemma FullRowsSingle(row: Row)
    ensures FullRows([row]) == if IsFull(row) then [row] else []
  {
    assert [row][..0] == [];
  }

  /** The positions of the qualifying rows: an independent count of the tracks. */
  function FullIndices(rows: seq<Row>): set<int> {
    set i | 0 <= i < |rows| && IsFull(rows[i])
  }

  function Field(row: Row, role: Role): string {
    match role
    case Composers => row.composers
    case Publishers => row.publishers
  }

  /** What one token adds to a ledger: its entry when it parses and the name is not empty (`if name:`). */
  function Kept(token: string): seq<Entry> {
    match ParseEntry(token)
    case Some(e) => if e.name != "" then [e] else []
    case None => []
  }

  /** The entries of a run of tokens that reach the ledger, in order. */
  function Accepted(tokens: seq<string>): (es: seq<Entry>)
    ensures |es| <= |tokens|
    ensures forall k :: 0 <= k < |es| ==> es[k].name != ""
  {
    if tokens == [] then [] else Accepted(tokens[..|tokens| - 1]) + Kept(tokens[|tokens| - 1])
  }

  /** The entries one row credits for one role: its cell split at every ','. */
  function RowEntries(row: Row, role: Role): seq<Entry> {
    Accepted(Split(Field(row, role), ','))
  }

  /** The entries a run of rows credits for one role, row by row. */
  function Entries(rows: seq<Row>, role: Role): seq<Entry> {
    if rows == [] then [] else Entries(rows[..|rows| - 1], role) + RowEntries(rows[|rows| - 1], role)
  }

  /** `composers` or `publishers` after the row loop, for the rows `full`. */
  function LedgerOf(full: seq<Row>, role: Role): seq<Tally> {
    Tallied([], Entries(full, role))
  }

  /** `(points / total_points_possible) * 100`, computed exactly. */
  function Percentage(points: nat, numTracks: nat): real
    requires numTracks > 0
  {
    (points as real / (numTracks * 100) as real) * 100.0
  }

  /** The ledger with every record's percentage of the album added. */
  function Normalized(ts: seq<Tally>, numTracks: nat): (hs: seq<Holder>)
    requires numTracks > 0 || ts == []
    ensures |hs| == |ts|
    ensures forall k :: 0 <= k < |ts| ==>
      hs[k] == Holder(ts[k].name, ts[k].pro, ts[k].ipi, ts[k].points, Percentage(ts[k].points, numTracks))
  {
    if ts == [] then []
    else
      var t := ts[|ts| - 1];
      Normalized(ts[..|ts| - 1], numTracks) + [Holder(t.name, t.pro, t.ipi, t.points, Percentage(t.points, numTracks))]
  }

  /** What `process_file` returns: `None` stands for `(None, None, 0, 0)`. */
  function Aggregate(sheet: Sheet): (r: Option<Report>)
    ensures r.None? <==> !HasColumns(sheet)
    ensures r.Some? ==> r.value.numTracks == |FullIndices(sheet.rows)|
    ensures r.Some? ==> r.value.totalPoints == 100 * r.value.numTracks
  {
    if !HasColumns(sheet) then None
    else
      var full := FullRows(sheet.rows);
      var n := |full|;
      FullRowsCount(sheet.rows);
      Some(Report(Normalized(LedgerOf(full, Composers), n), Normalized(LedgerOf(full, Publishers), n), n, n * 100))
  }

  function Holders(report: Report, role: Role): seq<Holder> {
    match role
    case Composers => report.composers
    case Publishers => report.publishers
  }

  function SumPercentages(hs: seq<Holder>): real {
    if hs == [] then 0.0 else SumPercentages(hs[..|hs| - 1]) + hs[|hs| - 1].percentage
  }

  function HolderNames(hs: seq<Holder>): seq<string> {
    seq(|hs|, k requires 0 <= k < |hs| => hs[k].name)
  }

  // ---------------------------------------------------------------------------
  // The imperative loops of process_file

  /** The loop over one cell's comma-separated tokens (main.py:33-38 and 41-46). */
  method AccumulateField(ledger: seq<Tally>, field: string) returns (updated: seq<Tally>)
    ensures updated == Tallied(ledger, Accepted(Split(field, ',')))
  {
    var tokens := Split(field, ',');
    updated := ledger;
    for i := 0 to |tokens|
      invariant updated == Tallied(ledger, Accepted(tokens[..i]))
    {
      var parsed := ParseEntry(tokens[i]);
      ghost var kept := Kept(tokens[i]);
      assert tokens[..i + 1][..i] == tokens[..i];
      assert Accepted(tokens[..i + 1]) == Accepted(tokens[..i]) + kept;
      TalliedAppend(ledger, Accepted(tokens[..i]), kept);
      if parsed.Some? && parsed.value.name != "" {
        assert kept == [parsed.value];
        assert Tallied(updated, kept) == Credit(Tallied(updated, []), parsed.value);
        updated := Credit(updated, parsed.value);
      } else {
        assert kept == [];
      }
    }
    assert tokens[..|tokens|] == tokens;
  }

  /** The two loops that add `'percentage'` to every record (main.py:48-53). */
  method Normalize(ledger: seq<Tally>, numTracks: nat) returns (holders: seq<Holder>)
    requires numTracks > 0 || ledger == []
    ensures holders == Normalized(ledger, numTracks)
  {
    var totalPointsPossible := numTracks * 100;
    holders := [];
    for k := 0 to |ledger|
      invariant holders == Normalized(ledger[..k], numTracks)
    {
      var t := ledger[k];
      assert ledger[..k + 1][..k] == ledger[..k];
      holders := holders + [Holder(t.name, t.pro, t.ipi, t.points, (t.points as real / totalPointsPossible as real) * 100.0)];
    }
    assert ledger[..|ledger|] == ledger;
  }

  /** `process_file` after the workbook has been read (main.py:23-57). */
  method ProcessFile(sheet: Sheet) returns (r: Option<Report>)
    ensures r == Aggregate(sheet)
  {
    if !HasColumns(sheet) {
      return None;
    }
    var full := FullRows(sheet.rows);
    var numTracks := |full|;
    var composers: seq<Tally> := [];
    var publishers: seq<Tally> := [];
    for i := 0 to |full|
      invariant composers == LedgerOf(full[..i], Composers)
      invariant publishers == LedgerOf(full[..i], Publishers)
    {
      composers := AccumulateField(composers, full[i].composers);
      publishers := AccumulateField(publishers, full[i].publishers);
      LedgerStep(full, i, Composers);
      LedgerStep(full, i, Publishers);
    }
    assert full[..|full|] == full;
    var totalPointsPossible := numTracks * 100;
    var composerHolders := Normalize(composers, numTracks);
    var publisherHolders := Normalize(publishers, numTracks);
    r := Some(Report(composerHolders, publisherHolders, numTracks, totalPointsPossible));
  }

  // ---------------------------------------------------------------------------
  // Lemmas

  /** One more row adds its entries to the ledger. */
  lemma LedgerStep(full: seq<Row>, i: nat, role: Role)
    requires i < |full|
    ensures LedgerOf(full[..i + 1], role) == Tallied(LedgerOf(full[..i], role), Accepted(Split(Field(full[i], role), ',')))
  {
    assert full[..i + 1][..i] == full[..i];
    TalliedAppend([], Entries(full[..i], role), RowEntries(full[i], role));
  }

  /** The stored percentage times the number of tracks is the points. */
  lemma PercentageOfAlbum(points: nat, numTracks: nat)
    requires numTracks > 0
    ensures Percentage(points, numTracks) * numTracks as real == points as real
  {
    var d := (numTracks * 100) as real;
    var q := points as real / d;
    assert d == numTracks as real * 100.0;
    assert q * d == points as real;
    calc {
      Percentage(points, numTracks) * numTracks as real;
      q * 100.0 * numTracks as real;
      q * d;
    }
  }

  /** `num_tracks` is the number of rows whose marker contains "Full". */
  lemma {:induction false} FullRowsCount(rows: seq<Row>)
    ensures |FullRows(rows)| == |FullIndices(rows)|
  {
    if rows != [] {
      var n := |rows| - 1;
      var prefix := rows[..n];
      FullRowsCount(prefix);
      var before := FullIndices(prefix);
      forall i | 0 <= i < n
        ensures (i in FullIndices(rows)) <==> (i in before)
      {
        assert rows[i] == prefix[i];
      }
      assert n !in before;
      if IsFull(rows[n]) {
        assert FullIndices(rows) == before + {n};
        assert |FullRows(rows)| == |FullRows(prefix)| + 1;
      } else {
        assert FullIndices(rows) == before;
        assert FullRows(rows) == FullRows(prefix);
      }
    }
  }

  /** Filtering rows distributes over concatenation. */
  lemma {:induction false} FullRowsAppend(a: seq<Row>, b: seq<Row>)
    ensures FullRows(a + b) == FullRows(a) + FullRows(b)
    decreases |b|
  {
    if b == [] {
      assert a + b == a;
    } else {
      var ab := a + b;
      assert ab[..|ab| - 1] == a + b[..|b| - 1];
      FullRowsAppend(a, b[..|b| - 1]);
    }
  }

  /** A row whose marker does not contain "Full" changes nothing, wherever it sits. */
  lemma NonFullRowIgnored(width: nat, a: seq<Row>, row: Row, b: seq<Row>)
    requires !IsFull(row)
    ensures Aggregate(Sheet(width, a + [row] + b)) == Aggregate(Sheet(width, a + b))
  {
    var s1, s2 := Sheet(width, a + [row] + b), Sheet(width, a + b);
    assert FullRows(s1.rows) == FullRows(s2.rows) by {
      FullRowsAppend(a + [row], b);
      FullRowsAppend(a, [row]);
      FullRowsAppend(a, b);
      FullRowsSingle(row);
    }
    assert HasColumns(s1) == HasColumns(s2);
  }

  /**
   * The composer and publisher ledgers are accumulated independently: the
   * records of one role depend only on the markers and on that role's cells.
   */
  lemma RolesIndependent(sheet1: Sheet, sheet2: Sheet, role: Role)
    requires HasColumns(sheet1) && HasColumns(sheet2) && |sheet1.rows| == |sheet2.rows|
    requires forall k :: 0 <= k < |sheet1.rows| ==>
      sheet1.rows[k].marker == sheet2.rows[k].marker && Field(sheet1.rows[k], role) == Field(sheet2.rows[k], role)
    ensures Holders(Aggregate(sheet1).value, role) == Holders(Aggregate(sheet2).value, role)
  {
    SameRoleEntries(sheet1.rows, sheet2.rows, role);
    ReportConservation(sheet1, role);
    ReportConservation(sheet2, role);
  }

  lemma {:induction false} SameRoleEntries(rows1: seq<Row>, rows2: seq<Row>, role: Role)
    requires |rows1| == |rows2|
    requires forall k :: 0 <= k < |rows1| ==> rows1[k].marker == rows2[k].marker && Field(rows1[k], role) == Field(rows2[k], role)
    ensures |FullRows(rows1)| == |FullRows(rows2)|
    ensures Entries(FullRows(rows1), role) == Entries(FullRows(rows2), role)
  {
    if rows1 != [] {
      var n := |rows1| - 1;
      var p1, p2 := rows1[..n], rows2[..n];
      forall k | 0 <= k < n
        ensures p1[k].marker == p2[k].marker && Field(p1[k], role) == Field(p2[k], role)
      {
        assert p1[k] == rows1[k] && p2[k] == rows2[k];
      }
      SameRoleEntries(p1, p2, role);
      var a1, a2 := FullRows(p1), FullRows(p2);
      assert IsFull(rows1[n]) == IsFull(rows2[n]);
      if IsFull(rows1[n]) {
        assert FullRows(rows1) == a1 + [rows1[n]];
        assert FullRows(rows2) == a2 + [rows2[n]];
        assert (a1 + [rows1[n]])[..|a1|] == a1;
        assert (a2 + [rows2[n]])[..|a2|] == a2;
        assert RowEntries(rows1[n], role) == RowEntries(rows2[n], role);
      } else {
        assert FullRows(rows1) == a1;
        assert FullRows(rows2) == a2;
      }
    }
  }

  /**
   * One token: a token without a '(' followed by a ')' never reaches the
   * ledger, nor does one whose name strips to nothing; any other token adds
   * its parsed entry.
   */
  lemma TokenStep(tokens: seq<string>, t: string)
    ensures !WellFormed(t) ==> Accepted(tokens + [t]) == Accepted(tokens)
    ensures WellFormed(t) ==>
      && ParseEntry(t).Some?
      && Accepted(tokens + [t]) == Accepted(tokens) + (if ParseEntry(t).value.name == "" then [] else [ParseEntry(t).value])
  {
    ParseEntryFails(t);
    assert (tokens + [t])[..|tokens|] == tokens;
  }

  /** When every row's shares sum to 100, so do the shares of all rows, per row. */
  lemma {:induction false} WholeRowShares(rows: seq<Row>, role: Role)
    requires forall k :: 0 <= k < |rows| ==> TotalShares(RowEntries(rows[k], role)) == 100
    ensures TotalShares(Entries(rows, role)) == 100 * |rows|
  {
    if rows != [] {
      var prefix := rows[..|rows| - 1];
      assert forall k :: 0 <= k < |prefix| ==> prefix[k] == rows[k];
      WholeRowShares(prefix, role);
      TotalSharesAppend(Entries(prefix, role), RowEntries(rows[|rows| - 1], role));
    }
  }

  /** The percentages of a ledger add up to the percentage its total points make. */
  lemma {:induction false} PercentagesSum(ts: seq<Tally>, numTracks: nat)
    requires numTracks > 0
    ensures SumPercentages(Normalized(ts, numTracks)) == Percentage(TotalPoints(ts), numTracks)
  {
    if ts != [] {
      var hs := Normalized(ts, numTracks);
      var prefix := ts[..|ts| - 1];
      var t := ts[|ts| - 1];
      PercentagesSum(prefix, numTracks);
      assert hs[..|hs| - 1] == Normalized(prefix, numTracks);
      assert hs[|hs| - 1].percentage == Percentage(t.points, numTracks);
      assert SumPercentages(hs) == Percentage(TotalPoints(prefix), numTracks) + Percentage(t.points, numTracks);
      assert TotalPoints(ts) == TotalPoints(prefix) + t.points;
      PercentageAdd(TotalPoints(prefix), t.points, numTracks);
    }
  }

  /** Percentages of the same album add like the points they come from. */
  lemma PercentageAdd(p: nat, q: nat, numTracks: nat)
    requires numTracks > 0
    ensures Percentage(p + q, numTracks) == Percentage(p, numTracks) + Percentage(q, numTracks)
  {
    var d := (numTracks * 100) as real;
    assert (p + q) as real / d == p as real / d + q as real / d;
  }

  /** All the points of the album make 100%. */
  lemma PercentageWhole(numTracks: nat)
    requires numTracks > 0
    ensures Percentage(100 * numTracks, numTracks) == 100.0
  {
    var d := (numTracks * 100) as real;
    assert (100 * numTracks) as real == d;
    assert d / d == 1.0;
  }

  /** Every entry's points reach the report: the points of one role add up to the accepted shares. */
  lemma ReportConservation(sheet: Sheet, role: Role)
    requires HasColumns(sheet)
    ensures TotalPoints(LedgerOf(FullRows(sheet.rows), role)) == TotalShares(Entries(FullRows(sheet.rows), role))
    ensures Holders(Aggregate(sheet).value, role) == Normalized(LedgerOf(FullRows(sheet.rows), role), |FullRows(sheet.rows)|)
  {
    TalliedTotal([], Entries(FullRows(sheet.rows), role));
  }

  /**
   * For the first entry a role's cells credit under a name, the report holds
   * one record for that name carrying that entry's PRO and IPI (later entries
   * do not overwrite them), every share credited under the name, and those
   * points as a percentage of the album.
   */
  lemma ReportFirstWins(sheet: Sheet, role: Role, m: nat)
    requires HasColumns(sheet)
    requires m < |Entries(FullRows(sheet.rows), role)|
    requires forall m' :: 0 <= m' < m ==>
      Entries(FullRows(sheet.rows), role)[m'].name != Entries(FullRows(sheet.rows), role)[m].name
    ensures var es := Entries(FullRows(sheet.rows), role);
      var e, hs := es[m], Holders(Aggregate(sheet).value, role);
      exists k :: 0 <= k < |hs| && hs[k] ==
        Holder(e.name, e.pro, e.ipi, SharesOf(es, e.name), Percentage(SharesOf(es, e.name), |FullRows(sheet.rows)|))
  {
    var full := FullRows(sheet.rows);
    var es := Entries(full, role);
    var ts := LedgerOf(full, role);
    ReportConservation(sheet, role);
    TalliedFirstWins(es, m);
    var t := Lookup(ts, es[m].name).value;
    var k :| 0 <= k < |ts| && ts[k] == t;
    var hs := Holders(Aggregate(sheet).value, role);
    assert hs[k] == Holder(t.name, t.pro, t.ipi, t.points, Percentage(t.points, |full|));
  }

  /** Each normalized record's percentage times the number of tracks is its points. */
  lemma NormalizedPercentages(ts: seq<Tally>, numTracks: nat)
    requires numTracks > 0
    ensures var hs := Normalized(ts, numTracks);
      forall k :: 0 <= k < |hs| ==> hs[k].percentage * numTracks as real == hs[k].points as real
  {
    var hs := Normalized(ts, numTracks);
    forall k | 0 <= k < |hs|
      ensures hs[k].percentage * numTracks as real == hs[k].points as real
    {
      PercentageOfAlbum(hs[k].points, numTracks);
    }
  }

  /**
   * For a sheet whose every qualifying row credits shares summing to 100,
   * the percentages of the role add up to 100.
   */
  lemma ReportSumsTo100(sheet: Sheet, role: Role)
    requires HasColumns(sheet) && |FullRows(sheet.rows)| > 0
    requires forall k :: 0 <= k < |FullRows(sheet.rows)| ==> TotalShares(RowEntries(FullRows(sheet.rows)[k], role)) == 100
    ensures SumPercentages(Holders(Aggregate(sheet).value, role)) == 100.0
  {
    var full := FullRows(sheet.rows);
    WholeRowShares(full, role);
    ReportConservation(sheet, role);
    PercentagesSum(LedgerOf(full, role), |full|);
    PercentageWhole(|full|);
  }

  /** The report lists each name once, in the order the names first appear in the qualifying rows. */
  lemma ReportOrder(sheet: Sheet, role: Role)
    requires HasColumns(sheet)
    ensures HolderNames(Holders(Aggregate(sheet).value, role)) == FirstSeen(EntryNames(Entries(FullRows(sheet.rows), role)))
  {
    var full := FullRows(sheet.rows);
    TalliedOrder(Entries(full, role));
    ReportConservation(sheet, role);
    NormalizedNames(LedgerOf(full, role), |full|);
  }

  /** Normalizing keeps the names and their order. */
  lemma NormalizedNames(ts: seq<Tally>, numTracks: nat)
    requires numTracks > 0 || ts == []
    ensures HolderNames(Normalized(ts, numTracks)) == Names(ts)
  {
  }
}
