/** The patient table after the derived columns are added, and everything the
    dashboard derives from it: row filters by the radius, coverage, bracket
    counts, the heat-map subset, marker colours and the report order. */
module Patients {
  import opened Geo
  import opened Brackets

  /** One patient row: its location and the derived `Min_Dist` and `Bracket`
      columns (`None` for the NaN bracket). */
  datatype Row = Row(site: Point, minDist: real, bracket: Option<Bracket>)

  /** The two radius tests the dashboard applies to `Min_Dist`. */
  datatype Test = AtMost | Above

  predicate Holds(t: Test, d: real, radius: nat) {
    match t
    case AtMost => d <= radius as real
    case Above => d > radius as real
  }

  /** Boolean-mask selection `df[df['Min_Dist'] <= radius]` or
      `df[df['Min_Dist'] > radius]`: the rows that pass, in table order. */
  function Where(rows: seq<Row>, t: Test, radius: nat): (r: seq<Row>)
    ensures |r| <= |rows|
  {
    if rows == [] then []
    else (if Holds(t, rows[0].minDist, radius) then [rows[0]] else []) + Where(rows[1..], t, radius)
  }

  /** The selection keeps every passing row as often as the table has it, and
      no other row. */
  lemma {:induction false} WhereMultiset(rows: seq<Row>, t: Test, radius: nat)
    ensures forall x :: multiset(Where(rows, t, radius))[x] ==
                        (if Holds(t, x.minDist, radius) then multiset(rows)[x] else 0)
  {
    if rows != [] {
      assert rows == [rows[0]] + rows[1..];
      WhereMultiset(rows[1..], t, radius);
    }
  }

  /** Every row passes the test exactly when the selection keeps them all, and
      none does exactly when it keeps nothing. */
  lemma {:induction false} WhereExtremes(rows: seq<Row>, t: Test, radius: nat)
    ensures |Where(rows, t, radius)| == |rows| <==>
      forall i :: 0 <= i < |rows| ==> Holds(t, rows[i].minDist, radius)
    ensures |Where(rows, t, radius)| == 0 <==>
      forall i :: 0 <= i < |rows| ==> !Holds(t, rows[i].minDist, radius)
  {
    if rows != [] {
      var rest := Where(rows[1..], t, radius);
      assert Where(rows, t, radius) == (if Holds(t, rows[0].minDist, radius) then [rows[0]] else []) + rest;
      WhereExtremes(rows[1..], t, radius);
      assert forall i :: 1 <= i < |rows| ==> rows[1..][i - 1] == rows[i];
    }
  }

  /** Line 129: the number of covered patients. */
  function CoveredCount(rows: seq<Row>, radius: nat): (n: nat)
    ensures n <= |rows|
    ensures n + |Where(rows, Above, radius)| == |rows|
  {
    CoverPartition(rows, radius);
    |Where(rows, AtMost, radius)|
  }

  /** Covered and uncovered rows split the table: as multisets they add up to
      it, so their counts add up to the total. */
  lemma CoverPartition(rows: seq<Row>, radius: nat)
    ensures multiset(Where(rows, AtMost, radius)) + multiset(Where(rows, Above, radius)) == multiset(rows)
    ensures |Where(rows, AtMost, radius)| + |Where(rows, Above, radius)| == |rows|
  {
    var c, u := Where(rows, AtMost, radius), Where(rows, Above, radius);
    WhereMultiset(rows, AtMost, radius);
    WhereMultiset(rows, Above, radius);
    assert multiset(c) + multiset(u) == multiset(rows);
    assert |multiset(c) + multiset(u)| == |c| + |u|;
  }

  /** Line 130: the coverage percentage. The source divides without a guard,
      so an empty table is excluded here (it raises a division error there). */
  function CoveragePercent(rows: seq<Row>, radius: nat): (pct: real)
    requires |rows| > 0
    ensures 0.0 <= pct <= 100.0
    ensures pct == 100.0 <==> forall i :: 0 <= i < |rows| ==> rows[i].minDist <= radius as real
    ensures pct == 0.0 <==> forall i :: 0 <= i < |rows| ==> rows[i].minDist > radius as real
  {
    var covered, total := CoveredCount(rows, radius), |rows|;
    WhereExtremes(rows, AtMost, radius);
    CoverPartition(rows, radius);
    WhereExtremes(rows, Above, radius);
    PercentRange(covered, total);
    (covered as real / total as real) * 100.0
  }

  /** A share of a positive total, as a percentage. */
  lemma PercentRange(part: nat, total: nat)
    requires 0 < total && part <= total
    ensures var pct := (part as real / total as real) * 100.0;
      0.0 <= pct <= 100.0 && (pct == 100.0 <==> part == total) && (pct == 0.0 <==> part == 0)
  {
  }

  /** The 'Bracket' column was filled by `pd.cut` from 'Min_Dist' with this radius. */
  predicate Bracketed(rows: seq<Row>, radius: nat) {
    forall i :: 0 <= i < |rows| ==> rows[i].bracket == BracketOf(rows[i].minDist, radius)
  }

  /** The `Bracket` column of the table. */
  function BracketColumn(rows: seq<Row>): seq<Option<Bracket>> {
    seq(|rows|, j requires 0 <= j < |rows| => rows[j].bracket)
  }

  lemma BracketColumnCons(rows: seq<Row>)
    requires rows != []
    ensures BracketColumn(rows) == [rows[0].bracket] + BracketColumn(rows[1..])
  {
  }

  /** `value_counts()` for one label: how often the label occurs in the column. */
  function CountLabel(rows: seq<Row>, b: Bracket): (n: nat)
    ensures n == multiset(BracketColumn(rows))[Some(b)]
  {
    if rows == [] then 0
    else
      BracketColumnCons(rows);
      (if rows[0].bracket == Some(b) then 1 else 0) + CountLabel(rows[1..], b)
  }

  /** Rows whose bracket is NaN, which `value_counts` leaves out: how often NaN
      occurs in the column. */
  function CountUnbinned(rows: seq<Row>): (n: nat)
    ensures n == multiset(BracketColumn(rows))[None]
  {
    if rows == [] then 0
    else
      BracketColumnCons(rows);
      (if rows[0].bracket.None? then 1 else 0) + CountUnbinned(rows[1..])
  }

  /** Rows whose distance is exactly 0 (a patient at a clinic). */
  function CountZero(rows: seq<Row>): nat {
    if rows == [] then 0
    else (if rows[0].minDist == 0.0 then 1 else 0) + CountZero(rows[1..])
  }

  function SumCounts(counts: seq<(string, nat)>): nat {
    if counts == [] then 0 else counts[0].1 + SumCounts(counts[1..])
  }

  /** Line 139: `value_counts().reindex(labels)`, one count for each of the four
      label strings in label order, zero where no row has that label. Together
      with the NaN rows, which it does not report, the counts make up the table. */
  function BracketCounts(rows: seq<Row>): (counts: seq<(string, nat)>)
    ensures |counts| == |Labels|
    ensures forall i :: 0 <= i < |Labels| ==>
      counts[i].0 == LabelText(Labels[i]) && counts[i].1 == multiset(BracketColumn(rows))[Some(Labels[i])]
    ensures SumCounts(counts) + CountUnbinned(rows) == |rows|
  {
    var c := seq(|Labels|, i requires 0 <= i < |Labels| => (LabelText(Labels[i]), CountLabel(rows, Labels[i])));
    assert SumCounts(c) == c[0].1 + c[1].1 + c[2].1 + c[3].1 by {
      assert c[3..][1..] == c[4..] == [];
      assert SumCounts(c[3..]) == c[3].1;
      assert c[2..][1..] == c[3..];
      assert SumCounts(c[2..]) == c[2].1 + c[3].1;
      assert c[1..][1..] == c[2..];
      assert SumCounts(c[1..]) == c[1].1 + c[2].1 + c[3].1;
    }
    LabelsPartition(rows);
    c
  }

  /** Each row has one of the four labels or none. */
  lemma {:induction false} LabelsPartition(rows: seq<Row>)
    ensures CountLabel(rows, InRadius) + CountLabel(rows, Gap5) + CountLabel(rows, Gap10)
      + CountLabel(rows, CriticalGap) + CountUnbinned(rows) == |rows|
  {
    if rows != [] {
      LabelsPartition(rows[1..]);
      match rows[0].bracket
      case None =>
      case Some(b) => assert b == InRadius || b == Gap5 || b == Gap10 || b == CriticalGap;
    }
  }

  lemma {:induction false} UnbinnedNone(rows: seq<Row>, radius: nat)
    requires ValidRadius(radius) && Bracketed(rows, radius)
    ensures CountUnbinned(rows) == 0 <==> forall i :: 0 <= i < |rows| ==> 0.0 < rows[i].minDist <= 100.0
  {
    if rows != [] {
      UnbinnedNone(rows[1..], radius);
      BracketDefined(rows[0].minDist, radius);
      assert forall i :: 1 <= i < |rows| ==> rows[1..][i - 1] == rows[i];
    }
  }

  /** The four reported counts never exceed the total, and reach it exactly
      when every distance lies in (0, 100]. */
  lemma BracketCountsTotal(rows: seq<Row>, radius: nat)
    requires ValidRadius(radius) && Bracketed(rows, radius)
    ensures SumCounts(BracketCounts(rows)) <= |rows|
    ensures SumCounts(BracketCounts(rows)) == |rows| <==>
      forall i :: 0 <= i < |rows| ==> 0.0 < rows[i].minDist <= 100.0
  {
    UnbinnedNone(rows, radius);
  }

  /** Covered rows are the 'In Radius' rows plus the rows at distance exactly
      0, which the covered test admits and `pd.cut` leaves unbinned. */
  lemma {:induction false} CoveredSplit(rows: seq<Row>, radius: nat)
    requires ValidRadius(radius) && Bracketed(rows, radius)
    requires forall i :: 0 <= i < |rows| ==> rows[i].minDist >= 0.0
    ensures CoveredCount(rows, radius) == CountLabel(rows, InRadius) + CountZero(rows)
  {
    if rows != [] {
      assert forall i :: 1 <= i < |rows| ==> rows[1..][i - 1] == rows[i];
      CoveredSplit(rows[1..], radius);
      InRadiusIsCoveredAboveZero(rows[0].minDist, radius);
    }
  }

  /** The sidebar's heat-map choice. */
  datatype HeatMode = AllPatients | OnlyUncovered

  /** Line 179: the rows handed to the heat layer. In "Only Uncovered" mode
      these are exactly the rows beyond the radius, each as often as in the
      table; otherwise every row. */
  function HeatRows(rows: seq<Row>, mode: HeatMode, radius: nat): (r: seq<Row>)
    ensures forall x :: multiset(r)[x] ==
                        (if mode == AllPatients || x.minDist > radius as real then multiset(rows)[x] else 0)
    ensures forall x :: x in r <==> x in rows && (mode == OnlyUncovered ==> x.minDist > radius as real)
  {
    match mode
    case AllPatients => rows
    case OnlyUncovered => WhereMultiset(rows, Above, radius); Where(rows, Above, radius)
  }

  const UncoveredColour: string := "#00FFFF"
  const CoveredColour: string := "#888888"

  /** Line 187: the fill colour of a patient marker. */
  function MarkerColour(row: Row, radius: nat): string {
    if row.minDist > radius as real then UncoveredColour else CoveredColour
  }

  /** A marker is drawn in the uncovered colour exactly when its row is in the
      "Only Uncovered" heat subset, and in the covered colour exactly when its
      row is covered. */
  lemma ColourMatchesHeat(rows: seq<Row>, radius: nat, x: Row)
    requires x in rows
    ensures MarkerColour(x, radius) == UncoveredColour <==> x in HeatRows(rows, OnlyUncovered, radius)
    ensures MarkerColour(x, radius) == CoveredColour <==> x in Where(rows, AtMost, radius)
  {
    assert UncoveredColour[1] != CoveredColour[1];
    WhereMultiset(rows, Above, radius);
    WhereMultiset(rows, AtMost, radius);
    assert multiset(rows)[x] > 0;
  }

  predicate NonIncreasing(rows: seq<Row>) {
    forall i, j :: 0 <= i < j < |rows| ==> rows[i].minDist >= rows[j].minDist
  }

  /** Places `x` in front of the first row it is not below. */
  function Insert(x: Row, rows: seq<Row>): seq<Row> {
    if rows == [] || x.minDist >= rows[0].minDist then [x] + rows
    else [rows[0]] + Insert(x, rows[1..])
  }

  /** Inserting into a non-increasing table adds exactly that row and keeps the
      table non-increasing. */
  lemma {:induction false} InsertSorted(x: Row, rows: seq<Row>)
    requires NonIncreasing(rows)
    ensures multiset(Insert(x, rows)) == multiset(rows) + multiset{x}
    ensures NonIncreasing(Insert(x, rows))
  {
    if rows != [] && x.minDist < rows[0].minDist {
      var rest := Insert(x, rows[1..]);
      InsertSorted(x, rows[1..]);
      assert rows == [rows[0]] + rows[1..];
      forall j | 0 <= j < |rest|
        ensures rows[0].minDist >= rest[j].minDist
      {
        assert rest[j] in multiset(rest);
        if rest[j] != x {
          assert rest[j] in multiset(rows[1..]);
          var k :| 0 <= k < |rows[1..]| && rows[1..][k] == rest[j];
          assert rows[k + 1] == rest[j];
        }
      }
      assert Insert(x, rows) == [rows[0]] + rest;
    }
  }

  /** Line 152: the detailed report, `sort_values(by='Min_Dist', ascending=False)`:
      every row once, farthest first. */
  function SortDescending(rows: seq<Row>): (r: seq<Row>)
    ensures multiset(r) == multiset(rows)
    ensures NonIncreasing(r)
  {
    if rows == [] then []
    else
      assert rows == [rows[0]] + rows[1..];
      InsertSorted(rows[0], SortDescending(rows[1..]));
      Insert(rows[0], SortDescending(rows[1..]))
  }
}
