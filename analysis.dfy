/** The uploaded table as the dashboard mutates it: the `Min_Dist` and
    `Bracket` columns are written into it in place, then the summary, the
    report, the heat subset and the marker colours are read off it. */
module Analysis {
  import opened Geo
  import opened Brackets
  import opened Patients

  /** The patient table with its two derived columns, kept column by column. */
  class PatientFrame {
    var sites: seq<Point>
    var minDist: seq<real>
    var bracket: seq<Option<Bracket>>

    /** The table as uploaded: coordinates only, no derived columns yet. */
    constructor (sites: seq<Point>)
      ensures this.sites == sites && minDist == [] && bracket == []
    {
      this.sites := sites;
      minDist := [];
      bracket := [];
    }

    predicate Complete()
      reads this
    {
      |minDist| == |sites| && |bracket| == |sites|
    }

    /** The table read row by row. */
    function Rows(): (rows: seq<Row>)
      reads this
      requires Complete()
      ensures |rows| == |sites|
      ensures forall i :: 0 <= i < |rows| ==> rows[i] == Row(sites[i], minDist[i], bracket[i])
    {
      var s, d, b := sites, minDist, bracket;
      seq(|s|, i requires 0 <= i < |s| => Row(s[i], d[i], b[i]))
    }

    /** Line 124: `Min_Dist` of each row is the distance to its nearest clinic. */
    method AssignMinDist(clinics: seq<Clinic>, dist: Metric)
      requires |clinics| > 0
      modifies this
      ensures sites == old(sites) && bracket == old(bracket)
      ensures |minDist| == |sites|
      ensures forall i :: 0 <= i < |sites| ==> IsNearest(minDist[i], sites[i], clinics, dist)
      ensures forall i :: 0 <= i < |sites| ==> minDist[i] == Nearest(sites[i], clinics, dist)
    {
      var column: seq<real> := [];
      var i := 0;
      while i < |sites|
        invariant 0 <= i <= |sites|
        invariant |column| == i
        invariant forall k :: 0 <= k < i ==> column[k] == Nearest(sites[k], clinics, dist)
      {
        column := column + [Nearest(sites[i], clinics, dist)];
        i := i + 1;
      }
      minDist := column;
      forall k | 0 <= k < |sites|
        ensures IsNearest(minDist[k], sites[k], clinics, dist)
      {
        NearestUnique(minDist[k], sites[k], clinics, dist);
      }
    }

    /** Line 138: `Bracket` of each row is the `pd.cut` label of its `Min_Dist`.
        The slider's radii are the only ones the dashboard passes. */
    method AssignBracket(radius: nat)
      requires ValidRadius(radius)
      requires |minDist| == |sites|
      modifies this
      ensures sites == old(sites) && minDist == old(minDist)
      ensures Complete() && Bracketed(Rows(), radius)
      ensures forall i :: 0 <= i < |sites| ==> bracket[i] == StepBracket(minDist[i], radius)
    {
      var column: seq<Option<Bracket>> := [];
      var i := 0;
      while i < |minDist|
        invariant 0 <= i <= |minDist|
        invariant |column| == i
        invariant forall k :: 0 <= k < i ==> column[k] == BracketOf(minDist[k], radius)
      {
        column := column + [BracketOf(minDist[i], radius)];
        i := i + 1;
      }
      bracket := column;
      forall k | 0 <= k < |sites|
        ensures bracket[k] == StepBracket(minDist[k], radius)
      {
        BracketStep(minDist[k], radius);
      }
    }
  }

  /** What the sidebar shows: total, covered count, coverage percentage and the
      four bracket counts in label order. */
  datatype Summary = Summary(total: nat, covered: nat, percent: real, counts: seq<(string, nat)>)

  /** Lines 128-130 and 139 over a completed table. */
  function Summarize(rows: seq<Row>, radius: nat): (s: Summary)
    requires |rows| > 0
    ensures s.total == |rows| && s.covered <= s.total
    ensures s.covered == |Where(rows, AtMost, radius)|
    ensures s.covered + |Where(rows, Above, radius)| == s.total
    ensures 0.0 <= s.percent <= 100.0
    ensures s.counts == BracketCounts(rows) && SumCounts(s.counts) <= s.total
  {
    Summary(|rows|, CoveredCount(rows, radius), CoveragePercent(rows, radius), BracketCounts(rows))
  }

  /** One pass of the dashboard over an uploaded table with the fixed clinics:
      the completed rows, the summary, the report in descending distance and the
      heat-map rows. */
  method Analyze(sites: seq<Point>, dist: Metric, radius: nat, mode: HeatMode)
    returns (rows: seq<Row>, summary: Summary, report: seq<Row>, heat: seq<Row>)
    requires ValidRadius(radius)
    requires |sites| > 0
    ensures |rows| == |sites|
    ensures forall i :: 0 <= i < |rows| ==>
      rows[i].site == sites[i] && rows[i].minDist == Nearest(sites[i], Clinics, dist) &&
      rows[i].bracket == StepBracket(rows[i].minDist, radius)
    ensures summary == Summarize(rows, radius)
    ensures report == SortDescending(rows)
    ensures heat == HeatRows(rows, mode, radius)
  {
    var frame := new PatientFrame(sites);
    frame.AssignMinDist(Clinics, dist);
    ghost var nearest := frame.minDist;
    frame.AssignBracket(radius);
    assert frame.sites == sites && frame.minDist == nearest;
    rows := frame.Rows();
    assert forall i :: 0 <= i < |rows| ==>
      rows[i].site == sites[i] && rows[i].minDist == nearest[i] && rows[i].bracket == StepBracket(nearest[i], radius);
    summary := Summarize(rows, radius);
    report := SortDescending(rows);
    heat := HeatRows(rows, mode, radius);
  }
}
