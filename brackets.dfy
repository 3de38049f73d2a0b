/** Distance brackets, as `pd.cut` assigns them with the dashboard's edges
    `[0, radius, radius+5, radius+10, 100]` and pandas' defaults (intervals
    closed on the right, lowest edge excluded). */
module Brackets {
  import opened Geo

  datatype Option<T> = None | Some(value: T)

  /** The four labels of the dashboard, and their order. */
  datatype Bracket = InRadius | Gap5 | Gap10 | CriticalGap

  const Labels: seq<Bracket> := [InRadius, Gap5, Gap10, CriticalGap]

  function LabelText(b: Bracket): string {
    match b
    case InRadius => "In Radius"
    case Gap5 => "+5 Miles Gap"
    case Gap10 => "+10 Miles Gap"
    case CriticalGap => "Critical Gap"
  }

  predicate StrictlyIncreasing(e: seq<real>) {
    forall i, j :: 0 <= i < j < |e| ==> e[i] < e[j]
  }

  /** Line 136: the bin edges built from the radius. Every radius the slider
      offers gives strictly increasing edges, which `pd.cut` requires; the
      top edge clears the others since radius + 10 <= 30 < 100. */
  function Edges(radius: nat): (e: seq<real>)
    ensures |e| == 5
    ensures ValidRadius(radius) ==> StrictlyIncreasing(e) && e[3] <= 30.0 < e[4]
  {
    [0.0, radius as real, radius as real + 5.0, radius as real + 10.0, 100.0]
  }

  /** The number of edges strictly below `d`: where `d` would be inserted on
      the left of sorted edges (numpy's `searchsorted(e, d, side='left')`). */
  function CountBelow(e: seq<real>, d: real): (n: nat)
    ensures n <= |e|
  {
    if e == [] then 0 else (if e[0] < d then 1 else 0) + CountBelow(e[1..], d)
  }

  /** On increasing edges, `CountBelow` locates `d` between two neighbours. */
  lemma {:induction false} CountBelowBounds(e: seq<real>, d: real)
    requires StrictlyIncreasing(e)
    ensures var n := CountBelow(e, d);
      (n == 0 || e[n - 1] < d) && (n == |e| || d <= e[n])
  {
    if e != [] {
      var m := CountBelow(e[1..], d);
      CountBelowBounds(e[1..], d);
      assert m > 0 ==> e[1..][m - 1] == e[m];
    }
  }

  /** The bin index `pd.cut` gives `d`: one less than the insertion point,
      and no bin (NaN) when `d` lies at or below the first edge or above the last. */
  function Cut(d: real, e: seq<real>): (r: Option<nat>)
    ensures r.Some? ==> r.value + 1 < |e|
  {
    var n := CountBelow(e, d);
    if n == 0 || n == |e| then None else Some(n - 1)
  }

  /** On increasing edges a defined bin `k` is exactly the interval `(e[k], e[k+1]]`. */
  lemma CutInterval(d: real, e: seq<real>)
    requires StrictlyIncreasing(e)
    ensures Cut(d, e).None? <==> (|e| == 0 || d <= e[0] || e[|e| - 1] < d)
    ensures forall k :: 0 <= k < |e| - 1 ==> (Cut(d, e) == Some(k) <==> e[k] < d <= e[k + 1])
  {
    CountBelowBounds(e, d);
  }

  /** Line 138: the label of the bin `pd.cut` puts `d` in, for the given radius. */
  function BracketOf(d: real, radius: nat): Option<Bracket> {
    match Cut(d, Edges(radius))
    case None => None
    case Some(k) => Some(Labels[k])
  }

  /** An explicit statement of the same step function. */
  function StepBracket(d: real, radius: nat): Option<Bracket> {
    var r := radius as real;
    if d <= 0.0 then None
    else if d <= r then Some(InRadius)
    else if d <= r + 5.0 then Some(Gap5)
    else if d <= r + 10.0 then Some(Gap10)
    else if d <= 100.0 then Some(CriticalGap)
    else None
  }

  /** For every slider radius, `pd.cut` with the dashboard's edges is the step
      function: `(0, r]`, `(r, r+5]`, `(r+5, r+10]`, `(r+10, 100]`, and nothing
      for a distance of 0 or below, or above 100. */
  lemma BracketStep(d: real, radius: nat)
    requires ValidRadius(radius)
    ensures BracketOf(d, radius) == StepBracket(d, radius)
  {
    var e := Edges(radius);
    CutInterval(d, e);
    var r := radius as real;
    assert e[0] == 0.0 && e[1] == r && e[2] == r + 5.0 && e[3] == r + 10.0 && e[4] == 100.0;
    if d <= 0.0 || 100.0 < d {
      assert Cut(d, e).None?;
    } else if d <= r {
      assert Cut(d, e) == Some(0);
    } else if d <= r + 5.0 {
      assert Cut(d, e) == Some(1);
    } else if d <= r + 10.0 {
      assert Cut(d, e) == Some(2);
    } else {
      assert Cut(d, e) == Some(3);
    }
  }

  /** A distance gets a bracket exactly when it lies in (0, 100]. */
  lemma BracketDefined(d: real, radius: nat)
    requires ValidRadius(radius)
    ensures BracketOf(d, radius).Some? <==> 0.0 < d <= 100.0
  {
    BracketStep(d, radius);
  }

  /** The 'In Radius' bracket is the covered test minus the lowest edge. */
  lemma InRadiusIsCoveredAboveZero(d: real, radius: nat)
    requires ValidRadius(radius)
    ensures BracketOf(d, radius) == Some(InRadius) <==> 0.0 < d && d <= radius as real
  {
    BracketStep(d, radius);
  }
}
