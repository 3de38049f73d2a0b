/** Geography of the dashboard: points, the fixed clinic sites, the radius
    options offered by the sidebar, and the nearest-clinic distance. */
module Geo {

  /** A location in decimal degrees. */
  datatype Point = Point(lat: real, lon: real)

  /** A fixed service location. */
  datatype Clinic = Clinic(name: string, site: Point)

  /** A point-to-point distance in miles. The dashboard uses the haversine
      formula with an Earth radius of 3958.8 miles; the model keeps it abstract. */
  type Metric = (Point, Point) -> real

  /** The five clinics hard-coded in the dashboard, in their listed order. */
  const Clinics: seq<Clinic> := [
    Clinic("Downtown Clinic", Point(38.2527, -85.7585)),
    Clinic("East Hub", Point(38.2450, -85.6000)),
    Clinic("West Medical", Point(38.2600, -85.8500)),
    Clinic("South Center", Point(38.1800, -85.7500)),
    Clinic("North Health", Point(38.3200, -85.7000))
  ]

  /** The service radii (miles) the sidebar slider offers; 5 is preselected. */
  const RadiusOptions: seq<nat> := [1, 2, 3, 5, 8, 10, 15, 20]
  const DefaultRadius: nat := 5

  predicate ValidRadius(radius: nat) {
    radius in RadiusOptions
  }

  /** The slider offers radii from 1 to 20 miles and preselects one of them. */
  lemma RadiusOptionsBounded()
    ensures ValidRadius(DefaultRadius)
    ensures forall r :: ValidRadius(r) ==> 1 <= r <= 20
  {
  }

  /** The clinic list holds five sites with distinct names, so a
      nearest-clinic distance always exists. */
  lemma FixedClinics()
    ensures |Clinics| == 5
    ensures forall i, j :: 0 <= i < j < |Clinics| ==> Clinics[i].name != Clinics[j].name
  {
  }

  /** `r` is a nearest-clinic distance of `p`: no clinic is closer, and some
      clinic is exactly that far. */
  ghost predicate IsNearest(r: real, p: Point, clinics: seq<Clinic>, dist: Metric) {
    (forall i :: 0 <= i < |clinics| ==> r <= dist(p, clinics[i].site)) &&
    (exists i :: 0 <= i < |clinics| && r == dist(p, clinics[i].site))
  }

  /** Python's `min` over the list of distances from `p` to each clinic:
      a left fold that replaces the running value only by a strictly smaller one. */
  function Nearest(p: Point, clinics: seq<Clinic>, dist: Metric): (r: real)
    requires |clinics| > 0
    ensures forall i :: 0 <= i < |clinics| ==> r <= dist(p, clinics[i].site)
    ensures exists i :: 0 <= i < |clinics| && r == dist(p, clinics[i].site)
    decreases |clinics|
  {
    if |clinics| == 1 then dist(p, clinics[0].site)
    else
      var init := clinics[..|clinics| - 1];
      var acc := Nearest(p, init, dist);
      var last := dist(p, clinics[|clinics| - 1].site);
      assert forall i :: 0 <= i < |init| ==> init[i] == clinics[i];
      if last < acc then last else acc
  }

  /** The nearest-clinic distance is the only value with both properties. */
  lemma NearestUnique(r: real, p: Point, clinics: seq<Clinic>, dist: Metric)
    requires |clinics| > 0
    ensures IsNearest(r, p, clinics, dist) <==> r == Nearest(p, clinics, dist)
  {
  }

  /** A patient standing at clinic `k` has nearest distance 0 whenever the
      metric is non-negative and vanishes on identical points, as haversine does. */
  lemma ColocatedPatient(clinics: seq<Clinic>, k: nat, dist: Metric)
    requires k < |clinics|
    requires forall i :: 0 <= i < |clinics| ==> dist(clinics[k].site, clinics[i].site) >= 0.0
    requires dist(clinics[k].site, clinics[k].site) == 0.0
    ensures Nearest(clinics[k].site, clinics, dist) == 0.0
  {
  }
}
