# Coverage analysis of the health-intelligence dashboard

This project models the coverage analysis of a Streamlit dashboard. The
dashboard takes an uploaded patient table with `Latitude`/`Longitude` columns
and five hard-coded clinic sites. It does the following:

1. It writes to each row `Min_Dist`, the distance to the nearest clinic.
2. It counts the patients within the service radius chosen on the slider and
   reports that count as a coverage percentage.
3. It sorts each distance into one of four brackets with `pd.cut`.
4. It counts each bracket.
5. It derives three things from the table: the "Only Uncovered" heat-map
   subset, a colour for each patient marker, and a report sorted by
   descending distance.

Modules follow the analysis:

- `Geo` (geo.dfy): points and clinic sites, the fixed clinic list, the slider's
  radius options, and the nearest-clinic minimum. The distance function is a
  parameter of type `Metric`.
- `Brackets` (brackets.dfy): `pd.cut` modelled the way pandas computes it.
  The insertion point `searchsorted(edges, d, side='left')` is modelled as
  `CountBelow`, and a point on or below the first edge, or above the last,
  gets no bin (NaN, modelled as `None`). `StepBracket` is an explicit step
  function, and `BracketStep` proves the two equal for every slider radius.
- `Patients` (patients.dfy): the table as rows and the boolean-mask selections
  `Min_Dist <= radius` and `Min_Dist > radius`. It also holds the covered count
  and percentage, `value_counts().reindex(labels)`, the heat subset, the marker
  colour and the descending sort.
- `Analysis` (analysis.dfy): the table as the class `PatientFrame`. Its methods
  write the `Min_Dist` and `Bracket` columns in place, as lines 124 and 138
  do. `Analyze` runs one full pass, which the dashboard repeats whenever the
  upload or the radius changes.

The model follows what the code does. Three consequences of the code are
easy to miss:

- A distance of exactly 0 counts as covered (`<= radius`), but `pd.cut` with
  the default `include_lowest=False` gives it no bracket, despite what the
  label 'In Radius' suggests. So the covered count is the 'In Radius' count
  plus the number of zero distances (`CoveredSplit`). It is not the
  'In Radius' count alone.
- A distance above 100 miles gets no bracket: 'Critical Gap' stops at the
  last edge. The four counts add up to the total only when every distance
  lies in (0, 100] (`BracketCountsTotal`).
- Line 130 divides by the row count without a guard, so an empty table raises
  a division error instead of showing a percentage. `CoveragePercent` and
  `Analyze` require at least one row.

## Model

| member | source | states |
|---|---|---|
| `Geo.Nearest` | streamlit_app.py:124-125 | the `min` over the clinic distances is no greater than the distance to any clinic and equals the distance to some clinic (non-empty clinic list) |
| `Geo.NearestUnique` | streamlit_app.py:124-125 | a value is below every clinic distance and equal to one of them exactly when it is the computed minimum |
| `Geo.ColocatedPatient` | streamlit_app.py:104-108 | a patient standing at a clinic has nearest distance 0 when the metric is non-negative and zero on identical points |
| `Geo.FixedClinics` | streamlit_app.py:104-108 | the hard-coded clinic list has five sites with pairwise distinct names, so it is non-empty |
| `Geo.RadiusOptionsBounded` | streamlit_app.py:116 | the slider's preselected radius 5 is one of its options, and every option lies between 1 and 20 miles |
| `Brackets.Edges` | streamlit_app.py:116-136 | for every slider radius the edges `[0, r, r+5, r+10, 100]` strictly increase (r+10 <= 30 < 100), so `pd.cut` accepts them |
| `Brackets.CountBelowBounds` | streamlit_app.py:138 | on increasing edges the left insertion point n satisfies `e[n-1] < d <= e[n]` at the ends that exist |
| `Brackets.Cut` | streamlit_app.py:138 | a bin index, when there is one, names an interval between two adjacent edges |
| `Brackets.CutInterval` | streamlit_app.py:138 | `pd.cut` puts `d` in bin k exactly when `e[k] < d <= e[k+1]`, and in no bin exactly when `d <= e[0]` or `d > e[last]` |
| `Brackets.BracketStep` | streamlit_app.py:136-138 | `BracketOf`, the model of line 138, equals the step function: for every slider radius the label is 'In Radius' on (0,r], '+5 Miles Gap' on (r,r+5], '+10 Miles Gap' on (r+5,r+10], 'Critical Gap' on (r+10,100], and none otherwise |
| `Brackets.BracketDefined` | streamlit_app.py:136-138 | a distance receives a label exactly when it lies in (0, 100] |
| `Brackets.InRadiusIsCoveredAboveZero` | streamlit_app.py:129-138 | a distance is labelled 'In Radius' exactly when it is covered and positive |
| `Patients.Where` | streamlit_app.py:129 | a mask selection never has more rows than the table |
| `Patients.WhereMultiset` | streamlit_app.py:129 | a mask selection keeps each passing row as often as the table has it and drops every failing row |
| `Patients.WhereExtremes` | streamlit_app.py:129 | the selection keeps all rows exactly when all pass, and none exactly when none pass |
| `Patients.CoveredCount` | streamlit_app.py:129 | the covered count is at most the total, and covered + uncovered (`Min_Dist > radius`) rows = total |
| `Patients.CoverPartition` | streamlit_app.py:129-179 | the covered rows and the "Only Uncovered" rows split the table as multisets, so covered + uncovered = total |
| `Patients.CoveragePercent` | streamlit_app.py:128-130 | for a non-empty table the percentage lies in [0, 100], is 100 exactly when every patient is covered and 0 exactly when none is |
| `Patients.PercentRange` | streamlit_app.py:130 | `part / total * 100` lies in [0, 100] for `part <= total`, with 100 and 0 reached exactly at `part = total` and `part = 0` |
| `Patients.CountLabel` | streamlit_app.py:139 | `value_counts` for one label is the label's multiplicity in the `Bracket` column |
| `Patients.CountUnbinned` | streamlit_app.py:138-139 | the rows `value_counts` leaves out are the NaN entries of the `Bracket` column, counted with multiplicity |
| `Patients.BracketCounts` | streamlit_app.py:137-139 | four counts keyed by the label strings in label order, each the multiplicity of that label in the `Bracket` column (zero where there is none); with the NaN rows they make up the table |
| `Patients.LabelsPartition` | streamlit_app.py:137-139 | the four label counts plus the unlabelled rows add up to the total |
| `Patients.UnbinnedNone` | streamlit_app.py:136-138 | no row is unlabelled exactly when every distance lies in (0, 100] |
| `Patients.BracketCountsTotal` | streamlit_app.py:137-139 | the reported counts sum to at most the total, with equality exactly when every distance lies in (0, 100] |
| `Patients.CoveredSplit` | streamlit_app.py:129-138 | with non-negative distances, covered count = 'In Radius' count + number of zero distances |
| `Patients.HeatRows` | streamlit_app.py:179 | the "Only Uncovered" heat rows are exactly the rows with `Min_Dist > radius`, each with its multiplicity; "All Patients" hands over every row |
| `Patients.ColourMatchesHeat` | streamlit_app.py:179-187 | `MarkerColour`, the model of line 187, gives a marker the uncovered colour exactly when its row is in the "Only Uncovered" subset, and the covered colour exactly when it is covered |
| `Patients.InsertSorted` | streamlit_app.py:152 | inserting into a non-increasing table keeps it non-increasing and adds exactly that row |
| `Patients.SortDescending` | streamlit_app.py:152 | the report holds every row exactly once (a permutation) and is non-increasing in `Min_Dist` |
| `Analysis.PatientFrame.constructor` | streamlit_app.py:121 | the uploaded table holds the coordinates and no derived columns |
| `Analysis.PatientFrame.AssignMinDist` | streamlit_app.py:124-125 | writes a `Min_Dist` column with one nearest-clinic distance per row and leaves the other columns alone |
| `Analysis.PatientFrame.AssignBracket` | streamlit_app.py:136-138 | writes a `Bracket` column holding the `pd.cut` label of each row's `Min_Dist`, equal to the step function, and leaves the other columns alone |
| `Analysis.Summarize` | streamlit_app.py:128-139 | total, covered <= total, covered + uncovered = total, percentage in [0, 100], and the four label counts, which sum to at most the total |
| `Analysis.Analyze` | streamlit_app.py:124-179 | each output row is the input point with its nearest-clinic distance and its step-function bracket; the summary, the report and the heat rows are those of these rows |

## Left out

- The haversine formula (lines 96-101) works in floating point. The model takes an arbitrary `Metric` instead: its non-negativity and symmetry are not assumed except where a lemma says so.
- All numbers are exact reals. Floating-point rounding of distances, of the percentage and of the bin comparisons is not modelled, and neither is NaN coordinates.
- Reading the upload with `pd.read_csv` / `pd.read_excel` (line 121) is I/O in a foreign library. The model starts from a sequence of points.
- The Excel report, the download button and the file name (lines 150-162) are a byte-stream artefact. Only the row order of the report sheet is modelled (`SortDescending`).
- The folium map is presentation. This covers the clinic markers, the circle's metre conversion, the heat layer's drawing, popups, the `.2f` formatting and the layer control (lines 169-207). Only the choice of heat rows and of marker colour is modelled.
- Displaying the percentage with `.1f` through `st.metric` (line 133) and the counts through `st.write` (lines 141-147) is presentation. The model keeps the exact values.
- The page CSS/JS, the legend and the Streamlit widgets are UI (lines 10-93, 112-118, 141-147, 165-166, 210-244). The slider's choices are modelled as `RadiusOptions`.
- `Patients.Where`: the contracts state which rows, and how many times each, a mask keeps. They do not state that the kept rows stay in table order.
- `Patients.SortDescending`: pandas' default sort is not stable, so the source does not fix the order of rows with equal `Min_Dist`. The model picks one such order, and its contract states only what the source guarantees.
- `Analysis.Analyze` requires a non-empty table, because line 130 raises a division error on an empty one.
- `Analysis.PatientFrame.AssignBracket` requires one of the eight slider radii, the only ones the slider offers. `pd.cut` itself raises only when the edges stop strictly increasing, that is for radius 0 or radius 90 and above. The model does not cover other radii, such as 4 or 50, which `pd.cut` would accept.
