# usim_tables: a verified model of the UrbanSim-to-ActivitySim converter

`austin_mp/data/usim_tables.py` turns UrbanSim output tables and BEAM skims
into ActivitySim inputs. This project models the computational core of that
file in Dafny:

- **Skims** (`skims.dfy`) covers `skims_omx`:
  - N is derived from the row count.
  - The CAR and BIKE columns are reshaped row-major into N x N matrices.
  - The fixed catalogue of 1803 matrix names is written into an OMX container, modelled as the class `OmxFile` over a `map<string, Matrix>`.
  - Measures with no source column are written as all-zero matrices.
- **ZoneBuilder** (`zone_builder.dfy`) covers `zones`: one zone per distinct `origTaz` H3 cell, numbered 1..n in first-seen order.
- **ZoneAssignment** (`zone_assignment.dfy`) covers the selection logic of `assign_taz`:
  - The spatial-join rows are sorted by area and deduplicated per entity.
  - Entities with no match are then resolved by the buffer search, which is modelled as an oracle.
- **Tables** (`tables.dfy`) covers the tables themselves:
  - the households, persons, jobs and schools records;
  - the `TAZ` column that households and jobs take from their block, and persons from their household (`misc.reindex`); schools get theirs from `assign_taz` (`usim_tables.py:233-236`), so their TAZ is an input here;
  - the export filters of the households and persons tables.
- **Classifiers** (`classifiers.dfy`) covers `HHT`, `ptype`, `pemploy` and `pstudent`. The last three are candidate-code series merged by a `where(..., inplace=True)` loop.
- **ZoneTotals** (`zone_totals.dfy`) covers the zone count and sum columns (TOTHH … OTHEMPN, HSENROLL) and their partition identities. Each column is one `Tally` of a row weight, so the column functions carry no contract of their own; what the source promises about them is stated by `Tally` and the ZoneTotals lemmas in the table below.
- **SeqUtil** (`seq_util.dfy`) holds the pandas list operations the others share:
  - `unique`;
  - `drop_duplicates(keep='first')`;
  - `sort_values`;
  - boolean masks.

Three behaviours of `skims_omx` are modelled as the code is written:

- The period loop never filters the rows by period, so every period receives the same matrices.
- The transit matrices are cut from `tmp_df`, which still holds the CAR rows of the highway block.
- The CAR reshape fails unless the CAR rows number exactly N², so a table whose CAR rows cover every hour, for more than one hour, cannot complete.

## Model

| member | source | states |
|---|---|---|
| Skims.GridSize | austin_mp/data/usim_tables.py:682-687 | N exists exactly when the table is non-empty and holds hours x modes x N² rows for a whole N, and then that equation holds |
| Skims.MultiHourFails | austin_mp/data/usim_tables.py:682-699 | with two or more hours whose CAR rows cover every hour, the step cannot complete, because the CAR reshape needs exactly N² rows |
| Skims.Reshape | austin_mp/data/usim_tables.py:699 | the reshape succeeds exactly when there are N·N values, and then gives an N x N matrix |
| Skims.ReshapeAt | austin_mp/data/usim_tables.py:697-699 | entry (i, j) of the reshaped matrix is value i·N + j of the column (row-major) |
| Skims.ReshapeRoundTrip | austin_mp/data/usim_tables.py:697-699 | flattening the reshaped matrix row by row gives back the input column |
| Skims.Zeros | austin_mp/data/usim_tables.py:721 | an N x N matrix whose every entry is 0 |
| Skims.KeyNameInjective | austin_mp/data/usim_tables.py:703-731 | two well-formed keys (a `DIST` suffix, or a path, measure and period) with the same formatted name are the same key |
| Skims.MeasureKeysFacts | austin_mp/data/usim_tables.py:715-716 | over distinct measure names, the measure loop of one path and period lists each measure's key once, and no other key |
| Skims.HighwayKeysFacts | austin_mp/data/usim_tables.py:713-722 | over distinct paths and measures, the highway loop lists paths x measures pairwise-distinct keys, exactly the path/measure pairs of the period |
| Skims.EgressKeysFacts | austin_mp/data/usim_tables.py:727-740 | over distinct egress modes and measures, the egress loop lists each egress/measure pair of one access and transit mode exactly once, and nothing else |
| Skims.AccessKeysFacts | austin_mp/data/usim_tables.py:726-740 | the access loop under one transit mode lists each access/egress/measure combination exactly once, and nothing else |
| Skims.TransitKeysFacts | austin_mp/data/usim_tables.py:725-740 | the transit loop lists each transit/access/egress/measure combination of the period exactly once, and nothing else |
| Skims.HighwayRoutes | austin_mp/data/usim_tables.py:713-722 | one period's highway block is 6 x 4 = 24 distinct keys, exactly the known highway path/measure pairs |
| Skims.TransitRoutes | austin_mp/data/usim_tables.py:725-740 | one period's transit block is 6 x 2 x 2 x 14 = 336 distinct keys, exactly the known transit path/measure pairs |
| Skims.RouteKeysFacts | austin_mp/data/usim_tables.py:710-740 | one period writes 360 pairwise-distinct keys, and a key is among them exactly when it is a known route/measure for that period |
| Skims.PeriodKeysFacts | austin_mp/data/usim_tables.py:709-740 | over distinct periods, the period loop writes 360 keys per period, all pairwise distinct, and exactly the known route/measure combinations of the listed periods |
| Skims.ApplyAppend | austin_mp/data/usim_tables.py:700-740 | writing one list of keys and then another leaves the container as writing their concatenation does |
| Skims.ApplyKeys | austin_mp/data/usim_tables.py:700-740 | after the writes, the container's names are its earlier names plus the name of every written key |
| Skims.ApplyValue | austin_mp/data/usim_tables.py:700-740 | a key whose name no other written key shares ends up holding its own matrix |
| Skims.DistanceHeader | austin_mp/data/usim_tables.py:697-708 | the distance block writes exactly `DIST`, `DISTWALK` and `DISTBIKE`, all distinct |
| Skims.Catalogue | austin_mp/data/usim_tables.py:19-48 | the written catalogue has 1803 pairwise-distinct keys, and a key is in it exactly when it is a distance key or a known route/measure/period |
| Skims.CatalogueWellFormed | austin_mp/data/usim_tables.py:19-48 | every catalogue key can be read back from its name: no underscore in path parts or measures, and two-letter periods |
| Skims.CatalogueNamesDistinct | austin_mp/data/usim_tables.py:697-740 | the 1803 formatted matrix names are pairwise distinct, so no write overwrites another |
| Skims.HeaderWritten | austin_mp/data/usim_tables.py:697-708 | every distance key written before the first failed reshape has a matrix that can be built |
| Skims.Written | austin_mp/data/usim_tables.py:682-740 | every key written before the step completes or fails has a matrix that can be built from the rows |
| Skims.OmxFile.constructor | austin_mp/data/usim_tables.py:692 | a freshly opened container holds no matrix |
| Skims.OmxFile.Put | austin_mp/data/usim_tables.py:700 | storing a matrix updates that one name and keeps all others |
| Skims.WriteMeasures | austin_mp/data/usim_tables.py:715-722 | the measure loop leaves the container updated with each measure's matrix, in loop order: a reshape where the map names a column, zeros otherwise |
| Skims.DistanceMatrix | austin_mp/data/usim_tables.py:697-708 | `DIST` is the reshaped `dist_miles` of the CAR rows; every other distance matrix is that of the BIKE rows |
| Skims.WriteDistances | austin_mp/data/usim_tables.py:697-708 | succeeds exactly when both the CAR and BIKE rows number N², and leaves the container with the distance keys written before the first failed reshape |
| Skims.WriteActive | austin_mp/data/usim_tables.py:702-707 | over the active modes, succeeds exactly when the list is empty or the BIKE rows fit; on success every `DIST{mode}` holds its matrix, and on failure the container is unchanged |
| Skims.WriteHighway | austin_mp/data/usim_tables.py:713-722 | the highway block writes every highway path x measure for the period, and hands on `tmp_df` as the CAR rows |
| Skims.WriteTransit | austin_mp/data/usim_tables.py:725-740 | the transit block writes every access_transit_egress path x transit measure, cut from the CAR rows |
| Skims.WriteAccess | austin_mp/data/usim_tables.py:726-740 | the access loop under one transit mode writes every access x egress x measure key |
| Skims.WriteEgress | austin_mp/data/usim_tables.py:727-740 | the egress loop under one access and transit mode writes every egress x measure key |
| Skims.WritePeriod | austin_mp/data/usim_tables.py:710-740 | one period iteration writes exactly that period's 360 route keys |
| Skims.WritePeriods | austin_mp/data/usim_tables.py:709-740 | the period loop writes exactly the route keys of every period, in order |
| Skims.SkimsOmx | austin_mp/data/usim_tables.py:678-741 | returns success exactly when N is whole and the CAR and BIKE rows both number N²; a container is opened exactly when N is whole, and it holds exactly the matrices written up to the first failure |
| Skims.SkimsNames | austin_mp/data/usim_tables.py:697-740 | on success the container's names are exactly the 1803 catalogue names |
| Skims.SkimsValue | austin_mp/data/usim_tables.py:697-740 | on success every catalogue name holds its own key's N x N matrix |
| Skims.MatrixEntry | austin_mp/data/usim_tables.py:717-719 | entry (i, j) of a measured matrix is the measure on source row i·N + j |
| Skims.MatrixZero | austin_mp/data/usim_tables.py:720-721 | every entry of a measure mapped to `None` is 0 |
| Skims.SamePeriods | austin_mp/data/usim_tables.py:709-714 | a route and measure hold the same matrix in every period, since nothing is filtered by period |
| Skims.TransitTimeIsCarTime | austin_mp/data/usim_tables.py:714-737 | transit in-vehicle time equals highway travel time, both being CAR `gen_cost_min` |
| ZoneBuilder.Boundaries | austin_mp/data/usim_tables.py:130-134 | the boundary list fails exactly when some cell cannot be decoded; otherwise boundary i is the decode of cell i |
| ZoneBuilder.ZoneTable | austin_mp/data/usim_tables.py:122-141 | one row per distinct origin cell in first-seen order; row k has TAZ k+1, its cell, the cell's boundary and that boundary's area |
| ZoneBuilder.BuildZones | austin_mp/data/usim_tables.py:122-141 | the polygon-appending loop produces exactly the zones table |
| ZoneBuilder.ZoneIdsContiguous | austin_mp/data/usim_tables.py:140-141 | the TAZ ids are n different values, all in 1..n, with n the number of distinct origin cells |
| ZoneBuilder.ZoneCells | austin_mp/data/usim_tables.py:127 | every origin cell has a zone, no two zones share a cell, and zones follow first-seen order |
| SeqUtil.Unique | austin_mp/data/usim_tables.py:127 | pandas `unique`: each element once, nothing new added, first occurrences kept |
| SeqUtil.UniqueFirstSeenOrder | austin_mp/data/usim_tables.py:127 | the distinct values appear in the order of their first occurrence |
| SeqUtil.SortBy | austin_mp/data/usim_tables.py:84 | `sort_values`: the result is sorted and is a permutation of the input |
| SeqUtil.KeepFirstBy | austin_mp/data/usim_tables.py:86-87 | `drop_duplicates(keep='first')`: one row per key, the first of each key, and every key kept |
| SeqUtil.Filter | austin_mp/data/usim_tables.py:110 | a boolean mask keeps exactly the rows satisfying it, with their multiplicities |
| SeqUtil.FilterInOrder | austin_mp/data/usim_tables.py:657 | the masked table is the subsequence of kept rows: its k-th row is the row at the k-th kept position, kept positions increase, and a position is kept exactly when the mask holds on its row |
| ZoneAssignment.AssignTaz | austin_mp/data/usim_tables.py:68-117 | the `assign_taz` loop yields the matched rows, then each unmatched entity with the oracle's zone |
| ZoneAssignment.DedupeEntities | austin_mp/data/usim_tables.py:83-88 | after the sort and dedupe, each entity of the join appears exactly once |
| ZoneAssignment.DedupeSmallest | austin_mp/data/usim_tables.py:83-88 | each kept row comes from the join and has the smallest area among that entity's rows |
| ZoneAssignment.AssignmentEntities | austin_mp/data/usim_tables.py:68-117 | exactly one zone per entity of the join, and no other entity |
| ZoneAssignment.AssignmentSmallestArea | austin_mp/data/usim_tables.py:82-88 | a matched entity gets the zone of one of its own candidates whose area is no larger than any other candidate's |
| ZoneAssignment.AssignmentRecovered | austin_mp/data/usim_tables.py:91-114 | an entity with no candidate gets the zone the buffer search returns |
| Tables.Reindex | austin_mp/data/usim_tables.py:298-300 | each row keeps its record and takes exactly the parent series' value under its key, or NaN when the key is absent |
| Tables.HouseholdsTaz | austin_mp/data/usim_tables.py:298-300 | every household, in table order, takes the TAZ of its block, or NaN when its block is not in the blocks table |
| Tables.PersonsTaz | austin_mp/data/usim_tables.py:311-313 | one row per person, in table order, each keeping its record (its TAZ is stated by PersonTaz) |
| Tables.JobsTaz | austin_mp/data/usim_tables.py:374-376 | every job, in table order, takes the TAZ of its block, or NaN when its block is not in the blocks table |
| Tables.TazOf | austin_mp/data/usim_tables.py:311-313 | looking up a household id no household carries gives NaN |
| Tables.TazOfUnique | austin_mp/data/usim_tables.py:311-313 | with distinct household ids, the lookup gives the TAZ of the one household carrying the id |
| Tables.PersonTaz | austin_mp/data/usim_tables.py:311-313 | a person takes the TAZ of their household row, or NaN when no household has their id |
| Tables.PersonInheritsBlockTaz | austin_mp/data/usim_tables.py:298-313 | a person's TAZ is the TAZ of their household's block, or NaN if the household is missing |
| Tables.HouseholdsExport | austin_mp/data/usim_tables.py:657 | the export keeps exactly the households with a TAZ, each as often as in the table |
| Tables.PersonsExportFacts | austin_mp/data/usim_tables.py:665-668 | `PersonsExport`: the export holds exactly the persons with a TAZ (as a multiset), sorted by household id and numbered 0..n-1 |
| Classifiers.FirstNonzero | austin_mp/data/usim_tables.py:338-339 | 0 exactly when every code is 0; otherwise a code of the list preceded only by zeros |
| Classifiers.FirstNonzeroAt | austin_mp/data/usim_tables.py:338-339 | a nonzero code preceded only by zeros is the merged result |
| Classifiers.Coalesce | austin_mp/data/usim_tables.py:338-339 | the `where(..., inplace=True)` loop gives every row the first nonzero code across the series, in list order |
| Classifiers.Hht | austin_mp/data/usim_tables.py:303-306 | HHT is 1 exactly for one-person households and 4 otherwise |
| Classifiers.PtypeRules | austin_mp/data/usim_tables.py:316-341 | every age ≥ 0 gets a code in {1,3,4,5,6,7,8} and a negative age 0; ages 0-5 → 8, 6-15 → 7, 16-17 → 6; adults: student → 3, worker → 1, others 18-64 → 4, 65+ → 5 |
| Classifiers.PemployRules | austin_mp/data/usim_tables.py:344-355 | 1 iff a worker aged 16+, 3 iff a non-worker aged 16+, 4 iff under 16, so {1,3,4} for a 0/1 flag, and 0 iff another flag at 16+ |
| Classifiers.PstudentRules | austin_mp/data/usim_tables.py:358-369 | 1 iff age ≤ 18, 2 iff a student over 18, 3 iff a non-student over 18, so {1,2,3} for a 0/1 flag, and 0 iff another flag over 18 |
| Classifiers.PersonTypes | austin_mp/data/usim_tables.py:316-341 | the merged `ptype` column holds each person's type |
| Classifiers.EmploymentStatus | austin_mp/data/usim_tables.py:344-355 | the merged `pemploy` column holds each person's employment status |
| Classifiers.StudentStatus | austin_mp/data/usim_tables.py:358-369 | the merged `pstudent` column holds each person's student status |
| ZoneTotals.Tally | austin_mp/data/usim_tables.py:379-393 | a zone with no rows gets 0; with 0/1 weights the count is at most the number of rows |
| ZoneTotals.TallyAdd | austin_mp/data/usim_tables.py:379-534 | per-zone columns add up when the row weights do |
| ZoneTotals.TallyMono | austin_mp/data/usim_tables.py:461-474 | a per-zone column grows with its row weight |
| ZoneTotals.ZoneTotalConserved | austin_mp/data/usim_tables.py:379-393 | summed over distinct zones, a column counts each row located in one of them exactly once |
| ZoneTotals.TallyInCovers | austin_mp/data/usim_tables.py:379-394 | when every row lies in one of the zones, the rows in those zones weigh as much as the whole table |
| ZoneTotals.TallyWithinTotal | austin_mp/data/usim_tables.py:391-394 | with non-negative weights, a zone's sum is between 0 and the weight of the whole table |
| ZoneTotals.ResidentWorkersConserved | austin_mp/data/usim_tables.py:391-394 | EMPRES is between 0 and the table's workers in every zone when worker counts are non-negative, and over distinct zones covering every household it adds up to all the workers |
| ZoneTotals.EnrollmentConserved | austin_mp/data/usim_tables.py:558-561 | HSENROLL is between 0 and the table's enrollment in every zone when enrollments are non-negative, and over distinct zones covering every school it adds up to all the enrollment |
| ZoneTotals.IncomeBandsPartition | austin_mp/data/usim_tables.py:379-426 | HHINCQ1 + HHINCQ2 + HHINCQ3 + HHINCQ4 = TOTHH in every zone |
| ZoneTotals.AgeBandsPartition | austin_mp/data/usim_tables.py:385-466 | the five age bands add up to the zone's persons with a known age, and to HHPOP when no age is negative |
| ZoneTotals.Age65WithinAge62 | austin_mp/data/usim_tables.py:461-474 | AGE65P ≤ AGE62P in every zone |
| ZoneTotals.JobInOneSector | austin_mp/data/usim_tables.py:488-534 | every job counts in exactly one of the six employment columns |
| ZoneTotals.EmploymentPartition | austin_mp/data/usim_tables.py:482-534 | the OTHEMPN exclusion list is the union of the five sector sets, every job lies in exactly one column, and the six columns sum to TOTEMP |

## Left out

- Reading the HDF store and the S3 CSV files, opening and closing the OMX file on disk, and writing the CSV and shapefile outputs. The tables are parameters, and the container is a map in memory.
- The `orca` registry, its caching and `orca.run`. Dependencies are plain function composition.
- `simulation_mp.py`: pipeline and multiprocess bootstrap around ActivitySim internals.
- The education-data network fetches: `schools`, `colleges`, full- and part-time enrollment. School records are inputs.
- H3 decoding, shapely polygons, `.area` and CRS reprojection. These are function parameters of `ZoneBuilder`.
- The spatial join itself. Its rows are an input to `ZoneAssignment`.
- The buffer-growth loop of `assign_taz`. It grows a float buffer with no bound and may not terminate, so it is an oracle `recover`.
- The `TAZ` column of blocks is a map input. It is not tied to the output of `ZoneAssignment.AssignTaz`.
- Floating point:
  - the metre-to-mile and second-to-minute conversions are exact `real` arithmetic, with no rounding;
  - incomes and ages are integers, which the band partitions rely on.
- The acreage columns (TOTACRE, RESACRE, CIACRE) with their 0.01 fallbacks, densities, SHPOP62P, the parking-cost regressions, and the constant columns TOPOLOGY, area_type, TERMINAL and COUNTY.
- Column renames in the exports, and the land-use export.
- The internals of `openmatrix` and of `misc.reindex` are not part of this model. `misc.reindex` is taken to be a lookup by label, NaN when the label is missing.
- SeqUtil.SortBy: `sort_values` defaults to quicksort, which is not stable. The model sorts stably, so it fixes one of the orders pandas may produce. Among rows with equal area, the dedupe's choice is one of the smallest-area rows, not necessarily the row pandas keeps.
- Skims.SkimsOmx: the `assert num_taz.is_integer()` failure and the reshape `ValueError`s are modelled as a `false` result, not an exception.
