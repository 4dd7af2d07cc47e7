/** The BEAM-to-ActivitySim skim conversion of usim_tables.py (`skims_omx`):
    a long-format origin-destination table is cut into N x N matrices that
    are written, under composite names, into an OMX container. */
module Skims {
  import opened SeqUtil

  // ---------------------------------------------------------------------------
  // Input rows, measured columns and matrices

  /** One row of the BEAM skim table. Measured quantities are only copied
      (or scaled by a constant), so they are kept as exact reals. */
  datatype SkimRow = SkimRow(
    origTaz: string, destTaz: string, hour: int, mode: string,
    distanceInM: real, generalizedTimeInS: real, generalizedCost: real)

  /** The columns the measure maps can name. */
  datatype Column = DistMiles | GenCostMin | GeneralizedCost

  /** The derived columns `dist_miles` and `gen_cost_min`, and the raw
      `generalizedCost`. */
  function ColumnValue(r: SkimRow, c: Column): real
  {
    match c
    case DistMiles => r.distanceInM * (0.621371 / 1000.0)
    case GenCostMin => r.generalizedTimeInS / 60.0
    case GeneralizedCost => r.generalizedCost
  }

  /** `df[column].values` */
  function Values(rows: seq<SkimRow>, c: Column): (v: seq<real>)
    ensures |v| == |rows|
  {
    seq(|rows|, i requires 0 <= i < |rows| => ColumnValue(rows[i], c))
  }

  /** `df[df['mode'] == mode]`: the rows of one travel mode, in table order. */
  function ModeRows(rows: seq<SkimRow>, mode: string): (r: seq<SkimRow>)
    ensures |r| <= |rows|
    ensures forall x :: x in r ==> x in rows && x.mode == mode
  {
    Filter(rows, (x: SkimRow) => x.mode == mode)
  }

  type Matrix = seq<seq<real>>

  ghost predicate IsSquare(mx: Matrix, n: nat)
  {
    |mx| == n && forall i :: 0 <= i < n ==> |mx[i]| == n
  }

  // ---------------------------------------------------------------------------
  // Row-major reshape

  lemma RowFits(n: nat, i: nat)
    requires i < n
    ensures i * n + n <= n * n
  {
    assert (i + 1) * n <= n * n;
  }

  /** Row `i` of the row-major reshape. */
  function Row(vals: seq<real>, n: nat, i: nat): (row: seq<real>)
    requires |vals| == n * n && i < n
    ensures |row| == n
  {
    RowFits(n, i);
    vals[i * n .. i * n + n]
  }

  /** numpy `vals.reshape((n, n))`, which fails unless there are exactly
      n * n values. */
  function Reshape(vals: seq<real>, n: nat): (mx: Option<Matrix>)
    ensures mx.Some? <==> |vals| == n * n
    ensures mx.Some? ==> IsSquare(mx.value, n)
  {
    if |vals| != n * n then None
    else Some(seq(n, i requires 0 <= i < n => Row(vals, n, i)))
  }

  /** Entry (i, j) of a reshaped matrix is value i * n + j of the input. */
  lemma ReshapeAt(vals: seq<real>, n: nat, i: nat, j: nat)
    requires |vals| == n * n && i < n && j < n
    ensures i * n + j < |vals|
    ensures Reshape(vals, n).value[i][j] == vals[i * n + j]
  {
    RowFits(n, i);
  }

  /** Concatenating the rows again (numpy `ravel`). */
  function Flatten(mx: Matrix): (flat: seq<real>)
  {
    if mx == [] then [] else Flatten(mx[..|mx| - 1]) + mx[|mx| - 1]
  }

  /** The reshape is row-major and loses nothing: flattening it gives back the
      input column. */
  lemma {:induction false} ReshapeRoundTrip(vals: seq<real>, n: nat)
    requires |vals| == n * n
    ensures Flatten(Reshape(vals, n).value) == vals
  {
    var mx := Reshape(vals, n).value;
    FlattenPrefix(vals, n, n);
    assert mx[..n] == mx;
    assert vals[..n * n] == vals;
  }

  lemma {:induction false} FlattenPrefix(vals: seq<real>, n: nat, k: nat)
    requires |vals| == n * n && k <= n
    ensures k * n <= |vals|
    ensures Flatten(Reshape(vals, n).value[..k]) == vals[..k * n]
  {
    var mx := Reshape(vals, n).value;
    if k == 0 {
      assert mx[..0] == [];
    } else {
      FlattenPrefix(vals, n, k - 1);
      RowFits(n, k - 1);
      assert mx[..k][..k - 1] == mx[..k - 1];
      assert (k - 1) * n + n == k * n;
      assert vals[..k * n] == vals[..(k - 1) * n] + vals[(k - 1) * n .. k * n];
    }
  }

  /** numpy `zeros((n, n))`. */
  function Zeros(n: nat): (mx: Matrix)
    ensures IsSquare(mx, n)
    ensures forall i, j :: 0 <= i < n && 0 <= j < n ==> mx[i][j] == 0.0
  {
    seq(n, i => seq(n, j => 0.0))
  }

  // ---------------------------------------------------------------------------
  // Zone count N

  function Square(k: nat): nat { k * k }

  /** g * k^2 grows with k. */
  lemma GridMonotone(g: nat, a: nat, b: nat)
    requires a <= b
    ensures g * Square(a) <= g * Square(b)
  {
    assert a * a <= a * b <= b * b;
    assert g * (a * a) <= g * (b * b);
  }

  lemma GridStep(g: nat, r: nat)
    requires g > 0
    ensures g * Square(r + 1) < g * Square(r + 2)
  {
    assert Square(r + 2) == Square(r + 1) + 2 * r + 3;
    assert g * Square(r + 2) == g * Square(r + 1) + g * (2 * r + 3);
  }

  /** The largest k with g * k^2 <= total. */
  function GridRoot(total: nat, g: nat): (r: nat)
    requires g > 0
    ensures g * Square(r) <= total < g * Square(r + 1)
  {
    if total == 0 then
      assert g * Square(1) == g;
      0
    else
      var r := GridRoot(total - 1, g);
      if g * Square(r + 1) <= total then
        GridStep(g, r);
        r + 1
      else r
  }

  /** k is pinned by g * k^2 between consecutive grid sizes. */
  lemma GridPinned(g: nat, r: nat, k: nat)
    requires g > 0
    requires g * Square(r) <= g * Square(k) < g * Square(r + 1)
    ensures r == k
  {
    if r + 1 <= k {
      GridMonotone(g, r + 1, k);
    } else if k + 1 <= r {
      GridMonotone(g, k + 1, r);
      GridGrows(g, k);
    }
  }

  lemma GridGrows(g: nat, k: nat)
    requires g > 0
    ensures g * Square(k) < g * Square(k + 1)
  {
    assert Square(k + 1) == Square(k) + 2 * k + 1;
    assert g * Square(k + 1) == g * Square(k) + g * (2 * k + 1);
  }

  lemma GridRootExact(total: nat, g: nat, k: nat)
    requires g > 0 && total == g * Square(k)
    ensures GridRoot(total, g) == k
  {
    GridPinned(g, GridRoot(total, g), k);
  }

  /** `len(unique())` of the hour and mode columns. */
  function HourCount(rows: seq<SkimRow>): nat
  {
    |Unique(Project(rows, (r: SkimRow) => r.hour))|
  }

  function ModeCount(rows: seq<SkimRow>): nat
  {
    |Unique(Project(rows, (r: SkimRow) => r.mode))|
  }

  lemma CountsPositive(rows: seq<SkimRow>)
    requires |rows| > 0
    ensures HourCount(rows) > 0 && ModeCount(rows) > 0
  {
    var hours := Project(rows, (r: SkimRow) => r.hour);
    var modes := Project(rows, (r: SkimRow) => r.mode);
    assert hours[0] in hours && modes[0] in modes;
  }

  /** `num_taz = sqrt(len / num_hours / num_modes)` with
      `assert num_taz.is_integer()`: the table must hold hours x modes x N^2
      rows for a whole number N; an empty table divides by zero. */
  function GridSize(rows: seq<SkimRow>): (n: Option<nat>)
    ensures n.Some? ==> |rows| == HourCount(rows) * ModeCount(rows) * Square(n.value)
    ensures n.Some? <==>
      |rows| > 0 && exists k: nat :: |rows| == HourCount(rows) * ModeCount(rows) * Square(k)
  {
    if |rows| == 0 then None
    else
      CountsPositive(rows);
      var g := HourCount(rows) * ModeCount(rows);
      var r := GridRoot(|rows|, g);
      if g * Square(r) == |rows| then Some(r)
      else
        assert forall k: nat :: |rows| != g * Square(k) by {
          forall k: nat | |rows| == g * Square(k) ensures false {
            GridRootExact(|rows|, g, k);
          }
        }
        None
  }

  // ---------------------------------------------------------------------------
  // The catalogue of matrix names (usim_tables.py lines 19-48)

  const HwyPaths: seq<string> := ["SOV", "HOV2", "HOV3", "SOVTOLL", "HOV2TOLL", "HOV3TOLL"]
  const TransitModes: seq<string> := ["COM", "EXP", "HVY", "LOC", "LRF", "TRN"]
  const AccessModes: seq<string> := ["WLK", "DRV"]
  const EgressModes: seq<string> := ["WLK", "DRV"]
  const ActiveModes: seq<string> := ["WALK", "BIKE"]
  const Periods: seq<string> := ["EA", "AM", "MD", "PM", "EV"]

  /** An insertion-ordered dict from ActivitySim measure to skim column;
      `None` marks a measure with no source. */
  type MeasureMap = seq<(string, Option<Column>)>

  const HwyMeasureMap: MeasureMap := [
    ("TIME", Some(GenCostMin)),
    ("DIST", Some(DistMiles)),
    ("BTOLL", None),
    ("VTOLL", Some(GeneralizedCost))]

  const TransitMeasureMap: MeasureMap := [
    ("WAIT", None),
    ("TOTIVT", Some(GenCostMin)),
    ("KEYIVT", None),
    ("FERRYIVT", None),
    ("FAR", Some(GeneralizedCost)),
    ("DTIM", None),
    ("DDIST", None),
    ("WAUX", None),
    ("WEGR", None),
    ("WACC", None),
    ("IWAIT", None),
    ("XWAIT", None),
    ("BOARDS", None),
    ("IVT", Some(GenCostMin))]

  /** `dict.keys()` */
  function MeasureNames(m: MeasureMap): (names: seq<string>)
    ensures |names| == |m|
  {
    seq(|m|, i requires 0 <= i < |m| => m[i].0)
  }

  /** `dict[name]` */
  function Lookup(m: MeasureMap, name: string): Option<Column>
    requires name in MeasureNames(m)
  {
    if m[0].0 == name then m[0].1
    else
      assert MeasureNames(m) == [m[0].0] + MeasureNames(m[1..]);
      Lookup(m[1..], name)
  }

  const HwyMeasures: seq<string> := MeasureNames(HwyMeasureMap)
  const TransitMeasures: seq<string> := MeasureNames(TransitMeasureMap)

  /** A route in a matrix name: a highway path, or `access_transit_egress`. */
  datatype Path = Highway(name: string) | Transit(access: string, mode: string, egress: string)

  /** What is written: `DIST` + suffix, or path, measure and time period. */
  datatype SkimKey =
    | Distance(suffix: string)
    | Measure(path: Path, measure: string, period: string)

  function PathName(p: Path): string
  {
    match p
    case Highway(name) => name
    case Transit(a, m, e) => a + "_" + m + "_" + e
  }

  /** The name under which a matrix is stored: `'DIST{0}'.format(mode)` and
      `'{0}_{1}__{2}'.format(path, measure, period)`. */
  function KeyName(k: SkimKey): string
  {
    match k
    case Distance(s) => "DIST" + s
    case Measure(p, m, t) => PathName(p) + "_" + m + "__" + t
  }

  /** The conditions under which names can be split back into their parts. */
  ghost predicate WellFormed(k: SkimKey)
  {
    match k
    case Distance(s) => '_' !in s
    case Measure(p, m, t) => |t| == 2 && '_' !in m && WellFormedPath(p)
  }

  /** The path parts after the first underscore hold none of their own. */
  ghost predicate WellFormedPath(p: Path)
  {
    match p
    case Highway(name) => '_' !in name
    case Transit(_, mode, egress) => '_' !in mode && '_' !in egress
  }

  /** Splitting at the last underscore recovers both parts. */
  lemma SplitLast(a: string, b: string, c: string, d: string)
    requires '_' !in b && '_' !in d
    requires a + "_" + b == c + "_" + d
    ensures a == c && b == d
  {
    var s := a + "_" + b;
    assert s[|a|] == '_' && s[|c|] == '_';
    forall i | |a| < i < |s| ensures s[i] != '_' {
      assert s[i] == b[i - |a| - 1];
    }
    forall i | |c| < i < |s| ensures s[i] != '_' {
      assert s[i] == d[i - |c| - 1];
    }
    assert |a| == |c|;
    assert b == s[|a| + 1..] == d;
    assert a == s[..|a|] == c;
  }

  /** Only transit path names contain an underscore. */
  lemma PathUnderscore(p: Path)
    requires p.Highway? ==> '_' !in p.name
    ensures ('_' in PathName(p)) == p.Transit?
  {
    match p
    case Highway(_) =>
    case Transit(a, m, e) => assert PathName(p)[|a|] == '_';
  }

  lemma PathNameInjective(p: Path, q: Path)
    requires WellFormedPath(p) && WellFormedPath(q)
    requires PathName(p) == PathName(q)
    ensures p == q
  {
    PathUnderscore(p);
    PathUnderscore(q);
    if p.Transit? && q.Transit? {
      SplitLast(p.access + "_" + p.mode, p.egress, q.access + "_" + q.mode, q.egress);
      SplitLast(p.access, p.mode, q.access, q.mode);
    }
  }

  /** Only path-measure-period names contain an underscore. */
  lemma KeyUnderscore(k: SkimKey)
    requires WellFormed(k)
    ensures ('_' in KeyName(k)) == k.Measure?
  {
    match k
    case Distance(x) =>
      forall i | 0 <= i < |KeyName(k)| ensures KeyName(k)[i] != '_' {
        if i >= 4 { assert KeyName(k)[i] == x[i - 4]; }
      }
    case Measure(p, m, t) => assert KeyName(k)[|PathName(p)|] == '_';
  }

  /** Distinct well-formed keys have distinct names. */
  lemma KeyNameInjective(k: SkimKey, l: SkimKey)
    requires WellFormed(k) && WellFormed(l)
    requires KeyName(k) == KeyName(l)
    ensures k == l
  {
    var s := KeyName(k);
    KeyUnderscore(k);
    KeyUnderscore(l);
    if k.Distance? && l.Distance? {
      assert k.suffix == s[4..] == l.suffix;
    } else if k.Measure? && l.Measure? {
      var head := PathName(k.path) + "_" + k.measure;
      var head' := PathName(l.path) + "_" + l.measure;
      assert s == head + "__" + k.period;
      assert s == head' + "__" + l.period;
      assert k.period == s[|s| - 2..] == l.period;
      assert head == s[..|s| - 4] == head';
      SplitLast(PathName(k.path), k.measure, PathName(l.path), l.measure);
      PathNameInjective(k.path, l.path);
    }
  }

  /** `for measure in measure_map.keys()` under one path and period. */
  function MeasureKeys(path: Path, names: seq<string>, period: string): (r: seq<SkimKey>)
    ensures |r| == |names|
  {
    seq(|names|, i requires 0 <= i < |names| => Measure(path, names[i], period))
  }

  lemma MeasureKeysFacts(path: Path, names: seq<string>, period: string)
    requires Distinct(names)
    ensures Distinct(MeasureKeys(path, names, period))
    ensures forall k :: k in MeasureKeys(path, names, period) <==>
      k.Measure? && k.path == path && k.measure in names && k.period == period
  {
    var r := MeasureKeys(path, names, period);
    forall k: SkimKey | k.Measure? && k.path == path && k.measure in names && k.period == period
      ensures k in r
    {
      var i :| 0 <= i < |names| && names[i] == k.measure;
      assert r[i] == k;
    }
  }

  lemma MulSucc(a: nat, m: nat)
    ensures (a + 1) * m == a * m + m
  {
  }

  /** The measure names of a path's map: the highway or the transit list. */
  function RouteMeasures(p: Path): (names: seq<string>)
    ensures names == MeasureNames(MeasureMapOf(p))
  {
    if p.Highway? then HwyMeasures else TransitMeasures
  }

  lemma HighwayKeysStep(paths: seq<string>, p: nat, measures: seq<string>, period: string)
    requires p < |paths|
    ensures HighwayKeys(paths[..p + 1], measures, period) ==
      HighwayKeys(paths[..p], measures, period) + MeasureKeys(Highway(paths[p]), measures, period)
  {
    assert paths[..p + 1][..p] == paths[..p];
  }

  lemma EgressKeysStep(access: string, mode: string, egresses: seq<string>, c: nat,
                       measures: seq<string>, period: string)
    requires c < |egresses|
    ensures EgressKeys(access, mode, egresses[..c + 1], measures, period) ==
      EgressKeys(access, mode, egresses[..c], measures, period) +
      MeasureKeys(Transit(access, mode, egresses[c]), measures, period)
  {
    assert egresses[..c + 1][..c] == egresses[..c];
  }

  lemma AccessKeysStep(mode: string, accesses: seq<string>, b: nat, egresses: seq<string>,
                       measures: seq<string>, period: string)
    requires b < |accesses|
    ensures AccessKeys(mode, accesses[..b + 1], egresses, measures, period) ==
      AccessKeys(mode, accesses[..b], egresses, measures, period) +
      EgressKeys(accesses[b], mode, egresses, measures, period)
  {
    assert accesses[..b + 1][..b] == accesses[..b];
  }

  lemma TransitKeysStep(modes: seq<string>, a: nat, accesses: seq<string>, egresses: seq<string>,
                        measures: seq<string>, period: string)
    requires a < |modes|
    ensures TransitKeys(modes[..a + 1], accesses, egresses, measures, period) ==
      TransitKeys(modes[..a], accesses, egresses, measures, period) +
      AccessKeys(modes[a], accesses, egresses, measures, period)
  {
    assert modes[..a + 1][..a] == modes[..a];
  }

  /** `for path in hwy_paths: for measure in ...` */
  function HighwayKeys(paths: seq<string>, measures: seq<string>, period: string): seq<SkimKey>
  {
    if paths == [] then []
    else
      HighwayKeys(paths[..|paths| - 1], measures, period) +
      MeasureKeys(Highway(paths[|paths| - 1]), measures, period)
  }

  /** Over distinct paths and measures the highway block lists every
      path x measure pair of the period exactly once. */
  lemma {:induction false} HighwayKeysFacts(paths: seq<string>, measures: seq<string>, period: string)
    requires Distinct(paths) && Distinct(measures)
    ensures |HighwayKeys(paths, measures, period)| == |paths| * |measures|
    ensures Distinct(HighwayKeys(paths, measures, period))
    ensures forall k :: k in HighwayKeys(paths, measures, period) <==>
      k.Measure? && k.path.Highway? && k.path.name in paths &&
      k.measure in measures && k.period == period
  {
    if paths != [] {
      var init := paths[..|paths| - 1];
      var last := paths[|paths| - 1];
      assert paths == init + [last];
      assert Distinct(init) && last !in init;
      HighwayKeysFacts(init, measures, period);
      var a := HighwayKeys(init, measures, period);
      var b := MeasureKeys(Highway(last), measures, period);
      MeasureKeysFacts(Highway(last), measures, period);
      DistinctAppend(a, b);
      MulSucc(|init|, |measures|);
    }
  }

  /** `for egress_mode in egress_modes: for measure in ...` */
  function EgressKeys(access: string, mode: string, egresses: seq<string>, measures: seq<string>,
                      period: string): seq<SkimKey>
  {
    if egresses == [] then []
    else
      EgressKeys(access, mode, egresses[..|egresses| - 1], measures, period) +
      MeasureKeys(Transit(access, mode, egresses[|egresses| - 1]), measures, period)
  }

  /** Over distinct egress modes and measures the egress loop lists every
      egress x measure pair of one access and transit mode exactly once. */
  lemma {:induction false} EgressKeysFacts(access: string, mode: string, egresses: seq<string>,
                                           measures: seq<string>, period: string)
    requires Distinct(egresses) && Distinct(measures)
    ensures |EgressKeys(access, mode, egresses, measures, period)| == |egresses| * |measures|
    ensures Distinct(EgressKeys(access, mode, egresses, measures, period))
    ensures forall k :: k in EgressKeys(access, mode, egresses, measures, period) <==>
      k.Measure? && k.path.Transit? && k.path.access == access && k.path.mode == mode &&
      k.path.egress in egresses && k.measure in measures && k.period == period
  {
    if egresses != [] {
      var init := egresses[..|egresses| - 1];
      var last := egresses[|egresses| - 1];
      assert egresses == init + [last];
      assert Distinct(init) && last !in init;
      EgressKeysFacts(access, mode, init, measures, period);
      var a := EgressKeys(access, mode, init, measures, period);
      var b := MeasureKeys(Transit(access, mode, last), measures, period);
      MeasureKeysFacts(Transit(access, mode, last), measures, period);
      DistinctAppend(a, b);
      MulSucc(|init|, |measures|);
    }
  }

  /** `for access_mode in access_modes: for egress_mode in ...` */
  function AccessKeys(mode: string, accesses: seq<string>, egresses: seq<string>,
                      measures: seq<string>, period: string): seq<SkimKey>
  {
    if accesses == [] then []
    else
      AccessKeys(mode, accesses[..|accesses| - 1], egresses, measures, period) +
      EgressKeys(accesses[|accesses| - 1], mode, egresses, measures, period)
  }

  /** The access loop under one transit mode lists every access x egress x
      measure combination exactly once. */
  lemma {:induction false} AccessKeysFacts(mode: string, accesses: seq<string>, egresses: seq<string>,
                                           measures: seq<string>, period: string)
    requires Distinct(accesses) && Distinct(egresses) && Distinct(measures)
    ensures |AccessKeys(mode, accesses, egresses, measures, period)| == |accesses| * (|egresses| * |measures|)
    ensures Distinct(AccessKeys(mode, accesses, egresses, measures, period))
    ensures forall k :: k in AccessKeys(mode, accesses, egresses, measures, period) <==>
      k.Measure? && k.path.Transit? && k.path.access in accesses && k.path.mode == mode &&
      k.path.egress in egresses && k.measure in measures && k.period == period
  {
    if accesses != [] {
      var init := accesses[..|accesses| - 1];
      var last := accesses[|accesses| - 1];
      assert accesses == init + [last];
      assert Distinct(init) && last !in init;
      AccessKeysFacts(mode, init, egresses, measures, period);
      var a := AccessKeys(mode, init, egresses, measures, period);
      var b := EgressKeys(last, mode, egresses, measures, period);
      EgressKeysFacts(last, mode, egresses, measures, period);
      DistinctAppend(a, b);
      MulSucc(|init|, |egresses| * |measures|);
    }
  }

  /** `for transit_mode in transit_modes: for access_mode in ...` */
  function TransitKeys(modes: seq<string>, accesses: seq<string>, egresses: seq<string>,
                       measures: seq<string>, period: string): seq<SkimKey>
  {
    if modes == [] then []
    else
      TransitKeys(modes[..|modes| - 1], accesses, egresses, measures, period) +
      AccessKeys(modes[|modes| - 1], accesses, egresses, measures, period)
  }

  /** The transit block lists every transit mode x access x egress x measure
      combination of the period exactly once. */
  lemma {:induction false} TransitKeysFacts(modes: seq<string>, accesses: seq<string>, egresses: seq<string>,
                                            measures: seq<string>, period: string)
    requires Distinct(modes) && Distinct(accesses) && Distinct(egresses) && Distinct(measures)
    ensures |TransitKeys(modes, accesses, egresses, measures, period)| ==
      |modes| * (|accesses| * (|egresses| * |measures|))
    ensures Distinct(TransitKeys(modes, accesses, egresses, measures, period))
    ensures forall k :: k in TransitKeys(modes, accesses, egresses, measures, period) <==>
      k.Measure? && k.path.Transit? && k.path.access in accesses && k.path.mode in modes &&
      k.path.egress in egresses && k.measure in measures && k.period == period
  {
    if modes != [] {
      var init := modes[..|modes| - 1];
      var last := modes[|modes| - 1];
      assert modes == init + [last];
      assert Distinct(init) && last !in init;
      TransitKeysFacts(init, accesses, egresses, measures, period);
      var a := TransitKeys(init, accesses, egresses, measures, period);
      var b := AccessKeys(last, accesses, egresses, measures, period);
      AccessKeysFacts(last, accesses, egresses, measures, period);
      DistinctAppend(a, b);
      MulSucc(|init|, |accesses| * (|egresses| * |measures|));
    }
  }

  /** Everything one iteration of the period loop writes: the highway
      block, then the transit block. */
  function RouteKeys(period: string): seq<SkimKey>
  {
    HighwayRouteKeys(period) + TransitRouteKeys(period)
  }

  /** The highway block of one period. */
  function HighwayRouteKeys(period: string): seq<SkimKey>
  {
    HighwayKeys(HwyPaths, HwyMeasures, period)
  }

  /** The transit block of one period. */
  function TransitRouteKeys(period: string): seq<SkimKey>
  {
    TransitKeys(TransitModes, AccessModes, EgressModes, TransitMeasures, period)
  }

  lemma HighwayRoutes(period: string)
    ensures |HighwayRouteKeys(period)| == 24
    ensures Distinct(HighwayRouteKeys(period))
    ensures forall k :: k in HighwayRouteKeys(period) <==>
      k.Measure? && k.path.Highway? && k.period == period && KnownRoute(k)
  {
    ModeListsDistinct();
    HwyMeasuresDistinct();
    HighwayKeysFacts(HwyPaths, HwyMeasures, period);
  }

  lemma TransitRoutes(period: string)
    ensures |TransitRouteKeys(period)| == 336
    ensures Distinct(TransitRouteKeys(period))
    ensures forall k :: k in TransitRouteKeys(period) <==>
      k.Measure? && k.path.Transit? && k.period == period && KnownRoute(k)
  {
    ModeListsDistinct();
    TransitMeasuresDistinct();
    TransitKeysFacts(TransitModes, AccessModes, EgressModes, TransitMeasures, period);
  }

  /** One period writes 6 x 4 highway and 24 x 14 transit matrices, each
      once, and exactly the known route and measure combinations. */
  lemma RouteKeysFacts(period: string)
    ensures |RouteKeys(period)| == 360
    ensures Distinct(RouteKeys(period))
    ensures forall k :: k in RouteKeys(period) <==> k.Measure? && k.period == period && KnownRoute(k)
  {
    HighwayRoutes(period);
    TransitRoutes(period);
    var a := HighwayRouteKeys(period);
    var b := TransitRouteKeys(period);
    DistinctAppend(a, b);
    forall k: SkimKey ensures k in a + b <==> k.Measure? && k.period == period && KnownRoute(k) {
      assert k in a + b <==> k in a || k in b;
    }
  }

  /** A path-and-measure combination the catalogue contains. */
  ghost predicate KnownRoute(k: SkimKey)
    requires k.Measure?
  {
    match k.path
    case Highway(name) => name in HwyPaths && k.measure in HwyMeasures
    case Transit(a, m, e) =>
      a in AccessModes && m in TransitModes && e in EgressModes && k.measure in TransitMeasures
  }

  /** `for period in periods: ...` */
  function PeriodKeys(periods: seq<string>): seq<SkimKey>
  {
    if periods == [] then []
    else PeriodKeys(periods[..|periods| - 1]) + RouteKeys(periods[|periods| - 1])
  }

  lemma PeriodKeysStep(periods: seq<string>, t: nat)
    requires t < |periods|
    ensures PeriodKeys(periods[..t + 1]) == PeriodKeys(periods[..t]) + RouteKeys(periods[t])
  {
    assert periods[..t + 1][..t] == periods[..t];
  }

  /** Over distinct periods the period loop writes 360 keys per period, each
      once, and exactly the known routes of the listed periods. */
  lemma {:induction false} PeriodKeysFacts(periods: seq<string>)
    requires Distinct(periods)
    ensures |PeriodKeys(periods)| == 360 * |periods|
    ensures Distinct(PeriodKeys(periods))
    ensures forall k :: k in PeriodKeys(periods) <==> k.Measure? && k.period in periods && KnownRoute(k)
  {
    if periods != [] {
      var init := periods[..|periods| - 1];
      var last := periods[|periods| - 1];
      assert periods == init + [last];
      assert Distinct(init) && last !in init;
      PeriodKeysFacts(init);
      RouteKeysFacts(last);
      var a := PeriodKeys(init);
      var b := RouteKeys(last);
      DistinctAppend(a, b);
      forall k: SkimKey ensures k in a + b <==> k.Measure? && k.period in periods && KnownRoute(k) {
        assert k in a + b <==> k in a || k in b;
      }
    }
  }

  /** `DIST{mode}` for each active mode. */
  function DistanceKeys(modes: seq<string>): seq<SkimKey>
  {
    if modes == [] then []
    else DistanceKeys(modes[..|modes| - 1]) + [Distance(modes[|modes| - 1])]
  }

  lemma DistanceKeysStep(modes: seq<string>, i: nat)
    requires i < |modes|
    ensures DistanceKeys(modes[..i + 1]) == DistanceKeys(modes[..i]) + [Distance(modes[i])]
  {
    assert modes[..i + 1][..i] == modes[..i];
  }

  /** The key the catalogue holds. */
  ghost predicate InCatalogue(k: SkimKey)
  {
    match k
    case Distance(s) => s == "" || s in ActiveModes
    case Measure(_, _, t) => t in Periods && KnownRoute(k)
  }

  /** Every matrix key `skims_omx` writes on success, in write order. */
  function Catalogue(): (r: seq<SkimKey>)
    ensures |r| == 1803
    ensures Distinct(r)
    ensures forall k :: k in r <==> InCatalogue(k)
  {
    CatalogueLength();
    CatalogueDistinct();
    CatalogueMembers();
    CatalogueKeys()
  }

  function CatalogueKeys(): seq<SkimKey>
  {
    HeaderKeys() + PeriodKeys(Periods)
  }

  /** `DIST`, then `DIST{mode}` for each active mode. */
  function HeaderKeys(): seq<SkimKey>
  {
    [Distance("")] + DistanceKeys(ActiveModes)
  }

  lemma CatalogueLength()
    ensures |CatalogueKeys()| == 1803
  {
    DistanceHeader();
    PeriodsDistinct();
    PeriodKeysFacts(Periods);
  }

  lemma CatalogueDistinct()
    ensures Distinct(CatalogueKeys())
  {
    var d := HeaderKeys();
    DistanceHeader();
    PeriodsDistinct();
    var p := PeriodKeys(Periods);
    PeriodKeysFacts(Periods);
    DistinctAppend(d, p);
  }

  lemma CatalogueMembers()
    ensures forall k :: k in CatalogueKeys() <==> InCatalogue(k)
  {
    var d := HeaderKeys();
    DistanceHeader();
    PeriodsDistinct();
    var p := PeriodKeys(Periods);
    PeriodKeysFacts(Periods);
    forall k: SkimKey ensures k in d + p <==> InCatalogue(k) {
      assert k in d + p <==> k in d || k in p;
    }
  }

  /** `DIST`, `DISTWALK`, `DISTBIKE` */
  lemma DistanceHeader()
    ensures HeaderKeys() == [Distance(""), Distance("WALK"), Distance("BIKE")]
    ensures Distinct(HeaderKeys())
    ensures forall k :: k in HeaderKeys() <==>
      k.Distance? && (k.suffix == "" || k.suffix in ActiveModes)
  {
    assert ActiveModes[..1] == ["WALK"];
    assert DistanceKeys(ActiveModes) == [Distance("WALK"), Distance("BIKE")];
  }

  lemma PeriodsDistinct()
    ensures Distinct(Periods)
  {
  }

  lemma HwyMeasuresDistinct()
    ensures Distinct(HwyMeasures)
    ensures forall m :: m in HwyMeasures ==> '_' !in m
  {
  }

  lemma TransitMeasuresDistinct()
    ensures Distinct(TransitMeasures)
    ensures forall m :: m in TransitMeasures ==> '_' !in m
  {
  }

  lemma ModeListsDistinct()
    ensures Distinct(HwyPaths) && Distinct(TransitModes) && Distinct(AccessModes)
    ensures Distinct(EgressModes) && Distinct(ActiveModes) && Distinct(Periods)
    ensures forall s :: s in HwyPaths ==> '_' !in s
    ensures forall s :: s in TransitModes ==> '_' !in s
    ensures forall s :: s in EgressModes ==> '_' !in s
    ensures forall s :: s in ActiveModes ==> '_' !in s
    ensures forall s :: s in Periods ==> |s| == 2
  {
  }

  /** Every catalogue key can be read back from its name. */
  lemma CatalogueWellFormed(k: SkimKey)
    requires InCatalogue(k)
    ensures WellFormed(k)
  {
    ModeListsDistinct();
    HwyMeasuresDistinct();
    TransitMeasuresDistinct();
  }

  /** The 1803 catalogue names are pairwise distinct. */
  lemma {:induction false} CatalogueNamesDistinct()
    ensures Distinct(Project(Catalogue(), KeyName))
    ensures |set k | k in Catalogue() :: KeyName(k)| == 1803
  {
    var c := Catalogue();
    var names := Project(c, KeyName);
    forall i, j | 0 <= i < j < |names| ensures names[i] != names[j] {
      if names[i] == names[j] {
        CatalogueWellFormed(c[i]);
        CatalogueWellFormed(c[j]);
        KeyNameInjective(c[i], c[j]);
      }
    }
    DistinctCard(names);
    assert (set k | k in c :: KeyName(k)) == (set x | x in names) by {
      forall x | x in names ensures x in (set k | k in c :: KeyName(k)) {
        var i :| 0 <= i < |names| && names[i] == x;
        assert c[i] in c;
      }
      forall k | k in c ensures KeyName(k) in names {
        var i :| 0 <= i < |c| && c[i] == k;
        assert names[i] == KeyName(k);
      }
    }
  }

  // ---------------------------------------------------------------------------
  // What each key holds

  /** The rows a key's matrix is cut from: `DIST` uses CAR, the active-mode
      distances use BIKE, and every highway and transit matrix uses the CAR
      rows; no key filters by hour or period. */
  function SourceRows(rows: seq<SkimRow>, k: SkimKey): seq<SkimRow>
  {
    if k.Distance? && k.suffix != "" then ModeRows(rows, "BIKE") else ModeRows(rows, "CAR")
  }

  ghost predicate KnownMeasure(k: SkimKey)
  {
    k.Measure? ==> k.measure in MeasureNames(MeasureMapOf(k.path))
  }

  /** The column a key's matrix is taken from; `None` means zero-filled. */
  function KeyColumn(k: SkimKey): Option<Column>
    requires KnownMeasure(k)
  {
    match k
    case Distance(_) => HwyDistColumn(); Lookup(HwyMeasureMap, "DIST")
    case Measure(p, m, _) => Lookup(MeasureMapOf(p), m)
  }

  /** Highway matrices take their measures from the highway map, transit
      matrices from the transit map. */
  function MeasureMapOf(p: Path): MeasureMap
  {
    if p.Highway? then HwyMeasureMap else TransitMeasureMap
  }

  /** `beam_asim_hwy_measure_map['DIST']` is `dist_miles`. */
  lemma HwyDistColumn()
    ensures "DIST" in MeasureNames(HwyMeasureMap)
    ensures Lookup(HwyMeasureMap, "DIST") == Some(DistMiles)
  {
    assert MeasureNames(HwyMeasureMap)[1] == "DIST";
  }

  /** The key's matrix can be built from `rows` with N = n. */
  ghost predicate Ready(rows: seq<SkimRow>, n: nat, k: SkimKey)
  {
    KnownMeasure(k) && (KeyColumn(k).Some? ==> |SourceRows(rows, k)| == n * n)
  }

  /** Every key of the list can be built. */
  ghost predicate AllReady(rows: seq<SkimRow>, n: nat, keys: seq<SkimKey>)
  {
    forall k :: k in keys ==> Ready(rows, n, k)
  }

  /** The matrix stored under a key. */
  function MatrixOf(rows: seq<SkimRow>, n: nat, k: SkimKey): (mx: Matrix)
    requires Ready(rows, n, k)
    ensures IsSquare(mx, n)
  {
    match KeyColumn(k)
    case None => Zeros(n)
    case Some(c) => Reshape(Values(SourceRows(rows, k), c), n).value
  }

  /** Writing the matrices of `keys`, in order, into a container holding `m`. */
  function Apply(m: map<string, Matrix>, keys: seq<SkimKey>, rows: seq<SkimRow>, n: nat): map<string, Matrix>
    requires AllReady(rows, n, keys)
  {
    if keys == [] then m
    else
      var last := keys[|keys| - 1];
      Apply(m, keys[..|keys| - 1], rows, n)[KeyName(last) := MatrixOf(rows, n, last)]
  }

  lemma ApplyOne(m: map<string, Matrix>, k: SkimKey, rows: seq<SkimRow>, n: nat)
    requires Ready(rows, n, k)
    ensures Apply(m, [k], rows, n) == m[KeyName(k) := MatrixOf(rows, n, k)]
  {
    assert [k][..0] == [];
  }

  /** Writing one more key. */
  lemma ApplySnoc(m: map<string, Matrix>, a: seq<SkimKey>, k: SkimKey, rows: seq<SkimRow>, n: nat)
    requires AllReady(rows, n, a) && Ready(rows, n, k)
    ensures AllReady(rows, n, a + [k])
    ensures Apply(m, a + [k], rows, n) == Apply(m, a, rows, n)[KeyName(k) := MatrixOf(rows, n, k)]
  {
    assert (a + [k])[..|a|] == a;
  }

  /** Writing `a` and then `b` is writing `a + b`. */
  lemma {:induction false} ApplyAppend(m: map<string, Matrix>, a: seq<SkimKey>, b: seq<SkimKey>, rows: seq<SkimRow>, n: nat)
    requires AllReady(rows, n, a) && AllReady(rows, n, b)
    ensures AllReady(rows, n, a + b)
    ensures Apply(m, a + b, rows, n) == Apply(Apply(m, a, rows, n), b, rows, n)
  {
    if b == [] {
      assert a + b == a;
    } else {
      var b' := b[..|b| - 1];
      var last := b[|b| - 1];
      assert b == b' + [last];
      assert a + b == (a + b') + [last];
      ApplyAppend(m, a, b', rows, n);
      ApplySnoc(m, a + b', last, rows, n);
      ApplySnoc(Apply(m, a, rows, n), b', last, rows, n);
    }
  }

  lemma {:induction false} ApplyKeys(m: map<string, Matrix>, keys: seq<SkimKey>, rows: seq<SkimRow>, n: nat)
    requires AllReady(rows, n, keys)
    ensures Apply(m, keys, rows, n).Keys == m.Keys + set k | k in keys :: KeyName(k)
  {
    if keys != [] {
      var init := keys[..|keys| - 1];
      var last := keys[|keys| - 1];
      assert keys == init + [last];
      ApplyKeys(m, init, rows, n);
      NamesSnoc(init, last);
    }
  }

  /** The names of a key list extended by one key. */
  lemma NamesSnoc(init: seq<SkimKey>, last: SkimKey)
    ensures (set k | k in init + [last] :: KeyName(k)) == (set k | k in init :: KeyName(k)) + {KeyName(last)}
  {
    var keys := init + [last];
    forall k | k in keys
      ensures KeyName(k) in (set k | k in init :: KeyName(k)) + {KeyName(last)}
    {
      if k != last {
        assert k in init;
      }
    }
  }

  /** A key written exactly once under its name holds its own matrix. */
  lemma {:induction false} ApplyValue(m: map<string, Matrix>, keys: seq<SkimKey>, rows: seq<SkimRow>, n: nat, k: SkimKey)
    requires AllReady(rows, n, keys)
    requires k in keys
    requires forall l :: l in keys && KeyName(l) == KeyName(k) ==> l == k
    ensures KeyName(k) in Apply(m, keys, rows, n)
    ensures Apply(m, keys, rows, n)[KeyName(k)] == MatrixOf(rows, n, k)
  {
    var init := keys[..|keys| - 1];
    var last := keys[|keys| - 1];
    if last != k {
      InInit(keys, k);
      assert KeyName(last) != KeyName(k);
      ApplyValue(m, init, rows, n, k);
    }
  }

  // ---------------------------------------------------------------------------
  // The conversion step

  /** The rows of `mode` reshape to an N x N matrix. */
  predicate Fits(rows: seq<SkimRow>, mode: string, n: nat)
  {
    |ModeRows(rows, mode)| == n * n
  }

  /** The conditions under which `skims_omx` completes. */
  predicate Succeeds(rows: seq<SkimRow>)
  {
    GridSize(rows).Some? &&
    Fits(rows, "CAR", GridSize(rows).value) && Fits(rows, "BIKE", GridSize(rows).value)
  }

  function GridOrZero(rows: seq<SkimRow>): nat
  {
    if GridSize(rows).Some? then GridSize(rows).value else 0
  }

  /** The distance keys written before the first reshape that fails. */
  function HeaderWritten(rows: seq<SkimRow>, n: nat): (keys: seq<SkimKey>)
    ensures AllReady(rows, n, keys)
  {
    HwyDistColumn();
    if !Fits(rows, "CAR", n) then []
    else if !Fits(rows, "BIKE", n) then [Distance("")]
    else
      DistanceHeader();
      HeaderKeys()
  }

  /** The keys written before the step completes or fails: nothing when N is
      not whole or the CAR reshape fails, only `DIST` when the BIKE reshape
      fails, otherwise the whole catalogue. */
  function Written(rows: seq<SkimRow>): (keys: seq<SkimKey>)
    ensures AllReady(rows, GridOrZero(rows), keys)
  {
    if GridSize(rows).None? then []
    else
      var n := GridSize(rows).value;
      if Succeeds(rows) then
        forall k | k in Catalogue() ensures Ready(rows, n, k) {
          CatalogueWellFormed(k);
          HwyDistColumn();
        }
        Catalogue()
      else HeaderWritten(rows, n)
  }

  /** The OMX file the step writes into: a container of named matrices. */
  class OmxFile {
    var matrices: map<string, Matrix>

    /** `omx.open_file(path, 'w')`: a new, empty container. */
    constructor ()
      ensures matrices == map[]
    {
      matrices := map[];
    }

    /** `skims[name] = mx` */
    method Put(name: string, mx: Matrix)
      modifies this
      ensures matrices == old(matrices)[name := mx]
    {
      matrices := matrices[name := mx];
    }
  }

  /** The measure loop for one path and period: every measure of `measures`
      is written, a reshape of `src` when it has a column, zeros otherwise. */
  method WriteMeasures(omx: OmxFile, path: Path, measures: MeasureMap, period: string,
                       src: seq<SkimRow>, n: nat, ghost rows: seq<SkimRow>)
    requires measures == MeasureMapOf(path)
    requires src == ModeRows(rows, "CAR") && |src| == n * n
    modifies omx
    ensures AllReady(rows, n, MeasureKeys(path, RouteMeasures(path), period))
    ensures omx.matrices ==
      Apply(old(omx.matrices), MeasureKeys(path, RouteMeasures(path), period), rows, n)
  {
    var names := MeasureNames(measures);
    assert names == RouteMeasures(path);
    ghost var m0 := omx.matrices;
    ghost var done: seq<SkimKey> := [];
    for q := 0 to |names|
      invariant done == MeasureKeys(path, names[..q], period)
      invariant AllReady(rows, n, done)
      invariant omx.matrices == Apply(m0, done, rows, n)
    {
      var measure := names[q];
      var name := PathName(path) + "_" + measure + "__" + period;
      var col := Lookup(measures, measure);
      var mx: Matrix;
      if col.Some? {
        var r := Reshape(Values(src, col.value), n);
        mx := r.value;
      } else {
        mx := Zeros(n);
      }
      ghost var key := Measure(path, measure, period);
      MeasureMatrix(rows, n, path, measure, period);
      ApplySnoc(m0, done, key, rows, n);
      MeasureKeysSnoc(path, names, q, period);
      omx.Put(name, mx);
      done := done + [key];
    }
    assert names[..|names|] == names;
  }

  /** The matrix of one measure of one route: the reshaped column the
      measure map names, cut from the CAR rows, or zeros. */
  lemma MeasureMatrix(rows: seq<SkimRow>, n: nat, path: Path, measure: string, period: string)
    requires measure in MeasureNames(MeasureMapOf(path))
    requires |ModeRows(rows, "CAR")| == n * n
    ensures Ready(rows, n, Measure(path, measure, period))
    ensures MatrixOf(rows, n, Measure(path, measure, period)) ==
      match Lookup(MeasureMapOf(path), measure)
      case None => Zeros(n)
      case Some(c) => Reshape(Values(ModeRows(rows, "CAR"), c), n).value
  {
  }

  lemma MeasureKeysSnoc(path: Path, names: seq<string>, q: nat, period: string)
    requires q < |names|
    ensures MeasureKeys(path, names[..q + 1], period) ==
      MeasureKeys(path, names[..q], period) + [Measure(path, names[q], period)]
  {
  }

  /** The matrix of a distance key: the `dist_miles` column of the CAR rows
      for `DIST`, of the BIKE rows for every other suffix. */
  lemma DistanceMatrix(rows: seq<SkimRow>, n: nat, suffix: string)
    requires |SourceRows(rows, Distance(suffix))| == n * n
    ensures KeyName(Distance(suffix)) == "DIST" + suffix
    ensures Ready(rows, n, Distance(suffix))
    ensures MatrixOf(rows, n, Distance(suffix)) ==
      Reshape(Values(ModeRows(rows, if suffix == "" then "CAR" else "BIKE"), DistMiles), n).value
  {
    HwyDistColumn();
  }

  /** The distance block of `skims_omx`: `DIST` from the CAR rows, then
      `DISTWALK` and `DISTBIKE`, both from the BIKE rows (walk distances are
      bike distances). */
  method WriteDistances(omx: OmxFile, skims: seq<SkimRow>, n: nat) returns (ok: bool)
    modifies omx
    ensures ok == (Fits(skims, "CAR", n) && Fits(skims, "BIKE", n))
    ensures omx.matrices == Apply(old(omx.matrices), HeaderWritten(skims, n), skims, n)
  {
    ghost var m0 := omx.matrices;
    HwyDistColumn();
    var distCol := Lookup(HwyMeasureMap, "DIST");
    var tmp := ModeRows(skims, "CAR");
    var mx := Reshape(Values(tmp, distCol.value), n);
    if mx.None? {
      assert HeaderWritten(skims, n) == [];
      assert Apply(m0, [], skims, n) == m0;
      return false;
    }
    omx.Put("DIST", mx.value);
    DistanceMatrix(skims, n, "");
    ApplyOne(m0, Distance(""), skims, n);
    assert KeyName(Distance("")) == "DIST" by {
      assert "DIST" + "" == "DIST";
    }
    ghost var m1 := omx.matrices;
    assert m1 == Apply(m0, [Distance("")], skims, n);
    assert |ActiveModes| == 2 && "" !in ActiveModes;
    ok := WriteActive(omx, ActiveModes, skims, n);
    if ok {
      assert HeaderWritten(skims, n) == [Distance("")] + DistanceKeys(ActiveModes);
      ApplyAppend(m0, [Distance("")], DistanceKeys(ActiveModes), skims, n);
    } else {
      assert HeaderWritten(skims, n) == [Distance("")];
    }
  }

  /** `for mode in active_modes:` write `DIST{mode}` from the BIKE rows; the
      first reshape that fails ends the step. */
  method WriteActive(omx: OmxFile, modes: seq<string>, skims: seq<SkimRow>, n: nat) returns (ok: bool)
    requires "" !in modes
    modifies omx
    ensures ok == (modes == [] || Fits(skims, "BIKE", n))
    ensures ok ==> AllReady(skims, n, DistanceKeys(modes))
    ensures ok ==> omx.matrices == Apply(old(omx.matrices), DistanceKeys(modes), skims, n)
    ensures !ok ==> omx.matrices == old(omx.matrices)
  {
    ghost var m0 := omx.matrices;
    ghost var done: seq<SkimKey> := [];
    HwyDistColumn();
    var distCol := Lookup(HwyMeasureMap, "DIST");
    for i := 0 to |modes|
      invariant i > 0 ==> Fits(skims, "BIKE", n)
      invariant done == DistanceKeys(modes[..i])
      invariant AllReady(skims, n, done)
      invariant omx.matrices == Apply(m0, done, skims, n)
    {
      var name := "DIST" + modes[i];
      var tmp := ModeRows(skims, "BIKE");
      var mx := Reshape(Values(tmp, distCol.value), n);
      if mx.None? {
        assert i == 0;
        assert modes[..i] == [];
        return false;
      }
      ghost var key := Distance(modes[i]);
      DistanceMatrix(skims, n, modes[i]);
      ApplySnoc(m0, done, key, skims, n);
      DistanceKeysStep(modes, i);
      omx.Put(name, mx.value);
      done := done + [key];
    }
    assert modes[..|modes|] == modes;
    ok := true;
  }

  /** The highway block of one period: for every highway path, `tmp_df` is
      re-cut to the CAR rows of `df` and every highway measure is written.
      The last `tmp_df` is handed on to the transit block. */
  method WriteHighway(omx: OmxFile, paths: seq<string>, period: string, df: seq<SkimRow>, n: nat)
    returns (tmp: seq<SkimRow>)
    requires Fits(df, "CAR", n)
    modifies omx
    ensures tmp == ModeRows(df, "CAR")
    ensures AllReady(df, n, HighwayKeys(paths, HwyMeasures, period))
    ensures omx.matrices == Apply(old(omx.matrices), HighwayKeys(paths, HwyMeasures, period), df, n)
  {
    ghost var m0 := omx.matrices;
    ghost var done: seq<SkimKey> := [];
    // On entry `tmp_df` still holds the BIKE rows of the active-mode loop;
    // the highway path list is never empty, so the first iteration re-cuts
    // it to CAR before any read. Starting from CAR keeps the invariant
    // without a parameter nothing reads.
    tmp := ModeRows(df, "CAR");
    for p := 0 to |paths|
      invariant done == HighwayKeys(paths[..p], HwyMeasures, period)
      invariant tmp == ModeRows(df, "CAR")
      invariant AllReady(df, n, done)
      invariant omx.matrices == Apply(m0, done, df, n)
    {
      var path := paths[p];
      tmp := ModeRows(df, "CAR");
      ghost var chunk := MeasureKeys(Highway(path), HwyMeasures, period);
      WriteMeasures(omx, Highway(path), HwyMeasureMap, period, tmp, n, df);
      ApplyAppend(m0, done, chunk, df, n);
      HighwayKeysStep(paths, p, HwyMeasures, period);
      done := done + chunk;
    }
    assert paths[..|paths|] == paths;
  }

  /** The transit block of one period: every transit path
      `access_transit_egress` and every transit measure, all cut from
      `tmp`, which still holds the CAR rows of the highway block. */
  method WriteTransit(omx: OmxFile, modes: seq<string>, accesses: seq<string>, egresses: seq<string>,
                      period: string, tmp: seq<SkimRow>, n: nat, ghost rows: seq<SkimRow>)
    requires tmp == ModeRows(rows, "CAR") && |tmp| == n * n
    modifies omx
    ensures AllReady(rows, n, TransitKeys(modes, accesses, egresses, TransitMeasures, period))
    ensures omx.matrices ==
      Apply(old(omx.matrices), TransitKeys(modes, accesses, egresses, TransitMeasures, period), rows, n)
  {
    ghost var m0 := omx.matrices;
    ghost var done: seq<SkimKey> := [];
    for a := 0 to |modes|
      invariant done == TransitKeys(modes[..a], accesses, egresses, TransitMeasures, period)
      invariant AllReady(rows, n, done)
      invariant omx.matrices == Apply(m0, done, rows, n)
    {
      var transitMode := modes[a];
      ghost var chunk := AccessKeys(transitMode, accesses, egresses, TransitMeasures, period);
      WriteAccess(omx, transitMode, accesses, egresses, period, tmp, n, rows);
      ApplyAppend(m0, done, chunk, rows, n);
      TransitKeysStep(modes, a, accesses, egresses, TransitMeasures, period);
      done := done + chunk;
    }
    assert modes[..|modes|] == modes;
  }

  /** `for access_mode in access_modes: for egress_mode in egress_modes: ...`
      under one transit mode. */
  method WriteAccess(omx: OmxFile, transitMode: string, accesses: seq<string>, egresses: seq<string>,
                     period: string, tmp: seq<SkimRow>, n: nat, ghost rows: seq<SkimRow>)
    requires tmp == ModeRows(rows, "CAR") && |tmp| == n * n
    modifies omx
    ensures AllReady(rows, n, AccessKeys(transitMode, accesses, egresses, TransitMeasures, period))
    ensures omx.matrices ==
      Apply(old(omx.matrices), AccessKeys(transitMode, accesses, egresses, TransitMeasures, period), rows, n)
  {
    ghost var m0 := omx.matrices;
    ghost var done: seq<SkimKey> := [];
    for b := 0 to |accesses|
      invariant done == AccessKeys(transitMode, accesses[..b], egresses, TransitMeasures, period)
      invariant AllReady(rows, n, done)
      invariant omx.matrices == Apply(m0, done, rows, n)
    {
      var accessMode := accesses[b];
      ghost var chunk := EgressKeys(accessMode, transitMode, egresses, TransitMeasures, period);
      WriteEgress(omx, accessMode, transitMode, egresses, period, tmp, n, rows);
      ApplyAppend(m0, done, chunk, rows, n);
      AccessKeysStep(transitMode, accesses, b, egresses, TransitMeasures, period);
      done := done + chunk;
    }
    assert accesses[..|accesses|] == accesses;
  }

  /** `for egress_mode in egress_modes: for measure in ...` under one access
      and transit mode. */
  method WriteEgress(omx: OmxFile, accessMode: string, transitMode: string, egresses: seq<string>,
                     period: string, tmp: seq<SkimRow>, n: nat, ghost rows: seq<SkimRow>)
    requires tmp == ModeRows(rows, "CAR") && |tmp| == n * n
    modifies omx
    ensures AllReady(rows, n, EgressKeys(accessMode, transitMode, egresses, TransitMeasures, period))
    ensures omx.matrices ==
      Apply(old(omx.matrices), EgressKeys(accessMode, transitMode, egresses, TransitMeasures, period), rows, n)
  {
    ghost var m0 := omx.matrices;
    ghost var done: seq<SkimKey> := [];
    for c := 0 to |egresses|
      invariant done == EgressKeys(accessMode, transitMode, egresses[..c], TransitMeasures, period)
      invariant AllReady(rows, n, done)
      invariant omx.matrices == Apply(m0, done, rows, n)
    {
      var egressMode := egresses[c];
      var path := Transit(accessMode, transitMode, egressMode);
      ghost var chunk := MeasureKeys(path, TransitMeasures, period);
      WriteMeasures(omx, path, TransitMeasureMap, period, tmp, n, rows);
      ApplyAppend(m0, done, chunk, rows, n);
      EgressKeysStep(accessMode, transitMode, egresses, c, TransitMeasures, period);
      done := done + chunk;
    }
    assert egresses[..|egresses|] == egresses;
  }

  /** One iteration of the period loop. */
  method WritePeriod(omx: OmxFile, period: string, skims: seq<SkimRow>, n: nat)
    requires Fits(skims, "CAR", n)
    modifies omx
    ensures AllReady(skims, n, RouteKeys(period))
    ensures omx.matrices == Apply(old(omx.matrices), RouteKeys(period), skims, n)
  {
    ghost var m0 := omx.matrices;
    var df := skims;
    var tmp := WriteHighway(omx, HwyPaths, period, df, n);
    WriteTransit(omx, TransitModes, AccessModes, EgressModes, period, tmp, n, skims);
    ApplyAppend(m0, HighwayRouteKeys(period), TransitRouteKeys(period), skims, n);
  }

  /** `for period in periods: ...` */
  method WritePeriods(omx: OmxFile, periods: seq<string>, skims: seq<SkimRow>, n: nat)
    requires Fits(skims, "CAR", n)
    modifies omx
    ensures AllReady(skims, n, PeriodKeys(periods))
    ensures omx.matrices == Apply(old(omx.matrices), PeriodKeys(periods), skims, n)
  {
    ghost var m0 := omx.matrices;
    ghost var done: seq<SkimKey> := [];
    for t := 0 to |periods|
      invariant done == PeriodKeys(periods[..t])
      invariant AllReady(skims, n, done)
      invariant omx.matrices == Apply(m0, done, skims, n)
    {
      ghost var chunk := RouteKeys(periods[t]);
      WritePeriod(omx, periods[t], skims, n);
      ApplyAppend(m0, done, chunk, skims, n);
      PeriodKeysStep(periods, t);
      done := done + chunk;
    }
    assert periods[..|periods|] == periods;
  }

  /** `skims_omx`: derive N, open a new container, write the distance block,
      then for every period the highway and the transit blocks. Returns
      whether the step completes, and the container when it was opened
      (no container when N is not whole); the container holds exactly what
      was written up to the first failure. */
  method SkimsOmx(skims: seq<SkimRow>) returns (ok: bool, file: Option<OmxFile>)
    ensures ok == Succeeds(skims)
    ensures file.Some? <==> GridSize(skims).Some?
    ensures file.Some? ==> (fresh(file.value) &&
      file.value.matrices == Apply(map[], Written(skims), skims, GridOrZero(skims)))
  {
    var grid := GridSize(skims);
    if grid.None? {
      return false, None;
    }
    var n := grid.value;
    var omx := new OmxFile();
    file := Some(omx);
    ok := WriteDistances(omx, skims, n);
    if !ok {
      return;
    }
    WritePeriods(omx, Periods, skims, n);
    ApplyAppend(map[], HeaderKeys(), PeriodKeys(Periods), skims, n);
  }

  // ---------------------------------------------------------------------------
  // What the finished container holds

  /** The container a completed step leaves behind. */
  function Container(rows: seq<SkimRow>): map<string, Matrix>
  {
    Apply(map[], Written(rows), rows, GridOrZero(rows))
  }

  /** On success the container holds exactly the names of the catalogue keys,
      1803 of them. */
  lemma SkimsNames(rows: seq<SkimRow>)
    requires Succeeds(rows)
    ensures Container(rows).Keys == set k | k in Catalogue() :: KeyName(k)
    ensures |Container(rows).Keys| == 1803
  {
    ContainerOnSuccess(rows);
    ApplyKeys(map[], Catalogue(), rows, GridOrZero(rows));
    CatalogueNamesDistinct();
  }

  /** On success the container is the whole catalogue, written in order. */
  lemma ContainerOnSuccess(rows: seq<SkimRow>)
    requires Succeeds(rows)
    ensures AllReady(rows, GridOrZero(rows), Catalogue())
    ensures Container(rows) == Apply(map[], Catalogue(), rows, GridOrZero(rows))
  {
    assert Written(rows) == Catalogue();
  }

  /** On success every catalogue key's name holds that key's own matrix. */
  lemma SkimsValue(rows: seq<SkimRow>, k: SkimKey)
    requires Succeeds(rows) && InCatalogue(k)
    ensures KeyName(k) in Container(rows)
    ensures Ready(rows, GridOrZero(rows), k)
    ensures Container(rows)[KeyName(k)] == MatrixOf(rows, GridOrZero(rows), k)
  {
    var c := Catalogue();
    forall l | l in c && KeyName(l) == KeyName(k) ensures l == k {
      CatalogueWellFormed(k);
      CatalogueWellFormed(l);
      KeyNameInjective(k, l);
    }
    ContainerOnSuccess(rows);
    ApplyValue(map[], c, rows, GridOrZero(rows), k);
  }

  /** Row-major position of cell (i, j) of an N x N matrix. */
  function Cell(n: nat, i: nat, j: nat): nat
  {
    i * n + j
  }

  /** A measured matrix is the row-major reshape of its source rows: entry
      (i, j) is the measure on source row i * N + j. */
  lemma MatrixEntry(rows: seq<SkimRow>, n: nat, k: SkimKey, i: nat, j: nat)
    requires KnownMeasure(k) && KeyColumn(k).Some? && |SourceRows(rows, k)| == n * n
    requires i < n && j < n
    ensures Cell(n, i, j) < |SourceRows(rows, k)|
    ensures MatrixOf(rows, n, k)[i][j] == ColumnValue(SourceRows(rows, k)[Cell(n, i, j)], KeyColumn(k).value)
  {
    var c := KeyColumn(k).value;
    var vals := Values(SourceRows(rows, k), c);
    assert MatrixOf(rows, n, k) == Reshape(vals, n).value;
    ReshapeAt(vals, n, i, j);
  }

  /** A measure with no source column is an N x N matrix of zeros. */
  lemma MatrixZero(rows: seq<SkimRow>, n: nat, k: SkimKey, i: nat, j: nat)
    requires Ready(rows, n, k) && KeyColumn(k).None? && i < n && j < n
    ensures MatrixOf(rows, n, k)[i][j] == 0.0
  {
  }

  /** Nothing is filtered by period: a route and measure hold the same matrix
      in every period. */
  lemma SamePeriods(rows: seq<SkimRow>, p: Path, m: string, t1: string, t2: string)
    requires Succeeds(rows)
    requires InCatalogue(Measure(p, m, t1)) && InCatalogue(Measure(p, m, t2))
    ensures KeyName(Measure(p, m, t1)) in Container(rows) && KeyName(Measure(p, m, t2)) in Container(rows)
    ensures Container(rows)[KeyName(Measure(p, m, t1))] == Container(rows)[KeyName(Measure(p, m, t2))]
  {
    SkimsValue(rows, Measure(p, m, t1));
    SkimsValue(rows, Measure(p, m, t2));
  }

  /** The transit matrices are cut from the CAR rows: in-vehicle time on any
      transit path is the highway travel time of any highway path. */
  lemma TransitTimeIsCarTime(rows: seq<SkimRow>, transit: Path, highway: Path, t1: string, t2: string)
    requires Succeeds(rows)
    requires InCatalogue(Measure(transit, "TOTIVT", t1)) && transit.Transit?
    requires InCatalogue(Measure(highway, "TIME", t2)) && highway.Highway?
    ensures KeyName(Measure(transit, "TOTIVT", t1)) in Container(rows)
    ensures KeyName(Measure(highway, "TIME", t2)) in Container(rows)
    ensures Container(rows)[KeyName(Measure(transit, "TOTIVT", t1))] ==
      Container(rows)[KeyName(Measure(highway, "TIME", t2))]
  {
    SkimsValue(rows, Measure(transit, "TOTIVT", t1));
    SkimsValue(rows, Measure(highway, "TIME", t2));
    assert TransitMeasureMap[1] == ("TOTIVT", Some(GenCostMin));
    assert HwyMeasureMap[0] == ("TIME", Some(GenCostMin));
  }

  /** A table with H >= 2 hours whose CAR rows cover every hour (H x N^2 CAR
      rows) cannot complete: the CAR reshape needs exactly N^2 rows. */
  lemma MultiHourFails(rows: seq<SkimRow>)
    requires GridSize(rows).Some? && GridSize(rows).value > 0
    requires HourCount(rows) >= 2
    requires |ModeRows(rows, "CAR")| == HourCount(rows) * Square(GridSize(rows).value)
    ensures !Succeeds(rows)
  {
    var n := GridSize(rows).value;
    MoreHoursMoreRows(HourCount(rows), Square(n));
  }

  lemma MoreHoursMoreRows(h: nat, q: nat)
    requires h >= 2 && q > 0
    ensures h * q > q
  {
    assert h * q == q + (h - 1) * q;
  }
}
