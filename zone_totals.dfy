/** The zone columns of usim_tables.py that count or sum table rows per TAZ:
    each is `groupby('TAZ')` on the rows, a `count()` or `sum()`, then
    `reindex(zones.index).fillna(0)`, so a zone without rows gets 0 and a
    row whose TAZ is NaN or not a zone is not counted. */
module ZoneTotals {
  import opened SeqUtil
  import opened Tables

  /** The sum of `weight` over the rows located in `zone`: a `count()` when
      the weight is an indicator, a `sum()` of a column otherwise. */
  function Tally<T>(rows: seq<Located<T>>, weight: T -> int, zone: int): (t: int)
    ensures (forall i :: 0 <= i < |rows| ==> rows[i].taz != Some(zone)) ==> t == 0
    ensures (forall i :: 0 <= i < |rows| ==> 0 <= weight(rows[i].rec) <= 1) ==> 0 <= t <= |rows|
  {
    if rows == [] then 0
    else
      var last := rows[|rows| - 1];
      Tally(rows[..|rows| - 1], weight, zone) + (if last.taz == Some(zone) then weight(last.rec) else 0)
  }

  /** Tallies add up when the weights do on every row. */
  lemma {:induction false} TallyAdd<T>(rows: seq<Located<T>>, a: T -> int, b: T -> int, c: T -> int, zone: int)
    requires forall i :: 0 <= i < |rows| ==> c(rows[i].rec) == a(rows[i].rec) + b(rows[i].rec)
    ensures Tally(rows, a, zone) + Tally(rows, b, zone) == Tally(rows, c, zone)
  {
    if rows != [] {
      TallyAdd(rows[..|rows| - 1], a, b, c, zone);
    }
  }

  /** A tally grows with its weight. */
  lemma {:induction false} TallyMono<T>(rows: seq<Located<T>>, a: T -> int, b: T -> int, zone: int)
    requires forall i :: 0 <= i < |rows| ==> a(rows[i].rec) <= b(rows[i].rec)
    ensures Tally(rows, a, zone) <= Tally(rows, b, zone)
  {
    if rows != [] {
      TallyMono(rows[..|rows| - 1], a, b, zone);
    }
  }

  /** The weight of the rows whose TAZ is one of `zones`. */
  function TallyIn<T>(rows: seq<Located<T>>, weight: T -> int, zones: set<int>): int
  {
    if rows == [] then 0
    else
      var last := rows[|rows| - 1];
      TallyIn(rows[..|rows| - 1], weight, zones) +
      (if last.taz.Some? && last.taz.value in zones then weight(last.rec) else 0)
  }

  lemma {:induction false} TallyInAdd<T>(rows: seq<Located<T>>, weight: T -> int, zones: set<int>, zone: int)
    requires zone !in zones
    ensures TallyIn(rows, weight, zones + {zone}) == TallyIn(rows, weight, zones) + Tally(rows, weight, zone)
  {
    if rows != [] {
      TallyInAdd(rows[..|rows| - 1], weight, zones, zone);
    }
  }

  /** A zone column summed over the zones table. */
  function ZoneTotal<T>(rows: seq<Located<T>>, weight: T -> int, zones: seq<int>): int
  {
    if zones == [] then 0
    else ZoneTotal(rows, weight, zones[..|zones| - 1]) + Tally(rows, weight, zones[|zones| - 1])
  }

  /** Nothing is lost or counted twice: over distinct zone ids, the column
      adds up to the weight of exactly the rows located in one of them. */
  lemma {:induction false} ZoneTotalConserved<T>(rows: seq<Located<T>>, weight: T -> int, zones: seq<int>)
    requires Distinct(zones)
    ensures ZoneTotal(rows, weight, zones) == TallyIn(rows, weight, set z | z in zones)
  {
    if zones == [] {
      assert (set z | z in zones) == {};
      TallyInEmpty(rows, weight);
    } else {
      var init := zones[..|zones| - 1];
      var last := zones[|zones| - 1];
      assert Distinct(init);
      ZoneTotalConserved(rows, weight, init);
      assert last !in init;
      assert (set z | z in zones) == (set z | z in init) + {last} by {
        assert zones == init + [last];
      }
      TallyInAdd(rows, weight, (set z | z in init), last);
    }
  }

  lemma {:induction false} TallyInEmpty<T>(rows: seq<Located<T>>, weight: T -> int)
    ensures TallyIn(rows, weight, {}) == 0
  {
    if rows != [] {
      TallyInEmpty(rows[..|rows| - 1], weight);
    }
  }

  /** The weight of every row of a table, wherever it is located. */
  function Total<T>(rows: seq<Located<T>>, weight: T -> int): int
  {
    if rows == [] then 0
    else Total(rows[..|rows| - 1], weight) + weight(rows[|rows| - 1].rec)
  }

  /** When every row is located in one of `zones`, the rows in those zones
      are the whole table. */
  lemma {:induction false} TallyInCovers<T>(rows: seq<Located<T>>, weight: T -> int, zones: set<int>)
    requires forall i :: 0 <= i < |rows| ==> rows[i].taz.Some? && rows[i].taz.value in zones
    ensures TallyIn(rows, weight, zones) == Total(rows, weight)
  {
    if rows != [] {
      var init := rows[..|rows| - 1];
      assert forall i :: 0 <= i < |init| ==> init[i] == rows[i];
      TallyInCovers(init, weight, zones);
    }
  }

  /** With non-negative weights, one zone's tally is at most the weight of
      the whole table. */
  lemma {:induction false} TallyWithinTotal<T>(rows: seq<Located<T>>, weight: T -> int, zone: int)
    requires forall i :: 0 <= i < |rows| ==> weight(rows[i].rec) >= 0
    ensures 0 <= Tally(rows, weight, zone) <= Total(rows, weight)
  {
    if rows != [] {
      var init := rows[..|rows| - 1];
      assert forall i :: 0 <= i < |init| ==> init[i] == rows[i];
      TallyWithinTotal(init, weight, zone);
    }
  }

  // Row weights.

  function One<T>(x: T): int
  {
    1
  }

  function Workers(h: Household): int
  {
    h.workers
  }

  function Enrollment(s: School): int
  {
    s.enrollment
  }

  function IncomeQ1(h: Household): int
  {
    if h.income < 30000 then 1 else 0
  }

  function IncomeQ2(h: Household): int
  {
    if 30000 <= h.income <= 59999 then 1 else 0
  }

  function IncomeQ3(h: Household): int
  {
    if 60000 <= h.income <= 99999 then 1 else 0
  }

  function IncomeQ4(h: Household): int
  {
    if h.income >= 100000 then 1 else 0
  }

  function Age0004(p: Person): int
  {
    if 0 <= p.age <= 4 then 1 else 0
  }

  function Age0519(p: Person): int
  {
    if 5 <= p.age <= 19 then 1 else 0
  }

  function Age2044(p: Person): int
  {
    if 20 <= p.age <= 44 then 1 else 0
  }

  function Age4564(p: Person): int
  {
    if 45 <= p.age <= 64 then 1 else 0
  }

  function Age65Plus(p: Person): int
  {
    if p.age >= 65 then 1 else 0
  }

  function Age62Plus(p: Person): int
  {
    if p.age >= 62 then 1 else 0
  }

  function AgeKnown(p: Person): int
  {
    if p.age >= 0 then 1 else 0
  }

  /** The NAICS sector codes of each employment column. */
  const RetailSectors: set<int> := {4445}
  const FinanceSectors: set<int> := {52, 54}
  const HealthSectors: set<int> := {61, 62, 71}
  const AgricultureSectors: set<int> := {11}
  const ManufacturingSectors: set<int> := {42, 3133, 32, 4849}
  /** The codes `OTHEMPN` excludes, as listed there. */
  const OtherExcluded: set<int> := {4445, 52, 54, 61, 62, 71, 11, 42, 3133, 32, 4849}

  function InSectors(j: Job, sectors: set<int>): int
  {
    if j.sectorId in sectors then 1 else 0
  }

  function Retail(j: Job): int
  {
    InSectors(j, RetailSectors)
  }

  function Finance(j: Job): int
  {
    InSectors(j, FinanceSectors)
  }

  function Health(j: Job): int
  {
    InSectors(j, HealthSectors)
  }

  function Agriculture(j: Job): int
  {
    InSectors(j, AgricultureSectors)
  }

  function Manufacturing(j: Job): int
  {
    InSectors(j, ManufacturingSectors)
  }

  function Other(j: Job): int
  {
    if j.sectorId !in OtherExcluded then 1 else 0
  }

  // The zone columns, at one zone.

  function TOTHH(households: seq<Located<Household>>, zone: int): int
  {
    Tally(households, One, zone)
  }

  function HHPOP(persons: seq<Located<Person>>, zone: int): int
  {
    Tally(persons, One, zone)
  }

  function EMPRES(households: seq<Located<Household>>, zone: int): int
  {
    Tally(households, Workers, zone)
  }

  function HHINCQ1(households: seq<Located<Household>>, zone: int): int
  {
    Tally(households, IncomeQ1, zone)
  }

  function HHINCQ2(households: seq<Located<Household>>, zone: int): int
  {
    Tally(households, IncomeQ2, zone)
  }

  function HHINCQ3(households: seq<Located<Household>>, zone: int): int
  {
    Tally(households, IncomeQ3, zone)
  }

  function HHINCQ4(households: seq<Located<Household>>, zone: int): int
  {
    Tally(households, IncomeQ4, zone)
  }

  function AGE0004(persons: seq<Located<Person>>, zone: int): int
  {
    Tally(persons, Age0004, zone)
  }

  function AGE0519(persons: seq<Located<Person>>, zone: int): int
  {
    Tally(persons, Age0519, zone)
  }

  function AGE2044(persons: seq<Located<Person>>, zone: int): int
  {
    Tally(persons, Age2044, zone)
  }

  function AGE4564(persons: seq<Located<Person>>, zone: int): int
  {
    Tally(persons, Age4564, zone)
  }

  function AGE65P(persons: seq<Located<Person>>, zone: int): int
  {
    Tally(persons, Age65Plus, zone)
  }

  function AGE62P(persons: seq<Located<Person>>, zone: int): int
  {
    Tally(persons, Age62Plus, zone)
  }

  function TOTEMP(jobs: seq<Located<Job>>, zone: int): int
  {
    Tally(jobs, One, zone)
  }

  function RETEMPN(jobs: seq<Located<Job>>, zone: int): int
  {
    Tally(jobs, Retail, zone)
  }

  function FPSEMPN(jobs: seq<Located<Job>>, zone: int): int
  {
    Tally(jobs, Finance, zone)
  }

  function HEREMPN(jobs: seq<Located<Job>>, zone: int): int
  {
    Tally(jobs, Health, zone)
  }

  function AGREMPN(jobs: seq<Located<Job>>, zone: int): int
  {
    Tally(jobs, Agriculture, zone)
  }

  function MWTEMPN(jobs: seq<Located<Job>>, zone: int): int
  {
    Tally(jobs, Manufacturing, zone)
  }

  function OTHEMPN(jobs: seq<Located<Job>>, zone: int): int
  {
    Tally(jobs, Other, zone)
  }

  function HSENROLL(schools: seq<Located<School>>, zone: int): int
  {
    Tally(schools, Enrollment, zone)
  }

  /** The four income bands split every household of a zone. */
  lemma IncomeBandsPartition(households: seq<Located<Household>>, zone: int)
    ensures HHINCQ1(households, zone) + HHINCQ2(households, zone) + HHINCQ3(households, zone) +
      HHINCQ4(households, zone) == TOTHH(households, zone)
  {
    var q12 := (h: Household) => IncomeQ1(h) + IncomeQ2(h);
    var q123 := (h: Household) => q12(h) + IncomeQ3(h);
    TallyAdd(households, IncomeQ1, IncomeQ2, q12, zone);
    TallyAdd(households, q12, IncomeQ3, q123, zone);
    TallyAdd(households, q123, IncomeQ4, One, zone);
  }

  /** The five age bands split the persons of a zone with a non-negative
      age; when no age is negative they add up to the zone's population. */
  lemma AgeBandsPartition(persons: seq<Located<Person>>, zone: int)
    ensures AGE0004(persons, zone) + AGE0519(persons, zone) + AGE2044(persons, zone) +
      AGE4564(persons, zone) + AGE65P(persons, zone) == Tally(persons, AgeKnown, zone)
    ensures (forall i :: 0 <= i < |persons| ==> persons[i].rec.age >= 0) ==>
      AGE0004(persons, zone) + AGE0519(persons, zone) + AGE2044(persons, zone) +
      AGE4564(persons, zone) + AGE65P(persons, zone) == HHPOP(persons, zone)
  {
    var a1 := (p: Person) => Age0004(p) + Age0519(p);
    var a2 := (p: Person) => a1(p) + Age2044(p);
    var a3 := (p: Person) => a2(p) + Age4564(p);
    TallyAdd(persons, Age0004, Age0519, a1, zone);
    TallyAdd(persons, a1, Age2044, a2, zone);
    TallyAdd(persons, a2, Age4564, a3, zone);
    TallyAdd(persons, a3, Age65Plus, AgeKnown, zone);
    if forall i :: 0 <= i < |persons| ==> persons[i].rec.age >= 0 {
      TallyMono(persons, AgeKnown, One, zone);
      TallyMono(persons, One, AgeKnown, zone);
    }
  }

  /** Everyone 65 or over is also 62 or over. */
  lemma Age65WithinAge62(persons: seq<Located<Person>>, zone: int)
    ensures AGE65P(persons, zone) <= AGE62P(persons, zone)
  {
    TallyMono(persons, Age65Plus, Age62Plus, zone);
  }

  /** A job counts in exactly one of the six employment columns. */
  lemma JobInOneSector(j: Job)
    ensures Retail(j) + Finance(j) + Health(j) + Agriculture(j) + Manufacturing(j) + Other(j) == 1
  {
    assert OtherExcluded == RetailSectors + FinanceSectors + HealthSectors + AgricultureSectors + ManufacturingSectors;
  }

  /** The `OTHEMPN` exclusion list is the union of the five sector sets,
      which are pairwise disjoint; so every job falls in exactly one of the
      six employment columns and together they give `TOTEMP`. */
  lemma EmploymentPartition(jobs: seq<Located<Job>>, zone: int)
    ensures OtherExcluded == RetailSectors + FinanceSectors + HealthSectors + AgricultureSectors + ManufacturingSectors
    ensures forall j: Job :: Retail(j) + Finance(j) + Health(j) + Agriculture(j) + Manufacturing(j) + Other(j) == 1
    ensures RETEMPN(jobs, zone) + FPSEMPN(jobs, zone) + HEREMPN(jobs, zone) + AGREMPN(jobs, zone) +
      MWTEMPN(jobs, zone) + OTHEMPN(jobs, zone) == TOTEMP(jobs, zone)
  {
    forall j: Job ensures Retail(j) + Finance(j) + Health(j) + Agriculture(j) + Manufacturing(j) + Other(j) == 1 {
      JobInOneSector(j);
    }
    EmploymentSum(jobs, zone);
  }

  lemma EmploymentSum(jobs: seq<Located<Job>>, zone: int)
    ensures RETEMPN(jobs, zone) + FPSEMPN(jobs, zone) + HEREMPN(jobs, zone) + AGREMPN(jobs, zone) +
      MWTEMPN(jobs, zone) + OTHEMPN(jobs, zone) == TOTEMP(jobs, zone)
  {
    var e1 := (j: Job) => Retail(j) + Finance(j);
    var e2 := (j: Job) => e1(j) + Health(j);
    var e3 := (j: Job) => e2(j) + Agriculture(j);
    var e4 := (j: Job) => e3(j) + Manufacturing(j);
    TallyAdd(jobs, Retail, Finance, e1, zone);
    TallyAdd(jobs, e1, Health, e2, zone);
    TallyAdd(jobs, e2, Agriculture, e3, zone);
    TallyAdd(jobs, e3, Manufacturing, e4, zone);
    forall i | 0 <= i < |jobs| ensures One(jobs[i].rec) == e4(jobs[i].rec) + Other(jobs[i].rec) {
      JobInOneSector(jobs[i].rec);
    }
    TallyAdd(jobs, e4, Other, One, zone);
  }

  /** EMPRES, the sum of `workers` per zone: no zone has a negative count or
      more workers than the whole table, and when every household lies in one
      of the (distinct) zones, the column adds up to all the table's workers. */
  lemma ResidentWorkersConserved(households: seq<Located<Household>>, zones: seq<int>)
    requires Distinct(zones)
    ensures (forall i :: 0 <= i < |households| ==> households[i].rec.workers >= 0) ==>
      forall zone :: 0 <= EMPRES(households, zone) <= Total(households, Workers)
    ensures (forall i :: 0 <= i < |households| ==> households[i].taz.Some? && households[i].taz.value in zones) ==>
      ZoneTotal(households, Workers, zones) == Total(households, Workers)
  {
    if forall i :: 0 <= i < |households| ==> households[i].rec.workers >= 0 {
      forall zone ensures 0 <= EMPRES(households, zone) <= Total(households, Workers) {
        TallyWithinTotal(households, Workers, zone);
      }
    }
    if forall i :: 0 <= i < |households| ==> households[i].taz.Some? && households[i].taz.value in zones {
      ZoneTotalConserved(households, Workers, zones);
      TallyInCovers(households, Workers, set z | z in zones);
    }
  }

  /** HSENROLL, the sum of `enrollment` per zone: no zone has a negative
      enrollment or more than the whole table, and when every school lies in
      one of the (distinct) zones, the column adds up to all the enrollment. */
  lemma EnrollmentConserved(schools: seq<Located<School>>, zones: seq<int>)
    requires Distinct(zones)
    ensures (forall i :: 0 <= i < |schools| ==> schools[i].rec.enrollment >= 0) ==>
      forall zone :: 0 <= HSENROLL(schools, zone) <= Total(schools, Enrollment)
    ensures (forall i :: 0 <= i < |schools| ==> schools[i].taz.Some? && schools[i].taz.value in zones) ==>
      ZoneTotal(schools, Enrollment, zones) == Total(schools, Enrollment)
  {
    if forall i :: 0 <= i < |schools| ==> schools[i].rec.enrollment >= 0 {
      forall zone ensures 0 <= HSENROLL(schools, zone) <= Total(schools, Enrollment) {
        TallyWithinTotal(schools, Enrollment, zone);
      }
    }
    if forall i :: 0 <= i < |schools| ==> schools[i].taz.Some? && schools[i].taz.value in zones {
      ZoneTotalConserved(schools, Enrollment, zones);
      TallyInCovers(schools, Enrollment, set z | z in zones);
    }
  }
}
