/** The synthetic-population tables of usim_tables.py (households, persons,
    jobs, schools), the TAZ column each inherits from its parent record, and
    the filters applied before the households and persons tables are
    exported. */
module Tables {
  import opened SeqUtil

  type BlockId = string

  datatype Household = Household(id: int, blockId: BlockId, persons: int, workers: int, income: int)

  datatype Person = Person(householdId: int, memberId: int, age: int, worker: int, student: int)

  datatype Job = Job(blockId: BlockId, sectorId: int)

  datatype School = School(enrollment: int)

  /** A table row together with its computed `TAZ` column; `None` is NaN. */
  datatype Located<T> = Located(rec: T, taz: Option<int>)

  function BlockOf(h: Household): BlockId
  {
    h.blockId
  }

  function JobBlock(j: Job): BlockId
  {
    j.blockId
  }

  function HouseholdOf(p: Person): int
  {
    p.householdId
  }

  function HouseholdId(h: Household): int
  {
    h.id
  }

  function HouseholdIdOf(h: Located<Household>): int
  {
    h.rec.id
  }

  /** The value a series holds under a label; a missing label and a NaN
      value both give `None`. */
  function Lookup<K>(series: map<K, Option<int>>, key: K): Option<int>
  {
    if key in series then series[key] else None
  }

  /** `misc.reindex(series, rows.key)`: every row takes the value the parent
      series holds under the row's key, NaN when the key is not there. */
  function Reindex<K, T>(series: map<K, Option<int>>, rows: seq<T>, key: T -> K): (r: seq<Located<T>>)
    ensures |r| == |rows|
    ensures forall i :: 0 <= i < |rows| ==> r[i].rec == rows[i]
    ensures forall i :: 0 <= i < |rows| ==> (r[i].taz.Some? ==> key(rows[i]) in series && series[key(rows[i])] == r[i].taz)
    ensures forall i :: 0 <= i < |rows| && key(rows[i]) in series ==> r[i].taz == series[key(rows[i])]
    ensures forall i :: 0 <= i < |rows| ==> (key(rows[i]) !in series ==> r[i].taz.None?)
  {
    seq(|rows|, i requires 0 <= i < |rows| => Located(rows[i], Lookup(series, key(rows[i]))))
  }

  /** `households.TAZ` looked up by `household_id`: the TAZ of the row
      carrying that id, NaN when no row does. */
  function TazOf(households: seq<Located<Household>>, id: int): (t: Option<int>)
    ensures (forall j :: 0 <= j < |households| ==> households[j].rec.id != id) ==> t.None?
  {
    if households == [] then None
    else if households[|households| - 1].rec.id == id then households[|households| - 1].taz
    else TazOf(households[..|households| - 1], id)
  }

  /** With distinct household ids the lookup finds the one row with the id. */
  lemma {:induction false} TazOfUnique(households: seq<Located<Household>>, id: int, j: nat)
    requires Distinct(Project(households, HouseholdIdOf))
    requires j < |households| && households[j].rec.id == id
    ensures TazOf(households, id) == households[j].taz
  {
    var n := |households|;
    var ids := Project(households, HouseholdIdOf);
    if j < n - 1 {
      var init := households[..n - 1];
      assert ids[j] == id && ids[n - 1] == households[n - 1].rec.id;
      assert Project(init, HouseholdIdOf) == ids[..n - 1];
      TazOfUnique(init, id, j);
    }
  }

  /** `households.TAZ`: every household, in table order, takes the TAZ of
      its block, and NaN when the block is not in the blocks table. */
  function HouseholdsTaz(blockTaz: map<BlockId, Option<int>>, households: seq<Household>): (r: seq<Located<Household>>)
    ensures |r| == |households|
    ensures forall i :: 0 <= i < |households| ==> r[i].rec == households[i]
    ensures forall i :: 0 <= i < |households| && households[i].blockId in blockTaz ==>
      r[i].taz == blockTaz[households[i].blockId]
    ensures forall i :: 0 <= i < |households| && households[i].blockId !in blockTaz ==> r[i].taz.None?
  {
    Reindex(blockTaz, households, BlockOf)
  }

  /** `persons.TAZ`: the TAZ of the person's household. */
  function PersonsTaz(households: seq<Located<Household>>, persons: seq<Person>): (r: seq<Located<Person>>)
    requires Distinct(Project(households, HouseholdIdOf))
    ensures |r| == |persons|
    ensures forall i :: 0 <= i < |persons| ==> r[i].rec == persons[i]
  {
    seq(|persons|, i requires 0 <= i < |persons| => Located(persons[i], TazOf(households, persons[i].householdId)))
  }

  /** `jobs.TAZ`: every job, in table order, takes the TAZ of its block,
      and NaN when the block is not in the blocks table. */
  function JobsTaz(blockTaz: map<BlockId, Option<int>>, jobs: seq<Job>): (r: seq<Located<Job>>)
    ensures |r| == |jobs|
    ensures forall i :: 0 <= i < |jobs| ==> r[i].rec == jobs[i]
    ensures forall i :: 0 <= i < |jobs| && jobs[i].blockId in blockTaz ==> r[i].taz == blockTaz[jobs[i].blockId]
    ensures forall i :: 0 <= i < |jobs| && jobs[i].blockId !in blockTaz ==> r[i].taz.None?
  {
    Reindex(blockTaz, jobs, JobBlock)
  }

  /** Locating households keeps their ids. */
  lemma LocatedIds(blockTaz: map<BlockId, Option<int>>, households: seq<Household>)
    ensures Project(HouseholdsTaz(blockTaz, households), HouseholdIdOf) == Project(households, HouseholdId)
  {
    var located := HouseholdsTaz(blockTaz, households);
    forall k | 0 <= k < |located|
      ensures Project(located, HouseholdIdOf)[k] == Project(households, HouseholdId)[k]
    {
      assert located[k].rec == households[k];
      assert Project(located, HouseholdIdOf)[k] == HouseholdIdOf(located[k]);
      assert Project(households, HouseholdId)[k] == HouseholdId(households[k]);
    }
  }

  /** A person takes the TAZ of the household row with their household id,
      and NaN when there is none. */
  lemma PersonTaz(households: seq<Located<Household>>, persons: seq<Person>, i: nat)
    requires Distinct(Project(households, HouseholdIdOf))
    requires i < |persons|
    ensures forall j :: 0 <= j < |households| && households[j].rec.id == persons[i].householdId ==>
      PersonsTaz(households, persons)[i].taz == households[j].taz
    ensures (forall j :: 0 <= j < |households| ==> households[j].rec.id != persons[i].householdId) ==>
      PersonsTaz(households, persons)[i].taz.None?
  {
    forall j | 0 <= j < |households| && households[j].rec.id == persons[i].householdId
      ensures PersonsTaz(households, persons)[i].taz == households[j].taz
    {
      TazOfUnique(households, persons[i].householdId, j);
    }
  }

  /** A person lives in the TAZ of their household's block: the two lookups
      compose, and a person whose household is not in the table gets NaN. */
  lemma PersonInheritsBlockTaz(blockTaz: map<BlockId, Option<int>>, households: seq<Household>, persons: seq<Person>, i: nat)
    requires Distinct(Project(households, HouseholdId))
    requires i < |persons|
    ensures Distinct(Project(HouseholdsTaz(blockTaz, households), HouseholdIdOf))
    ensures forall j :: 0 <= j < |households| && households[j].id == persons[i].householdId ==>
      PersonsTaz(HouseholdsTaz(blockTaz, households), persons)[i].taz == Lookup(blockTaz, households[j].blockId)
    ensures (forall j :: 0 <= j < |households| ==> households[j].id != persons[i].householdId) ==>
      PersonsTaz(HouseholdsTaz(blockTaz, households), persons)[i].taz.None?
  {
    var located := HouseholdsTaz(blockTaz, households);
    LocatedIds(blockTaz, households);
    PersonTaz(located, persons, i);
    assert forall j :: 0 <= j < |households| ==> located[j].rec == households[j];
  }

  predicate HasTaz<T>(row: Located<T>)
  {
    row.taz.Some?
  }

  /** The households export: the rows with a TAZ, in table order. */
  function HouseholdsExport(households: seq<Located<Household>>): (r: seq<Located<Household>>)
    ensures forall h :: h in r ==> h.taz.Some?
    ensures forall h :: multiset(r)[h] == if h.taz.Some? then multiset(households)[h] else 0
  {
    Filter(households, HasTaz)
  }

  /** A person of the persons export under its new `person_id`. */
  datatype Exported = Exported(personId: nat, row: Located<Person>)

  function HouseholdRank(row: Located<Person>): Rank
  {
    Finite(row.rec.householdId)
  }

  /** `reset_index(drop=True)` named `person_id`: rows numbered from 0. */
  function Renumber(rows: seq<Located<Person>>): seq<Exported>
  {
    seq(|rows|, k requires 0 <= k < |rows| => Exported(k, rows[k]))
  }

  /** The persons export: the rows with a TAZ, sorted by household, numbered
      from 0. */
  function PersonsExport(persons: seq<Located<Person>>): seq<Exported>
  {
    Renumber(SortBy(Filter(persons, HasTaz), HouseholdRank))
  }

  function RowOf(e: Exported): Located<Person>
  {
    e.row
  }

  /** Numbering keeps the rows, in order. */
  lemma RenumberRows(rows: seq<Located<Person>>)
    ensures |Renumber(rows)| == |rows|
    ensures forall k :: 0 <= k < |rows| ==> Renumber(rows)[k] == Exported(k, rows[k])
    ensures Project(Renumber(rows), RowOf) == rows
  {
    var r := Renumber(rows);
    forall k | 0 <= k < |r| ensures Project(r, RowOf)[k] == rows[k] {
      assert r[k] == Exported(k, rows[k]);
    }
  }

  /** The persons export holds exactly the persons with a TAZ, each once
      per occurrence, ordered by household id and numbered 0..n-1. */
  lemma PersonsExportFacts(persons: seq<Located<Person>>)
    ensures var r := PersonsExport(persons);
      forall k :: 0 <= k < |r| ==> r[k].personId == k && r[k].row.taz.Some?
    ensures var r := PersonsExport(persons);
      forall k, l :: 0 <= k < l < |r| ==> r[k].row.rec.householdId <= r[l].row.rec.householdId
    ensures var r := PersonsExport(persons);
      multiset(Project(r, RowOf)) == multiset(Filter(persons, HasTaz))
  {
    var kept := Filter(persons, HasTaz);
    var sorted := SortBy(kept, HouseholdRank);
    var r := PersonsExport(persons);
    RenumberRows(sorted);
    forall k | 0 <= k < |r| ensures r[k].row.taz.Some? {
      assert r[k].row == sorted[k];
      assert multiset(sorted)[sorted[k]] > 0;
    }
    forall k, l | 0 <= k < l < |r| ensures r[k].row.rec.householdId <= r[l].row.rec.householdId {
      assert RankLe(HouseholdRank(sorted[k]), HouseholdRank(sorted[l]));
    }
  }
}
