/** `assign_taz` of usim_tables.py: every entity (block, school, college) gets
    the TAZ of the smallest zone its point falls in; an entity that falls in
    no zone gets the zone a growing buffer around it reaches first. The
    spatial join is taken as input and the buffer search as a function. */
module ZoneAssignment {
  import opened SeqUtil

  /** The index of the entity table (block id, NCES school id, college id). */
  type EntityId = string

  /** A zone the point intersects: its TAZ and its area. */
  datatype Candidate = Candidate(zone: int, area: int)

  /** A row of the left spatial join: one per intersected zone, or a single
      row with no zone (`index_right` and `area` NaN). */
  datatype JoinRow = JoinRow(entity: EntityId, hit: Option<Candidate>)

  /** The `area` sort key; NaN sorts last. */
  function AreaRank(r: JoinRow): Rank
  {
    if r.hit.Some? then Finite(r.hit.value.area) else Missing
  }

  function EntityOf(r: JoinRow): EntityId
  {
    r.entity
  }

  predicate Matched(r: JoinRow)
  {
    r.hit.Some?
  }

  predicate Unmatched(r: JoinRow)
  {
    r.hit.None?
  }

  /** `sort_values('area')` then `drop_duplicates` on the entity, keeping the
      first row. */
  function Dedupe(joined: seq<JoinRow>): seq<JoinRow>
  {
    KeepFirstBy(SortBy(joined, AreaRank), EntityOf)
  }

  /** `df.index_right` of matched rows. */
  function Hits(rows: seq<JoinRow>): (taz: seq<(EntityId, int)>)
    requires forall r :: r in rows ==> r.hit.Some?
    ensures |taz| == |rows|
  {
    seq(|rows|, i requires 0 <= i < |rows| => (rows[i].entity, rows[i].hit.value.zone))
  }

  /** The buffer search's zone for each unmatched row, in order. */
  function Recovered(rows: seq<JoinRow>, recover: EntityId -> int): (taz: seq<(EntityId, int)>)
    ensures |taz| == |rows|
    ensures forall i :: 0 <= i < |rows| ==> taz[i] == (rows[i].entity, recover(rows[i].entity))
  {
    if rows == [] then []
    else Recovered(rows[..|rows| - 1], recover) + [(rows[|rows| - 1].entity, recover(rows[|rows| - 1].entity))]
  }

  /** The series `assign_taz` returns: the matched rows kept by `dropna`,
      followed by the rows the buffer search recovered. */
  function Assignment(joined: seq<JoinRow>, recover: EntityId -> int): seq<(EntityId, int)>
  {
    var d := Dedupe(joined);
    Hits(Filter(d, Matched)) + Recovered(Filter(d, Unmatched), recover)
  }

  function Entities(taz: seq<(EntityId, int)>): seq<EntityId>
  {
    Project(taz, (p: (EntityId, int)) => p.0)
  }

  /** The entity has at least one zone in the spatial join. */
  ghost predicate HasHit(joined: seq<JoinRow>, e: EntityId)
  {
    exists r :: r in joined && r.entity == e && r.hit.Some?
  }

  method AssignTaz(joined: seq<JoinRow>, recover: EntityId -> int) returns (taz: seq<(EntityId, int)>)
    ensures taz == Assignment(joined, recover)
  {
    var df := SortBy(joined, AreaRank);
    df := KeepFirstBy(df, EntityOf);
    var nulls := Filter(df, Unmatched);
    if |nulls| > 0 {
      var results := BufferSearch(nulls, recover);
      taz := Hits(Filter(df, Matched)) + results;
    } else {
      AllMatched(df);
      taz := Hits(df);
    }
  }

  /** The loop over the unmatched rows: each row, in order, takes the zone
      the buffer search reaches for its entity. */
  method BufferSearch(nulls: seq<JoinRow>, recover: EntityId -> int) returns (results: seq<(EntityId, int)>)
    ensures results == Recovered(nulls, recover)
  {
    results := [];
    for i := 0 to |nulls|
      invariant results == Recovered(nulls[..i], recover)
    {
      var zone := recover(nulls[i].entity);
      assert nulls[..i + 1][..i] == nulls[..i];
      results := results + [(nulls[i].entity, zone)];
    }
    assert nulls[..|nulls|] == nulls;
  }

  /** With no unmatched row, `dropna` keeps every row. */
  lemma AllMatched(s: seq<JoinRow>)
    requires Filter(s, Unmatched) == []
    ensures Filter(s, Matched) == s
  {
    forall x | x in s ensures Matched(x) {
      assert multiset(Filter(s, Unmatched))[x] == 0;
    }
    FilterKeepsAll(s, Matched);
  }

  /** After the sort and dedupe: one row per entity, and every entity of the
      join present. */
  lemma DedupeEntities(joined: seq<JoinRow>)
    ensures Distinct(Project(Dedupe(joined), EntityOf))
    ensures forall e :: e in Project(Dedupe(joined), EntityOf) <==> e in Project(joined, EntityOf)
  {
    var s := SortBy(joined, AreaRank);
    SortBySameElements(joined, AreaRank);
    forall e ensures e in Project(s, EntityOf) <==> e in Project(joined, EntityOf) {
      ProjectMember(s, EntityOf, e);
      ProjectMember(joined, EntityOf, e);
    }
  }

  /** Each kept row is a row of the join and ranks lowest among the rows of
      its entity. */
  lemma DedupeSmallest(joined: seq<JoinRow>, r: JoinRow, x: JoinRow)
    requires r in Dedupe(joined) && x in joined && x.entity == r.entity
    ensures r in joined && RankLe(AreaRank(r), AreaRank(x))
  {
    var s := SortBy(joined, AreaRank);
    SortBySameElements(joined, AreaRank);
    var d := Dedupe(joined);
    var k :| 0 <= k < |d| && d[k] == r;
    FirstIsLeast(s, EntityOf, AreaRank, x);
  }

  /** Splitting rows with distinct entities into matched and unmatched rows
      keeps the entities distinct. */
  lemma {:induction false} SplitDistinct(s: seq<JoinRow>)
    requires Distinct(Project(s, EntityOf))
    ensures Distinct(Project(Filter(s, Matched), EntityOf) + Project(Filter(s, Unmatched), EntityOf))
  {
    if s != [] {
      var init := s[..|s| - 1];
      var x := s[|s| - 1];
      assert s == init + [x];
      assert Project(init, EntityOf) == Project(s, EntityOf)[..|init|];
      SplitDistinct(init);
      var a := Project(Filter(init, Matched), EntityOf);
      var b := Project(Filter(init, Unmatched), EntityOf);
      assert x.entity !in a + b by {
        SplitMembers(init);
        assert Project(s, EntityOf)[|init|] == x.entity;
      }
      SplitStep(init, x);
    }
  }

  /** Appending a row with a new entity keeps the split distinct. */
  lemma SplitStep(init: seq<JoinRow>, x: JoinRow)
    requires Distinct(Project(Filter(init, Matched), EntityOf) + Project(Filter(init, Unmatched), EntityOf))
    requires x.entity !in Project(Filter(init, Matched), EntityOf) + Project(Filter(init, Unmatched), EntityOf)
    ensures Distinct(Project(Filter(init + [x], Matched), EntityOf) + Project(Filter(init + [x], Unmatched), EntityOf))
  {
    EntitiesSnoc(init, x, Matched);
    EntitiesSnoc(init, x, Unmatched);
    AddDistinct(Project(Filter(init, Matched), EntityOf), Project(Filter(init, Unmatched), EntityOf),
                Project(Filter(init + [x], Matched), EntityOf), Project(Filter(init + [x], Unmatched), EntityOf),
                x.entity);
  }

  /** The entities of the rows a filter keeps, after one more row. */
  lemma EntitiesSnoc(init: seq<JoinRow>, x: JoinRow, keep: JoinRow -> bool)
    ensures Project(Filter(init + [x], keep), EntityOf) ==
      Project(Filter(init, keep), EntityOf) + if keep(x) then [x.entity] else []
  {
    FilterSnoc(init, x, keep);
    if keep(x) {
      ProjectAppend(Filter(init, keep), [x], EntityOf);
      assert Project([x], EntityOf) == [x.entity];
    }
  }

  /** Adding a new value to either half keeps the concatenation distinct. */
  lemma AddDistinct<K>(a: seq<K>, b: seq<K>, a': seq<K>, b': seq<K>, e: K)
    requires Distinct(a + b) && e !in a + b
    requires (a' == a + [e] && b' == b) || (a' == a && b' == b + [e])
    ensures Distinct(a' + b')
  {
    if a' == a + [e] && b' == b {
      InsertDistinct(a, e, b);
    } else {
      assert a' + b' == (a + b) + [e];
      DistinctAppend(a + b, [e]);
    }
  }

  /** Splitting rows into matched and unmatched rows loses no entity and
      invents none. */
  lemma SplitMembers(s: seq<JoinRow>)
    ensures forall e ::
      e in Project(Filter(s, Matched), EntityOf) + Project(Filter(s, Unmatched), EntityOf) <==>
      e in Project(s, EntityOf)
  {
    var m := Filter(s, Matched);
    var u := Filter(s, Unmatched);
    forall e ensures e in Project(m, EntityOf) + Project(u, EntityOf) <==> e in Project(s, EntityOf) {
      ProjectMember(m, EntityOf, e);
      ProjectMember(u, EntityOf, e);
      ProjectMember(s, EntityOf, e);
      if e in Project(s, EntityOf) {
        var x :| x in s && EntityOf(x) == e;
        if Matched(x) {
          assert multiset(m)[x] == multiset(s)[x];
        } else {
          assert multiset(u)[x] == multiset(s)[x];
        }
      }
    }
  }

  lemma InsertDistinct<T>(a: seq<T>, x: T, b: seq<T>)
    requires Distinct(a + b) && x !in a + b
    ensures Distinct(a + [x] + b)
  {
    var s := a + [x] + b;
    var t := a + b;
    assert forall k :: 0 <= k < |a| ==> s[k] == t[k];
    assert forall k :: |a| < k < |s| ==> s[k] == t[k - 1];
    assert s[|a|] == x;
  }

  lemma HitsEntities(rows: seq<JoinRow>)
    requires forall r :: r in rows ==> r.hit.Some?
    ensures Entities(Hits(rows)) == Project(rows, EntityOf)
  {
    var e := Entities(Hits(rows));
    var p := Project(rows, EntityOf);
    forall i | 0 <= i < |e| ensures e[i] == p[i] {
      assert e[i] == Hits(rows)[i].0;
      assert p[i] == EntityOf(rows[i]);
    }
  }

  lemma RecoveredEntities(rows: seq<JoinRow>, recover: EntityId -> int)
    ensures Entities(Recovered(rows, recover)) == Project(rows, EntityOf)
  {
    var e := Entities(Recovered(rows, recover));
    var p := Project(rows, EntityOf);
    forall i | 0 <= i < |e| ensures e[i] == p[i] {
      assert e[i] == Recovered(rows, recover)[i].0;
      assert p[i] == EntityOf(rows[i]);
    }
  }

  /** Entry i of the matched rows followed by the recovered ones. */
  lemma AssignmentAt(m: seq<JoinRow>, u: seq<JoinRow>, recover: EntityId -> int, i: nat)
    requires forall r :: r in m ==> r.hit.Some?
    requires i < |m| + |u|
    ensures i < |m| ==> (Hits(m) + Recovered(u, recover))[i] == (m[i].entity, m[i].hit.value.zone)
    ensures i >= |m| ==>
      (Hits(m) + Recovered(u, recover))[i] == (u[i - |m|].entity, recover(u[i - |m|].entity))
  {
  }

  /** `assign_taz` gives exactly one zone to every entity of the join. */
  lemma AssignmentEntities(joined: seq<JoinRow>, recover: EntityId -> int)
    ensures Distinct(Entities(Assignment(joined, recover)))
    ensures forall e :: e in Entities(Assignment(joined, recover)) <==> e in Project(joined, EntityOf)
  {
    var d := Dedupe(joined);
    DedupeEntities(joined);
    SplitDistinct(d);
    SplitMembers(d);
    var m := Filter(d, Matched);
    var u := Filter(d, Unmatched);
    HitsEntities(m);
    RecoveredEntities(u, recover);
    ProjectAppend(Hits(m), Recovered(u, recover), (p: (EntityId, int)) => p.0);
  }

  /** A kept row with a zone is a row of the join whose area is the
      smallest among the zoned rows of its entity. */
  lemma DedupeSmallestArea(joined: seq<JoinRow>, r: JoinRow)
    requires r in Dedupe(joined) && r.hit.Some?
    ensures r in joined
    ensures forall y :: y in joined && y.entity == r.entity && y.hit.Some? ==>
      r.hit.value.area <= y.hit.value.area
  {
    SortBySameElements(joined, AreaRank);
    forall y | y in joined && y.entity == r.entity && y.hit.Some?
      ensures r.hit.value.area <= y.hit.value.area
    {
      DedupeSmallest(joined, r, y);
    }
  }

  /** An entity with a zone in the join gets the zone of one of its own
      candidates, and no other candidate of it is smaller. */
  lemma AssignmentSmallestArea(joined: seq<JoinRow>, recover: EntityId -> int, i: nat)
    requires i < |Assignment(joined, recover)|
    requires HasHit(joined, Assignment(joined, recover)[i].0)
    ensures exists c ::
      JoinRow(Assignment(joined, recover)[i].0, Some(c)) in joined &&
      c.zone == Assignment(joined, recover)[i].1 &&
      forall r :: r in joined && r.entity == Assignment(joined, recover)[i].0 && r.hit.Some? ==>
        c.area <= r.hit.value.area
  {
    var d := Dedupe(joined);
    var m := Filter(d, Matched);
    var u := Filter(d, Unmatched);
    var p := Assignment(joined, recover)[i];
    var x :| x in joined && x.entity == p.0 && x.hit.Some?;
    AssignmentAt(m, u, recover, i);
    if i < |m| {
      var r := m[i];
      assert r in m;
      var c := r.hit.value;
      assert p == (r.entity, c.zone);
      DedupeSmallestArea(joined, r);
      assert JoinRow(p.0, Some(c)) == r;
    } else {
      var r := u[i - |m|];
      assert r in u;
      DedupeSmallest(joined, r, x);
      assert false;
    }
  }

  /** An entity with no zone in the join gets the buffer search's zone. */
  lemma AssignmentRecovered(joined: seq<JoinRow>, recover: EntityId -> int, i: nat)
    requires i < |Assignment(joined, recover)|
    requires !HasHit(joined, Assignment(joined, recover)[i].0)
    ensures Assignment(joined, recover)[i].1 == recover(Assignment(joined, recover)[i].0)
  {
    var d := Dedupe(joined);
    var m := Filter(d, Matched);
    var u := Filter(d, Unmatched);
    var a := Assignment(joined, recover);
    if i < |m| {
      var r := m[i];
      assert a[i].0 == r.entity by {
        AssignmentAt(m, u, recover, i);
      }
      assert r in d;
      SortBySameElements(joined, AreaRank);
      assert false;
    } else {
      AssignmentAt(m, u, recover, i);
    }
  }
}
