/** The household and person classifier columns of usim_tables.py: `HHT`,
    `ptype`, `pemploy` and `pstudent`. Each of the last three builds one
    candidate code series per rule (the code where the rule holds, 0
    elsewhere) and merges them with `where(s != 0, x, inplace=True)`, so a
    record gets the first nonzero code in list order. */
module Classifiers {
  import opened Tables

  /** The first nonzero code of the list, 0 when every code is 0. */
  function FirstNonzero(codes: seq<int>): (c: int)
    ensures c == 0 <==> forall i :: 0 <= i < |codes| ==> codes[i] == 0
    ensures c != 0 ==> exists i :: 0 <= i < |codes| && codes[i] == c && forall j :: 0 <= j < i ==> codes[j] == 0
  {
    if codes == [] then 0
    else
      var c := FirstNonzero(codes[..|codes| - 1]);
      FirstNonzeroStep(codes, c);
      if c != 0 then c else codes[|codes| - 1]
  }

  /** One more code: the first nonzero code of the prefix stays first, and
      the new code counts only after a prefix of zeros. */
  lemma FirstNonzeroStep(codes: seq<int>, c: int)
    requires |codes| > 0
    requires var init := codes[..|codes| - 1];
      (c == 0 <==> forall i :: 0 <= i < |init| ==> init[i] == 0) &&
      (c != 0 ==> exists i :: 0 <= i < |init| && init[i] == c && forall j :: 0 <= j < i ==> init[j] == 0)
    ensures var r := if c != 0 then c else codes[|codes| - 1];
      (r == 0 <==> forall i :: 0 <= i < |codes| ==> codes[i] == 0) &&
      (r != 0 ==> exists i :: 0 <= i < |codes| && codes[i] == r && forall j :: 0 <= j < i ==> codes[j] == 0)
  {
    var init := codes[..|codes| - 1];
    var last := |codes| - 1;
    if c != 0 {
      var i :| 0 <= i < |init| && init[i] == c && forall j :: 0 <= j < i ==> init[j] == 0;
      assert codes[i] == c;
      assert forall j :: 0 <= j < i ==> codes[j] == init[j];
    } else {
      assert forall j :: 0 <= j < last ==> codes[j] == init[j];
    }
  }

  /** A nonzero code preceded only by zeros is the one that wins. */
  lemma {:induction false} FirstNonzeroAt(codes: seq<int>, i: nat)
    requires i < |codes| && codes[i] != 0
    requires forall j :: 0 <= j < i ==> codes[j] == 0
    ensures FirstNonzero(codes) == codes[i]
  {
    if i < |codes| - 1 {
      var init := codes[..|codes| - 1];
      assert init[i] == codes[i];
      FirstNonzeroAt(init, i);
    } else {
      var init := codes[..|codes| - 1];
      assert forall j :: 0 <= j < |init| ==> init[j] == codes[j];
    }
  }

  /** The codes of one row across equally long candidate series. */
  function Column(series: seq<seq<int>>, r: nat): (col: seq<int>)
    requires forall k :: 0 <= k < |series| ==> r < |series[k]|
    ensures |col| == |series|
    ensures forall k :: 0 <= k < |series| ==> col[k] == series[k][r]
  {
    seq(|series|, k requires 0 <= k < |series| => series[k][r])
  }

  /** The merge loop: start from the first series and, for every series of
      the list in turn, fill the zeros still left with that series' codes. */
  method Coalesce(series: seq<seq<int>>) returns (merged: seq<int>)
    requires |series| > 0
    requires forall k :: 0 <= k < |series| ==> |series[k]| == |series[0]|
    ensures |merged| == |series[0]|
    ensures forall r :: 0 <= r < |merged| ==> merged[r] == FirstNonzero(Column(series, r))
  {
    var n := |series[0]|;
    merged := series[0];
    for k := 0 to |series|
      invariant |merged| == n
      invariant k == 0 ==> merged == series[0]
      invariant k > 0 ==> forall r :: 0 <= r < n ==> merged[r] == FirstNonzero(Column(series[..k], r))
    {
      var x := series[k];
      ghost var before := merged;
      merged := seq(n, r requires 0 <= r < n => if merged[r] != 0 then merged[r] else x[r]);
      forall r | 0 <= r < n ensures merged[r] == FirstNonzero(Column(series[..k + 1], r)) {
        ColumnStep(series, k, r);
      }
    }
    assert series[..|series|] == series;
  }

  /** One more series: a row keeps its first nonzero code so far, or takes
      the new series' code when it has none yet. */
  lemma ColumnStep(series: seq<seq<int>>, k: nat, r: nat)
    requires k < |series|
    requires forall j :: 0 <= j < |series| ==> r < |series[j]|
    ensures FirstNonzero(Column(series[..k + 1], r)) ==
      if k == 0 then series[0][r]
      else if FirstNonzero(Column(series[..k], r)) != 0 then FirstNonzero(Column(series[..k], r))
      else series[k][r]
  {
    assert Column(series[..k + 1], r)[..k] == Column(series[..k], r);
    if k == 0 {
      assert Column(series[..0], r) == [];
    }
  }

  /** `HHT`: 1 (single person) when the household has one person, 4 otherwise. */
  function Hht(persons: int): (h: int)
    ensures h == 1 <==> persons == 1
    ensures h == 1 || h == 4
  {
    if persons == 1 then persons else 4
  }

  /** The `ptype` candidate codes, in the order of `type_list`. */
  function PtypeCodes(p: Person): (codes: seq<int>)
    ensures |codes| == 7
  {
    var adult := p.age >= 18;
    var working := p.worker == 1;
    var studying := p.student == 1;
    [ if adult && working && !studying then 1 else 0,
      if adult && studying then 3 else 0,
      if 18 <= p.age <= 64 && !working && !studying then 4 else 0,
      if p.age >= 65 && !working && !studying then 5 else 0,
      if 16 <= p.age <= 17 then 6 else 0,
      if 6 <= p.age <= 16 then 7 else 0,
      if 0 <= p.age <= 5 then 8 else 0 ]
  }

  /** `ptype` of one person. */
  function Ptype(p: Person): int
  {
    FirstNonzero(PtypeCodes(p))
  }

  /** Every non-negative age gets one of the seven codes and a negative age
      none; where two rules overlap the earlier wins (age 16 is 6, not 7; a
      working student is 3). */
  lemma PtypeRules(p: Person)
    ensures p.age >= 0 <==> Ptype(p) in {1, 3, 4, 5, 6, 7, 8}
    ensures p.age < 0 <==> Ptype(p) == 0
    ensures 0 <= p.age <= 5 ==> Ptype(p) == 8
    ensures 6 <= p.age <= 15 ==> Ptype(p) == 7
    ensures 16 <= p.age <= 17 ==> Ptype(p) == 6
    ensures p.age >= 18 && p.student == 1 ==> Ptype(p) == 3
    ensures p.age >= 18 && p.worker == 1 && p.student != 1 ==> Ptype(p) == 1
    ensures 18 <= p.age <= 64 && p.worker != 1 && p.student != 1 ==> Ptype(p) == 4
    ensures p.age >= 65 && p.worker != 1 && p.student != 1 ==> Ptype(p) == 5
  {
    var codes := PtypeCodes(p);
    if codes[0] != 0 {
      FirstNonzeroAt(codes, 0);
    } else if codes[1] != 0 {
      FirstNonzeroAt(codes, 1);
    } else if codes[2] != 0 {
      FirstNonzeroAt(codes, 2);
    } else if codes[3] != 0 {
      FirstNonzeroAt(codes, 3);
    } else if codes[4] != 0 {
      FirstNonzeroAt(codes, 4);
    } else if codes[5] != 0 {
      FirstNonzeroAt(codes, 5);
    } else if codes[6] != 0 {
      FirstNonzeroAt(codes, 6);
    }
  }

  /** The `pemploy` candidate codes, in list order. */
  function PemployCodes(p: Person): (codes: seq<int>)
    ensures |codes| == 3
  {
    [ if p.worker == 1 && p.age >= 16 then 1 else 0,
      if p.worker == 0 && p.age >= 16 then 3 else 0,
      if p.age < 16 then 4 else 0 ]
  }

  /** `pemploy` of one person. */
  function Pemploy(p: Person): int
  {
    FirstNonzero(PemployCodes(p))
  }

  /** 1 employed, 3 not employed, 4 under 16; a worker flag other than 0 or
      1 at 16 or over leaves 0. */
  lemma PemployRules(p: Person)
    ensures Pemploy(p) == 1 <==> p.worker == 1 && p.age >= 16
    ensures Pemploy(p) == 3 <==> p.worker == 0 && p.age >= 16
    ensures Pemploy(p) == 4 <==> p.age < 16
    ensures p.worker in {0, 1} ==> Pemploy(p) in {1, 3, 4}
    ensures Pemploy(p) == 0 <==> p.age >= 16 && p.worker !in {0, 1}
  {
    var codes := PemployCodes(p);
    if codes[0] != 0 {
      FirstNonzeroAt(codes, 0);
    } else if codes[1] != 0 {
      FirstNonzeroAt(codes, 1);
    } else if codes[2] != 0 {
      FirstNonzeroAt(codes, 2);
    }
  }

  /** The `pstudent` candidate codes, in list order. */
  function PstudentCodes(p: Person): (codes: seq<int>)
    ensures |codes| == 3
  {
    [ if p.age <= 18 then 1 else 0,
      if p.student == 1 && p.age > 18 then 2 else 0,
      if p.student == 0 then 3 else 0 ]
  }

  /** `pstudent` of one person. */
  function Pstudent(p: Person): int
  {
    FirstNonzero(PstudentCodes(p))
  }

  /** 1 up to age 18 whatever the flag, then 2 for students and 3 for
      non-students; another flag over 18 leaves 0. */
  lemma PstudentRules(p: Person)
    ensures Pstudent(p) == 1 <==> p.age <= 18
    ensures Pstudent(p) == 2 <==> p.student == 1 && p.age > 18
    ensures Pstudent(p) == 3 <==> p.student == 0 && p.age > 18
    ensures p.student in {0, 1} ==> Pstudent(p) in {1, 2, 3}
    ensures Pstudent(p) == 0 <==> p.age > 18 && p.student !in {0, 1}
  {
    var codes := PstudentCodes(p);
    if codes[0] != 0 {
      FirstNonzeroAt(codes, 0);
    } else if codes[1] != 0 {
      FirstNonzeroAt(codes, 1);
    } else if codes[2] != 0 {
      FirstNonzeroAt(codes, 2);
    }
  }

  /** One candidate series per code of `codes`, over all persons. */
  function CandidateSeries(persons: seq<Person>, codes: Person -> seq<int>, width: nat): (series: seq<seq<int>>)
    requires forall p :: |codes(p)| == width
    ensures |series| == width
    ensures forall k :: 0 <= k < width ==> |series[k]| == |persons|
    ensures forall k, r :: 0 <= k < width && 0 <= r < |persons| ==> series[k][r] == codes(persons[r])[k]
  {
    seq(width, k requires 0 <= k < width => seq(|persons|, r requires 0 <= r < |persons| => codes(persons[r])[k]))
  }

  /** The `ptype` column: each person's `Ptype`. */
  method PersonTypes(persons: seq<Person>) returns (ptype: seq<int>)
    ensures |ptype| == |persons|
    ensures forall r :: 0 <= r < |persons| ==> ptype[r] == Ptype(persons[r])
  {
    var series := CandidateSeries(persons, PtypeCodes, 7);
    ptype := Coalesce(series);
    forall r | 0 <= r < |persons| ensures ptype[r] == Ptype(persons[r]) {
      assert Column(series, r) == PtypeCodes(persons[r]);
    }
  }

  /** The `pemploy` column: each person's `Pemploy`. */
  method EmploymentStatus(persons: seq<Person>) returns (pemploy: seq<int>)
    ensures |pemploy| == |persons|
    ensures forall r :: 0 <= r < |persons| ==> pemploy[r] == Pemploy(persons[r])
  {
    var series := CandidateSeries(persons, PemployCodes, 3);
    pemploy := Coalesce(series);
    forall r | 0 <= r < |persons| ensures pemploy[r] == Pemploy(persons[r]) {
      assert Column(series, r) == PemployCodes(persons[r]);
    }
  }

  /** The `pstudent` column: each person's `Pstudent`. */
  method StudentStatus(persons: seq<Person>) returns (pstudent: seq<int>)
    ensures |pstudent| == |persons|
    ensures forall r :: 0 <= r < |persons| ==> pstudent[r] == Pstudent(persons[r])
  {
    var series := CandidateSeries(persons, PstudentCodes, 3);
    pstudent := Coalesce(series);
    forall r | 0 <= r < |persons| ensures pstudent[r] == Pstudent(persons[r]) {
      assert Column(series, r) == PstudentCodes(persons[r]);
    }
  }
}
