/** Sequence vocabulary shared by the model of usim_tables.py: distinctness,
    pandas-style `unique` (first-occurrence order), `drop_duplicates(keep='first')`,
    `sort_values` with missing values last, and row filters. */
module SeqUtil {

  datatype Option<+T> = None | Some(value: T)

  /** No element occurs twice. */
  ghost predicate Distinct<T>(s: seq<T>)
  {
    forall i, j :: 0 <= i < j < |s| ==> s[i] != s[j]
  }

  lemma DistinctAppend<T>(a: seq<T>, b: seq<T>)
    requires Distinct(a) && Distinct(b)
    requires forall x :: x in a ==> x !in b
    ensures Distinct(a + b)
  {
    forall i, j | 0 <= i < j < |a + b|
      ensures (a + b)[i] != (a + b)[j]
    {
      if j < |a| {
      } else if i >= |a| {
        assert (a + b)[i] == b[i - |a|] && (a + b)[j] == b[j - |a|];
      } else {
        assert (a + b)[i] in a && (a + b)[j] in b;
      }
    }
  }

  /** A duplicate-free sequence has as many distinct elements as it is long. */
  lemma {:induction false} DistinctCard<T>(s: seq<T>)
    requires Distinct(s)
    ensures |set x | x in s| == |s|
  {
    if s != [] {
      var init := s[..|s| - 1];
      assert Distinct(init);
      DistinctCard(init);
      assert s[|s| - 1] !in init;
      assert (set x | x in s) == (set x | x in init) + {s[|s| - 1]} by {
        assert s == init + [s[|s| - 1]];
      }
    }
  }

  /** Index of the first occurrence of `x` in `s`. */
  function FirstIndex<T(==)>(s: seq<T>, x: T): (i: nat)
    requires x in s
    ensures i < |s| && s[i] == x
    ensures forall j :: 0 <= j < i ==> s[j] != x
  {
    if x in s[..|s| - 1] then FirstIndex(s[..|s| - 1], x) else |s| - 1
  }

  /** pandas `Series.unique()`: the distinct values, in the order in which
      each was first seen. */
  function Unique<T(==)>(s: seq<T>): (u: seq<T>)
    ensures Distinct(u)
    ensures forall x :: x in u ==> x in s
    ensures forall x :: x in s ==> x in u
    ensures |u| <= |s|
  {
    if s == [] then []
    else
      var v := Unique(s[..|s| - 1]);
      if s[|s| - 1] in v then v else v + [s[|s| - 1]]
  }

  /** The values of `Unique(s)` appear in strictly increasing order of their
      first occurrence in `s`: entry k is the (k+1)-th distinct value seen. */
  lemma {:induction false} UniqueFirstSeenOrder<T>(s: seq<T>)
    ensures forall i, j :: 0 <= i < j < |Unique(s)| ==>
      FirstIndex(s, Unique(s)[i]) < FirstIndex(s, Unique(s)[j])
  {
    if s != [] {
      var init := s[..|s| - 1];
      var last := s[|s| - 1];
      var v := Unique(init);
      UniqueFirstSeenOrder(init);
      forall x | x in init ensures FirstIndex(s, x) == FirstIndex(init, x) {
        assert x in s[..|s| - 1];
      }
      if last !in v {
        assert last !in init;
        assert FirstIndex(s, last) == |s| - 1;
        var u := Unique(s);
        assert u == v + [last];
        forall i, j | 0 <= i < j < |u|
          ensures FirstIndex(s, u[i]) < FirstIndex(s, u[j])
        {
          assert u[i] == v[i] && u[i] in init;
          if j < |v| {
            assert u[j] == v[j] && u[j] in init;
          }
        }
      }
    }
  }

  /** Column projection. */
  function Project<T, K>(s: seq<T>, key: T -> K): (p: seq<K>)
    ensures |p| == |s|
    ensures forall i :: 0 <= i < |s| ==> p[i] == key(s[i])
  {
    seq(|s|, i requires 0 <= i < |s| => key(s[i]))
  }

  /** pandas `drop_duplicates(subset=[key], keep='first')`: keep each row
      whose key was not seen on an earlier row. */
  function KeepFirstBy<T, K(==)>(s: seq<T>, key: T -> K): (r: seq<T>)
    ensures Project(r, key) == Unique(Project(s, key))
    ensures forall x :: x in r ==> x in s
    ensures forall k :: 0 <= k < |r| ==>
      key(r[k]) in Project(s, key) && r[k] == s[FirstIndex(Project(s, key), key(r[k]))]
  {
    if s == [] then []
    else
      var v := KeepFirstBy(s[..|s| - 1], key);
      KeepFirstStep(s, key, v);
      if key(s[|s| - 1]) in Project(s[..|s| - 1], key) then v else v + [s[|s| - 1]]
  }

  /** One more row for `drop_duplicates`: it is kept exactly when its key is
      new, and the kept rows stay the first rows of their keys. */
  lemma KeepFirstStep<T, K>(s: seq<T>, key: T -> K, v: seq<T>)
    requires |s| > 0
    requires Project(v, key) == Unique(Project(s[..|s| - 1], key))
    requires forall x :: x in v ==> x in s[..|s| - 1]
    requires forall k :: 0 <= k < |v| ==>
      (key(v[k]) in Project(s[..|s| - 1], key) &&
       v[k] == s[..|s| - 1][FirstIndex(Project(s[..|s| - 1], key), key(v[k]))])
    ensures var r := if key(s[|s| - 1]) in Project(s[..|s| - 1], key) then v else v + [s[|s| - 1]];
      Project(r, key) == Unique(Project(s, key)) &&
      (forall x :: x in r ==> x in s) &&
      (forall k :: 0 <= k < |r| ==> key(r[k]) in Project(s, key) && r[k] == s[FirstIndex(Project(s, key), key(r[k]))])
  {
    var init := s[..|s| - 1];
    var last := s[|s| - 1];
    var p := Project(s, key);
    assert p[..|s| - 1] == Project(init, key);
    forall k | 0 <= k < |v| ensures key(v[k]) in p && v[k] == s[FirstIndex(p, key(v[k]))] {
      FirstIndexInit(p, key(v[k]));
    }
    assert forall k :: 0 <= k < |v| ==> key(v[k]) == Project(v, key)[k];
    if key(last) !in Project(init, key) {
      var r := v + [last];
      assert Project(r, key) == Project(v, key) + [key(last)];
    }
  }

  /** A value seen before the last position is first seen where it is first
      seen in the prefix. */
  lemma FirstIndexInit<K>(p: seq<K>, y: K)
    requires |p| > 0 && y in p[..|p| - 1]
    ensures FirstIndex(p, y) == FirstIndex(p[..|p| - 1], y)
  {
  }

  /** A sort key in which `Missing` (NaN) is larger than every number,
      as in `sort_values(na_position='last')`. */
  datatype Rank = Finite(v: int) | Missing

  predicate RankLe(a: Rank, b: Rank)
  {
    b.Missing? || (a.Finite? && a.v <= b.v)
  }

  ghost predicate SortedBy<T>(s: seq<T>, key: T -> Rank)
  {
    forall i, j :: 0 <= i < j < |s| ==> RankLe(key(s[i]), key(s[j]))
  }

  function Insert<T>(x: T, s: seq<T>, key: T -> Rank): (r: seq<T>)
    requires SortedBy(s, key)
    ensures SortedBy(r, key)
    ensures multiset(r) == multiset(s) + multiset{x}
    ensures |r| == |s| + 1
    ensures forall i :: 0 <= i < |r| ==> r[i] == x || r[i] in s
  {
    if s == [] then [x]
    else if RankLe(key(x), key(s[0])) then
      InsertFront(x, s, key);
      [x] + s
    else
      var t := Insert(x, s[1..], key);
      InsertBehind(x, s, t, key);
      [s[0]] + t
  }

  /** An element ranked at or below the head goes in front. */
  lemma InsertFront<T>(x: T, s: seq<T>, key: T -> Rank)
    requires SortedBy(s, key) && |s| > 0 && RankLe(key(x), key(s[0]))
    ensures SortedBy([x] + s, key)
  {
    forall j | 0 <= j < |s| ensures RankLe(key(x), key(s[j])) {
      if j > 0 {
        assert RankLe(key(s[0]), key(s[j]));
      }
    }
    SortedCons(x, s, key);
  }

  /** An element ranked above the head goes into the tail, behind the head. */
  lemma InsertBehind<T>(x: T, s: seq<T>, t: seq<T>, key: T -> Rank)
    requires SortedBy(s, key) && |s| > 0 && !RankLe(key(x), key(s[0]))
    requires SortedBy(t, key)
    requires multiset(t) == multiset(s[1..]) + multiset{x}
    requires |t| == |s|
    requires forall i :: 0 <= i < |t| ==> t[i] == x || t[i] in s[1..]
    ensures SortedBy([s[0]] + t, key)
    ensures multiset([s[0]] + t) == multiset(s) + multiset{x}
    ensures forall i :: 0 <= i < |t| + 1 ==> ([s[0]] + t)[i] == x || ([s[0]] + t)[i] in s
  {
    assert s == [s[0]] + s[1..];
    forall j | 0 <= j < |t| ensures RankLe(key(s[0]), key(t[j])) {
      if t[j] != x {
        var m :| 1 <= m < |s| && s[m] == t[j];
      }
    }
    SortedCons(s[0], t, key);
  }

  /** A head ranked at or below every element of a sorted tail keeps it
      sorted. */
  lemma SortedCons<T>(h: T, t: seq<T>, key: T -> Rank)
    requires SortedBy(t, key)
    requires forall j :: 0 <= j < |t| ==> RankLe(key(h), key(t[j]))
    ensures SortedBy([h] + t, key)
  {
    var r := [h] + t;
    forall i, j | 0 <= i < j < |r| ensures RankLe(key(r[i]), key(r[j])) {
      assert r[j] == t[j - 1];
      if i > 0 {
        assert r[i] == t[i - 1];
      }
    }
  }

  /** pandas `sort_values(key)`; the order among equal keys is not promised
      by pandas (quicksort), this model keeps the input order. */
  function SortBy<T>(s: seq<T>, key: T -> Rank): (r: seq<T>)
    ensures SortedBy(r, key)
    ensures multiset(r) == multiset(s)
    ensures |r| == |s|
  {
    if s == [] then []
    else
      assert s == [s[0]] + s[1..];
      Insert(s[0], SortBy(s[1..], key), key)
  }

  /** Boolean-mask row selection `df[mask]`, keeping row order. */
  function Filter<T(!new)>(s: seq<T>, keep: T -> bool): (r: seq<T>)
    ensures |r| <= |s|
    ensures forall x :: x in r ==> x in s && keep(x)
    ensures forall x :: multiset(r)[x] == if keep(x) then multiset(s)[x] else 0
  {
    if s == [] then []
    else
      var v := Filter(s[..|s| - 1], keep);
      assert s == s[..|s| - 1] + [s[|s| - 1]];
      if keep(s[|s| - 1]) then v + [s[|s| - 1]] else v
  }

  /** The positions of the rows a mask keeps, in table order. */
  function KeptIndices<T>(s: seq<T>, keep: T -> bool): (idx: seq<nat>)
    ensures forall k :: 0 <= k < |idx| ==> idx[k] < |s|
  {
    if s == [] then []
    else
      var v := KeptIndices(s[..|s| - 1], keep);
      if keep(s[|s| - 1]) then v + [|s| - 1] else v
  }

  /** `df[mask]` is the subsequence of the rows the mask keeps: its k-th row
      is the row at the k-th kept position, the kept positions increase, and
      a position is kept exactly when the mask holds on its row. */
  lemma {:induction false} FilterInOrder<T(!new)>(s: seq<T>, keep: T -> bool)
    ensures |Filter(s, keep)| == |KeptIndices(s, keep)|
    ensures forall k :: 0 <= k < |Filter(s, keep)| ==> Filter(s, keep)[k] == s[KeptIndices(s, keep)[k]]
    ensures forall k, l :: 0 <= k < l < |KeptIndices(s, keep)| ==> KeptIndices(s, keep)[k] < KeptIndices(s, keep)[l]
    ensures forall i :: 0 <= i < |s| ==> (keep(s[i]) <==> i in KeptIndices(s, keep))
  {
    if s != [] {
      var init := s[..|s| - 1];
      FilterInOrder(init, keep);
      InOrderStep(s, keep, Filter(init, keep), KeptIndices(init, keep), Filter(s, keep), KeptIndices(s, keep));
    }
  }

  /** The inductive step of `FilterInOrder`: appending one row extends the
      kept rows and the kept positions together, or neither. */
  lemma InOrderStep<T>(s: seq<T>, keep: T -> bool, fi: seq<T>, ii: seq<nat>, f: seq<T>, idx: seq<nat>)
    requires |s| > 0 && |fi| == |ii|
    requires forall k :: 0 <= k < |ii| ==> ii[k] < |s| - 1 && fi[k] == s[ii[k]]
    requires forall k, l :: 0 <= k < l < |ii| ==> ii[k] < ii[l]
    requires forall i :: 0 <= i < |s| - 1 ==> (keep(s[i]) <==> i in ii)
    requires f == if keep(s[|s| - 1]) then fi + [s[|s| - 1]] else fi
    requires idx == if keep(s[|s| - 1]) then ii + [|s| - 1] else ii
    ensures |f| == |idx|
    ensures forall k :: 0 <= k < |f| ==> idx[k] < |s| && f[k] == s[idx[k]]
    ensures forall k, l :: 0 <= k < l < |idx| ==> idx[k] < idx[l]
    ensures forall i :: 0 <= i < |s| ==> (keep(s[i]) <==> i in idx)
  {
    var n := |s|;
    if keep(s[n - 1]) {
      forall i | 0 <= i < n
        ensures keep(s[i]) <==> i in idx
      {
        if i == n - 1 {
          assert idx[|ii|] == i;
        } else {
          assert i in idx <==> i in ii;
        }
      }
    } else {
      assert n - 1 !in ii;
    }
  }

  /** A value is in a projection exactly when some element carries it. */
  lemma ProjectMember<T, K>(s: seq<T>, key: T -> K, k: K)
    ensures k in Project(s, key) <==> exists x :: x in s && key(x) == k
  {
    if k in Project(s, key) {
      var i :| 0 <= i < |s| && Project(s, key)[i] == k;
      assert s[i] in s;
    }
    if exists x :: x in s && key(x) == k {
      var x :| x in s && key(x) == k;
      var i :| 0 <= i < |s| && s[i] == x;
      assert Project(s, key)[i] == k;
    }
  }

  lemma ProjectAppend<T, K>(a: seq<T>, b: seq<T>, key: T -> K)
    ensures Project(a + b, key) == Project(a, key) + Project(b, key)
  {
  }

  /** Rank order is reflexive. */
  lemma RankLeRefl(a: Rank)
    ensures RankLe(a, a)
  {
  }

  /** In a sequence sorted by `rank`, the first element carrying a key ranks
      at or below every element carrying that key. */
  lemma FirstIsLeast<T, K>(s: seq<T>, key: T -> K, rank: T -> Rank, x: T)
    requires SortedBy(s, rank) && x in s
    ensures key(x) in Project(s, key)
    ensures RankLe(rank(s[FirstIndex(Project(s, key), key(x))]), rank(x))
  {
    var j :| 0 <= j < |s| && s[j] == x;
    assert Project(s, key)[j] == key(x);
    var i := FirstIndex(Project(s, key), key(x));
    assert i <= j;
    if i == j {
      RankLeRefl(rank(x));
    }
  }

  /** A filter that keeps every element is the identity. */
  lemma {:induction false} FilterKeepsAll<T(!new)>(s: seq<T>, keep: T -> bool)
    requires forall x :: x in s ==> keep(x)
    ensures Filter(s, keep) == s
  {
    if s != [] {
      var init := s[..|s| - 1];
      assert s == init + [s[|s| - 1]];
      FilterKeepsAll(init, keep);
    }
  }

  /** Sorting keeps exactly the same elements. */
  lemma SortBySameElements<T>(s: seq<T>, key: T -> Rank)
    ensures forall x :: x in SortBy(s, key) <==> x in s
  {
    var r := SortBy(s, key);
    forall x ensures x in r <==> x in s {
      assert x in r <==> multiset(r)[x] > 0;
      assert x in s <==> multiset(s)[x] > 0;
    }
  }

  /** An element other than the last lies in the prefix, and the prefix
      holds nothing else. */
  lemma InInit<T>(s: seq<T>, x: T)
    requires x in s && x != s[|s| - 1]
    ensures x in s[..|s| - 1]
    ensures forall y :: y in s[..|s| - 1] ==> y in s
  {
    var j :| 0 <= j < |s| && s[j] == x;
    assert s[..|s| - 1][j] == x;
  }

  /** Filtering a sequence extended by one element. */
  lemma FilterSnoc<T(!new)>(s: seq<T>, x: T, keep: T -> bool)
    ensures Filter(s + [x], keep) == if keep(x) then Filter(s, keep) + [x] else Filter(s, keep)
  {
    assert (s + [x])[..|s|] == s;
  }
}
