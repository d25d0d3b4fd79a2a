/**
 * The ranker of `ProjectionService.build`: `candidatos.sort(cmp)` with a
 * three-key comparator (failed first, then ascending level, then descending
 * credits). `Array.prototype.sort` has been stable since ECMAScript 2019, so
 * candidates the comparator ties keep their curriculum order. The sort is
 * modelled as a stable insertion sort, and `RankIsTheStableSort` shows that
 * every sorted, tie-order-preserving arrangement of the input is this one.
 */
module Ranking {
  import opened Domain

  /** The comparator handed to `sort`: negative when `a` goes first, positive when `b` does. */
  function Compare(a: ProjectionCourse, b: ProjectionCourse): (c: int) {
    if a.motivo != b.motivo then (if a.motivo == Reprobado then -1 else 1)
    else if a.nivel != b.nivel then a.nivel - b.nivel
    else b.creditos - a.creditos
  }

  /** Neither course sorts before the other. */
  predicate Tied(a: ProjectionCourse, b: ProjectionCourse) {
    Compare(a, b) == 0
  }

  predicate Sorted(s: seq<ProjectionCourse>) {
    forall i, j :: 0 <= i < j < |s| ==> Compare(s[i], s[j]) <= 0
  }

  /** The members of `s` tied with `x`, in the order they appear in `s`. */
  function TiedWith(s: seq<ProjectionCourse>, x: ProjectionCourse): (tied: seq<ProjectionCourse>) {
    if s == [] then [] else (if Tied(s[0], x) then [s[0]] else []) + TiedWith(s[1..], x)
  }

  /**
   * The comparator is consistent in the sense `Array.prototype.sort` requires:
   * its sign is antisymmetric, it is transitive, and it ties exactly the courses
   * that agree on reason, level and credits.
   */
  lemma ComparatorConsistent(a: ProjectionCourse, b: ProjectionCourse, c: ProjectionCourse)
    ensures Compare(a, a) == 0
    ensures Compare(a, b) < 0 <==> Compare(b, a) > 0
    ensures Compare(a, b) == 0 <==> a.motivo == b.motivo && a.nivel == b.nivel && a.creditos == b.creditos
    ensures Compare(a, b) <= 0 && Compare(b, c) <= 0 ==> Compare(a, c) <= 0
  {
  }

  /** Inserts `x` in front of the first element it does not sort after. */
  function Insert(x: ProjectionCourse, s: seq<ProjectionCourse>): (r: seq<ProjectionCourse>) {
    if s == [] then [x]
    else if Compare(x, s[0]) <= 0 then [x] + s
    else [s[0]] + Insert(x, s[1..])
  }

  lemma TiedWithCons(a: ProjectionCourse, t: seq<ProjectionCourse>, y: ProjectionCourse)
    ensures TiedWith([a] + t, y) == (if Tied(a, y) then [a] else []) + TiedWith(t, y)
  {
    assert ([a] + t)[0] == a;
    assert ([a] + t)[1..] == t;
  }

  lemma {:induction false} InsertPermutes(x: ProjectionCourse, s: seq<ProjectionCourse>)
    ensures multiset(Insert(x, s)) == multiset(s) + multiset{x}
    decreases |s|
  {
    if s != [] && Compare(x, s[0]) > 0 {
      InsertPermutes(x, s[1..]);
      assert s == [s[0]] + s[1..];
    }
  }

  lemma SortedCons(a: ProjectionCourse, t: seq<ProjectionCourse>)
    requires Sorted(t)
    requires forall j :: 0 <= j < |t| ==> Compare(a, t[j]) <= 0
    ensures Sorted([a] + t)
  {
    forall i, j | 0 <= i < j < |[a] + t|
      ensures Compare(([a] + t)[i], ([a] + t)[j]) <= 0
    {
      if i > 0 {
        assert ([a] + t)[i] == t[i - 1];
      }
      assert ([a] + t)[j] == t[j - 1];
    }
  }

  /** Inserting into a sorted sequence keeps it sorted. */
  lemma {:induction false} InsertSorted(x: ProjectionCourse, s: seq<ProjectionCourse>)
    requires Sorted(s)
    ensures Sorted(Insert(x, s))
    decreases |s|
  {
    if s == [] {
    } else if Compare(x, s[0]) <= 0 {
      forall j | 0 <= j < |s|
        ensures Compare(x, s[j]) <= 0
      {
        ComparatorConsistent(x, s[0], s[j]);
        ComparatorConsistent(s[0], s[0], s[0]);
      }
      SortedCons(x, s);
    } else {
      var t := s[1..];
      InsertSorted(x, t);
      InsertPermutes(x, t);
      var u := Insert(x, t);
      forall j | 0 <= j < |u|
        ensures Compare(s[0], u[j]) <= 0
      {
        assert u[j] in multiset(t) + multiset{x};
        if u[j] == x {
          ComparatorConsistent(x, s[0], x);
        } else {
          assert u[j] in t;
          var k :| 0 <= k < |t| && t[k] == u[j];
          assert s[k + 1] == u[j];
        }
      }
      SortedCons(s[0], u);
    }
  }

  /** Insertion puts `x` ahead of everything already tied with it, and moves nothing else. */
  lemma {:induction false} InsertKeepsTies(x: ProjectionCourse, s: seq<ProjectionCourse>, y: ProjectionCourse)
    ensures TiedWith(Insert(x, s), y) == (if Tied(x, y) then [x] else []) + TiedWith(s, y)
    decreases |s|
  {
    if s == [] {
      TiedWithCons(x, [], y);
    } else if Compare(x, s[0]) <= 0 {
      TiedWithCons(x, s, y);
    } else {
      InsertKeepsTies(x, s[1..], y);
      TiedWithCons(s[0], Insert(x, s[1..]), y);
      TiedWithCons(s[0], s[1..], y);
      assert [s[0]] + s[1..] == s;
      ComparatorConsistent(x, y, s[0]);
      ComparatorConsistent(s[0], y, x);
      ComparatorConsistent(y, x, s[0]);
    }
  }

  /**
   * `candidatos.sort(Compare)`: a permutation of the input, sorted by the
   * comparator, in which the courses tied with any given course appear in
   * the same order as in the input (stability).
   */
  function Rank(s: seq<ProjectionCourse>): (r: seq<ProjectionCourse>)
    ensures multiset(r) == multiset(s)
    ensures Sorted(r)
    ensures forall y :: TiedWith(r, y) == TiedWith(s, y)
  {
    if s == [] then []
    else
      var rest := Rank(s[1..]);
      InsertPermutes(s[0], rest);
      InsertSorted(s[0], rest);
      assert s == [s[0]] + s[1..];
      assert forall y :: TiedWith(Insert(s[0], rest), y) == TiedWith(s, y) by {
        forall y
          ensures TiedWith(Insert(s[0], rest), y) == TiedWith(s, y)
        {
          InsertKeepsTies(s[0], rest, y);
          TiedWithCons(s[0], s[1..], y);
        }
      }
      Insert(s[0], rest)
  }

  /** What `Sorted` means for the three keys, pair by pair. */
  lemma RankOrder(s: seq<ProjectionCourse>)
    ensures var r := Rank(s);
            forall i, j :: 0 <= i < j < |r| ==>
              && (r[j].motivo == Reprobado ==> r[i].motivo == Reprobado)
              && (r[i].motivo == r[j].motivo ==> r[i].nivel <= r[j].nivel)
              && (r[i].motivo == r[j].motivo && r[i].nivel == r[j].nivel ==> r[i].creditos >= r[j].creditos)
  {
    var r := Rank(s);
    forall i, j | 0 <= i < j < |r|
      ensures && (r[j].motivo == Reprobado ==> r[i].motivo == Reprobado)
              && (r[i].motivo == r[j].motivo ==> r[i].nivel <= r[j].nivel)
              && (r[i].motivo == r[j].motivo && r[i].nivel == r[j].nivel ==> r[i].creditos >= r[j].creditos)
    {
      assert Compare(r[i], r[j]) <= 0;
    }
  }

  lemma TiedWithSelf(r: seq<ProjectionCourse>)
    ensures r != [] ==> TiedWith(r, r[0]) == [r[0]] + TiedWith(r[1..], r[0])
  {
    if r != [] {
      ComparatorConsistent(r[0], r[0], r[0]);
    }
  }

  lemma {:induction false} TiedWithMembers(s: seq<ProjectionCourse>, y: ProjectionCourse)
    ensures forall e :: e in TiedWith(s, y) ==> e in s
    decreases |s|
  {
    if s != [] {
      TiedWithMembers(s[1..], y);
    }
  }

  lemma SortedHeadFirst(r: seq<ProjectionCourse>, e: ProjectionCourse)
    requires Sorted(r) && e in r
    ensures Compare(r[0], e) <= 0
  {
    var j :| 0 <= j < |r| && r[j] == e;
    if j == 0 {
      ComparatorConsistent(e, e, e);
    }
  }

  lemma TiesDetermineEmptiness(r1: seq<ProjectionCourse>, r2: seq<ProjectionCourse>)
    requires forall y :: TiedWith(r1, y) == TiedWith(r2, y)
    ensures r1 == [] <==> r2 == []
  {
    TiedWithSelf(r1);
    TiedWithSelf(r2);
    assert r1 != [] ==> TiedWith(r2, r1[0]) != [];
    assert r2 != [] ==> TiedWith(r1, r2[0]) != [];
  }

  /** The tie group of a course tied with the head of `r` starts with that head. */
  lemma TiedGroupStartsWithHead(r: seq<ProjectionCourse>, y: ProjectionCourse)
    requires r != [] && Tied(r[0], y)
    ensures TiedWith(r, y) != [] && TiedWith(r, y)[0] == r[0]
  {
  }

  /** The head of `r1` occurs in `r2` when both agree on its tie group, so it cannot precede `r2`'s head. */
  lemma HeadNotBeforeHead(r1: seq<ProjectionCourse>, r2: seq<ProjectionCourse>)
    requires Sorted(r2) && r1 != [] && r2 != []
    requires TiedWith(r1, r1[0]) == TiedWith(r2, r1[0])
    ensures Compare(r2[0], r1[0]) <= 0
  {
    var a := r1[0];
    TiedWithSelf(r1);
    assert a in TiedWith(r2, a);
    TiedWithMembers(r2, a);
    SortedHeadFirst(r2, a);
  }

  /** Sorted sequences that agree on every group of tied courses start with the same course. */
  lemma TiesDetermineHead(r1: seq<ProjectionCourse>, r2: seq<ProjectionCourse>)
    requires Sorted(r1) && Sorted(r2) && r1 != [] && r2 != []
    requires forall y :: TiedWith(r1, y) == TiedWith(r2, y)
    ensures r1[0] == r2[0]
  {
    var a, b := r1[0], r2[0];
    assert TiedWith(r1, a) == TiedWith(r2, a);
    assert TiedWith(r2, b) == TiedWith(r1, b);
    HeadNotBeforeHead(r1, r2);
    HeadNotBeforeHead(r2, r1);
    ComparatorConsistent(a, b, a);
    ComparatorConsistent(a, a, a);
    TiedGroupStartsWithHead(r1, a);
    TiedGroupStartsWithHead(r2, a);
  }

  lemma TiesDetermineTail(r1: seq<ProjectionCourse>, r2: seq<ProjectionCourse>)
    requires r1 != [] && r2 != [] && r1[0] == r2[0]
    requires forall y :: TiedWith(r1, y) == TiedWith(r2, y)
    ensures forall y :: TiedWith(r1[1..], y) == TiedWith(r2[1..], y)
  {
    var a := r1[0];
    var t1, t2 := r1[1..], r2[1..];
    assert r1 == [a] + t1;
    assert r2 == [a] + t2;
    forall y
      ensures TiedWith(t1, y) == TiedWith(t2, y)
    {
      var h := if Tied(a, y) then [a] else [];
      TiedWithCons(a, t1, y);
      TiedWithCons(a, t2, y);
      assert h + TiedWith(t1, y) == h + TiedWith(t2, y);
      assert TiedWith(t1, y) == (h + TiedWith(t1, y))[|h|..];
      assert TiedWith(t2, y) == (h + TiedWith(t2, y))[|h|..];
    }
  }

  /** Two sorted sequences that agree on the order of every group of tied courses are equal. */
  lemma {:induction false} SortedDeterminedByTies(r1: seq<ProjectionCourse>, r2: seq<ProjectionCourse>)
    requires Sorted(r1) && Sorted(r2)
    requires forall y :: TiedWith(r1, y) == TiedWith(r2, y)
    ensures r1 == r2
    decreases |r1|
  {
    TiesDetermineEmptiness(r1, r2);
    if r1 != [] {
      TiesDetermineHead(r1, r2);
      TiesDetermineTail(r1, r2);
      SortedDeterminedByTies(r1[1..], r2[1..]);
      assert r1 == [r1[0]] + r1[1..];
      assert r2 == [r2[0]] + r2[1..];
    }
  }

  /**
   * `Rank` is the stable sort: any arrangement of `s` that is sorted by the
   * comparator and keeps every group of tied courses in input order is `Rank(s)`.
   */
  lemma RankIsTheStableSort(s: seq<ProjectionCourse>, r: seq<ProjectionCourse>)
    requires Sorted(r)
    requires forall y :: TiedWith(r, y) == TiedWith(s, y)
    ensures r == Rank(s)
  {
    SortedDeterminedByTies(r, Rank(s));
  }
}
