/**
 * The greedy packer of `ProjectionService.build`: one left-to-right pass over
 * the ranked candidates that takes a candidate when it still fits under the
 * cap, skips it otherwise, and leaves the loop as soon as the running total
 * reaches the cap. It is not an optimal knapsack: a skipped candidate is never
 * reconsidered.
 */
module Packing {
  import opened Domain

  /** The loop state: the courses taken so far and their running credit total. */
  datatype Packed = Packed(seleccion: seq<ProjectionCourse>, total: int)

  /** The loop body before the break test: take `c` when `total + creditos <= tope`. */
  function Visit(acc: Packed, c: ProjectionCourse, tope: int): (p: Packed) {
    if acc.total + c.creditos <= tope then Packed(acc.seleccion + [c], acc.total + c.creditos)
    else acc
  }

  /**
   * The rest of the loop from state `acc` over the candidates `cs` not yet
   * scanned; the loop is left once the total reaches `tope`. Starting within
   * the cap, it ends within the cap.
   */
  function PackFrom(cs: seq<ProjectionCourse>, tope: int, acc: Packed): (r: Packed)
    ensures acc.total <= tope ==> r.total <= tope
    decreases |cs|
  {
    if cs == [] then acc
    else
      var next := Visit(acc, cs[0], tope);
      if next.total >= tope then next else PackFrom(cs[1..], tope, next)
  }

  /** The whole pass, starting from an empty selection and a zero total. */
  function Pack(cs: seq<ProjectionCourse>, tope: int): (p: Packed) {
    PackFrom(cs, tope, Packed([], 0))
  }

  /** `a` can be obtained from `b` by deleting elements, keeping the order of the rest. */
  predicate IsSubsequence(a: seq<ProjectionCourse>, b: seq<ProjectionCourse>)
    decreases |b|
  {
    if a == [] then true
    else if b == [] then false
    else if a[0] == b[0] then IsSubsequence(a[1..], b[1..])
    else IsSubsequence(a, b[1..])
  }

  lemma {:induction false} SubsequenceDropHead(a: seq<ProjectionCourse>, b: seq<ProjectionCourse>)
    requires a != [] && IsSubsequence(a, b)
    ensures IsSubsequence(a[1..], b)
    decreases |b|, 0
  {
    if a[0] == b[0] {
      SubsequenceWiden(a[1..], b[1..], b[0]);
      assert [b[0]] + b[1..] == b;
    } else {
      SubsequenceDropHead(a, b[1..]);
      SubsequenceWiden(a[1..], b[1..], b[0]);
      assert [b[0]] + b[1..] == b;
    }
  }

  /** Adding an element in front of the larger sequence keeps the relation. */
  lemma {:induction false} SubsequenceWiden(a: seq<ProjectionCourse>, t: seq<ProjectionCourse>, c: ProjectionCourse)
    requires IsSubsequence(a, t)
    ensures IsSubsequence(a, [c] + t)
    decreases |t|, 1
  {
    assert ([c] + t)[1..] == t;
    if a != [] && a[0] == c {
      SubsequenceDropHead(a, t);
    }
  }

  lemma SubsequenceCons(a: seq<ProjectionCourse>, t: seq<ProjectionCourse>, c: ProjectionCourse)
    requires IsSubsequence(a, t)
    ensures IsSubsequence([c] + a, [c] + t)
  {
    assert ([c] + a)[1..] == a;
    assert ([c] + t)[1..] == t;
  }

  /** Everything in a subsequence occurs in the larger sequence. */
  lemma {:induction false} SubsequenceMembers(a: seq<ProjectionCourse>, b: seq<ProjectionCourse>)
    requires IsSubsequence(a, b)
    ensures forall x :: x in a ==> x in b
    decreases |b|
  {
    if a != [] {
      if a[0] == b[0] {
        SubsequenceMembers(a[1..], b[1..]);
        assert forall x :: x in a ==> x == a[0] || x in a[1..];
      } else {
        SubsequenceMembers(a, b[1..]);
      }
    }
  }

  /**
   * What one call of the rest of the loop adds to `acc`: a subsequence of the
   * candidates it scans, whose credits make up exactly the growth of the total.
   */
  lemma {:induction false} PackFromExtends(cs: seq<ProjectionCourse>, tope: int, acc: Packed)
    ensures var r := PackFrom(cs, tope, acc);
            var n := |acc.seleccion|;
            && n <= |r.seleccion| && r.seleccion[..n] == acc.seleccion
            && r.total == acc.total + TotalCredits(r.seleccion[n..])
            && IsSubsequence(r.seleccion[n..], cs)
    decreases |cs|
  {
    var n := |acc.seleccion|;
    if cs == [] {
      assert acc.seleccion[n..] == [];
    } else {
      var c := cs[0];
      var next := Visit(acc, c, tope);
      var taken := next.seleccion[n..];
      assert taken == (if acc.total + c.creditos <= tope then [c] else []);
      assert TotalCredits(taken) == next.total - acc.total by {
        if taken != [] {
          assert taken[1..] == [];
        }
      }
      assert IsSubsequence(taken, cs) by {
        assert cs == [c] + cs[1..];
        if taken == [] {
        } else {
          assert IsSubsequence([], cs[1..]);
          SubsequenceCons([], cs[1..], c);
        }
      }
      if next.total < tope {
        PackFromExtends(cs[1..], tope, next);
        var r := PackFrom(cs[1..], tope, next);
        var m := |next.seleccion|;
        var rest := r.seleccion[m..];
        assert next.seleccion[..n] == acc.seleccion && n <= m;
        assert r.seleccion[n..m] == next.seleccion[n..] == taken;
        SliceAt(r.seleccion, n, m);
        TotalCreditsAppend(taken, rest);
        assert cs == [c] + cs[1..];
        if taken == [] {
          SubsequenceWiden(rest, cs[1..], c);
        } else {
          SubsequenceCons(rest, cs[1..], c);
          assert taken + rest == [c] + rest;
        }
      }
    }
  }

  lemma SliceAt(s: seq<ProjectionCourse>, n: nat, m: nat)
    requires n <= m <= |s|
    ensures s[n..] == s[n..m] + s[m..]
  {
  }

  /** The reported total is the sum of the credits of the selected courses. */
  lemma PackTotalIsSum(cs: seq<ProjectionCourse>, tope: int)
    ensures Pack(cs, tope).total == TotalCredits(Pack(cs, tope).seleccion)
  {
    PackFromExtends(cs, tope, Packed([], 0));
    assert Pack(cs, tope).seleccion[0..] == Pack(cs, tope).seleccion;
  }

  /** The selection keeps the order of the ranked candidates. */
  lemma PackKeepsOrder(cs: seq<ProjectionCourse>, tope: int)
    ensures IsSubsequence(Pack(cs, tope).seleccion, cs)
  {
    PackFromExtends(cs, tope, Packed([], 0));
    assert Pack(cs, tope).seleccion[0..] == Pack(cs, tope).seleccion;
  }

  /**
   * Scanning one more candidate: the loop has already been left when the total
   * of the shorter run reached `tope`; otherwise the new candidate is taken
   * exactly when it fits and skipped when `total + creditos > tope`.
   */
  lemma {:induction false} PackFromSnoc(cs: seq<ProjectionCourse>, c: ProjectionCourse, tope: int, acc: Packed)
    requires cs != [] || acc.total < tope
    ensures var r := PackFrom(cs, tope, acc);
            PackFrom(cs + [c], tope, acc) == if r.total >= tope then r else Visit(r, c, tope)
    decreases |cs|
  {
    if cs == [] {
      assert cs + [c] == [c];
      assert [c][1..] == [];
    } else {
      assert (cs + [c])[0] == cs[0];
      assert (cs + [c])[1..] == cs[1..] + [c];
      var next := Visit(acc, cs[0], tope);
      if next.total < tope {
        PackFromSnoc(cs[1..], c, tope, next);
      }
    }
  }

  /** The greedy decision rule, stated on prefixes of the ranked candidates. */
  lemma PackStep(cs: seq<ProjectionCourse>, c: ProjectionCourse, tope: int)
    requires tope > 0
    ensures var r := Pack(cs, tope);
            Pack(cs + [c], tope) ==
              if r.total >= tope then r
              else if r.total + c.creditos <= tope then Packed(r.seleccion + [c], r.total + c.creditos)
              else r
  {
    PackFromSnoc(cs, c, tope, Packed([], 0));
  }

  /**
   * The packing loop as written: for each ranked candidate, push it and add
   * its credits when they fit, then leave the loop once the total reaches the cap.
   */
  method PackLoop(cs: seq<ProjectionCourse>, tope: int) returns (seleccion: seq<ProjectionCourse>, total: int)
    ensures Packed(seleccion, total) == Pack(cs, tope)
    ensures total == TotalCredits(seleccion)
    ensures tope >= 0 ==> total <= tope
  {
    seleccion := [];
    total := 0;
    var i := 0;
    while i < |cs|
      invariant 0 <= i <= |cs|
      invariant PackFrom(cs[i..], tope, Packed(seleccion, total)) == Pack(cs, tope)
      invariant total == TotalCredits(seleccion)
      invariant tope >= 0 ==> total <= tope
    {
      var c := cs[i];
      assert cs[i..][0] == c && cs[i..][1..] == cs[i + 1..];
      if total + c.creditos <= tope {
        TotalCreditsAppend(seleccion, [c]);
        seleccion := seleccion + [c];
        total := total + c.creditos;
      }
      if total >= tope {
        break;
      }
      i := i + 1;
    }
  }

  /** The same pass without the early exit. */
  function PackWithoutBreak(cs: seq<ProjectionCourse>, tope: int, acc: Packed): (p: Packed)
    decreases |cs|
  {
    if cs == [] then acc else PackWithoutBreak(cs[1..], tope, Visit(acc, cs[0], tope))
  }

  /**
   * When every candidate carries a positive number of credits, leaving the
   * loop at the cap changes nothing: no later candidate could have fitted.
   */
  lemma {:induction false} BreakOnlySavesWork(cs: seq<ProjectionCourse>, tope: int, acc: Packed)
    requires forall k :: 0 <= k < |cs| ==> cs[k].creditos > 0
    requires acc.total <= tope
    ensures PackFrom(cs, tope, acc) == PackWithoutBreak(cs, tope, acc)
    decreases |cs|
  {
    if cs != [] {
      var next := Visit(acc, cs[0], tope);
      if next.total >= tope {
        FullCapTakesNothing(cs[1..], tope, next);
      } else {
        BreakOnlySavesWork(cs[1..], tope, next);
      }
    }
  }

  lemma {:induction false} FullCapTakesNothing(cs: seq<ProjectionCourse>, tope: int, acc: Packed)
    requires forall k :: 0 <= k < |cs| ==> cs[k].creditos > 0
    requires acc.total == tope
    ensures PackWithoutBreak(cs, tope, acc) == acc
    decreases |cs|
  {
    if cs != [] {
      FullCapTakesNothing(cs[1..], tope, acc);
    }
  }
}
