/**
 * `ProjectionService.build`: resolve the effective cap, derive the approved
 * and failed code sets from the history, keep the eligible courses, rank
 * them, pack them greedily under the cap, and echo the rules applied.
 */
module Projection {
  import opened Wrappers
  import opened Domain
  import opened Prereqs
  import opened Eligibility
  import opened Ranking
  import opened Packing

  /** The cap used when the caller's is not a finite positive number. */
  const DefaultTope: int := 22

  /** The caller's cap when it is finite and positive, the default otherwise. */
  function EffectiveTope(t: TopeInput): (tope: int)
    ensures tope > 0
  {
    if t.Finite? && t.value > 0 then t.value else DefaultTope
  }

  /** The eligible courses of the curriculum, in the order the ranker leaves them. */
  function Ranked(input: ProjectionInput): (ranked: seq<ProjectionCourse>) {
    Rank(Candidatos(input.malla, Aprobados(input.avance), Reprobados(input.avance)))
  }

  /**
   * The whole engine. The rules echo the effective cap, not the raw input;
   * the total is the credit sum of the selection and never exceeds that cap.
   */
  function Build(input: ProjectionInput): (r: ProjectionResult)
    ensures input.topeCreditos.Finite? && input.topeCreditos.value > 0 ==>
              r.reglas.topeCreditos == input.topeCreditos.value
    ensures !(input.topeCreditos.Finite? && input.topeCreditos.value > 0) ==>
              r.reglas.topeCreditos == DefaultTope
    ensures r.reglas.priorizaReprobados && r.reglas.verificaPrereq
    ensures r.totalCreditos == TotalCredits(r.seleccion)
    ensures r.totalCreditos <= r.reglas.topeCreditos
  {
    var tope := EffectiveTope(input.topeCreditos);
    var packed := Pack(Ranked(input), tope);
    PackTotalIsSum(Ranked(input), tope);
    ProjectionResult(packed.seleccion, packed.total, Reglas(tope, true, true))
  }

  /** Every selected course is one of the ranked candidates, kept in their order. */
  lemma SelectionFollowsRanking(input: ProjectionInput)
    ensures IsSubsequence(Build(input).seleccion, Ranked(input))
    ensures forall x :: x in Build(input).seleccion ==>
              x in Candidatos(input.malla, Aprobados(input.avance), Reprobados(input.avance))
  {
    var ranked := Ranked(input);
    var tope := EffectiveTope(input.topeCreditos);
    PackKeepsOrder(ranked, tope);
    SubsequenceMembers(Build(input).seleccion, ranked);
    forall x | x in Build(input).seleccion
      ensures x in Candidatos(input.malla, Aprobados(input.avance), Reprobados(input.avance))
    {
      assert x in multiset(ranked);
    }
  }

  /**
   * No selected course has been approved, even when the history also records
   * it as failed: the approved filter runs before the failed bypass.
   */
  lemma SelectionExcludesApproved(input: ProjectionInput)
    ensures forall x :: x in Build(input).seleccion ==> x.codigo !in Aprobados(input.avance)
  {
    SelectionFollowsRanking(input);
    forall x | x in Build(input).seleccion
      ensures x.codigo !in Aprobados(input.avance)
    {
      CandidateFacts(input.malla, Aprobados(input.avance), Reprobados(input.avance), x);
    }
  }

  /**
   * Every selected course was failed or has its prerequisites approved, and it
   * is tagged `Reprobado` exactly when its code is in the failed set.
   */
  lemma SelectionIsEligible(input: ProjectionInput)
    ensures var aprobados, reprobados := Aprobados(input.avance), Reprobados(input.avance);
            forall x :: x in Build(input).seleccion ==>
              && (x.motivo == Reprobado <==> x.codigo in reprobados)
              && x.nrc == None
              && exists c :: c in input.malla && c.codigo == x.codigo
                             && c.creditos == x.creditos && c.nivel == x.nivel
                             && (x.codigo in reprobados || HasPrereqs(c, aprobados))
  {
    SelectionFollowsRanking(input);
    forall x | x in Build(input).seleccion
      ensures && (x.motivo == Reprobado <==> x.codigo in Reprobados(input.avance))
              && x.nrc == None
              && exists c :: c in input.malla && c.codigo == x.codigo
                             && c.creditos == x.creditos && c.nivel == x.nivel
                             && (x.codigo in Reprobados(input.avance) || HasPrereqs(c, Aprobados(input.avance)))
    {
      CandidateFacts(input.malla, Aprobados(input.avance), Reprobados(input.avance), x);
    }
  }

  /** Dropping elements from a sorted sequence leaves it sorted. */
  lemma {:induction false} SubsequenceOfSortedIsSorted(a: seq<ProjectionCourse>, b: seq<ProjectionCourse>)
    requires IsSubsequence(a, b) && Sorted(b)
    ensures Sorted(a)
    decreases |b|
  {
    if a != [] {
      if a[0] == b[0] {
        SubsequenceOfSortedIsSorted(a[1..], b[1..]);
        SubsequenceMembers(a[1..], b[1..]);
        forall j | 0 <= j < |a[1..]|
          ensures Compare(a[0], a[1..][j]) <= 0
        {
          assert a[1..][j] in a[1..];
          var k :| 0 <= k < |b[1..]| && b[1..][k] == a[1..][j];
          assert b[k + 1] == a[1..][j];
        }
        SortedCons(a[0], a[1..]);
        assert a == [a[0]] + a[1..];
      } else {
        SubsequenceOfSortedIsSorted(a, b[1..]);
      }
    }
  }

  /**
   * The selection is in priority order: every selected failed course comes
   * before every selected pending one, then by ascending level, then by
   * descending credits.
   */
  lemma SelectionInPriorityOrder(input: ProjectionInput)
    ensures var s := Build(input).seleccion;
            forall i, j :: 0 <= i < j < |s| ==>
              && (s[j].motivo == Reprobado ==> s[i].motivo == Reprobado)
              && (s[i].motivo == s[j].motivo ==> s[i].nivel <= s[j].nivel)
              && (s[i].motivo == s[j].motivo && s[i].nivel == s[j].nivel ==> s[i].creditos >= s[j].creditos)
  {
    var s := Build(input).seleccion;
    SelectionFollowsRanking(input);
    SubsequenceOfSortedIsSorted(s, Ranked(input));
    forall i, j | 0 <= i < j < |s|
      ensures && (s[j].motivo == Reprobado ==> s[i].motivo == Reprobado)
              && (s[i].motivo == s[j].motivo ==> s[i].nivel <= s[j].nivel)
              && (s[i].motivo == s[j].motivo && s[i].nivel == s[j].nivel ==> s[i].creditos >= s[j].creditos)
    {
      assert Compare(s[i], s[j]) <= 0;
    }
  }

  /** A curriculum whose every course is approved yields an empty selection and a zero total. */
  lemma NothingLeftToTake(input: ProjectionInput)
    requires forall k :: 0 <= k < |input.malla| ==> input.malla[k].codigo in Aprobados(input.avance)
    ensures Build(input).seleccion == [] && Build(input).totalCreditos == 0
  {
    var cands := Candidatos(input.malla, Aprobados(input.avance), Reprobados(input.avance));
    if cands != [] {
      CandidateFacts(input.malla, Aprobados(input.avance), Reprobados(input.avance), cands[0]);
    }
    assert cands == [];
    assert Ranked(input) == [];
  }
}
