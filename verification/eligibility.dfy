/**
 * The eligibility filter of `ProjectionService.build`: the approved and failed
 * code sets built from the academic history, and the filter that keeps the
 * courses a student may take next, tagged with the reason they were kept.
 */
module Eligibility {
  import opened Wrappers
  import opened Domain
  import opened Prereqs

  /** The codes of every history entry carrying `status` (`new Set(avance.filter(...).map(...))`). */
  function CodesWithStatus(avance: seq<AvanceItem>, status: string): (codes: set<string>)
    ensures forall code :: code in codes <==>
              exists k :: 0 <= k < |avance| && avance[k].course == code && avance[k].status == status
  {
    if avance == [] then {}
    else
      var rest := CodesWithStatus(avance[1..], status);
      assert forall k :: 1 <= k < |avance| ==> avance[k] == avance[1..][k - 1];
      if avance[0].status == status then {avance[0].course} + rest else rest
  }

  function Aprobados(avance: seq<AvanceItem>): (codes: set<string>) {
    CodesWithStatus(avance, APROBADO)
  }

  function Reprobados(avance: seq<AvanceItem>): (codes: set<string>) {
    CodesWithStatus(avance, REPROBADO)
  }

  /**
   * A course is kept when it is not approved and it was either failed (which
   * bypasses the prerequisite check) or has its prerequisites approved.
   */
  predicate Eligible(c: Course, aprobados: set<string>, reprobados: set<string>) {
    c.codigo !in aprobados && (c.codigo in reprobados || HasPrereqs(c, aprobados))
  }

  /** The proposed form of a kept course; no section is assigned. */
  function ToCandidate(c: Course, reprobados: set<string>): (x: ProjectionCourse) {
    ProjectionCourse(
      c.codigo, c.asignatura, c.creditos, c.nivel,
      if c.codigo in reprobados then Reprobado else Pendiente,
      None)
  }

  /**
   * The kept courses, in curriculum order. A proposed course is exactly the
   * proposed form of some eligible curriculum course.
   */
  function Candidatos(malla: seq<Course>, aprobados: set<string>, reprobados: set<string>)
    : (cands: seq<ProjectionCourse>)
    ensures |cands| <= |malla|
    ensures forall x :: x in cands <==>
              exists c :: c in malla && Eligible(c, aprobados, reprobados) && x == ToCandidate(c, reprobados)
  {
    if malla == [] then []
    else
      var rest := Candidatos(malla[1..], aprobados, reprobados);
      assert forall c :: c in malla <==> c == malla[0] || c in malla[1..];
      if Eligible(malla[0], aprobados, reprobados) then [ToCandidate(malla[0], reprobados)] + rest
      else rest
  }

  /** The filter works course by course: candidates of a concatenation are concatenated, in order. */
  lemma {:induction false} CandidatosAppend(m1: seq<Course>, m2: seq<Course>, aprobados: set<string>, reprobados: set<string>)
    ensures Candidatos(m1 + m2, aprobados, reprobados)
         == Candidatos(m1, aprobados, reprobados) + Candidatos(m2, aprobados, reprobados)
    decreases |m1|
  {
    if m1 == [] {
      assert m1 + m2 == m2;
    } else {
      assert (m1 + m2)[0] == m1[0];
      assert (m1 + m2)[1..] == m1[1..] + m2;
      CandidatosAppend(m1[1..], m2, aprobados, reprobados);
    }
  }

  /**
   * Facts about every proposed course: it is not approved, it is tagged
   * `Reprobado` exactly when it was failed, and unless it was failed its
   * prerequisites are met by some curriculum course carrying its code.
   */
  lemma CandidateFacts(malla: seq<Course>, aprobados: set<string>, reprobados: set<string>, x: ProjectionCourse)
    requires x in Candidatos(malla, aprobados, reprobados)
    ensures x.codigo !in aprobados
    ensures x.motivo == Reprobado <==> x.codigo in reprobados
    ensures x.nrc == None
    ensures exists c :: c in malla && c.codigo == x.codigo && c.creditos == x.creditos && c.nivel == x.nivel
                        && (x.codigo in reprobados || HasPrereqs(c, aprobados))
  {
    var c :| c in malla && Eligible(c, aprobados, reprobados) && x == ToCandidate(c, reprobados);
  }
}
