/**
 * The records the course-selection engine reads and produces, named as in the
 * repository: a curriculum (`malla`) of `Course`s, an academic history
 * (`avance`) of `AvanceItem`s, and a `ProjectionResult` holding the selected
 * `ProjectionCourse`s. Credits, levels and the cap are integers.
 */
module Domain {
  import opened Wrappers

  /** A curriculum entry; `prereq` is the optional comma-separated list of required codes. */
  datatype Course = Course(
    codigo: string,
    asignatura: string,
    creditos: int,
    nivel: int,
    prereq: Option<string>)

  /** One attempt in the academic history: a course code and a free-form status label. */
  datatype AvanceItem = AvanceItem(course: string, status: string)

  /** The two status labels the engine looks at; every other label is ignored. */
  const APROBADO: string := "APROBADO"
  const REPROBADO: string := "REPROBADO"

  /** Why a course was proposed: it was failed before, or it is simply pending. */
  datatype Motivo = Reprobado | Pendiente

  /** A proposed course; `nrc` (a section id) is only set by offer enrichment, never here. */
  datatype ProjectionCourse = ProjectionCourse(
    codigo: string,
    asignatura: string,
    creditos: int,
    nivel: int,
    motivo: Motivo,
    nrc: Option<string>)

  /** The rule parameters echoed in every result. */
  datatype Reglas = Reglas(topeCreditos: int, priorizaReprobados: bool, verificaPrereq: bool)

  datatype ProjectionResult = ProjectionResult(
    seleccion: seq<ProjectionCourse>,
    totalCreditos: int,
    reglas: Reglas)

  /**
   * The caller's credit cap, a JavaScript number. Only its integer values are
   * modelled; `NotFinite` stands for NaN and the two infinities.
   */
  datatype TopeInput = Finite(value: int) | NotFinite

  datatype ProjectionInput = ProjectionInput(
    malla: seq<Course>,
    avance: seq<AvanceItem>,
    topeCreditos: TopeInput)

  /** Sum of the credits of a list of proposed courses. */
  function TotalCredits(s: seq<ProjectionCourse>): (sum: int) {
    if s == [] then 0 else s[0].creditos + TotalCredits(s[1..])
  }

  /** The credit sum is additive over concatenation. */
  lemma {:induction false} TotalCreditsAppend(a: seq<ProjectionCourse>, b: seq<ProjectionCourse>)
    ensures TotalCredits(a + b) == TotalCredits(a) + TotalCredits(b)
    decreases |a|
  {
    if a == [] {
      assert a + b == b;
    } else {
      assert (a + b)[0] == a[0];
      assert (a + b)[1..] == a[1..] + b;
      TotalCreditsAppend(a[1..], b);
    }
  }
}
