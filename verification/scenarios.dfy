/**
 * Worked examples of the engine on small curricula, including the greedy
 * packer leaving room unused that a later, smaller course would have filled.
 */
module Scenarios {
  import opened Wrappers
  import opened Text
  import opened Domain
  import opened Prereqs
  import opened Eligibility
  import opened Ranking
  import opened Packing
  import opened Projection

  function Pending(c: Course): (x: ProjectionCourse) {
    ProjectionCourse(c.codigo, c.asignatura, c.creditos, c.nivel, Pendiente, None)
  }

  /** A single candidate that fits is taken. */
  lemma PackSingle(x: ProjectionCourse, tope: int)
    requires 0 <= x.creditos <= tope
    ensures Pack([x], tope) == Packed([x], x.creditos)
  {
    var next := Visit(Packed([], 0), x, tope);
    assert [] + [x] == [x];
    assert next == Packed([x], x.creditos);
    assert [x][1..] == [];
    assert PackFrom([x][1..], tope, next) == next;
  }

  /** One course without prerequisites and an empty history: it is proposed. */
  lemma SingleOpenCourse()
    ensures var a := Course("A", "Algebra", 4, 1, None);
            var r := Build(ProjectionInput([a], [], Finite(20)));
            r.seleccion == [Pending(a)] && r.totalCreditos == 4
  {
    var a := Course("A", "Algebra", 4, 1, None);
    assert HasPrereqs(a, {});
    assert Candidatos([a], {}, {}) == [Pending(a)];
  }

  /** A course whose prerequisite is not approved is not proposed. */
  lemma UnmetPrerequisiteBlocks()
    ensures var a := Course("A", "Algebra", 4, 1, Some(""));
            var b := Course("B", "Calculo", 4, 2, Some("A"));
            var r := Build(ProjectionInput([a, b], [], NotFinite));
            r.seleccion == [Pending(a)] && r.totalCreditos == 4 && r.reglas.topeCreditos == 22
  {
    var a := Course("A", "Algebra", 4, 1, Some(""));
    var b := Course("B", "Calculo", 4, 2, Some("A"));
    assert HasPrereqs(a, {});
    SplitWithoutSeparator("A", ',');
    assert Tokens("A") == ["A"];
    assert !HasPrereqs(b, {});
    assert Candidatos([a, b], {}, {}) == [Pending(a)];
  }

  /** A failed course is proposed again even though its prerequisite is unmet. */
  lemma FailedCourseBypassesPrerequisites()
    ensures var a := Course("A", "Algebra", 4, 2, Some("X"));
            var r := Build(ProjectionInput([a], [AvanceItem("A", REPROBADO)], Finite(22)));
            r.seleccion == [ProjectionCourse("A", "Algebra", 4, 2, Reprobado, None)]
  {
    var a := Course("A", "Algebra", 4, 2, Some("X"));
    var avance := [AvanceItem("A", REPROBADO)];
    assert "A" in Reprobados(avance);
    assert Aprobados(avance) == {};
    var x := ProjectionCourse("A", "Algebra", 4, 2, Reprobado, None);
    assert Candidatos([a], {}, Reprobados(avance)) == [x];
    assert Rank([x]) == [x];
    PackSingle(x, 22);
  }

  lemma GreedyCandidates(a: Course, b: Course)
    requires a.prereq == None && b.prereq == None
    ensures Candidatos([b, a], {}, {}) == [Pending(b), Pending(a)]
  {
    assert HasPrereqs(a, {}) && HasPrereqs(b, {});
    assert [b, a][1..] == [a];
    assert [a][1..] == [];
  }

  lemma GreedyRank(pa: ProjectionCourse, pb: ProjectionCourse)
    requires Compare(pb, pa) > 0
    ensures Rank([pb, pa]) == [pa, pb]
  {
    assert [pb, pa][1..] == [pa];
    assert [pa][1..] == [];
    assert Rank([pa]) == [pa];
    assert Insert(pb, [pa]) == [pa] + Insert(pb, []);
  }

  lemma GreedyPack(pa: ProjectionCourse, pb: ProjectionCourse, tope: int)
    requires 0 <= pa.creditos < tope < pa.creditos + pb.creditos
    ensures Pack([pa, pb], tope) == Packed([pa], pa.creditos)
  {
    var first := Visit(Packed([], 0), pa, tope);
    assert [] + [pa] == [pa];
    assert first == Packed([pa], pa.creditos);
    assert [pa, pb][1..] == [pb];
    assert [pb][1..] == [];
    assert Visit(first, pb, tope) == first;
    assert PackFrom([pb], tope, first) == first;
  }

  /**
   * Two level-1 courses of 6 and 5 credits under a cap of 8: the heavier one
   * is ranked first and taken, the lighter one no longer fits and is skipped,
   * although on its own it would have fitted.
   */
  lemma GreedyIsNotOptimal()
    ensures var b := Course("B", "Biologia", 5, 1, None);
            var a := Course("A", "Algebra", 6, 1, None);
            var r := Build(ProjectionInput([b, a], [], Finite(8)));
            r.seleccion == [Pending(a)] && r.totalCreditos == 6
  {
    var b := Course("B", "Biologia", 5, 1, None);
    var a := Course("A", "Algebra", 6, 1, None);
    var input := ProjectionInput([b, a], [], Finite(8));
    assert Aprobados([]) == {} && Reprobados([]) == {};
    GreedyCandidates(a, b);
    GreedyRank(Pending(a), Pending(b));
    assert Ranked(input) == [Pending(a), Pending(b)];
    GreedyPack(Pending(a), Pending(b), 8);
    assert EffectiveTope(input.topeCreditos) == 8;
  }

  /** A fully approved curriculum yields nothing. */
  lemma AllApproved()
    ensures var a := Course("A", "Algebra", 4, 1, None);
            var r := Build(ProjectionInput([a], [AvanceItem("A", APROBADO)], Finite(22)));
            r.seleccion == [] && r.totalCreditos == 0
  {
    var a := Course("A", "Algebra", 4, 1, None);
    var avance := [AvanceItem("A", APROBADO)];
    assert "A" in Aprobados(avance);
    NothingLeftToTake(ProjectionInput([a], avance, Finite(22)));
  }

  /** Approved wins over failed when the history records both for the same course. */
  lemma ApprovedWinsOverFailed()
    ensures var a := Course("A", "Algebra", 4, 1, None);
            var avance := [AvanceItem("A", REPROBADO), AvanceItem("A", APROBADO)];
            Build(ProjectionInput([a], avance, Finite(22))).seleccion == []
  {
    var a := Course("A", "Algebra", 4, 1, None);
    var avance := [AvanceItem("A", REPROBADO), AvanceItem("A", APROBADO)];
    assert avance[1].course == "A" && avance[1].status == APROBADO;
    assert "A" in Aprobados(avance);
    NothingLeftToTake(ProjectionInput([a], avance, Finite(22)));
  }

  lemma TrimOfPaddedLetter(c: char)
    requires !IsWhitespace(c)
    ensures Trim([' ', c, ' ']) == [c]
  {
    assert [' ', c, ' '] == [' '] + [c] + [' '];
    TrimIgnoresWhitespace([' '], [c], [' ']);
    assert TrimStart([c]) == [c];
    assert TrimEnd([c]) == [c];
  }

  lemma TokensOfLetter(c: char)
    requires !IsWhitespace(c) && c != ','
    ensures Tokens([c]) == [[c]]
  {
    SplitWithoutSeparator([c], ',');
    assert TrimStart([c]) == [c] && TrimEnd([c]) == [c];
    assert [[c]][1..] == [];
  }

  lemma TokensOfPaddedLetter(c: char)
    requires !IsWhitespace(c) && c != ','
    ensures Tokens([' ', c, ' ']) == [[c]]
  {
    SplitWithoutSeparator([' ', c, ' '], ',');
    TrimOfPaddedLetter(c);
    assert [[' ', c, ' ']][1..] == [];
  }

  lemma TokensOfLetterComma(c: char)
    requires !IsWhitespace(c) && c != ','
    ensures Tokens([c, ',']) == [[c]]
  {
    assert [c, ','] == [c] + [','] + [];
    TokensAtComma([c], []);
    TokensOfLetter(c);
    BlankHasNoTokens([]);
  }

  lemma TokensOfBlankLetterComma(c: char)
    requires !IsWhitespace(c) && c != ','
    ensures Tokens([' ', ',', c, ',']) == [[c]]
  {
    assert [' ', ',', c, ','] == [' '] + [','] + [c, ','];
    TokensAtComma([' '], [c, ',']);
    BlankHasNoTokens([' ']);
    TokensOfLetterComma(c);
  }

  /** Stray commas and whitespace around codes add no requirement. */
  lemma StrayCommasAndSpaces()
    ensures Tokens(" A , ,B,") == ["A", "B"]
  {
    assert " A , ,B," == [' ', 'A', ' '] + [','] + [' ', ',', 'B', ','];
    TokensAtComma([' ', 'A', ' '], [' ', ',', 'B', ',']);
    TokensOfPaddedLetter('A');
    TokensOfBlankLetterComma('B');
    assert [['A']] + [['B']] == ["A", "B"];
  }
}
