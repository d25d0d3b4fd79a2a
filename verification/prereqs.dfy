/**
 * The prerequisite predicate `ProjectionService.hasPrereqs`: a course's
 * prerequisite string is a comma-separated list of course codes; every piece
 * is trimmed, empty pieces are dropped, and the course is unlocked when every
 * remaining code has been approved.
 */
module Prereqs {
  import opened Wrappers
  import opened Text
  import opened Domain

  /** Trims every piece and keeps the non-empty ones, in order. */
  function Clean(parts: seq<string>): (tokens: seq<string>)
    ensures |tokens| <= |parts|
    ensures forall k :: 0 <= k < |tokens| ==> tokens[k] != []
  {
    if parts == [] then []
    else
      var t := Trim(parts[0]);
      if t == [] then Clean(parts[1..]) else [t] + Clean(parts[1..])
  }

  /** The required codes written in a prerequisite string. */
  function Tokens(s: string): (tokens: seq<string>) {
    Clean(Split(s, ','))
  }

  predicate AllApproved(codes: seq<string>, aprobados: set<string>) {
    forall k :: 0 <= k < |codes| ==> codes[k] in aprobados
  }

  /**
   * `hasPrereqs`: a missing prerequisite string counts as empty; a blank one
   * (after trimming) requires nothing; otherwise every token must be approved.
   */
  predicate HasPrereqs(course: Course, aprobados: set<string>) {
    var p := Trim(course.prereq.GetOr(""));
    if p == [] then true else AllApproved(Tokens(p), aprobados)
  }

  /** The prerequisite string as the predicate reads it, `course.prereq || ''`. */
  function RawPrereq(course: Course): (raw: string) {
    course.prereq.GetOr("")
  }

  /** Cleaned pieces are trimmed, and a piece without a comma yields tokens without one. */
  lemma {:induction false} CleanYieldsCodes(parts: seq<string>)
    requires forall j :: 0 <= j < |parts| ==> ',' !in parts[j]
    ensures forall k :: 0 <= k < |Clean(parts)| ==> Trim(Clean(parts)[k]) == Clean(parts)[k] && ',' !in Clean(parts)[k]
    decreases |parts|
  {
    if parts != [] {
      CleanYieldsCodes(parts[1..]);
      var t := Trim(parts[0]);
      if t != [] {
        TrimIdempotent(parts[0]);
        var front, back := TrimSplitsOff(parts[0]);
        forall i | 0 <= i < |t|
          ensures t[i] != ','
        {
          assert t[i] == parts[0][|front| + i];
        }
      }
    }
  }

  /** Each token is a non-empty, trimmed code that contains no comma. */
  lemma TokensAreCodes(s: string)
    ensures forall k :: 0 <= k < |Tokens(s)| ==>
              Tokens(s)[k] != [] && Trim(Tokens(s)[k]) == Tokens(s)[k] && ',' !in Tokens(s)[k]
  {
    SplitPiecesLackSeparator(s, ',');
    CleanYieldsCodes(Split(s, ','));
  }

  lemma {:induction false} CleanConcat(p: seq<string>, q: seq<string>)
    ensures Clean(p + q) == Clean(p) + Clean(q)
    decreases |p|
  {
    if p == [] {
      assert p + q == q;
    } else {
      assert (p + q)[0] == p[0];
      assert (p + q)[1..] == p[1..] + q;
      CleanConcat(p[1..], q);
    }
  }

  /** Pieces that trim alike clean alike, so padding a piece with whitespace changes nothing. */
  lemma CleanPadded(init: seq<string>, x: string, y: string, tail: seq<string>)
    requires Trim(x) == Trim(y)
    ensures Clean(init + [x] + tail) == Clean(init + [y] + tail)
  {
    CleanConcat(init + [x], tail);
    CleanConcat(init, [x]);
    CleanConcat(init + [y], tail);
    CleanConcat(init, [y]);
    assert [x][1..] == [] && [y][1..] == [];
  }

  lemma WhitespaceHasNoComma(a: string)
    requires AllWhitespace(a)
    ensures ',' !in a
  {
    forall i | 0 <= i < |a|
      ensures a[i] != ','
    {
      assert IsWhitespace(a[i]);
    }
  }

  /** A comma adds no requirement of its own: the tokens on each side are simply joined. */
  lemma TokensAtComma(a: string, b: string)
    ensures Tokens(a + [','] + b) == Tokens(a) + Tokens(b)
  {
    SplitAtSeparator(a, b, ',');
    CleanConcat(Split(a, ','), Split(b, ','));
  }

  lemma CleanSingleton(x: string, y: string)
    requires Trim(x) == Trim(y)
    ensures Clean([x]) == Clean([y])
  {
    assert [x][1..] == [] && [y][1..] == [];
  }

  /** Whitespace in front of the first piece never reaches the tokens. */
  lemma CleanPadFirst(a: string, q: seq<string>)
    requires AllWhitespace(a) && |q| >= 1
    ensures Clean([a + q[0]] + q[1..]) == Clean(q)
  {
    var x := q[0];
    TrimIgnoresWhitespace(a, x, []);
    assert a + x + [] == a + x && x + [] == x;
    CleanSingleton(a + x, x);
    CleanConcat([a + x], q[1..]);
    CleanConcat([x], q[1..]);
    assert [x] + q[1..] == q;
  }

  /** Whitespace after the last piece never reaches the tokens. */
  lemma CleanPadLast(init: seq<string>, last: string, b: string)
    requires AllWhitespace(b)
    ensures Clean(init + [last + b]) == Clean(init + [last])
  {
    TrimIgnoresWhitespace([], last, b);
    assert [] + last + b == last + b;
    CleanSingleton(last + b, last);
    CleanConcat(init, [last + b]);
    CleanConcat(init, [last]);
  }

  /** Whitespace around the whole prerequisite string adds no requirement. */
  lemma TokensIgnoreOuterWhitespace(s: string)
    ensures Tokens(Trim(s)) == Tokens(s)
  {
    var m := Trim(s);
    var front, back := TrimSplitsOff(s);
    TokensIgnoreTrailingWhitespace(m, back);
    TokensIgnoreLeadingWhitespace(front, m + back);
    assert s == front + (m + back);
  }

  lemma TokensIgnoreTrailingWhitespace(m: string, back: string)
    requires AllWhitespace(back)
    ensures Tokens(m + back) == Tokens(m)
  {
    WhitespaceHasNoComma(back);
    var p := Split(m, ',');
    SplitSuffix(m, back, ',');
    CleanPadLast(p[..|p| - 1], p[|p| - 1], back);
    assert p[..|p| - 1] + [p[|p| - 1]] == p;
  }

  lemma TokensIgnoreLeadingWhitespace(front: string, t: string)
    requires AllWhitespace(front)
    ensures Tokens(front + t) == Tokens(t)
  {
    WhitespaceHasNoComma(front);
    SplitPrefix(front, t, ',');
    CleanPadFirst(front, Split(t, ','));
  }

  /** A leading whitespace character of a piece never reaches the tokens. */
  lemma TokensSkipLeadingWhitespace(c: char, s: string)
    requires IsWhitespace(c)
    ensures Tokens([c] + s) == Tokens(s)
  {
    SplitPrefix([c], s, ',');
    var q := Split(s, ',');
    TrimIgnoresWhitespace([c], q[0], []);
    assert [c] + q[0] + [] == [c] + q[0];
    assert q[0] + [] == q[0];
    assert Split([c] + s, ',') == [] + [[c] + q[0]] + q[1..];
    CleanPadded([], [c] + q[0], q[0], q[1..]);
    assert [] + [q[0]] + q[1..] == q;
  }

  /** A string of commas and whitespace only holds no code at all. */
  lemma {:induction false} BlankHasNoTokens(s: string)
    requires forall i :: 0 <= i < |s| ==> s[i] == ',' || IsWhitespace(s[i])
    ensures Tokens(s) == []
    decreases |s|
  {
    if s == [] {
      assert Split(s, ',') == [[]];
      assert Trim([]) == [];
    } else {
      BlankHasNoTokens(s[1..]);
      if s[0] == ',' {
        TokensAtComma([], s[1..]);
        assert [] + [','] + s[1..] == s;
        BlankHasNoTokens([]);
      } else {
        TokensSkipLeadingWhitespace(s[0], s[1..]);
        assert [s[0]] + s[1..] == s;
      }
    }
  }

  /**
   * The early return for a blank string agrees with the general rule: the
   * predicate holds exactly when every code written in the raw prerequisite
   * string, whatever the stray commas and whitespace around it, is approved.
   */
  lemma HasPrereqsIff(course: Course, aprobados: set<string>)
    ensures HasPrereqs(course, aprobados) <==> AllApproved(Tokens(RawPrereq(course)), aprobados)
  {
    var raw := RawPrereq(course);
    TokensIgnoreOuterWhitespace(raw);
    if Trim(raw) == [] {
      BlankHasNoTokens(Trim(raw));
    }
  }

  /**
   * A missing prerequisite string, or one made only of commas and whitespace,
   * requires nothing: the predicate holds for every approved set.
   */
  lemma BlankPrereqRequiresNothing(course: Course, aprobados: set<string>)
    requires forall i :: 0 <= i < |RawPrereq(course)| ==>
               RawPrereq(course)[i] == ',' || IsWhitespace(RawPrereq(course)[i])
    ensures HasPrereqs(course, aprobados)
  {
    BlankHasNoTokens(RawPrereq(course));
    HasPrereqsIff(course, aprobados);
  }

  /** Joining two prerequisite strings with a comma requires both. */
  lemma HasPrereqsOfJoin(a: string, b: string, code: string, asignatura: string,
                         creditos: int, nivel: int, aprobados: set<string>)
    ensures var joined := Course(code, asignatura, creditos, nivel, Some(a + [','] + b));
            HasPrereqs(joined, aprobados) <==>
              HasPrereqs(Course(code, asignatura, creditos, nivel, Some(a)), aprobados)
              && HasPrereqs(Course(code, asignatura, creditos, nivel, Some(b)), aprobados)
  {
    var ca := Course(code, asignatura, creditos, nivel, Some(a));
    var cb := Course(code, asignatura, creditos, nivel, Some(b));
    var joined := Course(code, asignatura, creditos, nivel, Some(a + [','] + b));
    HasPrereqsIff(ca, aprobados);
    HasPrereqsIff(cb, aprobados);
    HasPrereqsIff(joined, aprobados);
    TokensAtComma(a, b);
    var ta, tb := Tokens(a), Tokens(b);
    assert forall k :: 0 <= k < |ta| ==> (ta + tb)[k] == ta[k];
    assert forall k :: 0 <= k < |tb| ==> (ta + tb)[|ta| + k] == tb[k];
  }
}
