/**
 * The two ECMAScript string operations the prerequisite parser relies on:
 * `String.prototype.trim` and `String.prototype.split` with a one-character
 * separator. Strings are sequences of Unicode scalar values; every character
 * `trim` removes lies in the Basic Multilingual Plane, so working on scalars
 * instead of UTF-16 code units changes nothing here.
 */
module Text {

  /** WhiteSpace and LineTerminator code points (ECMA-262, sections 12.2 and 12.3). */
  predicate IsWhitespace(ch: char) {
    || ch == '\t' || ch == '\n' || ch == '\U{000B}' || ch == '\U{000C}' || ch == '\r'
    || ch == ' ' || ch == '\U{00A0}' || ch == '\U{1680}'
    || ('\U{2000}' <= ch <= '\U{200A}')
    || ch == '\U{2028}' || ch == '\U{2029}' || ch == '\U{202F}' || ch == '\U{205F}'
    || ch == '\U{3000}' || ch == '\U{FEFF}'
  }

  predicate AllWhitespace(s: string) {
    forall i :: 0 <= i < |s| ==> IsWhitespace(s[i])
  }

  /** Drops leading whitespace. */
  function TrimStart(s: string): (r: string) {
    if s != [] && IsWhitespace(s[0]) then TrimStart(s[1..]) else s
  }

  /** Drops trailing whitespace. */
  function TrimEnd(s: string): (r: string) {
    if s != [] && IsWhitespace(s[|s| - 1]) then TrimEnd(s[..|s| - 1]) else s
  }

  /** `s.trim()`. */
  function Trim(s: string): (t: string) {
    TrimEnd(TrimStart(s))
  }

  /** `s.split(sep)`: the pieces between occurrences of `sep`; `"".split(sep)` is `[""]`. */
  function Split(s: string, sep: char): (parts: seq<string>)
    ensures |parts| >= 1
  {
    if s == [] then [[]]
    else
      var rest := Split(s[1..], sep);
      if s[0] == sep then [[]] + rest else [[s[0]] + rest[0]] + rest[1..]
  }

  /** `parts.join(sep)`, the inverse of `Split`. */
  function Join(parts: seq<string>, sep: char): (s: string)
    requires |parts| >= 1
  {
    if |parts| == 1 then parts[0] else parts[0] + [sep] + Join(parts[1..], sep)
  }

  /** `TrimStart` returns a suffix of `s` that does not start with whitespace, and cuts only whitespace. */
  lemma {:induction false} TrimStartShape(s: string)
    ensures var r := TrimStart(s);
            && |r| <= |s| && r == s[|s| - |r|..]
            && AllWhitespace(s[..|s| - |r|])
            && (r != [] ==> !IsWhitespace(r[0]))
    decreases |s|
  {
    if s != [] && IsWhitespace(s[0]) {
      TrimStartShape(s[1..]);
      var r := TrimStart(s);
      assert s[1..][..|s| - 1 - |r|] == s[1..|s| - |r|];
      assert forall i :: 1 <= i < |s| - |r| ==> s[i] == s[1..|s| - |r|][i - 1];
    }
  }

  /** `TrimEnd` returns a prefix of `s` that does not end with whitespace, and cuts only whitespace. */
  lemma {:induction false} TrimEndShape(s: string)
    ensures var r := TrimEnd(s);
            && |r| <= |s| && r == s[..|r|]
            && AllWhitespace(s[|r|..])
            && (r != [] ==> !IsWhitespace(r[|r| - 1]))
    decreases |s|
  {
    if s != [] && IsWhitespace(s[|s| - 1]) {
      TrimEndShape(s[..|s| - 1]);
      var r := TrimEnd(s);
      assert forall i :: |r| <= i < |s| - 1 ==> s[i] == s[..|s| - 1][i];
    }
  }

  /** The result of `Trim` neither starts nor ends with whitespace. */
  lemma TrimLeavesNoOuterWhitespace(s: string)
    ensures var r := Trim(s);
            r != [] ==> !IsWhitespace(r[0]) && !IsWhitespace(r[|r| - 1])
  {
    var t := TrimStart(s);
    TrimStartShape(s);
    TrimEndShape(t);
  }

  /** `Trim` keeps the non-whitespace core of `s`: what it removes is whitespace on both sides. */
  lemma TrimSplitsOff(s: string) returns (front: string, back: string)
    ensures s == front + Trim(s) + back
    ensures AllWhitespace(front) && AllWhitespace(back)
  {
    var t := TrimStart(s);
    TrimStartShape(s);
    var m := TrimEnd(t);
    TrimEndShape(t);
    front := s[..|s| - |t|];
    back := t[|m|..];
    assert t == t[..|m|] + t[|m|..];
    assert t == m + back;
    assert s == s[..|s| - |t|] + s[|s| - |t|..];
    assert s == front + t;
    assert front + m + back == front + (m + back);
  }

  /** Trimming twice is trimming once. */
  lemma TrimIdempotent(s: string)
    ensures Trim(Trim(s)) == Trim(s)
  {
    var t := Trim(s);
    TrimLeavesNoOuterWhitespace(s);
    TrimStartShape(t);
    if t != [] {
      assert TrimStart(t) == t;
      assert TrimEnd(t) == t;
    }
  }

  lemma {:induction false} TrimStartSkipsWhitespace(a: string, x: string)
    requires AllWhitespace(a)
    ensures TrimStart(a + x) == TrimStart(x)
    decreases |a|
  {
    if a != [] {
      assert (a + x)[0] == a[0] && IsWhitespace(a[0]);
      assert (a + x)[1..] == a[1..] + x;
      assert TrimStart(a + x) == TrimStart((a + x)[1..]);
      TrimStartSkipsWhitespace(a[1..], x);
    } else {
      assert a + x == x;
    }
  }

  lemma {:induction false} TrimEndSkipsWhitespace(x: string, b: string)
    requires AllWhitespace(b)
    ensures TrimEnd(x + b) == TrimEnd(x)
    decreases |b|
  {
    if b != [] {
      assert (x + b)[|x + b| - 1] == b[|b| - 1] && IsWhitespace(b[|b| - 1]);
      assert (x + b)[..|x + b| - 1] == x + b[..|b| - 1];
      assert TrimEnd(x + b) == TrimEnd((x + b)[..|x + b| - 1]);
      TrimEndSkipsWhitespace(x, b[..|b| - 1]);
    } else {
      assert x + b == x;
    }
  }

  lemma {:induction false} TrimStartKeepsTail(x: string, b: string)
    requires TrimStart(x) != []
    ensures TrimStart(x + b) == TrimStart(x) + b
    decreases |x|
  {
    assert x != [];
    if IsWhitespace(x[0]) {
      assert (x + b)[1..] == x[1..] + b;
      TrimStartKeepsTail(x[1..], b);
    }
  }

  /** Whitespace around a string never survives `Trim`. */
  lemma TrimIgnoresWhitespace(a: string, x: string, b: string)
    requires AllWhitespace(a) && AllWhitespace(b)
    ensures Trim(a + x + b) == Trim(x)
  {
    TrimStartSkipsWhitespace(a, x + b);
    assert a + x + b == a + (x + b);
    if TrimStart(x) != [] {
      TrimStartKeepsTail(x, b);
      TrimEndSkipsWhitespace(TrimStart(x), b);
    } else {
      TrimStartShape(x);
      assert AllWhitespace(x);
      assert AllWhitespace(x + b);
      TrimStartSkipsWhitespace(x + b, []);
      assert x + b + [] == x + b;
    }
  }

  /** Prefixing text without a separator only lengthens the first piece. */
  lemma {:induction false} SplitPrefix(a: string, s: string, sep: char)
    requires sep !in a
    ensures Split(a + s, sep) == [a + Split(s, sep)[0]] + Split(s, sep)[1..]
    decreases |a|
  {
    if a != [] {
      assert (a + s)[0] == a[0];
      assert (a + s)[1..] == a[1..] + s;
      SplitPrefix(a[1..], s, sep);
      var p := Split(s, sep);
      var rest := Split(a[1..] + s, sep);
      assert rest[0] == a[1..] + p[0] && rest[1..] == p[1..];
      assert Split(a + s, sep) == [[a[0]] + rest[0]] + rest[1..];
      assert a == [a[0]] + a[1..];
      assert [a[0]] + (a[1..] + p[0]) == a + p[0];
    } else {
      assert a + s == s;
      assert a + Split(s, sep)[0] == Split(s, sep)[0];
      assert Split(s, sep) == [Split(s, sep)[0]] + Split(s, sep)[1..];
    }
  }

  /** Appending text without a separator only lengthens the last piece. */
  lemma {:induction false} SplitSuffix(s: string, b: string, sep: char)
    requires sep !in b
    ensures var p := Split(s, sep);
            Split(s + b, sep) == p[..|p| - 1] + [p[|p| - 1] + b]
    decreases |s|
  {
    if s == [] {
      assert s + b == b;
      SplitPrefix(b, [], sep);
      assert b + [] == b;
      var p := Split(s, sep);
      assert p == [[]];
      assert p[..|p| - 1] + [p[|p| - 1] + b] == [b];
      assert Split(b, sep) == [b];
    } else {
      assert (s + b)[0] == s[0];
      assert (s + b)[1..] == s[1..] + b;
      SplitSuffix(s[1..], b, sep);
      var q := Split(s[1..], sep);
      var rest := Split(s[1..] + b, sep);
      var p := Split(s, sep);
      assert rest == q[..|q| - 1] + [q[|q| - 1] + b];
      if s[0] == sep {
        assert p == [[]] + q;
        LastPieceAfterEmpty(q, b);
      } else {
        assert p == [[s[0]] + q[0]] + q[1..];
        LastPieceAfterPrefix([s[0]], q, b);
      }
    }
  }

  /** Lengthening the last piece commutes with putting an empty piece in front. */
  lemma LastPieceAfterEmpty(q: seq<string>, b: string)
    requires |q| >= 1
    ensures var p := [[]] + q;
            [[]] + (q[..|q| - 1] + [q[|q| - 1] + b]) == p[..|p| - 1] + [p[|p| - 1] + b]
  {
    var p := [[]] + q;
    assert p[..|p| - 1] == [[]] + q[..|q| - 1];
  }

  /** Lengthening the last piece commutes with prefixing the first piece. */
  lemma LastPieceAfterPrefix(h: string, q: seq<string>, b: string)
    requires |q| >= 1
    ensures var p := [h + q[0]] + q[1..];
            var rest := q[..|q| - 1] + [q[|q| - 1] + b];
            [h + rest[0]] + rest[1..] == p[..|p| - 1] + [p[|p| - 1] + b]
  {
    var p := [h + q[0]] + q[1..];
    var rest := q[..|q| - 1] + [q[|q| - 1] + b];
    if |q| == 1 {
      assert rest == [q[0] + b];
      assert h + (q[0] + b) == (h + q[0]) + b;
    } else {
      assert rest[0] == q[0];
      assert rest[1..] == q[1..|q| - 1] + [q[|q| - 1] + b];
      assert p[..|p| - 1] == [h + q[0]] + q[1..|q| - 1];
    }
  }

  /** A separator cuts the piece list in two. */
  lemma {:induction false} SplitAtSeparator(a: string, b: string, sep: char)
    ensures Split(a + [sep] + b, sep) == Split(a, sep) + Split(b, sep)
    decreases |a|
  {
    if a == [] {
      assert a + [sep] + b == [sep] + b;
      assert ([sep] + b)[1..] == b;
    } else {
      assert (a + [sep] + b)[0] == a[0];
      assert (a + [sep] + b)[1..] == a[1..] + [sep] + b;
      SplitAtSeparator(a[1..], b, sep);
    }
  }

  /** Text without the separator is a single piece. */
  lemma SplitWithoutSeparator(s: string, sep: char)
    requires sep !in s
    ensures Split(s, sep) == [s]
  {
    SplitPrefix(s, [], sep);
    assert s + [] == s;
  }

  /** No piece of a split contains the separator. */
  lemma {:induction false} SplitPiecesLackSeparator(s: string, sep: char)
    ensures forall k :: 0 <= k < |Split(s, sep)| ==> sep !in Split(s, sep)[k]
    decreases |s|
  {
    if s != [] {
      SplitPiecesLackSeparator(s[1..], sep);
      var rest := Split(s[1..], sep);
      if s[0] != sep {
        assert sep !in [s[0]] + rest[0];
      }
    }
  }

  /** Joining the pieces of `s` gives `s` back. */
  lemma {:induction false} JoinSplit(s: string, sep: char)
    ensures Join(Split(s, sep), sep) == s
    decreases |s|
  {
    if s != [] {
      JoinSplit(s[1..], sep);
      var rest := Split(s[1..], sep);
      if s[0] != sep {
        var parts := Split(s, sep);
        assert parts[0] == [s[0]] + rest[0];
        if |rest| > 1 {
          assert parts[1..] == rest[1..];
          assert Join(rest, sep) == rest[0] + [sep] + Join(rest[1..], sep);
        }
      } else {
        assert Split(s, sep)[1..] == rest;
      }
    }
  }

  /** Splitting a join of separator-free pieces gives the pieces back. */
  lemma {:induction false} SplitJoin(parts: seq<string>, sep: char)
    requires |parts| >= 1
    requires forall k :: 0 <= k < |parts| ==> sep !in parts[k]
    ensures Split(Join(parts, sep), sep) == parts
    decreases |parts|
  {
    if |parts| == 1 {
      SplitPrefix(parts[0], [], sep);
      assert parts[0] + [] == parts[0];
    } else {
      SplitJoin(parts[1..], sep);
      SplitAtSeparator(parts[0], Join(parts[1..], sep), sep);
      SplitPrefix(parts[0], [], sep);
      assert parts[0] + [] == parts[0];
      assert parts == [parts[0]] + parts[1..];
    }
  }
}
