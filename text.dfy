/**
 * The two Python string operations the ingest loop relies on:
 * `str.strip()` with no argument and `str.split('\n')`.
 */
module Text {

  /** Python's `str.isspace` on one character: the characters `strip()` removes. */
  predicate IsSpace(c: char)
  {
    || c == ' ' || c == '\t' || c == '\n' || c == '\r' || c == '\U{000B}' || c == '\U{000C}'
    || c == '\U{001C}' || c == '\U{001D}' || c == '\U{001E}' || c == '\U{001F}'
    || c == '\U{0085}' || c == '\U{00A0}' || c == '\U{1680}'
    || ('\U{2000}' <= c <= '\U{200A}')
    || c == '\U{2028}' || c == '\U{2029}' || c == '\U{202F}' || c == '\U{205F}' || c == '\U{3000}'
  }

  predicate AllSpace(s: string)
  {
    forall i :: 0 <= i < |s| ==> IsSpace(s[i])
  }

  /** Leading whitespace removed. */
  function TrimLeft(s: string): (r: string)
    ensures |r| <= |s|
  {
    if |s| > 0 && IsSpace(s[0]) then TrimLeft(s[1..]) else s
  }

  /** Trailing whitespace removed. */
  function TrimRight(s: string): (r: string)
    ensures |r| <= |s|
  {
    if |s| > 0 && IsSpace(s[|s| - 1]) then TrimRight(s[..|s| - 1]) else s
  }

  /** `s.strip()`: what remains neither starts nor ends with whitespace. */
  function Strip(s: string): (r: string)
    ensures r == [] || (!IsSpace(r[0]) && !IsSpace(r[|r| - 1]))
  {
    TrimLeftShape(s);
    TrimRightShape(TrimLeft(s));
    TrimRight(TrimLeft(s))
  }

  /** The test `not line.strip()` of the ingest loop. */
  predicate IsBlank(s: string)
  {
    Strip(s) == []
  }

  /** `s.split('\n')`: the pieces between newlines, always at least one. */
  function Split(s: string): (pieces: seq<string>)
    ensures |pieces| >= 1
  {
    if s == [] then [[]]
    else
      var rest := Split(s[1..]);
      if s[0] == '\n' then [[]] + rest else [[s[0]] + rest[0]] + rest[1..]
  }

  /** `'\n'.join(pieces)`, the inverse of `Split`. */
  function Join(pieces: seq<string>): string
    requires |pieces| >= 1
  {
    if |pieces| == 1 then pieces[0] else pieces[0] + "\n" + Join(pieces[1..])
  }

  // ---------------------------------------------------------------------
  // strip()

  /** `TrimLeft` removes a whitespace prefix and stops at the first other character. */
  lemma {:induction false} TrimLeftShape(s: string)
    ensures var r := TrimLeft(s);
      && r == s[|s| - |r|..]
      && AllSpace(s[..|s| - |r|])
      && (r == [] || !IsSpace(r[0]))
  {
    if |s| > 0 && IsSpace(s[0]) {
      TrimLeftShape(s[1..]);
      var r := TrimLeft(s);
      var k := |s| - |r|;
      assert s[1..][..k - 1] == s[1..k];
      assert forall i :: 1 <= i < k ==> s[i] == s[1..k][i - 1];
    }
  }

  /** `TrimRight` removes a whitespace suffix and stops at the last other character. */
  lemma {:induction false} TrimRightShape(s: string)
    ensures var r := TrimRight(s);
      && r == s[..|r|]
      && AllSpace(s[|r|..])
      && (r == [] || !IsSpace(r[|r| - 1]))
  {
    if |s| > 0 && IsSpace(s[|s| - 1]) {
      var t := s[..|s| - 1];
      TrimRightShape(t);
      var r := TrimRight(s);
      assert r == TrimRight(t);
      assert t[..|r|] == s[..|r|];
      assert forall i :: |r| <= i < |s| - 1 ==> s[i] == t[|r|..][i - |r|];
    }
  }
  /**
   * `strip()` removes all the whitespace at the two ends and nothing else:
   * the text is `w1 + Strip(s) + w2` with whitespace `w1` and `w2`, and what
   * remains neither starts nor ends with whitespace.
   */
  lemma StripParts(s: string) returns (w1: string, w2: string)
    ensures s == w1 + Strip(s) + w2
    ensures AllSpace(w1) && AllSpace(w2)
    ensures Strip(s) == [] || (!IsSpace(Strip(s)[0]) && !IsSpace(Strip(s)[|Strip(s)| - 1]))
  {
    var l := TrimLeft(s);
    TrimLeftShape(s);
    TrimRightShape(l);
    var m := TrimRight(l);
    w1 := s[..|s| - |l|];
    w2 := l[|m|..];
    assert s == w1 + l;
    assert l == m + w2;
    assert w1 + (m + w2) == w1 + m + w2;
  }


  /** A line is blank exactly when every character of it is whitespace. */
  lemma BlankIffAllSpace(s: string)
    ensures IsBlank(s) <==> AllSpace(s)
  {
    var l := TrimLeft(s);
    TrimLeftShape(s);
    TrimRightShape(l);
    var k := |s| - |l|;
    if IsBlank(s) {
      assert s[..k] == s;
    }
  }

  /** Whitespace in front of a string does not change its stripped form. */
  lemma {:induction false} TrimLeftSpacePrefix(w: string, x: string)
    requires AllSpace(w)
    ensures TrimLeft(w + x) == TrimLeft(x)
  {
    if w != [] {
      assert (w + x)[0] == w[0] && IsSpace(w[0]);
      assert (w + x)[1..] == w[1..] + x;
      assert AllSpace(w[1..]) by { assert forall i :: 0 <= i < |w| - 1 ==> w[1..][i] == w[i + 1]; }
      TrimLeftSpacePrefix(w[1..], x);
    } else {
      assert w + x == x;
    }
  }

  lemma {:induction false} TrimRightSpaceSuffix(x: string, w: string)
    requires AllSpace(w)
    ensures TrimRight(x + w) == TrimRight(x)
  {
    if w != [] {
      assert (x + w)[|x + w| - 1] == w[|w| - 1] && IsSpace(w[|w| - 1]);
      assert (x + w)[..|x + w| - 1] == x + w[..|w| - 1];
      assert AllSpace(w[..|w| - 1]) by { assert forall i :: 0 <= i < |w| - 1 ==> w[..|w| - 1][i] == w[i]; }
      TrimRightSpaceSuffix(x, w[..|w| - 1]);
    } else {
      assert x + w == x;
    }
  }

  /** Once the first character is not whitespace, `TrimLeft` leaves a suffix alone. */
  lemma {:induction false} TrimLeftAppend(x: string, w: string)
    requires !AllSpace(x)
    ensures TrimLeft(x + w) == TrimLeft(x) + w
  {
    assert x != [];
    assert (x + w)[0] == x[0];
    if IsSpace(x[0]) {
      assert (x + w)[1..] == x[1..] + w;
      assert !AllSpace(x[1..]) by {
        var i :| 0 <= i < |x| && !IsSpace(x[i]);
        assert x[1..][i - 1] == x[i];
      }
      TrimLeftAppend(x[1..], w);
    }
  }

  /**
   * Whitespace around a string never changes its stripped form. This is
   * why a line loses nothing but whitespace when the content around it is
   * stripped first.
   */
  lemma StripIgnoresSurroundingSpace(w1: string, x: string, w2: string)
    requires AllSpace(w1) && AllSpace(w2)
    ensures Strip(w1 + x + w2) == Strip(x)
  {
    assert w1 + x + w2 == w1 + (x + w2);
    TrimLeftSpacePrefix(w1, x + w2);
    if AllSpace(x) {
      assert AllSpace(x + w2);
      BlankIffAllSpace(x + w2);
      BlankIffAllSpace(x);
      TrimLeftSpacePrefix(x + w2, []);
      assert x + w2 + [] == x + w2;
      TrimLeftSpacePrefix(x, []);
      assert x + [] == x;
    } else {
      TrimLeftAppend(x, w2);
      TrimRightSpaceSuffix(TrimLeft(x), w2);
    }
  }

  // ---------------------------------------------------------------------
  // split('\n')

  /** No piece produced by `Split` contains a newline. */
  lemma {:induction false} SplitPiecesHaveNoNewline(s: string)
    ensures forall p :: p in Split(s) ==> '\n' !in p
  {
    if s != [] {
      SplitPiecesHaveNoNewline(s[1..]);
      var rest := Split(s[1..]);
      if s[0] != '\n' {
        assert rest[0] in rest;
        assert forall p :: p in rest[1..] ==> p in rest;
      }
    }
  }

  /** Joining the pieces with newlines gives back the text. */
  lemma {:induction false} JoinSplit(s: string)
    ensures Join(Split(s)) == s
  {
    if s != [] {
      var rest := Split(s[1..]);
      JoinSplit(s[1..]);
      if s[0] == '\n' {
        assert Split(s)[1..] == rest;
      } else {
        var ps := Split(s);
        assert ps[1..] == rest[1..];
        if |rest| > 1 {
          assert Join(rest) == rest[0] + "\n" + Join(rest[1..]);
        }
      }
    }
  }

  /** Splitting newline-free pieces joined by newlines gives the pieces back. */
  lemma {:induction false} SplitJoin(pieces: seq<string>)
    requires |pieces| >= 1
    requires forall p :: p in pieces ==> '\n' !in p
    ensures Split(Join(pieces)) == pieces
  {
    if |pieces| == 1 {
      SplitNoNewline(pieces[0]);
    } else {
      assert forall p :: p in pieces[1..] ==> p in pieces;
      SplitJoin(pieces[1..]);
      SplitPieceThenNewline(pieces[0], Join(pieces[1..]));
      assert pieces == [pieces[0]] + pieces[1..];
    }
  }

  lemma {:induction false} SplitNoNewline(s: string)
    requires '\n' !in s
    ensures Split(s) == [s]
  {
    if s != [] {
      assert '\n' !in s[1..] by { assert forall i :: 0 <= i < |s[1..]| ==> s[1..][i] == s[i + 1]; }
      SplitNoNewline(s[1..]);
      assert [s[0]] + s[1..] == s;
    }
  }

  lemma {:induction false} SplitPieceThenNewline(p: string, t: string)
    requires '\n' !in p
    ensures Split(p + "\n" + t) == [p] + Split(t)
  {
    if p == [] {
      assert p + "\n" + t == "\n" + t;
      assert ("\n" + t)[1..] == t;
    } else {
      assert (p + "\n" + t)[1..] == p[1..] + "\n" + t;
      assert '\n' !in p[1..] by { assert forall i :: 0 <= i < |p[1..]| ==> p[1..][i] == p[i + 1]; }
      SplitPieceThenNewline(p[1..], t);
      assert [p[0]] + p[1..] == p;
    }
  }

  /**
   * Splitting a concatenation: the last piece of the first part and the
   * first piece of the second part are glued together.
   */
  lemma {:induction false} SplitAppend(x: string, y: string)
    ensures Split(x + y) == Glue(Split(x), Split(y))
  {
    if x == [] {
      var sy := Split(y);
      assert x + y == y;
      assert [] + sy[0] == sy[0];
      assert [sy[0]] + sy[1..] == sy;
    } else {
      assert (x + y)[0] == x[0];
      assert (x + y)[1..] == x[1..] + y;
      SplitAppend(x[1..], y);
      if x[0] == '\n' {
        GlueConsEmpty(Split(x[1..]), Split(y));
      } else {
        GlueConsChar(x[0], Split(x[1..]), Split(y));
      }
    }
  }

  /** The pieces of `x + y` from the pieces of `x` and of `y`: the two pieces at the seam are joined. */
  function Glue(sx: seq<string>, sy: seq<string>): seq<string>
    requires |sx| >= 1 && |sy| >= 1
  {
    sx[..|sx| - 1] + [sx[|sx| - 1] + sy[0]] + sy[1..]
  }

  lemma GlueConsEmpty(rx: seq<string>, sy: seq<string>)
    requires |rx| >= 1 && |sy| >= 1
    ensures [[]] + Glue(rx, sy) == Glue([[]] + rx, sy)
  {
    assert ([[]] + rx)[..|rx|] == [[]] + rx[..|rx| - 1];
  }

  lemma GlueConsChar(c: char, rx: seq<string>, sy: seq<string>)
    requires |rx| >= 1 && |sy| >= 1
    ensures var r := Glue(rx, sy);
      [[c] + r[0]] + r[1..] == Glue([[c] + rx[0]] + rx[1..], sy)
  {
    var n := |rx|;
    var r := Glue(rx, sy);
    var sx := [[c] + rx[0]] + rx[1..];
    if n == 1 {
      assert r[0] == rx[0] + sy[0] && r[1..] == sy[1..];
      assert [c] + (rx[0] + sy[0]) == ([c] + rx[0]) + sy[0];
    } else {
      assert r[0] == rx[0];
      assert r[1..] == rx[1..n - 1] + [rx[n - 1] + sy[0]] + sy[1..];
      assert sx[..|sx| - 1] == [[c] + rx[0]] + rx[1..n - 1];
    }
  }

  /** Every piece of an all-whitespace text is blank. */
  lemma {:induction false} SplitAllSpace(w: string)
    requires AllSpace(w)
    ensures forall p :: p in Split(w) ==> AllSpace(p)
  {
    if w != [] {
      assert AllSpace(w[1..]);
      SplitAllSpace(w[1..]);
      var rest := Split(w[1..]);
      if w[0] != '\n' {
        assert rest[0] in rest;
        assert forall p :: p in rest[1..] ==> p in rest;
      }
    }
  }
}
