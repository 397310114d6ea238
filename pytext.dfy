/**
 * The Python string operations the tracker relies on: `str.strip()` with no
 * argument, `str.split(sep)` with a one-character separator, and
 * `str.splitlines()`, which the mail library applies to header values.
 */
module PyText {

  /** Python's `str.isspace()` for one character. */
  predicate IsSpace(c: char) {
    || ('\t' <= c <= '\r')            // \t \n \x0b \x0c \r
    || ('\U{1C}' <= c <= ' ')         // the four separators \x1c..\x1f and the space
    || c == '\U{85}' || c == '\U{A0}' || c == '\U{1680}'
    || ('\U{2000}' <= c <= '\U{200A}')
    || c == '\U{2028}' || c == '\U{2029}' || c == '\U{202F}' || c == '\U{205F}' || c == '\U{3000}'
  }

  predicate AllSpace(s: string) {
    forall i :: 0 <= i < |s| ==> IsSpace(s[i])
  }

  /** Neither end of `s` is whitespace. */
  predicate Trimmed(s: string) {
    s == [] || (!IsSpace(s[0]) && !IsSpace(s[|s| - 1]))
  }

  /** `s` with its leading whitespace removed (`str.lstrip()`). */
  function TrimStart(s: string): string
    decreases |s|
  {
    if s != [] && IsSpace(s[0]) then TrimStart(s[1..]) else s
  }

  /** `s` with its trailing whitespace removed (`str.rstrip()`). */
  function TrimEnd(s: string): string
    decreases |s|
  {
    if s != [] && IsSpace(s[|s| - 1]) then TrimEnd(s[..|s| - 1]) else s
  }

  /** TrimStart removes a whitespace prefix and stops at the first other character. */
  lemma {:induction false} TrimStartShape(s: string)
    ensures |TrimStart(s)| <= |s| && TrimStart(s) == s[|s| - |TrimStart(s)|..]
    ensures AllSpace(s[..|s| - |TrimStart(s)|])
    ensures TrimStart(s) == [] || !IsSpace(TrimStart(s)[0])
    decreases |s|
  {
    if s != [] && IsSpace(s[0]) {
      TrimStartShape(s[1..]);
      var r := TrimStart(s);
      assert s[..|s| - |r|] == [s[0]] + s[1..][..|s| - 1 - |r|];
    }
  }

  /** TrimEnd removes a whitespace suffix and stops at the last other character. */
  lemma {:induction false} TrimEndShape(s: string)
    ensures |TrimEnd(s)| <= |s| && TrimEnd(s) == s[..|TrimEnd(s)|]
    ensures AllSpace(s[|TrimEnd(s)|..])
    ensures TrimEnd(s) == [] || !IsSpace(TrimEnd(s)[|TrimEnd(s)| - 1])
    decreases |s|
  {
    if s != [] && IsSpace(s[|s| - 1]) {
      TrimEndShape(s[..|s| - 1]);
      var r := TrimEnd(s);
      assert s[|r|..] == s[..|s| - 1][|r|..] + [s[|s| - 1]];
    }
  }

  /** `r` sits at offset `i` of `s` with only whitespace before and after it. */
  predicate SurroundedBySpace(s: string, r: string, i: int) {
    0 <= i <= |s| - |r| && r == s[i..i + |r|] && AllSpace(s[..i]) && AllSpace(s[i + |r|..])
  }

  /** Python's `s.strip()`. */
  function Strip(s: string): string {
    TrimEnd(TrimStart(s))
  }

  /** Strip removes whitespace from both ends and touches nothing else. */
  lemma StripShape(s: string)
    ensures Trimmed(Strip(s))
    ensures exists i :: SurroundedBySpace(s, Strip(s), i)
  {
    var t := TrimStart(s);
    var r := TrimEnd(t);
    TrimStartShape(s);
    TrimEndShape(t);
    var i := |s| - |t|;
    assert s[i..] == t;
    assert s[i..i + |r|] == r;
    assert s[i + |r|..] == t[|r|..];
    assert r == [] || t[0] == r[0];
    assert SurroundedBySpace(s, r, i);
  }

  lemma {:induction false} TrimStartOfSpaces(lead: string, u: string)
    requires AllSpace(lead)
    requires u == [] || !IsSpace(u[0])
    ensures TrimStart(lead + u) == u
    decreases |lead|
  {
    if lead != [] {
      assert (lead + u)[1..] == lead[1..] + u;
      TrimStartOfSpaces(lead[1..], u);
    } else {
      assert lead + u == u;
    }
  }

  lemma {:induction false} TrimEndOfSpaces(u: string, trail: string)
    requires AllSpace(trail)
    requires u == [] || !IsSpace(u[|u| - 1])
    ensures TrimEnd(u + trail) == u
    decreases |trail|
  {
    if trail != [] {
      var n := |trail| - 1;
      assert (u + trail)[..|u + trail| - 1] == u + trail[..n];
      TrimEndOfSpaces(u, trail[..n]);
    } else {
      assert u + trail == u;
    }
  }

  /**
   * Strip is determined by its contract: whatever text with no whitespace at
   * either end is surrounded by whitespace only, stripping yields that text.
   */
  lemma StripUnique(lead: string, t: string, trail: string)
    requires AllSpace(lead) && AllSpace(trail) && Trimmed(t)
    ensures Strip(lead + t + trail) == t
  {
    if t == [] {
      assert lead + t + trail == (lead + trail) + [];
      TrimStartOfSpaces(lead + trail, []);
    } else {
      assert lead + t + trail == lead + (t + trail);
      TrimStartOfSpaces(lead, t + trail);
      TrimEndOfSpaces(t, trail);
    }
  }

  /** Stripping twice is stripping once. */
  lemma StripIdempotent(s: string)
    ensures Strip(Strip(s)) == Strip(s)
  {
    var t := Strip(s);
    StripShape(s);
    assert [] + t + [] == t;
    StripUnique([], t, []);
  }

  /** How many times `c` occurs in `s` (Python's `s.count(c)`). */
  function Occurrences(s: string, c: char): nat
    decreases |s|
  {
    if s == [] then 0 else (if s[0] == c then 1 else 0) + Occurrences(s[1..], c)
  }

  /** Python's `sep.join(pieces)`. */
  function Join(pieces: seq<string>, sep: char): (r: string)
    decreases |pieces|
  {
    if pieces == [] then []
    else if |pieces| == 1 then pieces[0]
    else pieces[0] + [sep] + Join(pieces[1..], sep)
  }

  lemma JoinFirstCons(c: char, pieces: seq<string>, sep: char)
    requires pieces != []
    ensures Join([[c] + pieces[0]] + pieces[1..], sep) == [c] + Join(pieces, sep)
  {
    var q := [[c] + pieces[0]] + pieces[1..];
    assert q[1..] == pieces[1..];
  }

  /**
   * Python's `s.split(sep)`: one piece more than there are separators, no
   * piece holds the separator, empty pieces are kept, and joining the pieces
   * back with the separator gives `s`.
   */
  function Split(s: string, sep: char): (r: seq<string>)
    ensures |r| == Occurrences(s, sep) + 1
    ensures forall i :: 0 <= i < |r| ==> sep !in r[i]
    ensures Join(r, sep) == s
    decreases |s|
  {
    if s == [] then [[]]
    else
      var rest := Split(s[1..], sep);
      if s[0] == sep then
        assert ([[]] + rest)[1..] == rest;
        [[]] + rest
      else
        JoinFirstCons(s[0], rest, sep);
        [[s[0]] + rest[0]] + rest[1..]
  }

  /** Splitting text that starts with a separator-free `p` extends the first piece by `p`. */
  lemma {:induction false} SplitAfterPlain(p: string, t: string, sep: char)
    requires sep !in p
    ensures Split(p + t, sep) == [p + Split(t, sep)[0]] + Split(t, sep)[1..]
    decreases |p|
  {
    var st := Split(t, sep);
    if p == [] {
      assert p + t == t;
      assert |st| >= 1 && p + st[0] == st[0];
      assert [p + st[0]] + st[1..] == st;
    } else {
      var s := p + t;
      assert s[0] == p[0] && s[0] != sep;
      assert s[1..] == p[1..] + t;
      SplitAfterPlain(p[1..], t, sep);
      var rest := Split(s[1..], sep);
      assert rest == [p[1..] + st[0]] + st[1..];
      assert Split(s, sep) == [[s[0]] + rest[0]] + rest[1..];
      assert rest[1..] == st[1..];
      assert [p[0]] + (p[1..] + st[0]) == p + st[0];
    }
  }

  /** Split undoes Join whenever no piece contains the separator. */
  lemma {:induction false} SplitJoin(pieces: seq<string>, sep: char)
    requires pieces != []
    requires forall i :: 0 <= i < |pieces| ==> sep !in pieces[i]
    ensures Split(Join(pieces, sep), sep) == pieces
    decreases |pieces|
  {
    var p := pieces[0];
    if |pieces| == 1 {
      SplitAfterPlain(p, [], sep);
      assert p + [] == p;
    } else {
      var rest := pieces[1..];
      var j := Join(rest, sep);
      SplitJoin(rest, sep);
      assert Join(pieces, sep) == p + ([sep] + j);
      var tail := [sep] + j;
      assert tail[0] == sep && tail[1..] == j;
      var st := Split(tail, sep);
      assert st == [[]] + rest;
      SplitAfterPlain(p, tail, sep);
      assert p + st[0] == p && st[1..] == rest;
      assert [p] + rest == pieces;
    }
  }

  /** The characters at which `str.splitlines()` ends a line. */
  predicate IsLineBoundary(c: char) {
    || ('\n' <= c <= '\r')            // \n \x0b \x0c \r
    || ('\U{1C}' <= c <= '\U{1E}')    // the file, group and record separators
    || c == '\U{85}' || c == '\U{2028}' || c == '\U{2029}'
  }

  /** Some character of `s` is a line boundary. */
  predicate HasLineBoundary(s: string) {
    exists i :: 0 <= i < |s| && IsLineBoundary(s[i])
  }

  /** The length of the line terminator at `i`: `\r\n` is one terminator. */
  function TerminatorLength(s: string, i: int): nat
    requires 0 <= i < |s|
  {
    if s[i] == '\r' && i + 1 < |s| && s[i + 1] == '\n' then 2 else 1
  }

  /** The index of the first line boundary in `s`, or `|s|` when there is none. */
  function LineEnd(s: string): (i: nat)
    ensures i <= |s|
    ensures forall k :: 0 <= k < i ==> !IsLineBoundary(s[k])
    ensures i < |s| ==> IsLineBoundary(s[i])
    decreases |s|
  {
    if s == [] || IsLineBoundary(s[0]) then 0 else 1 + LineEnd(s[1..])
  }

  /** Python's `s.splitlines()`: the lines of `s`, each without its terminator. */
  function SplitLines(s: string): seq<string>
    decreases |s|
  {
    if s == [] then []
    else
      var i := LineEnd(s);
      if i == |s| then [s] else [s[..i]] + SplitLines(s[i + TerminatorLength(s, i)..])
  }

  /** Some line terminator of `s` is followed by more text. */
  predicate InnerBreak(s: string) {
    exists i :: 0 <= i < |s| && IsLineBoundary(s[i]) && i + TerminatorLength(s, i) < |s|
  }

  /** Only the empty string has no lines. */
  lemma SplitLinesEmpty(s: string)
    ensures SplitLines(s) == [] <==> s == []
  {
  }

  /**
   * `s.splitlines()` returns more than one line exactly when some terminator
   * is followed by more text; a single trailing terminator still gives one line.
   */
  lemma SeveralLines(s: string)
    ensures |SplitLines(s)| > 1 <==> InnerBreak(s)
  {
    if s != [] {
      var i := LineEnd(s);
      if i < |s| {
        SplitLinesEmpty(s[i + TerminatorLength(s, i)..]);
        if InnerBreak(s) {
          var k :| 0 <= k < |s| && IsLineBoundary(s[k]) && k + TerminatorLength(s, k) < |s|;
          assert i <= k;
        }
      }
    }
  }

  /** A character of `s` keeps its terminator length when text is put in front of `s`. */
  lemma TerminatorShift(p: string, s: string, j: int)
    requires 0 <= j < |s|
    ensures (p + s)[|p| + j] == s[j]
    ensures TerminatorLength(p + s, |p| + j) == TerminatorLength(s, j)
  {
    if j + 1 < |s| {
      assert (p + s)[|p| + j + 1] == s[j + 1];
    }
  }

  /** Text without line boundaries in front of `s` adds no second line. */
  lemma InnerBreakAfterPlain(g: string, s: string)
    requires !HasLineBoundary(g)
    ensures InnerBreak(g + s) <==> InnerBreak(s)
  {
    if InnerBreak(g + s) {
      var k :| 0 <= k < |g + s| && IsLineBoundary((g + s)[k]) && k + TerminatorLength(g + s, k) < |g + s|;
      if |g| <= k {
        TerminatorShift(g, s, k - |g|);
      }
    }
    if InnerBreak(s) {
      var j :| 0 <= j < |s| && IsLineBoundary(s[j]) && j + TerminatorLength(s, j) < |s|;
      TerminatorShift(g, s, j);
    }
  }

  /**
   * A field followed by a non-empty gap without line boundaries and then by
   * `s`: the whole has a second line iff the field holds any line boundary
   * or `s` has a second line.
   */
  lemma InnerBreakAroundField(x: string, gap: string, s: string)
    requires gap != [] && !HasLineBoundary(gap)
    ensures InnerBreak(x + gap + s) <==> HasLineBoundary(x) || InnerBreak(s)
  {
    var t := x + gap + s;
    assert t == x + (gap + s);
    assert t[|x|] == gap[0] && !IsLineBoundary(gap[0]);
    if InnerBreak(t) {
      var k :| 0 <= k < |t| && IsLineBoundary(t[k]) && k + TerminatorLength(t, k) < |t|;
      if k < |x| {
        assert t[k] == x[k];
      } else if |x| + |gap| <= k {
        TerminatorShift(x + gap, s, k - |x + gap|);
      }
    }
    if HasLineBoundary(x) {
      var k :| 0 <= k < |x| && IsLineBoundary(x[k]);
      assert t[k] == x[k];
      assert k + TerminatorLength(t, k) <= |x| + 1;
    }
    if InnerBreak(s) {
      var j :| 0 <= j < |s| && IsLineBoundary(s[j]) && j + TerminatorLength(s, j) < |s|;
      TerminatorShift(x + gap, s, j);
    }
  }
}
