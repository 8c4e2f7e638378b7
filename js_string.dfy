/**
 * The JavaScript string primitives the core relies on: `includes`, `indexOf`,
 * `substring`, `trim`, `replace` with a string pattern (first occurrence, with
 * the `$` substitution patterns) and `replace` with a global literal regular
 * expression. A string is a sequence of characters and positions count code
 * points. JavaScript counts UTF-16 code units, so the two agree on text in
 * the Basic Multilingual Plane, where every marker and pattern of the core
 * lies; an astral-plane character before a cut shifts JavaScript's positions.
 */
module JsString {

  predicate StartsWith(s: string, p: string) {
    |p| <= |s| && s[..|p|] == p
  }

  predicate EndsWith(s: string, p: string) {
    |p| <= |s| && s[|s| - |p|..] == p
  }

  /** `p` occurs in `s` starting at index `i`. */
  predicate OccursAt(s: string, p: string, i: int) {
    0 <= i && i + |p| <= |s| && s[i..i + |p|] == p
  }

  /** `s.indexOf(p, k)`: the first index at or after `k` where `p` occurs, or -1. */
  function IndexFrom(s: string, p: string, k: nat): (r: int)
    requires k <= |s|
    ensures r == -1 || (k <= r && OccursAt(s, p, r))
    decreases |s| - k
  {
    if OccursAt(s, p, k) then k
    else if |s| <= k + |p| then -1
    else IndexFrom(s, p, k + 1)
  }

  /** `indexOf` from `k` skips no occurrence: none lies between `k` and the result, and none at all after `k` when the result is -1. */
  lemma {:induction false} IndexFromFirst(s: string, p: string, k: nat)
    requires k <= |s|
    ensures IndexFrom(s, p, k) == -1 ==> forall j :: k <= j ==> !OccursAt(s, p, j)
    ensures IndexFrom(s, p, k) != -1 ==> forall j :: k <= j < IndexFrom(s, p, k) ==> !OccursAt(s, p, j)
    decreases |s| - k
  {
    if !OccursAt(s, p, k) && k + |p| < |s| {
      IndexFromFirst(s, p, k + 1);
    }
  }

  /** `s.indexOf(p)`. */
  function IndexOf(s: string, p: string): int {
    IndexFrom(s, p, 0)
  }

  /** `s.includes(p)`. */
  predicate Contains(s: string, p: string) {
    IndexOf(s, p) >= 0
  }

  /** The first-occurrence characterisation of `indexOf`. */
  lemma IndexOfIsFirst(s: string, p: string, i: int)
    requires OccursAt(s, p, i)
    requires forall j :: 0 <= j < i ==> !OccursAt(s, p, j)
    ensures IndexOf(s, p) == i && Contains(s, p)
  {
    IndexFromFirst(s, p, 0);
  }

  /** A string lacking some character of `p` does not contain `p`. */
  lemma MissingCharNotContained(s: string, p: string, c: char)
    requires c in p && c !in s
    ensures !Contains(s, p)
  {
    var k :| 0 <= k < |p| && p[k] == c;
    forall i | 0 <= i && i + |p| <= |s| ensures !OccursAt(s, p, i) {
      assert s[i..i + |p|][k] == s[i + k];
    }
  }

  /** ToIntegerOrInfinity followed by clamping to `[0, n]`, as `substring` does. */
  function Clamp(i: int, n: nat): (r: nat)
    ensures r <= n
  {
    if i < 0 then 0 else if i > n then n else i
  }

  /** `s.substring(start, end)`: both bounds are clamped, then swapped when start > end. */
  function Substring(s: string, start: int, end: int): string {
    var a, b := Clamp(start, |s|), Clamp(end, |s|);
    if a <= b then s[a..b] else s[b..a]
  }

  /** `substring` does not depend on the order of its bounds. */
  lemma SubstringSymmetric(s: string, a: int, b: int)
    ensures Substring(s, a, b) == Substring(s, b, a)
  {
  }

  /** Adjacent substrings concatenate to the substring spanning both. */
  lemma SubstringConcat(s: string, a: int, b: int, c: int)
    requires 0 <= a <= b <= c <= |s|
    ensures Substring(s, a, b) + Substring(s, b, c) == Substring(s, a, c)
  {
    assert s[a..b] + s[b..c] == s[a..c];
  }

  /** Bounds outside the string act as its nearest end: the length is the distance between the clamped bounds. */
  lemma SubstringLength(s: string, a: int, b: int)
    ensures a <= 0 && b <= 0 ==> Substring(s, a, b) == ""
    ensures a >= |s| && b >= |s| ==> Substring(s, a, b) == ""
    ensures a <= 0 && b >= |s| ==> Substring(s, a, b) == s
    ensures |Substring(s, a, b)| == if Clamp(a, |s|) <= Clamp(b, |s|) then Clamp(b, |s|) - Clamp(a, |s|) else Clamp(a, |s|) - Clamp(b, |s|)
  {
    assert s[0..|s|] == s;
  }

  /** `s.substring(start)`. */
  function SubstringFrom(s: string, start: int): (r: string) {
    s[Clamp(start, |s|)..]
  }

  /**
   * The characters `trim` removes: ECMAScript's WhiteSpace (TAB, VT, FF,
   * ZWNBSP and every space separator) and LineTerminator (LF, CR, LS, PS).
   */
  predicate IsWs(c: char) {
    || c == '\t' || c == '\n' || c == '\U{B}' || c == '\U{C}' || c == '\r'
    || c == ' ' || c == '\U{A0}' || c == '\U{1680}'
    || ('\U{2000}' <= c <= '\U{200A}')
    || c == '\U{2028}' || c == '\U{2029}' || c == '\U{202F}' || c == '\U{205F}'
    || c == '\U{3000}' || c == '\U{FEFF}'
  }

  /** `s.trimStart()`. */
  function TrimStart(s: string): (r: string)
    ensures |r| <= |s|
  {
    if |s| > 0 && IsWs(s[0]) then TrimStart(s[1..]) else s
  }

  /** `trimStart` leaves a suffix, removes only whitespace, and stops at the first non-whitespace character. */
  lemma {:induction false} TrimStartSpec(s: string)
    ensures TrimStart(s) == s[|s| - |TrimStart(s)|..]
    ensures forall i :: 0 <= i < |s| - |TrimStart(s)| ==> IsWs(s[i])
    ensures TrimStart(s) == [] || !IsWs(TrimStart(s)[0])
    decreases |s|
  {
    if |s| > 0 && IsWs(s[0]) {
      var t := s[1..];
      TrimStartSpec(t);
      forall i | 0 <= i < |s| - |TrimStart(s)| ensures IsWs(s[i]) {
        if i > 0 { assert s[i] == t[i - 1]; }
      }
    }
  }

  /** `s.trimEnd()`. */
  function TrimEnd(s: string): (r: string)
    ensures |r| <= |s|
  {
    if |s| > 0 && IsWs(s[|s| - 1]) then TrimEnd(s[..|s| - 1]) else s
  }

  /** `trimEnd` leaves a prefix, removes only whitespace, and stops at the last non-whitespace character. */
  lemma {:induction false} TrimEndSpec(s: string)
    ensures TrimEnd(s) == s[..|TrimEnd(s)|]
    ensures forall i :: |TrimEnd(s)| <= i < |s| ==> IsWs(s[i])
    ensures TrimEnd(s) == [] || !IsWs(TrimEnd(s)[|TrimEnd(s)| - 1])
    decreases |s|
  {
    if |s| > 0 && IsWs(s[|s| - 1]) {
      var t := s[..|s| - 1];
      TrimEndSpec(t);
      forall i | |TrimEnd(s)| <= i < |s| ensures IsWs(s[i]) {
        if i < |s| - 1 { assert s[i] == t[i]; }
      }
    }
  }

  /** `s.trim()`. */
  function Trim(s: string): string {
    TrimEnd(TrimStart(s))
  }

  /** `r` is `s` without its leading and trailing whitespace. */
  ghost predicate IsTrimOf(r: string, s: string) {
    exists a: nat, b: nat {:trigger s[a..b]} ::
      && a <= b <= |s| && r == s[a..b]
      && (forall i :: 0 <= i < a ==> IsWs(s[i]))
      && (forall i :: b <= i < |s| ==> IsWs(s[i]))
      && (r == [] || (!IsWs(r[0]) && !IsWs(r[|r| - 1])))
  }

  /** The witnesses of `IsTrimOf`, given separately. */
  lemma TrimBounds(r: string, s: string, a: nat, b: nat)
    requires a <= b <= |s| && r == s[a..b]
    requires forall i :: 0 <= i < a ==> IsWs(s[i])
    requires forall i :: b <= i < |s| ==> IsWs(s[i])
    requires r == [] || (!IsWs(r[0]) && !IsWs(r[|r| - 1]))
    ensures IsTrimOf(r, s)
  {
  }

  /** `Trim` removes exactly the leading and trailing whitespace, and nothing else. */
  lemma TrimIsTrim(s: string)
    ensures IsTrimOf(Trim(s), s)
  {
    var t := TrimStart(s);
    var r := TrimEnd(t);
    var a := |s| - |t|;
    var b := a + |r|;
    assert t == s[a..] && (forall i :: 0 <= i < a ==> IsWs(s[i])) && (t == [] || !IsWs(t[0])) by {
      TrimStartSpec(s);
    }
    assert r == t[..|r|] && (forall i :: |r| <= i < |t| ==> IsWs(t[i])) && (r == [] || !IsWs(r[|r| - 1])) by {
      TrimEndSpec(t);
    }
    assert r == s[a..b] by {
      assert s[a..b] == s[a..][..|r|];
    }
    forall i | b <= i < |s| ensures IsWs(s[i]) {
      assert s[i] == t[i - a];
    }
    assert r == [] || !IsWs(r[0]) by {
      if r != [] {
        assert r[0] == t[0];
      }
    }
    TrimBounds(r, s, a, b);
  }

  /** Trimming twice is trimming once. */
  lemma TrimIdempotent(s: string)
    ensures Trim(Trim(s)) == Trim(s)
  {
    var t := TrimStart(s);
    var r := TrimEnd(t);
    TrimStartSpec(s);
    TrimEndSpec(t);
    TrimStartSpec(r);
    if r != [] {
      assert r[0] == t[0];
      assert TrimStart(r) == r;
    }
  }

  /**
   * ECMAScript GetSubstitution for a string pattern (no capture groups): in the
   * replacement text `$$` stands for `$`, `$&` for the matched text, `` $` `` for
   * the text before the match and `$'` for the text after it; every other `$`
   * is literal.
   */
  function Substitution(rep: string, matched: string, before: string, after: string): string
    decreases |rep|
  {
    if |rep| == 0 then ""
    else if rep[0] == '$' && |rep| >= 2 && rep[1] == '$' then "$" + Substitution(rep[2..], matched, before, after)
    else if rep[0] == '$' && |rep| >= 2 && rep[1] == '&' then matched + Substitution(rep[2..], matched, before, after)
    else if rep[0] == '$' && |rep| >= 2 && rep[1] == '`' then before + Substitution(rep[2..], matched, before, after)
    else if rep[0] == '$' && |rep| >= 2 && rep[1] == '\'' then after + Substitution(rep[2..], matched, before, after)
    else [rep[0]] + Substitution(rep[1..], matched, before, after)
  }

  /** A replacement text without `$` is inserted literally. */
  lemma {:induction false} SubstitutionLiteral(rep: string, matched: string, before: string, after: string)
    requires '$' !in rep
    ensures Substitution(rep, matched, before, after) == rep
    decreases |rep|
  {
    if |rep| > 0 {
      assert '$' !in rep[1..];
      SubstitutionLiteral(rep[1..], matched, before, after);
    }
  }

  /** A `$`-free head of the replacement text is copied, and substitution carries on after it. */
  lemma {:induction false} SubstitutionLiteralHead(a: string, b: string, matched: string, before: string, after: string)
    requires '$' !in a
    ensures Substitution(a + b, matched, before, after) == a + Substitution(b, matched, before, after)
    decreases |a|
  {
    if |a| > 0 {
      assert (a + b)[0] == a[0];
      assert (a + b)[1..] == a[1..] + b;
      assert '$' !in a[1..];
      SubstitutionLiteralHead(a[1..], b, matched, before, after);
      assert a == [a[0]] + a[1..];
    } else {
      assert a + b == b;
    }
  }

  /** `s.replace(p, rep)` with a string pattern: only the first occurrence is replaced. */
  function ReplaceFirst(s: string, p: string, rep: string): string {
    var i := IndexOf(s, p);
    if i < 0 then s
    else s[..i] + Substitution(rep, p, s[..i], s[i + |p|..]) + s[i + |p|..]
  }

  /** Without an occurrence of the pattern, `replace` returns its input. */
  lemma ReplaceFirstAbsent(s: string, p: string, rep: string)
    requires !Contains(s, p)
    ensures ReplaceFirst(s, p, rep) == s
  {
  }

  /**
   * With the first occurrence of `p` at `i`, `replace` splices `rep` in at `i`
   * and keeps everything before and after, including later occurrences of `p`.
   */
  lemma ReplaceFirstAt(s: string, p: string, rep: string, i: int)
    requires OccursAt(s, p, i)
    requires forall j :: 0 <= j < i ==> !OccursAt(s, p, j)
    requires '$' !in rep
    ensures ReplaceFirst(s, p, rep) == s[..i] + rep + s[i + |p|..]
  {
    IndexOfIsFirst(s, p, i);
    SubstitutionLiteral(rep, p, s[..i], s[i + |p|..]);
  }

  /**
   * `s.replace(p, () => v)`: the first occurrence of `p` replaced by `v`
   * taken literally, whatever `$` characters `v` holds.
   */
  function ReplaceFirstVerbatim(s: string, p: string, v: string): string {
    var i := IndexOf(s, p);
    if i < 0 then s else s[..i] + v + s[i + |p|..]
  }

  /** `replace` with a string value and the verbatim splice agree exactly when no `$` pattern can arise. */
  lemma ReplaceFirstLiteralValue(s: string, p: string, v: string)
    requires '$' !in v
    ensures ReplaceFirst(s, p, v) == ReplaceFirstVerbatim(s, p, v)
  {
    var i := IndexOf(s, p);
    if i >= 0 {
      SubstitutionLiteral(v, p, s[..i], s[i + |p|..]);
    }
  }

  /** With the first occurrence of `p` at `i`, the verbatim splice puts `v` there and keeps the rest. */
  lemma ReplaceFirstVerbatimAt(s: string, p: string, v: string, i: int)
    requires OccursAt(s, p, i)
    requires forall j :: 0 <= j < i ==> !OccursAt(s, p, j)
    ensures ReplaceFirstVerbatim(s, p, v) == s[..i] + v + s[i + |p|..]
  {
    IndexOfIsFirst(s, p, i);
  }

  /**
   * `s.replace(/p/g, r)` for a literal pattern `p` and a replacement without
   * `$`: the leftmost occurrence is replaced, and the search resumes after it.
   */
  function ReplaceAll(s: string, p: string, r: string): string
    requires |p| > 0
    decreases |s|
  {
    if |s| == 0 then ""
    else if StartsWith(s, p) then r + ReplaceAll(s[|p|..], p, r)
    else [s[0]] + ReplaceAll(s[1..], p, r)
  }

  /** The number of occurrences `ReplaceAll` replaces (left to right, non-overlapping). */
  function MatchCount(s: string, p: string): nat
    requires |p| > 0
    decreases |s|
  {
    if |s| == 0 then 0
    else if StartsWith(s, p) then 1 + MatchCount(s[|p|..], p)
    else MatchCount(s[1..], p)
  }

  /** Each replaced occurrence changes the length by `|r| - |p|`. */
  lemma {:induction false} ReplaceAllLength(s: string, p: string, r: string)
    requires |p| > 0
    ensures |ReplaceAll(s, p, r)| == |s| + MatchCount(s, p) * (|r| - |p|)
    decreases |s|
  {
    if |s| > 0 {
      var d := |r| - |p|;
      if StartsWith(s, p) {
        var rest := s[|p|..];
        var m := MatchCount(rest, p);
        ReplaceAllLength(rest, p, r);
        assert |ReplaceAll(s, p, r)| == |r| + |ReplaceAll(rest, p, r)|;
        assert MatchCount(s, p) == 1 + m;
        assert |rest| == |s| - |p|;
        MulSucc(m, d);
      } else {
        ReplaceAllLength(s[1..], p, r);
        assert |ReplaceAll(s, p, r)| == 1 + |ReplaceAll(s[1..], p, r)|;
        assert MatchCount(s, p) == MatchCount(s[1..], p);
      }
    }
  }

  lemma MulSucc(m: int, d: int)
    ensures (1 + m) * d == d + m * d
  {
  }


  /** A string in which the pattern never starts is returned unchanged. */
  lemma {:induction false} ReplaceAllAbsent(s: string, p: string, r: string)
    requires |p| > 0
    requires !Contains(s, p)
    ensures ReplaceAll(s, p, r) == s
    ensures MatchCount(s, p) == 0
    decreases |s|
  {
    if |s| > 0 {
      IndexFromFirst(s, p, 0);
      assert !StartsWith(s, p) by { assert !OccursAt(s, p, 0); }
      assert !Contains(s[1..], p) by {
        if Contains(s[1..], p) {
          var j := IndexOf(s[1..], p);
          assert s[1..][j..j + |p|] == s[j + 1..j + 1 + |p|];
          assert OccursAt(s, p, j + 1);
        }
      }
      ReplaceAllAbsent(s[1..], p, r);
    }
  }

  /**
   * Where the output of `ReplaceAll` begins with text free of the replacement's
   * first character, no replacement happened there: the input begins with the
   * same text, and that text holds no occurrence of the pattern.
   */
  lemma {:induction false} CopiedPrefix(s: string, p: string, r: string, w: string)
    requires |p| > 0 && |r| > 0 && r[0] !in w
    requires StartsWith(ReplaceAll(s, p, r), w)
    ensures StartsWith(s, w)
    ensures forall j :: !OccursAt(w, p, j)
    decreases |w|
  {
    if |w| > 0 {
      var t := ReplaceAll(s, p, r);
      assert |s| > 0;
      assert t[0] == w[0];
      assert !StartsWith(s, p);
      var t1 := ReplaceAll(s[1..], p, r);
      assert t == [s[0]] + t1;
      assert t[..|w|] == w;
      assert StartsWith(t1, w[1..]) by {
        assert |w| - 1 <= |t1|;
        assert t1[..|w| - 1] == t[1..|w|];
        assert t[1..|w|] == t[..|w|][1..];
      }
      assert r[0] !in w[1..];
      CopiedPrefix(s[1..], p, r, w[1..]);
      assert s[..|w|] == [s[0]] + s[1..][..|w| - 1];
      assert s[..|w|] == w;
      forall j | 0 <= j && j + |p| <= |w| ensures !OccursAt(w, p, j) {
        if j == 0 {
          assert w[..|p|] == s[..|w|][..|p|];
          assert s[..|w|][..|p|] == s[..|p|];
        } else {
          assert !OccursAt(w[1..], p, j - 1);
          assert w[j..j + |p|] == w[1..][j - 1..j - 1 + |p|];
        }
      }
    }
  }

  /**
   * Replacing every `p` by `q + p` is undone by replacing every `q + p` by `p`,
   * provided the first character of `q` occurs nowhere else in `q + p`.
   */
  lemma {:induction false} PrefixInsertionRoundTrip(s: string, p: string, q: string)
    requires |p| > 0 && |q| > 0 && q[0] !in q[1..] + p
    ensures ReplaceAll(ReplaceAll(s, p, q + p), q + p, p) == s
    decreases |s|
  {
    if |s| > 0 {
      var r := q + p;
      var t := ReplaceAll(s, p, r);
      if StartsWith(s, p) {
        var rest := ReplaceAll(s[|p|..], p, r);
        assert t == r + rest;
        assert t[..|r|] == r;
        assert t[|r|..] == rest;
        PrefixInsertionRoundTrip(s[|p|..], p, q);
        assert s == p + s[|p|..];
      } else {
        var t1 := ReplaceAll(s[1..], p, r);
        assert t == [s[0]] + t1;
        if StartsWith(t, r) {
          var w := r[1..];
          assert w == q[1..] + p;
          assert OccursAt(w, p, |q| - 1) by { assert w[|q| - 1..|q| - 1 + |p|] == p; }
          assert t1[..|w|] == t[1..|r|];
          CopiedPrefix(s[1..], p, r, w);
          assert false;
        }
        assert t[1..] == t1;
        PrefixInsertionRoundTrip(s[1..], p, q);
      }
    }
  }

  /** No occurrence of `p` starts inside `u` when `u` is followed by `x`. */
  predicate NoMatchWithin(u: string, x: string, p: string) {
    forall i :: 0 <= i < |u| ==> !StartsWith((u + x)[i..], p)
  }

  /**
   * A sufficient condition for `NoMatchWithin`, checkable on `u` alone: every
   * copy of the pattern's first character in `u` is followed, still inside
   * `u`, by something other than the pattern's second character.
   */
  lemma NoMatchWithinByPairs(u: string, x: string, p: string)
    requires |p| >= 2
    requires forall i :: 0 <= i < |u| && u[i] == p[0] ==> i + 1 < |u| && u[i + 1] != p[1]
    ensures NoMatchWithin(u, x, p)
  {
    forall i | 0 <= i < |u| ensures !StartsWith((u + x)[i..], p) {
      if u[i] == p[0] {
        assert (u + x)[i..][1] == u[i + 1];
      } else {
        assert (u + x)[i..][0] == u[i];
      }
    }
  }

  /** An occurrence at the start is replaced, and the scan resumes right after it. */
  lemma ReplaceAllAtStart(p: string, x: string, r: string)
    requires |p| > 0
    ensures ReplaceAll(p + x, p, r) == r + ReplaceAll(x, p, r)
  {
    assert (p + x)[..|p|] == p;
    assert (p + x)[|p|..] == x;
  }

  /** A prefix holding no occurrence is copied through `ReplaceAll` unchanged. */
  lemma {:induction false} ReplaceAllSkipsPrefix(u: string, x: string, p: string, r: string)
    requires |p| > 0 && NoMatchWithin(u, x, p)
    ensures ReplaceAll(u + x, p, r) == u + ReplaceAll(x, p, r)
    decreases |u|
  {
    if |u| > 0 {
      var s := u + x;
      assert !StartsWith(s[0..], p);
      assert s[1..] == u[1..] + x;
      forall i | 0 <= i < |u[1..]| ensures !StartsWith((u[1..] + x)[i..], p) {
        assert (u[1..] + x)[i..] == s[i + 1..];
      }
      ReplaceAllSkipsPrefix(u[1..], x, p, r);
    } else {
      assert u + x == x;
    }
  }

  /** A prefix holding no occurrence adds nothing to the match count. */
  lemma {:induction false} MatchCountSkipsPrefix(u: string, x: string, p: string)
    requires |p| > 0 && NoMatchWithin(u, x, p)
    ensures MatchCount(u + x, p) == MatchCount(x, p)
    decreases |u|
  {
    if |u| > 0 {
      var s := u + x;
      assert !StartsWith(s[0..], p);
      assert s[1..] == u[1..] + x;
      forall i | 0 <= i < |u[1..]| ensures !StartsWith((u[1..] + x)[i..], p) {
        assert (u[1..] + x)[i..] == s[i + 1..];
      }
      MatchCountSkipsPrefix(u[1..], x, p);
    } else {
      assert u + x == x;
    }
  }
}
