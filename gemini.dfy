/**
 * The pure half of the Gemini client (src/services/gemini.js): splitting a
 * free-form model reply into the updated LaTeX and the summary of changes,
 * and filling the prompt template.
 */
module Gemini {
  import opened Wrappers
  import opened JsString

  /** The LaTeX section markers, Spanish first, then English. */
  const LatexMarkers: seq<string> :=
    ["=== SECCIÓN 1: CV ACTUALIZADO EN LATEX ===", "=== SECTION 1: UPDATED CV IN LATEX ==="]

  /** The summary section markers, in the same language order. */
  const SummaryMarkers: seq<string> :=
    ["=== SECCIÓN 2: RESUMEN DE ACTUALIZACIONES ===", "=== SECTION 2: SUMMARY OF UPDATES ==="]

  const FallbackPrefix := "Could not parse structured response. Raw response:\n"

  const FenceLatex := "```latex\n"
  const FenceOpen := "```\n"
  const FenceClose := "\n```"

  /** The `{ latex, summary }` object `parseResponse` returns. */
  datatype Parsed = Parsed(latex: string, summary: string)

  /** The reply a parse degrades to when a marker is missing. */
  function Fallback(text: string): Parsed {
    Parsed("", FallbackPrefix + text)
  }

  /** Some marker of the list occurs in the text. */
  ghost predicate AnyFound(markers: seq<string>, text: string) {
    exists i :: 0 <= i < |markers| && Contains(text, markers[i])
  }

  /** `m` is the first entry of the list that occurs in the text. */
  ghost predicate Chosen(markers: seq<string>, text: string, m: string) {
    exists i :: 0 <= i < |markers| && markers[i] == m && Contains(text, m)
      && forall j :: 0 <= j < i ==> !Contains(text, markers[j])
  }

  /** `markers.slice(k).find(m => text.includes(m))`. */
  function FindFrom(markers: seq<string>, text: string, k: nat): (r: Option<string>)
    requires k <= |markers|
    ensures r.None? <==> forall i :: k <= i < |markers| ==> !Contains(text, markers[i])
    ensures r.Some? ==>
      exists i :: k <= i < |markers| && markers[i] == r.value && Contains(text, r.value)
        && forall j :: k <= j < i ==> !Contains(text, markers[j])
    decreases |markers| - k
  {
    if k == |markers| then None
    else if Contains(text, markers[k]) then Some(markers[k])
    else FindFrom(markers, text, k + 1)
  }

  /** `markers.find(m => text.includes(m))`. */
  function FindMarker(markers: seq<string>, text: string): Option<string> {
    FindFrom(markers, text, 0)
  }

  /** `find` yields exactly the first list entry that occurs in the text, and nothing when none does. */
  lemma FindMarkerChosen(markers: seq<string>, text: string, m: string)
    ensures FindMarker(markers, text) == Some(m) <==> Chosen(markers, text, m)
    ensures FindMarker(markers, text).None? <==> !AnyFound(markers, text)
  {
    var r := FindFrom(markers, text, 0);
    if Chosen(markers, text, m) {
      var i1 :| 0 <= i1 < |markers| && markers[i1] == m && Contains(text, m)
        && forall j :: 0 <= j < i1 ==> !Contains(text, markers[j]);
      assert r.Some?;
      var i2 :| 0 <= i2 < |markers| && markers[i2] == r.value && Contains(text, r.value)
        && forall j :: 0 <= j < i2 ==> !Contains(text, markers[j]);
      assert !(i1 < i2) && !(i2 < i1);
    } else if r.Some? {
      var i :| 0 <= i < |markers| && markers[i] == r.value && Contains(text, r.value)
        && forall j :: 0 <= j < i ==> !Contains(text, markers[j]);
      assert r.value != m;
    }
  }

  /** With both languages present, the Spanish marker wins; otherwise the English one is taken. */
  lemma MarkerPriority(markers: seq<string>, text: string)
    requires |markers| == 2
    ensures Contains(text, markers[0]) ==> FindMarker(markers, text) == Some(markers[0])
    ensures !Contains(text, markers[0]) && Contains(text, markers[1]) ==> FindMarker(markers, text) == Some(markers[1])
    ensures !Contains(text, markers[0]) && !Contains(text, markers[1]) ==> FindMarker(markers, text) == None
  {
  }

  /** At most one leading copy of `f` removed. */
  function StripLeading(s: string, f: string): (r: string)
    ensures StartsWith(s, f) ==> s == f + r
    ensures !StartsWith(s, f) ==> r == s
  {
    if StartsWith(s, f) then s[|f|..] else s
  }

  /** At most one trailing copy of `f` removed. */
  function StripTrailing(s: string, f: string): (r: string)
    ensures EndsWith(s, f) ==> s == r + f
    ensures !EndsWith(s, f) ==> r == s
  {
    if EndsWith(s, f) then s[..|s| - |f|] else s
  }

  /**
   * `.replace(/^```latex\n/, '').replace(/^```\n/, '').replace(/\n```$/, '')`:
   * without the multiline flag `^` and `$` anchor at the ends of the string.
   */
  function StripFences(s: string): (r: string) {
    StripTrailing(StripLeading(StripLeading(s, FenceLatex), FenceOpen), FenceClose)
  }

  /** Text that neither starts nor ends with a fence is left as it is. */
  lemma UnfencedUnchanged(s: string)
    requires !StartsWith(s, FenceLatex) && !StartsWith(s, FenceOpen) && !EndsWith(s, FenceClose)
    ensures StripFences(s) == s
  {
  }

  /** A block fenced as "```latex" is unwrapped to its body. */
  lemma FencedLatexUnwrapped(b: string)
    requires !StartsWith(b + FenceClose, FenceOpen)
    ensures StripFences(FenceLatex + b + FenceClose) == b
  {
    var s := FenceLatex + b + FenceClose;
    assert StartsWith(s, FenceLatex) by { assert s[..|FenceLatex|] == FenceLatex; }
    assert StripLeading(s, FenceLatex) == b + FenceClose by {
      assert s[|FenceLatex|..] == b + FenceClose;
    }
    var t := b + FenceClose;
    assert EndsWith(t, FenceClose) by { assert t[|t| - |FenceClose|..] == FenceClose; }
    assert t[..|t| - |FenceClose|] == b;
  }

  /** A block fenced as plain "```" is unwrapped to its body. */
  lemma FencedPlainUnwrapped(b: string)
    ensures StripFences(FenceOpen + b + FenceClose) == b
  {
    var s := FenceOpen + b + FenceClose;
    assert !StartsWith(s, FenceLatex) by { assert s[3] == '\n'; }
    assert StartsWith(s, FenceOpen) by { assert s[..|FenceOpen|] == FenceOpen; }
    assert s[|FenceOpen|..] == b + FenceClose;
    var t := b + FenceClose;
    assert EndsWith(t, FenceClose) by { assert t[|t| - |FenceClose|..] == FenceClose; }
    assert t[..|t| - |FenceClose|] == b;
  }

  /** Line 76 and 78: the LaTeX section, trimmed and unfenced. */
  function LatexSection(text: string, start: int, end: int): string {
    StripFences(Trim(Substring(text, start, end)))
  }

  /** Line 80: the summary section, trimmed. */
  function SummarySection(text: string, start: int): (r: string)
    ensures |r| <= |text|
  {
    Trim(SubstringFrom(text, start))
  }

  /**
   * Lines 69-85 of `parseResponse` once `find` returned both markers: each
   * start is the marker's first index, and a start of -1 falls back.
   */
  function ParseAt(text: string, lm: string, sm: string): Parsed {
    var latexStart := IndexOf(text, lm);
    var summaryStart := IndexOf(text, sm);
    if latexStart != -1 && summaryStart != -1 then
      Parsed(LatexSection(text, latexStart + |lm|, summaryStart), SummarySection(text, summaryStart + |sm|))
    else
      Fallback(text)
  }

  /**
   * `parseResponse` over arbitrary marker tables: each field takes the first
   * entry of its own list. A marker `find` did not return (`undefined`), or
   * an empty one it did return, gives start index -1, which falls back.
   */
  function ParseLists(text: string, latexMarkers: seq<string>, summaryMarkers: seq<string>): (r: Parsed)
    ensures (!AnyFound(latexMarkers, text) || !AnyFound(summaryMarkers, text)
             || FindMarker(latexMarkers, text) == Some("") || FindMarker(summaryMarkers, text) == Some(""))
        <==> r == Fallback(text)
  {
    FindMarkerFound(latexMarkers, text);
    FindMarkerFound(summaryMarkers, text);
    match (FindMarker(latexMarkers, text), FindMarker(summaryMarkers, text))
    case (Some(lm), Some(sm)) =>
      // `latexMarker ? text.indexOf(latexMarker) : -1`: an empty marker is falsy
      if lm == "" || sm == "" then Fallback(text) else ParseAt(text, lm, sm)
    case _ => Fallback(text)
  }

  /**
   * `parseResponse(text)`. It has no precondition: every string yields a pair.
   * It falls back exactly when a marker list has no entry in the text.
   */
  function ParseResponse(text: string): (r: Parsed)
    ensures (!AnyFound(LatexMarkers, text) || !AnyFound(SummaryMarkers, text)) <==> r == Fallback(text)
  {
    NoEmptyMarker(LatexMarkers, text);
    NoEmptyMarker(SummaryMarkers, text);
    ParseLists(text, LatexMarkers, SummaryMarkers)
  }

  /** A table without an empty entry never makes `find` return the empty string. */
  lemma NoEmptyMarker(markers: seq<string>, text: string)
    requires forall i :: 0 <= i < |markers| ==> |markers[i]| > 0
    ensures FindMarker(markers, text) != Some("")
  {
  }

  /** What `find` returns occurs in the text, and it returns something exactly when some entry occurs. */
  lemma FindMarkerFound(markers: seq<string>, text: string)
    ensures FindMarker(markers, text).Some? ==> Contains(text, FindMarker(markers, text).value)
    ensures FindMarker(markers, text).None? <==> !AnyFound(markers, text)
  {
  }

  /** Both marker searches are needed for the parsed branch, and each is answered by its own list. */
  lemma ParsedBranch(text: string, latexMarkers: seq<string>, summaryMarkers: seq<string>, lm: string, sm: string)
    requires Chosen(latexMarkers, text, lm) && Chosen(summaryMarkers, text, sm) && lm != "" && sm != ""
    ensures IndexOf(text, lm) >= 0 && IndexOf(text, sm) >= 0
    ensures ParseLists(text, latexMarkers, summaryMarkers)
         == Parsed(LatexSection(text, IndexOf(text, lm) + |lm|, IndexOf(text, sm)),
                   SummarySection(text, IndexOf(text, sm) + |sm|))
  {
    FindMarkerChosen(latexMarkers, text, lm);
    FindMarkerChosen(summaryMarkers, text, sm);
    assert FindMarker(latexMarkers, text) == Some(lm) && FindMarker(summaryMarkers, text) == Some(sm);
    assert Contains(text, lm) && Contains(text, sm);
    assert ParseLists(text, latexMarkers, summaryMarkers) == ParseAt(text, lm, sm);
  }


  /** The summary is the trimmed text after the first occurrence of the chosen summary marker. */
  lemma ParsedSummary(text: string, latexMarkers: seq<string>, summaryMarkers: seq<string>, lm: string, sm: string, k: int)
    requires Chosen(latexMarkers, text, lm) && Chosen(summaryMarkers, text, sm) && lm != "" && sm != ""
    requires OccursAt(text, sm, k) && forall j :: 0 <= j < k ==> !OccursAt(text, sm, j)
    ensures ParseLists(text, latexMarkers, summaryMarkers).summary == Trim(text[k + |sm|..])
  {
    ParsedBranch(text, latexMarkers, summaryMarkers, lm, sm);
    IndexOfIsFirst(text, sm, k);
    var r := ParseLists(text, latexMarkers, summaryMarkers);
    assert r.summary == SummarySection(text, k + |sm|);
    assert SubstringFrom(text, k + |sm|) == text[k + |sm|..];
  }

  /**
   * The LaTeX is the fence-stripped trim of the text between the end of the
   * first LaTeX marker and the start of the first summary marker; when the
   * summary marker starts first, `substring` swaps its bounds.
   */
  lemma ParsedLatex(text: string, latexMarkers: seq<string>, summaryMarkers: seq<string>,
                    lm: string, sm: string, kl: int, ks: int)
    requires Chosen(latexMarkers, text, lm) && Chosen(summaryMarkers, text, sm) && lm != "" && sm != ""
    requires OccursAt(text, lm, kl) && forall j :: 0 <= j < kl ==> !OccursAt(text, lm, j)
    requires OccursAt(text, sm, ks) && forall j :: 0 <= j < ks ==> !OccursAt(text, sm, j)
    ensures kl + |lm| <= ks ==>
      ParseLists(text, latexMarkers, summaryMarkers).latex == StripFences(Trim(text[kl + |lm|..ks]))
    ensures ks < kl + |lm| ==>
      ParseLists(text, latexMarkers, summaryMarkers).latex == StripFences(Trim(text[ks..kl + |lm|]))
  {
    ParsedBranch(text, latexMarkers, summaryMarkers, lm, sm);
    LatexFromFirstOccurrences(text, lm, sm, kl, ks);
  }

  /** The LaTeX section between the first occurrences `kl` of `lm` and `ks` of `sm`. */
  lemma LatexFromFirstOccurrences(text: string, lm: string, sm: string, kl: int, ks: int)
    requires OccursAt(text, lm, kl) && forall j :: 0 <= j < kl ==> !OccursAt(text, lm, j)
    requires OccursAt(text, sm, ks) && forall j :: 0 <= j < ks ==> !OccursAt(text, sm, j)
    ensures kl + |lm| <= ks ==>
      LatexSection(text, IndexOf(text, lm) + |lm|, IndexOf(text, sm)) == StripFences(Trim(text[kl + |lm|..ks]))
    ensures ks < kl + |lm| ==>
      LatexSection(text, IndexOf(text, lm) + |lm|, IndexOf(text, sm)) == StripFences(Trim(text[ks..kl + |lm|]))
  {
    LatexAtFirstOccurrences(text, lm, sm, kl, ks);
    LatexBetween(text, kl + |lm|, ks);
  }

  /** The LaTeX section runs from the end of the first `lm` at `kl` to the first `sm` at `ks`. */
  lemma LatexAtFirstOccurrences(text: string, lm: string, sm: string, kl: int, ks: int)
    requires OccursAt(text, lm, kl) && forall j :: 0 <= j < kl ==> !OccursAt(text, lm, j)
    requires OccursAt(text, sm, ks) && forall j :: 0 <= j < ks ==> !OccursAt(text, sm, j)
    ensures LatexSection(text, IndexOf(text, lm) + |lm|, IndexOf(text, sm)) == LatexSection(text, kl + |lm|, ks)
  {
    IndexOfIsFirst(text, lm, kl);
    IndexOfIsFirst(text, sm, ks);
    SectionAtStarts(text, IndexOf(text, lm) + |lm|, IndexOf(text, sm), kl + |lm|, ks);
  }

  /** The LaTeX section depends only on its two bounds. */
  lemma SectionAtStarts(text: string, a1: int, b1: int, a2: int, b2: int)
    requires a1 == a2 && b1 == b2
    ensures LatexSection(text, a1, b1) == LatexSection(text, a2, b2)
  {
  }

  /** The LaTeX section between two positions inside the text, in either order. */
  lemma LatexBetween(text: string, a: int, b: int)
    requires 0 <= a <= |text| && 0 <= b <= |text|
    ensures a <= b ==> LatexSection(text, a, b) == StripFences(Trim(text[a..b]))
    ensures b < a ==> LatexSection(text, a, b) == StripFences(Trim(text[b..a]))
  {
    SubstringWithin(text, a, b);
  }

  /** `substring` with both bounds inside the text: the slice between them, in either order. */
  lemma SubstringWithin(text: string, a: int, b: int)
    requires 0 <= a <= |text| && 0 <= b <= |text|
    ensures a <= b ==> Substring(text, a, b) == text[a..b]
    ensures b < a ==> Substring(text, a, b) == text[b..a]
  {
  }

  /**
   * A reply laid out as marker, body, marker, summary parses to the trimmed,
   * unfenced body and the trimmed summary, provided the markers are the
   * highest-priority ones present and the summary marker does not occur
   * earlier.
   */
  lemma WellFormedReply(text: string, latexMarkers: seq<string>, summaryMarkers: seq<string>,
                        lm: string, body: string, sm: string, rest: string)
    requires text == lm + body + sm + rest
    requires Chosen(latexMarkers, text, lm) && Chosen(summaryMarkers, text, sm) && lm != "" && sm != ""
    requires forall k :: 0 <= k < |lm| + |body| ==> !OccursAt(text, sm, k)
    ensures ParseLists(text, latexMarkers, summaryMarkers) == Parsed(StripFences(Trim(body)), Trim(rest))
  {
    ReplySections(text, lm, body, sm, rest);
    ParsedBranch(text, latexMarkers, summaryMarkers, lm, sm);
  }

  /** In a reply laid out as marker, body, marker, rest, the two sections are the body and the rest. */
  lemma ReplySections(text: string, lm: string, body: string, sm: string, rest: string)
    requires text == lm + body + sm + rest
    requires forall k :: 0 <= k < |lm| + |body| ==> !OccursAt(text, sm, k)
    ensures LatexSection(text, IndexOf(text, lm) + |lm|, IndexOf(text, sm)) == StripFences(Trim(body))
    ensures SummarySection(text, IndexOf(text, sm) + |sm|) == Trim(rest)
  {
    var ks := |lm| + |body|;
    assert IndexOf(text, lm) == 0 by { assert text[..|lm|] == lm; }
    assert IndexOf(text, sm) == ks by {
      assert text[ks..ks + |sm|] == sm;
      IndexOfIsFirst(text, sm, ks);
    }
    assert text[|lm|..ks] == body;
    assert text[ks + |sm|..] == rest;
  }


  /**
   * The two lists are searched independently: a Spanish LaTeX marker with only
   * the English summary marker still parses, pairing the two languages.
   */
  lemma MixedLanguagesParse(text: string)
    requires Contains(text, LatexMarkers[0])
    requires !Contains(text, SummaryMarkers[0]) && Contains(text, SummaryMarkers[1])
    ensures FindMarker(LatexMarkers, text) == Some(LatexMarkers[0])
    ensures FindMarker(SummaryMarkers, text) == Some(SummaryMarkers[1])
    ensures ParseResponse(text) != Fallback(text)
    ensures ParseResponse(text).summary
         == Trim(SubstringFrom(text, IndexOf(text, SummaryMarkers[1]) + |SummaryMarkers[1]|))
  {
    var lm, sm := LatexMarkers[0], SummaryMarkers[1];
    assert Chosen(LatexMarkers, text, lm);
    assert Chosen(SummaryMarkers, text, sm);
    FindMarkerChosen(LatexMarkers, text, lm);
    FindMarkerChosen(SummaryMarkers, text, sm);
    ParsedBranch(text, LatexMarkers, SummaryMarkers, lm, sm);
  }

  // ---------------------------------------------------------------------------
  // The prompt template

  const JobPlaceholder := "${jobDescription}"
  const LatexPlaceholder := "${resumeLatex}"
  const NamePlaceholder := "${resumeName}"

  /**
   * The prompt as `optimizeCV` builds it: three chained `replace` calls with
   * string patterns, each replacing the first occurrence only and each
   * interpreting `$` patterns in the inserted value.
   */
  function FillTemplate(template: string, jobDescription: string, resumeLatex: string, resumeName: string): string {
    ReplaceFirst(
      ReplaceFirst(
        ReplaceFirst(template, JobPlaceholder, jobDescription),
        LatexPlaceholder, resumeLatex),
      NamePlaceholder, resumeName)
  }

  /** A template without placeholders is sent as it is. */
  lemma FillTemplateNoPlaceholders(template: string, jd: string, rl: string, rn: string)
    requires !Contains(template, JobPlaceholder)
    requires !Contains(template, LatexPlaceholder)
    requires !Contains(template, NamePlaceholder)
    ensures FillTemplate(template, jd, rl, rn) == template
  {
  }

  /** A placeholder (which starts with `$`) occurs nowhere before the first `$` of a string. */
  lemma NoPlaceholderBefore(s: string, p: string, q: int)
    requires |p| > 0 && p[0] == '$'
    requires 0 <= q <= |s| && '$' !in s[..q]
    ensures forall j :: 0 <= j < q ==> !OccursAt(s, p, j)
  {
    forall j | 0 <= j < q ensures !OccursAt(s, p, j) {
      assert s[..q][j] == s[j];
      if j + |p| <= |s| {
        assert s[j..j + |p|][0] == s[j];
      }
    }
  }

  /** One `replace` step on a template whose first `$` starts the placeholder. */
  lemma ReplaceStep(pre: string, p: string, post: string, v: string)
    requires |p| > 0 && p[0] == '$'
    requires '$' !in pre && '$' !in v
    ensures ReplaceFirst(pre + p + post, p, v) == pre + v + post
  {
    var s := pre + p + post;
    assert OccursAt(s, p, |pre|) by { assert s[|pre|..|pre| + |p|] == p; }
    assert s[..|pre|] == pre;
    NoPlaceholderBefore(s, p, |pre|);
    ReplaceFirstAt(s, p, v, |pre|);
    assert s[|pre| + |p|..] == post;
  }

  /**
   * With one copy of each placeholder, in order, and no other `$` in the
   * template or the values, each placeholder is replaced by its value.
   */
  lemma FillTemplateWellFormed(a: string, b: string, c: string, d: string, jd: string, rl: string, rn: string)
    requires '$' !in a && '$' !in b && '$' !in c && '$' !in d
    requires '$' !in jd && '$' !in rl && '$' !in rn
    ensures FillTemplate(a + JobPlaceholder + b + LatexPlaceholder + c + NamePlaceholder + d, jd, rl, rn)
         == a + jd + b + rl + c + rn + d
  {
    ReplaceChain(a, JobPlaceholder, b, LatexPlaceholder, c, NamePlaceholder, d, jd, rl, rn);
  }

  /** Three `replace` steps over patterns that each start with the text's only `$` signs. */
  lemma ReplaceChain(a: string, p: string, b: string, q: string, c: string, r: string, d: string,
                     jd: string, rl: string, rn: string)
    requires |p| > 0 && p[0] == '$' && |q| > 0 && q[0] == '$' && |r| > 0 && r[0] == '$'
    requires '$' !in a && '$' !in b && '$' !in c && '$' !in d
    requires '$' !in jd && '$' !in rl && '$' !in rn
    ensures ReplaceFirst(ReplaceFirst(ReplaceFirst(a + p + b + q + c + r + d, p, jd), q, rl), r, rn)
         == a + jd + b + rl + c + rn + d
  {
    var t0 := a + p + b + q + c + r + d;
    var post1 := b + q + c + r + d;
    Regroup(a, p, b, q, c + r + d);
    assert t0 == a + p + post1;
    ReplaceStep(a, p, post1, jd);
    var t1 := ReplaceFirst(t0, p, jd);
    var pre2, post2 := a + jd + b, c + r + d;
    Regroup(a, jd, b, q, post2);
    assert t1 == pre2 + q + post2;
    ReplaceStep(pre2, q, post2, rl);
    var t2 := ReplaceFirst(t1, q, rl);
    var pre3 := pre2 + rl + c;
    Regroup(pre2, rl, c, r, d);
    assert t2 == pre3 + r + d;
    ReplaceStep(pre3, r, d, rn);
  }

  /** Re-association of a five-part concatenation, used to line up the template at each step. */
  lemma Regroup(p: string, q: string, r: string, s: string, t: string)
    ensures p + q + (r + s + t) == (p + q + r) + s + t
    ensures p + q + r + s + t == p + q + (r + s + t)
  {
  }

  /**
   * `replace` interprets `$` patterns in the value: a LaTeX résumé holding
   * display math `$$x$$` reaches the prompt as `$x$`, while a verbatim
   * splice keeps it.
   */
  lemma DollarPatternsRewritten(x: string)
    requires '$' !in x && '{' !in x
    ensures FillTemplate(LatexPlaceholder, "", "$$" + x + "$$", "") == "$" + x + "$"
    ensures FillTemplateVerbatim(LatexPlaceholder, "", "$$" + x + "$$", "") == "$$" + x + "$$"
  {
    var l, math, shown := LatexPlaceholder, "$$" + x + "$$", "$" + x + "$";
    MissingCharNotContained(l, JobPlaceholder, 'j');
    ReplaceFirstAbsent(l, JobPlaceholder, "");
    assert ReplaceFirstVerbatim(l, JobPlaceholder, "") == l;
    DisplayMathCollapsed(l, x);
    assert '{' !in shown && '{' !in math;
    MissingCharNotContained(shown, NamePlaceholder, '{');
    ReplaceFirstAbsent(shown, NamePlaceholder, "");
    MissingCharNotContained(math, NamePlaceholder, '{');
    assert ReplaceFirstVerbatim(math, NamePlaceholder, "") == math;
  }

  /** Replacing a whole text by `$$x$$` gives `$x$`, the verbatim splice `$$x$$`. */
  lemma DisplayMathCollapsed(p: string, x: string)
    requires '$' !in x
    ensures ReplaceFirst(p, p, "$$" + x + "$$") == "$" + x + "$"
    ensures ReplaceFirstVerbatim(p, p, "$$" + x + "$$") == "$$" + x + "$$"
  {
    ReplaceWholeText(p, "$$" + x + "$$");
    DoubledDollarsCollapse(x, p);
  }

  /** Replacing a whole text: the replacement pattern sees nothing before or after the match. */
  lemma ReplaceWholeText(p: string, rep: string)
    ensures ReplaceFirst(p, p, rep) == Substitution(rep, p, "", "")
    ensures ReplaceFirstVerbatim(p, p, rep) == rep
  {
    WholeTextMatches(p);
    var before, after := p[..0], p[|p|..];
    assert before == "" && after == "";
    var sub := Substitution(rep, p, before, after);
    assert ReplaceFirst(p, p, rep) == before + sub + after;
    EmptyEnds(before, sub, after);
    assert ReplaceFirstVerbatim(p, p, rep) == before + rep + after;
    EmptyEnds(before, rep, after);
  }

  /** A text's first occurrence in itself is at 0. */
  lemma WholeTextMatches(p: string)
    ensures IndexOf(p, p) == 0
  {
    assert p[0..|p|] == p;
    IndexOfIsFirst(p, p, 0);
  }

  /** Empty strings on both sides of a concatenation drop out. */
  lemma EmptyEnds(a: string, x: string, b: string)
    requires a == "" && b == ""
    ensures a + x + b == x
  {
  }

  /** The replacement pattern `$$x$$` stands for `$x$` whatever was matched. */
  lemma DoubledDollarsCollapse(x: string, matched: string)
    requires '$' !in x
    ensures Substitution("$$" + x + "$$", matched, "", "") == "$" + x + "$"
  {
    var math := "$$" + x + "$$";
    assert math[2..] == x + "$$";
    SubstitutionLiteralHead(x, "$$", matched, "", "");
    assert "$$"[2..] == "";
  }

  /** The prompt built with each value spliced in literally, as `replace(p, () => v)` would. */
  function FillTemplateVerbatim(template: string, jobDescription: string, resumeLatex: string, resumeName: string): string {
    ReplaceFirstVerbatim(
      ReplaceFirstVerbatim(
        ReplaceFirstVerbatim(template, JobPlaceholder, jobDescription),
        LatexPlaceholder, resumeLatex),
      NamePlaceholder, resumeName)
  }

  /**
   * A pattern whose only `$` is its first character cannot overlap a copy of
   * itself, so when `pre` does not contain it, the copy right after `pre` is
   * the first occurrence.
   */
  lemma SpliceStep(pre: string, p: string, post: string, v: string)
    requires |p| > 0 && p[0] == '$' && '$' !in p[1..]
    requires !Contains(pre, p)
    ensures ReplaceFirstVerbatim(pre + p + post, p, v) == pre + v + post
  {
    var s := pre + p + post;
    var k := |pre|;
    assert OccursAt(s, p, k) by { assert s[k..k + |p|] == p; }
    IndexFromFirst(pre, p, 0);
    forall j | 0 <= j < k ensures !OccursAt(s, p, j) {
      if j + |p| <= k {
        assert !OccursAt(pre, p, j);
        assert s[j..j + |p|] == pre[j..j + |p|];
      } else if j + |p| <= |s| {
        var m := k - j;
        assert p[1..][m - 1] == p[m];
        assert p[m] != '$';
        assert s[j..j + |p|][m] == s[k] == p[0];
        assert s[j..j + |p|][m] != p[m];
      }
    }
    assert s[..k] == pre;
    assert s[k + |p|..] == post;
    ReplaceFirstVerbatimAt(s, p, v, k);
  }

  /**
   * With the verbatim splice, each placeholder is replaced by its value with
   * no condition on the values' characters; it is enough that no placeholder
   * already occurs in the text before its own slot.
   */
  lemma FillTemplateVerbatimWellFormed(a: string, b: string, c: string, d: string, jd: string, rl: string, rn: string)
    requires !Contains(a, JobPlaceholder)
    requires !Contains(a + jd + b, LatexPlaceholder)
    requires !Contains(a + jd + b + rl + c, NamePlaceholder)
    ensures FillTemplateVerbatim(a + JobPlaceholder + b + LatexPlaceholder + c + NamePlaceholder + d, jd, rl, rn)
         == a + jd + b + rl + c + rn + d
  {
    PlaceholderShape(JobPlaceholder);
    PlaceholderShape(LatexPlaceholder);
    PlaceholderShape(NamePlaceholder);
    SpliceChain(a, JobPlaceholder, b, LatexPlaceholder, c, NamePlaceholder, d, jd, rl, rn);
  }

  /** `${name}` with a name free of `$` has its only `$` at the front. */
  lemma PlaceholderShape(p: string)
    requires p == JobPlaceholder || p == LatexPlaceholder || p == NamePlaceholder
    ensures |p| > 0 && p[0] == '$' && '$' !in p[1..]
  {
  }

  /** Three verbatim splices over patterns whose only `$` is their first character. */
  lemma SpliceChain(a: string, p: string, b: string, q: string, c: string, r: string, d: string,
                    jd: string, rl: string, rn: string)
    requires |p| > 0 && p[0] == '$' && '$' !in p[1..]
    requires |q| > 0 && q[0] == '$' && '$' !in q[1..]
    requires |r| > 0 && r[0] == '$' && '$' !in r[1..]
    requires !Contains(a, p) && !Contains(a + jd + b, q) && !Contains(a + jd + b + rl + c, r)
    ensures ReplaceFirstVerbatim(ReplaceFirstVerbatim(ReplaceFirstVerbatim(a + p + b + q + c + r + d, p, jd), q, rl), r, rn)
         == a + jd + b + rl + c + rn + d
  {
    NestAroundPlaceholders(a, p, b, q, c, r, d);
    SpliceThenRegroup(a, p, b, q, c + r + d, jd);
    SpliceThenRegroup(a + jd + b, q, c, r, d, rl);
    SpliceStep(a + jd + b + rl + c, r, d, rn);
  }

  /** One verbatim step, with the result regrouped around the next placeholder `q`. */
  lemma SpliceThenRegroup(x: string, p: string, y: string, q: string, z: string, v: string)
    requires |p| > 0 && p[0] == '$' && '$' !in p[1..]
    requires !Contains(x, p)
    ensures ReplaceFirstVerbatim(x + p + (y + q + z), p, v) == (x + v + y) + q + z
  {
    SpliceStep(x, p, y + q + z, v);
    Regroup(x, v, y, q, z);
  }

  /** The template, nested to the right around its first two placeholders. */
  lemma NestAroundPlaceholders(a: string, p: string, b: string, q: string, c: string, r: string, d: string)
    ensures a + p + b + q + c + r + d == a + p + (b + q + (c + r + d))
  {
  }

  /** For values without `$`, the as-written fill and the verbatim fill agree. */
  lemma FillTemplateAgreesWithoutDollar(template: string, jd: string, rl: string, rn: string)
    requires '$' !in jd && '$' !in rl && '$' !in rn
    ensures FillTemplate(template, jd, rl, rn) == FillTemplateVerbatim(template, jd, rl, rn)
  {
    ReplaceFirstLiteralValue(template, JobPlaceholder, jd);
    var t1 := ReplaceFirst(template, JobPlaceholder, jd);
    ReplaceFirstLiteralValue(t1, LatexPlaceholder, rl);
    var t2 := ReplaceFirst(t1, LatexPlaceholder, rl);
    ReplaceFirstLiteralValue(t2, NamePlaceholder, rn);
  }
}
