/**
 * backend/src/services/PdfService.ts: the LaTeX sanitiser that comments out
 * two pdfLaTeX-only directives before compiling with Tectonic, the paths of
 * the `.tex` source and the `.pdf` result, the choice of the Tectonic binary
 * and the mapping of a failed compilation to a fixed error.
 */
module Pdf {
  import opened Wrappers
  import opened JsString
  import opened Files

  const GlyphDirective := "\\input{glyphtounicode}"
  const UnicodeDirective := "\\pdfgentounicode=1"
  /** What the sanitiser puts in front of each directive. */
  const CommentMark := "% "

  const SystemTectonic := "/usr/local/bin/tectonic"
  const BundledTectonic := "tectonic/bin/tectonic"
  const TectonicHome := "/tmp"
  const PdfFailureMessage := "Failed to generate PDF"

  // ---------------------------------------------------------------------------
  // The sanitiser

  /** The two global replaces, in source order. */
  function Sanitize(latex: string): string {
    ReplaceAll(
      ReplaceAll(latex, GlyphDirective, CommentMark + GlyphDirective),
      UnicodeDirective, CommentMark + UnicodeDirective)
  }

  /** Removes the comment mark in front of each directive, undoing the passes in reverse order. */
  function Unsanitize(text: string): string {
    ReplaceAll(
      ReplaceAll(text, CommentMark + UnicodeDirective, UnicodeDirective),
      CommentMark + GlyphDirective, GlyphDirective)
  }

  /** The sanitiser only inserts comment marks: removing them gives the input back, so no two inputs collide. */
  lemma SanitizeRoundTrip(latex: string)
    ensures Unsanitize(Sanitize(latex)) == latex
  {
    var glyphPass := ReplaceAll(latex, GlyphDirective, CommentMark + GlyphDirective);
    assert '%' !in " " + UnicodeDirective;
    assert '%' !in " " + GlyphDirective;
    PrefixInsertionRoundTrip(glyphPass, UnicodeDirective, CommentMark);
    PrefixInsertionRoundTrip(latex, GlyphDirective, CommentMark);
  }

  /** Text holding neither directive passes through unchanged. */
  lemma SanitizeUnchanged(latex: string)
    requires !Contains(latex, GlyphDirective) && !Contains(latex, UnicodeDirective)
    ensures Sanitize(latex) == latex
  {
    ReplaceAllAbsent(latex, GlyphDirective, CommentMark + GlyphDirective);
    ReplaceAllAbsent(latex, UnicodeDirective, CommentMark + UnicodeDirective);
  }

  /** Neither directive can begin inside the other, nor inside a commented glyph directive. */
  lemma DirectivesApart(x: string)
    ensures NoMatchWithin(CommentMark + GlyphDirective, x, UnicodeDirective)
    ensures NoMatchWithin(GlyphDirective, x, UnicodeDirective)
    ensures NoMatchWithin(UnicodeDirective, x, GlyphDirective)
  {
    var c := CommentMark + GlyphDirective;
    forall i | 0 <= i < |c| && c[i] == UnicodeDirective[0]
      ensures i + 1 < |c| && c[i + 1] != UnicodeDirective[1]
    {
      assert i == 2;
    }
    NoMatchWithinByPairs(c, x, UnicodeDirective);
    forall i | 0 <= i < |GlyphDirective| && GlyphDirective[i] == UnicodeDirective[0]
      ensures i + 1 < |GlyphDirective| && GlyphDirective[i + 1] != UnicodeDirective[1]
    {
      assert i == 0;
    }
    NoMatchWithinByPairs(GlyphDirective, x, UnicodeDirective);
    forall i | 0 <= i < |UnicodeDirective| && UnicodeDirective[i] == GlyphDirective[0]
      ensures i + 1 < |UnicodeDirective| && UnicodeDirective[i + 1] != GlyphDirective[1]
    {
      assert i == 0;
    }
    NoMatchWithinByPairs(UnicodeDirective, x, GlyphDirective);
  }

  /** The first pass neither creates nor destroys an occurrence of the second directive. */
  lemma {:induction false} GlyphPassKeepsUnicodeCount(s: string)
    ensures MatchCount(ReplaceAll(s, GlyphDirective, CommentMark + GlyphDirective), UnicodeDirective)
         == MatchCount(s, UnicodeDirective)
    decreases |s|
  {
    var g, gc, u := GlyphDirective, CommentMark + GlyphDirective, UnicodeDirective;
    if |s| > 0 {
      var t := ReplaceAll(s, g, gc);
      if StartsWith(s, g) {
        var x := s[|g|..];
        assert s == g + x;
        assert t == gc + ReplaceAll(x, g, gc);
        DirectivesApart(ReplaceAll(x, g, gc));
        MatchCountSkipsPrefix(gc, ReplaceAll(x, g, gc), u);
        DirectivesApart(x);
        MatchCountSkipsPrefix(g, x, u);
        GlyphPassKeepsUnicodeCount(x);
      } else if StartsWith(s, u) {
        var x := s[|u|..];
        assert s == u + x;
        DirectivesApart(x);
        ReplaceAllSkipsPrefix(u, x, g, gc);
        var tx := ReplaceAll(x, g, gc);
        assert t == u + tx;
        assert StartsWith(u + tx, u) by { assert (u + tx)[..|u|] == u; }
        assert (u + tx)[|u|..] == tx;
        GlyphPassKeepsUnicodeCount(x);
      } else {
        if StartsWith(t, u) {
          CopiedPrefix(s, g, gc, u);
          assert false;
        }
        assert t[1..] == ReplaceAll(s[1..], g, gc);
        GlyphPassKeepsUnicodeCount(s[1..]);
      }
    }
  }

  /** Each directive occurrence in the input lengthens the output by the two characters of the comment mark. */
  lemma SanitizeLength(latex: string)
    ensures |Sanitize(latex)| == |latex| + 2 * (MatchCount(latex, GlyphDirective) + MatchCount(latex, UnicodeDirective))
  {
    var g, gc, u, uc := GlyphDirective, CommentMark + GlyphDirective, UnicodeDirective, CommentMark + UnicodeDirective;
    var glyphPass := ReplaceAll(latex, g, gc);
    assert |gc| - |g| == 2 && |uc| - |u| == 2;
    ReplaceAllLength(latex, g, gc);
    ReplaceAllLength(glyphPass, u, uc);
    GlyphPassKeepsUnicodeCount(latex);
    var m, n := MatchCount(latex, g), MatchCount(glyphPass, u);
    assert |glyphPass| == |latex| + m * 2;
    assert |Sanitize(latex)| == |glyphPass| + n * 2;
  }

  /** A text that starts with a commented glyph directive keeps it through the second pass. */
  lemma UnicodePassCopiesPrefix(v: string, x: string)
    requires NoMatchWithin(v, x, UnicodeDirective)
    ensures ReplaceAll(v + x, UnicodeDirective, CommentMark + UnicodeDirective)
         == v + ReplaceAll(x, UnicodeDirective, CommentMark + UnicodeDirective)
  {
    ReplaceAllSkipsPrefix(v, x, UnicodeDirective, CommentMark + UnicodeDirective);
  }

  /** The first pass comments out a lone glyph directive. */
  lemma GlyphPassOnGlyph()
    ensures ReplaceAll(GlyphDirective, GlyphDirective, CommentMark + GlyphDirective) == CommentMark + GlyphDirective
  {
    var g, gc := GlyphDirective, CommentMark + GlyphDirective;
    ReplaceAllAtStart(g, "", gc);
    assert g + "" == g && gc + "" == gc;
  }

  /** The second pass leaves a commented glyph directive alone. */
  lemma UnicodePassOnCommentedGlyph()
    ensures ReplaceAll(CommentMark + GlyphDirective, UnicodeDirective, CommentMark + UnicodeDirective)
         == CommentMark + GlyphDirective
  {
    var gc := CommentMark + GlyphDirective;
    DirectivesApart("");
    UnicodePassCopiesPrefix(gc, "");
    assert gc + "" == gc;
  }

  /** One pass comments out a lone glyph directive. */
  lemma SanitizeGlyph()
    ensures Sanitize(GlyphDirective) == CommentMark + GlyphDirective
  {
    GlyphPassOnGlyph();
    UnicodePassOnCommentedGlyph();
  }

  /** A second pass comments the commented directive again. */
  lemma SanitizeCommentedGlyph()
    ensures Sanitize(CommentMark + GlyphDirective) == CommentMark + (CommentMark + GlyphDirective)
  {
    var m, g, gc, u, uc := CommentMark, GlyphDirective, CommentMark + GlyphDirective, UnicodeDirective, CommentMark + UnicodeDirective;
    assert NoMatchWithin(m, g, g) by {
      NoMatchWithinByPairs(m, g, g);
    }
    ReplaceAllSkipsPrefix(m, g, g, gc);
    GlyphPassOnGlyph();
    assert ReplaceAll(gc, g, gc) == m + gc;
    assert NoMatchWithin(m, gc, u) by {
      NoMatchWithinByPairs(m, gc, u);
    }
    UnicodePassCopiesPrefix(m, gc);
    UnicodePassOnCommentedGlyph();
  }

  /** Sanitising twice is not sanitising once: a second pass comments the directive out again. */
  lemma SanitizeNotIdempotent()
    ensures Sanitize(GlyphDirective) == CommentMark + GlyphDirective
    ensures Sanitize(Sanitize(GlyphDirective)) == CommentMark + CommentMark + GlyphDirective
    ensures Sanitize(Sanitize(GlyphDirective)) != Sanitize(GlyphDirective)
  {
    SanitizeGlyph();
    SanitizeCommentedGlyph();
    assert CommentMark + (CommentMark + GlyphDirective) == CommentMark + CommentMark + GlyphDirective;
    assert |CommentMark + CommentMark + GlyphDirective| != |CommentMark + GlyphDirective|;
  }

  // ---------------------------------------------------------------------------
  // Paths, binary and invocation

  /** Line 10: the LaTeX source written before compiling. */
  function TexPath(outputDir: string, filename: string): string {
    Join(outputDir, filename + ".tex")
  }

  /** Line 37: the path reported on success. */
  function PdfPath(outputDir: string, filename: string): string {
    Join(outputDir, filename + ".pdf")
  }

  /** Both paths lie in the output directory and share their base name; only the extension differs. */
  lemma PathsShareBase(outputDir: string, filename: string)
    requires '/' !in filename
    ensures Dirname(TexPath(outputDir, filename)) == outputDir
    ensures Dirname(PdfPath(outputDir, filename)) == outputDir
    ensures TexPath(outputDir, filename) == Join(outputDir, filename) + ".tex"
    ensures PdfPath(outputDir, filename) == Join(outputDir, filename) + ".pdf"
    ensures TexPath(outputDir, filename) != PdfPath(outputDir, filename)
  {
    assert '/' !in filename + ".tex";
    assert '/' !in filename + ".pdf";
    DirnameJoin(outputDir, filename + ".tex");
    DirnameJoin(outputDir, filename + ".pdf");
    var t, p := TexPath(outputDir, filename), PdfPath(outputDir, filename);
    assert t[|t| - 3] == 't' && p[|p| - 3] == 'p';
  }

  /** Line 23: the binary bundled with the application. */
  function BundledTectonicPath(cwd: string): string {
    Join(cwd, BundledTectonic)
  }

  /** Lines 22-27: the bundled binary when that path exists, the system one otherwise. */
  function ChooseBinary(bundledExists: bool, cwd: string): string {
    if bundledExists then BundledTectonicPath(cwd) else SystemTectonic
  }

  /** Lines 33-35: the source file and the output directory as arguments, `HOME` set to `/tmp`. */
  function TectonicCall(binary: string, outputDir: string, filename: string): Invocation {
    ExecFile(binary, [TexPath(outputDir, filename), "--outdir", outputDir], TectonicHome)
  }

  // ---------------------------------------------------------------------------
  // The whole call, as a function of the state it starts from

  /**
   * The outcome of `generatePdf`: the write's error, or on a written source
   * the compiler's verdict, a failure being reported with the fixed message.
   * `tectonic` decides success from the invocation and the files present.
   */
  function PdfOutcome(files: map<string, string>, dirs: set<string>, cwd: string, latex: string,
                      outputDir: string, filename: string, writeFault: Option<WriteFault>,
                      tectonic: (Invocation, map<string, string>) -> bool): Result<string, Error>
  {
    var tex := TexPath(outputDir, filename);
    var e := WriteError(files, dirs, tex, writeFault);
    if e.Some? then Failure(e.value)
    else
      var written := files[tex := Sanitize(latex)];
      var bundled := BundledTectonicPath(cwd);
      var binary := ChooseBinary(bundled in written || bundled in dirs, cwd);
      if tectonic(TectonicCall(binary, outputDir, filename), written) then Success(PdfPath(outputDir, filename))
      else Failure(Thrown(PdfFailureMessage))
  }

  /**
   * The files after `generatePdf`: the sanitised source is left in place
   * once written, and a write that fails after opening the file leaves what
   * it had written so far.
   */
  function PdfFiles(files: map<string, string>, dirs: set<string>, latex: string,
                    outputDir: string, filename: string, writeFault: Option<WriteFault>): map<string, string>
  {
    FilesAfterWrite(files, dirs, TexPath(outputDir, filename), Sanitize(latex), writeFault)
  }

  /**
   * Every outcome of `generatePdf`: success reports the `.pdf` path next to
   * the source; a write error propagates as raised; a compiler failure is
   * always the fixed message, whatever the compiler said.
   */
  lemma PdfOutcomeCases(files: map<string, string>, dirs: set<string>, cwd: string, latex: string,
                        outputDir: string, filename: string, writeFault: Option<WriteFault>,
                        tectonic: (Invocation, map<string, string>) -> bool)
    ensures var r := PdfOutcome(files, dirs, cwd, latex, outputDir, filename, writeFault, tectonic);
            var e := WriteError(files, dirs, TexPath(outputDir, filename), writeFault);
            && (r.Success? ==> e.None? && r.value == PdfPath(outputDir, filename))
            && (e.Some? ==> r == Failure(e.value))
            && (r.Failure? && e.None? ==> r.error == Thrown(PdfFailureMessage))
    ensures var f := PdfFiles(files, dirs, latex, outputDir, filename, writeFault);
            var tex := TexPath(outputDir, filename);
            && f.Keys <= files.Keys + {tex}
            && (forall p :: p in files && p != tex ==> p in f && f[p] == files[p])
            && (WriteError(files, dirs, tex, writeFault).None? ==> tex in f && f[tex] == Sanitize(latex))
            && (writeFault.Some? && writeFault.value.written.Some? && WriteError(files, dirs, tex, None).None? ==>
                  tex in f && f[tex] == WrittenPrefix(Sanitize(latex), writeFault.value.written.value))
  {
    WriteEffect(files, dirs, TexPath(outputDir, filename), Sanitize(latex), writeFault);
  }

  /**
   * Once the source is written, `generatePdf` succeeds exactly when Tectonic
   * succeeds on the files as written, started with `execFile` on
   * `[<id>.tex, "--outdir", outputDir]` and `HOME=/tmp`; the program is the
   * bundled `tectonic/bin/tectonic` under the working directory when that
   * path exists (as a file or a directory), `/usr/local/bin/tectonic`
   * otherwise.
   */
  lemma CompilerInvocation(files: map<string, string>, dirs: set<string>, cwd: string, latex: string,
                           outputDir: string, filename: string, writeFault: Option<WriteFault>,
                           tectonic: (Invocation, map<string, string>) -> bool)
    ensures var tex := outputDir + "/" + filename + ".tex";
            var written := files[tex := Sanitize(latex)];
            var bundled := cwd + "/" + BundledTectonic;
            var binary := if bundled in written || bundled in dirs then bundled else SystemTectonic;
            WriteError(files, dirs, tex, writeFault).None? ==>
              (PdfOutcome(files, dirs, cwd, latex, outputDir, filename, writeFault, tectonic).Success?
               <==> tectonic(ExecFile(binary, [tex, "--outdir", outputDir], TectonicHome), written))
  {
    assert TexPath(outputDir, filename) == outputDir + "/" + filename + ".tex";
  }

  /**
   * Whether `generatePdf` succeeds depends on the LaTeX only through its
   * sanitised form: two inputs with the same sanitised text have the same
   * outcome.
   */
  lemma OutcomeDependsOnSanitised(files: map<string, string>, dirs: set<string>, cwd: string,
                                  latex1: string, latex2: string,
                                  outputDir: string, filename: string, writeFault: Option<WriteFault>,
                                  tectonic: (Invocation, map<string, string>) -> bool)
    requires Sanitize(latex1) == Sanitize(latex2)
    ensures PdfOutcome(files, dirs, cwd, latex1, outputDir, filename, writeFault, tectonic)
         == PdfOutcome(files, dirs, cwd, latex2, outputDir, filename, writeFault, tectonic)
    ensures latex1 == latex2
  {
    SanitizeRoundTrip(latex1);
    SanitizeRoundTrip(latex2);
  }

  class PdfService {
    constructor() {}

    /**
     * `generatePdf(latexContent, outputDir, filename)`: write the sanitised
     * source, pick the binary, run it. `cwd` is `process.cwd()`; `writeFault`
     * and `tectonic` stand for the environment.
     */
    method GeneratePdf(fs: FileSystem, cwd: string, latex: string, outputDir: string, filename: string,
                       writeFault: Option<WriteFault>, tectonic: (Invocation, map<string, string>) -> bool)
      returns (r: Result<string, Error>)
      requires fs.Valid()
      modifies fs
      ensures fs.Valid() && fs.dirs == old(fs.dirs)
      ensures r == PdfOutcome(old(fs.files), old(fs.dirs), cwd, latex, outputDir, filename, writeFault, tectonic)
      ensures fs.files == PdfFiles(old(fs.files), old(fs.dirs), latex, outputDir, filename, writeFault)
    {
      var texFile := TexPath(outputDir, filename);
      var sanitized := Sanitize(latex);
      var written := fs.WriteFile(texFile, sanitized, writeFault);
      if written.Failure? {
        return Failure(written.error);
      }
      WriteEffect(old(fs.files), old(fs.dirs), texFile, sanitized, writeFault);
      var tectonicPath := SystemTectonic;
      var localTectonicPath := BundledTectonicPath(cwd);
      if fs.Exists(localTectonicPath) {
        tectonicPath := localTectonicPath;
      }
      var ok := tectonic(ExecFile(tectonicPath, [texFile, "--outdir", outputDir], TectonicHome), fs.files);
      if ok {
        r := Success(PdfPath(outputDir, filename));
      } else {
        r := Failure(Thrown(PdfFailureMessage));
      }
    }
  }
}
