/**
 * backend/src/usecases/GenerateDocxUseCase.ts: converts LaTeX to a Word
 * document with pandoc, through a scratch `.tex` file that is removed on
 * every way out of `execute`.
 */
module GenerateDocx {
  import opened Wrappers
  import opened Files

  /** Line 15: `path.join(process.cwd(), 'public', 'docx')`. */
  function PublicDocxDir(cwd: string): string {
    Join(Join(cwd, "public"), "docx")
  }

  /** Line 21: `path.join(process.cwd(), 'temp')`. */
  function TempDir(cwd: string): string {
    Join(cwd, "temp")
  }

  /** Line 29: the scratch source. */
  function TempTexPath(tempDir: string, fileId: string): string {
    Join(tempDir, fileId + ".tex")
  }

  /** Line 30: the document handed back. */
  function OutputDocxPath(publicDir: string, fileId: string): string {
    Join(publicDir, fileId + ".docx")
  }

  /** Line 38: the pandoc command line, both paths in double quotes. */
  function PandocCommand(tempTex: string, outputDocx: string): string {
    "pandoc \"" + tempTex + "\" --reference-doc=/app/template.docx -o \"" + outputDocx + "\""
  }

  /**
   * For paths without a double quote the command line names both paths
   * unambiguously: equal commands have equal scratch and output paths.
   */
  lemma PandocCommandInjective(t1: string, o1: string, t2: string, o2: string)
    requires '"' !in t1 && '"' !in t2
    requires PandocCommand(t1, o1) == PandocCommand(t2, o2)
    ensures t1 == t2 && o1 == o2
  {
    var mid := "\" --reference-doc=/app/template.docx -o \"";
    assert mid[0] == '"';
    QuotedPairInjective("pandoc \"", mid, "\"", t1, o1, t2, o2);
  }

  /** A quote-free field ended by a quote, then a second field, is recovered from the whole. */
  lemma QuotedPairInjective(pre: string, mid: string, post: string, t1: string, o1: string, t2: string, o2: string)
    requires |mid| > 0 && mid[0] == '"' && '"' !in t1 && '"' !in t2
    requires pre + t1 + mid + o1 + post == pre + t2 + mid + o2 + post
    ensures t1 == t2 && o1 == o2
  {
    var c1, c2 := pre + t1 + mid + o1 + post, pre + t2 + mid + o2 + post;
    if |t1| < |t2| {
      ShorterFieldDiffers(pre, mid, post, t1, o1, t2, o2);
    } else if |t2| < |t1| {
      ShorterFieldDiffers(pre, mid, post, t2, o2, t1, o1);
    }
    assert t1 == c1[|pre|..|pre| + |t1|];
    assert t2 == c2[|pre|..|pre| + |t2|];
    var k := |pre| + |t1| + |mid|;
    assert |o1| == |o2|;
    assert o1 == c1[k..k + |o1|];
    assert o2 == c2[k..k + |o2|];
  }

  /** Where the shorter field ends the one line has its closing quote and the other a character of the longer field. */
  lemma ShorterFieldDiffers(pre: string, mid: string, post: string, ta: string, oa: string, tb: string, ob: string)
    requires |mid| > 0 && mid[0] == '"' && '"' !in tb && |ta| < |tb|
    ensures pre + ta + mid + oa + post != pre + tb + mid + ob + post
  {
    var ca, cb := pre + ta + mid + oa + post, pre + tb + mid + ob + post;
    assert ca[|pre| + |ta|] == '"';
    assert cb[|pre| + |ta|] == tb[|ta|];
  }

  /** Both paths come from the same id, in their own directories, and they never coincide. */
  lemma PathsFromOneId(tempDir: string, publicDir: string, fileId: string)
    requires '/' !in fileId
    ensures Dirname(TempTexPath(tempDir, fileId)) == tempDir
    ensures Dirname(OutputDocxPath(publicDir, fileId)) == publicDir
    ensures Basename(TempTexPath(tempDir, fileId)) == fileId + ".tex"
    ensures Basename(OutputDocxPath(publicDir, fileId)) == fileId + ".docx"
    ensures TempTexPath(tempDir, fileId) != OutputDocxPath(publicDir, fileId)
  {
    var t, o := fileId + ".tex", fileId + ".docx";
    assert '/' !in t && '/' !in o;
    DirnameJoin(tempDir, t);
    DirnameJoin(publicDir, o);
    BasenameJoin(tempDir, t);
    BasenameJoin(publicDir, o);
    assert t[|t| - 1] == 'x' && o[|o| - 1] == 'x';
    assert t[|t| - 3] == 't' && o[|o| - 3] == 'o';
  }

  /** Distinct ids give distinct scratch files. */
  lemma TempTexPathInjective(tempDir: string, a: string, b: string)
    requires TempTexPath(tempDir, a) == TempTexPath(tempDir, b)
    ensures a == b
  {
    JoinInjective(tempDir, a + ".tex", b + ".tex");
    assert a == (a + ".tex")[..|a|];
    assert b == (b + ".tex")[..|b|];
  }

  /** Distinct ids give distinct documents. */
  lemma OutputDocxPathInjective(publicDir: string, a: string, b: string)
    requires OutputDocxPath(publicDir, a) == OutputDocxPath(publicDir, b)
    ensures a == b
  {
    JoinInjective(publicDir, a + ".docx", b + ".docx");
    assert a == (a + ".docx")[..|a|];
    assert b == (b + ".docx")[..|b|];
  }

  /**
   * The files once the `try` block is left: the scratch file written, or
   * partly written by a write that failed after opening it, or nothing
   * changed.
   */
  function FilesAfterTry(files: map<string, string>, dirs: set<string>, tempTex: string,
                         latex: string, writeFault: Option<WriteFault>): map<string, string>
  {
    FilesAfterWrite(files, dirs, tempTex, latex, writeFault)
  }

  /** How the `try` block ends: the output path, the write's error, or the failed command. */
  function TryOutcome(files: map<string, string>, dirs: set<string>, tempTex: string, outputDocx: string,
                      latex: string, writeFault: Option<WriteFault>,
                      pandoc: (Invocation, map<string, string>) -> bool): Result<string, Error>
  {
    var e := WriteError(files, dirs, tempTex, writeFault);
    if e.Some? then Failure(e.value)
    else if pandoc(Shell(PandocCommand(tempTex, outputDocx)), files[tempTex := latex]) then Success(outputDocx)
    else Failure(CommandFailed(PandocCommand(tempTex, outputDocx)))
  }

  /** The error the `finally` block raises, if any: the scratch path exists and cannot be unlinked. */
  function CleanupError(files: map<string, string>, dirs: set<string>, tempTex: string,
                        unlinkFault: Option<string>): Option<Error>
  {
    if tempTex in files || tempTex in dirs then UnlinkError(files, dirs, tempTex, unlinkFault) else None
  }

  /** The files after the `finally` block. */
  function FilesAfterCleanup(files: map<string, string>, dirs: set<string>, tempTex: string,
                             unlinkFault: Option<string>): map<string, string>
  {
    if CleanupError(files, dirs, tempTex, unlinkFault).None? then files - {tempTex} else files
  }

  /** `execute`'s outcome: an error thrown in `finally` replaces whatever the `try` block produced. */
  function DocxOutcome(tried: Result<string, Error>, cleanup: Option<Error>): Result<string, Error> {
    if cleanup.Some? then Failure(cleanup.value) else tried
  }

  /**
   * The cleanup guarantee: unless unlinking itself fails, the scratch path
   * holds no file after `execute`, on success and on failure alike; and no
   * other file is touched.
   */
  lemma CleanupOnEveryExit(files: map<string, string>, dirs: set<string>, tempTex: string,
                           latex: string, writeFault: Option<WriteFault>, unlinkFault: Option<string>)
    requires files.Keys !! dirs
    ensures var tried := FilesAfterTry(files, dirs, tempTex, latex, writeFault);
            var after := FilesAfterCleanup(tried, dirs, tempTex, unlinkFault);
            && (unlinkFault.None? ==> tempTex !in after)
            && after - {tempTex} == files - {tempTex}
  {
    WriteEffect(files, dirs, tempTex, latex, writeFault);
  }

  /**
   * Every outcome of `execute` when cleanup succeeds: the document path on a
   * successful conversion of the LaTeX as given, otherwise the write's error
   * or the failed command. A cleanup error masks all of these.
   */
  lemma DocxOutcomeCases(files: map<string, string>, dirs: set<string>, tempTex: string, outputDocx: string,
                         latex: string, writeFault: Option<WriteFault>,
                         pandoc: (Invocation, map<string, string>) -> bool, unlinkFault: Option<string>)
    ensures var tried := TryOutcome(files, dirs, tempTex, outputDocx, latex, writeFault, pandoc);
            var cleanup := CleanupError(FilesAfterTry(files, dirs, tempTex, latex, writeFault), dirs, tempTex, unlinkFault);
            var r := DocxOutcome(tried, cleanup);
            && (cleanup.Some? ==> r == Failure(cleanup.value))
            && (cleanup.None? && WriteError(files, dirs, tempTex, writeFault).Some? ==> r == Failure(WriteError(files, dirs, tempTex, writeFault).value))
            && (cleanup.None? && WriteError(files, dirs, tempTex, writeFault).None? ==>
                  (r == Success(outputDocx) <==> pandoc(Shell(PandocCommand(tempTex, outputDocx)), files[tempTex := latex])))
            && (r.Success? ==> r.value == outputDocx)
            && (r.Failure? && cleanup.None? && WriteError(files, dirs, tempTex, writeFault).None? ==>
                  r.error == CommandFailed(PandocCommand(tempTex, outputDocx)))
  {
  }

  /**
   * A write that fails after opening the scratch file (a full disk) leaves
   * it behind, holding the first `n` characters of the LaTeX, so the `finally` block finds it and unlinks it: the write's
   * error is the result and the file is gone, unless the unlink fails too,
   * in which case the unlink's error replaces the write's.
   */
  lemma PartialWriteCleanedUp(files: map<string, string>, dirs: set<string>, tempTex: string, outputDocx: string,
                              latex: string, code: string, n: nat,
                              pandoc: (Invocation, map<string, string>) -> bool, unlinkFault: Option<string>)
    requires files.Keys !! dirs
    requires WriteError(files, dirs, tempTex, None).None?
    ensures var fault := Some(WriteFault(code, Some(n)));
            var tried := FilesAfterTry(files, dirs, tempTex, latex, fault);
            var r := DocxOutcome(TryOutcome(files, dirs, tempTex, outputDocx, latex, fault, pandoc),
                                 CleanupError(tried, dirs, tempTex, unlinkFault));
            && tempTex in tried && tried[tempTex] == WrittenPrefix(latex, n)
            && (unlinkFault.None? ==>
                  r == Failure(IoError(code, tempTex)) && tempTex !in FilesAfterCleanup(tried, dirs, tempTex, unlinkFault))
            && (unlinkFault.Some? ==>
                  r == Failure(IoError(unlinkFault.value, tempTex)) && FilesAfterCleanup(tried, dirs, tempTex, unlinkFault) == tried)
  {
    WriteEffect(files, dirs, tempTex, latex, Some(WriteFault(code, Some(n))));
  }

  class GenerateDocxUseCase {
    var publicDir: string
    var tempDir: string

    /** The field assignments of the constructor (lines 15 and 21). */
    constructor Init(publicDocx: string, temp: string)
      ensures publicDir == publicDocx && tempDir == temp
    {
      publicDir := publicDocx;
      tempDir := temp;
    }

    /**
     * `new GenerateDocxUseCase()` (lines 13-25): create `public/docx`, then
     * `temp`, each unless it exists; a failing `mkdirSync` throws and stops.
     * `docxFault` and `tempFault` are errors the environment injects into
     * the two `mkdirSync` calls.
     */
    static method Create(fs: FileSystem, cwd: string, docxFault: Option<string>, tempFault: Option<string>) returns (r: Result<GenerateDocxUseCase, Error>)
      requires fs.Valid()
      modifies fs
      ensures fs.Valid() && fs.files == old(fs.files)
      ensures var first := EnsureDir(old(fs.files), old(fs.dirs), PublicDocxDir(cwd), docxFault);
              && (first.Failure? ==> r == Failure(first.error) && fs.dirs == old(fs.dirs))
              && (first.Success? ==>
                    var second := EnsureDir(old(fs.files), first.value, TempDir(cwd), tempFault);
                    && (second.Failure? ==> r == Failure(second.error) && fs.dirs == first.value)
                    && (second.Success? ==>
                          (r.Success? && fresh(r.value) && fs.dirs == second.value
                           && r.value.publicDir == PublicDocxDir(cwd) && r.value.tempDir == TempDir(cwd))))
    {
      var publicDocx := PublicDocxDir(cwd);
      if !fs.Exists(publicDocx) {
        var made := fs.MkdirRecursive(publicDocx, docxFault);
        if made.Failure? {
          return Failure(made.error);
        }
      }
      var temp := TempDir(cwd);
      if !fs.Exists(temp) {
        var made := fs.MkdirRecursive(temp, tempFault);
        if made.Failure? {
          return Failure(made.error);
        }
      }
      var useCase := new GenerateDocxUseCase.Init(publicDocx, temp);
      r := Success(useCase);
    }

    /**
     * `execute(latexContent)` (lines 27-48) for the id `uuidv4()` returned:
     * write the scratch source, run pandoc on it, and remove it in `finally`.
     * `pandoc` decides the command's success from the files present.
     */
    method Execute(fs: FileSystem, latex: string, fileId: string, writeFault: Option<WriteFault>,
                   pandoc: (Invocation, map<string, string>) -> bool, unlinkFault: Option<string>)
      returns (r: Result<string, Error>)
      requires fs.Valid()
      modifies fs
      ensures fs.Valid() && fs.dirs == old(fs.dirs)
      ensures var tempTex := TempTexPath(tempDir, fileId);
              var tried := FilesAfterTry(old(fs.files), old(fs.dirs), tempTex, latex, writeFault);
              && fs.files == FilesAfterCleanup(tried, old(fs.dirs), tempTex, unlinkFault)
              && r == DocxOutcome(TryOutcome(old(fs.files), old(fs.dirs), tempTex, OutputDocxPath(publicDir, fileId),
                                             latex, writeFault, pandoc),
                                  CleanupError(tried, old(fs.dirs), tempTex, unlinkFault))
      ensures unlinkFault.None? ==> TempTexPath(tempDir, fileId) !in fs.files
      ensures fs.files - {TempTexPath(tempDir, fileId)} == old(fs.files) - {TempTexPath(tempDir, fileId)}
    {
      var tempTexPath := TempTexPath(tempDir, fileId);
      var outputDocxPath := OutputDocxPath(publicDir, fileId);
      var command := PandocCommand(tempTexPath, outputDocxPath);
      // try
      var written := fs.WriteFile(tempTexPath, latex, writeFault);
      WriteEffect(old(fs.files), old(fs.dirs), tempTexPath, latex, writeFault);
      if written.Failure? {
        r := Failure(written.error);
      } else {
        var converted := pandoc(Shell(command), fs.files);
        if converted {
          r := Success(outputDocxPath);
        } else {
          r := Failure(CommandFailed(command));
        }
      }
      // finally
      if fs.Exists(tempTexPath) {
        var removed := fs.Unlink(tempTexPath, unlinkFault);
        if removed.Failure? {
          r := Failure(removed.error);
        }
      }
      CleanupOnEveryExit(old(fs.files), old(fs.dirs), tempTexPath, latex, writeFault, unlinkFault);
    }
  }
}
