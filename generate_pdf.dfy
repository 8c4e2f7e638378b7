/**
 * backend/src/usecases/GeneratePdfUseCase.ts: makes sure `public/pdfs`
 * exists, compiles the LaTeX there under a fresh id and answers with the URL
 * the server publishes the PDF under.
 */
module GeneratePdf {
  import opened Wrappers
  import opened Files
  import opened Pdf

  /** Line 13: `path.join(process.cwd(), 'public', 'pdfs')`. */
  function PublicPdfDir(cwd: string): string {
    Join(Join(cwd, "public"), "pdfs")
  }

  /** Line 26: the URL of the PDF compiled under `fileId`. */
  function PdfUrl(fileId: string): string {
    "/pdfs/" + fileId + ".pdf"
  }

  /** What `execute` answers given what `generatePdf` did: the URL, or the same error. */
  function UrlOutcome(generated: Result<string, Error>, fileId: string): Result<string, Error> {
    if generated.Failure? then Failure(generated.error) else Success(PdfUrl(fileId))
  }

  /** The URL is returned exactly when the PDF was generated; a failure reaches the caller unchanged. */
  lemma UrlOutcomeCases(generated: Result<string, Error>, fileId: string)
    ensures UrlOutcome(generated, fileId).Success? <==> generated.Success?
    ensures generated.Success? ==> UrlOutcome(generated, fileId).value == PdfUrl(fileId)
    ensures generated.Failure? ==> UrlOutcome(generated, fileId) == generated
  {
  }

  /** Distinct ids give distinct URLs. */
  lemma PdfUrlInjective(a: string, b: string)
    requires PdfUrl(a) == PdfUrl(b)
    ensures a == b
  {
    assert |a| == |b|;
    assert a == PdfUrl(a)[6..6 + |a|];
    assert b == PdfUrl(b)[6..6 + |b|];
  }

  /** The URL's last segment is the base name of the PDF the service writes into the public directory. */
  lemma UrlNamesGeneratedPdf(cwd: string, fileId: string)
    requires '/' !in fileId
    ensures Basename(PdfUrl(fileId)) == fileId + ".pdf"
    ensures Basename(PdfPath(PublicPdfDir(cwd), fileId)) == fileId + ".pdf"
    ensures Dirname(PdfPath(PublicPdfDir(cwd), fileId)) == PublicPdfDir(cwd)
  {
    assert '/' !in fileId + ".pdf";
    assert PdfUrl(fileId) == Join("/pdfs", fileId + ".pdf");
    BasenameJoin("/pdfs", fileId + ".pdf");
    BasenameJoin(PublicPdfDir(cwd), fileId + ".pdf");
    DirnameJoin(PublicPdfDir(cwd), fileId + ".pdf");
  }

  class GeneratePdfUseCase {
    var pdfService: PdfService
    var publicDir: string

    /** The field assignments of the constructor (lines 11 and 13). */
    constructor Init(dir: string)
      ensures publicDir == dir
    {
      pdfService := new PdfService();
      publicDir := dir;
    }

    /**
     * `new GeneratePdfUseCase()` (lines 10-17): create `public/pdfs` unless
     * it exists. A failing `mkdirSync` makes the constructor throw;
     * `mkdirFault` is an error the environment injects into that call.
     */
    static method Create(fs: FileSystem, cwd: string, mkdirFault: Option<string>) returns (r: Result<GeneratePdfUseCase, Error>)
      requires fs.Valid()
      modifies fs
      ensures fs.Valid() && fs.files == old(fs.files)
      ensures var dirs := EnsureDir(old(fs.files), old(fs.dirs), PublicPdfDir(cwd), mkdirFault);
              && (dirs.Success? ==> r.Success? && fresh(r.value) && r.value.publicDir == PublicPdfDir(cwd) && fs.dirs == dirs.value)
              && (dirs.Failure? ==> r == Failure(dirs.error) && fs.dirs == old(fs.dirs))
    {
      var dir := PublicPdfDir(cwd);
      if !fs.Exists(dir) {
        var made := fs.MkdirRecursive(dir, mkdirFault);
        if made.Failure? {
          return Failure(made.error);
        }
      }
      var useCase := new GeneratePdfUseCase.Init(dir);
      r := Success(useCase);
    }

    /**
     * `execute(latexContent)` (lines 19-27) for the id `uuidv4()` returned:
     * compile into the public directory under that id, answer with its URL.
     */
    method Execute(fs: FileSystem, cwd: string, latex: string, fileId: string,
                   writeFault: Option<WriteFault>, tectonic: (Invocation, map<string, string>) -> bool)
      returns (r: Result<string, Error>)
      requires fs.Valid()
      modifies fs
      ensures fs.Valid() && fs.dirs == old(fs.dirs)
      ensures fs.files == PdfFiles(old(fs.files), old(fs.dirs), latex, publicDir, fileId, writeFault)
      ensures r == UrlOutcome(PdfOutcome(old(fs.files), old(fs.dirs), cwd, latex, publicDir, fileId, writeFault, tectonic), fileId)
    {
      var generated := pdfService.GeneratePdf(fs, cwd, latex, publicDir, fileId, writeFault, tectonic);
      if generated.Failure? {
        return Failure(generated.error);
      }
      r := Success(PdfUrl(fileId));
    }
  }
}
