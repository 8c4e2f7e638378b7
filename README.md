# my-resume-ai: verified model of the document pipeline and the settings store

This project models in Dafny the parts of my-resume-ai that carry real logic.

- **Reply parsing and prompt filling** (`src/services/gemini.js`):
  - `parseResponse` splits the text-generation reply into a LaTeX CV and a change summary, using ordered tables of Spanish and English section markers.
  - The prompt is built by filling the three `${...}` placeholders of the user's template.
- **PDF generation** (`backend/src/services/PdfService.ts`, `backend/src/usecases/GeneratePdfUseCase.ts`):
  - The LaTeX is sanitised for Tectonic by commenting out `\input{glyphtounicode}` and `\pdfgentounicode=1`.
  - The source is written as `<dir>/<id>.tex`.
  - The bundled Tectonic binary is used if present, otherwise the system one.
  - A compiler failure is reported as the fixed error "Failed to generate PDF".
  - The caller receives the URL `/pdfs/<id>.pdf`.
- **DOCX generation** (`backend/src/usecases/GenerateDocxUseCase.ts`): the LaTeX is written to a scratch `.tex` file and pandoc is run on it. The scratch file is removed in a `finally` block.
- **The settings store** (`src/services/storage.js`): a key-value map. It holds the saved CVs (upserted and deleted by id) and the optimisation history (new entries first, at most 50 kept).

## Modules

| file | module | contents |
|---|---|---|
| `wrappers.dfy` | `Wrappers` | `Option`, `Result` |
| `js_string.dfy` | `JsString` | The JavaScript string operations the code uses: `indexOf`, `includes`, `substring` (clamping and swapping its bounds), `trim` (ECMAScript's whitespace set), `replace` with a string pattern (including the `$$`, `$&`, `` $` ``, `$'` replacement patterns) and `replace` with a global literal regular expression. |
| `gemini.dfy` | `Gemini` | Marker search, fence stripping, `parseResponse`, the template fill |
| `files.dfy` | `Files` | Node's file system: a class with a file map and a directory set, and `existsSync`, recursive `mkdirSync`, `writeFile` and `unlinkSync` with their error cases. Also `path.join`, `dirname` and `basename` for single names. |
| `pdf_service.dfy` | `Pdf` | The sanitiser, the paths, the binary choice, and `PdfService.generatePdf` as a method over the file system |
| `generate_pdf.dfy` | `GeneratePdf` | `GeneratePdfUseCase`: its constructor and `execute` |
| `generate_docx.dfy` | `GenerateDocx` | `GenerateDocxUseCase`: its constructor and `execute` with its `finally` cleanup |
| `storage.dfy` | `Storage` | The store as a class over `map<string, Value>`, with `saveCV`, `deleteCV` and `saveHistory` as methods |

### How the environment is modelled

- **External programs.** Tectonic and pandoc are function parameters. Each receives the invocation (program, arguments and `HOME`, or the command line) and the files present, and answers success or failure.
- **Injected I/O faults.** Optional parameters inject the failures the file system may raise beyond the modelled errno cases:
  - on a write, a `Files.WriteFault`: a denied permission at `open`, which creates nothing, or a full disk after `open`, which leaves the created or truncated file holding the first `n` characters of the data (`Files.WrittenPrefix`);
  - a failing unlink;
  - a denied permission or read-only mount on each `mkdirSync`.
- **Fresh values.** `uuidv4()`, `new Date().toISOString()` and `process.cwd()` are parameters.
- **Constructors.** A JavaScript constructor can throw but a Dafny constructor cannot. Each use case therefore has:
  - a static `Create` that runs the constructor's directory creation and returns a `Result`;
  - a plain `Init` constructor that assigns the fields.
- **Preconditions.** Every method requires only the file-system invariant (no path is both a file and a directory) or the store's typing invariant.

### Behaviour worth noting

- **Marker search.** Each field searches its own marker list, so a Spanish LaTeX marker can pair with an English summary marker (`Gemini.MixedLanguagesParse`). The `substring` call swaps its bounds when the summary marker comes first (`Gemini.ParsedLatex`, second clause).
- **Sanitiser idempotence.** The sanitiser is not idempotent: a second pass comments an already commented directive again (`Pdf.SanitizeNotIdempotent`). It is injective instead: removing the comment marks recovers the input (`Pdf.SanitizeRoundTrip`).
- **The PDF source file.** `generatePdf` leaves `<id>.tex` next to the PDF in `public/pdfs`. The code never deletes it, and the model keeps it (`Pdf.PdfOutcomeCases`).
- **Compiler diagnostics.** A compiler failure carries only the fixed message "Failed to generate PDF", not the compiler's diagnostics.
- **Write errors.** A failed write of the `.tex` file happens before the `try` block, so it propagates as the file system raised it.
- **DOCX cleanup.** The clean-up in `GenerateDocxUseCase.execute` can itself throw. An error from `unlinkSync` replaces the outcome of the `try` block, and only then can the scratch file survive (`GenerateDocx.CleanupOnEveryExit`). A write that fails on a full disk still leaves the scratch file, so the clean-up runs and its own error, if any, replaces the write's (`GenerateDocx.PartialWriteCleanedUp`).
- **Partial PDF source.** A write of `<id>.tex` that fails on a full disk leaves the truncated file in `public/pdfs` (`Pdf.PdfOutcomeCases`).

## Model

| member | source | states |
|---|---|---|
| JsString.IndexOfIsFirst | src/services/gemini.js:69-70 | `indexOf` returns the first index at which the marker occurs, and `includes` then holds |
| JsString.IndexFromFirst | src/services/gemini.js:69-70 | no occurrence lies before the index `indexOf` returns; when it returns -1 there is no occurrence at all |
| JsString.SubstringSymmetric | src/services/gemini.js:76 | `substring(a, b)` and `substring(b, a)` are the same string |
| JsString.SubstringConcat | src/services/gemini.js:76 | for bounds in order inside the string, adjacent substrings concatenate to the one spanning both |
| JsString.SubstringLength | src/services/gemini.js:76 | bounds beyond either end act as that end: two bounds at or before the start, or at or past the end, give the empty string, and bounds spanning the string give all of it; the length is the distance between the clamped bounds |
| JsString.TrimIsTrim | src/services/gemini.js:76-80 | `trim` removes exactly the leading and trailing whitespace and keeps the text between them; the result neither starts nor ends with whitespace |
| JsString.TrimStartSpec | src/services/gemini.js:76-80 | the part `trimStart` removes is all whitespace; the rest is a suffix of the input that does not start with whitespace |
| JsString.TrimEndSpec | src/services/gemini.js:76-80 | the part `trimEnd` removes is all whitespace; the rest is a prefix of the input that does not end with whitespace |
| JsString.TrimIdempotent | src/services/gemini.js:76-80 | trimming twice is trimming once |
| JsString.Trim | src/services/gemini.js:76-80 | `trim`; its contract is carried by `JsString.TrimIsTrim` and `JsString.TrimIdempotent` (whitespace removed from both ends exactly, idempotent) |
| JsString.ReplaceFirstAbsent | src/services/gemini.js:17-20 | `replace` leaves a string without the pattern unchanged |
| JsString.ReplaceFirstAt | src/services/gemini.js:17-20 | a value without `$` replaces exactly the first occurrence of the pattern, and nothing else changes |
| JsString.SubstitutionLiteral | src/services/gemini.js:17-20 | a replacement string without `$` is inserted as it is |
| JsString.SubstitutionLiteralHead | src/services/gemini.js:17-20 | a `$`-free head of a replacement string is copied as it is, and patterns are interpreted in the rest only |
| JsString.ReplaceFirstLiteralValue | src/services/gemini.js:17-20 | `replace` with a value without `$` is the verbatim splice at the first occurrence |
| JsString.ReplaceFirst | src/services/gemini.js:17-20 | `replace` with a string pattern; its contract is carried by `JsString.ReplaceFirstAbsent`, `JsString.ReplaceFirstAt` and `JsString.ReplaceFirstLiteralValue` (unchanged without a match, otherwise the first occurrence replaced by the interpreted value) |
| JsString.ReplaceAllLength | backend/src/services/PdfService.ts:14-16 | each replaced occurrence changes the length by the replacement's length minus the pattern's |
| JsString.ReplaceAllAbsent | backend/src/services/PdfService.ts:14-16 | a global replace on a string without the pattern returns it unchanged and counts no match |
| JsString.PrefixInsertionRoundTrip | backend/src/services/PdfService.ts:14-16 | when every occurrence of a pattern is prefixed by a mark that cannot arise inside mark-plus-pattern, replacing mark-plus-pattern by the pattern gives the input back |
| JsString.CopiedPrefix | backend/src/services/PdfService.ts:14-16 | a prefix of a global replace's output that avoids the replacement's first character was copied from the input and holds no occurrence |
| JsString.ReplaceAllSkipsPrefix | backend/src/services/PdfService.ts:14-16 | a prefix in which no occurrence begins passes through a global replace unchanged |
| JsString.ReplaceAll | backend/src/services/PdfService.ts:14-16 | `replace` with a global literal pattern; its contract is carried by `JsString.ReplaceAllLength`, `JsString.ReplaceAllAbsent`, `JsString.ReplaceAllAtStart`, `JsString.ReplaceAllSkipsPrefix` and `JsString.PrefixInsertionRoundTrip` |
| JsString.ReplaceAllAtStart | backend/src/services/PdfService.ts:14-16 | an occurrence at the very start is replaced and the global replace continues after it |
| Gemini.FindFrom | src/services/gemini.js:60-61 | `find` answers the first list entry from the given position on that occurs in the text, or nothing exactly when none occurs |
| Gemini.FindMarkerChosen | src/services/gemini.js:60-61 | `find` returns a marker exactly when that marker is the first list entry that occurs; it returns nothing exactly when no entry occurs |
| Gemini.MarkerPriority | src/services/gemini.js:56-61 | of a two-entry list, the first (Spanish) entry wins whenever it occurs; the second is used only when the first is absent |
| Gemini.StripLeading | src/services/gemini.js:78 | an anchored leading fence is removed once when present, and the text is unchanged otherwise |
| Gemini.StripTrailing | src/services/gemini.js:78 | an anchored trailing fence is removed once when present, and the text is unchanged otherwise |
| Gemini.UnfencedUnchanged | src/services/gemini.js:78 | text that starts with neither the `latex` fence nor the plain fence, and does not end with a closing fence, is left unchanged |
| Gemini.FencedLatexUnwrapped | src/services/gemini.js:78 | a body wrapped in a `latex` fence and a closing fence is unwrapped to the body, provided the body does not itself start with a plain fence (the plain-fence removal runs after the `latex` one and would strip it too) |
| Gemini.FencedPlainUnwrapped | src/services/gemini.js:78 | a body wrapped in a plain fence and a closing fence is unwrapped to the body |
| Gemini.StripFences | src/services/gemini.js:78 | the three anchored fence removals; its contract is carried by `Gemini.UnfencedUnchanged`, `Gemini.FencedLatexUnwrapped` and `Gemini.FencedPlainUnwrapped` |
| Gemini.SummarySection | src/services/gemini.js:80 | the summary is never longer than the reply |
| Gemini.ParseLists | src/services/gemini.js:52-88 | with any marker tables, the result is the fallback exactly when some table has no entry occurring in the text or `find` returns an empty entry (falsy, so its start is -1); the function is total |
| Gemini.ParseResponse | src/services/gemini.js:52-88 | the result is the fallback (empty LaTeX, fixed prefix plus the whole reply) exactly when no LaTeX marker or no summary marker occurs |
| Gemini.NoEmptyMarker | src/services/gemini.js:56-61 | a table without an empty entry never makes `find` return the empty string, so the code's own tables always reach the `indexOf` calls |
| Gemini.FindMarkerFound | src/services/gemini.js:60-61 | a found marker occurs in the text, and nothing is found exactly when no entry occurs |
| Gemini.ParsedBranch | src/services/gemini.js:69-80 | when both chosen markers are non-empty and occur, the result is the sections cut at the first occurrence of each chosen marker |
| Gemini.ParsedSummary | src/services/gemini.js:70-80 | with non-empty chosen markers, the summary is the trimmed text after the first occurrence of the chosen summary marker |
| Gemini.ParsedLatex | src/services/gemini.js:69-78 | with non-empty chosen markers, the LaTeX is the fence-stripped trim of the text between the end of the LaTeX marker and the start of the summary marker; when the summary marker comes first, it is the text between the two positions in swapped order |
| Gemini.LatexFromFirstOccurrences | src/services/gemini.js:69-78 | with the first occurrences of the two markers given, the LaTeX section is the fence-stripped trim of the text between them, in swapped order when the summary marker comes first |
| Gemini.SubstringWithin | src/services/gemini.js:76 | with both bounds inside the text, `substring` is the slice between them, in either order |
| Gemini.WellFormedReply | src/services/gemini.js:52-88 | a reply made of a non-empty LaTeX marker, a body, a non-empty summary marker and a rest parses to the fence-stripped trimmed body and the trimmed rest, provided the two markers are the first entries of their tables that occur in the reply and the summary marker does not occur before the end of the body |
| Gemini.ReplySections | src/services/gemini.js:76-80 | in a reply made of a marker, a body, a summary marker and a rest, where the summary marker does not occur before the end of the body, the two sections are the fence-stripped trimmed body and the trimmed rest |
| Gemini.MixedLanguagesParse | src/services/gemini.js:60-75 | a Spanish LaTeX marker paired with only an English summary marker still takes the parsed branch, with the English marker's summary |
| Gemini.FillTemplateNoPlaceholders | src/services/gemini.js:17-20 | a template without placeholders is sent unchanged |
| Gemini.FillTemplate | src/services/gemini.js:17-20 | the three chained `replace` calls; its contract is carried by `Gemini.FillTemplateNoPlaceholders`, `Gemini.FillTemplateWellFormed`, `Gemini.DollarPatternsRewritten` and `Gemini.FillTemplateAgreesWithoutDollar` |
| Gemini.ReplaceStep | src/services/gemini.js:17-20 | a placeholder after a `$`-free prefix is the first occurrence and is replaced by a `$`-free value |
| Gemini.FillTemplateWellFormed | src/services/gemini.js:17-20 | with `$`-free text and values, the three placeholders in order are replaced by the job description, the LaTeX and the name, and nothing else changes |
| Gemini.ReplaceChain | src/services/gemini.js:17-20 | three chained `replace` calls over `$`-led patterns in order, with no other `$`, replace each pattern by its value |
| Gemini.DollarPatternsRewritten | src/services/gemini.js:17-20 | as written, a CV `$$x$$` (x free of `$` and `{`) reaches the prompt as `$x$`; the verbatim fill keeps `$$x$$` |
| Gemini.DisplayMathCollapsed | src/services/gemini.js:17-20 | replacing a whole text by `$$x$$` yields `$x$` with `replace` and `$$x$$` with the verbatim splice |
| Gemini.ReplaceWholeText | src/services/gemini.js:17-20 | when the pattern is the whole text, `replace` yields the interpreted replacement with nothing before or after it, and the verbatim splice yields the value |
| Gemini.DoubledDollarsCollapse | src/services/gemini.js:17-20 | the replacement `$$x$$` is interpreted as `$x$`, whatever was matched |
| Gemini.SpliceStep | src/services/gemini.js:17-20 | a placeholder after a prefix that does not contain it is spliced verbatim |
| Gemini.FillTemplateVerbatimWellFormed | src/services/gemini.js:17-20 | the verbatim fill puts each value, whatever its characters, in place of its placeholder |
| Gemini.SpliceChain | src/services/gemini.js:17-20 | three chained verbatim splices replace each pattern by its value when no pattern occurs before its own slot |
| Gemini.FillTemplateAgreesWithoutDollar | src/services/gemini.js:17-20 | for values without `$`, the fill as written and the verbatim fill agree |
| Files.LastSlash | backend/src/services/PdfService.ts:10 | the index of the last `/`, or -1 when there is none |
| Files.DirnameJoin | backend/src/services/PdfService.ts:10-37 | joining a directory and a name without `/` gives a path whose directory is that directory |
| Files.BasenameJoin | backend/src/services/PdfService.ts:10-37 | the base name of such a joined path is the name |
| Files.JoinInjective | backend/src/usecases/GenerateDocxUseCase.ts:29-30 | joining to one directory is injective in the name |
| Files.EnsureDirCases | backend/src/usecases/GeneratePdfUseCase.ts:14-16 | create-if-absent leaves an existing path, file or directory, alone (no `mkdirSync` runs, so no fault can arise) and never removes a directory; otherwise it adds exactly the path and its ancestors unless a fault is injected or one of them is a regular file, and fails exactly then, an injected fault being reported as given |
| Files.MkdirError | backend/src/usecases/GeneratePdfUseCase.ts:15 | recursive `mkdirSync` fails exactly when a fault is injected or the path or an ancestor is a regular file, and the error names the path |
| Files.EnsureDir | backend/src/usecases/GeneratePdfUseCase.ts:14-16 | a failure of create-if-absent is the `mkdirSync` error; its full contract is carried by `Files.EnsureDirCases` |
| Files.FileSystem.MkdirRecursive | backend/src/usecases/GeneratePdfUseCase.ts:15 | recursive `mkdirSync` adds the path and all its ancestors, or fails (an injected fault; EEXIST when the path is a file; ENOTDIR when an ancestor is) and changes nothing |
| Files.WriteEffect | backend/src/services/PdfService.ts:19 | a successful write sets the path's contents; a failed one leaves at the path only what a fault after `open` left behind, and nothing when the path cannot be opened or the fault struck at `open`; no other path changes, and a directory never becomes a file |
| Files.FileSystem.WriteFile | backend/src/services/PdfService.ts:19 | `writeFile` sets the path's contents, or fails (an injected fault; EISDIR on a directory; ENOTDIR when an ancestor is a regular file; ENOENT when the parent directory is missing); the new files are `Files.FilesAfterWrite` of the old, so a fault after `open` leaves behind the prefix of the data that reached the file (`Files.WrittenPrefix`) |
| Files.FileSystem.Unlink | backend/src/usecases/GenerateDocxUseCase.ts:45 | `unlinkSync` removes exactly that file, or fails (an injected fault; EISDIR; ENOTDIR for a missing path under a regular file; ENOENT otherwise) and changes nothing |
| Pdf.SanitizeRoundTrip | backend/src/services/PdfService.ts:14-16 | the sanitiser only inserts comment marks: removing them restores the input, so distinct inputs stay distinct |
| Pdf.Sanitize | backend/src/services/PdfService.ts:14-16 | the two global replaces; its contract is carried by `Pdf.SanitizeRoundTrip`, `Pdf.SanitizeUnchanged`, `Pdf.SanitizeLength` and `Pdf.SanitizeNotIdempotent` |
| Pdf.SanitizeUnchanged | backend/src/services/PdfService.ts:14-16 | LaTeX with neither directive passes through unchanged |
| Pdf.SanitizeLength | backend/src/services/PdfService.ts:14-16 | the output is the input's length plus two characters per directive occurrence |
| Pdf.GlyphPassKeepsUnicodeCount | backend/src/services/PdfService.ts:15-16 | the first pass neither creates nor destroys an occurrence of `\pdfgentounicode=1` |
| Pdf.DirectivesApart | backend/src/services/PdfService.ts:15-16 | neither directive can begin inside the other, nor inside a commented glyph directive |
| Pdf.UnicodePassCopiesPrefix | backend/src/services/PdfService.ts:16 | a prefix in which `\pdfgentounicode=1` cannot begin is copied by the second pass |
| Pdf.SanitizeGlyph | backend/src/services/PdfService.ts:14-16 | the glyph directive alone is sanitised to its commented form |
| Pdf.SanitizeCommentedGlyph | backend/src/services/PdfService.ts:14-16 | the commented glyph directive is commented once more by a second pass |
| Pdf.SanitizeNotIdempotent | backend/src/services/PdfService.ts:14-16 | one pass turns the glyph directive into its commented form, and a second pass comments it again, so sanitising is not idempotent |
| Pdf.PathsShareBase | backend/src/services/PdfService.ts:10-37 | the `.tex` and `.pdf` paths lie in the output directory, share the base name, and differ |
| Pdf.TexPath | backend/src/services/PdfService.ts:10 | `<outputDir>/<id>.tex`; its contract is carried by `Pdf.PathsShareBase` |
| Pdf.PdfPath | backend/src/services/PdfService.ts:37 | `<outputDir>/<id>.pdf`; its contract is carried by `Pdf.PathsShareBase` |
| Pdf.PdfOutcomeCases | backend/src/services/PdfService.ts:9-42 | success returns the `.pdf` path; a write error propagates unchanged; a compiler failure is always "Failed to generate PDF"; the sanitised source stays in place once written, and a write failing after `open` leaves the prefix of the sanitised source it had written; the model's steps change no other file |
| Pdf.CompilerInvocation | backend/src/services/PdfService.ts:19-41 | once the source is written, the call succeeds exactly when Tectonic succeeds on the files as written, started with `execFile` on `[<id>.tex, "--outdir", outputDir]` and `HOME=/tmp`, the program being `<cwd>/tectonic/bin/tectonic` when that path exists and `/usr/local/bin/tectonic` otherwise |
| Pdf.OutcomeDependsOnSanitised | backend/src/services/PdfService.ts:14-19 | two LaTeX sources with the same sanitised text are the same source, so they have the same outcome |
| Pdf.PdfService.GeneratePdf | backend/src/services/PdfService.ts:9-42 | the method writes the sanitised source, reassigns the binary when the bundled one exists, and runs the compiler; its result and its new files are those of the specification functions |
| GeneratePdf.UrlOutcomeCases | backend/src/usecases/GeneratePdfUseCase.ts:23-26 | the URL is returned exactly when the PDF was generated; a failure propagates unchanged |
| GeneratePdf.PdfUrlInjective | backend/src/usecases/GeneratePdfUseCase.ts:26 | distinct ids give distinct URLs |
| GeneratePdf.PdfUrl | backend/src/usecases/GeneratePdfUseCase.ts:26 | `/pdfs/<id>.pdf`; its contract is carried by `GeneratePdf.PdfUrlInjective` and `GeneratePdf.UrlNamesGeneratedPdf` |
| GeneratePdf.UrlNamesGeneratedPdf | backend/src/usecases/GeneratePdfUseCase.ts:23-26 | the URL's last segment is the base name of the PDF path `generatePdf` reports for `public/pdfs` and the same id |
| GeneratePdf.GeneratePdfUseCase.Create | backend/src/usecases/GeneratePdfUseCase.ts:10-17 | the constructor creates `public/pdfs` only when it is absent, or throws the `mkdirSync` error, an injected fault included |
| GeneratePdf.GeneratePdfUseCase.Execute | backend/src/usecases/GeneratePdfUseCase.ts:19-27 | `execute` compiles into `public/pdfs` under the id and answers `/pdfs/<id>.pdf`, or the service's error |
| GenerateDocx.PathsFromOneId | backend/src/usecases/GenerateDocxUseCase.ts:28-30 | the scratch file is `temp/<id>.tex` and the output is `public/docx/<id>.docx`, with the same id, and the two never coincide |
| GenerateDocx.TempTexPathInjective | backend/src/usecases/GenerateDocxUseCase.ts:29 | distinct ids give distinct scratch files |
| GenerateDocx.OutputDocxPathInjective | backend/src/usecases/GenerateDocxUseCase.ts:30 | distinct ids give distinct documents |
| GenerateDocx.TempTexPath | backend/src/usecases/GenerateDocxUseCase.ts:29 | `temp/<id>.tex`; its contract is carried by `GenerateDocx.PathsFromOneId` and `GenerateDocx.TempTexPathInjective` |
| GenerateDocx.OutputDocxPath | backend/src/usecases/GenerateDocxUseCase.ts:30 | `public/docx/<id>.docx`; its contract is carried by `GenerateDocx.PathsFromOneId` and `GenerateDocx.OutputDocxPathInjective` |
| GenerateDocx.PandocCommandInjective | backend/src/usecases/GenerateDocxUseCase.ts:38 | for paths without a double quote, the pandoc command line determines both the scratch path and the output path |
| GenerateDocx.PandocCommand | backend/src/usecases/GenerateDocxUseCase.ts:38 | the pandoc command line; its contract is carried by `GenerateDocx.PandocCommandInjective` and `GenerateDocx.DocxOutcomeCases` |
| GenerateDocx.CleanupOnEveryExit | backend/src/usecases/GenerateDocxUseCase.ts:32-47 | however the `try` block ends, the scratch file is gone afterwards unless unlinking fails, and no other file is touched |
| GenerateDocx.PartialWriteCleanedUp | backend/src/usecases/GenerateDocxUseCase.ts:32-47 | a full-disk write failure leaves the scratch file holding a prefix of the LaTeX, which `finally` then unlinks: the result is the write's error and the file is gone, or, when the unlink fails too, the unlink's error and the file stays |
| GenerateDocx.DocxOutcomeCases | backend/src/usecases/GenerateDocxUseCase.ts:32-47 | the output path is returned exactly when pandoc succeeds on the LaTeX written as given; otherwise the write error or the failed command propagates; an error from the clean-up overrides all of these |
| GenerateDocx.GenerateDocxUseCase.Create | backend/src/usecases/GenerateDocxUseCase.ts:13-25 | the constructor creates `public/docx`, then `temp`, each only when absent, and stops at the first `mkdirSync` error, each call with its own injected fault |
| GenerateDocx.GenerateDocxUseCase.Execute | backend/src/usecases/GenerateDocxUseCase.ts:27-48 | `execute` writes the scratch file, runs pandoc and unlinks the scratch file in `finally` whenever it exists, also after a write that failed once the file was created; afterwards the scratch file is absent unless the unlink itself fails, no other file has changed, and the result is that of the specification functions |
| Storage.SetThenGet | src/services/storage.js:6-32 | `get` after `set` yields the value written, and every other key reads as before |
| Storage.ListDefaults | src/services/storage.js:42-71 | both lists read as `[]` while their key is unset, and as the list last written otherwise |
| Storage.FindIndex | src/services/storage.js:50 | `findIndex` returns the first index holding the id, or -1 when none does |
| Storage.SaveCvListsIt | src/services/storage.js:47-56 | after a save the CV is in the list under its own id when it had one and under the fresh id otherwise, with the given content and the time of the call; every entry with another id is kept |
| Storage.Upsert | src/services/storage.js:50-56 | find-then-replace-or-push: the record is in the result and the length grows by at most one; its full contract is carried by `Storage.UpsertReplacesFirst`, `Storage.UpsertAppends`, `Storage.UpsertSameId`, `Storage.UpsertIdempotent` and `Storage.SaveCvListsIt` |
| Storage.UpsertReplacesFirst | src/services/storage.js:50-53 | with the id present, the first entry holding it is replaced in place; length, order and the other entries are kept |
| Storage.UpsertAppends | src/services/storage.js:50-56 | with the id absent, the CV is appended at the end and the length grows by one |
| Storage.UpsertSameId | src/services/storage.js:50-56 | upserting two records with the same id is upserting the second alone: the first is overwritten in place |
| Storage.UpsertIdempotent | src/services/storage.js:50-56 | upserting the same record twice is upserting it once |
| Storage.SaveCvTwice | src/services/storage.js:47-56 | `saveCV` twice with the same CV: with a non-empty id the second call changes only that entry's `updatedAt` and leaves what the second call alone would have made; without an id the two fresh ids differ and a second entry with the same content is appended |
| Storage.RemoveById | src/services/storage.js:64 | the filter never lengthens the list |
| Storage.RemoveByIdMembers | src/services/storage.js:64 | exactly the entries with another id survive |
| Storage.RemoveByIdConcat | src/services/storage.js:64 | the filter keeps the order: filtering a concatenation is concatenating the filtered parts |
| Storage.RemoveByIdAbsent | src/services/storage.js:64 | a list without the id is left unchanged |
| Storage.RemoveByIdOverwrite | src/services/storage.js:53-64 | overwriting an entry that has the id with another entry that has it does not change what the filter keeps |
| Storage.DeleteUndoesSave | src/services/storage.js:47-66 | deleting an id after saving a CV under it gives what deleting it before would |
| Storage.PushCappedShape | src/services/storage.js:76-78 | the new entry comes first, followed by the old ones in order; at 50 entries the oldest is dropped; a list within the limit stays within it |
| Storage.PushCapped | src/services/storage.js:76-78 | `unshift` then one `pop` over the limit; its contract is carried by `Storage.PushCappedShape` |
| Storage.SavedHistoryEntry | src/services/storage.js:73-78 | the saved entry comes first under the fresh id and the time of the call, whatever id and date the item had, and a list within 50 entries stays within 50 |
| Storage.Store.Set | src/services/storage.js:23-32 | `set` writes the key and nothing else |
| Storage.Store.SetApiKey | src/services/storage.js:38-40 | the API key is stored under `geminiApiKey` |
| Storage.Store.SaveCV | src/services/storage.js:47-60 | the list under `savedCVs` becomes the upsert of the stored list, and the saved CV is returned |
| Storage.Store.DeleteCV | src/services/storage.js:62-66 | the list under `savedCVs` becomes the stored list without the id |
| Storage.Store.SaveHistory | src/services/storage.js:73-81 | the list under `optimizationHistory` becomes the new entry followed by the stored list, capped at 50 |

## Left out

- The network half of `optimizeCV` (gemini.js lines 7-15 and 21-49) is not modelled: the API-key check, `fetch`, JSON decoding and error logging. Only the template fill and `parseResponse` are.
- What Tectonic and pandoc do to the file system (the PDF and the DOCX they write) is not modelled. Each is a success or failure oracle over its invocation and the files present.
- The shell quoting of the pandoc command is not modelled. The command line is the string the code builds, and its success is left to the oracle.
- `path.join` normalisation (`..`, `.`, duplicate slashes) is not modelled. `Join` is plain concatenation with `/`, which is what the call sites produce for the ids they use.
- JSON serialisation in the `localStorage` branch of `get`/`set` is not modelled. It is taken to round-trip, so the store is a plain map.
- `chrome.storage` versus `localStorage` selection is not modelled: both are the same map.
- Concurrency between `async` calls (two saves interleaving their read and write) is not modelled. Each method runs atomically.
- Console logging is not modelled.
- `Storage.Store.Set`: it requires that lists are stored only under their own keys, a typing invariant the JavaScript does not check. Every writer in the code respects it.
- `JsString.TrimStart`, `JsString.TrimEnd`, `JsString.IndexFrom`: their own contracts state only bounds. The full characterisations are the `TrimStartSpec`, `TrimEndSpec` and `IndexFromFirst` lemmas.
- `Gemini.SummarySection`: its own contract states only a bound. The content is stated by `Gemini.ParsedSummary` and `Gemini.ReplySections`.
- `Storage.RemoveById`: its own contract states only a bound. The content is stated by `Storage.RemoveByIdMembers`, `Storage.RemoveByIdConcat` and `Storage.RemoveByIdAbsent`.
- The model does not prove that no uncommented directive is left in the sanitiser's output. It proves that an occurrence at the start is replaced by its commented form and the replace continues after it (`JsString.ReplaceAllAtStart`), that a prefix without an occurrence is copied (`JsString.ReplaceAllSkipsPrefix`), and the round-trip and length laws (`Pdf.SanitizeRoundTrip`, `Pdf.SanitizeLength`).
- `errno` names are those Node reports for the modelled cases: EISDIR, ENOTDIR (a regular file on the path), ENOENT (a missing parent) and, for `mkdirSync`, EEXIST. The file system has no permissions and no symbolic links; all other failures of `writeFile`, `unlinkSync` and `mkdirSync` are injected faults. When a path could fail for two reasons that a real directory tree would not allow together, the model picks the first in that order.
- A partial write is measured in characters of the string, not in UTF-8 bytes: Node writes bytes, so a real full-disk failure can also cut a multi-byte character, which `Files.WrittenPrefix` cannot express.
- The UI (`MainPopup.jsx`, `Settings.jsx`, `Sidebar.jsx`, `App.jsx`), the content and background scripts and the Express controllers and routes are not part of this model. They are glue around the modelled core.

## Findings

| source | as written | input that shows it | evidently intended | confidence | as-written member | corrected member |
|---|---|---|---|---|---|---|
| src/services/gemini.js:17-20 | `.replace(placeholder, value)` with a string value interprets `$$`, `$&`, `` $` `` and `$'` in the CV, the job description and the name | template `${resumeLatex}` with the CV `$$x$$` (LaTeX display math, x free of `$` and `{`) yields the prompt `$x$` | each value is inserted verbatim | medium, not executed | Gemini.DollarPatternsRewritten | Gemini.FillTemplateVerbatimWellFormed |
