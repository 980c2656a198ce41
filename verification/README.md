# eml2pdf: a verified model of the conversion core

`eml2pdf.py` takes a folder of `.eml` email files. For each message it
copies the PDF attachments into `output/` and renders the message body to
a PDF in a child process. At the end it adds up how many files it
processed, how many attachments it extracted, how many bodies it rendered
and how many renders failed.

This project models the decision rules inside that script:

- **Attachments** (`attachments.dfy`, module `Attachments`). A part
  from `iter_attachments()` is extracted only if it has a non-empty
  filename and the content type `application/pdf` (RFC 3778). It is
  written to `stem__filename` and counted. The output directory is a map
  from name to bytes, and a second write to the same name replaces the
  first.
- **Body selection** (`body.dfy`, module `BodySelection`). For a
  multipart message, the `walk()` parts are scanned in depth-first order
  (section 5.1 of RFC 2046). The first `text/html` part ends the scan,
  and each `text/plain` part replaces the body with its content wrapped in
  `<pre>…</pre>`. A single-part message is judged by its own content
  type. A body counts only if it is truthy in Python: not `None` and not
  the empty string.
- **Render outcome** (`render.dfy`, module `RenderOutcome`). How the
  render child ends, and which files it leaves. It writes the PDF and
  returns; it raises an exception that `render_pdf_safe` catches and logs;
  or it dies, having left the PDF, the log or neither. It either ends within the
  30-second join or outlives it and ends later (or never). That decides
  the exit code the parent reads, and the exit code decides `rendered`
  and `crashed`.
- **One file** (`process.dfy`, module `EmlProcessing`). `process_eml_file`
  is a method that runs the attachment loop, the body scan and the render
  decision. Its result is tied to `FileOutcome`, which combines the three
  rules above. This module also defines the names of the body PDF and the
  failure log.
- **The run** (`run.dfy`, module `BatchRun`). `main` handles its two early
  returns, then folds every file's `(extracted, rendered, crashed)` into
  four counters.

The loops of the source are methods with loop invariants. Each one is
proved equal to a specification function, and the properties are proved
about those functions.

The model follows the code as written, including these behaviours:

- `render_pdf_safe` catches every `Exception` and returns normally unless
  writing the log itself fails, so the child exits with status 0. A
  rendering error within the join is therefore counted as a rendered body,
  and its failure log is written (`CaughtErrorCountsAsRendered`).
- The `except` block (lines 16-20) has no guard of its own. If it fails
  after creating the log, the child exits with status 1. The file is then
  counted as crashed, yet its log exists. A child can likewise die after
  writing the PDF: the file counts as crashed and the PDF is still in
  the output directory (`InJoinFilesAndOutcome`).
- A child that outlives the 30-second join is not terminated. It counts as
  crashed because its exit code is still `None`, but it goes on running:
  when it ends later it may still write the failure log or the body PDF of
  a file already counted as crashed (`LateChildAfterCrash`). A failure log
  for a crashed file comes either from such a child or from one that died
  after creating the log.
- Without an HTML part, the *last* plain-text part is used.
- Errors when opening or parsing a file, or when writing an attachment,
  are not turned into a failed result. They abort the whole run (see
  "Left out").
- Files are processed one after another in `glob` order.
- When the folder holds no `.eml` files, the `output` directory has
  already been created (line 87 runs before line 89). `BatchRun.RunBatch`
  returns it, empty or as it was.

## Model

| member | source | states |
|---|---|---|
| `Attachments.AttachmentName` | eml2pdf.py:36 | The output name is the stem, then `__`, then the filename: its length and all three pieces are fixed, so the stem and the filename can be read back from it. |
| `Attachments.AttachmentNameInjective` | eml2pdf.py:36 | For one stem, distinct filenames give distinct output names. |
| `Attachments.AttachmentNameCollidesAcrossStems` | eml2pdf.py:36 | Different stems can map to the same name: `a_` + `b` and `a` + `_b` both give `a___b`. |
| `Attachments.CountQualifying` | eml2pdf.py:32-40 | The loop's count never exceeds the number of attachment parts. |
| `Attachments.CountIsQualifyingIndices` | eml2pdf.py:32-40 | The count equals the number of positions whose part has a present, non-empty filename and content type exactly `application/pdf`. Parts that share a filename are each counted. |
| `Attachments.WriteQualifyingFrame` | eml2pdf.py:32-40 | After the loop, the directory holds its old files plus exactly the names of the qualifying parts. Every other file keeps its contents, so skipped parts are written nowhere. |
| `Attachments.WriteQualifyingLastWins` | eml2pdf.py:36-38 | A qualifying part's bytes end up in its output file unless a later qualifying part has the same filename. |
| `Attachments.DuplicateFilenameOverwrites` | eml2pdf.py:35-40 | Two qualifying parts with one filename give a count of 2 but a single file, which holds the second part's bytes. |
| `Attachments.ExtractPdfAttachments` | eml2pdf.py:31-40 | The attachment loop returns the number of qualifying parts and the directory after their writes, in order. |
| `BodySelection.Preformatted` | eml2pdf.py:50 | A plain-text body is the text between `<pre>` and `</pre>`. It is never empty, and the text can be recovered from it. |
| `BodySelection.FirstOfType` | eml2pdf.py:45-48 | Returns the index of a part of the given type with none before it, or no index if there is no such part. |
| `BodySelection.LastOfType` | eml2pdf.py:45-50 | Returns the index of a part of the given type with none after it, or no index if there is no such part. |
| `BodySelection.ScanWalkedParts` | eml2pdf.py:43-50 | The loop that breaks at HTML and overwrites on plain text gives the same result as the rule stated without a loop: the first HTML part, else the wrapped last plain-text part, else no body. |
| `BodySelection.FirstHtmlWins` | eml2pdf.py:45-48 | When HTML parts exist, the body is the content of the first one, whatever plain-text parts exist around it. |
| `BodySelection.LastPlainWins` | eml2pdf.py:45-50 | With no HTML part, the body is the wrapped content of the last plain-text part. |
| `BodySelection.NoTextNoBody` | eml2pdf.py:43-50 | With neither an HTML nor a plain-text part among the walked parts (attachments included), there is no body. |
| `BodySelection.SinglePartBody` | eml2pdf.py:51-56 | A single-part message has a body exactly when its type is `text/html` (the raw content) or `text/plain` (the wrapped content). |
| `BodySelection.EmptyHtmlShadowsPlain` | eml2pdf.py:45-58 | An empty first HTML part still ends the scan, so nothing is rendered even if plain-text parts exist. |
| `BodySelection.RenderableBody` | eml2pdf.py:42-58 | A plain-text body, single-part or multipart without an HTML part, is always rendered, even for empty text. Only an HTML body can be empty. |
| `BodySelection.SinglePartIsOneWalkedPart` | eml2pdf.py:45-56 | The single-part rule gives the same body as the multipart rule applied to a walk of just that one part. |
| `RenderOutcome.ExitCode` | eml2pdf.py:12-20 | The exit code is absent exactly when the child outlived the join. A child that returned normally within the join (PDF written, or exception caught and logged) has exit code 0. A child that died has its own status. |
| `RenderOutcome.Classify` | eml2pdf.py:58-69 | `rendered` and `crashed` are never both true. One of them is true exactly when there is a renderable body. `rendered` holds exactly when there is a body and the exit code is 0. |
| `RenderOutcome.CaughtErrorCountsAsRendered` | eml2pdf.py:16-20 | A rendering exception caught and logged within the join counts as rendered, and leaves the log. A failure log for a file counted as crashed means one of two things: the child outlived the join, or it died with a non-zero status after creating the log. |
| `RenderOutcome.InJoinFilesAndOutcome` | eml2pdf.py:12-20 | Within the join, a file can count as crashed and still have its log (the `except` block failed after creating it) or its PDF (the child died after writing it). It can also count as rendered with both a PDF and a log (the message after `write_pdf` raised). |
| `RenderOutcome.TimeoutOrAbnormalExitCountsAsCrashed` | eml2pdf.py:64-69 | A child still running after the join, or one that exited non-zero, counts as crashed and not rendered. |
| `RenderOutcome.LateChildAfterCrash` | eml2pdf.py:12-20 | A child that outlives the join counts as crashed, yet it may later write the failure log, or the body PDF, for that file. |
| `EmlProcessing.BodyPdfName` | eml2pdf.py:59 | The body PDF is the stem followed by `.pdf`. |
| `EmlProcessing.FailureLogName` | eml2pdf.py:60 | The failure log is `render_fail_`, then the stem, then `.log`, and the stem can be read back from it. |
| `EmlProcessing.RenderNamesInjective` | eml2pdf.py:59-60 | Distinct stems get distinct body PDFs and distinct failure logs. |
| `EmlProcessing.BodyPdfIsNoAttachmentName` | eml2pdf.py:59 | Within one message, the body PDF never has the name of an extracted attachment. |
| `EmlProcessing.BodyPdfCollidesAcrossStems` | eml2pdf.py:59 | Across messages it can: the attachment `b.pdf` of `a.eml` and the body of `a__b.eml` are both `a__b.pdf`. |
| `EmlProcessing.FileOutcome` | eml2pdf.py:22-74 | Per file: `extracted` counts the qualifying parts, `rendered` and `crashed` are exclusive, one holds exactly when the body is renderable, and `rendered` exactly when the exit code is also 0. |
| `EmlProcessing.FileWritesBodyPdf` | eml2pdf.py:58-67 | When a renderable body's child leaves a PDF within the join, its bytes replace whatever held `stem.pdf`, whether an attachment written earlier in the run or a file left by an earlier run. Otherwise only the attachment writes change the directory. Nothing outside the attachment names and `stem.pdf` is added. A child that completed `write_pdf` and returned gets its file counted as rendered. |
| `EmlProcessing.ProcessEmlFile` | eml2pdf.py:22-74 | The step-by-step function returns `FileOutcome` and the directory after the attachment writes, followed by the body PDF if the child left one within the join, whatever its exit status. It starts a render, aimed at `stem.pdf` with the log `render_fail_stem.log`, exactly when the body is renderable. |
| `BatchRun.ResultsOf` | eml2pdf.py:99-102 | Exactly one result per file. |
| `BatchRun.FoldResultsCounts` | eml2pdf.py:94-106 | After folding k results: `total` is k, `attachments` is the sum of the extracted counts, `body_pdfs` is the number of rendered results and `failed` the number of crashed ones. |
| `BatchRun.RenderedPlusFailedAtMostTotal` | eml2pdf.py:104-106 | When no result is both rendered and crashed, `body_pdfs + failed <= total`. |
| `BatchRun.ResultsRenderedPlusFailed` | eml2pdf.py:99-106 | Over any run, rendered bodies plus failures are at most the number of files. |
| `BatchRun.LastBodyPdfWins` | eml2pdf.py:59-64 | If the last file's child leaves its body PDF within the join, the run ends with those bytes under `stem.pdf`, even when an earlier file wrote an attachment there (`b.pdf` of `a.eml` and the body of `a__b.eml`). |
| `BatchRun.RunBatch` | eml2pdf.py:76-106 | A missing folder or a non-directory ends the run with no counters and no output directory. A folder without `.eml` files ends it with no counters and only the output directory created. Otherwise the counters are those of `FoldResultsCounts` over every file, `body_pdfs + failed <= total`, and the output directory holds every file's attachment writes and in-join body PDFs, in processing order. |

## Left out

- Email parsing and decoding (`message_from_binary_file`, `iter_attachments`, `walk`, `get_content`, `get_payload`, `is_multipart`) are not modelled. Their results are inputs: a sequence of attachment parts and a sequence of walked parts, taken independently. The model does not capture that both come from one MIME tree, nor how the library normalises content types.
- Rendering with WeasyPrint (`HTML(...).write_pdf`) and the traceback written to the failure log are foreign code. Only how the child ends is modelled. The bytes of a body PDF are an input of the `ChildRun`.
- `multiprocessing.Process` start and join are process-level concurrency. They are reduced to the `ChildRun` input. Which files a late child writes is modelled (`WritesFailureLog`, `WritesBodyPdf`). When it writes them, relative to the rest of the run, is not.
- BatchRun.RunBatch: the output directory it returns has no body PDFs from children that outlived the join, because when they write is not modelled. Every PDF a child leaves within the join is in the map, whatever its exit status. A file that `write_pdf` only partly wrote before raising or dying is not.
- RenderOutcome.CaughtErrorCountsAsRendered: says nothing about when a late child's failure log appears, nor about what a log that the unguarded `except` block (lines 17-20) left unfinished contains. It may be written after later files have been processed, or while the interpreter waits for the child at exit.
- Exceptions that abort the whole run are not modelled:
  - an unreadable or unparsable file;
  - a `get_payload(decode=True)` of `None`;
  - a failed attachment write;
  - a `get_content()` that cannot decode a text part, such as one with an unknown charset (lines 47, 50, 54 and 56). A failing plain-text part aborts the run even when an HTML part follows it.
  - a failing `proc.start()` (line 63);
  - an `output` path that is an existing file.
- Output names are treated as plain strings inside one directory. A filename holding path separators (such as `../`) would be resolved by `pathlib` outside the output directory, and that is not modelled.
- `LOG_DIR.mkdir` at import time, `argparse`, `glob` (its result is the input file sequence) and every `print` are I/O and are left out.
