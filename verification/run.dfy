/**
 * `main` (eml2pdf.py lines 76-106): check the folder, then process every
 * `*.eml` file in it one after another and add up the results.
 *
 * The folder listing is the input `InputFolder`: its files in the order
 * `glob` returns them, each with the parsed message and the way its render
 * child ends. Argument parsing and the printed summary are not modelled.
 */
module BatchRun {
  import opened Wrappers
  import opened Attachments
  import opened RenderOutcome
  import opened EmlProcessing
  import opened BodySelection

  /** One `*.eml` file: its stem, its parsed message and how its render child ends. */
  datatype EmlInput = EmlInput(stem: string, email: Email, run: ChildRun)

  /** The folder named on the command line. `output` is its `output`
      sub-directory, if one exists already. */
  datatype InputFolder =
    | Missing
    | NotADirectory
    | Directory(emlFiles: seq<EmlInput>, output: Option<Dir>)

  /** The four counters of `main`. */
  datatype Totals = Totals(total: nat, attachments: nat, bodyPdfs: nat, failed: nat)

  /** How `main` ends: an early return, or a completed loop with its counters. */
  datatype RunReport = InvalidFolder | NoEmlFiles | Finished(totals: Totals)

  /** One iteration of the counter loop. */
  function Tally(t: Totals, r: FileResult): Totals
  {
    Totals(t.total + 1, t.attachments + r.extracted,
           t.bodyPdfs + (if r.rendered then 1 else 0),
           t.failed + (if r.crashed then 1 else 0))
  }

  /** The counters after folding the results in order, from zero. */
  function FoldResults(rs: seq<FileResult>): Totals
  {
    if rs == [] then Totals(0, 0, 0, 0) else Tally(FoldResults(rs[..|rs| - 1]), rs[|rs| - 1])
  }

  function SumExtracted(rs: seq<FileResult>): nat
  {
    if rs == [] then 0 else rs[0].extracted + SumExtracted(rs[1..])
  }

  function CountRendered(rs: seq<FileResult>): nat
  {
    if rs == [] then 0 else (if rs[0].rendered then 1 else 0) + CountRendered(rs[1..])
  }

  function CountCrashed(rs: seq<FileResult>): nat
  {
    if rs == [] then 0 else (if rs[0].crashed then 1 else 0) + CountCrashed(rs[1..])
  }

  /** Appending one result adds its share to each sum. */
  lemma {:induction false} SumsAppend(rs: seq<FileResult>, r: FileResult)
    ensures SumExtracted(rs + [r]) == SumExtracted(rs) + r.extracted
    ensures CountRendered(rs + [r]) == CountRendered(rs) + (if r.rendered then 1 else 0)
    ensures CountCrashed(rs + [r]) == CountCrashed(rs) + (if r.crashed then 1 else 0)
  {
    if rs != [] {
      assert (rs + [r])[1..] == rs[1..] + [r];
      SumsAppend(rs[1..], r);
    }
  }

  /** After folding k results: `total` is k, `attachments` the sum of the
      extracted counts, `body_pdfs` the number of rendered results and
      `failed` the number of crashed ones. */
  lemma {:induction false} FoldResultsCounts(rs: seq<FileResult>)
    ensures FoldResults(rs) == Totals(|rs|, SumExtracted(rs), CountRendered(rs), CountCrashed(rs))
  {
    if rs != [] {
      var init := rs[..|rs| - 1];
      FoldResultsCounts(init);
      SumsAppend(init, rs[|rs| - 1]);
      assert init + [rs[|rs| - 1]] == rs;
    }
  }

  /** When no result is both rendered and crashed, rendered bodies and
      failures together never exceed the number of files. */
  lemma {:induction false} RenderedPlusFailedAtMostTotal(rs: seq<FileResult>)
    requires forall i :: 0 <= i < |rs| ==> !(rs[i].rendered && rs[i].crashed)
    ensures CountRendered(rs) + CountCrashed(rs) <= |rs|
  {
    if rs != [] {
      RenderedPlusFailedAtMostTotal(rs[1..]);
    }
  }

  /** The results of the files, in processing order. */
  function ResultsOf(files: seq<EmlInput>): (rs: seq<FileResult>)
    ensures |rs| == |files|
  {
    if files == [] then []
    else ResultsOf(files[..|files| - 1]) + [FileOutcome(files[|files| - 1].email, files[|files| - 1].run)]
  }

  /** Across a run, rendered bodies and failures together never exceed the
      number of files processed. */
  lemma {:induction false} ResultsRenderedPlusFailed(files: seq<EmlInput>)
    ensures CountRendered(ResultsOf(files)) + CountCrashed(ResultsOf(files)) <= |files|
  {
    var rs := ResultsOf(files);
    forall i | 0 <= i < |rs|
      ensures !(rs[i].rendered && rs[i].crashed)
    {
      ResultsOfAt(files, i);
    }
    RenderedPlusFailedAtMostTotal(rs);
  }

  lemma {:induction false} ResultsOfAt(files: seq<EmlInput>, i: nat)
    requires i < |files|
    ensures ResultsOf(files)[i] == FileOutcome(files[i].email, files[i].run)
  {
    var k := |files| - 1;
    if i < k {
      var init := files[..k];
      ResultsOfAt(init, i);
    }
  }

  /** The output directory after the writes of the files, in order. */
  function WriteAllFiles(dir: Dir, files: seq<EmlInput>): Dir
  {
    if files == [] then dir
    else
      var last := files[|files| - 1];
      FileWrites(WriteAllFiles(dir, files[..|files| - 1]), last.stem, last.email, last.run)
  }

  /** One more file adds its result to the fold and its writes to the directory. */
  lemma {:induction false} StepFile(dir: Dir, files: seq<EmlInput>, i: nat)
    requires i < |files|
    ensures FoldResults(ResultsOf(files[..i + 1])) ==
              Tally(FoldResults(ResultsOf(files[..i])), FileOutcome(files[i].email, files[i].run))
    ensures WriteAllFiles(dir, files[..i + 1]) ==
              FileWrites(WriteAllFiles(dir, files[..i]), files[i].stem, files[i].email, files[i].run)
  {
    var prefix := files[..i + 1];
    assert prefix[..i] == files[..i];
    var rs := ResultsOf(prefix);
    assert rs[..i] == ResultsOf(files[..i]);
  }

  /** A body PDF written within the join by the last file processed holds
      its bytes at the end of the run, whatever an earlier file wrote
      under that name (an attachment such as `b.pdf` of `a.eml` for the body
      of `a__b.eml`). */
  lemma LastBodyPdfWins(dir: Dir, files: seq<EmlInput>, pdf: seq<byte>)
    requires files != [] && files[|files| - 1].run.Ended? && PdfOf(files[|files| - 1].run.end) == Some(pdf)
    requires Renderable(SelectBody(files[|files| - 1].email.body))
    ensures BodyPdfName(files[|files| - 1].stem) in WriteAllFiles(dir, files)
    ensures WriteAllFiles(dir, files)[BodyPdfName(files[|files| - 1].stem)] == pdf
  {
  }

  /** The output directory once `mkdir(exist_ok=True)` has run. */
  function EnsureDir(output: Option<Dir>): Dir
  {
    if output.Some? then output.value else map[]
  }

  /** The body of `main`: an invalid folder ends the run before anything is created; a
      folder without `*.eml` files ends it after the output directory is
      created; otherwise every file is processed and its result counted. */
  method RunBatch(folder: InputFolder) returns (report: RunReport, output: Option<Dir>)
    ensures !folder.Directory? ==> report == InvalidFolder && output == None
    ensures folder.Directory? && folder.emlFiles == [] ==>
              report == NoEmlFiles && output == Some(EnsureDir(folder.output))
    ensures folder.Directory? && folder.emlFiles != [] ==>
              var rs := ResultsOf(folder.emlFiles);
              && report == Finished(Totals(|rs|, SumExtracted(rs), CountRendered(rs), CountCrashed(rs)))
              && report.totals.bodyPdfs + report.totals.failed <= report.totals.total
              && output == Some(WriteAllFiles(EnsureDir(folder.output), folder.emlFiles))
  {
    if !folder.Directory? {
      return InvalidFolder, None;
    }
    var files := folder.emlFiles;
    var dir := EnsureDir(folder.output);
    if files == [] {
      return NoEmlFiles, Some(dir);
    }

    var total: nat, attachments: nat, bodyPdfs: nat, failed: nat := 0, 0, 0, 0;
    for i := 0 to |files|
      invariant Totals(total, attachments, bodyPdfs, failed) == FoldResults(ResultsOf(files[..i]))
      invariant dir == WriteAllFiles(EnsureDir(folder.output), files[..i])
    {
      StepFile(EnsureDir(folder.output), files, i);
      ghost var before := Totals(total, attachments, bodyPdfs, failed);
      total := total + 1;
      var result, written, _ := ProcessEmlFile(files[i].stem, files[i].email, files[i].run, dir);
      dir := written;
      attachments := attachments + result.extracted;
      bodyPdfs := bodyPdfs + (if result.rendered then 1 else 0);
      failed := failed + (if result.crashed then 1 else 0);
      assert Totals(total, attachments, bodyPdfs, failed) == Tally(before, result);
    }
    assert files[..|files|] == files;

    FoldResultsCounts(ResultsOf(files));
    ResultsRenderedPlusFailed(files);
    report := Finished(Totals(total, attachments, bodyPdfs, failed));
    output := Some(dir);
  }
}
