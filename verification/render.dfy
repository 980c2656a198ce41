/**
 * The outcome of rendering a body in a child process
 * (eml2pdf.py lines 12-20 and 58-72).
 *
 * The child runs `render_pdf_safe`, which catches every `Exception` that
 * rendering raises, writes a failure log and returns normally. The parent
 * waits up to 30 seconds and then reads the child's exit code, which is
 * still `None` if the child has not finished. The child is never
 * terminated: one that outlives the join goes on running and ends later,
 * with the same effects on the PDF and the log. Rendering itself and the
 * process machinery are not modelled: only how the child ends.
 */
module RenderOutcome {
  import opened Wrappers
  import opened Attachments

  /** How the child running `render_pdf_safe` ends, with the files it leaves. */
  datatype ChildEnd =
    /** `write_pdf` and the message after it completed: the PDF holds these
        bytes and the function returns normally. */
    | WrotePdf(pdf: seq<byte>)
    /** An `Exception` was caught and the failure log completed, so the
        function returns normally. The PDF is there only if the exception came
        after `write_pdf` finished, from the message that follows it. */
    | RaisedException(pdfLeft: Option<seq<byte>>)
    /** The process ended with this exit status without `render_pdf_safe`
        returning: a native crash, an error escaping the unguarded `except`
        block once it had created the log, or a failure at process exit after
        the PDF was written. `pdfLeft` and `logged` say which files it left. */
    | Died(status: int, pdfLeft: Option<seq<byte>>, logged: bool)

  /** The render child as the parent sees it at the end of the 30-second join. */
  datatype ChildRun =
    | Ended(end: ChildEnd)                    // finished within the join
    | OutlivedJoin(later: Option<ChildEnd>)   // still running; ends later, or never

  /** `proc.exitcode` after `proc.join(timeout=30)`: 0 when `render_pdf_safe`
      returned, the process's status when it died, `None` while it runs. */
  function ExitCode(run: ChildRun): (code: Option<int>)
    ensures code.None? <==> run.OutlivedJoin?
    ensures run.Ended? && !run.end.Died? ==> code == Some(0)
    ensures run.Ended? && run.end.Died? ==> code == Some(run.end.status)
  {
    match run
    case Ended(WrotePdf(_)) => Some(0)
    case Ended(RaisedException(_)) => Some(0)
    case Ended(Died(status, _, _)) => Some(status)
    case OutlivedJoin(_) => None
  }

  /** Whether this end leaves a failure log. */
  predicate Logged(end: ChildEnd)
  {
    match end
    case WrotePdf(_) => false
    case RaisedException(_) => true
    case Died(_, _, logged) => logged
  }

  /** The body PDF this end leaves, if any. */
  function PdfOf(end: ChildEnd): Option<seq<byte>>
  {
    match end
    case WrotePdf(pdf) => Some(pdf)
    case RaisedException(pdf) => pdf
    case Died(_, pdf, _) => pdf
  }

  /** Whether the child writes its failure log, within the join or later. */
  predicate WritesFailureLog(run: ChildRun)
  {
    match run
    case Ended(end) => Logged(end)
    case OutlivedJoin(later) => later.Some? && Logged(later.value)
  }

  /** Whether the child writes the body PDF, within the join or later. */
  predicate WritesBodyPdf(run: ChildRun)
  {
    match run
    case Ended(end) => PdfOf(end).Some?
    case OutlivedJoin(later) => later.Some? && PdfOf(later.value).Some?
  }

  /** `rendered` and `crashed` as `process_eml_file` sets them. */
  datatype Outcome = Outcome(rendered: bool, crashed: bool)

  /** Without a renderable body nothing is attempted; with one, exit code 0
      means rendered and anything else, including no exit code, crashed. */
  function Classify(renderable: bool, exitCode: Option<int>): (o: Outcome)
    ensures !(o.rendered && o.crashed)
    ensures o.rendered || o.crashed <==> renderable
    ensures o.rendered <==> renderable && exitCode == Some(0)
  {
    if renderable then
      if exitCode == Some(0) then Outcome(true, false) else Outcome(false, true)
    else Outcome(false, false)
  }

  /** A rendering error caught inside a child that ends within the join is
      counted as a rendered body, with its failure log. A failure log for a
      file counted as crashed means the child did not return normally in
      time: it outlived the join, or it died after creating the log. */
  lemma CaughtErrorCountsAsRendered(run: ChildRun)
    ensures run.Ended? && run.end.RaisedException? ==>
              Classify(true, ExitCode(run)) == Outcome(true, false) && WritesFailureLog(run)
    ensures WritesFailureLog(run) && Classify(true, ExitCode(run)).crashed ==>
              run.OutlivedJoin? || (run.end.Died? && run.end.logged && run.end.status != 0)
  {
  }

  /** A child still running at the end of the join is counted as crashed,
      and so is one that ended with a non-zero status. */
  lemma TimeoutOrAbnormalExitCountsAsCrashed(run: ChildRun)
    ensures run.OutlivedJoin? ==> Classify(true, ExitCode(run)) == Outcome(false, true)
    ensures run.Ended? && run.end.Died? && run.end.status != 0 ==> Classify(true, ExitCode(run)) == Outcome(false, true)
  {
  }

  /** Within the join, a file can be counted as crashed and still have its
      failure log (the `except` block created it and then failed, so the
      child exits with status 1) or its body PDF (the child died after
      writing it); and counted as rendered with both a PDF and a log (the
      message after `write_pdf` raised). */
  lemma InJoinFilesAndOutcome(pdf: seq<byte>)
    ensures Classify(true, ExitCode(Ended(Died(1, None, true)))) == Outcome(false, true)
    ensures WritesFailureLog(Ended(Died(1, None, true)))
    ensures Classify(true, ExitCode(Ended(Died(1, Some(pdf), false)))) == Outcome(false, true)
    ensures WritesBodyPdf(Ended(Died(1, Some(pdf), false)))
    ensures Classify(true, ExitCode(Ended(RaisedException(Some(pdf))))) == Outcome(true, false)
    ensures WritesBodyPdf(Ended(RaisedException(Some(pdf)))) && WritesFailureLog(Ended(RaisedException(Some(pdf))))
  {
  }

  /** A file counted as crashed because its child outlived the join can still
      get its failure log, or its body PDF, when that child ends later. */
  lemma LateChildAfterCrash(pdf: seq<byte>)
    ensures Classify(true, ExitCode(OutlivedJoin(Some(RaisedException(None))))) == Outcome(false, true)
    ensures WritesFailureLog(OutlivedJoin(Some(RaisedException(None))))
    ensures Classify(true, ExitCode(OutlivedJoin(Some(WrotePdf(pdf))))) == Outcome(false, true)
    ensures WritesBodyPdf(OutlivedJoin(Some(WrotePdf(pdf))))
  {
  }
}
