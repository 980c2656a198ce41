/**
 * `process_eml_file` (eml2pdf.py lines 22-74): extract the PDF
 * attachments of one message, choose its body and classify the render.
 *
 * The parsed message is the input `Email`: what `iter_attachments()`
 * yields and what the body rule sees. Opening and parsing the file are not
 * modelled.
 */
module EmlProcessing {
  import opened Wrappers
  import opened Attachments
  import opened BodySelection
  import opened RenderOutcome

  datatype Email = Email(attachments: seq<AttachmentPart>, body: MessageBody)

  /** The triple `(extracted, rendered, crashed)` the function returns. */
  datatype FileResult = FileResult(extracted: nat, rendered: bool, crashed: bool)

  /** The files a render attempt may produce: the body PDF in the output
      directory and the failure log in the log directory. */
  datatype RenderTarget = RenderTarget(pdfName: string, logName: string)

  const PdfSuffix: string := ".pdf"
  const LogPrefix: string := "render_fail_"
  const LogSuffix: string := ".log"

  function BodyPdfName(stem: string): (name: string)
    ensures |name| == |stem| + |PdfSuffix| && name[..|stem|] == stem && name[|stem|..] == PdfSuffix
  {
    stem + PdfSuffix
  }

  function FailureLogName(stem: string): (name: string)
    ensures |name| == |LogPrefix| + |stem| + |LogSuffix|
    ensures name[..|LogPrefix|] == LogPrefix && name[|LogPrefix|..|name| - |LogSuffix|] == stem
    ensures name[|name| - |LogSuffix|..] == LogSuffix
  {
    LogPrefix + stem + LogSuffix
  }

  /** Distinct stems get distinct body PDFs and distinct failure logs. */
  lemma RenderNamesInjective(s1: string, s2: string)
    requires s1 != s2
    ensures BodyPdfName(s1) != BodyPdfName(s2)
    ensures FailureLogName(s1) != FailureLogName(s2)
  {
  }

  /** Within one message the body PDF never overwrites an extracted
      attachment: after the stem one name continues with '.', the other with '_'. */
  lemma BodyPdfIsNoAttachmentName(stem: string, filename: string)
    ensures BodyPdfName(stem) != AttachmentName(stem, filename)
  {
    assert BodyPdfName(stem)[|stem|] == '.';
    assert AttachmentName(stem, filename)[|stem|] == '_';
  }

  /** Across messages they can collide: the attachment "b.pdf" of "a.eml"
      and the body of "a__b.eml" are both written to "a__b.pdf". */
  lemma BodyPdfCollidesAcrossStems()
    ensures BodyPdfName("a__b") == AttachmentName("a", "b.pdf")
  {
  }

  /** What `process_eml_file` returns for a message whose render child ends as `run`. */
  function FileOutcome(email: Email, run: ChildRun): (r: FileResult)
    ensures r.extracted == |QualifyingIndices(email.attachments)|
    ensures !(r.rendered && r.crashed)
    ensures r.rendered || r.crashed <==> Renderable(SelectBody(email.body))
    ensures r.rendered <==> Renderable(SelectBody(email.body)) && ExitCode(run) == Some(0)
  {
    CountIsQualifyingIndices(email.attachments);
    var o := Classify(Renderable(SelectBody(email.body)), ExitCode(run));
    FileResult(CountQualifying(email.attachments), o.rendered, o.crashed)
  }

  /** The output directory after one message: its attachment writes, then
      the body PDF when the render child wrote one within the join. A child
      that outlives the join writes later, outside this model of the run. */
  function FileWrites(dir: Dir, stem: string, email: Email, run: ChildRun): Dir
  {
    var afterAttachments := WriteQualifying(dir, stem, email.attachments);
    if Renderable(SelectBody(email.body)) && run.Ended? && PdfOf(run.end).Some? then
      afterAttachments[BodyPdfName(stem) := PdfOf(run.end).value]
    else afterAttachments
  }

  /** The body PDF is written over whatever held its name, an attachment of
      this run or a file left by an earlier run, exactly when the child left
      one within the join; otherwise only the attachment writes change the
      directory. A child that completed `write_pdf` and returned gets its
      file counted as rendered. */
  lemma FileWritesBodyPdf(dir: Dir, stem: string, email: Email, run: ChildRun)
    ensures Renderable(SelectBody(email.body)) && run.Ended? && run.end.WrotePdf? ==>
              FileOutcome(email, run).rendered
    ensures Renderable(SelectBody(email.body)) && run.Ended? && PdfOf(run.end).Some? ==>
              FileWrites(dir, stem, email, run) ==
                WriteQualifying(dir, stem, email.attachments)[BodyPdfName(stem) := PdfOf(run.end).value]
    ensures !(Renderable(SelectBody(email.body)) && run.Ended? && PdfOf(run.end).Some?) ==>
              FileWrites(dir, stem, email, run) == WriteQualifying(dir, stem, email.attachments)
    ensures FileWrites(dir, stem, email, run).Keys <= dir.Keys + WrittenNames(stem, email.attachments) + {BodyPdfName(stem)}
  {
    WriteQualifyingFrame(dir, stem, email.attachments);
  }

  /** One message, step by step: the attachment loop, the body scan and the
      render decision. Returns the triple, the output directory after the
      attachment writes and the body PDF, and the render target when a
      render was started. */
  method ProcessEmlFile(stem: string, email: Email, run: ChildRun, dir: Dir)
    returns (result: FileResult, written: Dir, target: Option<RenderTarget>)
    ensures result == FileOutcome(email, run)
    ensures written == FileWrites(dir, stem, email, run)
    ensures target.Some? <==> Renderable(SelectBody(email.body))
    ensures target.Some? ==> target.value == RenderTarget(BodyPdfName(stem), FailureLogName(stem))
  {
    var extracted;
    extracted, written := ExtractPdfAttachments(stem, email.attachments, dir);

    var body: Option<string> := None;
    match email.body {
      case Multipart(walked) =>
        body := ScanWalkedParts(walked);
      case SinglePart(ct, content) =>
        body := SinglePartBody(ct, content);
    }

    var rendered, crashed := false, false;
    target := None;
    if body.Some? && body.value != [] {
      target := Some(RenderTarget(BodyPdfName(stem), FailureLogName(stem)));
      if run.Ended? && PdfOf(run.end).Some? {
        written := written[BodyPdfName(stem) := PdfOf(run.end).value];
      }
      if ExitCode(run) == Some(0) {
        rendered := true;
      } else {
        crashed := true;
      }
    }
    result := FileResult(extracted, rendered, crashed);
  }
}
