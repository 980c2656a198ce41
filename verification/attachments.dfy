/**
 * Selection and naming of the PDF attachments that `process_eml_file`
 * copies out of one message (eml2pdf.py lines 31-40).
 *
 * The email library's `iter_attachments()` is not modelled: its result is
 * the input `parts`. The output directory is a map from file name to the
 * bytes written there; writing a name that is already present replaces it,
 * as `open(path, 'wb')` does.
 */
module Attachments {
  import opened Wrappers

  newtype byte = b: int | 0 <= b < 256

  /** One part yielded by `iter_attachments()`: `get_filename()`,
      `get_content_type()` and the decoded payload. */
  datatype AttachmentPart = AttachmentPart(filename: Option<string>, contentType: string, payload: seq<byte>)

  /** The files of the output directory. */
  type Dir = map<string, seq<byte>>

  /** The media type of PDF documents (RFC 3778). */
  const PdfContentType: string := "application/pdf"

  /** What separates the message's stem from the attachment's own name. */
  const Separator: string := "__"

  /** A part is extracted only if it has a non-empty filename and its content
      type is exactly application/pdf. */
  predicate Qualifies(p: AttachmentPart)
  {
    p.filename.Some? && p.filename.value != [] && p.contentType == PdfContentType
  }

  /** The file an attachment is written to: stem, separator, attachment name. */
  function AttachmentName(stem: string, filename: string): (name: string)
    ensures |name| == |stem| + |Separator| + |filename|
    ensures name[..|stem|] == stem && name[|stem| + |Separator|..] == filename
    ensures name[|stem|..|stem| + |Separator|] == Separator
  {
    stem + Separator + filename
  }

  /** For one stem, the output name determines the attachment's filename. */
  lemma AttachmentNameInjective(stem: string, f1: string, f2: string)
    requires AttachmentName(stem, f1) == AttachmentName(stem, f2)
    ensures f1 == f2
  {
  }

  /** Output names are not injective across stems: the stem "a_" with the
      attachment "b" and the stem "a" with the attachment "_b" both write "a___b". */
  lemma AttachmentNameCollidesAcrossStems()
    ensures AttachmentName("a_", "b") == AttachmentName("a", "_b") == "a___b"
  {
  }

  /** The number of parts that qualify, counted as the loop does: one per
      qualifying part, in order. */
  function CountQualifying(parts: seq<AttachmentPart>): (n: nat)
    ensures n <= |parts|
  {
    if parts == [] then 0
    else CountQualifying(parts[..|parts| - 1]) + (if Qualifies(parts[|parts| - 1]) then 1 else 0)
  }

  /** The positions of the qualifying parts. */
  function QualifyingIndices(parts: seq<AttachmentPart>): set<int>
  {
    set i | 0 <= i < |parts| && Qualifies(parts[i])
  }

  /** The count is exactly the number of qualifying parts: parts that share a
      filename are each counted. */
  lemma {:induction false} CountIsQualifyingIndices(parts: seq<AttachmentPart>)
    ensures CountQualifying(parts) == |QualifyingIndices(parts)|
  {
    if parts != [] {
      var k := |parts| - 1;
      var init := parts[..k];
      CountIsQualifyingIndices(init);
      var rest := QualifyingIndices(init);
      assert k !in rest;
      if Qualifies(parts[k]) {
        assert QualifyingIndices(parts) == rest + {k};
      } else {
        assert QualifyingIndices(parts) == rest;
      }
    }
  }

  /** The output directory after the writes of the loop, one per qualifying
      part, in order. */
  function WriteQualifying(dir: Dir, stem: string, parts: seq<AttachmentPart>): Dir
  {
    if parts == [] then dir
    else
      var before := WriteQualifying(dir, stem, parts[..|parts| - 1]);
      var p := parts[|parts| - 1];
      if Qualifies(p) then before[AttachmentName(stem, p.filename.value) := p.payload] else before
  }

  /** The names the loop writes to. */
  function WrittenNames(stem: string, parts: seq<AttachmentPart>): set<string>
  {
    set i | 0 <= i < |parts| && Qualifies(parts[i]) :: AttachmentName(stem, parts[i].filename.value)
  }

  /** After the loop the directory holds what it held before plus exactly one
      file per distinct qualifying name; every other file is left as it was. */
  lemma {:induction false} WriteQualifyingFrame(dir: Dir, stem: string, parts: seq<AttachmentPart>)
    ensures WriteQualifying(dir, stem, parts).Keys == dir.Keys + WrittenNames(stem, parts)
    ensures forall name :: name in dir && name !in WrittenNames(stem, parts) ==>
              WriteQualifying(dir, stem, parts)[name] == dir[name]
  {
    if parts != [] {
      var k := |parts| - 1;
      var init := parts[..k];
      WriteQualifyingFrame(dir, stem, init);
      assert forall i :: 0 <= i < k ==> init[i] == parts[i];
      if Qualifies(parts[k]) {
        assert WrittenNames(stem, parts) == WrittenNames(stem, init) + {AttachmentName(stem, parts[k].filename.value)};
      } else {
        assert WrittenNames(stem, parts) == WrittenNames(stem, init);
      }
    }
  }

  /** A qualifying part's bytes end up in its output file unless a later
      qualifying part has the same filename (then the later write wins). */
  lemma {:induction false} WriteQualifyingLastWins(dir: Dir, stem: string, parts: seq<AttachmentPart>, i: nat)
    requires i < |parts| && Qualifies(parts[i])
    requires forall j :: i < j < |parts| && Qualifies(parts[j]) ==> parts[j].filename != parts[i].filename
    ensures AttachmentName(stem, parts[i].filename.value) in WriteQualifying(dir, stem, parts)
    ensures WriteQualifying(dir, stem, parts)[AttachmentName(stem, parts[i].filename.value)] == parts[i].payload
  {
    var k := |parts| - 1;
    if i < k {
      var init := parts[..k];
      WriteQualifyingLastWins(dir, stem, init, i);
    }
  }

  /** Two qualifying parts with the same filename are both counted but leave
      one file, holding the second part's bytes. */
  lemma DuplicateFilenameOverwrites(dir: Dir, stem: string, p: AttachmentPart, q: AttachmentPart)
    requires Qualifies(p) && Qualifies(q) && p.filename == q.filename
    ensures CountQualifying([p, q]) == 2
    ensures WriteQualifying(dir, stem, [p, q]) == dir[AttachmentName(stem, p.filename.value) := q.payload]
  {
    var name := AttachmentName(stem, p.filename.value);
    assert [p, q][..1] == [p];
    assert [p][..0] == [];
    assert WriteQualifying(dir, stem, [p]) == dir[name := p.payload];
  }

  /** The loop of eml2pdf.py lines 32-40: writes every qualifying part to
      `stem__filename` and counts it. */
  method ExtractPdfAttachments(stem: string, parts: seq<AttachmentPart>, dir: Dir) returns (extracted: nat, written: Dir)
    ensures extracted == CountQualifying(parts) == |QualifyingIndices(parts)|
    ensures written == WriteQualifying(dir, stem, parts)
  {
    extracted := 0;
    written := dir;
    for i := 0 to |parts|
      invariant extracted == CountQualifying(parts[..i])
      invariant written == WriteQualifying(dir, stem, parts[..i])
    {
      assert parts[..i + 1][..i] == parts[..i];
      var part := parts[i];
      if Qualifies(part) {
        written := written[AttachmentName(stem, part.filename.value) := part.payload];
        extracted := extracted + 1;
      }
    }
    assert parts[..|parts|] == parts;
    CountIsQualifyingIndices(parts);
  }
}
