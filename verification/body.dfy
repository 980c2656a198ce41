/**
 * Choice of the message body that `process_eml_file` renders
 * (eml2pdf.py lines 42-56).
 *
 * A multipart message offers the parts of `msg.walk()` in depth-first MIME
 * tree order (section 5.1 of RFC 2046), the root container first; a
 * single-part message offers its own content type and content. Both are
 * inputs here: the email library's parsing and decoding are not modelled.
 */
module BodySelection {
  import opened Wrappers

  /** One part reached by `walk()`: `get_content_type()` and `get_content()`. */
  datatype WalkedPart = WalkedPart(contentType: string, content: string)

  /** What `is_multipart()` separates. */
  datatype MessageBody =
    | Multipart(walked: seq<WalkedPart>)
    | SinglePart(contentType: string, content: string)

  const Html: string := "text/html"
  const Plain: string := "text/plain"
  const PreOpen: string := "<pre>"
  const PreClose: string := "</pre>"

  /** Plain text is wrapped in a preformatted-text element so that it renders
      as HTML. The result is never empty, starts with `<pre>`, ends with
      `</pre>`, and the text can be read back from between the markers. */
  function Preformatted(text: string): (html: string)
    ensures |html| == |PreOpen| + |text| + |PreClose|
    ensures html[..|PreOpen|] == PreOpen && html[|html| - |PreClose|..] == PreClose
    ensures html[|PreOpen|..|html| - |PreClose|] == text
  {
    PreOpen + text + PreClose
  }

  /** The first walked part of the given type, if any. */
  function FirstOfType(parts: seq<WalkedPart>, ct: string): (r: Option<nat>)
    ensures r.Some? ==> r.value < |parts| && parts[r.value].contentType == ct
    ensures r.Some? ==> forall j :: 0 <= j < r.value ==> parts[j].contentType != ct
    ensures r.None? ==> forall j :: 0 <= j < |parts| ==> parts[j].contentType != ct
  {
    if parts == [] then None
    else if parts[0].contentType == ct then Some(0)
    else match FirstOfType(parts[1..], ct)
      case None => None
      case Some(k) => Some(k + 1)
  }

  /** The last walked part of the given type, if any. */
  function LastOfType(parts: seq<WalkedPart>, ct: string): (r: Option<nat>)
    ensures r.Some? ==> r.value < |parts| && parts[r.value].contentType == ct
    ensures r.Some? ==> forall j :: r.value < j < |parts| ==> parts[j].contentType != ct
    ensures r.None? ==> forall j :: 0 <= j < |parts| ==> parts[j].contentType != ct
  {
    if parts == [] then None
    else if parts[|parts| - 1].contentType == ct then Some(|parts| - 1)
    else LastOfType(parts[..|parts| - 1], ct)
  }

  /** The multipart rule, stated without the loop: the content of the first
      HTML part; failing that the wrapped content of the last plain-text part;
      failing that no body. */
  function MultipartBody(walked: seq<WalkedPart>): Option<string>
  {
    match FirstOfType(walked, Html)
    case Some(i) => Some(walked[i].content)
    case None =>
      match LastOfType(walked, Plain)
      case Some(i) => Some(Preformatted(walked[i].content))
      case None => None
  }

  /** The single-part rule: raw HTML, wrapped plain text, otherwise no body. */
  function SinglePartBody(ct: string, content: string): (body: Option<string>)
    ensures body.Some? <==> ct == Html || ct == Plain
    ensures ct == Html ==> body == Some(content)
    ensures ct == Plain ==> body == Some(Preformatted(content))
  {
    if ct == Html then Some(content)
    else if ct == Plain then Some(Preformatted(content))
    else None
  }

  /** The body chosen for a message. */
  function SelectBody(m: MessageBody): Option<string>
  {
    match m
    case Multipart(walked) => MultipartBody(walked)
    case SinglePart(ct, content) => SinglePartBody(ct, content)
  }

  /** Python truthiness of `body`: `None` and the empty string are false. */
  predicate Renderable(body: Option<string>)
  {
    body.Some? && body.value != []
  }

  /** The loop of eml2pdf.py lines 45-50: an HTML part ends the scan, a
      plain-text part replaces the body found so far. */
  method ScanWalkedParts(walked: seq<WalkedPart>) returns (body: Option<string>)
    ensures body == MultipartBody(walked)
  {
    body := None;
    var i := 0;
    while i < |walked|
      invariant 0 <= i <= |walked|
      invariant forall j :: 0 <= j < i ==> walked[j].contentType != Html
      invariant body == match LastOfType(walked[..i], Plain)
                        case Some(k) => Some(Preformatted(walked[k].content))
                        case None => None
    {
      assert walked[..i + 1][..i] == walked[..i];
      if walked[i].contentType == Html {
        body := Some(walked[i].content);
        break;
      } else if walked[i].contentType == Plain {
        body := Some(Preformatted(walked[i].content));
      }
      i := i + 1;
    }
    assert i == |walked| ==> walked[..i] == walked;
  }

  /** The first HTML part wins, whatever plain-text parts come before or after it. */
  lemma FirstHtmlWins(walked: seq<WalkedPart>, i: nat)
    requires i < |walked| && walked[i].contentType == Html
    requires forall j :: 0 <= j < i ==> walked[j].contentType != Html
    ensures MultipartBody(walked) == Some(walked[i].content)
  {
  }

  /** Without an HTML part, the last plain-text part wins. */
  lemma LastPlainWins(walked: seq<WalkedPart>, i: nat)
    requires forall j :: 0 <= j < |walked| ==> walked[j].contentType != Html
    requires i < |walked| && walked[i].contentType == Plain
    requires forall j :: i < j < |walked| ==> walked[j].contentType != Plain
    ensures MultipartBody(walked) == Some(Preformatted(walked[i].content))
  {
  }

  /** A multipart message with neither an HTML nor a plain-text part has no body. */
  lemma NoTextNoBody(walked: seq<WalkedPart>)
    requires forall j :: 0 <= j < |walked| ==> walked[j].contentType != Html && walked[j].contentType != Plain
    ensures MultipartBody(walked) == None
  {
  }

  /** An empty first HTML part still ends the scan, so the message has
      nothing to render even when it also has plain-text parts. */
  lemma EmptyHtmlShadowsPlain(walked: seq<WalkedPart>, i: nat)
    requires i < |walked| && walked[i].contentType == Html && walked[i].content == []
    requires forall j :: 0 <= j < i ==> walked[j].contentType != Html
    ensures !Renderable(MultipartBody(walked))
  {
  }

  /** A plain-text body always reaches the renderer, even for empty text;
      an empty body can only be an HTML one. */
  lemma RenderableBody(m: MessageBody)
    ensures m.SinglePart? && m.contentType == Plain ==> Renderable(SelectBody(m))
    ensures m.Multipart? && FirstOfType(m.walked, Html).None? && LastOfType(m.walked, Plain).Some? ==>
              Renderable(SelectBody(m))
    ensures SelectBody(m) == Some([]) ==> (m.SinglePart? && m.contentType == Html) || (m.Multipart? && FirstOfType(m.walked, Html).Some?)
  {
  }

  /** The single-part rule is the multipart rule applied to the one part. */
  lemma SinglePartIsOneWalkedPart(ct: string, content: string)
    ensures SinglePartBody(ct, content) == MultipartBody([WalkedPart(ct, content)])
  {
  }
}
