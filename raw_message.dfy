/**
 * The chain both email builders end with:
 * `Buffer.from(lines.join("\n")).toString("base64")` rewritten to unpadded
 * base64url, the form the Gmail API takes as a raw message. Lines are
 * separated by a bare LF, not CRLF.
 */
module RawMessage {
  import opened Wrappers
  import opened Bytes
  import Lines
  import Utf8
  import Base64

  /** The separator `join("\n")` puts between lines. */
  const Newline := '\n'

  /** The multipart layout both builders write (RFC 2046, section 5.1.1):
      the boundary parameter, the delimiter line that opens each body part
      and the close-delimiter line. */
  const MultipartHeader := "Content-Type: multipart/mixed; " + "boundary=\"boundary\""
  const Delimiter := "--boundary"
  const CloseDelimiter := "--boundary--"

  /** The top-level headers that open both messages. */
  function Headers(userEmail: string, kindleEmail: string, pageTitle: string): seq<string> {
    ["From: " + userEmail, "To: " + kindleEmail, "Subject: " + pageTitle, MultipartHeader, ""]
  }

  /** The plain-text body part. */
  function TextPart(text: string): seq<string> {
    [Delimiter, "Content-Type: text/plain", "", text, ""]
  }

  /** The delimiter and headers of the PDF attachment part; the file name
      goes verbatim into both the `name` and the `filename` parameter. */
  function AttachmentHeaders(fileName: string): seq<string> {
    [ Delimiter,
      "Content-Type: application/pdf; name=\"" + fileName + "\"",
      "Content-Transfer-Encoding: base64",
      "Content-Disposition: " + "attachment; filename=\"" + fileName + "\"",
      "" ]
  }

  /** No line holds a line feed. */
  predicate NoNewlines(lines: seq<string>) {
    forall k :: 0 <= k < |lines| ==> Newline !in lines[k]
  }

  /** No line of `lines` is a delimiter or a close-delimiter. */
  predicate NoDelimiters(lines: seq<string>) {
    forall k :: 0 <= k < |lines| ==> lines[k] != Delimiter && lines[k] != CloseDelimiter
  }

  /** The message text: the lines joined with LF. */
  function Text(lines: seq<string>): string {
    Lines.Join(lines, Newline)
  }

  /** The raw message: unpadded base64url of the UTF-8 bytes of the text. */
  function Encode(lines: seq<string>): (raw: string)
    ensures forall k :: 0 <= k < |raw| ==> Base64.IsUrlChar(raw[k])
    ensures Base64.Pad !in raw
    ensures |raw| == Base64.DataLength(|Utf8.Encode(Text(lines))|)
  {
    Base64.EncodeUrl(Utf8.Encode(Lines.Join(lines, Newline)))
  }

  /** What a receiver reads back from a raw message: the base64url payload
      decoded, the bytes read as UTF-8 and the text split at LF. */
  function Decode(raw: string): (r: Option<seq<string>>) {
    match Base64.DecodeUrl(raw)
    case None => None
    case Some(bytes) =>
      match Utf8.Decode(bytes)
      case None => None
      case Some(text) => Some(Lines.Split(text, Newline))
  }

  /** Re-padding and decoding the raw message gives exactly the UTF-8 bytes
      of the joined lines. */
  lemma EncodeBytes(lines: seq<string>)
    ensures Base64.DecodeUrl(Encode(lines)) == Some(Utf8.Encode(Text(lines)))
    ensures Utf8.Decode(Utf8.Encode(Text(lines))) == Some(Text(lines))
  {
    Base64.DecodeUrlEncodeUrl(Utf8.Encode(Text(lines)));
    Utf8.DecodeEncode(Text(lines));
  }

  /** A receiver gets the lines back, provided none of them holds a line
      feed. */
  lemma DecodeEncode(lines: seq<string>)
    requires |lines| >= 1
    requires forall k :: 0 <= k < |lines| ==> Newline !in lines[k]
    ensures Decode(Encode(lines)) == Some(lines)
  {
    EncodeBytes(lines);
    Lines.SplitJoin(lines, Newline);
  }

  lemma NoNewlinesConcat(a: seq<string>, b: seq<string>)
    requires NoNewlines(a) && NoNewlines(b)
    ensures NoNewlines(a + b)
  {
    assert forall k :: |a| <= k < |a + b| ==> (a + b)[k] == b[k - |a|];
  }

  /** A message assembled from blocks without line feeds has none. */
  lemma NoNewlinesBlocks(h: seq<string>, t: seq<string>, a: seq<string>, tail: seq<string>)
    requires NoNewlines(h) && NoNewlines(t) && NoNewlines(a) && NoNewlines(tail)
    ensures NoNewlines(h + t + a + tail)
  {
    NoNewlinesConcat(h, t);
    NoNewlinesConcat(h + t, a);
    NoNewlinesConcat(h + t + a, tail);
  }

  /** The headers hold no line feed when their inputs hold none; nor is any
      of them a delimiter. */
  lemma HeadersShape(userEmail: string, kindleEmail: string, pageTitle: string)
    ensures Newline !in userEmail && Newline !in kindleEmail && Newline !in pageTitle ==>
      NoNewlines(Headers(userEmail, kindleEmail, pageTitle))
    ensures NoDelimiters(Headers(userEmail, kindleEmail, pageTitle))
  {
    var h := Headers(userEmail, kindleEmail, pageTitle);
    assert h[0][0] == 'F' && h[1][0] == 'T' && h[2][0] == 'S' && h[3][0] == 'C';
    assert Newline !in MultipartHeader && h[3] == MultipartHeader && h[4] == "";
  }

  /** A body part has a single delimiter line, its first. */
  lemma TextPartShape(text: string)
    ensures Newline !in text ==> NoNewlines(TextPart(text))
    ensures text != Delimiter && text != CloseDelimiter ==> NoDelimiters(TextPart(text)[1..])
  {
    var t := TextPart(text);
    assert t[1..] == ["Content-Type: text/plain", "", text, ""];
  }

  lemma AttachmentHeadersShape(fileName: string)
    ensures Newline !in fileName ==> NoNewlines(AttachmentHeaders(fileName))
    ensures NoDelimiters(AttachmentHeaders(fileName)[1..])
  {
    var a := AttachmentHeaders(fileName);
    assert a[1][0] == 'C' && a[2][0] == 'C' && a[3][0] == 'C';
    assert a[1..] == [a[1], a[2], a[3], a[4]];
    if Newline !in fileName {
      NameParamNoNewline();
      EncodingNoNewline();
      DispositionNoNewline();
      assert Newline !in "\"";
    }
  }

  lemma NameParamNoNewline()
    ensures Newline !in "Content-Type: application/pdf; name=\""
  {
  }

  lemma EncodingNoNewline()
    ensures Newline !in "Content-Transfer-Encoding: base64"
  {
  }

  lemma DispositionNoNewline()
    ensures Newline !in "Content-Disposition: " + "attachment; filename=\""
  {
    assert Newline !in "Content-Disposition: ";
    assert Newline !in "attachment; filename=\"";
  }
}
