/**
 * `constructEmailBody` of the server helpers: a two-part multipart/mixed
 * message, a plain-text part and the PDF as a base64 attachment, encoded as
 * a raw Gmail message.
 */
module EmailBody {
  import opened Wrappers
  import opened Bytes
  import Base64
  import Utf8
  import RawMessage

  /** The text of the plain-text part. */
  const BodyText := "Sent from Webpage to Kindle"

  /** The eighteen lines of the message, in their fixed order; the PDF goes
      in as `Buffer.from(pdf).toString("base64")`, followed by an empty
      line. */
  function MessageLines(pageTitle: string, pdf: seq<Byte>, fileName: string,
                        kindleEmail: string, userEmail: string): (r: seq<string>)
    ensures |r| == 18
    ensures r[0] == "From: " + userEmail && r[1] == "To: " + kindleEmail
    ensures r[2] == "Subject: " + pageTitle && r[3] == RawMessage.MultipartHeader && r[4] == ""
    ensures r[5] == RawMessage.Delimiter && r[6] == "Content-Type: text/plain" && r[7] == ""
    ensures r[8] == BodyText && r[9] == ""
    ensures r[10] == RawMessage.Delimiter
    ensures r[11] == "Content-Type: application/pdf; name=\"" + fileName + "\""
    ensures r[12] == "Content-Transfer-Encoding: base64"
    ensures r[13] == "Content-Disposition: " + "attachment; filename=\"" + fileName + "\""
    ensures r[14] == "" && r[15] == Base64.Encode(pdf) && r[16] == ""
    ensures r[17] == RawMessage.CloseDelimiter
  {
    RawMessage.Headers(userEmail, kindleEmail, pageTitle)
      + RawMessage.TextPart(BodyText)
      + RawMessage.AttachmentHeaders(fileName)
      + [Base64.Encode(pdf), "", RawMessage.CloseDelimiter]
  }

  /** `constructEmailBody(pageTitle, pdf, fileName, kindleEmail, userEmail)`:
      unpadded base64url text, ceil(4n/3) characters long for a message of n
      UTF-8 bytes. */
  function ConstructEmailBody(pageTitle: string, pdf: seq<Byte>, fileName: string,
                              kindleEmail: string, userEmail: string): (raw: string)
    ensures forall k :: 0 <= k < |raw| ==> Base64.IsUrlChar(raw[k])
    ensures Base64.Pad !in raw
    ensures |raw| == Base64.DataLength(|Utf8.Encode(RawMessage.Text(MessageLines(pageTitle, pdf, fileName, kindleEmail, userEmail)))|)
  {
    RawMessage.Encode(MessageLines(pageTitle, pdf, fileName, kindleEmail, userEmail))
  }

  /** No input string holds a line feed, so every line stays one line. */
  predicate SingleLine(pageTitle: string, fileName: string, kindleEmail: string, userEmail: string) {
    && RawMessage.Newline !in pageTitle
    && RawMessage.Newline !in fileName
    && RawMessage.Newline !in kindleEmail
    && RawMessage.Newline !in userEmail
  }

  /** Re-padding and decoding the result gives exactly the UTF-8 bytes of
      the eighteen lines joined with LF. */
  lemma DecodesToMessage(pageTitle: string, pdf: seq<Byte>, fileName: string,
                         kindleEmail: string, userEmail: string)
    ensures var lines := MessageLines(pageTitle, pdf, fileName, kindleEmail, userEmail);
      Base64.DecodeUrl(ConstructEmailBody(pageTitle, pdf, fileName, kindleEmail, userEmail))
        == Some(Utf8.Encode(RawMessage.Text(lines)))
  {
    RawMessage.EncodeBytes(MessageLines(pageTitle, pdf, fileName, kindleEmail, userEmail));
  }

  /** The attachment line is the padded standard base64 of the PDF, and
      decoding it gives the PDF back. */
  lemma AttachmentDecodes(pdf: seq<Byte>)
    ensures forall k :: 0 <= k < |Base64.Encode(pdf)| ==> Base64.IsStdChar(Base64.Encode(pdf)[k]) || Base64.Encode(pdf)[k] == Base64.Pad
    ensures RawMessage.Newline !in Base64.Encode(pdf)
    ensures Base64.Decode(Base64.Encode(pdf)) == Some(pdf)
  {
    AttachmentNoNewline(pdf);
    Base64.DecodeEncode(pdf);
  }

  /** What a receiver reads back, line by line: the headers first, the
      file name verbatim in both parameters, the PDF's base64 followed by an
      empty line, and the close-delimiter last. */
  lemma DecodedLayout(pageTitle: string, pdf: seq<Byte>, fileName: string,
                      kindleEmail: string, userEmail: string)
    requires SingleLine(pageTitle, fileName, kindleEmail, userEmail)
    ensures var d := RawMessage.Decode(ConstructEmailBody(pageTitle, pdf, fileName, kindleEmail, userEmail));
      && d == Some(MessageLines(pageTitle, pdf, fileName, kindleEmail, userEmail))
      && |d.value| == 18
      && d.value[0] == "From: " + userEmail
      && d.value[1] == "To: " + kindleEmail
      && d.value[2] == "Subject: " + pageTitle
      && d.value[3] == RawMessage.MultipartHeader
      && d.value[8] == BodyText
      && d.value[11] == "Content-Type: application/pdf; name=\"" + fileName + "\""
      && d.value[13] == "Content-Disposition: " + "attachment; filename=\"" + fileName + "\""
      && Base64.Decode(d.value[15]) == Some(pdf)
      && d.value[16] == ""
      && d.value[17] == RawMessage.CloseDelimiter
  {
    NoNewlineLines(pageTitle, pdf, fileName, kindleEmail, userEmail);
    RawMessage.DecodeEncode(MessageLines(pageTitle, pdf, fileName, kindleEmail, userEmail));
    Base64.DecodeEncode(pdf);
  }

  /** With single-line inputs no line holds a line feed. */
  lemma NoNewlineLines(pageTitle: string, pdf: seq<Byte>, fileName: string,
                       kindleEmail: string, userEmail: string)
    requires SingleLine(pageTitle, fileName, kindleEmail, userEmail)
    ensures RawMessage.NoNewlines(MessageLines(pageTitle, pdf, fileName, kindleEmail, userEmail))
  {
    var h := RawMessage.Headers(userEmail, kindleEmail, pageTitle);
    var t := RawMessage.TextPart(BodyText);
    var a := RawMessage.AttachmentHeaders(fileName);
    RawMessage.HeadersShape(userEmail, kindleEmail, pageTitle);
    RawMessage.TextPartShape(BodyText);
    RawMessage.AttachmentHeadersShape(fileName);
    TailNoNewlines(pdf);
    RawMessage.NoNewlinesBlocks(h, t, a, [Base64.Encode(pdf), "", RawMessage.CloseDelimiter]);
  }

  /** The last three lines hold no line feed. */
  lemma TailNoNewlines(pdf: seq<Byte>)
    ensures RawMessage.NoNewlines([Base64.Encode(pdf), "", RawMessage.CloseDelimiter])
  {
    var e := Base64.Encode(pdf);
    var tail := [e, "", RawMessage.CloseDelimiter];
    AttachmentNoNewline(pdf);
    assert tail[0] == e && tail[1] == "" && tail[2] == RawMessage.CloseDelimiter;
  }

  /** Base64 text never holds a line feed. */
  lemma AttachmentNoNewline(pdf: seq<Byte>)
    ensures RawMessage.Newline !in Base64.Encode(pdf)
  {
    var e := Base64.Encode(pdf);
    forall k | 0 <= k < |e|
      ensures e[k] != RawMessage.Newline
    {
      assert Base64.IsStdChar(e[k]) || e[k] == Base64.Pad;
    }
  }

  /** The delimiter opens exactly the two body parts (lines 5 and 10) and the
      close-delimiter is only the last line. */
  lemma DelimiterLines(pageTitle: string, pdf: seq<Byte>, fileName: string,
                       kindleEmail: string, userEmail: string)
    ensures var lines := MessageLines(pageTitle, pdf, fileName, kindleEmail, userEmail);
      forall i :: 0 <= i < |lines| ==>
        && (lines[i] == RawMessage.Delimiter <==> i == 5 || i == 10)
        && (lines[i] == RawMessage.CloseDelimiter <==> i == 17)
  {
    var h := RawMessage.Headers(userEmail, kindleEmail, pageTitle);
    var t := RawMessage.TextPart(BodyText);
    var a := RawMessage.AttachmentHeaders(fileName);
    var e := Base64.Encode(pdf);
    var lines := MessageLines(pageTitle, pdf, fileName, kindleEmail, userEmail);
    RawMessage.HeadersShape(userEmail, kindleEmail, pageTitle);
    RawMessage.TextPartShape(BodyText);
    RawMessage.AttachmentHeadersShape(fileName);
    assert e != [] ==> e[0] != '-';
    assert lines == h + [t[0]] + t[1..] + [a[0]] + a[1..] + [e, "", RawMessage.CloseDelimiter];
    assert forall i :: 0 <= i < 5 ==> lines[i] == h[i];
    assert forall i :: 6 <= i < 10 ==> lines[i] == t[1..][i - 6];
    assert forall i :: 11 <= i < 15 ==> lines[i] == a[1..][i - 11];
  }
}
