/**
 * The pure parts of the kindle router: `formatFileNameSafe`, the router's
 * own `constructEmailBody` (which takes the attachment already in base64)
 * and the attachment name the `sendWebpage` mutation builds.
 */
module KindleRouter {
  import opened Wrappers
  import FileName
  import Base64
  import Utf8
  import RawMessage

  /** The text of the plain-text part. */
  const BodyText := "Sent from Send to Kindle"

  /** `formatFileNameSafe(title)`: the router's own copy of the replace,
      collapse, trim and truncate chain; it agrees with the sanitise stage of
      `constructFileName`, so the name is safe, at most 100 characters long and
      keeps the title's letters and digits in order. */
  function FormatFileNameSafe(title: string): (r: string)
    ensures r == FileName.Sanitise(title)
    ensures FileName.IsSafeName(r)
    ensures |r| <= FileName.MaxLength
    ensures FileName.NonSpaces(r) <= FileName.Alnums(title)
  {
    FileName.SanitiseIsSafe(title);
    FileName.SanitiseKeepsAlnums(title);
    FileName.Truncate(FileName.Trim(FileName.CollapseWs(FileName.ReplaceSpecials(title))), 100)
  }

  /** `formatFileNameSafe(title) + ".pdf"`: a safe name of at most 100
      characters followed by the extension, which holds the only dot. */
  function AttachmentFileName(title: string): (r: string)
    ensures |r| >= 4 && r[|r| - 4..] == ".pdf"
    ensures r[..|r| - 4] == FormatFileNameSafe(title)
    ensures FileName.IsSafeName(r[..|r| - 4]) && |r| <= FileName.MaxLength + 4
    ensures forall k :: 0 <= k < |r| ==> (r[k] == '.' <==> k == |r| - 4)
  {
    WithExtension(FormatFileNameSafe(title));
    FormatFileNameSafe(title) + ".pdf"
  }

  /** A safe name followed by ".pdf" ends with the extension and has its
      dot as the only one. */
  lemma WithExtension(n: string)
    requires FileName.IsSafeName(n)
    ensures var r := n + ".pdf";
      && r[|r| - 4..] == ".pdf" && r[..|r| - 4] == n
      && forall k :: 0 <= k < |r| ==> (r[k] == '.' <==> k == |r| - 4)
  {
    var r := n + ".pdf";
    assert r[..|n|] == n && r[|n|..] == ".pdf";
    forall k | 0 <= k < |r|
      ensures r[k] == '.' <==> k == |r| - 4
    {
      if k < |n| {
        assert r[k] == n[k];
      } else {
        assert r[k] == ".pdf"[k - |n|];
      }
    }
  }

  /** A title that is already a normal name of at most 100 characters
      names the attachment unchanged. */
  lemma NormalTitleFileName(t: string)
    requires FileName.IsNormal(t) && |t| <= FileName.MaxLength
    ensures AttachmentFileName(t) == t + ".pdf"
  {
    FileName.SanitiseFixesNormal(t);
  }

  /** `fetchAndParse` always returns the title "article", so the attachment
      is always called "article.pdf". */
  lemma FetchedFileName(title: string)
    requires title == "article"
    ensures AttachmentFileName(title) == "article.pdf"
  {
    FetchedTitleUnchanged(title);
    assert title + ".pdf" == "article.pdf";
  }

  /** "article" is already a normal name. */
  lemma FetchedTitleUnchanged(title: string)
    requires title == "article"
    ensures AttachmentFileName(title) == title + ".pdf"
  {
    assert FileName.IsNormal(title);
    NormalTitleFileName(title);
  }

  /** The seventeen lines of the router's message; the text part reads
      "Sent from Send to Kindle" and the base64 attachment is followed
      directly by the close-delimiter. */
  function MessageLines(pageTitle: string, pdfBase64: string, safeFileName: string,
                        kindleEmail: string, userEmail: string): (r: seq<string>)
    ensures |r| == 17
    ensures r[0] == "From: " + userEmail && r[1] == "To: " + kindleEmail
    ensures r[2] == "Subject: " + pageTitle && r[3] == RawMessage.MultipartHeader && r[4] == ""
    ensures r[5] == RawMessage.Delimiter && r[6] == "Content-Type: text/plain" && r[7] == ""
    ensures r[8] == BodyText && r[9] == ""
    ensures r[10] == RawMessage.Delimiter
    ensures r[11] == "Content-Type: application/pdf; name=\"" + safeFileName + "\""
    ensures r[12] == "Content-Transfer-Encoding: base64"
    ensures r[13] == "Content-Disposition: " + "attachment; filename=\"" + safeFileName + "\""
    ensures r[14] == "" && r[15] == pdfBase64
    ensures r[16] == RawMessage.CloseDelimiter
  {
    RawMessage.Headers(userEmail, kindleEmail, pageTitle)
      + RawMessage.TextPart(BodyText)
      + RawMessage.AttachmentHeaders(safeFileName)
      + [pdfBase64, RawMessage.CloseDelimiter]
  }

  /** The router's `constructEmailBody`: unpadded base64url text, ceil(4n/3)
      characters for a message of n UTF-8 bytes. */
  function ConstructEmailBody(pageTitle: string, pdfBase64: string, safeFileName: string,
                              kindleEmail: string, userEmail: string): (raw: string)
    ensures forall k :: 0 <= k < |raw| ==> Base64.IsUrlChar(raw[k])
    ensures Base64.Pad !in raw
    ensures |raw| == Base64.DataLength(|Utf8.Encode(RawMessage.Text(MessageLines(pageTitle, pdfBase64, safeFileName, kindleEmail, userEmail)))|)
  {
    RawMessage.Encode(MessageLines(pageTitle, pdfBase64, safeFileName, kindleEmail, userEmail))
  }

  /** Re-padding and decoding the result gives exactly the UTF-8 bytes of the
      seventeen lines joined with LF. */
  lemma DecodesToMessage(pageTitle: string, pdfBase64: string, safeFileName: string,
                         kindleEmail: string, userEmail: string)
    ensures var lines := MessageLines(pageTitle, pdfBase64, safeFileName, kindleEmail, userEmail);
      Base64.DecodeUrl(ConstructEmailBody(pageTitle, pdfBase64, safeFileName, kindleEmail, userEmail))
        == Some(Utf8.Encode(RawMessage.Text(lines)))
  {
    RawMessage.EncodeBytes(MessageLines(pageTitle, pdfBase64, safeFileName, kindleEmail, userEmail));
  }

  /** What a receiver reads back, line by line: `pdfBase64` verbatim as line
      15 and the close-delimiter right after it, with no empty line between. */
  lemma DecodedLayout(pageTitle: string, pdfBase64: string, safeFileName: string,
                      kindleEmail: string, userEmail: string)
    requires RawMessage.Newline !in pageTitle && RawMessage.Newline !in pdfBase64
    requires RawMessage.Newline !in safeFileName
    requires RawMessage.Newline !in kindleEmail && RawMessage.Newline !in userEmail
    ensures var d := RawMessage.Decode(ConstructEmailBody(pageTitle, pdfBase64, safeFileName, kindleEmail, userEmail));
      && d == Some(MessageLines(pageTitle, pdfBase64, safeFileName, kindleEmail, userEmail))
      && |d.value| == 17
      && d.value[0] == "From: " + userEmail
      && d.value[1] == "To: " + kindleEmail
      && d.value[2] == "Subject: " + pageTitle
      && d.value[3] == RawMessage.MultipartHeader
      && d.value[8] == BodyText
      && d.value[11] == "Content-Type: application/pdf; name=\"" + safeFileName + "\""
      && d.value[13] == "Content-Disposition: " + "attachment; filename=\"" + safeFileName + "\""
      && d.value[15] == pdfBase64
      && d.value[16] == RawMessage.CloseDelimiter
  {
    var lines := MessageLines(pageTitle, pdfBase64, safeFileName, kindleEmail, userEmail);
    NoNewlineLines(pageTitle, pdfBase64, safeFileName, kindleEmail, userEmail);
    RawMessage.DecodeEncode(lines);
  }

  /** With single-line inputs no line holds a line feed. */
  lemma NoNewlineLines(pageTitle: string, pdfBase64: string, safeFileName: string,
                       kindleEmail: string, userEmail: string)
    requires RawMessage.Newline !in pageTitle && RawMessage.Newline !in pdfBase64
    requires RawMessage.Newline !in safeFileName
    requires RawMessage.Newline !in kindleEmail && RawMessage.Newline !in userEmail
    ensures RawMessage.NoNewlines(MessageLines(pageTitle, pdfBase64, safeFileName, kindleEmail, userEmail))
  {
    var h := RawMessage.Headers(userEmail, kindleEmail, pageTitle);
    var t := RawMessage.TextPart(BodyText);
    var a := RawMessage.AttachmentHeaders(safeFileName);
    RawMessage.HeadersShape(userEmail, kindleEmail, pageTitle);
    RawMessage.TextPartShape(BodyText);
    RawMessage.AttachmentHeadersShape(safeFileName);
    var tail := [pdfBase64, RawMessage.CloseDelimiter];
    assert RawMessage.NoNewlines(tail) by {
      assert tail[0] == pdfBase64 && tail[1] == RawMessage.CloseDelimiter;
    }
    RawMessage.NoNewlinesBlocks(h, t, a, tail);
  }
}
