# Webpage to Kindle: file names, raw e-mail messages and proxy URLs

This project models the pure core of *webpage-to-kindle*. That service mails
web pages to a user's Kindle address through the Gmail API. Its `sendWebpage`
mutation fetches the page, takes the fixed title `"article"`, names the
attachment after it, and builds and sends a raw message whose attachment line
is the empty string. The PDF builder in the helpers is never called by this
code. Three small string pipelines make up the core:

- **File name** (`constructFileName`, and its copy `formatFileNameSafe` in the
  kindle router). The title is the first single-line `<h1>…</h1>` group, else
  the first `<title>…</title>` group, else `"article"`. The sanitise chain then
  does four things in order: it replaces each run of characters outside
  `[a-zA-Z0-9\s]` by one space, collapses each whitespace run to one space,
  trims, and keeps at most 100 characters.
- **Raw e-mail message** (`constructEmailBody`, one copy in the helpers and one
  in the router). It builds a fixed list of header and MIME lines (the
  multipart layout of section 5.1 of RFC 2046, joined with LF rather than
  CRLF). The joined text is UTF-8 encoded (section 3 of RFC 3629) and base64
  encoded (section 4 of RFC 4648). It is then turned into base64url (section 5
  of RFC 4648) by mapping `+` to `-` and `/` to `_` and dropping the trailing
  `=` padding (section 3.2). The helper copy also base64-encodes the PDF bytes
  it embeds.
- **Proxy URL** (`constructUrl`, one copy in the server helpers and one in the
  shared library). When a proxy is configured and the URL contains one of three
  listed host names, the result is `proxy + "/" + url`. Otherwise the URL is
  returned unchanged.

Every file is a Dafny module of functions and lemmas, because every core
function is an expression chain with no state that it updates:

- `wrappers.dfy` holds `Option`.
- `text.dfy` holds the JavaScript character classes and `includes`.
- `file_name.dfy` holds the regex `exec`, the title choice and the sanitise chain.
- `bytes.dfy`, `utf8.dfy`, `base64.dfy` and `lines.dfy` are the encoders. Each
  comes with the decoder it is proved against. The decoders
  (`Base64.Decode`, `Base64.DecodeUrl`, `Utf8.Decode`, `Lines.Split` and
  `RawMessage.Decode`) have no counterpart in the source: they are the inverses
  that the round-trip lemmas are stated with. The base64 decoders are strict:
  they reject a padded last group whose unused low bits are not zero
  (section 3.5 of RFC 4648). So each accepts exactly one text per byte
  sequence, the one the encoder gives.
- `raw_message.dfy` holds the line blocks and the join/encode pipeline that
  both copies of `constructEmailBody` share.
- `construct_email_body.dfy` and `kindle_router.dfy` hold the two copies.
- `proxy_rewrite.dfy`, `server_construct_url.dfy` and `lib_construct_url.dfy`
  hold the URL rewrite.

Modelling choices:

- `process.env.URL_PROXY` is a parameter `urlProxy: Option<string>`. `!urlProxy`
  holds both for `None` and for the empty string, so the predicate
  `ProxyRewrite.IsSet` (the negation of line 11 of
  src/server/helpers/construct-url.ts) holds exactly for a non-empty string.
  It has no contract of its own; the `ProxyRewrite.Rewrite` and
  `ServerConstructUrl.ConstructUrl` rows state the result in terms of it.
- `FileName.Normalise` (lines 12-14 of src/server/helpers/construct-file-name.ts)
  and `FileName.Sanitise` (lines 11-15) are the replace, collapse, trim and
  `substring` chain written out, with no contract of their own. The
  `FileName.NormaliseIs…`, `FileName.Sanitise…` and `FileName.ChainIsSeparatorRuns`
  rows state what they compute.
- `replace(/X+/g, " ")` is a left-to-right scan that writes one space for the
  first character of each maximal run of the class and drops the rest of the
  run. It is proved equal to `split(/X+/).join(" ")`.
- The regex `exec` returns the match with the leftmost start. Among matches
  with that start it takes the one with the shortest group, because `.*?` is
  non-greedy.
- `.` does not match LF, CR, U+2028 or U+2029.
- JavaScript's `\s` and the set `trim` removes are the same set of code points,
  written out in `Text.IsWs`.
- `Buffer.from(string)` is a real UTF-8 encoder. It is proved against a strict
  decoder that rejects overlong forms, surrogates and values above U+10FFFF.
- Under "Content-Transfer-Encoding" the messages claim base64 for the PDF
  line. The helper copy does produce padded standard base64, and that line
  decodes back to the PDF bytes.

One observation: for the attachment text the router's mutation passes the
empty string to its `constructEmailBody` (src/server/api/routers/kindle.ts:108-114).
The mutation itself is not modelled. `KindleRouter.DecodedLayout` shows that the
`pdfBase64` argument lands verbatim as line 15, so in the sent message that line
is empty.

## Model

| member | source | states |
|---|---|---|
| Text.Includes | src/server/helpers/construct-url.ts:16 | `url.includes(w)` is true exactly when `w` occurs in `url` at some index |
| FileName.FindClose | src/server/helpers/construct-file-name.ts:2 | finds the nearest closing tag reachable from `k` without crossing a line terminator, or reports that none exists |
| FileName.Exec | src/server/helpers/construct-file-name.ts:2-6 | `pattern.exec(html)` for `open(.*?)close`: the result is a match that comes first (leftmost start, then shortest group) among all matches; `None` exactly when there is no match |
| FileName.Group | src/server/helpers/construct-file-name.ts:5-6 | `exec(html)?.[1]` is `undefined` exactly when the pattern has no match. Otherwise it is the text between the opening and closing tags of a match, a substring of the page with no line terminator |
| FileName.ReplaceSpecials | src/server/helpers/construct-file-name.ts:12 | `replace(/[^a-zA-Z0-9\s]+/g, " ")` is `split(/[^a-zA-Z0-9\s]+/).join(" ")`: the pieces between the runs of special characters, whitespace included, are kept in order with exactly one space between neighbours. No special character remains, and the letters and digits are kept in order |
| FileName.CollapseWs | src/server/helpers/construct-file-name.ts:13 | `replace(/\s+/g, " ")` is `split(/\s+/).join(" ")`: the pieces between whitespace runs are kept in order with exactly one space between neighbours. The only whitespace left is the space, no two whitespace characters are adjacent, every other character comes from the input, and the non-whitespace characters are kept in order |
| FileName.RunsAsFields | src/server/helpers/construct-file-name.ts:12-13 | for each of the character classes, replacing every maximal run by one space equals splitting at the runs and joining the pieces with one space |
| FileName.ChainIsSeparatorRuns | src/server/helpers/construct-file-name.ts:12-13 | the two replacements together replace each maximal run of characters other than ASCII letters and digits by exactly one space |
| FileName.NormaliseIsWords | src/server/helpers/construct-file-name.ts:12-14 | before truncation the name is exactly the title's words, its maximal runs of ASCII letters and digits, in order and joined by single spaces |
| FileName.Trim | src/server/helpers/construct-file-name.ts:14 | the result is a slice of the input that neither starts nor ends with whitespace and keeps every non-whitespace character |
| FileName.Truncate | src/server/helpers/construct-file-name.ts:15 | `substring(0, n)` is a prefix, of length `min(|s|, n)` |
| FileName.TitleFromH1 | src/server/helpers/construct-file-name.ts:2-8 | when a single-line `<h1>…</h1>` matches, the title is the group of the first match, ending at the first following `</h1>`, even if a `<title>` comes earlier |
| FileName.TitleFromTitleTag | src/server/helpers/construct-file-name.ts:3-8 | with no h1 match, the title is the group of the first `<title>…</title>` match |
| FileName.TitleDefault | src/server/helpers/construct-file-name.ts:8 | with neither match, the title is `"article"` |
| FileName.EmptyH1 | src/server/helpers/construct-file-name.ts:5-8 | a first `<h1></h1>` gives the empty file name and not the `"article"` fallback, because `??` only falls back on a missing match |
| FileName.Title | src/server/helpers/construct-file-name.ts:2-8 | the chosen title is `"article"` or a substring of the page, and never holds a line terminator |
| FileName.NormaliseIsNormal | src/server/helpers/construct-file-name.ts:12-14 | before truncation the name holds only ASCII letters, digits and spaces, does not start or end with a space and has no double space |
| FileName.SanitiseIsSafe | src/server/helpers/construct-file-name.ts:12-15 | the file name holds only ASCII letters, digits and spaces, never starts with a space, has no two consecutive spaces and is at most 100 characters long |
| FileName.SanitiseIsPrefix | src/server/helpers/construct-file-name.ts:14-15 | the file name is a prefix of the untruncated normalised string, and equal to it exactly when that string has at most 100 characters |
| FileName.SanitiseKeepsAlnums | src/server/helpers/construct-file-name.ts:11-15 | deleting the spaces from the file name gives a prefix of the title's ASCII letters and digits in order, and the whole of them when nothing was cut |
| FileName.SanitiseEmptyIff | src/server/helpers/construct-file-name.ts:11-15 | the file name is empty exactly when the title has no ASCII letter or digit |
| FileName.NormaliseIdempotent | src/server/helpers/construct-file-name.ts:12-14 | applying the replace, collapse and trim chain twice gives what one pass gives |
| FileName.SanitiseFixesNormal | src/server/helpers/construct-file-name.ts:12-15 | a title that is already a normal name of at most 100 characters is left unchanged |
| FileName.ConstructFileName | src/server/helpers/construct-file-name.ts:1-18 | `constructFileName(html)` is the first 100 characters of the chosen title's words joined by single spaces |
| FileName.ConstructFileNameIsSafe | src/server/helpers/construct-file-name.ts:1-18 | `constructFileName(html)` is a safe name of at most 100 characters whose non-space characters are a prefix of the chosen title's letters and digits |
| Utf8.EncodeChar | src/server/helpers/construct-email-body.ts:12 | a code point encodes to one to four bytes: one byte equal to the code point exactly for ASCII, then continuation bytes |
| Utf8.Encode | src/server/helpers/construct-email-body.ts:12 | the UTF-8 encoding of a string has between one and four bytes per character |
| Utf8.DecodeEncode | src/server/helpers/construct-email-body.ts:12 | the strict UTF-8 decoder gives back every encoded string |
| Utf8.EncodeAscii | src/server/helpers/construct-email-body.ts:12 | an ASCII string encodes to its own code units |
| Base64.Encode | src/server/helpers/construct-email-body.ts:10 | `toString("base64")` on `n` bytes has `4 * ceil(n / 3)` characters: `ceil(4n / 3)` standard-alphabet characters, then `=` padding |
| Base64.DecodeEncode | src/server/helpers/construct-email-body.ts:10 | decoding the padded base64 of any byte sequence gives the bytes back |
| Base64.EncodeDecode | src/server/helpers/construct-email-body.ts:10 | any text the strict decoder maps to `b` is `toString("base64")` of `b`, so the encoding is the only text accepted for those bytes |
| Base64.ReplaceChar | src/server/helpers/construct-email-body.ts:35-36 | `replace(/x/g, y)` changes exactly the occurrences of `x`, position by position |
| Base64.StripPadding | src/server/helpers/construct-email-body.ts:37 | `replace(/=+$/, "")` removes a run of `=` at the end and nothing else, and leaves no `=` last |
| Base64.EncodeUrl | src/server/helpers/construct-email-body.ts:34-37 | the base64url text has `ceil(4n / 3)` characters, all in `A-Z a-z 0-9 - _`, with no `=` |
| Base64.DecodeUrlEncodeUrl | src/server/helpers/construct-email-body.ts:34-37 | re-padding, mapping back to the standard alphabet and decoding gives the bytes back |
| Base64.EncodeUrlDecodeUrl | src/server/helpers/construct-email-body.ts:34-37 | any text the base64url decoder maps to `b` is the base64url text of `b`, so the encoding is the only text accepted for those bytes |
| Base64.NonCanonicalRejected | src/server/helpers/construct-email-body.ts:34-37 | the byte `0x41` encodes to `QQ==`, and to `QQ` once the padding is dropped. `QR==` and `QR`, which set bits no byte uses, are rejected |
| Base64.EncodeUrlLength | src/server/helpers/construct-email-body.ts:34-37 | the base64url length lies between `4n / 3` and `4n / 3 + 1` |
| Lines.Join | src/server/helpers/construct-email-body.ts:32 | `join("\n")` starts with the first line, followed by the separator when more lines follow |
| Lines.SplitJoin | src/server/helpers/construct-email-body.ts:32 | splitting the joined lines at LF gives back the lines, when none of them holds an LF |
| Lines.JoinSplit | src/server/helpers/construct-email-body.ts:32 | joining the pieces of a split gives back the text |
| RawMessage.Encode | src/server/helpers/construct-email-body.ts:12-37 | the raw message is base64url text with no `=`, of length `ceil(4n / 3)` for `n` UTF-8 bytes of the joined text |
| RawMessage.EncodeBytes | src/server/helpers/construct-email-body.ts:12-37 | re-padding and decoding the raw message gives exactly the UTF-8 bytes of the lines joined with LF |
| RawMessage.DecodeEncode | src/server/helpers/construct-email-body.ts:12-37 | decoding the raw message back to lines gives the original lines when none holds an LF |
| EmailBody.MessageLines | src/server/helpers/construct-email-body.ts:13-31 | the eighteen lines in the order the source lists them: the three address and subject headers, the multipart header, the text part, the attachment headers with the file name verbatim in both parameters, the PDF's base64, an empty line and the close-delimiter |
| EmailBody.ConstructEmailBody | src/server/helpers/construct-email-body.ts:1-44 | every output character is in the base64url alphabet, there is no `=`, and the length is `ceil(4n / 3)` for the `n` UTF-8 bytes of the 18 joined lines |
| EmailBody.DecodesToMessage | src/server/helpers/construct-email-body.ts:12-33 | re-padding and decoding the output gives exactly the UTF-8 bytes of the 18 lines joined with LF |
| EmailBody.AttachmentDecodes | src/server/helpers/construct-email-body.ts:10-29 | the attachment line is padded standard base64 of `pdf`, holds no LF, and decodes back to `pdf` |
| EmailBody.DecodedLayout | src/server/helpers/construct-email-body.ts:14-31 | when the four string inputs hold no LF, the decoded message has 18 lines. `From`, `To`, `Subject` and the multipart header come first, then the body text. `fileName` appears verbatim in the `name=` and `filename=` lines. The PDF base64 line decodes to `pdf` and is followed by an empty line, and `--boundary--` is last |
| EmailBody.NoNewlineLines | src/server/helpers/construct-email-body.ts:14-31 | when the four string inputs hold no LF, no line of the message does |
| EmailBody.DelimiterLines | src/server/helpers/construct-email-body.ts:19-31 | `--boundary` is exactly lines 5 and 10, and `--boundary--` exactly line 17, whatever the inputs |
| KindleRouter.FormatFileNameSafe | src/server/api/routers/kindle.ts:7-13 | equals the sanitise stage of `constructFileName` on the same title, so its output holds only ASCII letters, digits and spaces. It has no leading or double space, is at most 100 characters long, and keeps the title's letters and digits in order |
| KindleRouter.AttachmentFileName | src/server/api/routers/kindle.ts:105 | the attachment name is `formatFileNameSafe(title)`, a safe name of at most 100 characters, followed by `.pdf`, whose dot is the only one in the name |
| KindleRouter.NormalTitleFileName | src/server/api/routers/kindle.ts:105 | a title that is already a normal name of at most 100 characters gives the attachment name `title + ".pdf"` |
| KindleRouter.FetchedFileName | src/server/api/routers/kindle.ts:105 | the title `fetchAndParse` returns at line 35, `"article"`, gives the attachment name `"article.pdf"` |
| KindleRouter.MessageLines | src/server/api/routers/kindle.ts:47-65 | the seventeen lines in the order the source lists them, with the text "Sent from Send to Kindle", `pdfBase64` verbatim as line 15 and the close-delimiter directly after it |
| KindleRouter.ConstructEmailBody | src/server/api/routers/kindle.ts:39-73 | every output character is in the base64url alphabet, there is no `=`, and the length is `ceil(4n / 3)` for the `n` UTF-8 bytes of the 17 joined lines |
| KindleRouter.DecodesToMessage | src/server/api/routers/kindle.ts:46-70 | re-padding and decoding the output gives exactly the UTF-8 bytes of the 17 lines joined with LF |
| KindleRouter.DecodedLayout | src/server/api/routers/kindle.ts:46-65 | when the inputs hold no LF, the decoded message has 17 lines and the body text is "Sent from Send to Kindle". `pdfBase64` appears verbatim as line 15, directly followed by `--boundary--` with no empty line between |
| ProxyRewrite.FirstIncluded | src/server/helpers/construct-url.ts:15-19 | the `for…of` loop stops at the first listed host the URL includes. It runs to its end exactly when no host is included |
| ProxyRewrite.Rewrite | src/server/helpers/construct-url.ts:11-21 | with no proxy, or with no listed host in the URL, the result is the URL. With a proxy and some listed host as a substring, it is `proxy + "/" + url` |
| ProxyRewrite.RewriteShape | src/server/helpers/construct-url.ts:11-21 | the result ends with the URL. It differs from the URL exactly when a proxy is set and a host matches, and then it begins with the proxy and a slash |
| ProxyRewrite.RewriteOrderIndependent | src/server/helpers/construct-url.ts:15-19 | the result does not depend on which listed host matched or on the order of the list |
| ServerConstructUrl.ConstructUrl | src/server/helpers/construct-url.ts:1-26 | with no proxy, the result is the URL. With a proxy, it is `proxy + "/" + url` when the URL holds `medium.com`, `javascript.plainenglish.io` or `python.plainenglish.io` anywhere, and the URL otherwise |
| ServerConstructUrl.EndsWithUrl | src/server/helpers/construct-url.ts:11-21 | the result always ends with the input URL |
| LibConstructUrl.ConstructUrl | src/lib/construct-url.ts:3-23 | the result ends with the URL. It differs from it exactly when a proxy is set and a listed host occurs, and then it is `proxy + "/" + url` |
| LibConstructUrl.AgreesWithServer | src/lib/construct-url.ts:11-23 | the library copy agrees with the server helper's `constructUrl` on every proxy setting and every URL |

## Left out

- src/server/helpers/construct-pdf.ts is not part of this model. It calls pdf-lib to draw one fixed string, so there is no layout logic.
- src/server/helpers/clean-html.ts is not part of this model. It is cheerio DOM selection and WHATWG `URL` resolution, both foreign libraries.
- src/server/helpers/fetch-document.ts and `fetchAndParse` (src/server/api/routers/kindle.ts:15-37) are network I/O. Only the fixed title `"article"` it returns is modelled.
- The `sendWebpage` mutation (src/server/api/routers/kindle.ts:75-141) is not modelled. It is tRPC, session checks, Gmail API calls and error re-wrapping.
- src/lib/setup-users-gmail.ts, src/server/api/routers/user.ts and the React components under src/app are not part of this model. They are OAuth, database and UI code.
- Reading `process.env.URL_PROXY` at module load becomes the `urlProxy` parameter.
- The try/catch blocks in src/server/helpers/construct-url.ts and src/server/helpers/construct-email-body.ts are not modelled. The catch branch is reached only when a string would exceed the JavaScript engine's length limit (about 2^29 characters in V8). In construct-url.ts the template literal at line 17 then throws, and line 24 rethrows a generic error. In construct-email-body.ts `toString("base64")` or `join` throws, and line 42 rethrows a generic error. Dafny strings are unbounded, so the model deliberately leaves out this failure.
- Both copies of `constructEmailBody` join with LF. The model makes no claim of RFC 5322 conformance, which would need CRLF.
- A JavaScript string may hold lone UTF-16 surrogates, which `Buffer.from` replaces by U+FFFD. Dafny characters are Unicode scalar values, so such strings are not representable. The model covers every well-formed string.
- `substring(0, 100)` counts UTF-16 code units and the model counts code points. The two agree here because the sanitised name is pure ASCII.
- EmailBody.DecodedLayout and KindleRouter.DecodedLayout require that the string inputs hold no LF. An LF inside a title, file name or address splits it into extra lines when decoded, so the line numbering no longer holds. EmailBody.DecodesToMessage and KindleRouter.DecodesToMessage hold for every input.
