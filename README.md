# WebWorker: a verified model of a one-connection HTTP responder

`WebWorker` serves a single HTTP request per connection. It reads the
request header lines and takes the target from the last `GET` line. It
picks a MIME type from the target's extension. Then it writes a response
header and the content: an HTML file copied line by line, with two marker
tags expanded, or an image file copied in chunks.

This project models those four stages in Dafny and proves what each one
does:

- `Text`: the string primitives the code relies on. This covers Java's
  `contains`, the cut at the first occurrence of a character, lines joined
  with and split at newlines, and `getBytes` as one byte per character.
- `Io`: the world outside the worker. Files are a map from local path to
  the file's lines and bytes. The connection's output stream is a class
  whose `written` field holds every byte sent and whose ghost `writes`
  field holds the bytes of each `write` call; only the stream's own
  methods and the image loop state what `writes` becomes. A `FileInputStream` class
  fills a buffer a chunk at a time.
- `Request`: `readHTTPRequest`, a loop over the request lines with a
  mutable target and a nested truncation loop, proved against the
  functions `RequestTarget` and `ReadCount`.
- `ContentType`: the if-chain in `run` that picks the content type.
- `Header`: `writeHTTPHeader`, proved against `HeaderText`, together with
  lemmas about the lines a client reads back from it.
- `Content`: `writeContent`. Its HTML loop is proved against `HtmlBody` and
  its image loop against the file's bytes.
- `Worker`: `run`'s sequence of read, choose, write header, write content,
  proved against `ResponseBytes`.

The model keeps the code's quirks. The header for a missing file carries
two status lines, a 404 line and then `200 OK`. `.jpg` is served as
`image/png`. The date after a `<cs371date>` line is written after that
line's newline, so it runs into the next line. `<cs371server` is matched
without a closing `>`.

## Model

| member | source | states |
|---|---|---|
| Text.UpTo | SimpleWebServer/src/edu/nmsu/cs/webserver/WebWorker.java:110-114 | the result is a prefix of the input without the separator, and the input continues with the separator whenever the result is shorter |
| Text.OccurrenceIsContained | SimpleWebServer/src/edu/nmsu/cs/webserver/WebWorker.java:108 | `Contains` holds whenever `t` occurs at some offset of `s` (Java's `String.contains`) |
| Text.ContainedHasOccurrence | SimpleWebServer/src/edu/nmsu/cs/webserver/WebWorker.java:108 | `Contains` holds only when `t` occurs at some offset of `s`: the converse of `OccurrenceIsContained` |
| Text.MissingCharNotContained | SimpleWebServer/src/edu/nmsu/cs/webserver/WebWorker.java:65-76 | a string lacking one character of `t` does not contain `t` |
| Text.Encode | SimpleWebServer/src/edu/nmsu/cs/webserver/WebWorker.java:152 | `getBytes` gives one byte per character (the character code modulo 256), so the byte string is as long as the text |
| Text.SplitJoinLines | SimpleWebServer/src/edu/nmsu/cs/webserver/WebWorker.java:152-167 | splitting at `'\n'` the text of lines each followed by `'\n'`, none holding a newline, gives back those lines (used for the header) |
| Io.LocalPath | SimpleWebServer/src/edu/nmsu/cs/webserver/WebWorker.java:143 | the local path is `.` followed by the whole target, with no other change |
| Io.OutputStream.WriteString | SimpleWebServer/src/edu/nmsu/cs/webserver/WebWorker.java:152 | `os.write(s.getBytes())` appends the bytes of `s` as one write and changes nothing else |
| Io.OutputStream.WriteRange | SimpleWebServer/src/edu/nmsu/cs/webserver/WebWorker.java:218 | `os.write(x, 0, marker)` appends exactly `x[0..marker)`, recorded as one write |
| Io.FileInputStream.Read | SimpleWebServer/src/edu/nmsu/cs/webserver/WebWorker.java:217 | `read` returns 0 for an empty buffer and -1 at end of file; otherwise it delivers 1 to `x.length` of the next bytes of the file into the front of `x` and advances by that many; the rest of `x`, and all of it when nothing is delivered, is left unchanged |
| Request.TargetOf | SimpleWebServer/src/edu/nmsu/cs/webserver/WebWorker.java:109-114 | the target is the text from index 4 of the line up to its first space, holds no space, and is followed by a space or the line's end |
| Request.ReadCount | SimpleWebServer/src/edu/nmsu/cs/webserver/WebWorker.java:101-125 | the number of lines read is at least one when there is input, no line before the last one read stops the scan, and when input remains the last line read stops it |
| Request.TruncateAtFirstSpace | SimpleWebServer/src/edu/nmsu/cs/webserver/WebWorker.java:110-114 | the in-place `for` loop leaves exactly the prefix before the first space, or the whole string when it has none |
| Request.ReadHTTPRequest | SimpleWebServer/src/edu/nmsu/cs/webserver/WebWorker.java:95-127 | the loop returns `RequestTarget(lines)` after reading `ReadCount(lines)` lines |
| Request.TargetHasNoSpace | SimpleWebServer/src/edu/nmsu/cs/webserver/WebWorker.java:108-114 | the request target never contains a space |
| Request.NoTargetLineGivesEmptyTarget | SimpleWebServer/src/edu/nmsu/cs/webserver/WebWorker.java:100-126 | with no `GET` line among the lines read, the target is the initial `""` |
| Request.LastTargetLineWins | SimpleWebServer/src/edu/nmsu/cs/webserver/WebWorker.java:108-114 | the last `GET` line read decides the target: its text from index 4 up to its first space |
| Request.StopLineEndsRequest | SimpleWebServer/src/edu/nmsu/cs/webserver/WebWorker.java:117-124 | an empty line, or a `GET` line shorter than 4 characters, ends the scan: later lines do not affect the target and are not read |
| Request.GetLineYieldsPath | SimpleWebServer/src/edu/nmsu/cs/webserver/WebWorker.java:108-114 | a request line `GET <path> <version>` followed by header lines without `GET` yields `<path>` |
| ContentType.ContentTypeOf | SimpleWebServer/src/edu/nmsu/cs/webserver/WebWorker.java:56-76 | the chain is total and always returns `text/html` or one of the image types |
| ContentType.FirstMatchingExtensionDecides | SimpleWebServer/src/edu/nmsu/cs/webserver/WebWorker.java:65-76 | the first extension in the order `.png`, `.jpg`, `.jpeg`, `.gif` that the target contains decides the type, as `image/png`, `image/png`, `image/jpeg`, `image/gif` |
| ContentType.HtmlExactlyWithoutExtension | SimpleWebServer/src/edu/nmsu/cs/webserver/WebWorker.java:56-76 | the type is `text/html` if and only if the target contains none of the four extensions |
| ContentType.HtmlWithoutExtensionLetters | SimpleWebServer/src/edu/nmsu/cs/webserver/WebWorker.java:65-76 | a target without the letters `p`, `j`, `g` is served as `text/html` |
| ContentType.PngForPngAndJpg | SimpleWebServer/src/edu/nmsu/cs/webserver/WebWorker.java:65-70 | the type is `image/png` if and only if the target contains `.png` or `.jpg` |
| ContentType.ChosenTypeSelectsOneBranch | SimpleWebServer/src/edu/nmsu/cs/webserver/WebWorker.java:188-212 | for every chosen type, `writeContent`'s `contains("text/html")` check succeeds exactly for `text/html` and its `contains("image")` check exactly for the other types |
| Header.WriteHTTPHeader | SimpleWebServer/src/edu/nmsu/cs/webserver/WebWorker.java:137-169 | the bytes written are those of `HeaderText`: the 404 line only when `"." + address` is not openable, then the fixed lines in order |
| Header.HeaderJoinsItsLines | SimpleWebServer/src/edu/nmsu/cs/webserver/WebWorker.java:152-167 | the header text is its lines, each followed by a newline: an optional 404 line, then `200 OK`, `Date:`, `Server:`, `Connection:`, `Content-Type:` and a blank line |
| Header.HeaderIsItsLines | SimpleWebServer/src/edu/nmsu/cs/webserver/WebWorker.java:152-167 | a client splitting the header at newlines reads back exactly those lines, when date and type hold no newline |
| Header.StatusLineReflectsLookup | SimpleWebServer/src/edu/nmsu/cs/webserver/WebWorker.java:143-157 | the header opens with the 404 line if and only if the file cannot be opened, and with the `200 OK` line if and only if it can |
| Header.MissingFileGivesTwoStatusLines | SimpleWebServer/src/edu/nmsu/cs/webserver/WebWorker.java:146-157 | for a missing file the header has seven lines, the 404 line followed by the `200 OK` line |
| Header.HeaderEndsWithBlankLine | SimpleWebServer/src/edu/nmsu/cs/webserver/WebWorker.java:165-167 | the header always ends with the `Content-Type` line and a blank line |
| Content.ContentBytes | SimpleWebServer/src/edu/nmsu/cs/webserver/WebWorker.java:188-222 | a type that is neither HTML nor an image gives no content |
| Content.WriteLine | SimpleWebServer/src/edu/nmsu/cs/webserver/WebWorker.java:194-204 | one loop step writes the line, a newline, the date if the line has `<cs371date>`, then `Geralds Server \n` if it has `<cs371server` |
| Content.WriteHtml | SimpleWebServer/src/edu/nmsu/cs/webserver/WebWorker.java:193-205 | the `readLine` loop writes `HtmlBody` of the file's lines |
| Content.WriteChunk | SimpleWebServer/src/edu/nmsu/cs/webserver/WebWorker.java:218 | one write of the image loop appends the first `marker` bytes of the buffer and records them as the next write |
| Content.WriteImage | SimpleWebServer/src/edu/nmsu/cs/webserver/WebWorker.java:212-220 | the chunk loop writes exactly the file's bytes; the `write` calls it makes are `chunks`, which concatenate to the bytes in order; each is nonempty and at most `f.length()` long |
| Content.WriteContent | SimpleWebServer/src/edu/nmsu/cs/webserver/WebWorker.java:178-222 | the bytes written are `ContentBytes`, and an exception leaves the method exactly for an image type whose file cannot be opened |
| Content.HtmlBodyAppend | SimpleWebServer/src/edu/nmsu/cs/webserver/WebWorker.java:193-205 | the lines are processed independently and in order: the body of two runs of lines is the two bodies concatenated |
| Content.LineCopiedInPlace | SimpleWebServer/src/edu/nmsu/cs/webserver/WebWorker.java:193-195 | each line's output appears in the body right after the output of the lines before it, and starts with the unaltered line and a newline |
| Content.PlainFileCopiedVerbatim | SimpleWebServer/src/edu/nmsu/cs/webserver/WebWorker.java:193-205 | a file without markers is copied exactly, each line followed by a newline |
| Content.DateRunsIntoNextLine | SimpleWebServer/src/edu/nmsu/cs/webserver/WebWorker.java:194-200 | after a line with `<cs371date>` the body holds the line, a newline, the date and then directly the next line |
| Content.ServerNameFollowsMarkedLine | SimpleWebServer/src/edu/nmsu/cs/webserver/WebWorker.java:202-204 | a line with `<cs371server` has its output start with the line and a newline and end with `Geralds Server \n` |
| Worker.Serve | SimpleWebServer/src/edu/nmsu/cs/webserver/WebWorker.java:63-79 | `run` sends `ResponseBytes`: the header for the chosen type followed by the content; it reaches `close` exactly when `ResponseCompletes` holds |
| Worker.ResponseByContentType | SimpleWebServer/src/edu/nmsu/cs/webserver/WebWorker.java:63-79 | the 404 header line appears if and only if the file is missing; an HTML response completes with the file's body or exactly `<h1>404 Error: Not Found <h1> \n`; an image response completes exactly when the file exists and carries its bytes |
| Worker.MissingImageGetsHeaderOnly | SimpleWebServer/src/edu/nmsu/cs/webserver/WebWorker.java:78-86 | a missing image gets a header opening with the 404 line, no content, and no close |
| Worker.MarkedLineInPage | SimpleWebServer/src/edu/nmsu/cs/webserver/WebWorker.java:78-79 | for an existing HTML page with a `<cs371server` line, the response completes, opens with `200 OK`, and carries that line's output in place, ending with the server name |
| Worker.PageRequestWithServerMarker | SimpleWebServer/src/edu/nmsu/cs/webserver/WebWorker.java:63-79 | the same guarantees, starting from a request line `GET <path> <version>` |

## Left out

- Sockets, `flush`, `close` and the thread that runs the worker are not modelled, because they are I/O and concurrency plumbing. `Serve` reports as a boolean whether `run` reaches `socket.close()`, which happens only when no exception leaves `writeContent`.
- The `r.ready()` / `Thread.sleep(1)` busy wait is left out because it is timing only. At end of input the real loop may keep waiting instead of reading `null`; the model takes the end of the request lines as the `null` the reader returns.
- `Date`, `DateFormat` and `TimeZone` are not modelled, because they read the clock. The formatted date-time for the header and the formatted date for the content are parameters.
- Real file access is not modelled, because it is I/O. Whether a file can be opened is whether its local path is a key of a map. A file's lines, as `readLine` returns them, and its bytes are two independent views of it.
- The model assumes `FileReader` and `FileInputStream` agree on whether a file can be opened, and that the file does not change between reads.
- Read errors in the middle of a file are left out. So are write failures on the connection. Both are I/O faults.
- Io.FileInputStream.Read: how many bytes one `read` delivers is left to the stream, as any number from 1 to the room in the buffer and the bytes left.
- Text.Encode: `getBytes` is modelled as one byte per character, the character code modulo 256. This is exact for ASCII only; the platform charset is not modelled. Its contract states only the length; the byte of each character is given by its body, which `EncodeAppend` uses.
- Content.WriteImage: the buffer size `(int) f.length()` is the file's length. The truncation of lengths of 2^31 bytes or more to an `int` is not modelled.
- Logging to `System.err` and `System.out` is left out because it does not reach the client. So is the `FileReader` that `writeHTTPHeader` opens and never closes.
- Request.ReadHTTPRequest: the lines of the request are given as the reader returns them, without their terminators. Decoding bytes into characters is not modelled.
- Request.TargetOf: strings are modelled as sequences of Unicode scalar values, not of UTF-16 code units. Index 4 of `substring(4)`, and the positions `charAt(i)` visits, therefore agree with Java only when no supplementary character (one outside the Basic Multilingual Plane) comes before them in the line.
- Header.WriteHTTPHeader, Content.WriteLine, Content.WriteHtml, Content.WriteContent and Worker.Serve state the bytes they send through `written` only; they do not state how the sending is split into `write` calls. The split into writes is stated for the image loop alone, by Content.WriteImage.
