/** One connection's work, as `run` orders it: read the request, choose
    the content type, write the header, write the content. Obtaining the
    socket's streams, flushing and closing are not modelled; `Serve` reports
    whether `run` gets as far as closing the socket. */
module Worker {
  import opened Text
  import opened Io
  import opened Request
  import opened ContentType
  import opened Header
  import opened Content

  /** Every byte `run` sends for `request`: the header, then the content. */
  function ResponseBytes(request: seq<string>, fs: FileSystem, dateTime: string, date: string): seq<byte>
  {
    var address := RequestTarget(request);
    var ct := ContentTypeOf(address);
    Encode(HeaderText(ct, address, fs, dateTime)) + ContentBytes(ct, address, fs, date)
  }

  /** `run` reaches `socket.close()`: no exception leaves `writeContent`. */
  predicate ResponseCompletes(request: seq<string>, fs: FileSystem)
  {
    var address := RequestTarget(request);
    !ContentFails(ContentTypeOf(address), address, fs)
  }

  /** `run`, from the request lines to the bytes sent. */
  method Serve(os: OutputStream, request: seq<string>, fs: FileSystem, dateTime: string, date: string)
    returns (closed: bool)
    modifies os
    ensures os.written == old(os.written) + ResponseBytes(request, fs, dateTime, date)
    ensures closed == ResponseCompletes(request, fs)
  {
    var address, consumed := ReadHTTPRequest(request);
    var contentType := ContentTypeOf(address);
    ghost var start := os.written;
    WriteHTTPHeader(os, contentType, address, fs, dateTime);
    ghost var afterHeader := os.written;
    closed := WriteContent(os, contentType, address, fs, date);
    assert os.written == start + Encode(HeaderText(contentType, address, fs, dateTime))
                        + ContentBytes(contentType, address, fs, date);
  }

  /** What the response holds, by the type chosen for the request target:
      for HTML, the header and the file's lines or the inline 404 body; for
      an image, the header and the file's bytes, or the header alone and no
      close when the file is missing. The header's 404 line and the content's
      404 outcome are decided by the same lookup. */
  lemma ResponseByContentType(request: seq<string>, fs: FileSystem, dateTime: string, date: string)
    ensures var address := RequestTarget(request);
            var ct := ContentTypeOf(address);
            var path := LocalPath(address);
            var header := Encode(HeaderText(ct, address, fs, dateTime));
              (StartsWith(HeaderText(ct, address, fs, dateTime), NotFoundStatus + "\n") <==> path !in fs)
              && (ct == Html ==>
                    ResponseCompletes(request, fs)
                    && ResponseBytes(request, fs, dateTime, date)
                       == header + Encode(if path in fs then HtmlBody(fs[path].lines, date) else NotFoundBody))
              && (ct != Html ==>
                    (ResponseCompletes(request, fs) <==> path in fs)
                    && ResponseBytes(request, fs, dateTime, date)
                       == header + (if path in fs then fs[path].bytes else []))
  {
    var address := RequestTarget(request);
    ChosenTypeSelectsOneBranch(address);
    StatusLineReflectsLookup(ContentTypeOf(address), address, fs, dateTime);
  }

  /** A request for a missing image gets a header that opens with the 404
      line and nothing after it, and the socket is not closed. */
  lemma MissingImageGetsHeaderOnly(request: seq<string>, fs: FileSystem, dateTime: string, date: string)
    requires ContentTypeOf(RequestTarget(request)) != Html
    requires LocalPath(RequestTarget(request)) !in fs
    ensures var address := RequestTarget(request);
            var h := HeaderText(ContentTypeOf(address), address, fs, dateTime);
              !ResponseCompletes(request, fs)
              && ResponseBytes(request, fs, dateTime, date) == Encode(h)
              && StartsWith(h, NotFoundStatus + "\n")
  {
    ResponseByContentType(request, fs, dateTime, date);
    var address := RequestTarget(request);
    assert Encode(HeaderText(ContentTypeOf(address), address, fs, dateTime)) + []
        == Encode(HeaderText(ContentTypeOf(address), address, fs, dateTime));
  }

  /** An HTML page that exists, with a line holding the server marker: the
      header opens with `200 OK`, the content is the file's HTML body, and in
      it that line is copied, followed by its newline and, at the end of its
      output, the server name. */
  lemma MarkedLineInPage(request: seq<string>, fs: FileSystem, dateTime: string, date: string, j: nat)
    requires ContentTypeOf(RequestTarget(request)) == Html
    requires LocalPath(RequestTarget(request)) in fs
    requires j < |fs[LocalPath(RequestTarget(request))].lines|
    requires Contains(fs[LocalPath(RequestTarget(request))].lines[j], ServerMarker)
    ensures var address := RequestTarget(request);
            var lines := fs[LocalPath(address)].lines;
            var h := HeaderText(Html, address, fs, dateTime);
            var body := HtmlBody(lines, date);
            var off := |HtmlBody(lines[..j], date)|;
            var out := LineOutput(lines[j], date);
              ResponseCompletes(request, fs)
              && ResponseBytes(request, fs, dateTime, date) == Encode(h) + Encode(body)
              && StartsWith(h, OkStatus + "\n")
              && off + |out| <= |body| && body[off..off + |out|] == out
              && StartsWith(out, lines[j] + "\n") && EndsWith(out, ServerName)
  {
    var address := RequestTarget(request);
    var lines := fs[LocalPath(address)].lines;
    ResponseByContentType(request, fs, dateTime, date);
    StatusLineReflectsLookup(Html, address, fs, dateTime);
    LineCopiedInPlace(lines, date, j);
    ServerNameFollowsMarkedLine(lines[j], date);
  }

  /** A request line `GET <path> <version>` for an HTML page that exists, with
      a line holding the server marker, followed by header lines without
      `GET`: the guarantees of `MarkedLineInPage` for `<path>`. */
  lemma PageRequestWithServerMarker(path: string, version: string, headers: seq<string>,
                                    fs: FileSystem, dateTime: string, date: string, j: nat)
    requires ' ' !in path && ContentTypeOf(path) == Html
    requires forall k :: 0 <= k < |headers| ==> !Contains(headers[k], "GET")
    requires LocalPath(path) in fs && j < |fs[LocalPath(path)].lines|
    requires Contains(fs[LocalPath(path)].lines[j], ServerMarker)
    ensures var request := ["GET " + path + " " + version] + headers;
            var lines := fs[LocalPath(path)].lines;
            var h := HeaderText(Html, path, fs, dateTime);
            var body := HtmlBody(lines, date);
            var off := |HtmlBody(lines[..j], date)|;
            var out := LineOutput(lines[j], date);
              ResponseCompletes(request, fs)
              && ResponseBytes(request, fs, dateTime, date) == Encode(h) + Encode(body)
              && StartsWith(h, OkStatus + "\n")
              && off + |out| <= |body| && body[off..off + |out|] == out
              && StartsWith(out, lines[j] + "\n") && EndsWith(out, ServerName)
  {
    var request := ["GET " + path + " " + version] + headers;
    GetLineYieldsPath(path, version, headers);
    MarkedLineInPage(request, fs, dateTime, date, j);
  }
}
