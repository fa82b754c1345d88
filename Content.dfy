/** Writing the response body. An HTML file is copied line by line, each
    line followed by a newline, with the current date appended after a line
    holding the date marker and a server name after a line holding the
    server marker; a missing HTML file gives an inline 404 body. An image
    file is copied byte for byte in chunks. Any other type writes nothing. */
module Content {
  import opened Text
  import opened Io

  const NotFoundBody := "<h1>404 Error: Not Found <h1> \n"
  const DateMarker := "<cs371date>"
  const ServerMarker := "<cs371server"
  const ServerName := "Geralds Server \n"

  /** What one line of an HTML file becomes; `date` is the formatted current date. */
  function LineOutput(line: string, date: string): string
  {
    line + "\n"
      + (if Contains(line, DateMarker) then date else "")
      + (if Contains(line, ServerMarker) then ServerName else "")
  }

  /** What the lines of an HTML file become, in order. */
  function HtmlBody(lines: seq<string>, date: string): string
    decreases |lines|
  {
    if lines == [] then ""
    else HtmlBody(lines[..|lines| - 1], date) + LineOutput(lines[|lines| - 1], date)
  }

  /** The bytes `writeContent` sends for content type `ct` and request target `address`. */
  function ContentBytes(ct: string, address: string, fs: FileSystem, date: string): (r: seq<byte>)
    ensures !Contains(ct, "text/html") && !Contains(ct, "image") ==> r == []
  {
    var path := LocalPath(address);
    if Contains(ct, "text/html") then
      if path in fs then Encode(HtmlBody(fs[path].lines, date)) else Encode(NotFoundBody)
    else if Contains(ct, "image") then
      if path in fs then fs[path].bytes else []
    else []
  }

  /** `writeContent` throws: an image type whose file cannot be opened. */
  predicate ContentFails(ct: string, address: string, fs: FileSystem)
  {
    !Contains(ct, "text/html") && Contains(ct, "image") && LocalPath(address) !in fs
  }

  /** The body of the `readLine` loop: one line, its newline and the marker texts. */
  method WriteLine(os: OutputStream, fcont: string, date: string)
    modifies os
    ensures os.written == old(os.written) + Encode(LineOutput(fcont, date))
  {
    ghost var base, out := os.written, "";
    out := Send(os, base, out, fcont);
    out := Send(os, base, out, "\n");
    if Contains(fcont, DateMarker) {
      out := Send(os, base, out, date);
    }
    if Contains(fcont, ServerMarker) {
      out := Send(os, base, out, ServerName);
    }
    assert out == LineOutput(fcont, date);
  }

  lemma HtmlBodySnoc(lines: seq<string>, date: string, k: nat)
    requires k < |lines|
    ensures HtmlBody(lines[..k + 1], date) == HtmlBody(lines[..k], date) + LineOutput(lines[k], date)
  {
    assert lines[..k + 1][..k] == lines[..k];
  }

  /** The `readLine` loop of the HTML branch. */
  method WriteHtml(os: OutputStream, lines: seq<string>, date: string)
    modifies os
    ensures os.written == old(os.written) + Encode(HtmlBody(lines, date))
  {
    ghost var start := os.written;
    var k := 0;
    while k < |lines|
      invariant k <= |lines|
      invariant os.written == start + Encode(HtmlBody(lines[..k], date))
    {
      var fcont := lines[k];
      WriteLine(os, fcont, date);
      EncodeAppend(HtmlBody(lines[..k], date), LineOutput(fcont, date));
      HtmlBodySnoc(lines, date, k);
      k := k + 1;
    }
    assert lines[..k] == lines;
  }

  /** All the chunks, one after the other. */
  function Flatten(chunks: seq<seq<byte>>): seq<byte>
  {
    if chunks == [] then [] else Flatten(chunks[..|chunks| - 1]) + chunks[|chunks| - 1]
  }

  lemma FlattenSnoc(chunks: seq<seq<byte>>, c: seq<byte>)
    ensures Flatten(chunks + [c]) == Flatten(chunks) + c
  {
    assert (chunks + [c])[..|chunks|] == chunks;
  }

  /** One `os.write(x, 0, marker)` of the image loop, after the chunks `chunks`. */
  method WriteChunk(os: OutputStream, x: array<byte>, marker: nat, ghost start: seq<byte>,
                    ghost startWrites: seq<seq<byte>>, ghost chunks: seq<seq<byte>>)
    returns (ghost chunks': seq<seq<byte>>)
    requires marker <= x.Length
    requires os.written == start + Flatten(chunks) && os.writes == startWrites + chunks
    modifies os
    ensures chunks' == chunks + [x[..marker]]
    ensures os.written == start + Flatten(chunks') && os.writes == startWrites + chunks'
  {
    assert x[0..0 + marker] == x[..marker];
    os.WriteRange(x, 0, marker);
    FlattenSnoc(chunks, x[..marker]);
    chunks' := chunks + [x[..marker]];
  }

  /** The image branch: `f.length()` sizes the buffer, and every chunk `read`
      delivers is written until `read` returns 0 or less. The `write` calls
      made are `chunks`: together they are the file's bytes, in order. */
  method WriteImage(os: OutputStream, bytes: seq<byte>) returns (ghost chunks: seq<seq<byte>>)
    modifies os
    ensures os.written == old(os.written) + bytes
    ensures os.writes == old(os.writes) + chunks
    ensures Flatten(chunks) == bytes
    ensures forall i :: 0 <= i < |chunks| ==> 0 < |chunks[i]| <= |bytes|
  {
    ghost var start, startWrites := os.written, os.writes;
    var size := |bytes|;
    var x := new byte[size];
    var ff := new FileInputStream(bytes);
    chunks := [];
    ghost var sent: nat := 0;
    var marker := ff.Read(x);
    while marker > 0
      invariant ff.Valid() && ff.content == bytes && x.Length == size
      invariant marker > 0 ==> sent + marker == ff.pos && x[..marker] == bytes[sent..ff.pos]
      invariant marker <= 0 ==> sent == ff.pos == size
      invariant Flatten(chunks) == bytes[..sent]
      invariant os.written == start + bytes[..sent]
      invariant os.writes == startWrites + chunks
      invariant forall i :: 0 <= i < |chunks| ==> 0 < |chunks[i]| <= size
      decreases size - sent
    {
      chunks := WriteChunk(os, x, marker, start, startWrites, chunks);
      assert bytes[..sent] + bytes[sent..ff.pos] == bytes[..ff.pos];
      sent := ff.pos;
      marker := ff.Read(x);
    }
    assert bytes[..size] == bytes;
  }

  /** `writeContent`; `completed` is false when it throws. */
  method WriteContent(os: OutputStream, contentType: string, address: string, fs: FileSystem, date: string)
    returns (completed: bool)
    modifies os
    ensures completed == !ContentFails(contentType, address, fs)
    ensures os.written == old(os.written) + ContentBytes(contentType, address, fs, date)
  {
    var copy := LocalPath(address);
    completed := true;
    if Contains(contentType, "text/html") {
      if copy in fs {
        WriteHtml(os, fs[copy].lines, date);
      } else {
        // new FileReader(f) throws
        os.WriteString(NotFoundBody);
      }
    } else if Contains(contentType, "image") {
      if copy !in fs {
        // new FileInputStream(f) throws, and the exception leaves writeContent
        completed := false;
        return;
      }
      ghost var chunks := WriteImage(os, fs[copy].bytes);
    }
  }

  /** The body of a file made of two runs of lines is the two bodies, one after the other. */
  lemma {:induction false} HtmlBodyAppend(a: seq<string>, b: seq<string>, date: string)
    ensures HtmlBody(a + b, date) == HtmlBody(a, date) + HtmlBody(b, date)
    decreases |b|
  {
    if b == [] {
      assert a + b == a;
    } else {
      var b', last := b[..|b| - 1], LineOutput(b[|b| - 1], date);
      assert (a + b)[..|a + b| - 1] == a + b' && (a + b)[|a + b| - 1] == b[|b| - 1];
      assert HtmlBody(a + b, date) == HtmlBody(a + b', date) + last;
      HtmlBodyAppend(a, b', date);
      AppendAssoc(HtmlBody(a, date), HtmlBody(b', date), last);
    }
  }

  /** The output of a line starts with the line itself and its newline. */
  lemma LineOutputStartsWithLine(line: string, date: string)
    ensures StartsWith(LineOutput(line, date), line + "\n")
  {
    var extra := (if Contains(line, DateMarker) then date else "")
                 + (if Contains(line, ServerMarker) then ServerName else "");
    assert LineOutput(line, date) == line + "\n" + extra;
    PrefixOfAppend(line + "\n", extra);
  }

  /** The body splits at any line into the body before it, that line's output and the body after it. */
  lemma HtmlBodyAround(lines: seq<string>, date: string, j: nat)
    requires j < |lines|
    ensures HtmlBody(lines, date)
         == HtmlBody(lines[..j], date) + LineOutput(lines[j], date) + HtmlBody(lines[j + 1..], date)
  {
    assert lines == lines[..j] + [lines[j]] + lines[j + 1..];
    HtmlBodyAppend(lines[..j] + [lines[j]], lines[j + 1..], date);
    HtmlBodyAppend(lines[..j], [lines[j]], date);
    assert [lines[j]][..0] == [];
  }

  /** The body around two neighbouring lines. */
  lemma HtmlBodyAroundPair(lines: seq<string>, date: string, j: nat)
    requires j + 1 < |lines|
    ensures HtmlBody(lines, date)
         == HtmlBody(lines[..j], date)
            + (LineOutput(lines[j], date) + (LineOutput(lines[j + 1], date) + HtmlBody(lines[j + 2..], date)))
  {
    var b, l1, l2, a := HtmlBody(lines[..j], date), LineOutput(lines[j], date),
                        LineOutput(lines[j + 1], date), HtmlBody(lines[j + 2..], date);
    HtmlBodyAround(lines, date, j);
    assert lines[j + 1..] == [lines[j + 1]] + lines[j + 2..];
    HtmlBodyAppend([lines[j + 1]], lines[j + 2..], date);
    SingleLineBody(lines[j + 1], date);
    assert HtmlBody(lines[j + 1..], date) == l2 + a;
    AppendAssoc(b, l1, l2 + a);
  }

  lemma SingleLineBody(line: string, date: string)
    ensures HtmlBody([line], date) == LineOutput(line, date)
  {
    assert [line][..0] == [];
  }

  /** Each line of the file appears unaltered in the body, followed by a
      newline, after the output of the lines before it. */
  lemma LineCopiedInPlace(lines: seq<string>, date: string, j: nat)
    requires j < |lines|
    ensures var off := |HtmlBody(lines[..j], date)|;
            var out := LineOutput(lines[j], date);
              off + |out| <= |HtmlBody(lines, date)|
              && HtmlBody(lines, date)[off..off + |out|] == out
              && HtmlBody(lines, date)[off..off + |lines[j]| + 1] == lines[j] + "\n"
  {
    var out := LineOutput(lines[j], date);
    HtmlBodyAround(lines, date, j);
    LineOutputStartsWithLine(lines[j], date);
    MiddleOfConcat(HtmlBody(lines[..j], date), out, HtmlBody(lines[j + 1..], date), |lines[j]| + 1);
    MiddleOfConcat(HtmlBody(lines[..j], date), out, HtmlBody(lines[j + 1..], date), |out|);
    assert out[..|out|] == out;
  }

  /** A file without markers is copied exactly: each line followed by a newline. */
  lemma {:induction false} PlainFileCopiedVerbatim(lines: seq<string>, date: string)
    requires forall k :: 0 <= k < |lines| ==> !Contains(lines[k], DateMarker) && !Contains(lines[k], ServerMarker)
    ensures HtmlBody(lines, date) == JoinLines(lines)
    decreases |lines|
  {
    if lines != [] {
      assert lines == [lines[0]] + lines[1..];
      HtmlBodyAppend([lines[0]], lines[1..], date);
      assert HtmlBody([lines[0]], date) == LineOutput(lines[0], date) == lines[0] + "\n";
      PlainFileCopiedVerbatim(lines[1..], date);
    }
  }

  /** A line with the date marker is written, then its newline, then the
      date — with no newline after it, so the date runs into the next line's
      text. */
  lemma DateRunsIntoNextLine(lines: seq<string>, date: string, j: nat)
    requires j + 1 < |lines|
    requires Contains(lines[j], DateMarker) && !Contains(lines[j], ServerMarker)
    ensures var body := HtmlBody(lines, date);
            var off := |HtmlBody(lines[..j], date)|;
            var run := lines[j] + "\n" + date + lines[j + 1] + "\n";
              off + |run| <= |body| && body[off..off + |run|] == run
  {
    var before, after := HtmlBody(lines[..j], date), HtmlBody(lines[j + 2..], date);
    var here, next := LineOutput(lines[j], date), LineOutput(lines[j + 1], date);
    HtmlBodyAroundPair(lines, date, j);
    assert here == lines[j] + "\n" + date;
    LineOutputStartsWithLine(lines[j + 1], date);
    PrefixThroughConcat(here, next, lines[j + 1] + "\n", after);
    var run := lines[j] + "\n" + date + lines[j + 1] + "\n";
    assert here + (lines[j + 1] + "\n") == run;
    MiddleOfConcat(before, here + (next + after), "", |run|);
  }

  /** A line with the server marker has the server name written after its newline. */
  lemma ServerNameFollowsMarkedLine(line: string, date: string)
    requires Contains(line, ServerMarker)
    ensures var out := LineOutput(line, date); StartsWith(out, line + "\n") && EndsWith(out, ServerName)
  {
    var mid := if Contains(line, DateMarker) then date else "";
    assert LineOutput(line, date) == line + "\n" + (mid + ServerName);
    PrefixOfAppend(line + "\n", mid + ServerName);
    PrefixOfAppend(line + "\n" + mid, ServerName);
  }
}
