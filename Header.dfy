/** Writing the HTTP response header. The header does not choose between
    404 and 200: when the requested file cannot be opened it writes a 404
    status line and then, unconditionally, the `200 OK` line and the other
    header lines. */
module Header {
  import opened Text
  import opened Io

  const NotFoundStatus := "HTTP/1.1 404 Error: Not Found"
  const OkStatus := "HTTP/1.1 200 OK"
  const ServerField := "Server: Jon's very own server"
  const ConnectionField := "Connection: close"

  /** The status text that opens the header: the 404 line when the file is missing, nothing otherwise. */
  function StatusPrefix(address: string, fs: FileSystem): string
  {
    if LocalPath(address) in fs then "" else NotFoundStatus + "\n"
  }

  /** The text of the header for content type `ct` and request target
      `address`; `dateTime` is the formatted current date and time. */
  function HeaderText(ct: string, address: string, fs: FileSystem, dateTime: string): string
  {
    StatusPrefix(address, fs)
      + (OkStatus + "\n")
      + "Date: " + dateTime + "\n"
      + (ServerField + "\n")
      + (ConnectionField + "\n")
      + "Content-Type: " + ct + "\n\n"
  }

  /** The lines of the header, as a client reading it line by line sees
      them, from the opening status line to the blank line that ends it. */
  function HeaderLines(ct: string, address: string, fs: FileSystem, dateTime: string): seq<string>
  {
    (if LocalPath(address) in fs then [] else [NotFoundStatus])
      + [OkStatus, "Date: " + dateTime, ServerField, ConnectionField, "Content-Type: " + ct, ""]
  }

  /** `writeHTTPHeader`: the existence probe on `"." + address`, then the header lines. */
  method WriteHTTPHeader(os: OutputStream, contentType: string, address: string, fs: FileSystem, dateTime: string)
    modifies os
    ensures os.written == old(os.written) + Encode(HeaderText(contentType, address, fs, dateTime))
  {
    ghost var base, text := os.written, "";
    var copy := LocalPath(address);
    if copy !in fs {
      // new FileReader(f) throws
      text := Send(os, base, text, NotFoundStatus + "\n");
    }
    assert text == StatusPrefix(address, fs);
    text := Send(os, base, text, OkStatus + "\n");
    text := Send(os, base, text, "Date: ");
    text := Send(os, base, text, dateTime);
    text := Send(os, base, text, "\n");
    text := Send(os, base, text, ServerField + "\n");
    text := Send(os, base, text, ConnectionField + "\n");
    text := Send(os, base, text, "Content-Type: ");
    text := Send(os, base, text, contentType);
    text := Send(os, base, text, "\n\n");
  }

  /** Six lines joined, written out. */
  lemma JoinSixLines(a: string, b: string, c: string, d: string, e: string, f: string)
    ensures JoinLines([a, b, c, d, e, f])
         == a + "\n" + (b + "\n" + (c + "\n" + (d + "\n" + (e + "\n" + (f + "\n")))))
  {
    var ls := [a, b, c, d, e, f];
    assert ls[1..] == [b, c, d, e, f] && ls[2..] == [c, d, e, f] && ls[3..] == [d, e, f];
    assert ls[4..] == [e, f] && ls[5..] == [f] && ls[6..] == [];
    assert JoinLines(ls[5..]) == f + "\n";
    assert JoinLines(ls[4..]) == e + "\n" + JoinLines(ls[5..]);
    assert JoinLines(ls[3..]) == d + "\n" + JoinLines(ls[4..]);
    assert JoinLines(ls[2..]) == c + "\n" + JoinLines(ls[3..]);
    assert JoinLines(ls[1..]) == b + "\n" + JoinLines(ls[2..]);
  }

  /** Regrouping the header's writes into its lines. */
  lemma RegroupIntoLines(p: string, ok: string, dd: string, dt: string, srv: string, conn: string,
                         cc: string, ct: string, nl: string)
    ensures p + (ok + nl) + dd + dt + nl + (srv + nl) + (conn + nl) + cc + ct + (nl + nl)
         == p + (ok + nl + ((dd + dt) + nl + (srv + nl + (conn + nl + ((cc + ct) + nl + ("" + nl))))))
  {
  }

  /** The header text is its lines, each followed by a newline. */
  lemma HeaderJoinsItsLines(ct: string, address: string, fs: FileSystem, dateTime: string)
    ensures JoinLines(HeaderLines(ct, address, fs, dateTime)) == HeaderText(ct, address, fs, dateTime)
  {
    var tail := [OkStatus, "Date: " + dateTime, ServerField, ConnectionField, "Content-Type: " + ct, ""];
    var ls := HeaderLines(ct, address, fs, dateTime);
    assert JoinLines(ls) == StatusPrefix(address, fs) + JoinLines(tail) by {
      if LocalPath(address) !in fs {
        assert ls == [NotFoundStatus] + tail;
        JoinLinesAppend([NotFoundStatus], tail);
        assert JoinLines([NotFoundStatus]) == NotFoundStatus + "\n" + JoinLines([]);
      } else {
        assert ls == tail;
      }
    }
    JoinSixLines(OkStatus, "Date: " + dateTime, ServerField, ConnectionField, "Content-Type: " + ct, "");
    assert "\n\n" == "\n" + "\n";
    RegroupIntoLines(StatusPrefix(address, fs), OkStatus, "Date: ", dateTime, ServerField, ConnectionField,
                     "Content-Type: ", ct, "\n");
  }

  /** The header text consists of exactly the header lines, each ended by a
      newline, provided the date and the content type hold no newline. */
  lemma HeaderIsItsLines(ct: string, address: string, fs: FileSystem, dateTime: string)
    requires '\n' !in ct && '\n' !in dateTime
    ensures SplitLines(HeaderText(ct, address, fs, dateTime)) == HeaderLines(ct, address, fs, dateTime)
  {
    HeaderJoinsItsLines(ct, address, fs, dateTime);
    HeaderLinesHoldNoNewline(ct, address, fs, dateTime);
    SplitJoinLines(HeaderLines(ct, address, fs, dateTime));
  }

  lemma HeaderLinesHoldNoNewline(ct: string, address: string, fs: FileSystem, dateTime: string)
    requires '\n' !in ct && '\n' !in dateTime
    ensures var ls := HeaderLines(ct, address, fs, dateTime);
              forall k :: 0 <= k < |ls| ==> '\n' !in ls[k]
  {
    assert '\n' !in "Date: " + dateTime && '\n' !in "Content-Type: " + ct;
  }

  /** The header opens with the 404 status line exactly when `"." + address`
      cannot be opened, and with the `200 OK` line exactly when it can. */
  lemma StatusLineReflectsLookup(ct: string, address: string, fs: FileSystem, dateTime: string)
    ensures var h := HeaderText(ct, address, fs, dateTime);
              (StartsWith(h, NotFoundStatus + "\n") <==> LocalPath(address) !in fs)
              && (StartsWith(h, OkStatus + "\n") <==> LocalPath(address) in fs)
  {
    var ls := HeaderLines(ct, address, fs, dateTime);
    var h := HeaderText(ct, address, fs, dateTime);
    HeaderJoinsItsLines(ct, address, fs, dateTime);
    assert h == ls[0] + "\n" + JoinLines(ls[1..]);
    PrefixOfAppend(ls[0] + "\n", JoinLines(ls[1..]));
    assert NotFoundStatus[9] == '4' && OkStatus[9] == '2';
    if LocalPath(address) in fs {
      assert ls[0] == OkStatus;
      PrefixesDisagree(h, NotFoundStatus + "\n", OkStatus + "\n", 9);
    } else {
      assert ls[0] == NotFoundStatus;
      PrefixesDisagree(h, OkStatus + "\n", NotFoundStatus + "\n", 9);
    }
  }

  /** When the file is missing, the 404 status line is followed at once by
      the `200 OK` line: the header carries two status lines. */
  lemma MissingFileGivesTwoStatusLines(ct: string, address: string, fs: FileSystem, dateTime: string)
    requires LocalPath(address) !in fs
    requires '\n' !in ct && '\n' !in dateTime
    ensures var ls := SplitLines(HeaderText(ct, address, fs, dateTime));
              |ls| == 7 && ls[0] == NotFoundStatus && ls[1] == OkStatus
  {
    HeaderIsItsLines(ct, address, fs, dateTime);
  }

  /** The header always ends with the `Content-Type` line and a blank line,
      so content written after it starts after the blank line. */
  lemma HeaderEndsWithBlankLine(ct: string, address: string, fs: FileSystem, dateTime: string)
    ensures EndsWith(HeaderText(ct, address, fs, dateTime), "Content-Type: " + ct + "\n\n")
  {
    var ls := HeaderLines(ct, address, fs, dateTime);
    var n := |ls|;
    var last := ["Content-Type: " + ct, ""];
    HeaderJoinsItsLines(ct, address, fs, dateTime);
    assert ls == ls[..n - 2] + last;
    JoinLinesAppend(ls[..n - 2], last);
    assert last[1..] == [""] && [""][1..] == [];
    assert JoinLines(last) == "Content-Type: " + ct + "\n" + ("" + "\n" + "");
    assert "Content-Type: " + ct + "\n" + ("" + "\n" + "") == "Content-Type: " + ct + "\n\n";
    PrefixOfAppend(JoinLines(ls[..n - 2]), JoinLines(last));
  }
}
