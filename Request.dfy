/** Reading the HTTP request: the lines of the request header are scanned
    for the request target. The request is modelled as the sequence of lines
    `readLine` returns, after which it returns `null` (end of input). */
module Request {
  import opened Text

  /** A line on which the scan takes `line.substring(4)`: it contains `GET`
      and is long enough for the substring to exist. */
  predicate NamesTarget(line: string)
  {
    Contains(line, "GET") && |line| >= 4
  }

  /** A line after which the scan reads nothing more: the zero-length line
      that ends the header block, or a `GET` line too short for
      `substring(4)`, which throws. */
  predicate StopsScan(line: string)
  {
    |line| == 0 || (Contains(line, "GET") && |line| < 4)
  }

  /** The target a `GET` line names: the text from index 4 up to its first space. */
  function TargetOf(line: string): (t: string)
    requires |line| >= 4
    ensures 4 + |t| <= |line| && t == line[4..4 + |t|] && ' ' !in t
    ensures 4 + |t| < |line| ==> line[4 + |t|] == ' '
  {
    UpTo(line[4..], ' ')
  }

  /** The target the scan returns when it starts on `lines` holding `address`. */
  function ScanFrom(lines: seq<string>, address: string): string
    decreases |lines|
  {
    if lines == [] then address
    else if StopsScan(lines[0]) then address
    else ScanFrom(lines[1..], if NamesTarget(lines[0]) then TargetOf(lines[0]) else address)
  }

  /** The target `readHTTPRequest` returns for a request made of `lines`. */
  function RequestTarget(lines: seq<string>): string
  {
    ScanFrom(lines, "")
  }

  /** How many lines the scan reads: up to and including the first line that
      stops it, or all of them. */
  function ReadCount(lines: seq<string>): (n: nat)
    ensures n <= |lines| && (lines != [] ==> n >= 1)
    ensures forall j :: 0 <= j < n - 1 ==> !StopsScan(lines[j])
    ensures n < |lines| ==> StopsScan(lines[n - 1])
    decreases |lines|
  {
    if lines == [] then 0
    else if StopsScan(lines[0]) then 1
    else 1 + ReadCount(lines[1..])
  }

  /** The `for` loop of `readHTTPRequest`: scanning `s` from the front, the
      first space found truncates it there, which also ends the loop. */
  method TruncateAtFirstSpace(s: string) returns (address: string)
    ensures address == UpTo(s, ' ')
  {
    address := s;
    var i := 0;
    while i < |address|
      invariant (address == s && i <= |s| && ' ' !in s[..i])
             || (1 <= i <= |s| && address == s[..i - 1] && s[i - 1] == ' ' && ' ' !in address)
    {
      if address[i] == ' ' {
        address := address[..i];
      }
      i := i + 1;
    }
    UpToUnique(s, ' ', address);
  }

  /** `readHTTPRequest`: the target and the number of lines read. */
  method ReadHTTPRequest(lines: seq<string>) returns (address: string, consumed: nat)
    ensures address == RequestTarget(lines)
    ensures consumed == ReadCount(lines)
  {
    address := "";
    consumed := 0;
    while true
      invariant consumed <= |lines|
      invariant ScanFrom(lines[consumed..], address) == RequestTarget(lines)
      invariant consumed + ReadCount(lines[consumed..]) == ReadCount(lines)
      decreases |lines| - consumed
    {
      if consumed == |lines| {
        // readLine() returned null, and line.contains throws
        break;
      }
      var line := lines[consumed];
      assert lines[consumed..][0] == line && lines[consumed..][1..] == lines[consumed + 1..];
      consumed := consumed + 1;
      if Contains(line, "GET") {
        if |line| < 4 {
          // line.substring(4) throws
          break;
        }
        address := line[4..];
        address := TruncateAtFirstSpace(address);
      }
      if |line| == 0 {
        break;
      }
    }
  }

  /** Scanning never puts a space into a target that has none. */
  lemma {:induction false} ScanKeepsNoSpace(lines: seq<string>, address: string)
    requires ' ' !in address
    ensures ' ' !in ScanFrom(lines, address)
    decreases |lines|
  {
    if lines != [] && !StopsScan(lines[0]) {
      ScanKeepsNoSpace(lines[1..], if NamesTarget(lines[0]) then TargetOf(lines[0]) else address);
    }
  }

  /** The request target never contains a space. */
  lemma TargetHasNoSpace(lines: seq<string>)
    ensures ' ' !in RequestTarget(lines)
  {
    ScanKeepsNoSpace(lines, "");
  }

  /** Without a target line among the lines read, the scan returns what it started with. */
  lemma {:induction false} ScanWithoutTargetLine(lines: seq<string>, address: string)
    requires forall j :: 0 <= j < ReadCount(lines) ==> !NamesTarget(lines[j])
    ensures ScanFrom(lines, address) == address
    decreases |lines|
  {
    if lines != [] && !StopsScan(lines[0]) {
      assert forall j :: 0 <= j < ReadCount(lines[1..]) ==> lines[1..][j] == lines[j + 1];
      ScanWithoutTargetLine(lines[1..], address);
    }
  }

  /** With no `GET` line among the lines read, the request target is empty. */
  lemma NoTargetLineGivesEmptyTarget(lines: seq<string>)
    requires forall j :: 0 <= j < ReadCount(lines) ==> !NamesTarget(lines[j])
    ensures RequestTarget(lines) == ""
  {
    ScanWithoutTargetLine(lines, "");
  }

  /** The last target line among the lines read decides the scan's result. */
  lemma {:induction false} ScanLastTargetLine(lines: seq<string>, address: string, j: nat)
    requires j < ReadCount(lines) && NamesTarget(lines[j])
    requires forall k :: j < k < ReadCount(lines) ==> !NamesTarget(lines[k])
    ensures ScanFrom(lines, address) == TargetOf(lines[j])
    decreases |lines|
  {
    assert !StopsScan(lines[0]);
    var next := if NamesTarget(lines[0]) then TargetOf(lines[0]) else address;
    assert forall k :: 0 <= k < ReadCount(lines[1..]) ==> lines[1..][k] == lines[k + 1];
    if j == 0 {
      ScanWithoutTargetLine(lines[1..], next);
    } else {
      ScanLastTargetLine(lines[1..], next, j - 1);
    }
  }

  /** Every `GET` line read overwrites the target, so the last one wins: the
      target is its text from index 4 up to its first space. */
  lemma LastTargetLineWins(lines: seq<string>, j: nat)
    requires j < ReadCount(lines) && NamesTarget(lines[j])
    requires forall k :: j < k < ReadCount(lines) ==> !NamesTarget(lines[k])
    ensures RequestTarget(lines) == UpTo(lines[j][4..], ' ')
  {
    ScanLastTargetLine(lines, "", j);
  }

  /** A stopping line ends the scan with the address it had. */
  lemma {:induction false} ScanEndsAtStopLine(pre: seq<string>, line: string, rest: seq<string>, address: string)
    requires StopsScan(line)
    ensures ScanFrom(pre + [line] + rest, address) == ScanFrom(pre, address)
    ensures ReadCount(pre + [line] + rest) <= |pre| + 1
    decreases |pre|
  {
    var all := pre + [line] + rest;
    if pre == [] {
      assert all[0] == line;
    } else if !StopsScan(pre[0]) {
      assert all[0] == pre[0] && all[1..] == pre[1..] + [line] + rest;
      ScanEndsAtStopLine(pre[1..], line, rest,
        if NamesTarget(pre[0]) then TargetOf(pre[0]) else address);
    } else {
      assert all[0] == pre[0];
    }
  }

  /** The scan stops at the first zero-length line, or at a `GET` line too
      short for `substring(4)`: it returns the target found in the lines
      before it, and no later line is read. */
  lemma StopLineEndsRequest(pre: seq<string>, line: string, rest: seq<string>)
    requires StopsScan(line)
    ensures RequestTarget(pre + [line] + rest) == RequestTarget(pre)
    ensures ReadCount(pre + [line] + rest) <= |pre| + 1
  {
    ScanEndsAtStopLine(pre, line, rest, "");
  }

  /** A request line `GET <path> <version>` yields `<path>`, whatever header
      lines without `GET` follow it. */
  lemma GetLineYieldsPath(path: string, version: string, headers: seq<string>)
    requires ' ' !in path
    requires forall k :: 0 <= k < |headers| ==> !Contains(headers[k], "GET")
    ensures RequestTarget(["GET " + path + " " + version] + headers) == path
  {
    var line := "GET " + path + " " + version;
    var lines := [line] + headers;
    assert line[..3] == "GET";
    assert NamesTarget(line) && !StopsScan(line);
    assert line[4..] == path + [' '] + version;
    UpToBeforeSeparator(path, ' ', version);
    assert lines[1..] == headers;
    ScanWithoutTargetLine(headers, path);
  }
}
