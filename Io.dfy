/** The worker's view of the outside world: the files it can open, the
    output stream of the client connection, and a binary file input stream
    that fills a buffer a chunk at a time. */
module Io {
  import opened Text

  /** An openable file, seen two ways: the lines a `BufferedReader` returns
      for it (without their line terminators) and its raw bytes. */
  datatype File = File(lines: seq<string>, bytes: seq<byte>)

  /** The files that can be opened for reading, by local path; a path that
      is not a key cannot be opened (it does not exist, is a directory, or
      is unreadable). */
  type FileSystem = map<string, File>

  /** The local path of a request target: the target taken relative to the
      working directory. No path-traversal check is made. */
  function LocalPath(address: string): (path: string)
    ensures |path| == |address| + 1 && path[0] == '.' && path[1..] == address
  {
    "." + address
  }

  /** The output stream of the client connection; `written` is every byte
      sent on it so far, and `writes` the bytes of each `write` call, in order. */
  class OutputStream {
    var written: seq<byte>
    ghost var writes: seq<seq<byte>>

    constructor ()
      ensures written == [] && writes == []
    {
      written := [];
      writes := [];
    }

    /** `os.write(b)` */
    method Write(b: seq<byte>)
      modifies this
      ensures written == old(written) + b
      ensures writes == old(writes) + [b]
    {
      written := written + b;
      writes := writes + [b];
    }

    /** `os.write(s.getBytes())` */
    method WriteString(s: string)
      modifies this
      ensures written == old(written) + Encode(s)
      ensures writes == old(writes) + [Encode(s)]
    {
      Write(Encode(s));
    }

    /** `os.write(x, off, len)`: the `len` bytes of `x` from offset `off`. */
    method WriteRange(x: array<byte>, off: nat, len: nat)
      requires off + len <= x.Length
      modifies this
      ensures written == old(written) + x[off..off + len]
      ensures writes == old(writes) + [x[off..off + len]]
    {
      Write(x[off..off + len]);
    }
  }

  /** One `os.write(s.getBytes())` in a run of writes that has so far sent
      the text `sent` after `base`. */
  method Send(os: OutputStream, ghost base: seq<byte>, ghost sent: string, s: string) returns (ghost now: string)
    requires os.written == base + Encode(sent)
    modifies os
    ensures now == sent + s && os.written == base + Encode(now)
  {
    os.WriteString(s);
    EncodeAppend(sent, s);
    now := sent + s;
  }

  /** A `FileInputStream` over the bytes of one file; `pos` counts the bytes
      already delivered. */
  class FileInputStream {
    const content: seq<byte>
    var pos: nat

    ghost predicate Valid()
      reads this
    {
      pos <= |content|
    }

    constructor (content: seq<byte>)
      ensures Valid() && this.content == content && pos == 0
    {
      this.content := content;
      pos := 0;
    }

    /** `read(x)`: 0 when `x` is empty; -1 at end of file; otherwise some
        number of bytes between 1 and what fits into `x` and is left in the
        file, copied to the front of `x`. How many is the stream's choice. */
    method Read(x: array<byte>) returns (n: int)
      requires Valid()
      modifies this, x
      ensures Valid()
      ensures x.Length == 0 ==> n == 0 && pos == old(pos)
      ensures x.Length > 0 && old(pos) == |content| ==> n == -1 && pos == old(pos)
      ensures x.Length > 0 && old(pos) < |content| ==>
                1 <= n <= x.Length && pos == old(pos) + n && x[..n] == content[old(pos)..pos]
      ensures n <= 0 ==> x[..] == old(x[..])
      ensures n > 0 ==> x[n..] == old(x[n..])
    {
      if x.Length == 0 {
        return 0;
      }
      if pos == |content| {
        return -1;
      }
      var avail := if x.Length < |content| - pos then x.Length else |content| - pos;
      n :| 1 <= n <= avail;
      var start := pos;
      for i := 0 to n
        modifies x
        invariant x[..i] == content[start..start + i]
        invariant x[i..] == old(x[i..])
      {
        x[i] := content[start + i];
      }
      pos := start + n;
    }
  }
}
