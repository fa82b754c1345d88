/** Strings, bytes and the string operations the web worker relies on:
    Java's `String.contains`, cutting a string at the first occurrence of a
    character, `String.getBytes` and the lines of a newline-terminated text. */
module Text {

  /** One octet of the byte stream sent to the client. */
  newtype byte = x: int | 0 <= x < 256

  /** `t` is a prefix of `s`. */
  predicate StartsWith(s: string, t: string)
  {
    |t| <= |s| && s[..|t|] == t
  }

  /** `t` is a suffix of `s`. */
  predicate EndsWith(s: string, t: string)
  {
    |t| <= |s| && s[|s| - |t|..] == t
  }

  lemma PrefixOfAppend(a: string, b: string)
    ensures StartsWith(a + b, a) && EndsWith(a + b, b)
  {
    assert (a + b)[..|a|] == a;
    assert (a + b)[|a + b| - |b|..] == b;
  }

  lemma AppendAssoc(a: string, b: string, c: string)
    ensures a + b + c == a + (b + c)
  {
  }

  /** Where the middle part of a concatenation sits. */
  lemma MiddleOfConcat(a: string, b: string, c: string, k: nat)
    requires k <= |b|
    ensures |a| + k <= |a + b + c| && (a + b + c)[|a|..|a| + k] == b[..k]
  {
    assert (a + b + c)[|a|..|a| + k] == b[..k];
  }

  /** A prefix of the second part extends to a prefix of the whole. */
  lemma PrefixThroughConcat(h: string, n: string, p: string, a: string)
    requires StartsWith(n, p)
    ensures StartsWith(h + (n + a), h + p)
  {
    assert (h + (n + a))[..|h + p|] == h + p;
  }

  /** A string cannot start with two strings that differ at an index both have. */
  lemma PrefixesDisagree(s: string, t: string, u: string, i: nat)
    requires StartsWith(s, u) && i < |t| && i < |u| && t[i] != u[i]
    ensures !StartsWith(s, t)
  {
    assert s[i] == u[i];
  }

  /** Java's `s.contains(t)`: `t` occurs somewhere in `s`; the empty string occurs everywhere. */
  predicate Contains(s: string, t: string)
    decreases |s|
  {
    StartsWith(s, t) || (s != [] && Contains(s[1..], t))
  }

  /** `t` occurs in `s` at offset `i`. */
  predicate OccursAt(s: string, t: string, i: nat)
  {
    i + |t| <= |s| && s[i..i + |t|] == t
  }

  /** Contains agrees with "there is an offset at which t occurs in s". */
  lemma {:induction false} OccurrenceIsContained(s: string, t: string, i: nat)
    requires OccursAt(s, t, i)
    ensures Contains(s, t)
    decreases i
  {
    if i == 0 {
      assert s[..|t|] == t;
    } else {
      assert s[1..][i - 1..i - 1 + |t|] == s[i..i + |t|];
      OccurrenceIsContained(s[1..], t, i - 1);
    }
  }

  /** Contains agrees with "there is an offset at which t occurs in s", in this direction too. */
  lemma {:induction false} ContainedHasOccurrence(s: string, t: string)
    requires Contains(s, t)
    ensures exists i: nat :: OccursAt(s, t, i)
    decreases |s|
  {
    if StartsWith(s, t) {
      assert s[0..0 + |t|] == t;
      assert OccursAt(s, t, 0);
    } else {
      ContainedHasOccurrence(s[1..], t);
      var j: nat :| OccursAt(s[1..], t, j);
      assert s[j + 1..j + 1 + |t|] == s[1..][j..j + |t|];
      assert OccursAt(s, t, j + 1);
    }
  }

  /** A string that lacks one of the characters of `t` does not contain `t`. */
  lemma {:induction false} MissingCharNotContained(s: string, t: string, k: nat)
    requires k < |t| && t[k] !in s
    ensures !Contains(s, t)
    decreases |s|
  {
    if s != [] {
      assert forall c :: c in s[1..] ==> c in s;
      MissingCharNotContained(s[1..], t, k);
    }
  }

  /** The prefix of `s` before the first occurrence of `c`, or all of `s` when `c` does not occur. */
  function UpTo(s: string, c: char): (r: string)
    ensures |r| <= |s| && r == s[..|r|]
    ensures c !in r
    ensures |r| < |s| ==> s[|r|] == c
    decreases |s|
  {
    if s == [] || s[0] == c then "" else [s[0]] + UpTo(s[1..], c)
  }

  /** The three properties in UpTo's contract determine its result. */
  lemma UpToUnique(s: string, c: char, r: string)
    requires |r| <= |s| && r == s[..|r|] && c !in r
    requires |r| < |s| ==> s[|r|] == c
    ensures r == UpTo(s, c)
  {
    var u := UpTo(s, c);
    assert |r| == |u|;
    assert r == s[..|r|] == u;
  }

  /** Cutting `p + [c] + rest` at `c` gives back `p` when `p` does not hold `c`. */
  lemma UpToBeforeSeparator(p: string, c: char, rest: string)
    requires c !in p
    ensures UpTo(p + [c] + rest, c) == p
  {
    var s := p + [c] + rest;
    assert s[..|p|] == p;
    assert s[|p|] == c;
    UpToUnique(s, c, p);
  }

  /** The text that `lines` becomes when every line is written followed by a newline. */
  function JoinLines(lines: seq<string>): string
  {
    if lines == [] then "" else lines[0] + "\n" + JoinLines(lines[1..])
  }

  /** Joining two runs of lines is joining each run and concatenating. */
  lemma {:induction false} JoinLinesAppend(a: seq<string>, b: seq<string>)
    ensures JoinLines(a + b) == JoinLines(a) + JoinLines(b)
    decreases |a|
  {
    if a != [] {
      assert (a + b)[1..] == a[1..] + b;
      JoinLinesAppend(a[1..], b);
    } else {
      assert a + b == b;
    }
  }

  /** The lines of `s` split at `'\n'`; text after the last newline is a final line. */
  function SplitLines(s: string): seq<string>
    decreases |s|
  {
    if s == [] then []
    else
      var line := UpTo(s, '\n');
      if |line| == |s| then [s] else [line] + SplitLines(s[|line| + 1..])
  }

  /** Reading back the lines of a joined text gives the lines that were joined, provided none holds a newline. */
  lemma {:induction false} SplitJoinLines(lines: seq<string>)
    requires forall k :: 0 <= k < |lines| ==> '\n' !in lines[k]
    ensures SplitLines(JoinLines(lines)) == lines
    decreases |lines|
  {
    if lines != [] {
      var rest := JoinLines(lines[1..]);
      var s := JoinLines(lines);
      assert s == lines[0] + "\n" + rest;
      UpToBeforeSeparator(lines[0], '\n', rest);
      assert s[|lines[0]| + 1..] == rest;
      SplitJoinLines(lines[1..]);
    }
  }

  /** `String.getBytes` on one character: its code, reduced to a byte. */
  function CharByte(c: char): byte
  {
    (c as int % 256) as byte
  }

  /** `String.getBytes`: one byte per character. */
  function Encode(s: string): (b: seq<byte>)
    ensures |b| == |s|
  {
    seq(|s|, i requires 0 <= i < |s| => CharByte(s[i]))
  }

  /** Writing two strings one after the other sends the bytes of their concatenation. */
  lemma EncodeAppend(a: string, b: string)
    ensures Encode(a + b) == Encode(a) + Encode(b)
  {
    assert forall i :: 0 <= i < |a + b| ==> Encode(a + b)[i] == (Encode(a) + Encode(b))[i];
  }
}
