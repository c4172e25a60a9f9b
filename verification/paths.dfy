/**
 The two string helpers of the observer: turning the raw path bytes of a
 create request into the key of its reconstruction buffer, and turning that
 key into the local file the buffer is saved to.
 */
module Paths {
  import opened Bytes
  import Utf16

  /** The fixed local capture directory every saved file is rooted under. */
  const CaptureRoot: string := "./saved_files/"

  /** `s` with every NUL character removed, other characters kept in order. */
  function RemoveNul(s: string): (r: string)
    ensures '\0' !in r
    ensures forall c :: c != '\0' ==> (c in r <==> c in s)
    ensures |r| <= |s|
  {
    if |s| == 0 then ""
    else if s[0] == '\0' then RemoveNul(s[1..])
    else [s[0]] + RemoveNul(s[1..])
  }

  /** Removing NULs keeps a NUL-free string as it is. */
  lemma {:induction false} RemoveNulKeepsNulFree(s: string)
    requires '\0' !in s
    ensures RemoveNul(s) == s
  {
    if |s| > 0 {
      RemoveNulKeepsNulFree(s[1..]);
      assert [s[0]] + s[1..] == s;
    }
  }

  /** Removing NULs distributes over concatenation, so it acts on each
      character independently. */
  lemma {:induction false} RemoveNulConcat(a: string, b: string)
    ensures RemoveNul(a + b) == RemoveNul(a) + RemoveNul(b)
  {
    if |a| > 0 {
      assert (a + b)[1..] == a[1..] + b;
      RemoveNulConcat(a[1..], b);
    } else {
      assert a + b == b;
    }
  }

  /** The path string of raw wide-character path bytes: permissive UTF-16LE
      decoding, then every NUL (such as the terminator) stripped. */
  function BytesToPath(pathBytes: seq<byte>): (p: string)
    ensures '\0' !in p
  {
    RemoveNul(Utf16.DecodeLe(pathBytes))
  }

  /** A path sent as a NUL-terminated wide string comes back as the path
      itself, with the terminator gone. */
  lemma BytesToPathOfTerminated(name: string)
    requires '\0' !in name
    ensures BytesToPath(Utf16.EncodeLe(name + "\0")) == name
  {
    Utf16.DecodeEncode(name + "\0");
    RemoveNulConcat(name, "\0");
    RemoveNulKeepsNulFree(name);
  }

  /** No two adjacent dots anywhere in `s`. */
  predicate NoDotDot(s: string)
  {
    forall i :: 0 <= i < |s| - 1 ==> !(s[i] == '.' && s[i + 1] == '.')
  }

  /** `s` with every backslash turned into a forward slash. */
  function ToForwardSlashes(s: string): (r: string)
    ensures |r| == |s|
    ensures '\\' !in r
    ensures forall i :: 0 <= i < |s| && s[i] != '\\' ==> r[i] == s[i]
    ensures forall i :: 0 <= i < |s| && s[i] == '\\' ==> r[i] == '/'
  {
    seq(|s|, i requires 0 <= i < |s| => if s[i] == '\\' then '/' else s[i])
  }

  /** One left-to-right pass deleting every non-overlapping occurrence of "..". */
  function StripDotDot(s: string): (r: string)
    ensures NoDotDot(r)
    ensures forall c :: c in r ==> c in s
    ensures |s| > 0 && s[0] != '.' ==> |r| > 0 && r[0] == s[0]
    ensures |s| == 0 ==> r == ""
  {
    if |s| >= 2 && s[0] == '.' && s[1] == '.' then StripDotDot(s[2..])
    else if |s| == 0 then ""
    else [s[0]] + StripDotDot(s[1..])
  }

  /** The part of the local path derived from the remote path. */
  function Sanitize(path: string): (r: string)
    ensures '\\' !in r
    ensures NoDotDot(r)
  {
    StripDotDot(ToForwardSlashes(path))
  }

  /** The local file a reconstructed buffer for `path` is saved to. */
  function DiskPath(path: string): (r: string)
    ensures |r| >= |CaptureRoot| && r[..|CaptureRoot|] == CaptureRoot
    ensures '\\' !in r
    ensures NoDotDot(r)
  {
    var r := CaptureRoot + Sanitize(path);
    assert forall i :: 0 <= i < |CaptureRoot| ==> r[i] == CaptureRoot[i];
    r
  }

  /** A string of `n` dots. */
  function Dots(n: nat): (d: string)
    ensures |d| == n && forall i :: 0 <= i < n ==> d[i] == '.'
  {
    if n == 0 then "" else "." + Dots(n - 1)
  }

  /** Stripping has nothing to do on a string without "..". */
  lemma {:induction false} StripDotDotKeepsClean(s: string)
    requires NoDotDot(s)
    ensures StripDotDot(s) == s
  {
    if |s| > 0 {
      assert NoDotDot(s[1..]);
      StripDotDotKeepsClean(s[1..]);
      assert [s[0]] + s[1..] == s;
    }
  }

  /** Turning slashes has nothing to do on a string without backslashes. */
  lemma ToForwardSlashesKeepsClean(s: string)
    requires '\\' !in s
    ensures ToForwardSlashes(s) == s
  {
  }

  /** Sanitising is idempotent: a sanitised path is its own sanitisation. */
  lemma SanitizeIdempotent(path: string)
    ensures Sanitize(Sanitize(path)) == Sanitize(path)
  {
    var s := Sanitize(path);
    ToForwardSlashesKeepsClean(s);
    StripDotDotKeepsClean(s);
  }

  /** Stripping a string that does not end in a dot and then the rest is the
      same as stripping the whole: a ".." never spans the junction. */
  lemma {:induction false} StripDotDotSplit(x: string, y: string)
    requires |x| == 0 || x[|x| - 1] != '.'
    ensures StripDotDot(x + y) == StripDotDot(x) + StripDotDot(y)
  {
    if |x| == 0 {
      assert x + y == y;
    } else if |x| >= 2 && x[0] == '.' && x[1] == '.' {
      assert (x + y)[2..] == x[2..] + y;
      StripDotDotSplit(x[2..], y);
    } else {
      assert (x + y)[1..] == x[1..] + y;
      StripDotDotSplit(x[1..], y);
    }
  }

  /** A run of `n` dots followed by something that is not a dot shrinks to
      `n % 2` dots. */
  lemma {:induction false} StripDotRun(n: nat, y: string)
    requires |y| == 0 || y[0] != '.'
    ensures StripDotDot(Dots(n) + y) == Dots(n % 2) + StripDotDot(y)
  {
    var s := Dots(n) + y;
    if n >= 2 {
      assert s[0] == '.' && s[1] == '.';
      assert s[2..] == Dots(n - 2) + y;
      StripDotRun(n - 2, y);
      assert (n - 2) % 2 == n % 2;
    } else if n == 1 {
      assert Dots(1) == ".";
      assert s[1..] == y;
      assert StripDotDot(s) == [s[0]] + StripDotDot(y);
    } else {
      assert s == y;
    }
  }
}
