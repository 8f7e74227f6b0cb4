/** The string and path operations of Python's standard library that the two
    handlers use to derive object keys and local paths: `str.split`,
    `os.path.splitext` and `os.path.join` on POSIX, built from `find` and
    `rfind` on one character, with `str.join` as the inverse of split. */
module PyText {

  const Dot: char := '.'
  const Slash: char := '/'

  /** `s.find(c)` for one character: the first index holding c, or -1. */
  function Find(s: string, c: char): (i: int)
    ensures -1 <= i < |s|
    ensures i < 0 ==> c !in s
    ensures 0 <= i ==> s[i] == c && c !in s[..i]
  {
    if |s| == 0 then -1
    else if s[0] == c then 0
    else
      var j := Find(s[1..], c);
      assert s[1..][..if j < 0 then 0 else j] == s[1..if j < 0 then 1 else j + 1];
      if j < 0 then -1 else j + 1
  }

  /** Any index that satisfies the contract of Find is the one Find returns. */
  lemma FindUnique(s: string, c: char, i: int)
    requires -1 <= i < |s|
    requires i < 0 ==> c !in s
    requires 0 <= i ==> s[i] == c && c !in s[..i]
    ensures Find(s, c) == i
  {
  }

  /** `s.rfind(c)` for one character: the last index holding c, or -1. */
  function RFind(s: string, c: char): (i: int)
    ensures -1 <= i < |s|
    ensures 0 <= i ==> s[i] == c
    ensures forall k :: i < k < |s| ==> s[k] != c
  {
    if |s| == 0 then -1
    else if s[|s| - 1] == c then |s| - 1
    else RFind(s[..|s| - 1], c)
  }

  /** `s.split(sep)` with an explicit one-character separator. Python never
      returns an empty list here; SplitPartsFree shows no part contains the
      separator. */
  function Split(s: string, sep: char): (parts: seq<string>)
    ensures |parts| >= 1
    ensures |parts| == 1 ==> parts[0] == s
    decreases |s|
  {
    var i := Find(s, sep);
    if i < 0 then [s]
    else
      var head := s[..i];
      var rest := Split(s[i + 1..], sep);
      [head] + rest
  }

  /** A string without the separator splits into exactly itself. */
  lemma SplitWithoutSeparator(s: string, sep: char)
    requires sep !in s
    ensures Split(s, sep) == [s]
  {
    FindUnique(s, sep, -1);
  }

  /** No part of a split contains the separator. */
  lemma {:induction false} SplitPartsFree(s: string, sep: char)
    ensures forall k :: 0 <= k < |Split(s, sep)| ==> sep !in Split(s, sep)[k]
    decreases |s|
  {
    var parts := Split(s, sep);
    var i := Find(s, sep);
    if 0 <= i {
      var rest := Split(s[i + 1..], sep);
      SplitPartsFree(s[i + 1..], sep);
      forall k | 0 <= k < |parts|
        ensures sep !in parts[k]
      {
        if k > 0 {
          assert parts[k] == rest[k - 1];
        }
      }
    }
  }

  /** `sep.join(parts)`. */
  function Join(parts: seq<string>, sep: char): string
  {
    if |parts| == 0 then ""
    else if |parts| == 1 then parts[0]
    else parts[0] + [sep] + Join(parts[1..], sep)
  }

  /** Joining the parts of a split gives back the string that was split. */
  lemma {:induction false} JoinSplit(s: string, sep: char)
    ensures Join(Split(s, sep), sep) == s
    decreases |s|
  {
    var i := Find(s, sep);
    if 0 <= i {
      var head, tail := s[..i], s[i + 1..];
      var rest := Split(tail, sep);
      JoinSplit(tail, sep);
      JoinCons(head, rest, sep);
      assert s == head + [sep] + tail;
    }
  }

  /** Joining a part in front of a non-empty list puts a separator between. */
  lemma JoinCons(head: string, rest: seq<string>, sep: char)
    requires |rest| >= 1
    ensures Join([head] + rest, sep) == head + [sep] + Join(rest, sep)
  {
    assert ([head] + rest)[1..] == rest;
  }

  /** Splitting the join of separator-free parts gives back the parts. */
  lemma {:induction false} SplitJoin(parts: seq<string>, sep: char)
    requires |parts| >= 1
    requires forall k :: 0 <= k < |parts| ==> sep !in parts[k]
    ensures Split(Join(parts, sep), sep) == parts
    decreases |parts|
  {
    if |parts| > 1 {
      var tail := Join(parts[1..], sep);
      var s := parts[0] + [sep] + tail;
      assert s[..|parts[0]|] == parts[0];
      FindUnique(s, sep, |parts[0]|);
      assert s[|parts[0]| + 1..] == tail;
      SplitJoin(parts[1..], sep);
      assert [parts[0]] + parts[1..] == parts;
    }
  }

  /** `s.split(sep)[0]`: the longest prefix of s without sep, which stops
      either at the end of s or at the first sep. */
  function FirstField(s: string, sep: char): (r: string)
    ensures r <= s
    ensures sep !in r
    ensures |r| == |s| || s[|r|] == sep
  {
    SplitPartsFree(s, sep);
    Split(s, sep)[0]
  }

  /** The three facts FirstField ensures determine its result. */
  lemma FirstFieldUnique(s: string, sep: char, r: string)
    requires r <= s
    requires sep !in r
    requires |r| == |s| || s[|r|] == sep
    ensures FirstField(s, sep) == r
  {
  }

  /** The last component of a POSIX path: everything after its last '/'. */
  function Basename(p: string): (b: string)
    ensures Slash !in b
    ensures |b| <= |p| && p[|p| - |b|..] == b
    ensures |b| < |p| ==> p[|p| - |b| - 1] == Slash
  {
    p[RFind(p, Slash) + 1..]
  }

  /** Some character of b is not '.'. */
  predicate NotAllDots(b: string)
  {
    exists k :: 0 <= k < |b| && b[k] != Dot
  }

  /** A path component has an extension when a '.' in it comes after some
      character other than '.': leading dots ("hidden" names) do not count. */
  ghost predicate HasExtension(b: string)
  {
    exists k, d :: 0 <= k < d < |b| && b[k] != Dot && b[d] == Dot
  }

  /** Some character of p[lo..hi] is not '.'. */
  predicate NonDotBetween(p: string, lo: int, hi: int)
    requires 0 <= lo <= hi <= |p|
  {
    exists k :: lo <= k < hi && p[k] != Dot
  }

  /** The test `os.path.splitext` makes: the last '.' comes after the last
      '/', with some character other than '.' between them. */
  predicate CutsExtension(p: string)
  {
    && RFind(p, Dot) > RFind(p, Slash)
    && NonDotBetween(p, RFind(p, Slash) + 1, RFind(p, Dot))
  }

  /** `os.path.splitext(p)` on POSIX: the root and the extension. The
      extension starts at the last '.' after the last '/', and only when the
      final component has a character other than '.' before that dot;
      SplitExtCondition shows that is exactly when the final component has
      an extension. */
  function SplitExt(p: string): (parts: (string, string))
    ensures parts.0 + parts.1 == p
    ensures parts.1 != [] <==> CutsExtension(p)
    ensures parts.1 != [] ==> parts.1[0] == Dot && Dot !in parts.1[1..] && Slash !in parts.1
  {
    if CutsExtension(p) then
      var d := RFind(p, Dot);
      ExtensionShape(p);
      (p[..d], p[d..])
    else
      (p, "")
  }

  /** The extension SplitExt cuts off is one '.' followed by neither '.'
      nor '/'. */
  lemma ExtensionShape(p: string)
    requires CutsExtension(p)
    ensures var x := p[RFind(p, Dot)..];
            x != [] && x[0] == Dot && Dot !in x[1..] && Slash !in x
  {
    var d := RFind(p, Dot);
    var x := p[d..];
    forall k | 0 <= k < |x|
      ensures x[k] != Slash && (k > 0 ==> x[k] != Dot)
    {
      assert x[k] == p[d + k];
    }
    assert forall k :: 0 <= k < |x| - 1 ==> x[1..][k] == x[k + 1];
  }

  /** SplitExt splits off an extension exactly when the last component of
      the path has one. */
  lemma SplitExtCondition(p: string)
    ensures CutsExtension(p) <==> HasExtension(Basename(p))
    ensures SplitExt(p).1 != [] <==> HasExtension(Basename(p))
  {
    var s := RFind(p, Slash);
    var d := RFind(p, Dot);
    if CutsExtension(p) {
      var k :| s + 1 <= k < d && p[k] != Dot;
      ExtensionFromScan(p, s, k, d);
    }
    if HasExtension(p[s + 1..]) {
      ScanFromExtension(p, s, d);
    }
  }

  /** A non-dot character k before a dot d, both after position s, gives the
      component after s an extension. */
  lemma ExtensionFromScan(p: string, s: int, k: int, d: int)
    requires -1 <= s < k < d < |p| && p[k] != Dot && p[d] == Dot
    ensures HasExtension(p[s + 1..])
  {
    var b := p[s + 1..];
    var i, j := k - (s + 1), d - (s + 1);
    assert b[i] == p[k];
    assert b[j] == p[d];
    HasExtensionAt(b, i, j);
  }

  /** Witnesses for HasExtension. */
  lemma HasExtensionAt(b: string, i: int, j: int)
    requires 0 <= i < j < |b| && b[i] != Dot && b[j] == Dot
    ensures HasExtension(b)
  {
  }

  /** An extension in the component after s puts the last dot d after s,
      with a non-dot character between them. */
  lemma ScanFromExtension(p: string, s: int, d: int)
    requires -1 <= s < |p| && -1 <= d < |p|
    requires forall k :: d < k < |p| ==> p[k] != Dot
    requires HasExtension(p[s + 1..])
    ensures d > s && NonDotBetween(p, s + 1, d)
  {
    var b := p[s + 1..];
    var k, e :| 0 <= k < e < |b| && b[k] != Dot && b[e] == Dot;
    assert p[s + 1 + e] == b[e];
    assert p[s + 1 + k] == b[k];
  }

  /** Appending "." + e to a stem whose last component is not all dots, where
      e holds no '.' and no '/', is undone by SplitExt: only the last
      extension is split off. */
  lemma SplitExtOfStem(stem: string, e: string)
    requires NotAllDots(Basename(stem))
    requires Dot !in e && Slash !in e
    ensures SplitExt(stem + [Dot] + e) == (stem, [Dot] + e)
  {
    var p := stem + [Dot] + e;
    RFindLastDot(stem, e);
    RFindKeepsSlash(stem, e);
    var k := NonDotInBasename(stem);
    assert p[k] == stem[k];
    assert p[..|stem|] == stem && p[|stem|..] == [Dot] + e;
    SplitExtAtLastDot(p);
  }

  /** A component that is not all dots has a non-dot character after the
      last slash. */
  lemma NonDotInBasename(p: string) returns (k: int)
    requires NotAllDots(Basename(p))
    ensures RFind(p, Slash) < k < |p| && p[k] != Dot
  {
    var b := Basename(p);
    var i :| 0 <= i < |b| && b[i] != Dot;
    k := RFind(p, Slash) + 1 + i;
    assert p[k] == b[i];
  }

  /** When the last dot follows the last slash with a non-dot character in
      between, SplitExt cuts at that dot. */
  lemma SplitExtAtLastDot(p: string)
    requires CutsExtension(p)
    ensures SplitExt(p) == (p[..RFind(p, Dot)], p[RFind(p, Dot)..])
  {
  }

  /** Appending characters other than c leaves the last c where it was. */
  lemma {:induction false} RFindAppendFree(a: string, b: string, c: char)
    requires c !in b
    ensures RFind(a + b, c) == RFind(a, c)
    decreases |b|
  {
    if |b| == 0 {
      assert a + b == a;
    } else {
      var b' := b[..|b| - 1];
      assert (a + b)[|a + b| - 1] == b[|b| - 1];
      assert (a + b)[..|a + b| - 1] == a + b';
      RFindAppendFree(a, b', c);
    }
  }

  /** The dot appended after the stem is the last dot. */
  lemma RFindLastDot(stem: string, e: string)
    requires Dot !in e
    ensures RFind(stem + [Dot] + e, Dot) == |stem|
  {
    RFindAppendFree(stem + [Dot], e, Dot);
  }

  /** Appending a dot and a slash-free extension keeps the last slash. */
  lemma RFindKeepsSlash(stem: string, e: string)
    requires Slash !in e
    ensures RFind(stem + [Dot] + e, Slash) == RFind(stem, Slash)
  {
    RFindAppendFree(stem + [Dot], e, Slash);
    assert (stem + [Dot])[..|stem|] == stem;
  }

  /** `os.path.join(a, b)` on POSIX with two arguments: an absolute b
      replaces a; otherwise b is appended, after a '/' unless a is empty or
      already ends in one. */
  function JoinPath(a: string, b: string): (r: string)
    ensures |b| <= |r| && r[|r| - |b|..] == b
    ensures |b| > 0 && b[0] == Slash ==> r == b
    ensures (|b| == 0 || b[0] != Slash) && |a| > 0 && a[|a| - 1] == Slash ==> r == a + b
  {
    if |b| > 0 && b[0] == Slash then b
    else if |a| == 0 || a[|a| - 1] == Slash then a + b
    else a + [Slash] + b
  }
}
