/**
 * Path strings as the gallery handles them: split into segments and joined
 * again on the configured file-tree delimiter, and slashes swapped between
 * the Windows and the Unix spelling (src/BrokunMusheen/FSGallery/FilePath.php).
 * The delimiter is a parameter `d` of every operation.
 */
module FilePaths {
  import opened Wrappers

  /** The file-tree delimiters the configuration admits. */
  predicate IsDelimiter(d: char)
  {
    d == '/' || d == '\\'
  }

  /** The position of the first `c` in `s`, or `|s|` when `s` has none. */
  function IndexOf(s: string, c: char): (k: nat)
    ensures k <= |s|
    ensures c !in s[..k]
    ensures k < |s| ==> s[k] == c
  {
    if s == [] then 0
    else if s[0] == c then 0
    else
      var k := 1 + IndexOf(s[1..], c);
      assert s[..k] == [s[0]] + s[1..][..k - 1];
      k
  }

  /** `strrpos`: the position of the last `c` in `s`, or None. */
  function LastIndexOf(s: string, c: char): (r: Option<nat>)
    ensures r.None? <==> c !in s
    ensures r.Some? ==> r.value < |s| && s[r.value] == c && c !in s[r.value + 1..]
  {
    if s == [] then None
    else if s[|s| - 1] == c then Some(|s| - 1)
    else
      var r := LastIndexOf(s[..|s| - 1], c);
      assert s == s[..|s| - 1] + [s[|s| - 1]];
      r
  }

  /** `explode(d, s)`: the pieces of `s` between the occurrences of `d`. */
  function Split(s: string, d: char): (parts: seq<string>)
    ensures |parts| >= 1
    ensures forall k | 0 <= k < |parts| :: d !in parts[k]
    decreases |s|
  {
    var k := IndexOf(s, d);
    if k == |s| then [s] else [s[..k]] + Split(s[k + 1..], d)
  }

  /** `implode(d, parts)`. */
  function Join(parts: seq<string>, d: char): string
  {
    if parts == [] then ""
    else if |parts| == 1 then parts[0]
    else parts[0] + [d] + Join(parts[1..], d)
  }

  /** `FilePath::arrayToString`: the segments, behind `base` when one is given. */
  function ArrayToString(path: seq<string>, base: Option<string>, d: char): (s: string)
    ensures base.Some? ==> base.value <= s
  {
    Join(if base.Some? then [base.value] + path else path, d)
  }

  /** `FilePath::stringToArray`: at least one segment, none holding the delimiter. */
  function StringToArray(s: string, d: char): (segs: seq<string>)
    ensures |segs| >= 1 && forall k | 0 <= k < |segs| :: d !in segs[k]
  {
    Split(s, d)
  }

  /** `FilePath::join`: `relative` under `parent`. */
  function JoinPath(parent: string, relative: string, d: char): string
  {
    parent + [d] + relative
  }

  /** The segments of `FilePath::join`'s result are the parent's followed by the relative path's. */
  lemma JoinPathSegments(parent: string, relative: string, d: char)
    ensures StringToArray(JoinPath(parent, relative, d), d) == StringToArray(parent, d) + StringToArray(relative, d)
  {
    SplitAppend(parent, relative, d);
  }

  /** The last segment of a path (`last`/`end` of `stringToArray`). */
  function LastSegment(s: string, d: char): (name: string)
    ensures d !in name
  {
    var parts := Split(s, d);
    parts[|parts| - 1]
  }

  /** `str_replace` of one character by another. */
  function ReplaceChar(s: string, from: char, to: char): (r: string)
    ensures |r| == |s|
    ensures forall i | 0 <= i < |s| && s[i] == from :: r[i] == to
    ensures forall i | 0 <= i < |s| && s[i] != from :: r[i] == s[i]
  {
    if s == [] then []
    else [if s[0] == from then to else s[0]] + ReplaceChar(s[1..], from, to)
  }

  /** `FilePath::windowsToUnix`. */
  function WindowsToUnix(s: string): (r: string)
    ensures '\\' !in r
  {
    ReplaceChar(s, '\\', '/')
  }

  /** `FilePath::unixToWindows`. */
  function UnixToWindows(s: string): (r: string)
    ensures '/' !in r
  {
    ReplaceChar(s, '/', '\\')
  }

  // ---------------------------------------------------------------------
  // Splitting and joining

  /** A `c` that follows a `c`-free prefix is the first one. */
  lemma FirstAt(s: string, c: char, i: nat)
    requires i < |s| && s[i] == c && c !in s[..i]
    ensures IndexOf(s, c) == i
  {
  }

  /** Joining the pieces of a string gives the string back. */
  lemma {:induction false} JoinSplit(s: string, d: char)
    ensures Join(Split(s, d), d) == s
    decreases |s|
  {
    var k := IndexOf(s, d);
    if k < |s| {
      var rest := s[k + 1..];
      calc {
        Join(Split(s, d), d);
        Join([s[..k]] + Split(rest, d), d);
        { JoinCons(s[..k], Split(rest, d), d); }
        s[..k] + [d] + Join(Split(rest, d), d);
        { JoinSplit(rest, d); }
        s[..k] + [d] + rest;
        { Around(s, k); }
        s;
      }
    }
  }

  /** Splitting at the first delimiter. */
  lemma SplitAt(s: string, d: char, k: nat)
    requires k < |s| && s[k] == d && d !in s[..k]
    ensures Split(s, d) == [s[..k]] + Split(s[k + 1..], d)
  {
    FirstAt(s, d, k);
  }

  /** A string is its part before `k`, its `k`th character and its part after. */
  lemma Around(s: string, k: nat)
    requires k < |s|
    ensures s == s[..k] + [s[k]] + s[k + 1..]
  {
  }

  /** Joining a segment in front of a non-empty list puts a delimiter between them. */
  lemma JoinCons(x: string, ps: seq<string>, d: char)
    requires |ps| >= 1
    ensures Join([x] + ps, d) == x + [d] + Join(ps, d)
  {
    assert ([x] + ps)[1..] == ps;
  }

  /** Splitting the join of delimiter-free segments gives them back. */
  lemma {:induction false} SplitJoin(parts: seq<string>, d: char)
    requires |parts| >= 1
    requires forall k | 0 <= k < |parts| :: d !in parts[k]
    ensures Split(Join(parts, d), d) == parts
  {
    if |parts| == 1 {
      assert parts[0][..|parts[0]|] == parts[0];
    } else {
      var s := Join(parts, d);
      var p := parts[0];
      assert s == p + [d] + Join(parts[1..], d);
      assert s[..|p|] == p;
      FirstAt(s, d, |p|);
      assert s[|p| + 1..] == Join(parts[1..], d);
      SplitJoin(parts[1..], d);
      assert parts == [p] + parts[1..];
    }
  }

  /** Splitting distributes over a delimiter placed between two strings. */
  lemma {:induction false} SplitAppend(a: string, b: string, d: char)
    ensures Split(a + [d] + b, d) == Split(a, d) + Split(b, d)
    decreases |a|
  {
    var k := IndexOf(a, d);
    if k == |a| {
      SplitAppendLast(a, b, d);
    } else {
      SplitAppendFirst(a, b, d, k);
      SplitAppend(a[k + 1..], b, d);
      ConsAppend(a[..k], Split(a[k + 1..], d), Split(b, d));
    }
  }

  /** With no delimiter in `a`, `a` is the first segment and `b` splits on its own. */
  lemma SplitAppendLast(a: string, b: string, d: char)
    requires IndexOf(a, d) == |a|
    ensures Split(a + [d] + b, d) == Split(a, d) + Split(b, d)
  {
    AppendedSlices(a, b, d, |a|);
    assert a[..|a|] == a && Split(a, d) == [a];
    SplitAt(a + [d] + b, d, |a|);
  }

  /** With a delimiter at `k` in `a`, both splits start with the segment before it. */
  lemma SplitAppendFirst(a: string, b: string, d: char, k: nat)
    requires k == IndexOf(a, d) && k < |a|
    ensures Split(a + [d] + b, d) == [a[..k]] + Split(a[k + 1..] + [d] + b, d)
    ensures Split(a, d) == [a[..k]] + Split(a[k + 1..], d)
  {
    AppendedSlices(a, b, d, k);
    SplitAt(a + [d] + b, d, k);
  }

  /** Putting an element in front of two sequences in a row. */
  lemma ConsAppend<T>(x: T, u: seq<T>, v: seq<T>)
    ensures [x] + (u + v) == ([x] + u) + v
  {
  }

  /** Cutting `a + [d] + b` at a position within `a`, or at the added delimiter. */
  lemma AppendedSlices(a: string, b: string, d: char, k: nat)
    requires k <= |a|
    ensures (a + [d] + b)[..k] == a[..k]
    ensures k < |a| ==> (a + [d] + b)[k + 1..] == a[k + 1..] + [d] + b
    ensures k == |a| ==> (a + [d] + b)[k] == d && (a + [d] + b)[k + 1..] == b
  {
  }

  /** Joining distributes over concatenation of two non-empty segment lists. */
  lemma {:induction false} JoinAppend(xs: seq<string>, ys: seq<string>, d: char)
    requires |xs| >= 1 && |ys| >= 1
    ensures Join(xs + ys, d) == Join(xs, d) + [d] + Join(ys, d)
  {
    if |xs| > 1 {
      assert (xs + ys)[1..] == xs[1..] + ys;
      JoinAppend(xs[1..], ys, d);
    }
  }

  /**
   * `arrayToString(xs)` followed by `stringToArray` gives `xs` back, for a
   * non-empty list of segments free of the delimiter.
   */
  lemma {:induction false} StringToArrayOfArrayToString(xs: seq<string>, d: char)
    requires |xs| >= 1
    requires forall k | 0 <= k < |xs| :: d !in xs[k]
    ensures StringToArray(ArrayToString(xs, None, d), d) == xs
  {
    SplitJoin(xs, d);
  }

  /** `stringToArray(s)` followed by `arrayToString` gives every `s` back. */
  lemma {:induction false} ArrayToStringOfStringToArray(s: string, d: char)
    ensures ArrayToString(StringToArray(s, d), None, d) == s
  {
    JoinSplit(s, d);
  }

  /**
   * With a base directory, `arrayToString` puts the joined segments under
   * the base; with no segments it is the base itself.
   */
  lemma {:induction false} ArrayToStringUnderBase(path: seq<string>, base: string, d: char)
    ensures path == [] ==> ArrayToString(path, Some(base), d) == base
    ensures path != [] ==>
      ArrayToString(path, Some(base), d) == JoinPath(base, ArrayToString(path, None, d), d)
  {
    if path != [] {
      assert ([base] + path)[1..] == path;
    }
  }

  /** The segments of a path under `base` are those of `base` and then the path's. */
  lemma {:induction false} SplitUnderBase(base: string, path: seq<string>, d: char)
    requires forall k | 0 <= k < |path| :: d !in path[k]
    ensures Split(ArrayToString(path, Some(base), d), d) == Split(base, d) + path
  {
    ArrayToStringUnderBase(path, base, d);
    if path != [] {
      SplitAppend(base, Join(path, d), d);
      SplitJoin(path, d);
    }
  }

  // ---------------------------------------------------------------------
  // Slashes

  /** Replacing a character that does not occur changes nothing. */
  lemma {:induction false} ReplaceAbsent(s: string, from: char, to: char)
    requires from !in s
    ensures ReplaceChar(s, from, to) == s
  {
    if s != [] {
      assert from !in s[1..];
      ReplaceAbsent(s[1..], from, to);
    }
  }

  /** Replacing `from` by `to` and then `to` by `from` restores a string without `to`. */
  lemma {:induction false} ReplaceBack(s: string, from: char, to: char)
    requires to !in s
    ensures ReplaceChar(ReplaceChar(s, from, to), to, from) == s
  {
    if s != [] {
      assert to !in s[1..];
      ReplaceBack(s[1..], from, to);
    }
  }

  lemma WindowsToUnixIdempotent(s: string)
    ensures WindowsToUnix(WindowsToUnix(s)) == WindowsToUnix(s)
  {
    ReplaceAbsent(WindowsToUnix(s), '\\', '/');
  }

  lemma UnixToWindowsIdempotent(s: string)
    ensures UnixToWindows(UnixToWindows(s)) == UnixToWindows(s)
  {
    ReplaceAbsent(UnixToWindows(s), '/', '\\');
  }

  /** On a path with no backslash the two conversions are inverse. */
  lemma UnixPathRoundTrip(s: string)
    requires '\\' !in s
    ensures WindowsToUnix(UnixToWindows(s)) == s
  {
    ReplaceBack(s, '/', '\\');
  }

  /** On a path with no slash the two conversions are inverse. */
  lemma WindowsPathRoundTrip(s: string)
    requires '/' !in s
    ensures UnixToWindows(WindowsToUnix(s)) == s
  {
    ReplaceBack(s, '\\', '/');
  }
}
