/**
 * Paths as `java.io.File` sees them: a path string is a sequence of names
 * separated by separator characters. Repeated and trailing separators are
 * dropped by `File`'s normalisation, so only the non-empty names matter.
 */
module Paths {

  /** A filesystem path: the names from the filesystem root downwards. */
  type Path = seq<string>

  /** `/` separates names everywhere; on Windows `\` does too. */
  predicate IsSeparator(c: char, windows: bool) {
    c == '/' || (windows && c == '\\')
  }

  predicate IsName(name: string, windows: bool) {
    name != [] && forall k | 0 <= k < |name| :: !IsSeparator(name[k], windows)
  }

  /**
   * A non-empty string of separators only. `new File(parent, child)` with such
   * a child keeps one trailing separator, so the result names `parent` and
   * insists that it is a directory.
   */
  predicate SeparatorsOnly(s: string, windows: bool) {
    s != [] && forall k | 0 <= k < |s| :: IsSeparator(s[k], windows)
  }

  /** The name being read so far, as a path of zero or one names. */
  function Lead(name: string): Path {
    if name == [] then [] else [name]
  }

  /** The names of `s`, when the name `current` has been read just before it. */
  function SegmentsFrom(s: string, current: string, windows: bool): Path
    decreases |s|
  {
    if s == [] then Lead(current)
    else if IsSeparator(s[0], windows) then Lead(current) + SegmentsFrom(s[1..], [], windows)
    else SegmentsFrom(s[1..], current + [s[0]], windows)
  }

  /** The names of path string `s`, left to right. */
  function Segments(s: string, windows: bool): (r: Path)
    ensures forall k | 0 <= k < |r| :: IsName(r[k], windows)
    ensures IsName(s, windows) ==> r == [s]
    ensures r == [] <==> s == [] || SeparatorsOnly(s, windows)
  {
    SegmentsAreNames(s, [], windows);
    NoNames(s, [], windows);
    assert IsName(s, windows) ==> SegmentsFrom(s, [], windows) == [s] by {
      if IsName(s, windows) {
        OneName(s, [], windows);
        assert [] + s == s;
      }
    }
    SegmentsFrom(s, [], windows)
  }

  /** A string yields no names exactly when nothing is being read and it holds separators only. */
  lemma {:induction false} NoNames(s: string, current: string, windows: bool)
    ensures SegmentsFrom(s, current, windows) == []
        <==> current == [] && forall k | 0 <= k < |s| :: IsSeparator(s[k], windows)
    decreases |s|
  {
    if s != [] {
      if IsSeparator(s[0], windows) {
        NoNames(s[1..], [], windows);
        assert forall k | 0 < k < |s| :: s[k] == s[1..][k - 1];
      } else {
        NoNames(s[1..], current + [s[0]], windows);
      }
    }
  }

  /** A string with no separator in it continues the name being read. */
  lemma {:induction false} OneName(s: string, current: string, windows: bool)
    requires forall k | 0 <= k < |s| :: !IsSeparator(s[k], windows)
    requires current + s != []
    ensures SegmentsFrom(s, current, windows) == [current + s]
    decreases |s|
  {
    if s == [] {
      assert current + s == current;
    } else {
      assert current + s == (current + [s[0]]) + s[1..];
      OneName(s[1..], current + [s[0]], windows);
    }
  }

  /** Every segment is a non-empty name free of separators. */
  lemma {:induction false} SegmentsAreNames(s: string, current: string, windows: bool)
    requires current == [] || IsName(current, windows)
    ensures forall k | 0 <= k < |SegmentsFrom(s, current, windows)| ::
      IsName(SegmentsFrom(s, current, windows)[k], windows)
    decreases |s|
  {
    if s == [] {
    } else if IsSeparator(s[0], windows) {
      SegmentsAreNames(s[1..], [], windows);
    } else {
      SegmentsAreNames(s[1..], current + [s[0]], windows);
    }
  }

  /** Joining two path strings with a separator concatenates their names. */
  lemma {:induction false} SegmentsOfJoin(a: string, sep: char, b: string, windows: bool)
    requires IsSeparator(sep, windows)
    ensures Segments(a + [sep] + b, windows) == Segments(a, windows) + Segments(b, windows)
  {
    SegmentsFromJoin(a, [], sep, b, windows);
  }

  lemma {:induction false} SegmentsFromJoin(a: string, current: string, sep: char, b: string, windows: bool)
    requires IsSeparator(sep, windows)
    ensures SegmentsFrom(a + [sep] + b, current, windows)
         == SegmentsFrom(a, current, windows) + Segments(b, windows)
    decreases |a|
  {
    var s := a + [sep] + b;
    if a == [] {
      assert s[0] == sep && s[1..] == b;
    } else {
      assert s[0] == a[0] && s[1..] == a[1..] + [sep] + b;
      if IsSeparator(a[0], windows) {
        SegmentsFromJoin(a[1..], [], sep, b, windows);
      } else {
        SegmentsFromJoin(a[1..], current + [a[0]], sep, b, windows);
      }
    }
  }
}
