/** The two `java.lang.String` operations the storage root depends on: `trim` and `contains`. */
module Text {

  /** `String.trim` treats every character up to and including U+0020 as blank. */
  predicate IsBlank(c: char) {
    c <= ' '
  }

  predicate AllBlank(s: string) {
    forall k | 0 <= k < |s| :: IsBlank(s[k])
  }

  /** Drops the leading blanks: the result is the longest suffix of `s` that does not start with one. */
  function TrimStart(s: string): (r: string)
    ensures |r| <= |s| && r == s[|s| - |r|..]
    ensures AllBlank(s[..|s| - |r|])
    ensures r == [] || !IsBlank(r[0])
  {
    if s != [] && IsBlank(s[0]) then TrimStart(s[1..]) else s
  }

  /** Drops the trailing blanks: the result is the longest prefix of `s` that does not end with one. */
  function TrimEnd(s: string): (r: string)
    ensures |r| <= |s| && r == s[..|r|]
    ensures AllBlank(s[|r|..])
    ensures r == [] || !IsBlank(r[|r| - 1])
  {
    if s != [] && IsBlank(s[|s| - 1]) then TrimEnd(s[..|s| - 1]) else s
  }

  /** `r` is `s` with the blank block `s[..i]` in front of it and a blank block behind it. */
  predicate StrippedAt(s: string, r: string, i: int) {
    0 <= i <= |s| - |r| && r == s[i..i + |r|] && AllBlank(s[..i]) && AllBlank(s[i + |r|..])
  }

  /** `String.trim`: `s` without its leading and trailing blanks. */
  function Trim(s: string): (r: string)
    ensures r == [] <==> AllBlank(s)
    ensures r != [] ==> !IsBlank(r[0]) && !IsBlank(r[|r| - 1])
    ensures exists i :: StrippedAt(s, r, i)
  {
    var r := TrimEnd(TrimStart(s));
    assert StrippedAt(s, r, |s| - |TrimStart(s)|) by {
      TrimIsStripped(s);
    }
    assert r == [] <==> AllBlank(s) by {
      TrimEmptyIffBlank(s);
    }
    r
  }

  lemma {:induction false} TrimIsStripped(s: string)
    ensures StrippedAt(s, TrimEnd(TrimStart(s)), |s| - |TrimStart(s)|)
  {
    var t := TrimStart(s);
    StripBoth(s, t, TrimEnd(t), |s| - |t|);
  }

  /** Stripping a blank block from the front of `s` and then one from the back of the rest. */
  lemma {:induction false} StripBoth(s: string, t: string, r: string, i: int)
    requires 0 <= i <= |s| && t == s[i..] && AllBlank(s[..i])
    requires |r| <= |t| && r == t[..|r|] && AllBlank(t[|r|..])
    ensures StrippedAt(s, r, i)
  {
    assert s[i + |r|..] == t[|r|..];
  }

  lemma {:induction false} TrimEmptyIffBlank(s: string)
    ensures TrimEnd(TrimStart(s)) == [] <==> AllBlank(s)
  {
    var t := TrimStart(s);
    EmptyIffBlank(s, t, TrimEnd(t), |s| - |t|);
  }

  /** After a blank front block and a blank back block go, nothing is left exactly when all was blank. */
  lemma {:induction false} EmptyIffBlank(s: string, t: string, r: string, i: int)
    requires 0 <= i <= |s| && t == s[i..] && AllBlank(s[..i]) && (t == [] || !IsBlank(t[0]))
    requires |r| <= |t| && r == t[..|r|] && AllBlank(t[|r|..])
    ensures r == [] <==> AllBlank(s)
  {
    if r == [] {
      assert AllBlank(t) by { assert t[|r|..] == t; }
      assert s == s[..i] + t;
      BlankJoin(s[..i], t);
    } else {
      assert s[i] == t[0];
    }
  }

  lemma {:induction false} BlankJoin(a: string, b: string)
    requires AllBlank(a) && AllBlank(b)
    ensures AllBlank(a + b)
  {
    forall k | 0 <= k < |a + b| ensures IsBlank((a + b)[k]) {
      if k >= |a| {
        assert (a + b)[k] == b[k - |a|];
      }
    }
  }

  /** `t` occurs in `s` starting at index `i`. */
  predicate OccursAt(s: string, t: string, i: int) {
    0 <= i <= |s| - |t| && s[i..i + |t|] == t
  }

  /** `String.contains`: `t` occurs in `s` as a contiguous block. */
  function Contains(s: string, t: string): (r: bool)
    ensures t == [] ==> r
    ensures r ==> |t| <= |s|
    decreases |s|
  {
    (|t| <= |s| && s[..|t|] == t) || (s != [] && Contains(s[1..], t))
  }

  lemma {:induction false} ContainsAt(s: string, t: string)
    ensures Contains(s, t) <==> exists i :: OccursAt(s, t, i)
    decreases |s|
  {
    if |t| <= |s| && s[..|t|] == t {
      assert OccursAt(s, t, 0);
    } else if s == [] {
    } else {
      ContainsAt(s[1..], t);
      if exists i :: OccursAt(s, t, i) {
        var i :| OccursAt(s, t, i);
        OccursInTail(s, t, i);
      }
      if Contains(s[1..], t) {
        var j :| OccursAt(s[1..], t, j);
        OccursInWhole(s, t, j);
      }
    }
  }

  /** An occurrence past the first character is an occurrence in the rest of the string. */
  lemma OccursInTail(s: string, t: string, i: int)
    requires OccursAt(s, t, i) && i != 0
    ensures OccursAt(s[1..], t, i - 1)
  {
    assert s[1..][i - 1..i - 1 + |t|] == s[i..i + |t|];
  }

  /** An occurrence in the rest of the string is an occurrence one place further on. */
  lemma OccursInWhole(s: string, t: string, j: int)
    requires s != [] && OccursAt(s[1..], t, j)
    ensures OccursAt(s, t, j + 1)
  {
    assert s[j + 1..j + 1 + |t|] == s[1..][j..j + |t|];
  }
}
