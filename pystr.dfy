/** Python's `str.strip()` with no argument, which pandas' `.str.strip()` applies to
    every cell: it removes leading and trailing characters for which `str.isspace()`
    holds. Lengths are counted in code points, as Python's `len` does. */
module PyStr {

  /** The characters for which Python's `str.isspace()` is true. */
  predicate IsSpace(c: char)
  {
    ('\t' <= c <= '\r') || ('\U{1C}' <= c <= '\U{1F}') || c == ' ' || c == '\U{85}' ||
    c == '\U{A0}' || c == '\U{1680}' || ('\U{2000}' <= c <= '\U{200A}') ||
    c == '\U{2028}' || c == '\U{2029}' || c == '\U{202F}' || c == '\U{205F}' || c == '\U{3000}'
  }

  predicate AllSpace(s: string)
  {
    forall k :: 0 <= k < |s| ==> IsSpace(s[k])
  }

  /** Neither end of `s` is whitespace. */
  predicate IsStripped(s: string)
  {
    s == [] || (!IsSpace(s[0]) && !IsSpace(s[|s| - 1]))
  }

  /** `lstrip()`: the longest suffix of `s` that does not start with whitespace,
      everything cut off being whitespace. */
  function StripLeft(s: string): (r: string)
    ensures |r| <= |s| && r == s[|s| - |r|..]
    ensures AllSpace(s[..|s| - |r|])
    ensures r != [] ==> !IsSpace(r[0])
  {
    if s != [] && IsSpace(s[0]) then StripLeft(s[1..]) else s
  }

  /** `rstrip()`: the longest prefix of `s` that does not end with whitespace,
      everything cut off being whitespace. */
  function StripRight(s: string): (r: string)
    ensures |r| <= |s| && r == s[..|r|]
    ensures AllSpace(s[|r|..])
    ensures r != [] ==> !IsSpace(r[|r| - 1])
  {
    if s != [] && IsSpace(s[|s| - 1]) then
      var r := StripRight(s[..|s| - 1]);
      assert s[|r|..] == s[..|s| - 1][|r|..] + [s[|s| - 1]];
      r
    else
      s
  }

  /** `strip()`: neither end of the result is whitespace. */
  function Strip(s: string): (r: string)
    ensures IsStripped(r)
    ensures |r| <= |s|
  {
    var l := StripLeft(s);
    var r := StripRight(l);
    assert r != [] ==> r[0] == l[0];
    r
  }

  /** What `strip()` removes is whitespace only: `s` is its stripped form with
      whitespace added on the left and on the right. */
  lemma StripRemovesOnlySpace(s: string)
    ensures exists a :: 0 <= a <= |s| - |Strip(s)| && AllSpace(s[..a]) && s[a..][..|Strip(s)|] == Strip(s)
                         && AllSpace(s[a..][|Strip(s)|..])
  {
    var l := StripLeft(s);
    var r := StripRight(l);
    var a := |s| - |l|;
    assert s[a..] == l;
  }

  /** A string padded with whitespace on both sides strips to its core: texts that
      differ only in surrounding whitespace strip to the same value. */
  lemma {:induction false} StripPadded(left: string, core: string, right: string)
    requires AllSpace(left) && AllSpace(right) && IsStripped(core)
    ensures Strip(left + core + right) == core
  {
    if core == [] {
      assert left + core + right == left + right;
      AllSpaceLeft(left + right);
    } else {
      assert left + core + right == left + (core + right);
      StripLeftPadded(left, core + right);
      AllSpaceRight(core, right);
    }
  }

  lemma {:induction false} StripLeftPadded(left: string, rest: string)
    requires AllSpace(left) && (rest == [] || !IsSpace(rest[0]))
    ensures StripLeft(left + rest) == rest
  {
    if left == [] {
      assert left + rest == rest;
    } else {
      assert (left + rest)[1..] == left[1..] + rest;
      StripLeftPadded(left[1..], rest);
    }
  }

  lemma {:induction false} AllSpaceLeft(s: string)
    requires AllSpace(s)
    ensures StripLeft(s) == []
  {
    if s != [] { AllSpaceLeft(s[1..]); }
  }

  lemma {:induction false} AllSpaceRight(core: string, right: string)
    requires AllSpace(right) && IsStripped(core)
    ensures StripRight(core + right) == core
  {
    if right == [] {
      assert core + right == core;
    } else {
      var s := core + right;
      assert s[..|s| - 1] == core + right[..|right| - 1];
      AllSpaceRight(core, right[..|right| - 1]);
    }
  }

  /** A text without surrounding whitespace is left as it is. */
  lemma StripStripped(s: string)
    requires IsStripped(s)
    ensures Strip(s) == s
  {
    assert [] + s + [] == s;
    StripPadded([], s, []);
  }

  /** Stripping twice is stripping once. */
  lemma StripIdempotent(s: string)
    ensures Strip(Strip(s)) == Strip(s)
  {
    StripStripped(Strip(s));
  }
}
