/** The part of Python's `str` behaviour that the dispatcher relies on:
    `str.strip()` without an argument, applied to the channel file. */
module PyStrings {

  /** The characters for which Python's `str.isspace()` holds; these are the
      characters `str.strip()` removes from both ends. */
  const Whitespace: set<char> := {
    '\t', '\n', '\U{0B}', '\U{0C}', '\r', '\U{1C}', '\U{1D}', '\U{1E}', '\U{1F}', ' ',
    '\U{85}', '\U{A0}', '\U{1680}',
    '\U{2000}', '\U{2001}', '\U{2002}', '\U{2003}', '\U{2004}', '\U{2005}',
    '\U{2006}', '\U{2007}', '\U{2008}', '\U{2009}', '\U{200A}',
    '\U{2028}', '\U{2029}', '\U{202F}', '\U{205F}', '\U{3000}'
  }

  predicate IsSpace(c: char) {
    c in Whitespace
  }

  /** True when every character of `s` is whitespace (vacuously for ""). */
  predicate Blank(s: string) {
    forall k :: 0 <= k < |s| ==> IsSpace(s[k])
  }

  /** `s.lstrip()`: drops the leading whitespace and keeps the rest. */
  function LStrip(s: string): (r: string)
    ensures |r| <= |s| && r == s[|s| - |r|..]
    ensures forall k :: 0 <= k < |s| - |r| ==> IsSpace(s[k])
    ensures r == [] || !IsSpace(r[0])
    decreases |s|
  {
    if s != [] && IsSpace(s[0]) then LStrip(s[1..]) else s
  }

  /** `s.rstrip()`: drops the trailing whitespace and keeps the rest. */
  function RStrip(s: string): (r: string)
    ensures |r| <= |s| && r == s[..|r|]
    ensures forall k :: |r| <= k < |s| ==> IsSpace(s[k])
    ensures r == [] || !IsSpace(r[|r| - 1])
    decreases |s|
  {
    if s != [] && IsSpace(s[|s| - 1]) then RStrip(s[..|s| - 1]) else s
  }

  /** `s.strip()`: what is left of `s` once all whitespace at both ends is
      removed. */
  function Strip(s: string): (r: string)
    ensures |r| <= |s|
    ensures r == [] || (!IsSpace(r[0]) && !IsSpace(r[|r| - 1]))
  {
    RStrip(LStrip(s))
  }

  /** The stripped text is empty exactly when the original is all whitespace. */
  lemma StripEmptyIffBlank(s: string)
    ensures Strip(s) == [] <==> Blank(s)
  {
    var l := LStrip(s);
    var r := RStrip(l);
    assert s[|s| - |l|..] == l && l[0..] == l && s[..|s|] == s;
  }

  /** Where the stripped text sits in the original: right after the
      leading whitespace. */
  lemma StripIsSlice(s: string)
    ensures var lead := |s| - |LStrip(s)|;
      lead + |Strip(s)| <= |s| && Strip(s) == s[lead..lead + |Strip(s)|]
  {
    var l := LStrip(s);
    var r := RStrip(l);
    var lead := |s| - |l|;
    assert l == s[lead..] && r == l[..|r|];
    assert l[..|r|] == s[lead..lead + |r|];
  }

  /** Only whitespace is removed: everything before and after the stripped
      text in the original is whitespace. */
  lemma StripDropsOnlySpace(s: string)
    ensures var lead := |s| - |LStrip(s)|;
      (forall k :: 0 <= k < lead ==> IsSpace(s[k]))
      && (forall k :: lead + |Strip(s)| <= k < |s| ==> IsSpace(s[k]))
  {
    var l := LStrip(s);
    var r := RStrip(l);
    var lead := |s| - |l|;
    assert forall k :: lead + |r| <= k < |s| ==> s[k] == l[k - lead];
  }

  /** Stripping twice is stripping once. */
  lemma StripIdempotent(s: string)
    ensures Strip(Strip(s)) == Strip(s)
  {
    var r := Strip(s);
    if r != [] {
      assert LStrip(r) == r;
      assert RStrip(r) == r;
    }
  }
}
