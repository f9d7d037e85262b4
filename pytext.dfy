/** The pieces of Python's `str` type that the integration relies on:
    whitespace, `strip()`, `startswith()` and ASCII letter case. */
module PyText {
  import opened Sequences

  /** `c.isspace()`. Python uses the same set of characters for `\s` in a
      `str` pattern and for what `str.strip()` removes: the ASCII controls
      TAB..CR and FS..US, SPACE, NEL, NO-BREAK SPACE, OGHAM SPACE MARK, the
      spaces U+2000..U+200A, LINE and PARAGRAPH SEPARATOR, NARROW NO-BREAK
      SPACE, MEDIUM MATHEMATICAL SPACE and IDEOGRAPHIC SPACE. (`int()` skips
      all of these but FS..US, see `PyNumbers.IsIntSpace`.) */
  predicate IsSpace(c: char) {
    var n := c as int;
    (0x09 <= n <= 0x0D) || (0x1C <= n <= 0x20) || n == 0x85 || n == 0xA0
    || n == 0x1680 || (0x2000 <= n <= 0x200A) || n == 0x2028 || n == 0x2029
    || n == 0x202F || n == 0x205F || n == 0x3000
  }

  predicate AllSpace(s: string) {
    forall i :: 0 <= i < |s| ==> IsSpace(s[i])
  }

  /** `s.startswith(p)` */
  predicate StartsWith(s: string, p: string) {
    |p| <= |s| && s[..|p|] == p
  }

  /** The number of whitespace characters `s` starts with. */
  function LeadingSpace(s: string): (k: nat)
    ensures k <= |s|
    ensures forall i :: 0 <= i < k ==> IsSpace(s[i])
    ensures k < |s| ==> !IsSpace(s[k])
  {
    if s != [] && IsSpace(s[0]) then 1 + LeadingSpace(s[1..]) else 0
  }

  /** The number of whitespace characters `s` ends with. */
  function TrailingSpace(s: string): (k: nat)
    ensures k <= |s|
    ensures forall i :: |s| - k <= i < |s| ==> IsSpace(s[i])
    ensures k < |s| ==> !IsSpace(s[|s| - 1 - k])
  {
    if s != [] && IsSpace(s[|s| - 1]) then 1 + TrailingSpace(s[..|s| - 1]) else 0
  }

  /** The whitespace `strip()` removes on the left. */
  function LeftMargin(s: string): string {
    s[..LeadingSpace(s)]
  }

  /** The whitespace `strip()` removes on the right. */
  function RightMargin(s: string): string {
    var t := s[LeadingSpace(s)..];
    t[|t| - TrailingSpace(t)..]
  }

  /** A string with no whitespace at either end. */
  predicate IsStripped(s: string) {
    s == [] || (!IsSpace(s[0]) && !IsSpace(s[|s| - 1]))
  }

  /** `s.strip()` with no argument. */
  function Strip(s: string): (r: string)
    ensures IsStripped(r)
    ensures |r| <= |s|
  {
    var t := s[LeadingSpace(s)..];
    t[..|t| - TrailingSpace(t)]
  }

  /** What `strip()` removes is whitespace and what it keeps is a contiguous
      part of the input. */
  lemma StripSplit(s: string) returns (pre: string, post: string)
    ensures s == pre + Strip(s) + post
    ensures AllSpace(pre) && AllSpace(post)
    ensures pre == LeftMargin(s) && post == RightMargin(s)
  {
    var lo := LeadingSpace(s);
    var t := s[lo..];
    var hi := |t| - TrailingSpace(t);
    var mid := t[..hi];
    assert Strip(s) == mid;
    pre, post := s[..lo], t[hi..];
    LeadingAllSpace(s);
    TrailingAllSpace(t);
    assert t == mid + post;
    assert s == pre + t;
    Associate(pre, mid, post);
  }

  lemma LeadingAllSpace(s: string)
    ensures AllSpace(s[..LeadingSpace(s)])
  {
    var k := LeadingSpace(s);
    forall i | 0 <= i < k ensures IsSpace(s[..k][i]) {
      assert s[..k][i] == s[i];
    }
  }

  lemma TrailingAllSpace(t: string)
    ensures AllSpace(t[|t| - TrailingSpace(t)..])
  {
    var hi := |t| - TrailingSpace(t);
    forall i | 0 <= i < |t| - hi ensures IsSpace(t[hi..][i]) {
      assert t[hi..][i] == t[hi + i];
    }
  }

  /** `strip()` only removes characters. */
  lemma StripInside(s: string)
    ensures forall c :: c in Strip(s) ==> c in s
  {
    var pre, post := StripSplit(s);
  }

  /** A string without whitespace at its ends is left as it is. */
  lemma StripStripped(s: string)
    requires IsStripped(s)
    ensures Strip(s) == s
    ensures LeftMargin(s) == [] && RightMargin(s) == []
  {
    assert LeadingSpace(s) == 0;
    assert TrailingSpace(s) == 0;
  }

  /** `strip()` is idempotent. */
  lemma StripIdempotent(s: string)
    ensures Strip(Strip(s)) == Strip(s)
  {
    StripStripped(Strip(s));
  }

  /** Padding a string with whitespace on either side does not change what
      `strip()` returns. */
  lemma StripPadding(p: string, s: string, q: string)
    requires AllSpace(p) && AllSpace(q)
    ensures Strip(p + s + q) == Strip(s)
  {
    var pre, post := StripSplit(s);
    var core := Strip(s);
    Regroup(p, pre, core, post, q);
    AllSpaceAppend(p, pre);
    AllSpaceAppend(post, q);
    StripCore(p + pre, core, post + q);
  }

  lemma AllSpaceAppend(a: string, b: string)
    requires AllSpace(a) && AllSpace(b)
    ensures AllSpace(a + b)
  {
    forall i | 0 <= i < |a + b| ensures IsSpace((a + b)[i]) {
      if i >= |a| { assert (a + b)[i] == b[i - |a|]; }
    }
  }

  /** Stripping whitespace off a stripped core gives the core back, and
      when the core is not empty what is removed is exactly the padding. */
  lemma StripCore(p: string, core: string, q: string)
    requires AllSpace(p) && AllSpace(q) && IsStripped(core)
    ensures Strip(p + core + q) == core
    ensures core != [] ==> LeftMargin(p + core + q) == p && RightMargin(p + core + q) == q
  {
    var s := p + core + q;
    if core == [] {
      assert s == p + q;
      assert AllSpace(s);
      assert LeadingSpace(s) == |s|;
    } else {
      assert s[|p|] == core[0];
      assert LeadingSpace(s) == |p|;
      var t := s[|p|..];
      assert t == core + q;
      assert t[|core| - 1] == core[|core| - 1];
      assert TrailingSpace(t) == |q|;
      assert t[..|core|] == core;
      assert s[..|p|] == p && t[|core|..] == q;
    }
  }

  predicate IsAsciiUpper(c: char) { 'A' <= c <= 'Z' }

  predicate IsAsciiLower(c: char) { 'a' <= c <= 'z' }

  predicate IsAsciiLetter(c: char) { IsAsciiUpper(c) || IsAsciiLower(c) }

  /** `c.upper()` restricted to ASCII letters; every other character is kept. */
  function ToUpper(c: char): (r: char)
    ensures IsAsciiLetter(c) ==> IsAsciiUpper(r) && ToLower(r) == ToLower(c)
    ensures !IsAsciiLower(c) ==> r == c
  {
    if IsAsciiLower(c) then (c as int - 32) as char else c
  }

  /** `c.lower()` restricted to ASCII letters; every other character is kept. */
  function ToLower(c: char): (r: char)
    ensures IsAsciiLetter(c) ==> IsAsciiLower(r)
    ensures !IsAsciiUpper(c) ==> r == c
  {
    if IsAsciiUpper(c) then (c as int + 32) as char else c
  }
}
