/** Python's `str.isspace` on one code point and `str.rstrip()` with no argument. */
module Whitespace {
  import opened Utf8

  /**
    The code points Python 3 treats as whitespace: those of bidirectional class
    WS, B or S, or of general category Zs. NUL is not among them.
   */
  predicate IsWhitespace(c: CodePoint) {
    || (0x09 <= c <= 0x0D)
    || (0x1C <= c <= 0x20)
    || c == 0x85 || c == 0xA0 || c == 0x1680
    || (0x2000 <= c <= 0x200A)
    || c == 0x2028 || c == 0x2029 || c == 0x202F || c == 0x205F || c == 0x3000
  }

  /** The same 29 code points listed one by one, as `str.isspace` accepts them. */
  const PythonWhitespace: set<CodePoint> := {
    0x09, 0x0A, 0x0B, 0x0C, 0x0D, 0x1C, 0x1D, 0x1E, 0x1F, 0x20, 0x85, 0xA0, 0x1680,
    0x2000, 0x2001, 0x2002, 0x2003, 0x2004, 0x2005, 0x2006, 0x2007, 0x2008, 0x2009, 0x200A,
    0x2028, 0x2029, 0x202F, 0x205F, 0x3000
  }

  /** The range description of `IsWhitespace` picks out exactly the listed code points. */
  lemma IsWhitespaceIsListed(c: CodePoint)
    ensures IsWhitespace(c) <==> c in PythonWhitespace
  {
  }

  predicate AllWhitespace(s: UString) {
    forall i :: 0 <= i < |s| ==> IsWhitespace(s[i])
  }

  predicate NoTrailingWhitespace(s: UString) {
    s == [] || !IsWhitespace(s[|s| - 1])
  }

  /** `r` is `s` with a maximal whitespace suffix removed. */
  predicate IsRStripOf(r: UString, s: UString) {
    r <= s && AllWhitespace(s[|r|..]) && NoTrailingWhitespace(r)
  }

  /** `s.rstrip()`: drops whitespace from the end until a non-whitespace code point or nothing is left. */
  function RStrip(s: UString): (r: UString)
    ensures IsRStripOf(r, s)
  {
    if s != [] && IsWhitespace(s[|s| - 1]) then
      var r := RStrip(s[..|s| - 1]);
      assert s[|r|..] == s[..|s| - 1][|r|..] + [s[|s| - 1]];
      r
    else
      s
  }

  /** The stripped string is determined by its defining property. */
  lemma RStripUnique(r: UString, s: UString)
    requires IsRStripOf(r, s)
    ensures r == RStrip(s)
  {
  }

  /** Stripping twice is stripping once. */
  lemma RStripIdempotent(s: UString)
    ensures RStrip(RStrip(s)) == RStrip(s)
  {
  }

  /** Appending whitespace does not change the stripped string. */
  lemma RStripAppendWhitespace(s: UString, w: UString)
    requires AllWhitespace(w)
    ensures RStrip(s + w) == RStrip(s)
  {
    var r := RStrip(s);
    var sw := s + w;
    assert r <= sw;
    assert forall i :: 0 <= i < |sw| - |r| ==> sw[|r|..][i] == if i < |s| - |r| then s[|r|..][i] else w[i - (|s| - |r|)];
    RStripUnique(r, sw);
  }
}
