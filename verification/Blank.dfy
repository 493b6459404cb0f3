/** Blank strings, as the guards on policies and on requests see them. */
module Blank {

  /** The characters Rust's `trim` and Go's `TrimSpace` remove: those with the Unicode property White_Space. */
  predicate IsWhiteSpace(c: char) {
    var n := c as int;
    || 0x09 <= n <= 0x0D || n == 0x20 || n == 0x85 || n == 0xA0 || n == 0x1680 || 0x2000 <= n <= 0x200A
    || n == 0x2028 || n == 0x2029 || n == 0x202F || n == 0x205F || n == 0x3000
  }

  /** What is left after trimming is empty. */
  predicate IsBlank(s: string) { forall i :: 0 <= i < |s| ==> IsWhiteSpace(s[i]) }

  method IsBlankString(s: string) returns (blank: bool)
    ensures blank == IsBlank(s)
  {
    for i := 0 to |s|
      invariant forall j :: 0 <= j < i ==> IsWhiteSpace(s[j])
    {
      if !IsWhiteSpace(s[i]) { return false; }
    }
    blank := true;
  }

  /** Character by character, as the Unicode Character Database lists them. */
  lemma WhiteSpaceIs(c: char)
    ensures IsWhiteSpace(c) <==>
      c in {'\t', '\n', '\U{000B}', '\U{000C}', '\r', ' ', '\U{0085}', '\U{00A0}', '\U{1680}', '\U{2000}', '\U{2001}',
            '\U{2002}', '\U{2003}', '\U{2004}', '\U{2005}', '\U{2006}', '\U{2007}', '\U{2008}', '\U{2009}', '\U{200A}',
            '\U{2028}', '\U{2029}', '\U{202F}', '\U{205F}', '\U{3000}'}
  {
  }

  /** Spaces, tabs and line ends alone are blank. */
  lemma SpacesAreBlank(s: string)
    requires forall i :: 0 <= i < |s| ==> s[i] in {' ', '\t', '\n', '\r'}
    ensures IsBlank(s)
  {
    forall i | 0 <= i < |s| ensures IsWhiteSpace(s[i]) { WhiteSpaceIs(s[i]); }
  }

  /** A string with a visible ASCII character is not. */
  lemma VisibleIsNotBlank(s: string, i: nat)
    requires i < |s| && '!' <= s[i] <= '~'
    ensures !IsBlank(s)
  {
    assert !IsWhiteSpace(s[i]);
  }
}
