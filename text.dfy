/** JavaScript's String.prototype.trim, over strings of UTF-16 code units
    modelled as sequences of chars (one char per code unit). */
module Text {

  /** The characters trim removes: the WhiteSpace and LineTerminator
      code points of ECMA-262 (tab, vertical tab, form feed, space,
      no-break space, the byte order mark, the other Zs space separators,
      and LF, CR, LS, PS). */
  const Whitespace: set<char> := {
    '\U{0009}', '\U{000B}', '\U{000C}', '\U{0020}', '\U{00A0}', '\U{FEFF}',
    '\U{1680}', '\U{2000}', '\U{2001}', '\U{2002}', '\U{2003}', '\U{2004}',
    '\U{2005}', '\U{2006}', '\U{2007}', '\U{2008}', '\U{2009}', '\U{200A}',
    '\U{202F}', '\U{205F}', '\U{3000}',
    '\U{000A}', '\U{000D}', '\U{2028}', '\U{2029}'
  }

  predicate IsWhitespace(c: char) {
    c in Whitespace
  }

  predicate AllWhitespace(s: string) {
    forall i :: 0 <= i < |s| ==> IsWhitespace(s[i])
  }

  /** Scanning forward from i: the first index at or after i that does not
      hold whitespace, or |s| if there is none. */
  function SkipForward(s: string, i: nat): (k: nat)
    requires i <= |s|
    ensures i <= k <= |s|
    ensures forall j :: i <= j < k ==> IsWhitespace(s[j])
    ensures k < |s| ==> !IsWhitespace(s[k])
    decreases |s| - i
  {
    if i < |s| && IsWhitespace(s[i]) then SkipForward(s, i + 1) else i
  }

  /** Scanning backward from j, but not below lo: the least k such that
      s[k..j] is all whitespace. */
  function SkipBackward(s: string, lo: nat, j: nat): (k: nat)
    requires lo <= j <= |s|
    ensures lo <= k <= j
    ensures forall m :: k <= m < j ==> IsWhitespace(s[m])
    ensures k > lo ==> !IsWhitespace(s[k - 1])
    ensures lo < j && !IsWhitespace(s[lo]) ==> k > lo
    decreases j - lo
  {
    if lo < j && IsWhitespace(s[j - 1]) then SkipBackward(s, lo, j - 1) else j
  }

  /** String.prototype.trim. Never longer than its input; empty exactly when
      the input is all whitespace; otherwise starts and ends with a
      non-whitespace character. */
  function Trim(s: string): (r: string)
    ensures |r| <= |s|
    ensures r == [] <==> AllWhitespace(s)
    ensures r != [] ==> !IsWhitespace(r[0]) && !IsWhitespace(r[|r| - 1])
  {
    var lo := SkipForward(s, 0);
    var hi := SkipBackward(s, lo, |s|);
    s[lo..hi]
  }

  /** Trim keeps one contiguous slice of its input and removes only
      whitespace on either side of it. */
  lemma TrimIsSlice(s: string)
    ensures var lo := SkipForward(s, 0);
      lo + |Trim(s)| <= |s| &&
      (forall i :: 0 <= i < |Trim(s)| ==> Trim(s)[i] == s[lo + i]) &&
      (forall i :: 0 <= i < lo ==> IsWhitespace(s[i])) &&
      (forall i :: lo + |Trim(s)| <= i < |s| ==> IsWhitespace(s[i]))
  {
    var lo := SkipForward(s, 0);
    var hi := SkipBackward(s, lo, |s|);
    assert Trim(s) == s[lo..hi];
  }

  /** Trimming twice is the same as trimming once. */
  lemma TrimIdempotent(s: string)
    ensures Trim(Trim(s)) == Trim(s)
  {
    var r := Trim(s);
    assert SkipForward(r, 0) == 0;
    assert SkipBackward(r, 0, |r|) == |r|;
    assert r[0..|r|] == r;
  }
}
