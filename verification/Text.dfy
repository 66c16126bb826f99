/** The string operations the request validation relies on. */
module Text {

  /** Unicode `White_Space`. */
  predicate IsWhitespace(c: char) {
    var n := c as int;
    || 0x9 <= n <= 0xD || n == 0x20 || n == 0x85 || n == 0xA0 || n == 0x1680
    || 0x2000 <= n <= 0x200A || n == 0x2028 || n == 0x2029 || n == 0x202F || n == 0x205F || n == 0x3000
  }

  /** The 25 code points with that property. */
  lemma WhitespaceExactly(c: char)
    ensures IsWhitespace(c) <==>
            c as int in {0x9, 0xA, 0xB, 0xC, 0xD, 0x20, 0x85, 0xA0, 0x1680, 0x2000, 0x2001, 0x2002, 0x2003, 0x2004, 0x2005,
                         0x2006, 0x2007, 0x2008, 0x2009, 0x200A, 0x2028, 0x2029, 0x202F, 0x205F, 0x3000}
  {
  }

  predicate AllWhitespace(s: string) {
    forall i :: 0 <= i < |s| ==> IsWhitespace(s[i])
  }

  /** The first position from `i` on that is not white space. */
  function Start(s: string, i: nat): (r: nat)
    requires i <= |s|
    ensures i <= r <= |s|
    ensures forall k :: i <= k < r ==> IsWhitespace(s[k])
    ensures r < |s| ==> !IsWhitespace(s[r])
    decreases |s| - i
  {
    if i < |s| && IsWhitespace(s[i]) then Start(s, i + 1) else i
  }

  /** The end of the last run without trailing white space between `lo` and `j`. */
  function End(s: string, lo: nat, j: nat): (r: nat)
    requires lo <= j <= |s|
    ensures lo <= r <= j
    ensures forall k :: r <= k < j ==> IsWhitespace(s[k])
    ensures r > lo ==> !IsWhitespace(s[r - 1])
  {
    if lo < j && IsWhitespace(s[j - 1]) then End(s, lo, j - 1) else j
  }

  function Trim(s: string): string {
    var i := Start(s, 0);
    s[i..End(s, i, |s|)]
  }

  /** `t` is what is left of `s` without the white space around it. */
  ghost predicate IsTrimOf(t: string, s: string) {
    exists i: nat, j: nat :: IsTrimAt(t, s, i, j)
  }

  predicate IsTrimAt(t: string, s: string, i: nat, j: nat) {
    && i <= j <= |s| && t == s[i..j]
    && (forall k :: 0 <= k < i ==> IsWhitespace(s[k]))
    && (forall k :: j <= k < |s| ==> IsWhitespace(s[k]))
    && (i < j ==> !IsWhitespace(s[i]) && !IsWhitespace(s[j - 1]))
  }

  /** Trimming takes off all the white space at both ends and nothing else. */
  lemma TrimIsTrim(s: string)
    ensures IsTrimOf(Trim(s), s)
  {
    assert IsTrimAt(Trim(s), s, Start(s, 0), End(s, Start(s, 0), |s|));
  }

  /** It leaves nothing exactly when there was nothing but white space. */
  lemma TrimEmptyIff(s: string)
    ensures Trim(s) == "" <==> AllWhitespace(s)
  {
    var i := Start(s, 0);
    if i < |s| {
      assert End(s, i, |s|) > i;
    }
  }

  /** The length of a character in UTF-8. */
  function Utf8Width(c: char): nat {
    var n := c as int;
    if n < 0x80 then 1 else if n < 0x800 then 2 else if n < 0x10000 then 3 else 4
  }

  function Utf8Length(s: string): nat {
    if s == [] then 0 else Utf8Width(s[0]) + Utf8Length(s[1..])
  }
}
