/**
 String helpers of commonlib/common/base/string_util.{h,cc} that the command line relies on.
 A wide string is a `string`; a narrow (byte) string is a `string` whose characters are below 256.
 */
module Text {

  /** The characters of WHITESPACE_UNICODE. */
  predicate IsWhitespace(c: char) {
    var n := c as int;
    || 0x09 <= n <= 0x0D || n == 0x20 || n == 0x85 || n == 0xA0 || n == 0x1680 || n == 0x180E
    || 0x2000 <= n <= 0x200A || n == 0x200C || n == 0x2028 || n == 0x2029 || n == 0x202F
    || n == 0x205F || n == 0x3000
  }

  /** Neither end of the string is whitespace. */
  predicate IsTrimmed(s: string) {
    s != "" ==> !IsWhitespace(s[0]) && !IsWhitespace(s[|s| - 1])
  }

  function TrimLeft(s: string): (r: string)
    ensures |r| <= |s|
  {
    if s != "" && IsWhitespace(s[0]) then TrimLeft(s[1..]) else s
  }

  function TrimRight(s: string): (r: string)
    ensures |r| <= |s|
    ensures r <= s
    ensures r != "" ==> !IsWhitespace(r[|r| - 1])
  {
    if s != "" && IsWhitespace(s[|s| - 1]) then TrimRight(s[..|s| - 1]) else s
  }

  /** TrimWhitespace(s, TRIM_ALL): what lies between the first and the last good character. */
  function Trim(s: string): (r: string)
    ensures |r| <= |s|
  {
    TrimRight(TrimLeft(s))
  }

  lemma TrimFixesTrimmed(s: string)
    ensures Trim(s) == s <==> IsTrimmed(s)
  {
    if s != "" && Trim(s) == s {
      assert |TrimLeft(s)| == |s|;
    }
  }

  lemma TrimIsTrimmed(s: string)
    ensures IsTrimmed(Trim(s))
  {
    if s != "" && IsWhitespace(s[0]) {
      TrimIsTrimmed(s[1..]);
    } else {
      assert TrimRight(s) <= s;
    }
  }

  /** Nothing but whitespace. */
  predicate IsBlankText(s: string) {
    forall i :: 0 <= i < |s| ==> IsWhitespace(s[i])
  }

  /** The 27 characters, by their codes. */
  lemma WhitespaceByCode(c: char)
    ensures IsWhitespace(c) <==> c as int in {
      0x09, 0x0A, 0x0B, 0x0C, 0x0D, 0x20, 0x85, 0xA0, 0x1680, 0x180E, 0x2000, 0x2001, 0x2002, 0x2003, 0x2004,
      0x2005, 0x2006, 0x2007, 0x2008, 0x2009, 0x200A, 0x200C, 0x2028, 0x2029, 0x202F, 0x205F, 0x3000}
  {
    var n := c as int;
    assert 0x09 <= n <= 0x0D <==> n in {0x09, 0x0A, 0x0B, 0x0C, 0x0D};
    assert 0x2000 <= n <= 0x200A
      <==> n in {0x2000, 0x2001, 0x2002, 0x2003, 0x2004, 0x2005, 0x2006, 0x2007, 0x2008, 0x2009, 0x200A};
  }

  lemma {:induction false} LeftIsCut(s: string) returns (i: nat)
    ensures i <= |s| && TrimLeft(s) == s[i..] && IsBlankText(s[..i])
    ensures i < |s| ==> !IsWhitespace(s[i])
  {
    if s != "" && IsWhitespace(s[0]) {
      i := LeftIsCut(s[1..]);
      assert s[1..][i..] == s[i + 1..];
      assert forall k :: 0 < k <= i ==> s[k] == s[1..][..i][k - 1];
      i := i + 1;
    } else {
      i := 0;
    }
  }

  lemma {:induction false} RightIsCut(s: string) returns (j: nat)
    ensures j <= |s| && TrimRight(s) == s[..j] && IsBlankText(s[j..])
    ensures j > 0 ==> !IsWhitespace(s[j - 1])
  {
    if s != "" && IsWhitespace(s[|s| - 1]) {
      var init := s[..|s| - 1];
      j := RightIsCut(init);
      assert init[..j] == s[..j];
      assert forall k :: j <= k < |init| ==> s[k] == init[j..][k - j];
    } else {
      j := |s|;
    }
  }

  /**
   Trimming cuts off whitespace at both ends, all of it, and nothing else: what is left is a part
   of the string that is empty or starts and ends with other characters, with only whitespace
   before and behind it. It is empty exactly when there is nothing but whitespace.
   */
  lemma TrimIsCut(s: string) returns (i: nat, j: nat)
    ensures i <= j <= |s| && Trim(s) == s[i..j]
    ensures (forall k :: 0 <= k < i ==> IsWhitespace(s[k])) && (forall k :: j <= k < |s| ==> IsWhitespace(s[k]))
    ensures i < j ==> !IsWhitespace(s[i]) && !IsWhitespace(s[j - 1])
    ensures i == j <==> IsBlankText(s)
  {
    i := LeftIsCut(s);
    var left := s[i..];
    j := RightIsCut(left);
    assert forall k :: 0 <= k < i ==> s[k] == s[..i][k];
    assert forall k :: j <= k < |left| ==> s[i + k] == left[k] == left[j..][k - j];
    assert left[..j] == s[i..i + j];
    assert i < |s| ==> left[0] == s[i];
    j := i + j;
    assert forall k :: j <= k < |s| ==> s[k] == left[k - i];
  }

  /** Only the 26 letters change. */
  function ToLowerAscii(c: char): (r: char)
    ensures 0x41 <= c as int <= 0x5A ==> r as int == c as int + 0x20
    ensures !(0x41 <= c as int <= 0x5A) ==> r == c
  {
    if 'A' <= c <= 'Z' then c + 32 as char else c
  }

  predicate IsAscii(s: string) {
    forall i :: 0 <= i < |s| ==> s[i] as int < 128
  }

  function Lower(s: string): (r: string)
    ensures |r| == |s| && forall i :: 0 <= i < |s| ==> r[i] == ToLowerAscii(s[i])
  {
    seq(|s|, i requires 0 <= i < |s| => ToLowerAscii(s[i]))
  }

  /** WideToASCII: every 16-bit unit is cut down to its low byte. */
  function NarrowChar(c: char): (r: char)
    ensures r as int < 0x100 && (c as int - r as int) % 0x100 == 0
  {
    (c as int % 256) as char
  }

  function Narrow(s: string): (r: string)
    ensures |r| == |s| && forall i :: 0 <= i < |s| ==> r[i] == NarrowChar(s[i])
  {
    seq(|s|, i requires 0 <= i < |s| => NarrowChar(s[i]))
  }

  /** ASCIIToWide: a byte of 128 or more is sign-extended to 16 bits. */
  function WidenChar(c: char): (r: char)
    ensures c as int < 0x80 ==> r == c
    ensures 0x80 <= c as int < 0x100 ==> r as int == c as int + 0xFF00
  {
    var b := c as int % 256;
    (if b < 128 then b else b + 0xFF00) as char
  }

  function Widen(s: string): (r: string)
    ensures |r| == |s| && forall i :: 0 <= i < |s| ==> r[i] == WidenChar(s[i])
  {
    seq(|s|, i requires 0 <= i < |s| => WidenChar(s[i]))
  }

  lemma AsciiSurvivesNarrowing(s: string)
    requires IsAscii(s)
    ensures Narrow(s) == s && Widen(s) == s && IsAscii(Lower(s))
  {
  }
}
