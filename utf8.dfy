/**
 * Well-formed UTF-8, as Python's strict `bytes.decode()` accepts it: the byte
 * sequences of table 3-7 of the Unicode Standard (RFC 3629, section 4), which
 * excludes overlong forms, surrogates and code points above U+10FFFF.
 */
module Utf8 {
  import opened Basics

  predicate IsContinuation(b: byte)
  {
    0x80 <= b <= 0xBF
  }

  /** Length of the well-formed sequence that starts `s`, or 0 if `s` does not start with one. */
  function FirstCharLength(s: seq<byte>): (n: nat)
    requires |s| > 0
    ensures n <= 4 && n <= |s|
  {
    var b0 := s[0];
    if b0 <= 0x7F then 1
    else if 0xC2 <= b0 <= 0xDF then
      (if |s| >= 2 && IsContinuation(s[1]) then 2 else 0)
    else if b0 == 0xE0 then
      (if |s| >= 3 && 0xA0 <= s[1] <= 0xBF && IsContinuation(s[2]) then 3 else 0)
    else if (0xE1 <= b0 <= 0xEC) || (0xEE <= b0 <= 0xEF) then
      (if |s| >= 3 && IsContinuation(s[1]) && IsContinuation(s[2]) then 3 else 0)
    else if b0 == 0xED then
      (if |s| >= 3 && 0x80 <= s[1] <= 0x9F && IsContinuation(s[2]) then 3 else 0)
    else if b0 == 0xF0 then
      (if |s| >= 4 && 0x90 <= s[1] <= 0xBF && IsContinuation(s[2]) && IsContinuation(s[3]) then 4 else 0)
    else if 0xF1 <= b0 <= 0xF3 then
      (if |s| >= 4 && IsContinuation(s[1]) && IsContinuation(s[2]) && IsContinuation(s[3]) then 4 else 0)
    else if b0 == 0xF4 then
      (if |s| >= 4 && 0x80 <= s[1] <= 0x8F && IsContinuation(s[2]) && IsContinuation(s[3]) then 4 else 0)
    else 0
  }

  /** `s` is a concatenation of well-formed UTF-8 sequences. The bytes C0, C1 and F5 to
      FF, which section 1 of RFC 3629 says never appear, are not in it. */
  predicate ValidUtf8(s: seq<byte>): (r: bool)
    ensures r ==> forall i | 0 <= i < |s| :: s[i] != 0xC0 && s[i] != 0xC1 && s[i] < 0xF5
    decreases |s|
  {
    s == [] || (FirstCharLength(s) > 0 && ValidUtf8(s[FirstCharLength(s)..]))
  }

  predicate IsAscii(s: seq<byte>)
  {
    forall i | 0 <= i < |s| :: s[i] <= 0x7F
  }

  /** The first character's length depends only on the bytes that make it up. */
  lemma FirstCharLengthPrefix(s: seq<byte>, t: seq<byte>)
    requires |s| > 0 && FirstCharLength(s) > 0
    requires |t| >= FirstCharLength(s) && t[..FirstCharLength(s)] == s[..FirstCharLength(s)]
    ensures FirstCharLength(t) == FirstCharLength(s)
  {
    var n := FirstCharLength(s);
    assert t[0] == s[0];
    if n >= 2 { assert t[1] == s[1]; }
    if n >= 3 { assert t[2] == s[2]; }
    if n >= 4 { assert t[3] == s[3]; }
  }

  /** One well-formed character followed by valid text is valid text. */
  lemma ValidCons(u: seq<byte>, n: nat)
    requires |u| > 0 && FirstCharLength(u) == n && n > 0
    requires ValidUtf8(u[n..])
    ensures ValidUtf8(u)
  {
  }

  /** Text followed by text is text. */
  lemma {:induction false} ConcatValid(s: seq<byte>, t: seq<byte>)
    requires ValidUtf8(s) && ValidUtf8(t)
    ensures ValidUtf8(s + t)
    decreases |s|
  {
    if s == [] {
      assert s + t == t;
    } else {
      var n := FirstCharLength(s);
      ConcatValid(s[n..], t);
      ConcatStep(s, t, n);
    }
  }

  lemma ConcatStep(s: seq<byte>, t: seq<byte>, n: nat)
    requires |s| > 0 && FirstCharLength(s) == n && n > 0
    requires ValidUtf8(s[n..] + t)
    ensures ValidUtf8(s + t)
  {
    var u := s + t;
    assert u[..n] == s[..n];
    FirstCharLengthPrefix(s, u);
    assert u[n..] == s[n..] + t;
    ValidCons(u, n);
  }

  /** Every ASCII string is valid UTF-8, one byte per character. */
  lemma {:induction false} AsciiValid(s: seq<byte>)
    requires IsAscii(s)
    ensures ValidUtf8(s)
    decreases |s|
  {
    if s != [] {
      assert FirstCharLength(s) == 1;
      assert IsAscii(s[1..]) by {
        forall i | 0 <= i < |s[1..]| ensures s[1..][i] <= 0x7F { assert s[1..][i] == s[i + 1]; }
      }
      AsciiValid(s[1..]);
    }
  }
}
