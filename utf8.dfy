/** Well-formed UTF-8, as `String::from_utf8` accepts it: the byte-sequence
    grammar of section 4 of RFC 3629 (no overlong forms, no surrogates,
    nothing above U+10FFFF). */
module Utf8 {
  import opened Bytes

  /** `UTF8-tail = %x80-BF`. */
  predicate IsTail(b: Byte) {
    0x80 <= b <= 0xBF
  }

  /** Length of the well-formed character that starts `s`, or 0 when `s` does
      not start with one. */
  function FirstCharLen(s: seq<Byte>): (n: nat)
    requires |s| > 0
    ensures n <= 4 && n <= |s|
    ensures n > 0 ==> (s[0] < 0x80 <==> n == 1)
  {
    var b0 := s[0];
    if b0 <= 0x7F then 1
    else if 0xC2 <= b0 <= 0xDF then
      (if |s| >= 2 && IsTail(s[1]) then 2 else 0)
    else if b0 == 0xE0 then
      (if |s| >= 3 && 0xA0 <= s[1] <= 0xBF && IsTail(s[2]) then 3 else 0)
    else if 0xE1 <= b0 <= 0xEC || 0xEE <= b0 <= 0xEF then
      (if |s| >= 3 && IsTail(s[1]) && IsTail(s[2]) then 3 else 0)
    else if b0 == 0xED then
      (if |s| >= 3 && 0x80 <= s[1] <= 0x9F && IsTail(s[2]) then 3 else 0)
    else if b0 == 0xF0 then
      (if |s| >= 4 && 0x90 <= s[1] <= 0xBF && IsTail(s[2]) && IsTail(s[3]) then 4 else 0)
    else if 0xF1 <= b0 <= 0xF3 then
      (if |s| >= 4 && IsTail(s[1]) && IsTail(s[2]) && IsTail(s[3]) then 4 else 0)
    else if b0 == 0xF4 then
      (if |s| >= 4 && 0x80 <= s[1] <= 0x8F && IsTail(s[2]) && IsTail(s[3]) then 4 else 0)
    else 0
  }

  /** `UTF8-octets = *( UTF8-char )`. As section 1 of RFC 3629 notes, the
      octets C0, C1 and F5 to FF never appear in well-formed text. */
  predicate ValidUtf8(s: seq<Byte>)
    ensures ValidUtf8(s) ==>
              forall i :: 0 <= i < |s| ==> s[i] != 0xC0 && s[i] != 0xC1 && s[i] < 0xF5
    decreases |s|
  {
    |s| == 0 || (FirstCharLen(s) > 0 && ValidUtf8(s[FirstCharLen(s)..]))
  }

  /** The contents of a Rust `String`. */
  type Utf8String = s: seq<Byte> | ValidUtf8(s) witness []

  predicate IsAscii(s: seq<Byte>) {
    forall i :: 0 <= i < |s| ==> s[i] < 0x80
  }

  /** Every ASCII byte string is well-formed UTF-8. */
  lemma {:induction false} AsciiIsValid(s: seq<Byte>)
    requires IsAscii(s)
    ensures ValidUtf8(s)
  {
    if |s| > 0 {
      assert FirstCharLen(s) == 1;
      AsciiIsValid(s[1..]);
    }
  }
}
