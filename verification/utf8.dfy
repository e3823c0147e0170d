/** Well-formed UTF-8, as Python's strict `bytes.decode()` accepts it
    (the well-formed byte sequences of the Unicode standard, Table 3-7:
    no overlong forms, no surrogates, nothing above U+10FFFF). */
module Utf8 {

  newtype byte = b: int | 0 <= b < 256

  predicate IsContinuation(b: byte) {
    0x80 <= b <= 0xBF
  }

  /** The bytes that occur nowhere in well-formed UTF-8. */
  predicate NeverInUtf8(b: byte) {
    b == 0xC0 || b == 0xC1 || b >= 0xF5
  }

  /** The length of the encoded character that starts at the front of `s`,
      or 0 when no well-formed character starts there. */
  function FirstCharLength(s: seq<byte>): (n: nat)
    requires |s| > 0
    ensures n <= 4 && n <= |s|
    ensures n == 1 <==> s[0] < 0x80
    ensures forall i :: 0 <= i < n ==> !NeverInUtf8(s[i])
  {
    var b0 := s[0];
    if b0 < 0x80 then 1
    else if 0xC2 <= b0 <= 0xDF then
      if |s| >= 2 && IsContinuation(s[1]) then 2 else 0
    else if 0xE0 <= b0 <= 0xEF then
      var lo := if b0 == 0xE0 then 0xA0 else 0x80;
      var hi := if b0 == 0xED then 0x9F else 0xBF;
      if |s| >= 3 && lo <= s[1] <= hi && IsContinuation(s[2]) then 3 else 0
    else if 0xF0 <= b0 <= 0xF4 then
      var lo := if b0 == 0xF0 then 0x90 else 0x80;
      var hi := if b0 == 0xF4 then 0x8F else 0xBF;
      if |s| >= 4 && lo <= s[1] <= hi && IsContinuation(s[2]) && IsContinuation(s[3]) then 4 else 0
    else 0
  }

  /** `s.decode()` succeeds: the bytes are a run of well-formed characters. */
  function Decodes(s: seq<byte>): (ok: bool)
    ensures ok ==> forall i :: 0 <= i < |s| ==> !NeverInUtf8(s[i])
    decreases |s|
  {
    if |s| == 0 then true
    else
      var n := FirstCharLength(s);
      if n == 0 then false
      else
        var rest := s[n..];
        var ok := Decodes(rest);
        assert forall i :: n <= i < |s| ==> s[i] == rest[i - n];
        ok
  }

  /** Plain ASCII always decodes. */
  lemma {:induction false} AsciiDecodes(s: seq<byte>)
    requires forall i :: 0 <= i < |s| ==> s[i] < 0x80
    ensures Decodes(s)
    decreases |s|
  {
    if |s| > 0 {
      AsciiDecodes(s[1..]);
    }
  }

  /** A byte that can never start a character, such as 0xFF, makes decoding fail. */
  lemma InvalidLeadFails(s: seq<byte>)
    requires |s| > 0 && (0x80 <= s[0] <= 0xC1 || s[0] >= 0xF5)
    ensures !Decodes(s)
  {
  }
}
