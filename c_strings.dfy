/**
 * NUL-terminated character buffers, as the C library sees them: the text a
 * buffer holds and `strcpy` into a fixed-size `char` array.
 */
module CStrings {

  /** The text of a C string: its characters up to, not including, the first
      NUL; all of them when there is none. This is also what
      `std::string(s.c_str())` keeps of a string with an embedded NUL. */
  function CString(chars: seq<char>): (text: seq<char>)
    ensures text <= chars
    ensures '\0' !in text
    ensures |text| < |chars| ==> chars[|text|] == '\0'
  {
    if chars == [] || chars[0] == '\0' then [] else [chars[0]] + CString(chars[1..])
  }

  /** Text without NUL is its own C string, and NUL-terminating it hides
      whatever follows the terminator. */
  lemma {:induction false} CStringOfText(text: seq<char>, rest: seq<char>)
    requires '\0' !in text
    ensures CString(text) == text
    ensures CString(text + ['\0'] + rest) == text
  {
    if text != [] {
      CStringOfText(text[1..], rest);
      assert (text + ['\0'] + rest)[1..] == text[1..] + ['\0'] + rest;
    }
  }

  /** Stores `text` and its terminator at the start of `buf`, as `sprintf`
      leaves its output; the bytes after the terminator keep their values. */
  method WriteCString(buf: array<char>, text: seq<char>)
    requires '\0' !in text && |text| < buf.Length
    modifies buf
    ensures buf[..|text|] == text && buf[|text|] == '\0'
    ensures buf[|text| + 1..] == old(buf[|text| + 1..])
    ensures CString(buf[..]) == text
  {
    for i := 0 to |text|
      invariant buf[..i] == text[..i]
      invariant buf[i..] == old(buf[i..])
    {
      buf[i] := text[i];
    }
    buf[|text|] := '\0';
    CStringOfText(text, buf[|text| + 1..]);
    assert buf[..] == text + ['\0'] + buf[|text| + 1..];
  }

  /** `strcpy(dst, src)`: copies the characters of `src` up to and including
      its first NUL; `dst` must have room for them. */
  method StrCpy(dst: array<char>, src: array<char>)
    requires dst != src
    requires '\0' in src[..] && |CString(src[..])| < dst.Length
    modifies dst
    ensures CString(dst[..]) == CString(src[..])
    ensures dst[|CString(src[..])| + 1..] == old(dst[|CString(src[..])| + 1..])
  {
    ghost var text := CString(src[..]);
    var i := 0;
    while src[i] != '\0'
      invariant 0 <= i <= |text|
      invariant dst[..i] == text[..i]
      invariant dst[i..] == old(dst[i..])
      decreases |text| - i
    {
      assert src[i] == text[i];
      dst[i] := src[i];
      i := i + 1;
    }
    dst[i] := '\0';
    CStringOfText(text, dst[|text| + 1..]);
    assert dst[..] == text + ['\0'] + dst[|text| + 1..];
    assert src[..] == old(src[..]);
  }
}
