/**
 * `encodeURIComponent` (ECMAScript, section 19.2.6.5 of ECMA-262 2015):
 * characters outside the unreserved set are replaced by the `%XX` escapes of
 * their UTF-8 bytes, in upper-case hexadecimal. Dafny's `char` is a Unicode
 * scalar value, so the lone-surrogate case that throws cannot arise.
 */
module Uri {

  /** The characters `encodeURIComponent` leaves as they are. */
  predicate Unreserved(c: char) {
    ('A' <= c <= 'Z') || ('a' <= c <= 'z') || ('0' <= c <= '9')
    || c == '-' || c == '_' || c == '.' || c == '!' || c == '~' || c == '*' || c == '\'' || c == '(' || c == ')'
  }

  /** The characters an encoded string is made of. */
  predicate UriSafe(c: char) {
    Unreserved(c) || c == '%'
  }

  function HexDigit(d: nat): (c: char)
    requires d < 16
    ensures ('0' <= c <= '9') || ('A' <= c <= 'F')
  {
    if d < 10 then ('0' as int + d) as char else ('A' as int + d - 10) as char
  }

  /** The UTF-8 encoding of code point `cp`. */
  function Utf8(cp: nat): (bytes: seq<nat>)
    requires cp < 0x11_0000
    ensures 1 <= |bytes| <= 4
    ensures forall i :: 0 <= i < |bytes| ==> bytes[i] < 256
    ensures |bytes| == 1 <==> cp < 0x80
  {
    if cp < 0x80 then [cp]
    else if cp < 0x800 then [0xC0 + cp / 0x40, 0x80 + cp % 0x40]
    else if cp < 0x1_0000 then [0xE0 + cp / 0x1000, 0x80 + (cp / 0x40) % 0x40, 0x80 + cp % 0x40]
    else [0xF0 + cp / 0x4_0000, 0x80 + (cp / 0x1000) % 0x40, 0x80 + (cp / 0x40) % 0x40, 0x80 + cp % 0x40]
  }

  /** `%XX` for each byte. */
  function Escapes(bytes: seq<nat>): (r: string)
    requires forall i :: 0 <= i < |bytes| ==> bytes[i] < 256
    ensures |r| == 3 * |bytes|
    ensures forall i :: 0 <= i < |r| ==> UriSafe(r[i])
    ensures forall i :: 0 <= i < |r| ==> (r[i] == '%' <==> i % 3 == 0)
  {
    if bytes == [] then []
    else ['%', HexDigit(bytes[0] / 16), HexDigit(bytes[0] % 16)] + Escapes(bytes[1..])
  }

  function EncodeChar(c: char): (r: string)
    ensures r != [] && forall i :: 0 <= i < |r| ==> UriSafe(r[i])
    ensures Unreserved(c) ==> r == [c]
  {
    if Unreserved(c) then [c] else Escapes(Utf8(c as int))
  }

  /**
   * `encodeURIComponent(s)`: only unreserved characters and `%` in the
   * result, empty exactly when `s` is, and `s` itself when `s` has nothing
   * to escape.
   */
  function EncodeURIComponent(s: string): (r: string)
    ensures forall i :: 0 <= i < |r| ==> UriSafe(r[i])
    ensures r == [] <==> s == []
    ensures |r| >= |s|
    ensures (forall i :: 0 <= i < |s| ==> Unreserved(s[i])) ==> r == s
  {
    if s == [] then [] else EncodeChar(s[0]) + EncodeURIComponent(s[1..])
  }
}
