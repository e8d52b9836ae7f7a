/**
 * Code points as UTF-8 bytes, each held in a character.
 */
module Utf8Text {
  function ByteChar(b: nat): char
    requires b < 256
  {
    b as char
  }

  /** The UTF-8 bytes of a code point (section 3 of RFC 3629), none beyond 21 bits. */
  function Utf8(n: nat): (s: string)
    ensures |s| <= 4
  {
    if n < 0x80 then [ByteChar(n)]
    else if n < 0x800 then [ByteChar(0xC0 + n / 64), ByteChar(0x80 + n % 64)]
    else if n < 0x1_0000 then [ByteChar(0xE0 + n / 4096), ByteChar(0x80 + n / 64 % 64), ByteChar(0x80 + n % 64)]
    else if n < 0x20_0000 then
      [ByteChar(0xF0 + n / 262144), ByteChar(0x80 + n / 4096 % 64), ByteChar(0x80 + n / 64 % 64), ByteChar(0x80 + n % 64)]
    else ""
  }

  /** The code point of a UTF-8 sequence (section 3 of RFC 3629), read by its first byte. */
  function Utf8Value(s: string): nat
    requires |s| > 0 && forall i :: 0 <= i < |s| ==> s[i] as nat < 256
  {
    var b := s[0] as nat;
    if b < 0x80 then b
    else if b < 0xE0 && |s| >= 2 then b % 0x20 * 64 + s[1] as nat % 64
    else if b < 0xF0 && |s| >= 3 then (b % 0x10 * 64 + s[1] as nat % 64) * 64 + s[2] as nat % 64
    else if |s| >= 4 then ((b % 8 * 64 + s[1] as nat % 64) * 64 + s[2] as nat % 64) * 64 + s[3] as nat % 64
    else 0
  }

  lemma Utf8Bytes(n: nat)
    ensures forall i :: 0 <= i < |Utf8(n)| ==> Utf8(n)[i] as nat < 256
  {
  }

  /** Six bits at a time. */
  lemma Sixes(n: nat)
    ensures n / 4096 == n / 64 / 64 && n / 262144 == n / 4096 / 64
    ensures n == n / 64 * 64 + n % 64
    ensures n / 64 == n / 4096 * 64 + n / 64 % 64
    ensures n / 4096 == n / 262144 * 64 + n / 4096 % 64
  {
  }

  lemma Utf8Three(n: nat)
    requires 0x800 <= n < 0x1_0000
    ensures var u := Utf8(n);
        && |u| == 3 && 0xE0 <= u[0] as nat < 0xF0
        && u[0] as nat % 0x10 == n / 4096 && u[1] as nat % 64 == n / 64 % 64 && u[2] as nat % 64 == n % 64
  {
  }

  lemma Utf8Four(n: nat)
    requires 0x1_0000 <= n < 0x20_0000
    ensures var u := Utf8(n);
        && |u| == 4 && 0xF0 <= u[0] as nat
        && u[0] as nat % 8 == n / 262144 && u[1] as nat % 64 == n / 4096 % 64
        && u[2] as nat % 64 == n / 64 % 64 && u[3] as nat % 64 == n % 64
  {
  }

  /** Every code point the encoder accepts comes back from its bytes. */
  lemma Utf8RoundTrip(n: nat)
    requires n < 0x20_0000
    ensures Utf8(n) != "" && (forall i :: 0 <= i < |Utf8(n)| ==> Utf8(n)[i] as nat < 256)
    ensures Utf8Value(Utf8(n)) == n
  {
    Utf8Bytes(n);
    Sixes(n);
    if 0x800 <= n < 0x1_0000 {
      Utf8Three(n);
    } else if 0x1_0000 <= n {
      Utf8Four(n);
    }
  }
}
