/**
 * JSON strings: the escaping of the printer, and the two passes of the parser.
 */
module JsonString {
  import opened Strings
  import opened Utf8Text

  const NUL := '\0'
  const QUOTE := '\"'
  const BACKSLASH := '\\'
  const BACKSPACE: char := 8 as char
  const FORM_FEED: char := 12 as char

  // ---- Printing ----

  function HexDigit(n: nat): char
    requires n < 16
  {
    if n < 10 then ('0' as nat + n) as char else ('a' as nat + n - 10) as char
  }

  function Hex4(n: nat): string
    requires n < 0x1_0000
  {
    [HexDigit(n / 4096), HexDigit(n / 256 % 16), HexDigit(n / 16 % 16), HexDigit(n % 16)]
  }

  /** The letter behind the backslash of a short escape, NUL when there is none. */
  function ShortEscape(c: char): char {
    if c == BACKSLASH then BACKSLASH
    else if c == QUOTE then QUOTE
    else if c == BACKSPACE then 'b'
    else if c == FORM_FEED then 'f'
    else if c == '\n' then 'n'
    else if c == '\r' then 'r'
    else if c == '\t' then 't'
    else NUL
  }

  function Escape(c: char): string {
    if ShortEscape(c) != NUL then [BACKSLASH, ShortEscape(c)]
    else if c as nat < 32 then [BACKSLASH, 'u'] + Hex4(c as nat)
    else [c]
  }

  function Escaped(s: string): string {
    if s == "" then "" else Escaped(s[..|s| - 1]) + Escape(s[|s| - 1])
  }

  function Quoted(s: string): string {
    [QUOTE] + Escaped(s) + [QUOTE]
  }

  // ---- The first pass ----

  /** Where the closing quote is when scanning from i; |s| when the string does not end. */
  function StringEnd(s: string, i: nat): (end: nat)
    requires i <= |s|
    ensures i <= end <= |s| && (end < |s| ==> s[end] == QUOTE)
    decreases |s| - i
  {
    if i == |s| || s[i] == QUOTE then i
    else if s[i] != BACKSLASH then StringEnd(s, i + 1)
    else if i + 1 == |s| then |s|
    else StringEnd(s, i + 2)
  }

  /** The backslashes the first pass skips before index p. */
  function Skips(s: string, i: nat, p: nat): nat
    requires p <= |s|
    decreases p - i
  {
    if i >= p then 0 else if s[i] == BACKSLASH then 1 + Skips(s, i + 2, p) else Skips(s, i + 1, p)
  }

  lemma {:induction false} SkipsGrow(s: string, i: nat, p: nat)
    requires i <= p < |s|
    ensures Skips(s, i, p) <= Skips(s, i, p + 1) <= Skips(s, i, p) + 1
    ensures s[p] != BACKSLASH ==> Skips(s, i, p + 1) == Skips(s, i, p)
    decreases p - i
  {
    if i < p {
      if s[i] == BACKSLASH {
        if i + 2 <= p {
          SkipsGrow(s, i + 2, p);
        }
      } else {
        SkipsGrow(s, i + 1, p);
      }
    }
  }

  /** Two neighbours are not both skipped. */
  lemma {:induction false} SkipsByTwo(s: string, i: nat, p: nat)
    requires i <= p && p + 2 <= |s|
    ensures Skips(s, i, p + 2) <= Skips(s, i, p) + 1
    decreases p - i
  {
    if i < p {
      if s[i] == BACKSLASH {
        if i + 2 <= p {
          SkipsByTwo(s, i + 2, p);
        } else {
          assert Skips(s, i + 2, p + 2) <= 1;
        }
      } else {
        SkipsByTwo(s, i + 1, p);
      }
    } else {
      assert Skips(s, p + 2, p + 2) == 0 && Skips(s, p + 3, p + 2) == 0;
      assert Skips(s, p + 1, p + 2) <= 1;
    }
  }

  // ---- The second pass ----

  function HexValue(c: char): nat {
    if '0' <= c <= '9' then c as nat - '0' as nat
    else if 'A' <= c <= 'F' then 10 + c as nat - 'A' as nat
    else if 'a' <= c <= 'f' then 10 + c as nat - 'a' as nat
    else 16
  }

  /** parse_hex4: zero when a digit is not one. */
  function ParseHex4(s: string, p: nat): (h: nat)
    requires p + 4 <= |s|
    ensures h < 0x1_0000
  {
    var a, b, c, d := HexValue(s[p]), HexValue(s[p + 1]), HexValue(s[p + 2]), HexValue(s[p + 3]);
    if a < 16 && b < 16 && c < 16 && d < 16 then ((a * 16 + b) * 16 + c) * 16 + d else 0
  }

  /** NotLiteral: the sequence length of zero that the source returns on failure. */
  datatype Literal = NotLiteral | Literal(length: nat, text: string)

  /** The code point of a surrogate pair (section 2.2 of RFC 2781). */
  function PairValue(first: nat, second: nat): nat {
    0x1_0000 + first % 0x400 * 0x400 + second % 0x400
  }

  /** utf16_literal_to_utf8, at the backslash of an escape that ends before end. */
  function Utf16Literal(s: string, p: nat, end: nat): Literal
    requires p <= end <= |s|
  {
    if end - p < 6 then NotLiteral
    else
      var first := ParseHex4(s, p + 2);
      if 0xDC00 <= first <= 0xDFFF then NotLiteral
      else if 0xD800 <= first <= 0xDBFF then
        if end - (p + 6) < 6 || s[p + 6] != BACKSLASH || s[p + 7] != 'u' then NotLiteral
        else
          var second := ParseHex4(s, p + 8);
          if second < 0xDC00 || second > 0xDFFF then NotLiteral
          else Literal(12, Utf8(PairValue(first, second)))
      else Literal(6, Utf8(first))
  }

  datatype Decoding = Malformed | Decoded(text: string)

  datatype Unit = BadUnit | Unit(length: nat, text: string)

  /** One character or one escape of the body, at p. */
  function UnitAt(s: string, p: nat, end: nat): Unit
    requires p < end < |s|
  {
    if s[p] != BACKSLASH then Unit(1, [s[p]])
    else
      var c := s[p + 1];
      if c == 'b' then Unit(2, [BACKSPACE])
      else if c == 'f' then Unit(2, [FORM_FEED])
      else if c == 'n' then Unit(2, "\n")
      else if c == 'r' then Unit(2, "\r")
      else if c == 't' then Unit(2, "\t")
      else if c == QUOTE || c == BACKSLASH || c == '/' then Unit(2, [c])
      else if c == 'u' then
        match Utf16Literal(s, p, end)
        case NotLiteral => BadUnit
        case Literal(length, text) => Unit(length, text)
      else BadUnit
  }

  /** The second pass over s[p..end], behind out. */
  function DecodeBody(s: string, p: nat, end: nat, out: string): Decoding
    requires end < |s|
    decreases end - p
  {
    if p >= end then Decoded(out)
    else
      match UnitAt(s, p, end)
      case BadUnit => Malformed
      case Unit(length, text) => if length == 0 then Malformed else DecodeBody(s, p + length, end, out + text)
  }

  // ---- The second pass never writes more than the first one counted ----

  /** What can still be written when the second pass is at p. */
  ghost predicate Fits(s: string, b: nat, p: nat, size: nat)
    requires p <= |s|
  {
    b <= p && size + Skips(s, b, p) <= p - b
  }

  lemma {:induction false} SkipsBySix(s: string, b: nat, p: nat)
    requires b <= p && p + 6 <= |s| && s[p + 1] == 'u'
    ensures Skips(s, b, p + 6) <= Skips(s, b, p) + 3
    ensures (forall k :: p + 2 <= k < p + 6 ==> s[k] != BACKSLASH) ==> Skips(s, b, p + 6) <= Skips(s, b, p) + 1
  {
    SkipsByTwo(s, b, p);
    SkipsByTwo(s, b, p + 2);
    SkipsByTwo(s, b, p + 4);
    SkipsGrow(s, b, p + 2);
    SkipsGrow(s, b, p + 3);
    SkipsGrow(s, b, p + 4);
    SkipsGrow(s, b, p + 5);
  }

  lemma Utf8Length(n: nat)
    ensures n < 0x1_0000 ==> 1 <= |Utf8(n)| <= 3
    ensures n == 0 ==> |Utf8(n)| == 1
  {
  }

  lemma HexMeansDigits(s: string, p: nat)
    requires p + 4 <= |s| && ParseHex4(s, p) != 0
    ensures forall k :: p <= k < p + 4 ==> s[k] != BACKSLASH
  {
  }

  lemma {:induction false} UnitFits(s: string, b: nat, p: nat, end: nat, size: nat)
    requires p < end < |s| && s[end] == QUOTE && Fits(s, b, p, size) && UnitAt(s, p, end).Unit?
    ensures var unit := UnitAt(s, p, end);
        0 < unit.length && p + unit.length <= end + 1 && Fits(s, b, p + unit.length, size + |unit.text|)
  {
    var unit := UnitAt(s, p, end);
    if unit.length == 1 {
      SkipsGrow(s, b, p);
    } else if unit.length == 2 {
      SkipsByTwo(s, b, p);
    } else {
      var first := ParseHex4(s, p + 2);
      SkipsBySix(s, b, p);
      Utf8Length(first);
      if first != 0 {
        HexMeansDigits(s, p + 2);
      }
      if unit.length == 12 {
        SkipsBySix(s, b, p + 6);
        HexMeansDigits(s, p + 8);
      }
    }
  }

  /** Whatever fits at p also fits the space allocated for the whole body. */
  lemma {:induction false} FitsAllocation(s: string, b: nat, p: nat, end: nat, size: nat)
    requires p <= end + 1 <= |s| && s[end] == QUOTE && Fits(s, b, p, size)
    ensures b <= end + 1 && size + Skips(s, b, end) <= end + 1 - b
    decreases end + 1 - p
  {
    if p == end + 1 {
      if b <= end {
        SkipsGrow(s, b, end);
      }
    } else {
      SkipsGrow(s, b, p);
      FitsAllocation(s, b, p + 1, end, size);
    }
  }

  // ---- Round trip ----

  /** s stands in content at i. */
  ghost predicate At(content: string, i: nat, s: string) {
    i + |s| <= |content| && forall k {:trigger s[k]} :: 0 <= k < |s| ==> content[i + k] == s[k]
  }

  lemma AtChar(content: string, i: nat, s: string, k: nat)
    requires At(content, i, s) && k < |s|
    ensures content[i + k] == s[k]
  {
  }

  lemma AtSplit(content: string, i: nat, a: string, b: string)
    ensures At(content, i, a + b) <==> At(content, i, a) && At(content, i + |a|, b)
  {
    if At(content, i, a + b) {
      forall k | 0 <= k < |b|
        ensures content[i + |a| + k] == b[k]
      {
        assert (a + b)[|a| + k] == b[k];
      }
      assert forall k :: 0 <= k < |a| ==> (a + b)[k] == a[k];
    }
  }

  /** The printer's escapes in reverse. */
  lemma EscapeShape(c: char)
    requires c != NUL
    ensures var e := Escape(c);
        && (|e| == 1 ==> e[0] == c && c != BACKSLASH && c != QUOTE)
        && (|e| == 2 ==> e[0] == BACKSLASH && e[1] == ShortEscape(c) && ShortEscape(c) != NUL)
        && (|e| == 6 ==> c as nat < 32 && e[0] == BACKSLASH && e[1] == 'u' && e[2..] == Hex4(c as nat))
        && (|e| == 1 || |e| == 2 || |e| == 6)
  {
  }

  lemma DigitRoundTrip(n: nat)
    requires n < 16
    ensures HexValue(HexDigit(n)) == n
  {
  }

  lemma Nibbles(n: nat)
    requires n < 0x1_0000
    ensures n / 4096 < 16 && ((n / 4096 * 16 + n / 256 % 16) * 16 + n / 16 % 16) * 16 + n % 16 == n
  {
    assert n / 256 == n / 4096 * 16 + n / 256 % 16;
    assert n / 16 == n / 256 * 16 + n / 16 % 16;
  }

  /** Four hexadecimal digits are read back. */
  lemma HexRoundTrip(content: string, p: nat, n: nat)
    requires n < 0x1_0000 && At(content, p, Hex4(n))
    ensures ParseHex4(content, p) == n
  {
    AtChar(content, p, Hex4(n), 0);
    AtChar(content, p, Hex4(n), 1);
    AtChar(content, p, Hex4(n), 2);
    AtChar(content, p, Hex4(n), 3);
    Nibbles(n);
    DigitRoundTrip(n / 4096);
    DigitRoundTrip(n / 256 % 16);
    DigitRoundTrip(n / 16 % 16);
    DigitRoundTrip(n % 16);
  }

  lemma ConsFront(c: char, rest: string)
    requires rest != ""
    ensures ([c] + rest)[..|rest|] == [c] + rest[..|rest| - 1] && ([c] + rest)[|rest|] == rest[|rest| - 1]
  {
  }

  lemma {:induction false} EscapedCons(c: char, rest: string)
    ensures Escaped([c] + rest) == Escape(c) + Escaped(rest)
    decreases |rest|
  {
    if rest == "" {
      assert [c][..0] == "" && [c] + rest == [c];
    } else {
      var front := rest[..|rest| - 1];
      EscapedCons(c, front);
      ConsFront(c, rest);
      Regroup(Escape(c), Escaped(front), Escape(rest[|rest| - 1]));
    }
  }

  // ---- Surrogate pairs ----

  /** The UTF-16 code units of a code point (section 2.1 of RFC 2781). */
  function Utf16(cp: nat): (units: seq<nat>)
    requires cp < 0x11_0000
    ensures 1 <= |units| <= 2 && forall i :: 0 <= i < |units| ==> units[i] < 0x1_0000
  {
    if cp < 0x1_0000 then [cp] else [0xD800 + (cp - 0x1_0000) / 0x400, 0xDC00 + (cp - 0x1_0000) % 0x400]
  }

  lemma PairOfUnits(cp: nat, first: nat, second: nat)
    requires 0x1_0000 <= cp < 0x11_0000 && [first, second] == Utf16(cp)
    ensures 0xD800 <= first <= 0xDBFF && 0xDC00 <= second <= 0xDFFF && PairValue(first, second) == cp
  {
    var x := cp - 0x1_0000;
    var hi, lo := x / 0x400, x % 0x400;
    assert x == hi * 0x400 + lo && hi < 0x400;
    assert first == Utf16(cp)[0] && second == Utf16(cp)[1];
    assert (0xD800 + hi) % 0x400 == hi && (0xDC00 + lo) % 0x400 == lo;
  }

  ghost predicate NoNul(s: string) {
    forall i :: 0 <= i < |s| ==> s[i] != NUL
  }
}
