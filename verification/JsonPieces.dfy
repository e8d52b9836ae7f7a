/**
 * Strings in any spelling: each character as it is, as a short escape, or as
 * the escapes of its UTF-16 units.
 */
module JsonPieces {
  import opened Strings
  import opened Utf8Text
  import opened JsonString

  /** digits are those of the escapes, four for each unit, in either case. */
  datatype Piece = Raw(c: char) | Short(letter: char) | Unicode(cp: nat, digits: string)

  predicate IsShort(letter: char) {
    letter in ['b', 'f', 'n', 'r', 't', QUOTE, BACKSLASH, '/']
  }

  function ShortMeaning(letter: char): char {
    if letter == 'b' then BACKSPACE
    else if letter == 'f' then FORM_FEED
    else if letter == 'n' then '\n'
    else if letter == 'r' then '\r'
    else if letter == 't' then '\t'
    else letter
  }

  /** A code point that is neither zero nor a surrogate, and the digits of its units. */
  predicate Spells(cp: nat, digits: string) {
    && 0 < cp < 0x11_0000 && !(0xD800 <= cp < 0xE000) && |digits| == 4 * |Utf16(cp)|
    && ParseHex4(digits, 0) == Utf16(cp)[0]
    && (|digits| == 8 ==> ParseHex4(digits, 4) == Utf16(cp)[1])
  }

  predicate Good(x: Piece) {
    match x
    case Raw(c) => c != QUOTE && c != BACKSLASH && c != NUL
    case Short(letter) => IsShort(letter)
    case Unicode(cp, digits) => Spells(cp, digits)
  }

  function UnitText(digits: string): string {
    [BACKSLASH, 'u'] + digits
  }

  function PieceText(x: Piece): string {
    match x
    case Raw(c) => [c]
    case Short(letter) => [BACKSLASH, letter]
    case Unicode(_, digits) =>
      if |digits| == 8 then UnitText(digits[..4]) + UnitText(digits[4..]) else UnitText(digits)
  }

  function PieceMeaning(x: Piece): string {
    match x
    case Raw(c) => [c]
    case Short(letter) => [ShortMeaning(letter)]
    case Unicode(cp, _) => Utf8(cp)
  }

  function PiecesText(xs: seq<Piece>): string {
    if xs == [] then "" else PieceText(xs[0]) + PiecesText(xs[1..])
  }

  function PiecesMeaning(xs: seq<Piece>): string {
    if xs == [] then "" else PieceMeaning(xs[0]) + PiecesMeaning(xs[1..])
  }

  predicate AllGood(xs: seq<Piece>) {
    forall i :: 0 <= i < |xs| ==> Good(xs[i])
  }

  function InQuotes(xs: seq<Piece>): string {
    [QUOTE] + (PiecesText(xs) + [QUOTE])
  }

  // ---- One piece ----

  lemma HexAt(content: string, p: nat, digits: string)
    requires |digits| == 4 && At(content, p, digits)
    ensures ParseHex4(content, p) == ParseHex4(digits, 0)
  {
    AtChar(content, p, digits, 0);
    AtChar(content, p, digits, 1);
    AtChar(content, p, digits, 2);
    AtChar(content, p, digits, 3);
  }

  /** The escape of one unit stands at p. */
  lemma UnitStands(content: string, p: nat, digits: string)
    requires |digits| == 4 && At(content, p, UnitText(digits)) && ParseHex4(digits, 0) > 0
    ensures p + 6 <= |content| && content[p] == BACKSLASH && content[p + 1] == 'u'
    ensures ParseHex4(content, p + 2) == ParseHex4(digits, 0)
    ensures StringEnd(content, p) == StringEnd(content, p + 6)
  {
    AtSplit(content, p, [BACKSLASH, 'u'], digits);
    AtChar(content, p, [BACKSLASH, 'u'], 0);
    AtChar(content, p, [BACKSLASH, 'u'], 1);
    HexAt(content, p + 2, digits);
    assert StringEnd(content, p) == StringEnd(content, p + 2);
    FourDigits(content, p + 2);
  }

  /** The first pass runs over hexadecimal digits. */
  lemma FourDigits(content: string, p: nat)
    requires p + 4 <= |content| && ParseHex4(content, p) > 0
    ensures StringEnd(content, p) == StringEnd(content, p + 4)
  {
    assert StringEnd(content, p) == StringEnd(content, p + 1);
    assert StringEnd(content, p + 1) == StringEnd(content, p + 2);
    assert StringEnd(content, p + 2) == StringEnd(content, p + 3);
  }

  lemma SecondHalf(digits: string)
    requires |digits| == 8
    ensures ParseHex4(digits, 0) == ParseHex4(digits[..4], 0) && ParseHex4(digits, 4) == ParseHex4(digits[4..], 0)
  {
  }

  /** The escapes of a code point, one or two, stand at p. */
  lemma {:induction false} UnicodeStands(content: string, p: nat, cp: nat, digits: string)
    requires Spells(cp, digits) && At(content, p, PieceText(Unicode(cp, digits)))
    ensures p + 6 * |Utf16(cp)| <= |content| && |PieceText(Unicode(cp, digits))| == 6 * |Utf16(cp)|
    ensures content[p] == BACKSLASH && content[p + 1] == 'u' && ParseHex4(content, p + 2) == Utf16(cp)[0]
    ensures |Utf16(cp)| == 2 ==> content[p + 6] == BACKSLASH && content[p + 7] == 'u' && ParseHex4(content, p + 8) == Utf16(cp)[1]
    ensures StringEnd(content, p) == StringEnd(content, p + 6 * |Utf16(cp)|)
  {
    if |digits| == 8 {
      SecondHalf(digits);
      AtSplit(content, p, UnitText(digits[..4]), UnitText(digits[4..]));
      UnitStands(content, p, digits[..4]);
      UnitStands(content, p + 6, digits[4..]);
    } else {
      UnitStands(content, p, digits);
    }
  }

  /** The second pass reads a code point from its units. */
  lemma {:induction false} UnicodeRead(content: string, p: nat, end: nat, cp: nat)
    requires 0 < cp < 0x11_0000 && !(0xD800 <= cp < 0xE000) && p + 6 * |Utf16(cp)| <= end <= |content|
    requires ParseHex4(content, p + 2) == Utf16(cp)[0]
    requires |Utf16(cp)| == 2 ==> content[p + 6] == BACKSLASH && content[p + 7] == 'u' && ParseHex4(content, p + 8) == Utf16(cp)[1]
    ensures Utf16Literal(content, p, end) == Literal(6 * |Utf16(cp)|, Utf8(cp))
  {
    if cp >= 0x1_0000 {
      PairOfUnits(cp, Utf16(cp)[0], Utf16(cp)[1]);
    }
  }

  lemma ShortRead(content: string, p: nat, end: nat, letter: char)
    requires IsShort(letter) && At(content, p, [BACKSLASH, letter]) && p + 2 <= end < |content|
    ensures UnitAt(content, p, end) == Unit(2, [ShortMeaning(letter)])
  {
    AtChar(content, p, [BACKSLASH, letter], 0);
    AtChar(content, p, [BACKSLASH, letter], 1);
  }

  /** The second pass reads a piece as what it means, and the first runs over it. */
  lemma {:induction false} PieceRead(content: string, p: nat, end: nat, x: Piece)
    requires Good(x) && At(content, p, PieceText(x)) && p + |PieceText(x)| <= end < |content|
    ensures |PieceText(x)| > 0 && UnitAt(content, p, end) == Unit(|PieceText(x)|, PieceMeaning(x))
  {
    AtChar(content, p, PieceText(x), 0);
    match x
    case Raw(_) =>
    case Short(letter) =>
      ShortRead(content, p, end, letter);
    case Unicode(cp, digits) =>
      UnicodeStands(content, p, cp, digits);
      UnicodeRead(content, p, end, cp);
  }

  lemma {:induction false} PieceScanned(content: string, p: nat, x: Piece)
    requires Good(x) && At(content, p, PieceText(x))
    ensures p + |PieceText(x)| <= |content| && StringEnd(content, p) == StringEnd(content, p + |PieceText(x)|)
  {
    AtChar(content, p, PieceText(x), 0);
    match x
    case Raw(_) =>
    case Short(_) =>
    case Unicode(cp, digits) => UnicodeStands(content, p, cp, digits);
  }

  // ---- Whole strings ----

  /** The first piece stands in front of the others. */
  lemma FirstPiece(content: string, p: nat, xs: seq<Piece>, tail: string)
    requires xs != [] && At(content, p, PiecesText(xs) + tail)
    ensures At(content, p, PieceText(xs[0])) && At(content, p + |PieceText(xs[0])|, PiecesText(xs[1..]) + tail)
    ensures |PiecesText(xs)| == |PieceText(xs[0])| + |PiecesText(xs[1..])|
  {
    Regroup(PieceText(xs[0]), PiecesText(xs[1..]), tail);
    AtSplit(content, p, PieceText(xs[0]), PiecesText(xs[1..]) + tail);
  }

  /** The first pass runs over the pieces to the quote behind them. */
  lemma {:induction false} PiecesEnd(content: string, p: nat, xs: seq<Piece>)
    requires AllGood(xs) && At(content, p, PiecesText(xs) + [QUOTE])
    ensures p + |PiecesText(xs)| < |content| && StringEnd(content, p) == p + |PiecesText(xs)|
    decreases |xs|
  {
    if xs == [] {
      AtChar(content, p, PiecesText(xs) + [QUOTE], 0);
    } else {
      FirstPiece(content, p, xs, [QUOTE]);
      PieceScanned(content, p, xs[0]);
      PiecesEnd(content, p + |PieceText(xs[0])|, xs[1..]);
    }
  }

  lemma DecodeOne(content: string, p: nat, end: nat, n: nat, text: string, out: string)
    requires p < end < |content| && n > 0 && UnitAt(content, p, end) == Unit(n, text)
    ensures DecodeBody(content, p, end, out) == DecodeBody(content, p + n, end, out + text)
  {
  }

  /** The second pass gives what the pieces mean. */
  lemma {:induction false} PiecesDecoded(content: string, p: nat, end: nat, xs: seq<Piece>, out: string, all: string)
    requires AllGood(xs) && At(content, p, PiecesText(xs)) && end == p + |PiecesText(xs)| < |content|
    requires all == out + PiecesMeaning(xs)
    ensures DecodeBody(content, p, end, out) == Decoded(all)
    decreases |xs|
  {
    if xs != [] {
      AtSplit(content, p, PieceText(xs[0]), PiecesText(xs[1..]));
      PieceRead(content, p, end, xs[0]);
      DecodeOne(content, p, end, |PieceText(xs[0])|, PieceMeaning(xs[0]), out);
      Regroup(out, PieceMeaning(xs[0]), PiecesMeaning(xs[1..]));
      PiecesDecoded(content, p + |PieceText(xs[0])|, end, xs[1..], out + PieceMeaning(xs[0]), all);
    }
  }

  /** Both passes over a string, however it is spelled, give what it means, and stop behind it. */
  lemma {:induction false} StringRoundTrip(content: string, p: nat, xs: seq<Piece>)
    requires AllGood(xs) && At(content, p, InQuotes(xs))
    ensures p + 1 <= |content| && content[p] == QUOTE
    ensures StringEnd(content, p + 1) + 1 == p + |InQuotes(xs)| <= |content|
    ensures DecodeBody(content, p + 1, StringEnd(content, p + 1), "") == Decoded(PiecesMeaning(xs))
  {
    AtSplit(content, p, [QUOTE], PiecesText(xs) + [QUOTE]);
    AtChar(content, p, [QUOTE], 0);
    AtSplit(content, p + 1, PiecesText(xs), [QUOTE]);
    PiecesEnd(content, p + 1, xs);
    assert "" + PiecesMeaning(xs) == PiecesMeaning(xs);
    PiecesDecoded(content, p + 1, StringEnd(content, p + 1), xs, "", PiecesMeaning(xs));
  }

  // ---- What the printer writes ----

  function PieceOf(c: char): Piece {
    if ShortEscape(c) != NUL then Short(ShortEscape(c))
    else if c as nat < 32 then Unicode(c as nat, Hex4(c as nat))
    else Raw(c)
  }

  function PiecesOf(s: string): (xs: seq<Piece>)
    ensures |xs| == |s|
  {
    if s == "" then [] else [PieceOf(s[0])] + PiecesOf(s[1..])
  }

  lemma PieceOfChar(c: char)
    requires c != NUL
    ensures Good(PieceOf(c)) && PieceText(PieceOf(c)) == Escape(c) && PieceMeaning(PieceOf(c)) == [c]
  {
    if ShortEscape(c) == NUL && c as nat < 32 {
      var digits := Hex4(c as nat);
      assert At(digits, 0, digits);
      HexRoundTrip(digits, 0, c as nat);
    }
  }

  /** The printer's escapes spell the string. */
  lemma {:induction false} EscapedIsPieces(s: string)
    requires NoNul(s)
    ensures AllGood(PiecesOf(s)) && PiecesText(PiecesOf(s)) == Escaped(s) && PiecesMeaning(PiecesOf(s)) == s
  {
    if s != "" {
      var xs := PiecesOf(s);
      PieceOfChar(s[0]);
      EscapedIsPieces(s[1..]);
      assert xs[1..] == PiecesOf(s[1..]);
      EscapedCons(s[0], s[1..]);
      assert s == [s[0]] + s[1..];
    }
  }

  lemma {:induction false} QuotedIsPieces(s: string)
    requires NoNul(s)
    ensures AllGood(PiecesOf(s)) && InQuotes(PiecesOf(s)) == Quoted(s) && PiecesMeaning(PiecesOf(s)) == s
  {
    EscapedIsPieces(s);
    Regroup([QUOTE], Escaped(s), [QUOTE]);
  }
}
