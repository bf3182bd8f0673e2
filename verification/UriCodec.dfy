/** Percent-encoding of URI components, on one-byte characters that are signed. */
module UriCodec {

  // A character is one byte, and one above 127 is a negative number.
  predicate SevenBit(c: char) {
    c as int < 128
  }

  ghost predicate AllSevenBit(s: string) {
    forall i :: 0 <= i < |s| ==> SevenBit(s[i])
  }

  const SPACE_SEPARATOR: char := '+'
  const ESCAPE_CHAR: char := '%'

  /** The characters section 2.3 of RFC 3986 leaves unreserved. */
  predicate Unreserved(c: char) {
    '0' <= c <= '9' || 'a' <= c <= 'z' || 'A' <= c <= 'Z' || c in {'-', '.', '_', '~'}
  }

  function HexDigit(v: nat): (c: char)
    requires v < 16
    ensures '0' <= c <= '9' || 'A' <= c <= 'F'
    ensures HexValue(c) == v
  {
    if v < 10 then ('0' as int + v) as char else ('A' as int + v - 10) as char
  }

  /** The lookup table; characters that are not hexadecimal digits count as zero. */
  function HexValue(c: char): (v: nat)
    ensures v < 16
  {
    if '1' <= c <= '9' then c as int - '0' as int
    else if 'a' <= c <= 'f' then c as int - 'a' as int + 10
    else if 'A' <= c <= 'F' then c as int - 'A' as int + 10
    else 0
  }

  /** Two hexadecimal digits, or eight for a negative value, which is widened to 32 bits before printing. */
  function ToHexString(c: char): (s: string) {
    var two := [HexDigit(c as int / 16 % 16), HexDigit(c as int % 16)];
    if SevenBit(c) then two else "FFFFFF" + two
  }

  function CharFromHex(upper: char, lower: char): char {
    (HexValue(upper) * 16 + HexValue(lower)) as char
  }

  function EncodeChar(c: char): string {
    if Unreserved(c) then [c]
    else if c == ' ' then [SPACE_SEPARATOR]
    else [ESCAPE_CHAR] + ToHexString(c)
  }

  function Encoded(s: string): string {
    if s == [] then [] else EncodeChar(s[0]) + Encoded(s[1..])
  }

  function Decoded(s: string): string {
    if s == [] then []
    else if s[0] == SPACE_SEPARATOR then [' '] + Decoded(s[1..])
    else if s[0] == ESCAPE_CHAR && |s| > 2 then [CharFromHex(s[1], s[2])] + Decoded(s[3..])
    else [s[0]] + Decoded(s[1..])
  }

  lemma EncodedStep(s: string, i: nat, done: string)
    requires i < |s|
    ensures done + Encoded(s[i..]) == (done + EncodeChar(s[i])) + Encoded(s[i + 1..])
  {
  }

  method Encode(input: string) returns (result: string)
    ensures result == Encoded(input)
  {
    hide Encoded, ToHexString, Unreserved;
    result := [];
    NothingEncoded();
    for i := 0 to |input|
      invariant result + Encoded(input[i..]) == Encoded(input)
    {
      EncodedStep(input, i, result);
      var c := input[i];
      if Unreserved(c) {
        result := result + [c];
      } else if c == ' ' {
        result := result + [SPACE_SEPARATOR];
      } else {
        result := result + ([ESCAPE_CHAR] + ToHexString(c));
      }
    }
    assert input[|input|..] == [];
  }

  lemma NothingEncoded()
    ensures Encoded([]) == []
  {
  }

  /** Decode the first character or escape of a text; width is how much of the text it takes up. */
  function DecodeFirst(s: string): (r: (char, nat))
    requires s != ""
    ensures 0 < r.1 <= |s|
  {
    if s[0] == SPACE_SEPARATOR then (' ', 1)
    else if s[0] == ESCAPE_CHAR && |s| > 2 then (CharFromHex(s[1], s[2]), 3)
    else (s[0], 1)
  }

  lemma DecodedStep(s: string, index: nat, done: string)
    requires index < |s|
    ensures var (c, width) := DecodeFirst(s[index..]);
            done + Decoded(s[index..]) == (done + [c]) + Decoded(s[index + width..])
  {
  }

  method Decode(input: string) returns (result: string)
    ensures result == Decoded(input)
  {
    hide Decoded, CharFromHex;
    result := [];
    var index := 0;
    NothingDecoded();
    assert input[0..] == input;
    while index < |input|
      invariant 0 <= index <= |input|
      invariant result + Decoded(input[index..]) == Decoded(input)
    {
      DecodedStep(input, index, result);
      if input[index] == SPACE_SEPARATOR {
        result := result + [' '];
      } else if input[index] == ESCAPE_CHAR && |input| > index + 2 {
        result := result + [CharFromHex(input[index + 1], input[index + 2])];
        index := index + 2;
      } else {
        result := result + [input[index]];
      }
      index := index + 1;
    }
    assert input[index..] == [];
  }

  lemma NothingDecoded()
    ensures Decoded([]) == []
  {
  }

  // ---------- Single characters ----------

  const UPPER_CASE: string := "ABCDEFGHIJKLMNOPQRSTUVWXYZ"
  const LOWER_CASE: string := "abcdefghijklmnopqrstuvwxyz"

  lemma UpperCase(c: char)
    ensures c in UPPER_CASE <==> 'A' <= c <= 'Z'
  {
    if 'A' <= c <= 'Z' { assert UPPER_CASE[c as int - 'A' as int] == c; }
  }

  lemma LowerCase(c: char)
    ensures c in LOWER_CASE <==> 'a' <= c <= 'z'
  {
    if 'a' <= c <= 'z' { assert LOWER_CASE[c as int - 'a' as int] == c; }
  }

  lemma DigitsAndMarks(c: char)
    ensures c in "0123456789-._~" <==> '0' <= c <= '9' || c in {'-', '.', '_', '~'}
  {
    if '0' <= c <= '9' { assert "0123456789-._~"[c as int - '0' as int] == c; }
    assert "0123456789-._~"[10] == '-' && "0123456789-._~"[11] == '.';
    assert "0123456789-._~"[12] == '_' && "0123456789-._~"[13] == '~';
  }

  // Unreserved are the letters, the digits and four marks.
  lemma UnreservedExact(c: char)
    ensures Unreserved(c) <==> c in UPPER_CASE || c in LOWER_CASE || c in "0123456789-._~"
  {
    hide UPPER_CASE, LOWER_CASE;
    UpperCase(c);
    LowerCase(c);
    DigitsAndMarks(c);
  }

  const UPPER_DIGITS: string := "0123456789ABCDEF"
  const LOWER_DIGITS: string := "0123456789abcdef"

  // Both cases of a hexadecimal digit are read, and the upper one is written.
  lemma HexDigits(v: nat)
    requires v < 16
    ensures |UPPER_DIGITS| == |LOWER_DIGITS| == 16
    ensures HexDigit(v) == UPPER_DIGITS[v] && HexValue(UPPER_DIGITS[v]) == v == HexValue(LOWER_DIGITS[v])
  {
  }

  /** Text is stored as it is exactly if all of it is unreserved. */
  lemma {:induction false} EncodedUnchangedIff(s: string)
    ensures |Encoded(s)| >= |s|
    ensures Encoded(s) == s <==> forall i :: 0 <= i < |s| ==> Unreserved(s[i])
  {
    if s != [] {
      hide Unreserved;
      EncodedUnchangedIff(s[1..]);
      EncodeCharLength(s[0]);
      assert s == [s[0]] + s[1..];
      if Encoded(s) == s {
        assert Unreserved(s[0]);
        assert Encoded(s)[1..] == Encoded(s[1..]);
      }
    }
  }

  lemma EncodeCharLength(c: char)
    ensures EncodeChar(c) != [] && (Unreserved(c) <==> EncodeChar(c) == [c])
    ensures |EncodeChar(c)| == 1 && !Unreserved(c) ==> c == ' '
  {
  }

  /** A space becomes a plus sign, and any other seven-bit character two upper-case digits behind a percent sign. */
  lemma ReservedIsEscaped(c: char)
    requires !Unreserved(c) && SevenBit(c)
    ensures EncodeChar(c) == if c == ' ' then "+" else ['%', UPPER_DIGITS[c as int / 16], UPPER_DIGITS[c as int % 16]]
  {
    hide UPPER_DIGITS, LOWER_DIGITS, HexDigit;
    HexDigits(c as int / 16);
    HexDigits(c as int % 16);
  }

  /** An escape is read in either case, and a plus sign as a space. */
  lemma EscapesAreRead(v: nat, rest: string)
    requires v < 0x100
    ensures Decoded(['%', UPPER_DIGITS[v / 16], UPPER_DIGITS[v % 16]] + rest) == [v as char] + Decoded(rest)
    ensures Decoded(['%', LOWER_DIGITS[v / 16], LOWER_DIGITS[v % 16]] + rest) == [v as char] + Decoded(rest)
    ensures Decoded("+" + rest) == " " + Decoded(rest)
  {
    hide Decoded, UPPER_DIGITS, LOWER_DIGITS, HexDigit;
    HexDigits(v / 16);
    HexDigits(v % 16);
    DecodeEscape(UPPER_DIGITS[v / 16], UPPER_DIGITS[v % 16], rest);
    DecodeEscape(LOWER_DIGITS[v / 16], LOWER_DIGITS[v % 16], rest);
    DecodeSpace(rest);
  }

  /** What one character becomes when it is encoded and decoded again. */
  function RoundTrip(c: char): (r: string)
    ensures SevenBit(c) ==> r == [c]
    ensures !SevenBit(c) ==> |r| == 7
  {
    if SevenBit(c) then [c]
    else [255 as char, 'F', 'F', 'F', 'F', HexDigit(c as int / 16 % 16), HexDigit(c as int % 16)]
  }

  lemma DecodePlain(c: char, rest: string)
    requires c != SPACE_SEPARATOR && c != ESCAPE_CHAR
    ensures Decoded([c] + rest) == [c] + Decoded(rest)
  {
  }

  lemma DecodeEscape(upper: char, lower: char, rest: string)
    ensures Decoded([ESCAPE_CHAR, upper, lower] + rest) == [CharFromHex(upper, lower)] + Decoded(rest)
  {
  }

  lemma HexDigitsOf(c: char)
    requires SevenBit(c)
    ensures CharFromHex(HexDigit(c as int / 16 % 16), HexDigit(c as int % 16)) == c
  {
    hide HexDigit, HexValue;
  }

  lemma DecodeSevenBit(c: char, rest: string)
    requires SevenBit(c)
    ensures Decoded([ESCAPE_CHAR] + ToHexString(c) + rest) == [c] + Decoded(rest)
  {
    hide Decoded, HexDigit, CharFromHex;
    var upper, lower := HexDigit(c as int / 16 % 16), HexDigit(c as int % 16);
    DecodeEscape(upper, lower, rest);
    HexDigitsOf(c);
    assert [ESCAPE_CHAR] + ToHexString(c) + rest == [ESCAPE_CHAR, upper, lower] + rest;
  }

  lemma DecodeEightBit(c: char, rest: string)
    requires !SevenBit(c)
    ensures Decoded([ESCAPE_CHAR] + ToHexString(c) + rest) == RoundTrip(c) + Decoded(rest)
  {
    hide Decoded, HexDigit, CharFromHex;
    var upper, lower := HexDigit(c as int / 16 % 16), HexDigit(c as int % 16);
    var two := [upper, lower] + rest;
    DecodeEscape('F', 'F', ['F', 'F', 'F', 'F'] + two);
    AllOnes();
    assert [ESCAPE_CHAR] + ToHexString(c) + rest == [ESCAPE_CHAR, 'F', 'F'] + (['F', 'F', 'F', 'F'] + two);
    DecodeFourAndTwo(upper, lower, rest);
    assert [255 as char] + (['F', 'F', 'F', 'F', upper, lower] + Decoded(rest)) == RoundTrip(c) + Decoded(rest);
  }

  lemma AllOnes()
    ensures CharFromHex('F', 'F') == 255 as char
  {
  }

  lemma DecodeEncodedChar(c: char, rest: string)
    ensures Decoded(EncodeChar(c) + rest) == RoundTrip(c) + Decoded(rest)
  {
    hide Decoded, ToHexString, RoundTrip;
    if Unreserved(c) {
      DecodePlain(c, rest);
    } else if c == ' ' {
      DecodeSpace(rest);
    } else if SevenBit(c) {
      DecodeSevenBit(c, rest);
    } else {
      DecodeEightBit(c, rest);
    }
  }

  lemma DecodeSpace(rest: string)
    ensures Decoded([SPACE_SEPARATOR] + rest) == [' '] + Decoded(rest)
  {
  }

  lemma DecodeFourAndTwo(upper: char, lower: char, rest: string)
    requires upper !in {'+', '%'} && lower !in {'+', '%'}
    ensures Decoded(['F', 'F', 'F', 'F'] + ([upper, lower] + rest)) == ['F', 'F', 'F', 'F', upper, lower] + Decoded(rest)
  {
    hide Decoded;
    var r1, r2 := [lower] + rest, [upper, lower] + rest;
    assert r2 == [upper] + r1;
    DecodePlain(lower, rest);
    DecodePlain(upper, r1);
    DecodePlain('F', r2);
    DecodePlain('F', ['F'] + r2);
    DecodePlain('F', ['F', 'F'] + r2);
    DecodePlain('F', ['F', 'F', 'F'] + r2);
    assert ['F'] + (['F'] + r2) == ['F', 'F'] + r2;
    assert ['F'] + (['F', 'F'] + r2) == ['F', 'F', 'F'] + r2;
    assert ['F'] + (['F', 'F', 'F'] + r2) == ['F', 'F', 'F', 'F'] + r2;
  }

  /** Decoding undoes encoding exactly for text without characters above 127; those become seven characters. */
  lemma {:induction false} DecodeEncode(s: string)
    ensures Decoded(Encoded(s)) == s <==> AllSevenBit(s)
    ensures |Decoded(Encoded(s))| >= |s|
    ensures |Decoded(Encoded(s))| == |s| <==> AllSevenBit(s)
  {
    if s != [] {
      DecodeEncodedChar(s[0], Encoded(s[1..]));
      DecodeEncode(s[1..]);
      assert AllSevenBit(s) <==> SevenBit(s[0]) && AllSevenBit(s[1..]);
    }
  }

  /** Encoded text is made of unreserved characters, escapes and plus signs: it holds no delimiter. */
  lemma {:induction false} EncodedHasNoDelimiters(s: string, c: char)
    requires c in Encoded(s)
    ensures Unreserved(c) || c == '+' || c == '%'
  {
    if s != [] && c in Encoded(s[1..]) {
      EncodedHasNoDelimiters(s[1..], c);
    }
  }
}
