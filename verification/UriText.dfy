/** The pieces of text a URI is cut into: spans up to a delimiter, decimal numbers and query parameters. */
module UriText {
  import opened Words

  ghost predicate Free(s: string, stop: set<char>) {
    forall i :: 0 <= i < |s| ==> s[i] !in stop
  }

  /** How many characters come before the first one in stop. */
  function Span(s: string, stop: set<char>): (k: nat)
    ensures k <= |s| && Free(s[..k], stop)
    ensures k < |s| ==> s[k] in stop
  {
    if s == [] || s[0] in stop then 0
    else
      var k := Span(s[1..], stop) + 1;
      assert s[..k] == [s[0]] + s[1..][..k - 1];
      k
  }

  lemma {:induction false} SpanIs(a: string, b: string, stop: set<char>)
    requires Free(a, stop) && (b == "" || b[0] in stop)
    ensures Span(a + b, stop) == |a|
  {
    if a == "" {
      assert a + b == b;
    } else {
      assert (a + b)[1..] == a[1..] + b;
      SpanIs(a[1..], b, stop);
    }
  }

  // What follows does not matter if a delimiter comes first in it.
  lemma SpanBefore(a: string, b: string, stop: set<char>)
    requires b == "" || b[0] in stop
    ensures var k := Span(a, stop);
            Span(a + b, stop) == k && (a + b)[..k] == a[..k] && (a + b)[k..] == a[k..] + b
  {
    var k := Span(a, stop);
    assert a + b == a[..k] + (a[k..] + b);
    SpanIs(a[..k], a[k..] + b, stop);
  }

  // ---------- Numbers ----------

  predicate IsDigit(c: char) {
    '0' <= c <= '9'
  }

  predicate AllDigits(s: string) {
    forall i :: 0 <= i < |s| ==> IsDigit(s[i])
  }

  predicate IsNumber(s: string) {
    s != "" && AllDigits(s)
  }

  function Digit(d: nat): (c: char)
    requires d < 10
    ensures IsDigit(c) && c as int - '0' as int == d
  {
    ('0' as int + d) as char
  }

  function Decimal(n: nat): (s: string)
    ensures IsNumber(s)
  {
    if n < 10 then [Digit(n)] else Decimal(n / 10) + [Digit(n % 10)]
  }

  function DigitsValue(s: string): nat
    requires AllDigits(s)
  {
    if s == "" then 0 else 10 * DigitsValue(s[..|s| - 1]) + (s[|s| - 1] as int - '0' as int)
  }

  lemma {:induction false} DecimalValue(n: nat)
    ensures DigitsValue(Decimal(n)) == n
  {
    if n < 10 {
      assert Decimal(n)[..0] == "";
    } else {
      DecimalValue(n / 10);
      assert Decimal(n)[..|Decimal(n)| - 1] == Decimal(n / 10);
    }
  }

  /** A number read, or one of the two exceptions. */
  datatype Number = Number(value: nat) | NotANumber | OutOfRange

  predicate IsSpace(c: char) {
    c == ' ' || 9 as char <= c <= 13 as char
  }

  function SkipSpaces(s: string): string {
    if s != "" && IsSpace(s[0]) then SkipSpaces(s[1..]) else s
  }

  function LeadingDigits(s: string): (d: string)
    ensures AllDigits(d) && d <= s
    ensures AllDigits(s) ==> d == s
  {
    if s == "" || !IsDigit(s[0]) then ""
    else
      assert AllDigits(s) ==> AllDigits(s[1..]);
      [s[0]] + LeadingDigits(s[1..])
  }

  /**
   * Reading an unsigned 64-bit number: spaces, a sign, digits; whatever follows is ignored and a
   * negative number wraps around.
   */
  function Stoul(s: string): (n: Number)
    ensures n.Number? ==> n.value < TWO_TO_THE_64
  {
    var t := SkipSpaces(s);
    var digits := LeadingDigits(if t != "" && t[0] in {'+', '-'} then t[1..] else t);
    if digits == "" then NotANumber
    else
      var v := DigitsValue(digits);
      if v >= TWO_TO_THE_64 then OutOfRange
      else Number(if t[0] == '-' then Wrap(-(v as int)) else v)
  }

  lemma StoulDecimal(n: nat)
    requires n < TWO_TO_THE_64
    ensures Stoul(Decimal(n)) == Number(n)
  {
    DecimalValue(n);
    var s := Decimal(n);
    assert IsDigit(s[0]);
    assert SkipSpaces(s) == s;
  }

  ghost predicate AllSpaces(s: string) {
    forall i :: 0 <= i < |s| ==> s[i] in {' ', '\t', '\n', '\r', 11 as char, 12 as char}
  }

  lemma {:induction false} SpacesSkipped(spaces: string, s: string)
    requires AllSpaces(spaces) && (s == "" || !IsSpace(s[0]))
    ensures SkipSpaces(spaces + s) == s
  {
    if spaces == "" {
      assert spaces + s == s;
    } else {
      assert (spaces + s)[1..] == spaces[1..] + s;
      SpacesSkipped(spaces[1..], s);
    }
  }

  lemma {:induction false} DigitsFound(digits: string, rest: string)
    requires AllDigits(digits) && (rest == "" || !IsDigit(rest[0]))
    ensures LeadingDigits(digits + rest) == digits
  {
    if digits == "" {
      assert digits + rest == rest;
    } else {
      assert (digits + rest)[1..] == digits[1..] + rest;
      DigitsFound(digits[1..], rest);
    }
  }

  /** Spaces and a sign may come before the digits and anything else after them; a negative number wraps around. */
  lemma StoulReads(spaces: string, sign: string, digits: string, rest: string)
    requires AllSpaces(spaces) && sign in {"", "+", "-"} && AllDigits(digits) && (rest == "" || !IsDigit(rest[0]))
    requires digits == "" && sign == "" ==> rest == "" || (!IsSpace(rest[0]) && rest[0] !in {'+', '-'})
    ensures var v := DigitsValue(digits);
            Stoul(spaces + (sign + (digits + rest)))
            == if digits == "" then NotANumber
               else if v >= TWO_TO_THE_64 then OutOfRange
               else Number(if sign == "-" && v > 0 then TWO_TO_THE_64 - v else v)
  {
    hide DigitsValue, LeadingDigits;
    var t := sign + (digits + rest);
    SpacesSkipped(spaces, t);
    DigitsFound(digits, rest);
    if sign == "" {
      assert t == digits + rest;
    } else {
      assert t[1..] == digits + rest && t[0] == sign[0];
    }
  }

  // ---------- Query parameters ----------

  type Parameter = (string, string)

  /** The lines getline reads with '&' as its delimiter: nothing follows a final delimiter. */
  function Tokens(s: string): seq<string>
    decreases |s|
  {
    if s == "" then []
    else
      var k := Span(s, {'&'});
      if k < |s| then [s[..k]] + Tokens(s[k + 1..]) else [s]
  }

  function ParameterOf(token: string): Parameter {
    var k := Span(token, {'='});
    (token[..k], if k < |token| then token[k + 1..] else "")
  }

  function ParametersOf(tokens: seq<string>): (ps: seq<Parameter>)
    ensures |ps| == |tokens|
  {
    seq(|tokens|, i requires 0 <= i < |tokens| => ParameterOf(tokens[i]))
  }

  function ParameterText(p: Parameter): string {
    p.0 + if p.1 == "" then "" else "=" + p.1
  }

  function Join(ps: seq<Parameter>): string {
    if ps == [] then ""
    else if |ps| == 1 then ParameterText(ps[0])
    else ParameterText(ps[0]) + "&" + Join(ps[1..])
  }

  /** Keys and values without the delimiters that end them. */
  ghost predicate FreeParameters(ps: seq<Parameter>) {
    forall i :: 0 <= i < |ps| ==> FreeParameter(ps[i])
  }

  ghost predicate FreeParameter(p: Parameter) {
    Free(p.0, {'=', '&', '#'}) && Free(p.1, {'&', '#'})
  }

  /** An empty last parameter is printed as nothing. */
  ghost predicate EndsEmpty(ps: seq<Parameter>) {
    ps != [] && ps[|ps| - 1] == ("", "")
  }

  lemma ParameterRoundTrip(p: Parameter)
    requires FreeParameter(p)
    ensures ParameterOf(ParameterText(p)) == p
  {
    var rest := if p.1 == "" then "" else "=" + p.1;
    SpanIs(p.0, rest, {'='});
    assert ParameterText(p)[..|p.0|] == p.0;
    if p.1 != "" {
      assert ParameterText(p)[|p.0| + 1..] == p.1;
    }
  }

  lemma TextFree(p: Parameter)
    requires FreeParameter(p)
    ensures Free(ParameterText(p), {'&'}) && Free(ParameterText(p), {'#'})
  {
  }

  // The first token of joined parameters is the first parameter's text.
  lemma TokensOfTwo(t: string, rest: string)
    requires Free(t, {'&'})
    ensures Tokens(t + "&" + rest) == [t] + Tokens(rest)
  {
    var s := t + "&" + rest;
    assert s == t + ("&" + rest);
    SpanIs(t, "&" + rest, {'&'});
    assert s[..|t|] == t && s[|t| + 1..] == rest;
  }

  lemma TokensOfOne(t: string)
    requires Free(t, {'&'})
    ensures Tokens(t) == if t == "" then [] else [t]
  {
  }

  lemma JoinFree(t: string, rest: string)
    requires Free(t, {'#'}) && Free(rest, {'#'})
    ensures Free(t + "&" + rest, {'#'})
  {
  }

  lemma ReadFirst(p: Parameter, rest: string)
    requires FreeParameter(p)
    ensures ParametersOf(Tokens(ParameterText(p) + "&" + rest)) == [p] + ParametersOf(Tokens(rest))
  {
    hide Tokens, ParameterText, ParameterOf, Free, FreeParameter;
    TextFree(p);
    ParameterRoundTrip(p);
    TokensOfTwo(ParameterText(p), rest);
  }

  lemma ReadOnly(p: Parameter)
    requires FreeParameter(p)
    ensures ParametersOf(Tokens(ParameterText(p))) == if p == ("", "") then [] else [p]
  {
    hide Tokens, ParameterText, ParameterOf, Free, FreeParameter;
    TextFree(p);
    ParameterRoundTrip(p);
    TokensOfOne(ParameterText(p));
    EmptyText(p);
  }

  // Reading back joined parameters gives the parameters, unless the last one is empty.
  lemma {:induction false} JoinRoundTrip(ps: seq<Parameter>)
    requires FreeParameters(ps)
    ensures ParametersOf(Tokens(Join(ps))) == ps <==> !EndsEmpty(ps)
  {
    hide Tokens, ParameterText, ParameterOf, ParametersOf, FreeParameter;
    if ps == [] {
      NothingRead();
    } else if |ps| == 1 {
      ReadOnly(ps[0]);
      assert ps == [ps[0]];
    } else {
      var p, rest := ps[0], ps[1..];
      assert ps == [p] + rest;
      JoinRoundTrip(rest);
      ReadFirst(p, Join(rest));
      var read := ParametersOf(Tokens(Join(rest)));
      assert [p] + read == [p] + rest <==> read == rest by {
        assert ([p] + read)[1..] == read && ([p] + rest)[1..] == rest;
      }
    }
  }

  lemma NothingRead()
    ensures ParametersOf(Tokens("")) == []
  {
  }

  lemma {:induction false} JoinIsFree(ps: seq<Parameter>)
    requires FreeParameters(ps)
    ensures Free(Join(ps), {'#'})
  {
    if ps != [] {
      hide FreeParameter, ParameterText;
      TextFree(ps[0]);
      if |ps| > 1 {
        JoinIsFree(ps[1..]);
        JoinFree(ParameterText(ps[0]), Join(ps[1..]));
      }
    }
  }

  lemma EmptyText(p: Parameter)
    ensures ParameterText(p) == "" <==> p == ("", "")
  {
  }

  // Whatever is read from a query holds no delimiters.
  lemma {:induction false} TokensAreFree(s: string)
    requires Free(s, {'#'})
    ensures FreeParameters(ParametersOf(Tokens(s)))
    decreases |s|
  {
    if s != "" {
      hide ParameterOf, FreeParameter;
      var k := Span(s, {'&'});
      TokenIsFree(s[..k]);
      if k < |s| {
        TokensAreFree(s[k + 1..]);
        assert ParametersOf(Tokens(s)) == [ParameterOf(s[..k])] + ParametersOf(Tokens(s[k + 1..]));
      } else {
        assert s[..k] == s;
      }
    }
  }

  lemma TokenIsFree(t: string)
    requires Free(t, {'&'}) && Free(t, {'#'})
    ensures FreeParameter(ParameterOf(t))
  {
  }
}
