/** The URI object: fields set one by one or by parsing, and printed. */
module UriObject {
  import opened Uri
  import opened UriCodec
  import opened UriSetters
  import opened UriText

  // ---------- The object ----------

  class URI {
    var scheme: string
    var host: string
    var port: PortNumber
    var path: string
    var parameters: seq<Parameter>
    var fragment: string

    function Fields(): Parts
      reads this
    {
      Parts(scheme, host, port, path, parameters, fragment)
    }

    constructor ()
      ensures Fields() == EMPTY
    {
      scheme, host, port, path, parameters, fragment := "", "", 0, "", [], "";
    }

    method PrintHead() returns (result: string)
      ensures result == HeadText(Fields())
    {
      hide Decimal, HeadText;
      result := "";
      if scheme != "" {
        result := result + (scheme + ":");
        if host != "" {
          result := result + "//";
        }
      }
      HeadPrinted(Fields(), result);
      result := result + host;
      if port != 0 {
        result := result + (":" + Decimal(port));
      }
      result := result + path;
    }

    method ToString() returns (result: string)
      ensures result == Text(Fields())
    {
      hide Join, HeadText;
      result := PrintHead();
      if parameters != [] {
        result := result + "?";
        var query := PrintParameters(parameters);
        result := result + query;
      }
      if fragment != "" {
        result := result + ("#" + fragment);
      }
      TailPrinted(Fields());
    }

    /** Parse a text; true for threw means an out-of-range port number ended the call with an exception. */
    method Parse(input: string) returns (ok: bool, threw: bool)
      modifies this
      ensures Parsed(input) == if threw then Threw(Fields()) else Returned(ok, Fields())
    {
      hide RegexMatch, Stoul, Tokens;
      ok, threw := true, false;
      scheme, host, port, fragment, parameters, path := "", "", 0, "", [], "";
      var matchResult := RegexMatch(input);
      if matchResult.Some? {
        var m := matchResult.value;
        if m.scheme.None? && m.authority.None? {
          host := m.path;
        } else if m.authority.None? && m.scheme.Some? && IsNumber(m.path) {
          host := m.scheme.value;
          var n := Stoul(m.path);
          if !n.Number? {
            threw := true;
            return;
          }
          port := n.value % 0x1_0000;
        } else if m.scheme.Some? && m.authority.None? {
          scheme := m.scheme.value;
          path := m.path;
        } else {
          scheme := OrEmpty(m.scheme);
          var hostAndPort := OrEmpty(m.authority);
          var colonPos := Span(hostAndPort, {':'});
          host := hostAndPort[..colonPos];
          if colonPos < |hostAndPort| {
            var n := Stoul(hostAndPort[colonPos + 1..]);
            if n.Number? { port := n.value % 0x1_0000; } else { ok := false; }
          }
          path := m.path;
        }
        parameters := ReadParameters(OrEmpty(m.query));
        fragment := OrEmpty(m.fragment);
      }
    }

    method SetScheme(newValue: string)
      modifies this
      ensures Fields() == Apply(old(Fields()), Setter.SetScheme(newValue))
      ensures Fields() == old(Fields()).(scheme := Encoded(newValue))
    {
      scheme := Encode(newValue);
    }

    method SetHost(newValue: string)
      modifies this
      ensures Fields() == Apply(old(Fields()), Setter.SetHost(newValue))
      ensures Fields() == old(Fields()).(host := Encoded(newValue))
    {
      host := Encode(newValue);
    }

    method SetFragment(newValue: string)
      modifies this
      ensures Fields() == Apply(old(Fields()), Setter.SetFragment(newValue))
      ensures Fields() == old(Fields()).(fragment := Encoded(newValue))
    {
      fragment := Encode(newValue);
    }

    method SetPort(newValue: PortNumber)
      modifies this
      ensures Fields() == Apply(old(Fields()), Setter.SetPort(newValue))
      ensures Fields() == old(Fields()).(port := newValue)
    {
      port := newValue;
    }

    method SetPath(newValue: string)
      modifies this
      ensures Fields() == Apply(old(Fields()), Setter.SetPath(newValue))
      ensures Fields() == old(Fields()).(path := Encoded(newValue))
    {
      path := Encode(newValue);
    }

    /** Set the path element by element, with a separator between them. */
    method SetPathElements(newPath: seq<string>, sep: string, encode: bool)
      modifies this
      ensures Fields() == Apply(old(Fields()), Setter.SetPathElements(newPath, sep, encode))
    {
      var addSep := false;
      path := "";
      for i := 0 to |newPath|
        invariant Fields() == old(Fields()).(path := PathOf(newPath[..i], sep, encode))
        invariant addSep == (i > 0)
      {
        assert newPath[..i + 1][..i] == newPath[..i];
        if addSep {
          path := path + sep;
        } else {
          addSep := true;
        }
        if encode {
          var element := Encode(newPath[i]);
          path := path + element;
        } else {
          path := path + newPath[i];
        }
      }
      assert newPath[..|newPath|] == newPath;
    }

    method AddParameter(key: string, value: string)
      modifies this
      ensures Fields() == Apply(old(Fields()), Setter.AddParameter(key, value))
      ensures Fields() == old(Fields()).(parameters := old(parameters) + [(Encoded(key), Encoded(value))])
    {
      var encodedKey := Encode(key);
      var encodedValue := Encode(value);
      parameters := parameters + [(encodedKey, encodedValue)];
    }

    method GetHost() returns (value: string)
      ensures value == Decoded(host)
    {
      value := Decode(host);
    }

    method SetParameter(key: string, value: string)
      modifies this
      ensures Fields() == Apply(old(Fields()), Setter.SetParameter(key, value))
    {
      hide Encoded, Find, Replaced;
      var encodedKey := Encode(key);
      for i := 0 to |parameters|
        invariant Fields() == old(Fields()) && NoneBefore(parameters, i, encodedKey)
      {
        if parameters[i].0 == encodedKey {
          var encodedValue := Encode(value);
          FirstMatch(parameters, i, encodedKey, encodedValue);
          parameters := parameters[i := (encodedKey, encodedValue)];
          return;
        }
      }
      NoMatch(parameters, encodedKey);
      parameters := parameters + [(encodedKey, value)];
    }

    method GetFirstParameter(key: string) returns (result: bool, value: string)
      ensures result <==> Find(parameters, Encoded(key)).Some?
      ensures result ==> value == Decoded(Find(parameters, Encoded(key)).value)
    {
      var encodedKey := Encode(key);
      for i := 0 to |parameters|
        invariant NoneBefore(parameters, i, encodedKey)
      {
        if parameters[i].0 == encodedKey {
          FirstMatch(parameters, i, encodedKey, "");
          value := Decode(parameters[i].1);
          return true, value;
        }
      }
      NoMatch(parameters, encodedKey);
      return false, "";
    }
  }

  lemma HeadPrinted(u: Parts, prefix: string)
    requires prefix == if u.scheme == "" then "" else u.scheme + ":" + if u.host == "" then "" else "//"
    ensures HeadText(u) == prefix + u.host + PortText(u.port) + u.path
  {
  }

  lemma TailPrinted(u: Parts)
    ensures Text(u) == HeadText(u) + (if u.parameters == [] then "" else "?" + Join(u.parameters))
                         + if u.fragment == "" then "" else "#" + u.fragment
    ensures HeadText(u) + "?" + Join(u.parameters) == HeadText(u) + ("?" + Join(u.parameters))
  {
  }

  method PrintParameters(parameters: seq<Parameter>) returns (query: string)
    ensures query == Join(parameters)
  {
    hide Join, ParameterText, Remaining;
    query := "";
    var addPrefix := false;
    AllRemaining(parameters);
    for i := 0 to |parameters|
      invariant addPrefix == (i > 0)
      invariant query + Remaining(parameters, i) == Join(parameters)
    {
      ghost var before := query;
      RemainingStep(parameters, i);
      if addPrefix {
        query := query + "&";
      } else {
        addPrefix := true;
      }
      query := query + parameters[i].0;
      if parameters[i].1 != "" {
        query := query + ("=" + parameters[i].1);
      }
      PiecePrinted(before, if i > 0 then "&" else "", parameters[i], Remaining(parameters, i + 1));
    }
  }

  lemma PiecePrinted(before: string, prefix: string, p: Parameter, after: string)
    ensures (before + prefix + p.0 + if p.1 == "" then "" else "=" + p.1) + after
         == before + (prefix + ParameterText(p) + after)
    ensures before + "" == before
    ensures before + prefix + p.0 + "" == before + prefix + p.0
  {
  }

  lemma AllRemaining(ps: seq<Parameter>)
    ensures Remaining(ps, 0) == Join(ps) && Remaining(ps, |ps|) == ""
  {
  }

  /** What is still to be printed when parameter i is next. */
  function Remaining(ps: seq<Parameter>, i: nat): string
    requires i <= |ps|
  {
    if i == |ps| then "" else (if i > 0 then "&" else "") + Join(ps[i..])
  }

  lemma RemainingStep(ps: seq<Parameter>, i: nat)
    requires i < |ps|
    ensures Remaining(ps, i) == (if i > 0 then "&" else "") + ParameterText(ps[i]) + Remaining(ps, i + 1)
  {
  }

  lemma FirstToken(s: string)
    requires s != ""
    ensures var k := Span(s, {'&'});
            Tokens(s) == [s[..k]] + Tokens(if k < |s| then s[k + 1..] else "")
  {
    var k := Span(s, {'&'});
    if k == |s| {
      assert s[..k] == s;
    }
  }

  lemma TokensStep(s: string)
    requires s != ""
    ensures var k := Span(s, {'&'});
            ParametersOf(Tokens(s)) == [ParameterOf(s[..k])] + ParametersOf(Tokens(if k < |s| then s[k + 1..] else ""))
  {
    hide ParameterOf, Tokens, Span;
    FirstToken(s);
  }

  /** Read the query token by token. */
  method ReadParameters(query: string) returns (parameters: seq<Parameter>)
    ensures parameters == ParametersOf(Tokens(query))
  {
    hide Tokens, ParametersOf;
    parameters := [];
    var inStream := query;
    while inStream != ""
      invariant parameters + ParametersOf(Tokens(inStream)) == ParametersOf(Tokens(query))
      decreases |inStream|
    {
      TokensStep(inStream);
      var end := Span(inStream, {'&'});
      var param := inStream[..end];
      inStream := if end < |inStream| then inStream[end + 1..] else "";
      var equalPos := Span(param, {'='});
      var value := if equalPos < |param| then param[equalPos + 1..] else "";
      RegroupParameters(parameters, ParameterOf(param), ParametersOf(Tokens(inStream)));
      parameters := parameters + [(param[..equalPos], value)];
    }
    NothingRead();
  }

  lemma RegroupParameters(a: seq<Parameter>, p: Parameter, b: seq<Parameter>)
    ensures (a + [p]) + b == a + ([p] + b)
  {
  }
}
