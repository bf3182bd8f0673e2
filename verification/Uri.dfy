/** Printing and parsing of URIs, and exactly when parsing restores what was printed. */
module Uri {
  import opened UriText
  import opened Words

  datatype Option<T> = None | Some(value: T)

  type PortNumber = p: int | 0 <= p < 0x1_0000

  /** The fields a URI object stores, escaped as they were set. */
  datatype Parts = Parts(scheme: string, host: string, port: PortNumber, path: string,
                         parameters: seq<Parameter>, fragment: string)

  const EMPTY := Parts("", "", 0, "", [], "")

  // ---------- The regular expression of Appendix B of RFC 3986 ----------

  const SCHEME_STOP: set<char> := {':', '/', '?', '#'}
  const AUTHORITY_STOP: set<char> := {'/', '?', '#'}
  const PATH_STOP: set<char> := {'?', '#'}

  ghost predicate StartsIn(s: string, stop: set<char>) {
    s == "" || s[0] in stop
  }

  predicate HasScheme(s: string) {
    var k := Span(s, SCHEME_STOP);
    0 < k < |s| && s[k] == ':'
  }

  /** (([^:/?#]+):)? */
  function SplitScheme(s: string): (r: (Option<string>, string))
    ensures r.0.Some? ==> r.0.value != "" && Free(r.0.value, SCHEME_STOP) && s == r.0.value + ":" + r.1
    ensures r.0.None? ==> !HasScheme(s) && r.1 == s
  {
    var k := Span(s, SCHEME_STOP);
    if HasScheme(s) then (Some(s[..k]), s[k + 1..]) else (None, s)
  }

  predicate HasAuthority(s: string) {
    |s| >= 2 && s[0] == '/' && s[1] == '/'
  }

  /** (//([^/?#]*))? */
  function SplitAuthority(s: string): (r: (Option<string>, string))
    ensures r.0.Some? ==> Free(r.0.value, AUTHORITY_STOP) && s == "//" + r.0.value + r.1 && StartsIn(r.1, AUTHORITY_STOP)
    ensures r.0.None? ==> !HasAuthority(s) && r.1 == s
  {
    if HasAuthority(s) then
      var k := Span(s[2..], AUTHORITY_STOP);
      (Some(s[2..][..k]), s[2..][k..])
    else (None, s)
  }

  /** ([^?#]*) */
  function SplitPath(s: string): (r: (string, string))
    ensures Free(r.0, PATH_STOP) && s == r.0 + r.1 && StartsIn(r.1, PATH_STOP)
  {
    var k := Span(s, PATH_STOP);
    (s[..k], s[k..])
  }

  /** (\?([^#]*))? */
  function SplitQuery(s: string): (r: (Option<string>, string))
    requires StartsIn(s, PATH_STOP)
    ensures r.0.Some? ==> Free(r.0.value, {'#'})
    ensures StartsIn(r.1, {'#'})
  {
    if s != "" && s[0] == '?' then
      var k := Span(s[1..], {'#'});
      (Some(s[1..][..k]), s[1..][k..])
    else (None, s)
  }

  /** The sub-matches 2, 4, 5, 7 and 9. */
  datatype Match = Match(scheme: Option<string>, authority: Option<string>, path: string,
                         query: Option<string>, fragment: Option<string>)

  /** The match of the whole input; only a fragment with a null character does not match. */
  function RegexMatch(s: string): Option<Match> {
    var (scheme, afterScheme) := SplitScheme(s);
    var (authority, afterAuthority) := SplitAuthority(afterScheme);
    var (path, afterPath) := SplitPath(afterAuthority);
    var (query, afterQuery) := SplitQuery(afterPath);
    var fragment := if afterQuery == "" then None else Some(afterQuery[1..]);
    if fragment.Some? && 0 as char in fragment.value then None else Some(Match(scheme, authority, path, query, fragment))
  }

  // ---------- Parsing ----------

  /** What Parse returns and stores, or the exception it lets through. */
  datatype Outcome = Returned(ok: bool, parts: Parts) | Threw(parts: Parts)

  function Port(n: Number): PortNumber {
    if n.Number? then n.value % 0x1_0000 else 0
  }

  function OrEmpty(o: Option<string>): string {
    if o.Some? then o.value else ""
  }

  /** A URI with an authority; a port that cannot be read makes parsing report failure. */
  function FullHead(scheme: string, hostAndPort: string, path: string): (o: Outcome) {
    var colonPos := Span(hostAndPort, {':'});
    var parts := EMPTY.(scheme := scheme, host := hostAndPort[..colonPos], path := path);
    if colonPos < |hostAndPort| then
      var n := Stoul(hostAndPort[colonPos + 1..]);
      Returned(n.Number?, parts.(port := Port(n)))
    else Returned(true, parts)
  }

  /** Scheme, host, port and path: a host alone, host and port, a URI without an authority, or a full one. */
  function ParseHead(m: Match): (o: Outcome) {
    if m.scheme.None? && m.authority.None? then Returned(true, EMPTY.(host := m.path))
    else if m.authority.None? && m.scheme.Some? && IsNumber(m.path) then
      var n := Stoul(m.path);
      if n.Number? then Returned(true, EMPTY.(host := m.scheme.value, port := Port(n)))
      else Threw(EMPTY.(host := m.scheme.value))
    else if m.scheme.Some? && m.authority.None? then
      Returned(true, EMPTY.(scheme := m.scheme.value, path := m.path))
    else FullHead(OrEmpty(m.scheme), OrEmpty(m.authority), m.path)
  }

  function Parsed(input: string): Outcome {
    var m := RegexMatch(input);
    if m.None? then Returned(true, EMPTY)
    else
      var head := ParseHead(m.value);
      if head.Threw? then head
      else Returned(head.ok, head.parts.(parameters := ParametersOf(Tokens(OrEmpty(m.value.query))),
                                         fragment := OrEmpty(m.value.fragment)))
  }

  // ---------- Printing ----------

  function PortText(port: PortNumber): string {
    if port != 0 then ":" + Decimal(port) else ""
  }

  function HeadText(u: Parts): string {
    (if u.scheme == "" then "" else u.scheme + ":" + if u.host == "" then "" else "//") + (u.host + PortText(u.port) + u.path)
  }

  function TailText(u: Parts): string {
    (if u.parameters == [] then "" else "?" + Join(u.parameters)) + if u.fragment == "" then "" else "#" + u.fragment
  }

  function Text(u: Parts): string {
    HeadText(u) + TailText(u)
  }

  // ---------- When parsing restores what was printed ----------

  ghost predicate GoodScheme(s: string) {
    s != "" && Free(s, SCHEME_STOP)
  }

  /** The text of scheme, host, port and path can be told apart again. */
  ghost predicate HeadDistinct(u: Parts) {
    || (GoodScheme(u.scheme) && GoodScheme(u.host) && Free(u.path, PATH_STOP) && (u.path == "" || u.path[0] == '/'))
    || (u.scheme == "" && GoodScheme(u.host) && u.port != 0 && u.path == "")
    || (u.scheme == "" && u.port == 0 && u.path == "" && Free(u.host, PATH_STOP) && !HasScheme(u.host) && !HasAuthority(u.host))
    || (GoodScheme(u.scheme) && u.host == "" && u.port == 0 && Free(u.path, PATH_STOP)
        && !IsNumber(u.path) && !HasAuthority(u.path))
  }

  ghost predicate TailDistinct(u: Parts) {
    FreeParameters(u.parameters) && !EndsEmpty(u.parameters) && 0 as char !in u.fragment
  }

  ghost predicate WellFormed(u: Parts) {
    HeadDistinct(u) && TailDistinct(u)
  }

  // ---------- Head and tail ----------

  /** The sub-matches of a text without query and fragment. */
  function HeadMatch(head: string): Match {
    var (scheme, afterScheme) := SplitScheme(head);
    var (authority, path) := SplitAuthority(afterScheme);
    Match(scheme, authority, path, None, None)
  }

  lemma SplitSchemeBefore(head: string, tail: string)
    requires Free(head, PATH_STOP) && StartsIn(tail, PATH_STOP)
    ensures SplitScheme(head + tail) == (SplitScheme(head).0, SplitScheme(head).1 + tail)
    ensures Free(SplitScheme(head).1, PATH_STOP)
  {
    hide Span;
    var k := Span(head, SCHEME_STOP);
    SpanBefore(head, tail, SCHEME_STOP);
    if HasScheme(head) {
      assert (head + tail)[k + 1..] == head[k + 1..] + tail;
    }
  }

  lemma SplitAuthorityBefore(head: string, tail: string)
    requires Free(head, PATH_STOP) && StartsIn(tail, PATH_STOP)
    ensures SplitAuthority(head + tail) == (SplitAuthority(head).0, SplitAuthority(head).1 + tail)
    ensures Free(SplitAuthority(head).1, PATH_STOP)
  {
    hide Span;
    assert HasAuthority(head + tail) <==> HasAuthority(head);
    if HasAuthority(head) {
      assert (head + tail)[2..] == head[2..] + tail;
      SpanBefore(head[2..], tail, AUTHORITY_STOP);
    }
  }

  lemma SplitPathBefore(path: string, tail: string)
    requires Free(path, PATH_STOP) && StartsIn(tail, PATH_STOP)
    ensures SplitPath(path + tail) == (path, tail)
  {
    SpanIs(path, tail, PATH_STOP);
    assert (path + tail)[..|path|] == path && (path + tail)[|path|..] == tail;
  }

  lemma SplitQueryOfTail(u: Parts)
    requires FreeParameters(u.parameters)
    ensures StartsIn(TailText(u), PATH_STOP)
    ensures SplitQuery(TailText(u)) == (if u.parameters == [] then None else Some(Join(u.parameters)),
                                        if u.fragment == "" then "" else "#" + u.fragment)
  {
    var q, f := Join(u.parameters), if u.fragment == "" then "" else "#" + u.fragment;
    if u.parameters != [] {
      JoinIsFree(u.parameters);
      SpanIs(q, f, {'#'});
      assert TailText(u)[1..] == q + f;
      assert (q + f)[..|q|] == q && (q + f)[|q|..] == f;
    } else {
      assert TailText(u) == f;
    }
  }

  lemma MatchHeadAndTail(u: Parts)
    requires Free(HeadText(u), PATH_STOP) && FreeParameters(u.parameters)
    ensures RegexMatch(Text(u)) == if 0 as char in u.fragment then None else
              Some(HeadMatch(HeadText(u)).(query := if u.parameters == [] then None else Some(Join(u.parameters)),
                                           fragment := if u.fragment == "" then None else Some(u.fragment)))
  {
    hide SplitScheme, SplitAuthority, SplitPath, SplitQuery, HeadText, TailText, Join, Free;
    var head, tail := HeadText(u), TailText(u);
    SplitQueryOfTail(u);
    SplitSchemeBefore(head, tail);
    SplitAuthorityBefore(SplitScheme(head).1, tail);
    SplitPathBefore(SplitAuthority(SplitScheme(head).1).1, tail);
    if u.fragment != "" {
      assert ("#" + u.fragment)[1..] == u.fragment;
    }
  }

  function Head(u: Parts): Parts {
    u.(parameters := [], fragment := "")
  }

  // Printing and parsing takes the head and the tail apart.
  lemma ParsedText(u: Parts)
    requires Free(HeadText(u), PATH_STOP) && FreeParameters(u.parameters) && 0 as char !in u.fragment
    ensures Parsed(Text(u)) == Returned(true, u)
       <==> ParseHead(HeadMatch(HeadText(u))) == Returned(true, Head(u)) && !EndsEmpty(u.parameters)
  {
    hide HeadText, HeadMatch, RegexMatch, Text, FreeParameters, Tokens, ParametersOf, Free;
    MatchHeadAndTail(u);
    JoinRoundTrip(u.parameters);
    NothingRead();
    HeadStoresNoTail(HeadMatch(HeadText(u)));
    var o := ParseHead(HeadMatch(HeadText(u)));
    HeadIgnoresTail(HeadMatch(HeadText(u)), RegexMatch(Text(u)).value);
    assert ParametersOf(Tokens(OrEmpty(RegexMatch(Text(u)).value.query))) == u.parameters <==> !EndsEmpty(u.parameters);
    if o.Returned? {
      assert o.parts.(parameters := u.parameters, fragment := u.fragment) == u <==> o.parts == Head(u);
    }
  }

  lemma HeadStoresNoTail(m: Match)
    ensures ParseHead(m).parts.parameters == [] && ParseHead(m).parts.fragment == ""
  {
  }

  lemma HeadIgnoresTail(m: Match, m': Match)
    requires m.scheme == m'.scheme && m.authority == m'.authority && m.path == m'.path
    ensures ParseHead(m) == ParseHead(m')
  {
  }

  lemma SplitSchemeAt(scheme: string, rest: string)
    requires GoodScheme(scheme)
    ensures SplitScheme(scheme + ":" + rest) == (Some(scheme), rest)
  {
    var s := scheme + ":" + rest;
    assert s == scheme + (":" + rest);
    SpanIs(scheme, ":" + rest, SCHEME_STOP);
    assert s[..|scheme|] == scheme && s[|scheme| + 1..] == rest;
  }

  lemma SplitAuthorityAt(authority: string, rest: string)
    requires Free(authority, AUTHORITY_STOP) && StartsIn(rest, AUTHORITY_STOP)
    ensures SplitAuthority("//" + (authority + rest)) == (Some(authority), rest)
  {
    var s := "//" + (authority + rest);
    assert s[2..] == authority + rest;
    SpanIs(authority, rest, AUTHORITY_STOP);
    assert (authority + rest)[..|authority|] == authority && (authority + rest)[|authority|..] == rest;
  }

  lemma AuthorityFree(host: string, port: PortNumber)
    requires GoodScheme(host)
    ensures Free(host + PortText(port), AUTHORITY_STOP)
  {
  }

  // Host and port are found again in the authority.
  lemma ReadAuthority(scheme: string, host: string, port: PortNumber, path: string)
    requires GoodScheme(host)
    ensures FullHead(scheme, host + PortText(port), path) == Returned(true, Parts(scheme, host, port, path, [], ""))
  {
    hide Stoul, Decimal;
    var a := host + PortText(port);
    SpanIs(host, PortText(port), {':'});
    assert a[..|host|] == host;
    if port != 0 {
      assert a[|host| + 1..] == Decimal(port);
      StoulDecimal(port);
    }
  }

  lemma FullReads(u: Parts)
    requires GoodScheme(u.scheme) && GoodScheme(u.host) && (u.path == "" || u.path[0] == '/')
    ensures ParseHead(HeadMatch(HeadText(u))) == Returned(true, Head(u))
  {
    hide SplitScheme, SplitAuthority, PortText, FullHead;
    var a := u.host + PortText(u.port);
    AuthorityFree(u.host, u.port);
    SplitAuthorityAt(a, u.path);
    SplitSchemeAt(u.scheme, "//" + (a + u.path));
    assert HeadText(u) == u.scheme + ":" + ("//" + (a + u.path));
    ReadAuthority(u.scheme, u.host, u.port, u.path);
  }

  lemma HostAndPortReads(u: Parts)
    requires u.scheme == "" && GoodScheme(u.host) && u.port != 0 && u.path == ""
    ensures ParseHead(HeadMatch(HeadText(u))) == Returned(true, Head(u))
  {
    hide SplitScheme, Stoul, Decimal, FullHead;
    SplitSchemeAt(u.host, Decimal(u.port));
    assert HeadText(u) == u.host + ":" + Decimal(u.port);
    assert IsDigit(Decimal(u.port)[0]);
    StoulDecimal(u.port);
  }

  lemma HostReads(u: Parts)
    requires u.scheme == "" && u.port == 0 && u.path == "" && !HasScheme(u.host) && !HasAuthority(u.host)
    ensures ParseHead(HeadMatch(HeadText(u))) == Returned(true, Head(u))
  {
    assert HeadText(u) == u.host;
  }

  lemma SchemeAndPathReads(u: Parts)
    requires GoodScheme(u.scheme) && u.host == "" && u.port == 0 && !IsNumber(u.path) && !HasAuthority(u.path)
    ensures ParseHead(HeadMatch(HeadText(u))) == Returned(true, Head(u))
  {
    SplitSchemeAt(u.scheme, u.path);
    assert HeadText(u) == u.scheme + ":" + u.path;
  }

  lemma DistinctHeadReads(u: Parts)
    requires HeadDistinct(u)
    ensures ParseHead(HeadMatch(HeadText(u))) == Returned(true, Head(u))
  {
    hide HeadText, HeadMatch, ParseHead;
    if GoodScheme(u.scheme) && GoodScheme(u.host) {
      FullReads(u);
    } else if u.scheme == "" && u.port != 0 {
      HostAndPortReads(u);
    } else if u.scheme == "" {
      HostReads(u);
    } else {
      SchemeAndPathReads(u);
    }
  }

  // Only a distinct head is read back as itself.
  lemma OnlyDistinctHeadReads(u: Parts)
    requires ParseHead(HeadMatch(HeadText(u))) == Returned(true, Head(u)) && Free(HeadText(u), PATH_STOP)
    ensures HeadDistinct(u)
  {
    var h := HeadText(u);
    var (scheme, afterScheme) := SplitScheme(h);
    var (authority, path) := SplitAuthority(afterScheme);
    SplitSchemeBefore(h, "");
    SplitAuthorityBefore(afterScheme, "");
    if authority.Some? {
      AuthorityIsDistinct(u);
    }
  }

  lemma NotAnAuthority(host: string, port: PortNumber, authority: string, path: string)
    requires host == "" || host[0] != '/'
    ensures host + PortText(port) + path != "//" + authority + path
  {
    var a, b := host + PortText(port) + path, "//" + authority + path;
    if host != "" {
      assert a[0] == host[0] && b[0] == '/';
    } else if port != 0 {
      assert a[0] == ':' && b[0] == '/';
    } else {
      assert |a| == |path| && |b| >= |path| + 2;
    }
  }

  lemma FullHeadStores(scheme: string, hostAndPort: string, path: string)
    requires Free(hostAndPort, AUTHORITY_STOP)
    ensures var u := FullHead(scheme, hostAndPort, path).parts;
            u.scheme == scheme && u.path == path && Free(u.host, SCHEME_STOP)
  {
  }

  lemma AuthorityIsDistinct(u: Parts)
    requires ParseHead(HeadMatch(HeadText(u))) == Returned(true, Head(u)) && Free(HeadText(u), PATH_STOP)
    requires HeadMatch(HeadText(u)).authority.Some?
    ensures HeadDistinct(u)
  {
    hide FullHead, PortText, HasScheme, HasAuthority, SplitScheme, SplitAuthority;
    var h := HeadText(u);
    var (scheme, afterScheme) := SplitScheme(h);
    var (authority, path) := SplitAuthority(afterScheme);
    SplitSchemeBefore(h, "");
    SplitAuthorityBefore(afterScheme, "");
    FullHeadStores(OrEmpty(scheme), authority.value, path);
    assert u.scheme == OrEmpty(scheme) && u.path == path && Free(u.host, SCHEME_STOP);
    NotAnAuthority(u.host, u.port, authority.value, path);
    var hostPart := u.host + PortText(u.port) + path;
    SameSuffix(OrEmpty(scheme), hostPart, afterScheme);
    assert u.scheme == "" || u.host == "" ==> h == (if u.scheme == "" then "" else u.scheme + ":") + hostPart;
    assert scheme.Some? && u.host != "";
  }

  lemma SameSuffix(s: string, a: string, b: string)
    ensures s + ":" + a == s + ":" + b <==> a == b
  {
    assert (s + ":" + a)[|s| + 1..] == a && (s + ":" + b)[|s| + 1..] == b;
  }

  // ---------- What parsing stores ----------

  lemma HeadTextFree(u: Parts)
    requires Free(u.scheme, PATH_STOP) && Free(u.host, PATH_STOP) && Free(u.path, PATH_STOP)
    ensures Free(HeadText(u), PATH_STOP)
  {
  }

  lemma HeadIsFree(m: Match)
    requires m.scheme.Some? ==> Free(m.scheme.value, SCHEME_STOP)
    requires m.authority.Some? ==> Free(m.authority.value, AUTHORITY_STOP)
    requires Free(m.path, PATH_STOP)
    ensures var u := ParseHead(m).parts;
            Free(u.scheme, PATH_STOP) && Free(u.host, PATH_STOP) && Free(u.path, PATH_STOP)
  {
  }

  // No delimiter of a later part is ever stored in an earlier one.
  lemma ParsedIsFree(input: string)
    ensures var u := Parsed(input).parts;
            Free(HeadText(u), PATH_STOP) && FreeParameters(u.parameters) && 0 as char !in u.fragment
  {
    hide ParseHead, HeadText, SplitScheme, SplitAuthority, SplitPath, SplitQuery, Free, ParametersOf, Tokens, FreeParameter;
    var u := Parsed(input).parts;
    var m := RegexMatch(input);
    EmptyIsFree();
    if m.Some? {
      HeadIsFree(m.value);
      HeadStoresNoTail(m.value);
      TokensAreFree(OrEmpty(m.value.query));
      assert u.scheme == ParseHead(m.value).parts.scheme && u.host == ParseHead(m.value).parts.host;
      assert u.path == ParseHead(m.value).parts.path;
    }
    HeadTextFree(u);
  }

  lemma EmptyIsFree()
    ensures Free("", PATH_STOP) && Free("", {'#'})
  {
  }

  lemma DistinctIsFree(u: Parts)
    requires HeadDistinct(u)
    ensures Free(HeadText(u), PATH_STOP)
  {
  }

  // ---------- Ports that cannot be stored ----------

  lemma NoTail(head: string)
    requires Free(head, PATH_STOP)
    ensures RegexMatch(head) == Some(HeadMatch(head))
  {
    hide SplitScheme, SplitAuthority, SplitPath, Free;
    SplitSchemeBefore(head, "");
    SplitAuthorityBefore(SplitScheme(head).1, "");
    SplitPathBefore(SplitAuthority(SplitScheme(head).1).1, "");
    assert head + "" == head && SplitScheme(head).1 + "" == SplitScheme(head).1;
    var path := SplitAuthority(SplitScheme(head).1).1;
    assert path + "" == path;
  }

  lemma ParsedHead(head: string)
    requires Free(head, PATH_STOP)
    ensures Parsed(head) == ParseHead(HeadMatch(head))
  {
    hide RegexMatch, HeadMatch, ParseHead, Tokens, ParametersOf;
    NoTail(head);
    NothingRead();
    HeadMatchHasNoTail(head);
    HeadStoresNoTail(HeadMatch(head));
  }

  lemma HeadMatchHasNoTail(head: string)
    ensures HeadMatch(head).query == None && HeadMatch(head).fragment == None
  {
  }

  /** For host and port alone, a number of more than 64 bits is not reported as a failure but thrown. */
  lemma LargePortThrows(host: string, digits: string)
    requires GoodScheme(host) && IsNumber(digits)
    ensures Parsed(host + ":" + digits)
         == if DigitsValue(digits) >= TWO_TO_THE_64 then Threw(EMPTY.(host := host))
            else Returned(true, EMPTY.(host := host, port := DigitsValue(digits) % 0x1_0000))
  {
    hide SplitScheme, Stoul, FullHead, DigitsValue, Parsed;
    SplitSchemeAt(host, digits);
    assert IsDigit(digits[0]);
    ParsedHead(host + ":" + digits);
    StoulReads("", "", digits, "");
    assert "" + ("" + (digits + "")) == digits;
  }

  /** Behind a scheme and a host any text may follow the colon; its number is cut to 16 bits, or parsing fails. */
  lemma PortTextIsRead(scheme: string, host: string, text: string)
    requires GoodScheme(scheme) && GoodScheme(host) && Free(text, AUTHORITY_STOP)
    ensures var n := Stoul(text);
            Parsed(scheme + ":" + ("//" + (host + ":" + text)))
            == Returned(n.Number?, Parts(scheme, host, if n.Number? then n.value % 0x1_0000 else 0, "", [], ""))
  {
    hide SplitScheme, SplitAuthority, Stoul, Parsed, FullHead;
    var a := host + ":" + text;
    var s := scheme + ":" + ("//" + a);
    assert a + "" == a;
    SplitSchemeAt(scheme, "//" + a);
    SplitAuthorityAt(a, "");
    ParsedHead(s);
    AuthorityRead(scheme, host, text);
  }

  lemma AuthorityRead(scheme: string, host: string, text: string)
    requires GoodScheme(host)
    ensures var n := Stoul(text);
            FullHead(scheme, host + ":" + text, "")
            == Returned(n.Number?, Parts(scheme, host, if n.Number? then n.value % 0x1_0000 else 0, "", [], ""))
  {
    hide Stoul;
    var a := host + ":" + text;
    assert a == host + (":" + text);
    SpanIs(host, ":" + text, {':'});
    assert a[..|host|] == host && a[|host| + 1..] == text;
  }

  // ---------- The theorem ----------

  /** Parsing what was printed restores every field exactly for well-formed fields. */
  lemma ParseRestoresIff(u: Parts)
    ensures Parsed(Text(u)) == Returned(true, u) <==> WellFormed(u)
  {
    hide Parsed, Text, HeadText, HeadMatch, ParseHead, HeadDistinct, Free;
    if WellFormed(u) {
      DistinctIsFree(u);
      ParsedText(u);
      DistinctHeadReads(u);
    }
    if Parsed(Text(u)) == Returned(true, u) {
      ParsedIsFree(Text(u));
      ParsedText(u);
      OnlyDistinctHeadReads(u);
    }
  }

  const EXAMPLE := Parts("http", "h", 80, "/p", [("a", "1"), ("b", "2")], "f")

  lemma ExampleText()
    ensures Text(EXAMPLE) == "http://h:80/p?a=1&b=2#f"
  {
    assert Decimal(80) == "80" by {
      assert Decimal(8) == "8";
    }
    assert EXAMPLE.parameters[1..] == [("b", "2")];
    assert Join(EXAMPLE.parameters) == "a=1&b=2";
    assert HeadText(EXAMPLE) == "http://h:80/p";
  }

  // All fields at once.
  lemma FullExample()
    ensures Text(EXAMPLE) == "http://h:80/p?a=1&b=2#f" && Parsed("http://h:80/p?a=1&b=2#f") == Returned(true, EXAMPLE)
  {
    hide Parsed, Text;
    ExampleText();
    ParseRestoresIff(EXAMPLE);
  }
}
