/** What the setters of a URI store, and which URIs built with them survive printing and parsing. */
module UriSetters {
  import opened Uri
  import opened UriCodec
  import opened UriText

  // ---------- Parameters ----------

  /** The value of the first parameter with the given stored key. */
  function Find(ps: seq<Parameter>, key: string): Option<string> {
    if ps == [] then None
    else if ps[0].0 == key then Some(ps[0].1)
    else Find(ps[1..], key)
  }

  /** Replace the value of the first parameter with the given stored key. */
  function Replaced(ps: seq<Parameter>, key: string, value: string): seq<Parameter>
    requires Find(ps, key).Some?
  {
    if ps[0].0 == key then [(key, value)] + ps[1..] else [ps[0]] + Replaced(ps[1..], key, value)
  }

  /** An existing parameter gets the encoded value; a new one is added with its value as it is. */
  function WithParameter(ps: seq<Parameter>, key: string, value: string): seq<Parameter> {
    if Find(ps, Encoded(key)).Some? then Replaced(ps, Encoded(key), Encoded(value)) else ps + [(Encoded(key), value)]
  }

  lemma {:induction false} FindReplaced(ps: seq<Parameter>, key: string, value: string)
    requires Find(ps, key).Some?
    ensures Find(Replaced(ps, key, value), key) == Some(value)
  {
    if ps[0].0 != key {
      FindReplaced(ps[1..], key, value);
      assert Replaced(ps, key, value)[1..] == Replaced(ps[1..], key, value);
    }
  }

  lemma {:induction false} FindAppended(ps: seq<Parameter>, key: string, value: string)
    requires Find(ps, key).None?
    ensures Find(ps + [(key, value)], key) == Some(value)
  {
    if ps != [] {
      FindAppended(ps[1..], key, value);
      assert (ps + [(key, value)])[1..] == ps[1..] + [(key, value)];
    }
  }

  ghost predicate NoneBefore(ps: seq<Parameter>, i: nat, key: string)
    requires i <= |ps|
  {
    forall j :: 0 <= j < i ==> ps[j].0 != key
  }

  lemma {:induction false} FirstMatch(ps: seq<Parameter>, i: nat, key: string, value: string)
    requires i < |ps| && NoneBefore(ps, i, key) && ps[i].0 == key
    ensures Find(ps, key) == Some(ps[i].1) && Replaced(ps, key, value) == ps[i := (key, value)]
  {
    if i > 0 {
      FirstMatch(ps[1..], i - 1, key, value);
      assert ps[i := (key, value)] == [ps[0]] + ps[1..][i - 1 := (key, value)];
    }
  }

  lemma {:induction false} NoMatch(ps: seq<Parameter>, key: string)
    requires NoneBefore(ps, |ps|, key)
    ensures Find(ps, key).None?
  {
    if ps != [] {
      NoMatch(ps[1..], key);
    }
  }

  /**
   * The first parameter with the key gets the encoded value and all others stay; without one, the key is added
   * encoded and the value as it is.
   */
  lemma WithParameterExact(ps: seq<Parameter>, key: string, value: string) returns (i: nat)
    ensures i <= |ps| && NoneBefore(ps, i, Encoded(key)) && (i < |ps| ==> ps[i].0 == Encoded(key))
    ensures WithParameter(ps, key, value)
         == if i < |ps| then ps[i := (Encoded(key), Encoded(value))] else ps + [(Encoded(key), value)]
    ensures Find(ps, Encoded(key)) == if i < |ps| then Some(ps[i].1) else None
  {
    hide Encoded, Find, Replaced;
    i := 0;
    while i < |ps| && ps[i].0 != Encoded(key)
      invariant i <= |ps| && NoneBefore(ps, i, Encoded(key))
    {
      i := i + 1;
    }
    if i < |ps| {
      FirstMatch(ps, i, Encoded(key), Encoded(value));
    } else {
      NoMatch(ps, Encoded(key));
    }
  }

  /** Nothing in the text reads as an escape. */
  ghost predicate NoEscapes(s: string) {
    forall i :: 0 <= i < |s| ==> s[i] != SPACE_SEPARATOR && (s[i] == ESCAPE_CHAR ==> i + 2 >= |s|)
  }

  lemma {:induction false} DecodedUnchanged(s: string)
    ensures |Decoded(s)| <= |s|
    ensures Decoded(s) == s <==> NoEscapes(s)
    decreases |s|
  {
    if s != "" {
      if s[0] == ESCAPE_CHAR && |s| > 2 {
        DecodedUnchanged(s[3..]);
      } else {
        DecodedUnchanged(s[1..]);
        assert NoEscapes(s) <==> s[0] != SPACE_SEPARATOR && NoEscapes(s[1..]) by {
          if NoEscapes(s[1..]) && s[0] != SPACE_SEPARATOR {
            forall i | 0 <= i < |s| ensures s[i] != SPACE_SEPARATOR && (s[i] == ESCAPE_CHAR ==> i + 2 >= |s|) {
              if i > 0 { assert s[i] == s[1..][i - 1]; }
            }
          }
          if NoEscapes(s) {
            forall i | 0 <= i < |s| - 1 ensures s[1..][i] != SPACE_SEPARATOR && (s[1..][i] == ESCAPE_CHAR ==> i + 2 >= |s| - 1) {
              assert s[1..][i] == s[i + 1];
            }
          }
        }
      }
    }
  }

  /**
   * The value set for a parameter is the value read back exactly if it is seven-bit text, for a key
   * that was there already, or if it holds nothing that reads as an escape, for a new one.
   */
  lemma SetParameterReadsBackIff(ps: seq<Parameter>, key: string, value: string)
    ensures var stored := Find(WithParameter(ps, key, value), Encoded(key));
            && stored.Some?
            && (Decoded(stored.value) == value <==>
                if Find(ps, Encoded(key)).Some? then AllSevenBit(value) else NoEscapes(value))
  {
    hide Decoded, Encoded, Find, Replaced, AllSevenBit;
    if Find(ps, Encoded(key)).Some? {
      FindReplaced(ps, Encoded(key), Encoded(value));
      DecodeEncode(value);
    } else {
      FindAppended(ps, Encoded(key), value);
      DecodedUnchanged(value);
    }
  }

  // ---------- Setters ----------

  /** One call of a setter. */
  datatype Setter =
    | SetScheme(value: string)
    | SetHost(value: string)
    | SetPort(port: PortNumber)
    | SetPath(value: string)
    | SetPathElements(elements: seq<string>, separator: string, encode: bool)
    | SetFragment(value: string)
    | SetParameter(key: string, value: string)
    | AddParameter(key: string, value: string)

  function Element(element: string, encode: bool): string {
    if encode then Encoded(element) else element
  }

  function PathOf(elements: seq<string>, separator: string, encode: bool): string {
    if elements == [] then ""
    else
      var last := |elements| - 1;
      PathOf(elements[..last], separator, encode) + (if last > 0 then separator else "")
      + Element(elements[last], encode)
  }

  lemma PathStep(elements: seq<string>, separator: string, encode: bool)
    ensures PathOf([], separator, encode) == ""
    ensures elements != [] ==>
              var last := |elements| - 1;
              PathOf(elements, separator, encode)
              == PathOf(elements[..last], separator, encode) + (if last > 0 then separator else "")
                 + Element(elements[last], encode)
  {
    hide Element;
  }

  // The elements, encoded or not, with the separator between them.
  lemma {:induction false} PathIsJoined(elements: seq<string>, separator: string, encode: bool)
    ensures PathOf([], separator, encode) == ""
    ensures elements != [] ==>
              PathOf(elements, separator, encode)
              == (if encode then Encoded(elements[0]) else elements[0])
                 + if |elements| == 1 then "" else separator + PathOf(elements[1..], separator, encode)
  {
    hide PathOf, Encoded;
    PathStep(elements, separator, encode);
    if |elements| == 1 {
      assert elements[..0] == [];
    } else if |elements| > 1 {
      var last, rest := |elements| - 1, elements[1..];
      PathIsJoined(elements[..last], separator, encode);
      PathStep(rest, separator, encode);
      assert elements[..last][1..] == rest[..last - 1] && rest[last - 1] == elements[last];
      if last == 1 { assert rest[..0] == []; }
    }
  }

  function Apply(u: Parts, s: Setter): Parts {
    match s
    case SetScheme(v) => u.(scheme := Encoded(v))
    case SetHost(v) => u.(host := Encoded(v))
    case SetPort(p) => u.(port := p)
    case SetPath(v) => u.(path := Encoded(v))
    case SetPathElements(elements, separator, encode) => u.(path := PathOf(elements, separator, encode))
    case SetFragment(v) => u.(fragment := Encoded(v))
    case SetParameter(k, v) => u.(parameters := WithParameter(u.parameters, k, v))
    case AddParameter(k, v) => u.(parameters := u.parameters + [(Encoded(k), Encoded(v))])
  }

  /** The fields after any calls of setters on a new object. */
  function Built(setters: seq<Setter>): Parts {
    if setters == [] then EMPTY else Apply(Built(setters[..|setters| - 1]), setters[|setters| - 1])
  }

  const DELIMITERS: set<char> := {':', '/', '?', '#', '=', '&', 0 as char}

  lemma EncodedIsFree(s: string)
    ensures Free(Encoded(s), DELIMITERS)
  {
    forall i | 0 <= i < |Encoded(s)| ensures Encoded(s)[i] !in DELIMITERS {
      EncodedHasNoDelimiters(s, Encoded(s)[i]);
    }
  }

  lemma {:induction false} EncodedEmpty(s: string)
    ensures Encoded(s) == "" <==> s == ""
  {
  }

  ghost predicate FreeKeys(ps: seq<Parameter>) {
    forall i :: 0 <= i < |ps| ==> Free(ps[i].0, {'=', '&', '#'})
  }

  /** Everything but the path and the values of parameters is free of delimiters. */
  ghost predicate EncodedFields(u: Parts) {
    Free(u.scheme, DELIMITERS) && Free(u.host, DELIMITERS) && Free(u.fragment, DELIMITERS) && FreeKeys(u.parameters)
  }

  lemma {:induction false} ReplacedKeys(ps: seq<Parameter>, key: string, value: string)
    requires FreeKeys(ps) && Find(ps, key).Some?
    ensures FreeKeys(Replaced(ps, key, value))
  {
    if ps[0].0 != key {
      ReplacedKeys(ps[1..], key, value);
    }
  }

  lemma EncodedKeyIsFree(key: string)
    ensures Free(Encoded(key), {'=', '&', '#'})
  {
    hide Encoded;
    EncodedIsFree(key);
  }

  lemma ApplyKeepsEncoded(u: Parts, s: Setter)
    requires EncodedFields(u)
    ensures EncodedFields(Apply(u, s))
  {
    hide Encoded, Find, Replaced, PathOf;
    match s
    case SetScheme(v) => EncodedIsFree(v);
    case SetHost(v) => EncodedIsFree(v);
    case SetFragment(v) => EncodedIsFree(v);
    case SetParameter(k, v) =>
      EncodedKeyIsFree(k);
      if Find(u.parameters, Encoded(k)).Some? {
        ReplacedKeys(u.parameters, Encoded(k), Encoded(v));
      }
    case AddParameter(k, v) => EncodedKeyIsFree(k);
    case _ =>
  }

  lemma {:induction false} BuiltIsEncoded(setters: seq<Setter>)
    ensures EncodedFields(Built(setters))
  {
    if setters != [] {
      hide EncodedFields, Apply;
      BuiltIsEncoded(setters[..|setters| - 1]);
      ApplyKeepsEncoded(Built(setters[..|setters| - 1]), setters[|setters| - 1]);
    } else {
      assert EncodedFields(EMPTY);
    }
  }

  /** The path can be told from what comes before it: its place in a full URI, after a host alone, after a scheme alone. */
  ghost predicate PathFits(u: Parts) {
    if u.scheme == "" then u.path == "" && (u.host != "" || u.port == 0)
    else
      && Free(u.path, PATH_STOP)
      && if u.host != "" then u.path == "" || u.path[0] == '/'
         else u.port == 0 && !IsNumber(u.path) && !HasAuthority(u.path)
  }

  ghost predicate FreeValues(ps: seq<Parameter>) {
    forall i :: 0 <= i < |ps| ==> Free(ps[i].1, {'&', '#'})
  }

  lemma HeadFits(u: Parts)
    requires EncodedFields(u)
    ensures HeadDistinct(u) <==> PathFits(u)
  {
    hide IsNumber;
    assert u.host != "" ==> GoodScheme(u.host);
    assert u.scheme != "" ==> GoodScheme(u.scheme);
    NoSchemeInside(u.host);
  }

  lemma NoSchemeInside(s: string)
    requires Free(s, DELIMITERS)
    ensures !HasScheme(s) && !HasAuthority(s) && Free(s, PATH_STOP)
  {
  }

  lemma TailFits(u: Parts)
    requires EncodedFields(u)
    ensures TailDistinct(u) <==> FreeValues(u.parameters) && !EndsEmpty(u.parameters)
  {
    assert forall i :: 0 <= i < |u.parameters| ==>
      (FreeParameter(u.parameters[i]) <==> Free(u.parameters[i].1, {'&', '#'}));
  }

  /**
   * After any calls of setters, the URI survives printing and parsing exactly if its path fits its other
   * fields, no parameter value was stored with a delimiter, and the last parameter is not empty.
   */
  lemma BuiltSurvivesIff(setters: seq<Setter>)
    ensures var u := Built(setters);
            (Parsed(Text(u)) == Returned(true, u) <==>
               PathFits(u) && FreeValues(u.parameters) && !EndsEmpty(u.parameters))
  {
    hide Built, Parsed, Text, EncodedFields, HeadDistinct, TailDistinct, PathFits;
    BuiltIsEncoded(setters);
    var u := Built(setters);
    ParseRestoresIff(u);
    HeadFits(u);
    TailFits(u);
  }

  /** An encoded path never starts with a slash, so it fits a URI with scheme and host only if it is empty. */
  lemma EncodedPathFitsIff(u: Parts, path: string)
    requires u.scheme != "" && u.host != "" && u.path == Encoded(path)
    ensures PathFits(u) <==> path == ""
  {
    hide Encoded;
    EncodedEmpty(path);
    EncodedIsFree(path);
  }
}
