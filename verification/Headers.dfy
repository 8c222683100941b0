/** Header maps: stripping hop-by-hop fields, storing headers and replaying them. */
module Headers {
  import opened Basics
  import opened Text

  // ---------- Header maps ----------

  datatype Header = Header(name: string, value: string)

  /** `HeaderValue::to_str` succeeds: visible ASCII and tabs. */
  predicate Readable(value: string) {
    forall c :: c in value ==> ' ' <= c <= '~' || c == '\t'
  }

  predicate IsTokenChar(c: char) {
    IsDigit(c) || 'a' <= c <= 'z' || 'A' <= c <= 'Z' || c in "!#$%&'*+-.^_`|~"
  }

  /** `HeaderName::from_bytes`: a token, in lower case. */
  function NameOf(s: string): Option<string> {
    if s != "" && forall c :: c in s ==> IsTokenChar(c) then Some(Lower(s)) else None
  }

  /** The names of a header map are already in that form. */
  predicate WellNamed(es: seq<Header>) {
    forall e :: e in es ==> NameOf(e.name) == Some(e.name)
  }

  /** All values of a name, in order. */
  function Values(es: seq<Header>, name: string): seq<string> {
    if es == [] then []
    else
      var e := es[|es| - 1];
      var before := Values(es[..|es| - 1], name);
      if e.name == name then before + [e.value] else before
  }

  function Without(es: seq<Header>, names: set<string>): seq<Header> {
    if es == [] then []
    else
      var e := es[|es| - 1];
      var before := Without(es[..|es| - 1], names);
      if e.name in names then before else before + [e]
  }

  /** `insert`: one value, in the place of the first, or at the end. */
  function Inserted(es: seq<Header>, name: string, value: string): seq<Header> {
    if es == [] then [Header(name, value)]
    else if es[0].name == name then [Header(name, value)] + Without(es[1..], {name})
    else [es[0]] + Inserted(es[1..], name, value)
  }

  class HeaderMap {
    var entries: seq<Header>

    constructor ()
      ensures entries == []
    {
      entries := [];
    }

    /** The first value of a name. */
    function Get(name: string): Option<string>
      reads this
    {
      var values := Values(entries, name);
      if values == [] then None else Some(values[0])
    }

    method Remove(name: string)
      modifies this
      ensures entries == Without(old(entries), {name})
    {
      entries := Without(entries, {name});
    }

    method Insert(name: string, value: string)
      modifies this
      ensures entries == Inserted(old(entries), name, value)
    {
      entries := Inserted(entries, name, value);
    }
  }

  lemma ValuesSnoc(es: seq<Header>, e: Header, name: string)
    ensures Values(es + [e], name) == if e.name == name then Values(es, name) + [e.value] else Values(es, name)
  {
    assert (es + [e])[..|es|] == es;
  }

  lemma WithoutSnoc(es: seq<Header>, e: Header, names: set<string>)
    ensures Without(es + [e], names) == if e.name in names then Without(es, names) else Without(es, names) + [e]
  {
    assert (es + [e])[..|es|] == es;
  }

  lemma {:induction false} ValuesOfConcatenation(a: seq<Header>, b: seq<Header>, name: string)
    ensures Values(a + b, name) == Values(a, name) + Values(b, name)
    decreases |b|
  {
    if b == [] {
      assert a + b == a;
    } else {
      assert (a + b)[..|a + b| - 1] == a + b[..|b| - 1];
      ValuesOfConcatenation(a, b[..|b| - 1], name);
    }
  }

  lemma {:induction false} ValuesWithout(es: seq<Header>, names: set<string>, name: string)
    ensures Values(Without(es, names), name) == if name in names then [] else Values(es, name)
  {
    if es != [] {
      var init, e := es[..|es| - 1], es[|es| - 1];
      ValuesWithout(init, names, name);
      ValuesSnoc(Without(init, names), e, name);
    }
  }

  lemma {:induction false} WithoutTwice(es: seq<Header>, a: set<string>, b: set<string>)
    ensures Without(Without(es, a), b) == Without(es, a + b)
  {
    if es != [] {
      var init, e := es[..|es| - 1], es[|es| - 1];
      WithoutTwice(init, a, b);
      WithoutSnoc(Without(init, a), e, b);
    }
  }

  lemma {:induction false} WithoutAbsentNames(es: seq<Header>, names: set<string>)
    requires forall e :: e in es ==> e.name !in names
    ensures Without(es, names) == es
  {
    if es != [] {
      assert es[|es| - 1] in es;
      WithoutAbsentNames(es[..|es| - 1], names);
    }
  }

  lemma {:induction false} WithoutSelects(es: seq<Header>, names: set<string>)
    ensures forall e :: e in Without(es, names) <==> e in es && e.name !in names
  {
    if es != [] {
      WithoutSelects(es[..|es| - 1], names);
      assert forall e :: e in es <==> e in es[..|es| - 1] || e == es[|es| - 1];
    }
  }

  /** After an insert the name has that one value and no other name has changed. */
  lemma {:induction false} ValuesInserted(es: seq<Header>, name: string, value: string, other: string)
    ensures Values(Inserted(es, name, value), other) == if other == name then [value] else Values(es, other)
  {
    if es != [] {
      assert es == [es[0]] + es[1..];
      ValuesOfConcatenation([es[0]], es[1..], other);
      if es[0].name == name {
        ValuesOfConcatenation([Header(name, value)], Without(es[1..], {name}), other);
        ValuesWithout(es[1..], {name}, other);
      } else {
        ValuesInserted(es[1..], name, value, other);
        ValuesOfConcatenation([es[0]], Inserted(es[1..], name, value), other);
      }
    }
  }

  // ---------- strip_hop_by_hop ----------

  const CONNECTION := "connection"

  const CONTENT_LENGTH := "content-length"

  const HOP_BY_HOP: seq<string> :=
    [CONNECTION, "proxy-connection", "keep-alive", "te", "trailer", "transfer-encoding", "upgrade"]

  const PROXY_AUTHORIZATION := "proxy-authorization"

  /** The header names among the comma-separated tokens of a Connection value. */
  function TokenNames(tokens: seq<string>): set<string> {
    if tokens == [] then {}
    else
      var name := NameOf(Trim(tokens[|tokens| - 1]));
      TokenNames(tokens[..|tokens| - 1]) + if name.Some? then {name.value} else {}
  }

  /** The names the first Connection value lists. */
  function Listed(es: seq<Header>): set<string> {
    var values := Values(es, CONNECTION);
    if values != [] && Readable(values[0]) then TokenNames(Split(values[0], ',')) else {}
  }

  function HopNames(names: seq<string>): set<string> {
    set name | name in names
  }

  function Removed(es: seq<Header>): set<string> {
    Listed(es) + HopNames(HOP_BY_HOP) + {PROXY_AUTHORIZATION}
  }

  function Stripped(es: seq<Header>): seq<Header> {
    Without(es, Removed(es))
  }

  method StripHopByHop(headers: HeaderMap)
    modifies headers
    ensures headers.entries == Stripped(old(headers.entries))
  {
    ghost var es := headers.entries;
    WithoutAbsentNames(es, {});
    assert TokenNames([]) == {};
    var connection := headers.Get(CONNECTION);
    if connection.Some? && Readable(connection.value) {
      var tokens := Split(connection.value, ',');
      for i := 0 to |tokens|
        invariant headers.entries == Without(es, TokenNames(tokens[..i]))
      {
        assert tokens[..i + 1][..i] == tokens[..i];
        var token := Trim(tokens[i]);
        assert NameOf(token).None? ==> TokenNames(tokens[..i + 1]) == TokenNames(tokens[..i]);
        if token != "" {
          var name := NameOf(token);
          if name.Some? {
            WithoutTwice(es, TokenNames(tokens[..i]), {name.value});
            headers.Remove(name.value);
          }
        }
      }
      assert tokens[..|tokens|] == tokens;
    }
    assert Listed(es) + HopNames(HOP_BY_HOP[..0]) == Listed(es);
    for i := 0 to |HOP_BY_HOP|
      invariant headers.entries == Without(es, Listed(es) + HopNames(HOP_BY_HOP[..i]))
    {
      WithoutTwice(es, Listed(es) + HopNames(HOP_BY_HOP[..i]), {HOP_BY_HOP[i]});
      assert Listed(es) + HopNames(HOP_BY_HOP[..i]) + {HOP_BY_HOP[i]} == Listed(es) + HopNames(HOP_BY_HOP[..i + 1]);
      headers.Remove(HOP_BY_HOP[i]);
    }
    assert HOP_BY_HOP[..|HOP_BY_HOP|] == HOP_BY_HOP;
    WithoutTwice(es, Listed(es) + HopNames(HOP_BY_HOP), {PROXY_AUTHORIZATION});
    headers.Remove(PROXY_AUTHORIZATION);
  }

  /** Nothing that must go stays, nothing else is lost or reordered: no value of a
      name that is hop-by-hop or listed in the first Connection value is left, and
      every other name keeps its values (RFC 9110 section 7.6.1). */
  lemma StripIsExact(es: seq<Header>, name: string)
    ensures
      Values(Stripped(es), name) ==
      if name in Listed(es) || name in HOP_BY_HOP || name == PROXY_AUTHORIZATION then [] else Values(es, name)
  {
    ValuesWithout(es, Removed(es), name);
  }

  lemma {:induction false} TokenNamesMeaning(tokens: seq<string>, name: string)
    ensures name in TokenNames(tokens) <==> exists t :: t in tokens && NameOf(Trim(t)) == Some(name)
  {
    if tokens != [] {
      var init, last := tokens[..|tokens| - 1], tokens[|tokens| - 1];
      TokenNamesMeaning(init, name);
      assert forall t :: t in tokens <==> t in init || t == last;
    }
  }

  /** The name of a token, in lower case. */
  lemma NameOfMeaning(s: string, name: string)
    requires forall c :: c in name ==> !('A' <= c <= 'Z')
    ensures NameOf(s) == Some(name) <==>
              && s != ""
              && (forall c :: c in s ==>
                    'a' <= c <= 'z' || 'A' <= c <= 'Z' || '0' <= c <= '9' || c in "!#$%&'*+-.^_`|~")
              && EqIgnoreAsciiCase(s, name)
  {
    assert forall i :: 0 <= i < |name| ==> name[i] in name && LowerChar(name[i]) == name[i];
    assert Lower(name) == name;
  }

  lemma HopByHopMeaning(name: string)
    ensures name in HOP_BY_HOP || name == PROXY_AUTHORIZATION <==>
              name in {"connection", "proxy-connection", "keep-alive", "te", "trailer", "transfer-encoding", "upgrade",
                       "proxy-authorization"}
  {
  }

  /** Stripping in the terms of the message: of a name in lower case, as the map keeps
      names, all values go if it is one of the eight, or equals in any case a token that
      the first Connection value lists between commas; otherwise all of them stay (RFC
      9110 section 7.6.1). */
  lemma StripMeaning(es: seq<Header>, name: string)
    requires forall c :: c in name ==> !('A' <= c <= 'Z')
    ensures
      var values := Values(es, "connection");
      var fixed := name in {"connection", "proxy-connection", "keep-alive", "te", "trailer", "transfer-encoding",
                            "upgrade", "proxy-authorization"};
      var readable := values != [] && forall c :: c in values[0] ==> ' ' <= c <= '~' || c == '\t';
      var listed :=
        && readable
        && (exists p :: p in Split(values[0], ',') && Trim(p) != ""
                        && (forall c :: c in Trim(p) ==>
                              'a' <= c <= 'z' || 'A' <= c <= 'Z' || '0' <= c <= '9' || c in "!#$%&'*+-.^_`|~")
                        && EqIgnoreAsciiCase(Trim(p), name));
      Values(Stripped(es), name) == if fixed || listed then [] else Values(es, name)
  {
    var values := Values(es, "connection");
    StripIsExact(es, name);
    HopByHopMeaning(name);
    if values != [] && Readable(values[0]) {
      TokenNamesMeaning(Split(values[0], ','), name);
      forall p | p in Split(values[0], ',')
        ensures NameOf(Trim(p)) == Some(name) <==>
                  && Trim(p) != ""
                  && (forall c :: c in Trim(p) ==>
                        'a' <= c <= 'z' || 'A' <= c <= 'Z' || '0' <= c <= '9' || c in "!#$%&'*+-.^_`|~")
                  && EqIgnoreAsciiCase(Trim(p), name)
      {
        NameOfMeaning(Trim(p), name);
      }
    }
    hide NameOf, EqIgnoreAsciiCase, Stripped, HOP_BY_HOP, TokenNames, Trim, Split, Values;
  }

  /** A map without hop-by-hop names passes through unchanged. */
  lemma StripOfCleanMap(es: seq<Header>)
    requires forall e :: e in es ==> e.name !in HOP_BY_HOP && e.name != PROXY_AUTHORIZATION
    ensures Stripped(es) == es
  {
    NoValues(es, CONNECTION);
    WithoutAbsentNames(es, Removed(es));
  }

  lemma {:induction false} NoValues(es: seq<Header>, name: string)
    requires forall e :: e in es ==> e.name != name
    ensures Values(es, name) == []
  {
    if es != [] {
      assert es[|es| - 1] in es;
      NoValues(es[..|es| - 1], name);
    }
  }

  lemma StrippedIsClean(es: seq<Header>)
    ensures forall e :: e in Stripped(es) ==> e in es && e.name !in HOP_BY_HOP && e.name != PROXY_AUTHORIZATION
  {
    WithoutSelects(es, Removed(es));
  }

  lemma StripIsIdempotent(es: seq<Header>)
    ensures Stripped(Stripped(es)) == Stripped(es)
  {
    StrippedIsClean(es);
    StripOfCleanMap(Stripped(es));
  }

  /** The names that any readable Connection value lists. */
  function ListedAnywhere(values: seq<string>): set<string> {
    if values == [] then {}
    else
      var last := values[|values| - 1];
      ListedAnywhere(values[..|values| - 1]) + if Readable(last) then TokenNames(Split(last, ',')) else {}
  }

  /** Only the first Connection value is read, so the names listed in all of them are
      gone if and only if those the first does not list were absent anyway, or are
      removed from every message. */
  lemma EveryConnectionValueIsHonouredExactlyWhen(es: seq<Header>)
    ensures
      var all := ListedAnywhere(Values(es, CONNECTION));
      (forall name :: name in all ==> Values(Stripped(es), name) == []) <==>
      (forall name :: name in all ==> Values(es, name) == [] || name in Removed(es))
  {
    forall name
      ensures Values(Stripped(es), name) == if name in Removed(es) then [] else Values(es, name)
    {
      ValuesWithout(es, Removed(es), name);
    }
  }

  /** Inputs on which a listed name survives: two Connection fields that list one
      name each. */
  lemma SecondConnectionValueIsIgnored(first: string, second: string, value: string)
    requires NameOf(first) == Some(first) && NameOf(second) == Some(second) && first != second
    requires second !in HOP_BY_HOP && second != PROXY_AUTHORIZATION
    ensures
      var es := [Header(CONNECTION, first), Header(CONNECTION, second), Header(second, value)];
      && Values(es, CONNECTION) == [first, second]
      && second in TokenNames(Split(second, ','))
      && Values(Stripped(es), second) == [value]
  {
    var one, two := [Header(CONNECTION, first)], [Header(CONNECTION, first), Header(CONNECTION, second)];
    var es := [Header(CONNECTION, first), Header(CONNECTION, second), Header(second, value)];
    assert one == [] + one && two == one + [two[1]] && es == two + [es[2]];
    assert second != CONNECTION by { assert HOP_BY_HOP[0] in HOP_BY_HOP; }
    hide HOP_BY_HOP, PROXY_AUTHORIZATION, CONNECTION, NameOf;
    ValuesOfThree(one[0], two[1], es[2], CONNECTION);
    ValuesOfThree(one[0], two[1], es[2], second);
    TokenOfName(first);
    TokenOfName(second);
    StripIsExact(es, second);
  }

  lemma ValuesOfThree(a: Header, b: Header, c: Header, name: string)
    requires a.name == b.name != c.name
    ensures name == a.name ==> Values([a, b, c], name) == [a.value, b.value]
    ensures name == c.name ==> Values([a, b, c], name) == [c.value]
  {
    assert [] + [a] == [a] && [a] + [b] == [a, b] && [a, b] + [c] == [a, b, c];
    ValuesSnoc([], a, name);
    ValuesSnoc([a], b, name);
    ValuesSnoc([a, b], c, name);
  }

  /** A name is the one token of itself. */
  lemma TokenOfName(name: string)
    requires NameOf(name) == Some(name)
    ensures TokenNames(Split(name, ',')) == {name}
  {
    assert name[0] in name && name[|name| - 1] in name;
    assert !IsTokenChar(',');
    assert Trim(name) == name;
    SplitOfOnePiece(name, ',');
    assert [name][..0] == [];
  }

  // ---------- headers_for_storage ----------

  /** The readable values, as text. */
  function ReadablePairs(es: seq<Header>): seq<(string, string)> {
    if es == [] then []
    else
      var e := es[|es| - 1];
      var before := ReadablePairs(es[..|es| - 1]);
      if Readable(e.value) then before + [(e.name, e.value)] else before
  }

  method HeadersForStorage(headers: HeaderMap) returns (stored: seq<(string, string)>)
    ensures stored == ReadablePairs(Stripped(headers.entries))
  {
    var sanitized := new HeaderMap();
    sanitized.entries := headers.entries;
    StripHopByHop(sanitized);
    stored := ReadablePairs(sanitized.entries);
  }

  // ---------- cached_response ----------

  /** The map that inserting stored pairs one by one builds. */
  function InsertedAll(stored: seq<(string, string)>): seq<Header> {
    if stored == [] then []
    else
      var (name, value) := stored[|stored| - 1];
      var before := InsertedAll(stored[..|stored| - 1]);
      if NameOf(name).Some? && Readable(value) then Inserted(before, NameOf(name).value, value) else before
  }

  method ReplayHeaders(stored: seq<(string, string)>, head: bool, bodySize: nat) returns (headers: HeaderMap)
    ensures fresh(headers)
    ensures
      var clean := Stripped(InsertedAll(stored));
      headers.entries == if head then clean else Inserted(clean, CONTENT_LENGTH, ToDecimal(bodySize))
  {
    headers := new HeaderMap();
    for i := 0 to |stored|
      invariant fresh(headers) && headers.entries == InsertedAll(stored[..i])
    {
      assert stored[..i + 1][..i] == stored[..i];
      var (text, value) := stored[i];
      var name := NameOf(text);
      if name.Some? && Readable(value) {
        headers.Insert(name.value, value);
      }
    }
    assert stored[..|stored|] == stored;
    StripHopByHop(headers);
    if !head {
      headers.Insert(CONTENT_LENGTH, ToDecimal(bodySize));
    }
  }

  function Last(values: seq<string>): seq<string> {
    if values == [] then [] else [values[|values| - 1]]
  }

  /** The readable values of a name. */
  function ReadableValues(es: seq<Header>, name: string): seq<string> {
    if es == [] then []
    else
      var e := es[|es| - 1];
      var before := ReadableValues(es[..|es| - 1], name);
      if e.name == name && Readable(e.value) then before + [e.value] else before
  }

  lemma InsertedAllSnoc(stored: seq<(string, string)>, e: Header)
    requires NameOf(e.name) == Some(e.name) && Readable(e.value)
    ensures InsertedAll(stored + [(e.name, e.value)]) == Inserted(InsertedAll(stored), e.name, e.value)
  {
    assert (stored + [(e.name, e.value)])[..|stored|] == stored;
  }

  lemma {:induction false} InsertedAllKeepsLast(es: seq<Header>, name: string)
    requires WellNamed(es)
    ensures Values(InsertedAll(ReadablePairs(es)), name) == Last(ReadableValues(es, name))
  {
    if es != [] {
      var init, e := es[..|es| - 1], es[|es| - 1];
      assert e in es;
      InsertedAllKeepsLast(init, name);
      if Readable(e.value) {
        InsertedAllSnoc(ReadablePairs(init), e);
        ValuesInserted(InsertedAll(ReadablePairs(init)), e.name, e.value, name);
      }
    }
  }

  lemma {:induction false} InsertedNames(es: seq<Header>, name: string, value: string, e: Header)
    requires e in Inserted(es, name, value)
    ensures e.name == name || e in es
  {
    if es != [] {
      if es[0].name == name {
        WithoutSelects(es[1..], {name});
      } else if e in Inserted(es[1..], name, value) {
        InsertedNames(es[1..], name, value, e);
      }
    }
  }

  lemma {:induction false} InsertedAllNames(es: seq<Header>, e: Header)
    requires WellNamed(es) && e in InsertedAll(ReadablePairs(es))
    ensures exists f :: f in es && f.name == e.name
  {
    if es != [] {
      var init, last := es[..|es| - 1], es[|es| - 1];
      assert last in es;
      var pairs := ReadablePairs(init);
      if Readable(last.value) {
        InsertedAllSnoc(pairs, last);
        InsertedNames(InsertedAll(pairs), last.name, last.value, e);
      }
      if e.name != last.name {
        InsertedAllNames(init, e);
      }
    }
  }

  /** Store and replay: every name comes back with its last readable value, out of the
      stripped headers; a GET has in place of any Content-Length the stored body
      size.  The strip on replay removes nothing. */
  lemma ReplayOfStoredHeaders(es: seq<Header>, head: bool, bodySize: nat, name: string)
    requires WellNamed(es)
    ensures
      var inserted := InsertedAll(ReadablePairs(Stripped(es)));
      var clean := Stripped(inserted);
      var replayed := if head then clean else Inserted(clean, CONTENT_LENGTH, ToDecimal(bodySize));
      && Stripped(inserted) == inserted
      && Values(replayed, name) ==
         if name == "content-length" && !head then [ToDecimal(bodySize)]
         else
           var values := ReadableValues(Stripped(es), name);
           if values == [] then [] else [values[|values| - 1]]
  {
    var clean := Stripped(es);
    var inserted := InsertedAll(ReadablePairs(clean));
    StrippedIsClean(es);
    InsertedAllKeepsLast(clean, name);
    forall e | e in inserted
      ensures e.name !in HOP_BY_HOP && e.name != PROXY_AUTHORIZATION
    {
      InsertedAllNames(clean, e);
    }
    StripOfCleanMap(inserted);
    if !head {
      ValuesInserted(inserted, CONTENT_LENGTH, ToDecimal(bodySize), name);
    }
  }

  lemma {:induction false} ReadableValuesAreAll(es: seq<Header>, name: string)
    requires forall e :: e in es ==> Readable(e.value)
    ensures ReadableValues(es, name) == Values(es, name)
  {
    if es != [] {
      assert es[|es| - 1] in es;
      ReadableValuesAreAll(es[..|es| - 1], name);
    }
  }

  /** Where every value is readable and no name repeats, replay is the identity on the
      stripped headers. */
  lemma ReplayIsIdentityOnSingleValues(es: seq<Header>, name: string)
    requires WellNamed(es) && (forall e :: e in es ==> Readable(e.value)) && |Values(Stripped(es), name)| <= 1
    ensures Values(InsertedAll(ReadablePairs(Stripped(es))), name) == Values(Stripped(es), name)
  {
    StrippedIsClean(es);
    ReadableValuesAreAll(Stripped(es), name);
    InsertedAllKeepsLast(Stripped(es), name);
  }

  // ---------- parse_content_length ----------

  function ParseContentLength(es: seq<Header>): Option<u64> {
    var values := Values(es, CONTENT_LENGTH);
    if values != [] && Readable(values[0]) then ParseU64(values[0]) else None
  }

  /** The length a replayed GET declares is the length that was stored. */
  lemma ReplayedLengthParsesBack(es: seq<Header>, bodySize: u64)
    ensures ParseContentLength(Inserted(es, CONTENT_LENGTH, ToDecimal(bodySize))) == Some(bodySize)
  {
    ValuesInserted(es, CONTENT_LENGTH, ToDecimal(bodySize), CONTENT_LENGTH);
    ToDecimalValue(bodySize);
    ParseOfToDecimal(bodySize);
  }
}
