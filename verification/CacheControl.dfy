/** `parse_cache_control`: three directives of a Cache-Control value. */
module CacheControl {
  import opened Basics
  import opened Text

  datatype CacheControl = CacheControl(noStore: bool, noCache: bool, maxAge: Option<u64>)

  const NOTHING := CacheControl(false, false, None)

  const MAX_AGE := "max-age="

  /** The effect of one trimmed part. */
  function WithPart(c: CacheControl, part: string): CacheControl {
    if EqIgnoreAsciiCase(part, "no-store") then c.(noStore := true)
    else if EqIgnoreAsciiCase(part, "no-cache") then c.(noCache := true)
    else if MAX_AGE <= part && ParseU64(part[|MAX_AGE|..]).Some? then c.(maxAge := ParseU64(part[|MAX_AGE|..]))
    else c
  }

  function WithParts(parts: seq<string>): CacheControl {
    if parts == [] then NOTHING
    else WithPart(WithParts(parts[..|parts| - 1]), Trim(parts[|parts| - 1]))
  }

  function Parse(value: string): CacheControl {
    WithParts(Split(value, ','))
  }

  method ParseCacheControl(value: string) returns (control: CacheControl)
    ensures control == Parse(value)
  {
    control := NOTHING;
    var parts := Split(value, ',');
    for i := 0 to |parts|
      invariant control == WithParts(parts[..i])
    {
      assert parts[..i + 1][..i] == parts[..i];
      var part := Trim(parts[i]);
      if EqIgnoreAsciiCase(part, "no-store") {
        control := control.(noStore := true);
      } else if EqIgnoreAsciiCase(part, "no-cache") {
        control := control.(noCache := true);
      } else if MAX_AGE <= part {
        var age := ParseU64(part[|MAX_AGE|..]);
        if age.Some? {
          control := control.(maxAge := age);
        }
      }
    }
    assert parts[..|parts|] == parts;
  }

  // ---------- What a parse means ----------

  /** Flags add up; the later age wins. */
  function Combine(a: CacheControl, b: CacheControl): CacheControl {
    CacheControl(a.noStore || b.noStore, a.noCache || b.noCache, if b.maxAge.Some? then b.maxAge else a.maxAge)
  }

  lemma {:induction false} WithPartsOfConcatenation(a: seq<string>, b: seq<string>)
    ensures WithParts(a + b) == Combine(WithParts(a), WithParts(b))
    decreases |b|
  {
    if b == [] {
      assert a + b == a;
    } else {
      var init := b[..|b| - 1];
      assert (a + b)[..|a + b| - 1] == a + init && (a + b)[|a + b| - 1] == b[|b| - 1];
      WithPartsOfConcatenation(a, init);
      CombineWithPart(WithParts(a), WithParts(init), Trim(b[|b| - 1]));
    }
  }

  lemma CombineWithPart(a: CacheControl, b: CacheControl, part: string)
    ensures WithPart(Combine(a, b), part) == Combine(a, WithPart(b, part))
  {
  }

  /** Parsing is a homomorphism: two values joined by a comma mean what the two mean
      together. */
  lemma ParseOfJoinedValues(a: string, b: string)
    ensures Parse(a + "," + b) == Combine(Parse(a), Parse(b))
  {
    SplitAtSeparator(a, ',', b);
    WithPartsOfConcatenation(Split(a, ','), Split(b, ','));
  }

  /** The age of one part, if it is a max-age that parses. */
  function AgeOf(part: string): Option<u64> {
    var t := Trim(part);
    if MAX_AGE <= t then ParseU64(t[|MAX_AGE|..]) else None
  }

  /** One part sets a flag exactly if it names it, and the age exactly if it has one. */
  lemma WithPartMeaning(c: CacheControl, part: string)
    ensures
      var d := WithPart(c, Trim(part));
      && (d.noStore <==> c.noStore || EqIgnoreAsciiCase(Trim(part), "no-store"))
      && (d.noCache <==> c.noCache || EqIgnoreAsciiCase(Trim(part), "no-cache"))
      && d.maxAge == (if AgeOf(part).Some? then AgeOf(part) else c.maxAge)
  {
    DirectivesDiffer(Trim(part));
  }

  predicate SomePartIs(parts: seq<string>, name: string) {
    exists part :: part in parts && EqIgnoreAsciiCase(Trim(part), name)
  }

  /** The age of the last part that has one. */
  function LastAge(parts: seq<string>): Option<u64> {
    if parts == [] then None
    else if AgeOf(parts[|parts| - 1]).Some? then AgeOf(parts[|parts| - 1])
    else LastAge(parts[..|parts| - 1])
  }

  lemma SomePartSnoc(parts: seq<string>, last: string, name: string)
    ensures SomePartIs(parts + [last], name) <==> SomePartIs(parts, name) || EqIgnoreAsciiCase(Trim(last), name)
  {
    assert forall part :: part in parts + [last] <==> part in parts || part == last;
  }

  lemma {:induction false} WithPartsMeaning(parts: seq<string>)
    ensures WithParts(parts).noStore <==> SomePartIs(parts, "no-store")
    ensures WithParts(parts).noCache <==> SomePartIs(parts, "no-cache")
    ensures WithParts(parts).maxAge == LastAge(parts)
  {
    if parts != [] {
      var init, last := parts[..|parts| - 1], parts[|parts| - 1];
      WithPartsMeaning(init);
      assert parts == init + [last];
      SomePartSnoc(init, last, "no-store");
      SomePartSnoc(init, last, "no-cache");
      WithPartMeaning(WithParts(init), last);
    }
  }

  lemma DirectivesDiffer(part: string)
    ensures EqIgnoreAsciiCase(part, "no-store") ==> !EqIgnoreAsciiCase(part, "no-cache")
    ensures EqIgnoreAsciiCase(part, "no-store") || EqIgnoreAsciiCase(part, "no-cache") ==> !(MAX_AGE <= part)
  {
    assert Lower("no-store")[3] == 's' && Lower("no-cache")[3] == 'c';
    assert Lower("no-store")[0] == 'n' && Lower("no-cache")[0] == 'n';
    if MAX_AGE <= part {
      assert part[0] == 'm' && Lower(part)[0] == 'm';
    }
  }

  /** The parse in terms of the value: a flag is set exactly if some part names it,
      in any case; the age is that of the last part that has one, and parts whose
      number is malformed or too large for u64 have none. */
  lemma ParseMeaning(value: string)
    ensures Parse(value).noStore <==> SomePartIs(Split(value, ','), "no-store")
    ensures Parse(value).noCache <==> SomePartIs(Split(value, ','), "no-cache")
    ensures Parse(value).maxAge == LastAge(Split(value, ','))
  {
    WithPartsMeaning(Split(value, ','));
  }

  /** The same, part by part and in the letters of the directives: any part that names
      a directive sets its flag; the age is the number behind the last `max-age=` that
      has one, and there is none where no part has one. */
  lemma DirectivesMeaning(value: string)
    ensures
      var parts, c := Split(value, ','), Parse(value);
      && (c.noStore <==> exists p :: p in parts && EqIgnoreAsciiCase(Trim(p), "no-store"))
      && (c.noCache <==> exists p :: p in parts && EqIgnoreAsciiCase(Trim(p), "no-cache"))
      && (forall i :: 0 <= i < |parts| && "max-age=" <= Trim(parts[i]) && ParseU64(Trim(parts[i])[8..]).Some?
                      && (forall j :: i < j < |parts| && "max-age=" <= Trim(parts[j]) ==>
                            ParseU64(Trim(parts[j])[8..]).None?) ==>
            c.maxAge == ParseU64(Trim(parts[i])[8..]))
      && ((forall i :: 0 <= i < |parts| && "max-age=" <= Trim(parts[i]) ==> ParseU64(Trim(parts[i])[8..]).None?) ==>
            c.maxAge == None)
  {
    var parts := Split(value, ',');
    ParseMeaning(value);
    forall i | 0 <= i < |parts| && AgeOf(parts[i]).Some? && forall j :: i < j < |parts| ==> AgeOf(parts[j]).None?
      ensures LastAge(parts) == AgeOf(parts[i])
    {
      LastAgeIsAt(parts, i);
    }
    if forall i :: 0 <= i < |parts| ==> AgeOf(parts[i]).None? {
      NoAgeAtAll(parts);
    }
    assert MAX_AGE == "max-age=";
  }

  lemma {:induction false} LastAgeIsAt(parts: seq<string>, i: nat)
    requires i < |parts| && AgeOf(parts[i]).Some? && forall j :: i < j < |parts| ==> AgeOf(parts[j]).None?
    ensures LastAge(parts) == AgeOf(parts[i])
  {
    if i < |parts| - 1 {
      LastAgeIsAt(parts[..|parts| - 1], i);
    }
  }

  lemma {:induction false} NoAgeAtAll(parts: seq<string>)
    requires forall i :: 0 <= i < |parts| ==> AgeOf(parts[i]).None?
    ensures LastAge(parts) == None
  {
    if parts != [] {
      NoAgeAtAll(parts[..|parts| - 1]);
    }
  }

  // ---------- Values of one part ----------

  lemma TrimOfWord(s: string)
    requires s != "" && !IsSpace(s[0]) && !IsSpace(s[|s| - 1])
    ensures Trim(s) == s
  {
  }

  lemma ParseOfOnePart(value: string)
    requires ',' !in value && Trim(value) == value
    ensures Split(value, ',') == [value] && Parse(value) == WithPart(NOTHING, value)
  {
    SplitOfOnePiece(value, ',');
    hide Split, Trim, WithPart;
    var parts := [value];
    assert parts[..0] == [] && WithParts([]) == NOTHING;
    assert parts[|parts| - 1] == value && parts[..|parts| - 1] == [];
    assert WithParts(parts) == WithPart(WithParts([]), Trim(value));
  }

  /** An age, as it is usually written. */
  lemma ParseOfAge(age: u64)
    ensures Parse(MAX_AGE + ToDecimal(age)) == CacheControl(false, false, Some(age))
  {
    var digits, value := ToDecimal(age), MAX_AGE + ToDecimal(age);
    ToDecimalValue(age);
    ParseOfToDecimal(age);
    hide Parse, ToDecimal, ParseU64, Split;
    assert value[0] == MAX_AGE[0] && value[|value| - 1] == digits[|digits| - 1];
    assert digits[|digits| - 1] in digits;
    TrimOfWord(value);
    hide Trim;
    ParseOfOnePart(value);
    assert value[|MAX_AGE|..] == digits && MAX_AGE <= value;
    DirectivesDiffer(value);
  }

  lemma ParseOfNoStore()
    ensures Parse("no-store") == CacheControl(true, false, None)
  {
    TrimOfWord("no-store");
    ParseOfOnePart("no-store");
  }

  // ---------- More values than one ----------

  predicate Forbids(c: CacheControl) {
    c.noStore || c.noCache
  }

  /** Several field values mean what they mean joined by commas (RFC 9110 section 5.3):
      the whole forbids storing exactly if one of them does. */
  lemma {:induction false} JoinedValuesForbid(values: seq<string>)
    requires values != []
    ensures Forbids(Parse(Join(values, ','))) <==> exists v :: v in values && Forbids(Parse(v))
  {
    if |values| == 1 {
      assert values == [values[0]];
    } else {
      JoinedValuesForbid(values[1..]);
      ParseOfJoinedValues(values[0], Join(values[1..], ','));
      assert forall v :: v in values <==> v == values[0] || v in values[1..];
    }
  }

  // ---------- The case of max-age ----------

  /** The age of one part, if `max-age` is read as directives are, in any case (RFC
      9111 section 5.2). */
  function AgeInAnyCase(part: string): Option<u64> {
    var t := Trim(part);
    if |t| >= |MAX_AGE| && EqIgnoreAsciiCase(t[..|MAX_AGE|], MAX_AGE) then ParseU64(t[|MAX_AGE|..]) else None
  }

  /** The last part that has an age in any case. */
  function LastAged(parts: seq<string>): Option<string> {
    if parts == [] then None
    else if AgeInAnyCase(parts[|parts| - 1]).Some? then Some(parts[|parts| - 1])
    else LastAged(parts[..|parts| - 1])
  }

  function LastAgeInAnyCase(parts: seq<string>): Option<u64> {
    if LastAged(parts).Some? then AgeInAnyCase(LastAged(parts).value) else None
  }

  predicate IsLowerCased(part: string) {
    MAX_AGE <= Trim(part)
  }

  lemma LowerCaseIsACase(part: string)
    ensures AgeOf(part).Some? <==> AgeInAnyCase(part).Some? && IsLowerCased(part)
    ensures AgeOf(part).Some? ==> AgeOf(part) == AgeInAnyCase(part)
  {
    var t := Trim(part);
    if MAX_AGE <= t {
      assert t[..|MAX_AGE|] == MAX_AGE;
    }
  }

  lemma {:induction false} LastAgeOfLowerCase(parts: seq<string>)
    ensures LastAged(parts).None? ==> LastAge(parts).None?
    ensures LastAged(parts).Some? ==> AgeInAnyCase(LastAged(parts).value).Some?
    ensures LastAged(parts).Some? && IsLowerCased(LastAged(parts).value) ==>
              LastAge(parts) == AgeOf(LastAged(parts).value)
  {
    if parts != [] {
      LowerCaseIsACase(parts[|parts| - 1]);
      LastAgeOfLowerCase(parts[..|parts| - 1]);
    }
  }

  /** The age that is read is the one that was meant if and only if no part has one, or
      the last part that has one in any case spells `max-age` in lower case, or the last
      part that spells it so gives the same age. */
  lemma AgeIsReadExactlyWhen(value: string)
    ensures
      var parts := Split(value, ',');
      Parse(value).maxAge == LastAgeInAnyCase(parts) <==>
        || LastAged(parts).None?
        || IsLowerCased(LastAged(parts).value)
        || LastAge(parts) == AgeInAnyCase(LastAged(parts).value)
  {
    var parts := Split(value, ',');
    ParseMeaning(value);
    LastAgeOfLowerCase(parts);
    if LastAged(parts).Some? {
      LowerCaseIsACase(LastAged(parts).value);
    }
  }

  /** Inputs on which it is not: one directive, spelled with a capital. */
  lemma CapitalMaxAgeIsIgnored(name: string, age: u64)
    requires EqIgnoreAsciiCase(name, MAX_AGE) && name != MAX_AGE
    ensures
      var value := name + ToDecimal(age);
      && Parse(value).maxAge == None
      && Split(value, ',') == [value] && LastAgeInAnyCase([value]) == Some(age)
  {
    var digits, value := ToDecimal(age), name + ToDecimal(age);
    ToDecimalValue(age);
    ParseOfToDecimal(age);
    CaseOfMaxAge(name);
    hide EqIgnoreAsciiCase, Parse, ToDecimal, ParseU64;
    assert value[0] == name[0] && value[|value| - 1] == digits[|digits| - 1];
    assert name[0] in name && digits[|digits| - 1] in digits;
    TrimOfWord(value);
    hide Trim, Split;
    ParseOfOnePart(value);
    assert value[..|MAX_AGE|] == name && value[|MAX_AGE|..] == digits;
    ParseMeaning(value);
  }

  lemma CaseOfMaxAge(name: string)
    requires EqIgnoreAsciiCase(name, MAX_AGE)
    ensures |name| == |MAX_AGE| && forall c :: c in name ==> c != ',' && !IsSpace(c)
  {
    assert |Lower(name)| == |name|;
    assert forall i :: 0 <= i < |name| ==> LowerChar(name[i]) == Lower(name)[i] == MAX_AGE[i] by {
      assert Lower(MAX_AGE) == MAX_AGE;
    }
  }

  /** For one: `Max-Age=0`, which asks for no reuse at all. */
  lemma MaxAgeZeroIsIgnored()
    ensures Parse("Max-Age=0").maxAge == None && LastAgeInAnyCase(Split("Max-Age=0", ',')) == Some(0)
  {
    assert Lower("Max-Age=") == MAX_AGE == Lower(MAX_AGE);
    assert "Max-Age=" + ToDecimal(0) == "Max-Age=0";
    CapitalMaxAgeIsIgnored("Max-Age=", 0);
  }

  // ---------- Spellings ----------

  /** A directive as it is spelled: one without an age, or `max-age=` in some case and
      after some space, its age to be filled in. */
  datatype Directive = Plain(text: string) | Aged(space: string, name: string)

  predicate WellSpelled(d: Directive) {
    match d
    case Plain(text) => ',' !in text && AgeInAnyCase(text).None?
    case Aged(space, name) => (forall c :: c in space ==> IsSpace(c)) && EqIgnoreAsciiCase(name, MAX_AGE)
  }

  function Spelled(d: Directive, age: u64): string {
    match d
    case Plain(text) => text
    case Aged(space, name) => space + (name + ToDecimal(age))
  }

  function AllSpelled(ds: seq<Directive>, ages: seq<u64>): (parts: seq<string>)
    requires |ages| == |ds|
    ensures |parts| == |ds|
  {
    if ds == [] then []
    else AllSpelled(ds[..|ds| - 1], ages[..|ds| - 1]) + [Spelled(ds[|ds| - 1], ages[|ds| - 1])]
  }

  /** The spelling of the last `max-age`. */
  function LastName(ds: seq<Directive>): Option<string> {
    if ds == [] then None
    else if ds[|ds| - 1].Aged? then Some(ds[|ds| - 1].name)
    else LastName(ds[..|ds| - 1])
  }

  lemma {:induction false} SpaceHasNoComma(space: string)
    requires forall c :: c in space ==> IsSpace(c)
    ensures ',' !in space
  {
  }

  lemma SpelledAge(space: string, name: string, age: u64)
    requires WellSpelled(Aged(space, name))
    ensures
      var part := Spelled(Aged(space, name), age);
      && ',' !in part && AgeInAnyCase(part) == Some(age)
      && (IsLowerCased(part) <==> name == MAX_AGE)
  {
    var digits, word := ToDecimal(age), name + ToDecimal(age);
    ToDecimalValue(age);
    ParseOfToDecimal(age);
    CaseOfMaxAge(name);
    hide EqIgnoreAsciiCase, ToDecimal, ParseU64;
    assert word[0] == name[0] && word[|word| - 1] == digits[|digits| - 1];
    assert name[0] in name && digits[|digits| - 1] in digits;
    TrimStartOfSpace(space, word);
    TrimOfWord(word);
    assert Trim(space + word) == word by {
      TrimOfTrimmed(space + word, word);
    }
    hide Trim;
    SpaceHasNoComma(space);
    assert word[..|MAX_AGE|] == name && word[|MAX_AGE|..] == digits;
  }

  lemma TrimOfTrimmed(s: string, word: string)
    requires TrimStart(s) == word && Trim(word) == word && word != "" && !IsSpace(word[0])
    ensures Trim(s) == word
  {
    assert TrimStart(word) == word;
  }

  /** The last directive with an age, in terms of the spelling. */
  lemma {:induction false} LastAgedIsLastName(ds: seq<Directive>, ages: seq<u64>)
    requires |ages| == |ds| && forall d :: d in ds ==> WellSpelled(d)
    ensures
      var parts := AllSpelled(ds, ages);
      && (forall part :: part in parts ==> ',' !in part)
      && (LastAged(parts).Some? <==> LastName(ds).Some?)
      && (LastName(ds).Some? ==> (IsLowerCased(LastAged(parts).value) <==> LastName(ds).value == MAX_AGE))
  {
    if ds != [] {
      var init, last, age := ds[..|ds| - 1], ds[|ds| - 1], ages[|ds| - 1];
      assert last in ds;
      LastAgedIsLastName(init, ages[..|ds| - 1]);
      hide AgeInAnyCase, IsLowerCased;
      if last.Aged? {
        SpelledAge(last.space, last.name, age);
      } else {
        PlainHasNoAge(last, age);
      }
      hide WellSpelled, Spelled;
      var before := AllSpelled(init, ages[..|ds| - 1]);
      assert AllSpelled(ds, ages) == before + [Spelled(last, age)];
      assert (before + [Spelled(last, age)])[..|before|] == before;
    }
  }

  lemma PlainHasNoAge(d: Directive, age: u64)
    requires WellSpelled(d) && d.Plain?
    ensures ',' !in Spelled(d, age) && AgeInAnyCase(Spelled(d, age)).None?
  {
  }

  /** One for the last age, nought for the others. */
  function Telling(ds: seq<Directive>): (ages: seq<u64>)
    ensures |ages| == |ds|
  {
    if ds == [] then []
    else if ds[|ds| - 1].Aged? then seq(|ds| - 1, _ => 0) + [1]
    else Telling(ds[..|ds| - 1]) + [0]
  }

  lemma {:induction false} NoughtsAreRead(ds: seq<Directive>, ages: seq<u64>)
    requires |ages| == |ds| && (forall d :: d in ds ==> WellSpelled(d))
    requires forall i :: 0 <= i < |ages| ==> ages[i] == 0
    ensures LastAge(AllSpelled(ds, ages)) in {None, Some(0)}
  {
    if ds != [] {
      var init, last := ds[..|ds| - 1], ds[|ds| - 1];
      assert last in ds && ages[|ds| - 1] == 0;
      NoughtsAreRead(init, ages[..|ds| - 1]);
      SpelledIsRead(last, 0);
      hide AgeOf, WellSpelled, Spelled;
      var before := AllSpelled(init, ages[..|ds| - 1]);
      assert AllSpelled(ds, ages) == before + [Spelled(last, 0)];
      assert (before + [Spelled(last, 0)])[..|before|] == before;
    }
  }

  /** The code reads the age of a directive exactly if it is spelled in lower case. */
  lemma SpelledIsRead(d: Directive, age: u64)
    requires WellSpelled(d)
    ensures AgeInAnyCase(Spelled(d, age)) == if d.Aged? then Some(age) else None
    ensures AgeOf(Spelled(d, age)) == if d.Aged? && d.name == MAX_AGE then Some(age) else None
  {
    LowerCaseIsACase(Spelled(d, age));
    if d.Aged? {
      SpelledAge(d.space, d.name, age);
    } else {
      PlainHasNoAge(d, age);
    }
  }

  lemma {:induction false} TellingAgesTell(ds: seq<Directive>)
    requires (forall d :: d in ds ==> WellSpelled(d)) && LastName(ds).Some? && LastName(ds).value != MAX_AGE
    ensures
      var parts := AllSpelled(ds, Telling(ds));
      LastAgeInAnyCase(parts) == Some(1) && LastAge(parts) != Some(1)
  {
    var init, last, ages := ds[..|ds| - 1], ds[|ds| - 1], Telling(ds);
    var before := AllSpelled(init, ages[..|ds| - 1]);
    assert last in ds;
    SpelledIsRead(last, ages[|ds| - 1]);
    if last.Aged? {
      NoughtsAreRead(init, ages[..|ds| - 1]);
    } else {
      TellingAgesTell(init);
      assert ages[..|ds| - 1] == Telling(init);
    }
    hide AgeOf, AgeInAnyCase, WellSpelled, Spelled;
    var part := Spelled(last, ages[|ds| - 1]);
    assert AllSpelled(ds, ages) == before + [part];
    assert (before + [part])[..|before|] == before;
  }

  lemma {:induction false} SplitOfJoined(parts: seq<string>)
    requires parts != [] && forall part :: part in parts ==> ',' !in part
    ensures Split(Join(parts, ','), ',') == parts
  {
    SplitOfOnePiece(parts[0], ',');
    if |parts| > 1 {
      SplitOfJoined(parts[1..]);
      SplitAtSeparator(parts[0], ',', Join(parts[1..], ','));
      assert [parts[0]] + parts[1..] == parts;
    }
  }

  predicate ReadAsMeant(value: string) {
    Parse(value).maxAge == LastAgeInAnyCase(Split(value, ','))
  }

  ghost predicate AlwaysReadAsMeant(ds: seq<Directive>)
    requires ds != []
  {
    forall ages: seq<u64> | |ages| == |ds| :: ReadAsMeant(Join(AllSpelled(ds, ages), ','))
  }

  /** Exactly which spellings are safe: whatever the ages, the one that is meant is the
      one that is read, if and only if the last `max-age` is in lower case, or there is
      none. */
  lemma SpellingIsReadExactlyWhen(ds: seq<Directive>)
    requires ds != [] && forall d :: d in ds ==> WellSpelled(d)
    ensures AlwaysReadAsMeant(ds) <==> LastName(ds).None? || LastName(ds).value == MAX_AGE
  {
    hide WellSpelled, ReadAsMeant, AllSpelled, LastName, IsLowerCased;
    forall ages: seq<u64> | |ages| == |ds|
      ensures LastName(ds).None? || LastName(ds).value == MAX_AGE ==> ReadAsMeant(Join(AllSpelled(ds, ages), ','))
    {
      LastAgedIsLastName(ds, ages);
      SafeSpellingIsRead(AllSpelled(ds, ages));
    }
    if LastName(ds).Some? && LastName(ds).value != MAX_AGE {
      LastAgedIsLastName(ds, Telling(ds));
      TellingAgesTell(ds);
      UnsafeSpellingIsNotRead(AllSpelled(ds, Telling(ds)));
      assert !ReadAsMeant(Join(AllSpelled(ds, Telling(ds)), ','));
    }
  }

  lemma SafeSpellingIsRead(parts: seq<string>)
    requires parts != [] && forall part :: part in parts ==> ',' !in part
    ensures LastAged(parts).None? || IsLowerCased(LastAged(parts).value) ==> ReadAsMeant(Join(parts, ','))
  {
    SplitOfJoined(parts);
    AgeIsReadExactlyWhen(Join(parts, ','));
  }

  lemma UnsafeSpellingIsNotRead(parts: seq<string>)
    requires parts != [] && forall part :: part in parts ==> ',' !in part
    requires LastAge(parts) != LastAgeInAnyCase(parts)
    ensures !ReadAsMeant(Join(parts, ','))
  {
    SplitOfJoined(parts);
    ParseMeaning(Join(parts, ','));
  }
}
