/** The string operations that header parsing uses. */
module Text {
  import opened Basics

  // ---------- split ----------

  /** `split(sep)`: the pieces between separators, always at least one. */
  function Split(s: string, sep: char): (pieces: seq<string>)
    ensures |pieces| >= 1
  {
    if s == "" then [""]
    else
      var rest := Split(s[1..], sep);
      if s[0] == sep then [""] + rest else InFront(s[0], rest)
  }

  /** A character put in front of the first piece. */
  function InFront(c: char, pieces: seq<string>): (longer: seq<string>)
    requires |pieces| >= 1
    ensures |longer| == |pieces|
  {
    [[c] + pieces[0]] + pieces[1..]
  }

  lemma InFrontOfConcatenation(c: char, a: seq<string>, b: seq<string>)
    requires |a| >= 1
    ensures InFront(c, a + b) == InFront(c, a) + b
  {
  }

  function Join(pieces: seq<string>, sep: char): string
    requires |pieces| >= 1
  {
    if |pieces| == 1 then pieces[0] else pieces[0] + [sep] + Join(pieces[1..], sep)
  }

  lemma {:induction false} SplitAtSeparator(a: string, sep: char, b: string)
    ensures Split(a + [sep] + b, sep) == Split(a, sep) + Split(b, sep)
  {
    var s := a + [sep] + b;
    if a == "" {
      assert s[1..] == b;
    } else {
      SplitAtSeparator(a[1..], sep, b);
      assert s[1..] == a[1..] + [sep] + b && s[0] == a[0];
      if a[0] == sep {
        AppendAssociates([""], Split(a[1..], sep), Split(b, sep));
      } else {
        InFrontOfConcatenation(a[0], Split(a[1..], sep), Split(b, sep));
      }
    }
  }

  lemma {:induction false} SplitOfOnePiece(s: string, sep: char)
    requires sep !in s
    ensures Split(s, sep) == [s]
  {
    if s != "" {
      SplitOfOnePiece(s[1..], sep);
      assert [s[0]] + s[1..] == s;
    }
  }

  // ---------- trim ----------

  /** Header values that are readable as text hold no other white space. */
  predicate IsSpace(c: char) {
    c == ' ' || c == '\t'
  }

  function TrimStart(s: string): string {
    if s != "" && IsSpace(s[0]) then TrimStart(s[1..]) else s
  }

  function TrimEnd(s: string): string {
    if s != "" && IsSpace(s[|s| - 1]) then TrimEnd(s[..|s| - 1]) else s
  }

  function Trim(s: string): string {
    TrimEnd(TrimStart(s))
  }

  // ---------- ASCII case ----------

  function LowerChar(c: char): char {
    if 'A' <= c <= 'Z' then c - 'A' + 'a' else c
  }

  function Lower(s: string): string {
    seq(|s|, i requires 0 <= i < |s| => LowerChar(s[i]))
  }

  predicate EqIgnoreAsciiCase(a: string, b: string) {
    Lower(a) == Lower(b)
  }

  // ---------- u64 ----------

  predicate IsDigit(c: char) {
    '0' <= c <= '9'
  }

  function DecimalValue(digits: string): nat
    requires forall c :: c in digits ==> IsDigit(c)
  {
    if digits == "" then 0
    else
      assert digits[|digits| - 1] in digits && IsDigit(digits[|digits| - 1]);
      10 * DecimalValue(digits[..|digits| - 1]) + (digits[|digits| - 1] as int - '0' as int)
  }

  /** `str::parse::<u64>`: one leading plus is allowed, and overflow is an error. */
  function ParseU64(s: string): Option<u64> {
    var digits := if s != "" && s[0] == '+' then s[1..] else s;
    if digits == "" || exists c :: c in digits && !IsDigit(c) then None
    else
      var value := DecimalValue(digits);
      if value < U64_LIMIT then Some(value) else None
  }

  /** `to_string` on an unsigned integer. */
  function ToDecimal(n: nat): string {
    if n < 10 then [DigitChar(n)] else ToDecimal(n / 10) + [DigitChar(n % 10)]
  }

  function DigitChar(n: nat): char
    requires n < 10
  {
    '0' + n as char
  }

  lemma {:induction false} ToDecimalValue(n: nat)
    ensures ToDecimal(n) != "" && forall c :: c in ToDecimal(n) ==> IsDigit(c)
    ensures DecimalValue(ToDecimal(n)) == n
  {
    if n >= 10 {
      ToDecimalValue(n / 10);
      var s := ToDecimal(n);
      assert s[..|s| - 1] == ToDecimal(n / 10);
    }
  }

  lemma ParseOfToDecimal(n: u64)
    ensures ParseU64(ToDecimal(n)) == Some(n)
  {
    ToDecimalValue(n);
    assert ToDecimal(n)[0] in ToDecimal(n);
  }

  // ---------- What these come to ----------

  /** Letters of either case, and nothing else, are brought to lower case. */
  lemma LowerCharMeaning(c: char, i: nat)
    requires i < 26
    ensures LowerChar("ABCDEFGHIJKLMNOPQRSTUVWXYZ"[i]) == "abcdefghijklmnopqrstuvwxyz"[i]
    ensures c !in "ABCDEFGHIJKLMNOPQRSTUVWXYZ" ==> LowerChar(c) == c
  {
    var upper, lower := "ABCDEFGHIJKLMNOPQRSTUVWXYZ", "abcdefghijklmnopqrstuvwxyz";
    assert upper[i] == 'A' + i as char && lower[i] == 'a' + i as char;
    if 'A' <= c <= 'Z' {
      var k := c as int - 'A' as int;
      assert upper[k] == 'A' + k as char == c;
    }
  }

  lemma {:induction false} TrimEndOfSpace(s: string, space: string)
    requires (forall c :: c in space ==> IsSpace(c)) && (s == "" || !IsSpace(s[|s| - 1]))
    ensures TrimEnd(s + space) == s
  {
    if space == "" {
      assert s + space == s;
    } else {
      var init := space[..|space| - 1];
      assert space[|space| - 1] in space && (s + space)[..|s + space| - 1] == s + init;
      TrimEndOfSpace(s, init);
    }
  }

  lemma {:induction false} TrimStartOfSpace(space: string, s: string)
    requires (forall c :: c in space ==> IsSpace(c)) && (s == "" || !IsSpace(s[0]))
    ensures TrimStart(space + s) == s
  {
    if space == "" {
      assert space + s == s;
    } else {
      assert space[0] in space && (space + s)[1..] == space[1..] + s;
      TrimStartOfSpace(space[1..], s);
    }
  }

  /** Spaces and tabs go from both ends, and nothing else goes. */
  lemma TrimMeaning(front: string, word: string, back: string)
    requires forall c :: c in front + back ==> c == ' ' || c == '\t'
    requires word != "" ==> word[0] !in " \t" && word[|word| - 1] !in " \t"
    ensures Trim(front + word + back) == word
  {
    assert forall c :: c in front || c in back ==> c in front + back;
    if word == "" {
      assert front + word + back == (front + back) + "";
      TrimStartOfSpace(front + back, "");
    } else {
      assert front + word + back == front + (word + back) && (word + back)[0] == word[0];
      TrimStartOfSpace(front, word + back);
      TrimEndOfSpace(word, back);
    }
  }

  lemma {:induction false} LeadingNoughts(noughts: string, digits: string)
    requires (forall c :: c in noughts ==> c == '0') && forall c :: c in digits ==> IsDigit(c)
    ensures forall c :: c in noughts + digits ==> IsDigit(c)
    ensures DecimalValue(noughts + digits) == DecimalValue(digits)
    decreases |noughts| + |digits|
  {
    var s := noughts + digits;
    if digits != "" {
      var init := digits[..|digits| - 1];
      assert s[..|s| - 1] == noughts + init && s[|s| - 1] == digits[|digits| - 1];
      LeadingNoughts(noughts, init);
    } else if noughts != "" {
      var init := noughts[..|noughts| - 1];
      assert s == noughts && init + digits == init && s[|s| - 1] in noughts;
      assert forall c :: c in init ==> c in noughts;
      LeadingNoughts(init, digits);
    }
  }

  /** Every string of digits is noughts and then a number as it is written. */
  lemma {:induction false} DigitsAreANumber(digits: string) returns (noughts: string)
    requires digits != "" && forall c :: c in digits ==> IsDigit(c)
    ensures (forall c :: c in noughts ==> c == '0') && digits == noughts + ToDecimal(DecimalValue(digits))
  {
    var init, last := digits[..|digits| - 1], digits[|digits| - 1];
    assert last in digits && digits == init + [last];
    assert forall c :: c in init ==> c in digits;
    if init == "" {
      noughts := "";
      assert DecimalValue(digits) == last as int - '0' as int;
    } else {
      noughts := DigitsAreANumber(init);
      noughts := OneMoreDigit(noughts, DecimalValue(init), last);
    }
  }

  /** A digit put behind a number, or behind nought. */
  lemma OneMoreDigit(before: string, n: nat, last: char) returns (noughts: string)
    requires (forall c :: c in before ==> c == '0') && IsDigit(last)
    ensures forall c :: c in noughts ==> c == '0'
    ensures before + ToDecimal(n) + [last] == noughts + ToDecimal(10 * n + (last as int - '0' as int))
  {
    var d := last as int - '0' as int;
    assert ToDecimal(d) == [last];
    if n == 0 {
      noughts := before + ToDecimal(0);
    } else {
      noughts := before;
      assert (10 * n + d) / 10 == n && (10 * n + d) % 10 == d;
      assert ToDecimal(10 * n + d) == ToDecimal(n) + [last];
    }
  }

  /** The string is a number as it is written, behind noughts and a plus, if any. */
  ghost predicate Writes(s: string, n: nat) {
    exists plus, noughts | plus in {"", "+"} && (forall c :: c in noughts ==> c == '0') ::
      s == plus + noughts + ToDecimal(n)
  }

  function Digits(s: string): string {
    if s != "" && s[0] == '+' then s[1..] else s
  }

  lemma ParsedDigits(s: string)
    requires ParseU64(s).Some?
    ensures Digits(s) != "" && (forall c :: c in Digits(s) ==> IsDigit(c))
    ensures ParseU64(s).value == DecimalValue(Digits(s))
  {
    hide DecimalValue;
  }

  lemma WritesBehind(s: string, plus: string, noughts: string, n: nat)
    requires plus in {"", "+"} && (forall c :: c in noughts ==> c == '0') && s == plus + (noughts + ToDecimal(n))
    ensures Writes(s, n)
  {
    hide ToDecimal;
    assert s == plus + noughts + ToDecimal(n);
  }

  lemma ParsedIsWritten(s: string)
    requires ParseU64(s).Some?
    ensures Writes(s, ParseU64(s).value)
  {
    ParsedDigits(s);
    hide ParseU64, DecimalValue, ToDecimal, Writes, IsDigit;
    var noughts := DigitsAreANumber(Digits(s));
    if s != "" && s[0] == '+' {
      assert s == "+" + Digits(s);
      WritesBehind(s, "+", noughts, ParseU64(s).value);
    } else {
      assert s == "" + Digits(s);
      WritesBehind(s, "", noughts, ParseU64(s).value);
    }
  }

  lemma DigitsBehind(plus: string, number: string)
    requires plus in {"", "+"} && number != "" && IsDigit(number[0])
    ensures Digits(plus + number) == number
  {
    if plus == "" {
      assert plus + number == number;
    } else {
      assert (plus + number)[0] == '+' && (plus + number)[1..] == number;
    }
  }

  lemma DigitsAreParsed(s: string)
    requires Digits(s) != "" && forall c :: c in Digits(s) ==> IsDigit(c)
    ensures ParseU64(s) == if DecimalValue(Digits(s)) < U64_LIMIT then Some(DecimalValue(Digits(s))) else None
  {
    hide DecimalValue;
  }

  lemma WrittenIsParsed(s: string, plus: string, noughts: string, n: nat)
    requires plus in {"", "+"} && (forall c :: c in noughts ==> c == '0') && s == plus + noughts + ToDecimal(n)
    ensures ParseU64(s) == if n < U64_LIMIT then Some(n) else None
  {
    var number := noughts + ToDecimal(n);
    ToDecimalValue(n);
    LeadingNoughts(noughts, ToDecimal(n));
    hide ToDecimal, DecimalValue, ParseU64, Digits, IsDigit;
    assert number[0] in number && s == plus + number;
    DigitsBehind(plus, number);
    DigitsAreParsed(s);
  }

  /** A number is what is left behind a plus, if there is one, and noughts, if there are
      any, as it is written in decimal; and it is below 2^64. */
  lemma ParseU64Meaning(s: string, n: nat)
    ensures ParseU64(s) == Some(n) <==>
            && n < 0x1_0000_0000_0000_0000
            && exists plus, noughts | plus in {"", "+"} && (forall c :: c in noughts ==> c == '0') ::
                 s == plus + noughts + ToDecimal(n)
  {
    if ParseU64(s) == Some(n) {
      ParsedIsWritten(s);
    }
    hide ParseU64, ToDecimal;
    if plus, noughts :|
      plus in {"", "+"} && (forall c :: c in noughts ==> c == '0') && s == plus + noughts + ToDecimal(n)
    {
      WrittenIsParsed(s, plus, noughts, n);
    }
  }

  /** Decimal is decimal. */
  lemma ToDecimalMeaning(n: nat, d: nat)
    requires d < 10
    ensures ToDecimal(d) == ["0123456789"[d]]
    ensures n > 0 ==> ToDecimal(10 * n + d) == ToDecimal(n) + ToDecimal(d)
  {
    assert "0123456789"[d] == '0' + d as char;
    if n > 0 {
      assert (10 * n + d) / 10 == n && (10 * n + d) % 10 == d;
    }
  }
}
