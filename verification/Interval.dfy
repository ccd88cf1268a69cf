/**
  Intervals and their textual forms (sea-orm-timescale/src/types.rs): display,
  and the parser that tries a short form before the full one.
 */
module Interval {
  import opened Options
  import opened Text

  datatype Unit = Microseconds | Milliseconds | Seconds | Minutes | Hours | Days | Weeks | Months

  /** `n` is an `i64`. */
  datatype Interval = Interval(unit: Unit, n: int)

  datatype ParseError = InvalidFormat(text: string) | InvalidNumber(text: string) | UnknownUnit(text: string)

  const I64_MIN := -0x8000_0000_0000_0000

  const I64_MAX := 0x7FFF_FFFF_FFFF_FFFF

  predicate IsI64(n: int) {
    I64_MIN <= n <= I64_MAX
  }

  // --------------------------------------------------------------------- numbers

  predicate IsDigit(c: char) {
    '0' <= c <= '9'
  }

  function DigitChar(d: nat): char
    requires d < 10
  {
    ('0' as int + d) as char
  }

  /** Decimal digits, without leading zeros. */
  function ShowNat(n: nat): (s: string)
    ensures s != [] && forall c | c in s :: IsDigit(c)
  {
    if n < 10 then [DigitChar(n)] else ShowNat(n / 10) + [DigitChar(n % 10)]
  }

  function ShowInt(n: int): (s: string)
    ensures s != []
  {
    if n < 0 then "-" + ShowNat(-n) else ShowNat(n)
  }

  predicate AllDigits(s: string) {
    s != [] && forall c | c in s :: IsDigit(c)
  }

  function ReadNat(s: string): nat
    requires forall c | c in s :: IsDigit(c)
  {
    if s == [] then 0
    else
      var last := s[|s| - 1];
      assert last in s && IsDigit(last);
      10 * ReadNat(s[..|s| - 1]) + (last as int - '0' as int)
  }

  /** `str::parse::<i64>`: an optional sign, at least one digit, in range. */
  function ParseI64(s: string): Option<int> {
    var negative := s != [] && s[0] == '-';
    var digits := if s != [] && (s[0] == '-' || s[0] == '+') then s[1..] else s;
    if !AllDigits(digits) then None
    else
      var v: int := if negative then -(ReadNat(digits) as int) else ReadNat(digits);
      if IsI64(v) then Some(v) else None
  }

  lemma {:induction false} ReadShowNat(n: nat)
    ensures ReadNat(ShowNat(n)) == n
  {
    if n >= 10 {
      ReadShowNat(n / 10);
      var s := ShowNat(n);
      assert s[..|s| - 1] == ShowNat(n / 10);
    } else {
      assert ShowNat(n)[..0] == [];
    }
  }

  lemma ParseShowInt(n: int)
    requires IsI64(n)
    ensures ParseI64(ShowInt(n)) == Some(n)
  {
    if n < 0 {
      ReadShowNat(-n);
      assert ShowInt(n)[0] == '-' && ShowInt(n)[1..] == ShowNat(-n);
    } else {
      ReadShowNat(n);
      assert ShowInt(n)[0] in ShowNat(n);
    }
  }

  // ------------------------------------------------------------------------ text

  function TrimStart(s: string): string {
    if s != [] && IsSpace(s[0]) then TrimStart(s[1..]) else s
  }

  function TrimEnd(s: string): string {
    if s != [] && IsSpace(s[|s| - 1]) then TrimEnd(s[..|s| - 1]) else s
  }

  function Trim(s: string): string {
    TrimEnd(TrimStart(s))
  }

  predicate IsAlpha(c: char) {
    'a' <= c <= 'z' || 'A' <= c <= 'Z'
  }

  function LowerChar(c: char): char {
    if 'A' <= c <= 'Z' then (c as int + 32) as char else c
  }

  function Lower(s: string): string {
    if s == [] then [] else [LowerChar(s[0])] + Lower(s[1..])
  }

  /** Length in bytes, as `str::len` counts it. */
  function Utf8Len(s: string): nat {
    if s == [] then 0
    else
      var n := s[0] as int;
      (if n < 0x80 then 1 else if n < 0x800 then 2 else if n < 0x1_0000 then 3 else 4) + Utf8Len(s[1..])
  }

  /** Index of the first ASCII letter, or the length. */
  function Boundary(s: string): (n: nat)
    ensures n <= |s|
  {
    if s == [] || IsAlpha(s[0]) then 0 else 1 + Boundary(s[1..])
  }

  /** Index of the first blank, or the length. */
  function FirstBlank(s: string): (n: nat)
    ensures n <= |s|
  {
    if s == [] || s[0] == ' ' then 0 else 1 + FirstBlank(s[1..])
  }

  // ------------------------------------------------------------------ the parser

  /** The single- and two-letter codes. */
  function ShortUnit(code: string): Option<Unit> {
    match code
    case "us" => Some(Microseconds)
    case "ms" => Some(Milliseconds)
    case "s" => Some(Seconds)
    case "m" => Some(Minutes)
    case "h" => Some(Hours)
    case "d" => Some(Days)
    case "w" => Some(Weeks)
    case "M" => Some(Months)
    case _ => None
  }

  function FullUnit(name: string): Option<Unit> {
    if name == "microsecond" || name == "microseconds" || name == "us" then Some(Microseconds)
    else if name == "millisecond" || name == "milliseconds" || name == "ms" then Some(Milliseconds)
    else if name == "second" || name == "seconds" || name == "sec" || name == "secs" then Some(Seconds)
    else if name == "minute" || name == "minutes" || name == "min" || name == "mins" then Some(Minutes)
    else if name == "hour" || name == "hours" || name == "hr" || name == "hrs" then Some(Hours)
    else if name == "day" || name == "days" then Some(Days)
    else if name == "week" || name == "weeks" then Some(Weeks)
    else if name == "month" || name == "months" || name == "mon" || name == "mons" then Some(Months)
    else None
  }

  /** No result means the text is not in short form and the full form is tried. */
  function TryParseShort(s: string): Option<Result<Interval, ParseError>> {
    var boundary := Boundary(s);
    if boundary == |s| || boundary == 0 then None
    else
      var num, unit := s[..boundary], s[boundary..];
      if Utf8Len(unit) > 2 || ' ' in unit then None
      else
        match ParseI64(num)
        case None => Some(Err(InvalidNumber(num)))
        case Some(v) =>
          (match ShortUnit(unit)
           case None => None
           case Some(u) => Some(Ok(Interval(u, v))))
  }

  function ParseFull(s: string): Result<Interval, ParseError> {
    var blank := FirstBlank(s);
    if blank == |s| then Err(InvalidFormat(s))
    else
      match ParseI64(s[..blank])
      case None => Err(InvalidNumber(s[..blank]))
      case Some(v) =>
        var unit := Lower(Trim(s[blank + 1..]));
        (match FullUnit(unit)
         case None => Err(UnknownUnit(unit))
         case Some(u) => Ok(Interval(u, v)))
  }

  function Parse(text: string): Result<Interval, ParseError> {
    var s := Trim(text);
    var short := TryParseShort(s);
    if short.Some? then short.value else ParseFull(s)
  }

  // ----------------------------------------------------------------------- display

  function UnitName(u: Unit): string {
    match u
    case Microseconds => "microseconds"
    case Milliseconds => "milliseconds"
    case Seconds => "seconds"
    case Minutes => "minutes"
    case Hours => "hours"
    case Days => "days"
    case Weeks => "weeks"
    case Months => "months"
  }

  function ShortCode(u: Unit): string {
    match u
    case Microseconds => "us"
    case Milliseconds => "ms"
    case Seconds => "s"
    case Minutes => "m"
    case Hours => "h"
    case Days => "d"
    case Weeks => "w"
    case Months => "M"
  }

  function Display(i: Interval): string {
    ShowInt(i.n) + " " + UnitName(i.unit)
  }

  // ------------------------------------------------------------- text of a number

  /** Neither blank nor letter: what the digits and the sign of a number are. */
  predicate NumberChars(s: string) {
    s != [] && forall c | c in s :: !IsSpace(c) && !IsAlpha(c) && c != ' '
  }

  lemma ShowIntChars(n: int)
    ensures NumberChars(ShowInt(n))
  {
  }

  lemma TrimKeeps(s: string)
    requires s != [] && !IsSpace(s[0]) && !IsSpace(s[|s| - 1])
    ensures Trim(s) == s
  {
  }

  lemma {:induction false} BoundaryAfter(num: string, rest: string)
    requires (forall c | c in num :: !IsAlpha(c)) && (rest == [] || IsAlpha(rest[0]))
    ensures Boundary(num + rest) == |num|
  {
    if num == [] {
      assert num + rest == rest;
    } else {
      assert num[0] in num;
      assert (num + rest)[1..] == num[1..] + rest;
      BoundaryAfter(num[1..], rest);
    }
  }

  lemma {:induction false} FirstBlankAfter(num: string, rest: string)
    requires (forall c | c in num :: c != ' ') && rest != [] && rest[0] == ' '
    ensures FirstBlank(num + rest) == |num|
  {
    if num == [] {
      assert num + rest == rest;
    } else {
      assert num[0] in num && forall c | c in num[1..] :: c in num;
      assert (num + rest)[1..] == num[1..] + rest;
      FirstBlankAfter(num[1..], rest);
    }
  }

  /** A unit made of ASCII letters only. */
  predicate Letters(s: string) {
    s != [] && forall c | c in s :: IsAlpha(c)
  }

  lemma {:induction false} LettersLen(s: string)
    requires forall c | c in s :: IsAlpha(c)
    ensures Utf8Len(s) == |s| && ' ' !in s
  {
    if s != [] {
      assert s[0] in s;
      LettersLen(s[1..]);
    }
  }

  // -------------------------------------------------------------------- short form

  /** A number directly followed by a unit's code is in short form. */
  lemma ShortFormAccepts(num: string, u: Unit, n: int)
    requires ParseI64(num) == Some(n)
    ensures TryParseShort(num + ShortCode(u)) == Some(Ok(Interval(u, n)))
  {
    var code := ShortCode(u);
    NumbersHaveNoLetters(num);
    ShortCodeLetters(u);
    LettersLen(code);
    assert code[0] in code;
    BoundaryAfter(num, code);
    assert (num + code)[..|num|] == num && (num + code)[|num|..] == code;
  }

  /** The short form of every interval parses to it. */
  lemma ShortFormParses(u: Unit, n: int)
    requires IsI64(n)
    ensures Parse(ShowInt(n) + ShortCode(u)) == Ok(Interval(u, n))
  {
    var num, code := ShowInt(n), ShortCode(u);
    ShowIntChars(n);
    ParseShowInt(n);
    ShortFormAccepts(num, u, n);
    ShortCodeLetters(u);
    assert num[0] in num && code[|code| - 1] in code;
    TrimKeeps(num + code);
  }

  lemma ShortCodeLetters(u: Unit)
    ensures Letters(ShortCode(u)) && |ShortCode(u)| <= 2
    ensures ShortUnit(ShortCode(u)) == Some(u)
  {
  }

  lemma ShortUnitIff(code: string, u: Unit)
    ensures ShortUnit(code) == Some(u) <==> code == ShortCode(u)
  {
  }

  /** The short form accepts exactly a number directly followed by one of the eight codes. */
  lemma ShortFormIff(s: string, u: Unit, n: int)
    ensures TryParseShort(s) == Some(Ok(Interval(u, n))) <==>
      exists k :: 0 <= k <= |s| && ParseI64(s[..k]) == Some(n) && s[k..] == ShortCode(u)
  {
    if TryParseShort(s) == Some(Ok(Interval(u, n))) {
      ShortUnitIff(s[Boundary(s)..], u);
    }
    if k :| 0 <= k <= |s| && ParseI64(s[..k]) == Some(n) && s[k..] == ShortCode(u) {
      assert s == s[..k] + s[k..];
      ShortFormAccepts(s[..k], u, n);
    }
  }

  /** What a number is: digits, perhaps with one sign, that denote a 64-bit value; leading zeros do not matter. */
  lemma ParseI64Iff(digits: string)
    requires AllDigits(digits)
    ensures ParseI64(digits) == (if ReadNat(digits) <= I64_MAX then Some(ReadNat(digits)) else None)
    ensures ParseI64("+" + digits) == ParseI64(digits)
    ensures ParseI64("-" + digits) == (if ReadNat(digits) <= I64_MAX + 1 then Some(-(ReadNat(digits) as int)) else None)
    ensures ReadNat("0" + digits) == ReadNat(digits)
  {
    assert digits[0] in digits;
    assert ("+" + digits)[1..] == digits && ("-" + digits)[1..] == digits;
    LeadingZero(digits);
  }

  lemma {:induction false} LeadingZero(digits: string)
    requires forall c | c in digits :: IsDigit(c)
    ensures ReadNat("0" + digits) == ReadNat(digits)
    decreases |digits|
  {
    if digits == [] {
      assert "0" + digits == "0" && "0"[..0] == [];
    } else {
      var n := |digits| - 1;
      assert ("0" + digits)[..n + 1] == "0" + digits[..n];
      assert forall c | c in digits[..n] :: c in digits;
      LeadingZero(digits[..n]);
    }
  }

  lemma OnlyNumbersParse(s: string)
    requires ParseI64(s).Some?
    ensures AllDigits(s) || (s != [] && (s[0] == '-' || s[0] == '+') && AllDigits(s[1..]))
    ensures IsI64(ParseI64(s).value)
  {
  }

  /** The eight codes; only months and minutes differ in case alone. */
  lemma ShortCodesAre()
    ensures ShortUnit("us") == Some(Microseconds) && ShortUnit("ms") == Some(Milliseconds)
    ensures ShortUnit("s") == Some(Seconds) && ShortUnit("m") == Some(Minutes) && ShortUnit("h") == Some(Hours)
    ensures ShortUnit("d") == Some(Days) && ShortUnit("w") == Some(Weeks) && ShortUnit("M") == Some(Months)
  {
  }

  // --------------------------------------------------------------------- full form

  /** What each unit may be called in the full form. */
  function NamesOf(u: Unit): set<string> {
    match u
    case Microseconds => {"microsecond", "microseconds", "us"}
    case Milliseconds => {"millisecond", "milliseconds", "ms"}
    case Seconds => {"second", "seconds", "sec", "secs"}
    case Minutes => {"minute", "minutes", "min", "mins"}
    case Hours => {"hour", "hours", "hr", "hrs"}
    case Days => {"day", "days"}
    case Weeks => {"week", "weeks"}
    case Months => {"month", "months", "mon", "mons"}
  }

  lemma FullUnitIff(name: string, u: Unit)
    ensures FullUnit(name) == Some(u) <==> name in NamesOf(u)
  {
    if name in NamesOf(u) {
      NamesAreUnits(name, u);
    } else if FullUnit(name) == Some(u) {
      UnitsHaveNames(name, u);
    }
  }

  lemma NamesAreUnits(name: string, u: Unit)
    requires name in NamesOf(u)
    ensures FullUnit(name) == Some(u)
  {
    SubSecondNames();
    ClockNames();
    DayNames();
    MonthNames();
  }

  lemma SubSecondNames()
    ensures FullUnit("microsecond") == FullUnit("microseconds") == FullUnit("us") == Some(Microseconds)
    ensures FullUnit("millisecond") == FullUnit("milliseconds") == FullUnit("ms") == Some(Milliseconds)
  {
  }

  lemma ClockNames()
    ensures FullUnit("second") == FullUnit("seconds") == FullUnit("sec") == FullUnit("secs") == Some(Seconds)
    ensures FullUnit("minute") == FullUnit("minutes") == FullUnit("min") == FullUnit("mins") == Some(Minutes)
    ensures FullUnit("hour") == FullUnit("hours") == FullUnit("hr") == FullUnit("hrs") == Some(Hours)
  {
  }

  lemma DayNames()
    ensures FullUnit("day") == FullUnit("days") == Some(Days)
    ensures FullUnit("week") == FullUnit("weeks") == Some(Weeks)
  {
  }

  lemma MonthNames()
    ensures FullUnit("month") == FullUnit("months") == FullUnit("mon") == FullUnit("mons") == Some(Months)
  {
  }

  lemma UnitsHaveNames(name: string, u: Unit)
    requires FullUnit(name) == Some(u)
    ensures name in NamesOf(u)
  {
  }

  /** The number before the first blank, and the trimmed unit after it, as the full parser splits a trimmed text. */
  function NumberPart(s: string): string {
    s[..FirstBlank(s)]
  }

  function UnitPart(s: string): string {
    if FirstBlank(s) < |s| then Trim(s[FirstBlank(s) + 1..]) else []
  }

  lemma {:induction false} TrimStartAt(s: string)
    ensures |TrimStart(s)| <= |s| && s[|s| - |TrimStart(s)|..] == TrimStart(s)
    ensures forall k | 0 <= k < |s| - |TrimStart(s)| :: IsSpace(s[k])
  {
    if s != [] && IsSpace(s[0]) {
      var t := s[1..];
      TrimStartAt(t);
      assert forall k | 1 <= k < |s| :: s[k] == t[k - 1];
    }
  }

  lemma {:induction false} TrimStartStops(s: string)
    ensures TrimStart(s) != [] ==> !IsSpace(TrimStart(s)[0])
  {
    if s != [] && IsSpace(s[0]) {
      TrimStartStops(s[1..]);
    }
  }

  lemma TrimStartSplits(s: string)
    ensures |TrimStart(s)| <= |s| && s == s[..|s| - |TrimStart(s)|] + TrimStart(s)
    ensures forall c | c in s[..|s| - |TrimStart(s)|] :: IsSpace(c)
    ensures TrimStart(s) != [] ==> !IsSpace(TrimStart(s)[0])
  {
    TrimStartAt(s);
    TrimStartStops(s);
  }

  lemma {:induction false} TrimEndIsPrefix(s: string)
    ensures TrimEnd(s) <= s
    ensures TrimEnd(s) != [] ==> !IsSpace(TrimEnd(s)[|TrimEnd(s)| - 1])
  {
    if s != [] && IsSpace(s[|s| - 1]) {
      TrimEndIsPrefix(s[..|s| - 1]);
    }
  }

  lemma TrimmedEnds(text: string)
    ensures var s := Trim(text); s != [] ==> !IsSpace(s[0]) && !IsSpace(s[|s| - 1])
  {
    TrimStartSplits(text);
    TrimEndIsPrefix(TrimStart(text));
  }

  lemma NumbersHaveNoLetters(num: string)
    requires ParseI64(num).Some?
    ensures forall c | c in num :: IsDigit(c) || c == '-' || c == '+'
  {
  }

  /** What comes before the unit of a trimmed text in full form: no letter in it, but a blank. */
  lemma UnitIsSuffix(s: string)
    requires s != [] && !IsSpace(s[|s| - 1]) && FirstBlank(s) < |s|
    requires ParseI64(NumberPart(s)).Some? && Letters(UnitPart(s))
    ensures var unit := UnitPart(s);
      && |unit| < |s| && s == s[..|s| - |unit|] + unit
      && ' ' in s[..|s| - |unit|] && forall c | c in s[..|s| - |unit|] :: !IsAlpha(c)
  {
    var num, rest := NumberPart(s), s[FirstBlank(s) + 1..];
    FirstBlankIsBlank(s);
    NumbersHaveNoLetters(num);
    assert s == num + [' '] + rest;
    TrimOfTail(rest);
    SuffixAfterBlank(num, rest, UnitPart(s));
  }

  /** A tail without trailing blanks is trimmed at its start only. */
  lemma TrimOfTail(rest: string)
    requires rest == [] || !IsSpace(rest[|rest| - 1])
    ensures var unit := Trim(rest);
      && |unit| <= |rest| && rest == rest[..|rest| - |unit|] + unit
      && forall c | c in rest[..|rest| - |unit|] :: IsSpace(c)
  {
    var kept := TrimStart(rest);
    TrimStartSplits(rest);
    TrimEndIsPrefix(kept);
    assert kept != [] ==> kept[|kept| - 1] == rest[|rest| - 1];
    assert Trim(rest) == kept;
  }

  lemma SpaceIsNoLetter(c: char)
    ensures IsSpace(c) ==> !IsAlpha(c)
  {
  }

  lemma SuffixAfterBlank(num: string, rest: string, unit: string)
    requires forall c | c in num :: !IsAlpha(c)
    requires |unit| <= |rest| && rest == rest[..|rest| - |unit|] + unit
    requires forall c | c in rest[..|rest| - |unit|] :: IsSpace(c)
    ensures var s := num + [' '] + rest;
      && |unit| < |s| && s == s[..|s| - |unit|] + unit
      && ' ' in s[..|s| - |unit|] && forall c | c in s[..|s| - |unit|] :: !IsAlpha(c)
  {
    var s, blanks := num + [' '] + rest, rest[..|rest| - |unit|];
    var before := num + [' '] + blanks;
    assert s == before + unit;
    assert s[..|s| - |unit|] == before;
    assert before[|num|] == ' ';
    forall c | c in before
      ensures !IsAlpha(c)
    {
      assert c in num || c == ' ' || c in blanks;
      SpaceIsNoLetter(c);
    }
  }

  lemma {:induction false} FirstBlankIsBlank(s: string)
    requires FirstBlank(s) < |s|
    ensures s[FirstBlank(s)] == ' '
  {
    if s[0] != ' ' {
      FirstBlankIsBlank(s[1..]);
    }
  }

  lemma NoNumberHasBlank(num: string)
    requires ' ' in num
    ensures ParseI64(num) == None
  {
  }

  /**
    What the short form makes of a text in full form: nothing if the unit has
    three letters or more, an error otherwise.
   */
  lemma ShortFormOnFull(s: string)
    requires s != [] && !IsSpace(s[|s| - 1]) && FirstBlank(s) < |s|
    requires ParseI64(NumberPart(s)).Some? && Letters(UnitPart(s))
    ensures var unit := UnitPart(s);
      |unit| <= |s| && TryParseShort(s) ==
        if |unit| > 2 then None else Some(Err(InvalidNumber(s[..|s| - |unit|])))
  {
    var unit := UnitPart(s);
    UnitIsSuffix(s);
    LettersLen(unit);
    var before := s[..|s| - |unit|];
    assert unit[0] in unit;
    BoundaryAfter(before, unit);
    assert s[|before|..] == unit;
    NoNumberHasBlank(before);
  }

  /**
    The full form, for every text that has a number before its first blank and a
    unit of ASCII letters after it, however many blanks and signs it is written
    with: it parses exactly when the lower-cased unit is in the parser's table
    and has at least three letters; a shorter unit makes it a short form with a
    malformed number.
   */
  lemma FullFormParses(text: string)
    requires var s := Trim(text);
      FirstBlank(s) < |s| && ParseI64(NumberPart(s)).Some? && Letters(UnitPart(s))
    ensures var s := Trim(text);
      var unit := UnitPart(s);
      |unit| <= |s| && Parse(text) ==
        if |unit| <= 2 then Err(InvalidNumber(s[..|s| - |unit|]))
        else
          match FullUnit(Lower(unit))
          case None => Err(UnknownUnit(Lower(unit)))
          case Some(u) => Ok(Interval(u, ParseI64(NumberPart(s)).value))
  {
    TrimmedEnds(text);
    ShortFormOnFull(Trim(text));
  }

  /** Lower-casing is letter by letter, and changes the upper-case letters only. */
  lemma {:induction false} LowerAt(s: string, i: nat)
    requires i < |s|
    ensures |Lower(s)| == |s|
    ensures Lower(s)[i] as int == if 'A' <= s[i] <= 'Z' then s[i] as int - 'A' as int + 'a' as int else s[i] as int
    decreases |s|
  {
    if i > 0 {
      LowerAt(s[1..], i - 1);
    } else if |s| > 1 {
      LowerAt(s[1..], 0);
    }
  }

  /** Why a text is rejected, where the short form does not apply: no blank, or no number before the first one. */
  lemma Rejections(text: string)
    requires TryParseShort(Trim(text)) == None
    ensures var s := Trim(text);
      && (' ' !in s ==> Parse(text) == Err(InvalidFormat(s)))
      && (forall k | 0 <= k < |s| && s[k] == ' ' && ' ' !in s[..k] && ParseI64(s[..k]) == None ::
            Parse(text) == Err(InvalidNumber(s[..k])))
  {
    var s := Trim(text);
    if FirstBlank(s) < |s| {
      FirstBlankIsBlank(s);
    }
    forall k | 0 <= k < |s| && s[k] == ' ' && ' ' !in s[..k]
      ensures FirstBlank(s) == k
    {
      assert s == s[..k] + s[k..];
      FirstBlankAfter(s[..k], s[k..]);
    }
  }

  /** A short code, or none, after something that is not a number: rejected at once. */
  lemma ShortFormRejects(num: string, code: string)
    requires num != [] && (forall c | c in num :: !IsAlpha(c)) && ParseI64(num) == None
    requires Letters(code) && |code| <= 2
    ensures TryParseShort(num + code) == Some(Err(InvalidNumber(num)))
  {
    assert code[0] in code;
    BoundaryAfter(num, code);
    LettersLen(code);
    assert (num + code)[..|num|] == num && (num + code)[|num|..] == code;
  }

  lemma {:induction false} LowerLetters(s: string)
    requires Letters(Lower(s))
    ensures Letters(s) && |Lower(s)| == |s|
    decreases |s|
  {
    assert Lower(s)[0] == LowerChar(s[0]) && Lower(s)[1..] == Lower(s[1..]);
    assert Lower(s)[0] in Lower(s);
    if |s| > 1 {
      assert forall c | c in Lower(s[1..]) :: c in Lower(s);
      assert Lower(s[1..])[0] == LowerChar(s[1]);
      LowerLetters(s[1..]);
      assert s == [s[0]] + s[1..];
    } else {
      assert s == [s[0]];
    }
  }

  /**
    The table's entries "us", "ms" and "hr" are dead: whenever the full parser is
    consulted and gets past the number, on any text at all, the unit it looks up
    is none of them.
   */
  lemma TwoLetterUnitsUnreached(text: string)
    requires var s := Trim(text);
      TryParseShort(s) == None && FirstBlank(s) < |s| && ParseI64(NumberPart(s)).Some?
    ensures var unit := Lower(UnitPart(Trim(text)));
      unit != "us" && unit != "ms" && unit != "hr" && (Letters(unit) ==> |unit| > 2)
  {
    var s := Trim(text);
    if Letters(Lower(UnitPart(s))) {
      LowerLetters(UnitPart(s));
      TrimmedEnds(text);
      ShortFormOnFull(s);
    }
  }

  /** A displayed interval is in full form. */
  lemma DisplayIsFull(n: int, unit: string)
    requires IsI64(n) && Letters(unit)
    ensures var s := ShowInt(n) + " " + unit;
      Trim(s) == s && FirstBlank(s) < |s| && ParseI64(NumberPart(s)) == Some(n) && UnitPart(s) == unit
  {
    var num := ShowInt(n);
    var s := num + " " + unit;
    ShowIntChars(n);
    ParseShowInt(n);
    assert num[0] in num && unit[|unit| - 1] in unit && unit[0] in unit;
    TrimKeeps(s);
    TrimKeeps(unit);
    Associative(num, " ", unit);
    FirstBlankAfter(num, " " + unit);
    SplitAtBlank(num, unit);
  }

  lemma SplitAtBlank(num: string, unit: string)
    ensures var s := num + " " + unit; s[..|num|] == num && s[|num| + 1..] == unit
  {
  }

  lemma UnitNameIsFull(u: Unit)
    ensures Letters(UnitName(u)) && |UnitName(u)| > 2
    ensures FullUnit(Lower(UnitName(u))) == Some(u)
  {
    LowerKeeps(UnitName(u));
  }

  lemma {:induction false} LowerKeeps(s: string)
    requires forall c | c in s :: 'a' <= c <= 'z'
    ensures Lower(s) == s
  {
    if s != [] {
      assert s[0] in s && forall c | c in s[1..] :: c in s;
      LowerKeeps(s[1..]);
    }
  }

  /** Round trip: parsing what is displayed gives the interval back, for every unit and every 64-bit number. */
  lemma ParseDisplay(i: Interval)
    requires IsI64(i.n)
    ensures Parse(Display(i)) == Ok(i)
    ensures TryParseShort(Display(i)) == None
  {
    UnitNameIsFull(i.unit);
    DisplayIsFull(i.n, UnitName(i.unit));
    FullFormParses(Display(i));
    TrimmedEnds(Display(i));
    ShortFormOnFull(Display(i));
  }

  /** The short and the full form of an interval parse to the same value. */
  lemma ShortAgreesWithFull(u: Unit, n: int)
    requires IsI64(n)
    ensures Parse(ShowInt(n) + ShortCode(u)) == Parse(ShowInt(n) + " " + UnitName(u))
  {
    ShortFormParses(u, n);
    ParseDisplay(Interval(u, n));
  }
}
