/** The seven typed fields of a strictly validated passport. Each field parses
    its raw `key:value` value totally -- a value that does not parse becomes
    "no value" -- and judges its own validity; a field with no value is never
    valid.
 */
module Fields {
  import opened Text

  //----------------------------------------------------------------------
  // Years
  //----------------------------------------------------------------------

  /** A year field holds a year in `first..=last`. */
  predicate YearWithin(year: Option<Int16>, first: int, last: int)
  {
    year.Some? && first <= year.value <= last
  }

  datatype BirthYear = BirthYear(value: Option<Int16>)
  {
    static function Parse(raw: string): BirthYear
    {
      BirthYear(ParseI16(raw))
    }

    predicate IsValid()
    {
      YearWithin(value, 1920, 2002)
    }
  }

  datatype IssueYear = IssueYear(value: Option<Int16>)
  {
    static function Parse(raw: string): IssueYear
    {
      IssueYear(ParseI16(raw))
    }

    predicate IsValid()
    {
      YearWithin(value, 2010, 2020)
    }
  }

  datatype ExpirationYear = ExpirationYear(value: Option<Int16>)
  {
    static function Parse(raw: string): ExpirationYear
    {
      ExpirationYear(ParseI16(raw))
    }

    predicate IsValid()
    {
      YearWithin(value, 2020, 2030)
    }
  }

  /** A year written out in decimal is accepted exactly when it lies in the
      field's inclusive range. */
  lemma YearFieldsAcceptTheirRange(year: Int16)
    ensures BirthYear.Parse(ShowInt(year)).IsValid() <==> 1920 <= year <= 2002
    ensures IssueYear.Parse(ShowInt(year)).IsValid() <==> 2010 <= year <= 2020
    ensures ExpirationYear.Parse(ShowInt(year)).IsValid() <==> 2020 <= year <= 2030
  {
    ParseShowInt(year, true, -0x8000, 0x7FFF);
  }

  /** A value that is not an `i16` in decimal leaves every year field invalid. */
  lemma YearFieldsRejectNonNumbers(raw: string)
    requires ParseInteger(raw, true, -0x8000, 0x7FFF).None?
    ensures !BirthYear.Parse(raw).IsValid()
    ensures !IssueYear.Parse(raw).IsValid()
    ensures !ExpirationYear.Parse(raw).IsValid()
  {
  }

  /** The three year fields over any text: valid exactly when the text is an
      optionally signed run of digits, leading zeros allowed, whose value lies
      in the field's range. */
  lemma BirthYearValidIff(raw: string)
    ensures BirthYear.Parse(raw).IsValid() <==>
              IntegerText(raw, true) && 1920 <= SignedValue(raw, true) <= 2002
  {
  }

  lemma IssueYearValidIff(raw: string)
    ensures IssueYear.Parse(raw).IsValid() <==>
              IntegerText(raw, true) && 2010 <= SignedValue(raw, true) <= 2020
  {
  }

  lemma ExpirationYearValidIff(raw: string)
    ensures ExpirationYear.Parse(raw).IsValid() <==>
              IntegerText(raw, true) && 2020 <= SignedValue(raw, true) <= 2030
  {
  }

  //----------------------------------------------------------------------
  // Height
  //----------------------------------------------------------------------

  datatype HeightUnit = In(inches: Int16) | Cm(centimeters: Int16)
  {
    function Amount(): Int16
    {
      match this
      case In(h) => h
      case Cm(h) => h
    }

    function Suffix(): string
    {
      match this
      case In(_) => "in"
      case Cm(_) => "cm"
    }
  }

  datatype Height = Height(value: Option<HeightUnit>)
  {
    /** The last two characters name the unit, the rest is the amount. */
    static function Parse(raw: string): (h: Height)
      ensures |raw| <= 2 ==> h.value.None?
      ensures h.value.Some? ==>
                && |raw| > 2
                && raw[|raw| - 2..] == h.value.value.Suffix()
                && ParseI16(raw[..|raw| - 2]) == Some(h.value.value.Amount())
      ensures |raw| > 2 && ParseI16(raw[..|raw| - 2]).Some? && raw[|raw| - 2..] in {"cm", "in"}
              ==> h.value.Some?
    {
      if |raw| <= 2 then Height(None)
      else
        match ParseI16(raw[..|raw| - 2])
        case None => Height(None)
        case Some(amount) =>
          var unit := raw[|raw| - 2..];
          if unit == "cm" then Height(Some(Cm(amount)))
          else if unit == "in" then Height(Some(In(amount)))
          else Height(None)
    }

    predicate IsValid()
    {
      && value.Some?
      && match value.value
         case Cm(h) => 150 <= h <= 193
         case In(h) => 59 <= h <= 76
    }
  }

  /** How a height is written in a passport: amount, then unit. */
  function FormatHeight(u: HeightUnit): string
  {
    ShowInt(u.Amount()) + u.Suffix()
  }

  /** Parsing a written height gives it back, so a written height is valid
      exactly when its amount is in its unit's range. */
  lemma HeightRoundTrip(u: HeightUnit)
    ensures Height.Parse(FormatHeight(u)) == Height(Some(u))
    ensures Height.Parse(FormatHeight(u)).IsValid() <==>
              (if u.Cm? then 150 <= u.Amount() <= 193 else 59 <= u.Amount() <= 76)
  {
    var digits := ShowInt(u.Amount());
    ShowIntNonEmpty(u.Amount());
    var raw := digits + u.Suffix();
    assert raw[..|raw| - 2] == digits;
    assert raw[|raw| - 2..] == u.Suffix();
    ParseShowInt(u.Amount(), true, -0x8000, 0x7FFF);
    assert ParseI16(digits) == Some(u.Amount());
  }

  /** A height over any text: valid exactly when it ends in `cm` with an
      amount in 150..=193 or in `in` with an amount in 59..=76, the amount
      being the optionally signed digits before the unit. */
  lemma HeightValidIff(raw: string)
    ensures Height.Parse(raw).IsValid() <==>
              && |raw| > 2
              && IntegerText(raw[..|raw| - 2], true)
              && var amount := SignedValue(raw[..|raw| - 2], true);
                 || (raw[|raw| - 2..] == "cm" && 150 <= amount <= 193)
                 || (raw[|raw| - 2..] == "in" && 59 <= amount <= 76)
  {
  }

  lemma ShowIntNonEmpty(n: int)
    ensures |ShowInt(n)| > 0
  {
  }

  //----------------------------------------------------------------------
  // Hair colour
  //----------------------------------------------------------------------

  datatype HairColor = HairColor(value: Option<string>)
  {
    static function Parse(raw: string): HairColor
    {
      HairColor(Some(raw))
    }

    /** `#` followed by exactly six hexadecimal digits, in either case. */
    predicate IsValid()
    {
      && value.Some?
      && |value.value| == 7
      && value.value[0] == '#'
      && forall i :: 1 <= i < 7 ==> IsHexDigit(value.value[i])
    }
  }

  function HexDigitChar(d: nat): (c: char)
    requires d < 16
    ensures IsHexDigit(c)
  {
    if d < 10 then DigitChar(d) else ('a' as int + (d - 10)) as char
  }

  /** The `#rrggbb` spelling of a 24-bit colour. */
  function ColourCode(rgb: nat): (s: string)
    requires rgb < 0x100_0000
    ensures |s| == 7
  {
    ['#'] + HexDigits(rgb, 6)
  }

  /** The lowest `width` hexadecimal digits of `n`, most significant first. */
  function HexDigits(n: nat, width: nat): (s: string)
    ensures |s| == width
    ensures forall i :: 0 <= i < width ==> IsHexDigit(s[i])
  {
    if width == 0 then ""
    else HexDigits(n / 16, width - 1) + [HexDigitChar(n % 16)]
  }

  /** Every 24-bit colour, written `#rrggbb`, is a valid hair colour. */
  lemma ColourCodesAreValid(rgb: nat)
    requires rgb < 0x100_0000
    ensures HairColor.Parse(ColourCode(rgb)).IsValid()
  {
    var s := ColourCode(rgb);
    assert forall i :: 1 <= i < 7 ==> s[i] == HexDigits(rgb, 6)[i - 1];
  }

  /** `c` with an upper-case hexadecimal letter lowered; other characters
      are kept. */
  function FoldHexCase(c: char): char
  {
    if 'A' <= c <= 'F' then (c as int + 32) as char else c
  }

  function FoldAll(s: string): (f: string)
    ensures |f| == |s| && forall i :: 0 <= i < |s| ==> f[i] == FoldHexCase(s[i])
  {
    seq(|s|, i requires 0 <= i < |s| => FoldHexCase(s[i]))
  }

  function HexDigitValue(c: char): (d: nat)
    requires IsHexDigit(c)
    ensures d < 16
  {
    if IsDigit(c) then DigitValue(c)
    else if 'a' <= c <= 'f' then c as int - 'a' as int + 10
    else c as int - 'A' as int + 10
  }

  function Pow16(n: nat): (p: nat)
    ensures p >= 1
  {
    if n == 0 then 1 else 16 * Pow16(n - 1)
  }

  /** The number a string of hexadecimal digits spells, in either case. */
  function HexValue(s: string): (v: nat)
    requires forall i :: 0 <= i < |s| ==> IsHexDigit(s[i])
    ensures v < Pow16(|s|)
    decreases |s|
  {
    if |s| == 0 then 0
    else 16 * HexValue(s[..|s| - 1]) + HexDigitValue(s[|s| - 1])
  }

  /** Writing a hexadecimal string's value back out gives the string with
      its letters in lower case. */
  lemma {:induction false} HexDigitsOfValue(s: string)
    requires forall i :: 0 <= i < |s| ==> IsHexDigit(s[i])
    ensures HexDigits(HexValue(s), |s|) == FoldAll(s)
    decreases |s|
  {
    if |s| > 0 {
      var p := s[..|s| - 1];
      var c := s[|s| - 1];
      var d := HexDigitValue(c);
      var n := HexValue(s);
      assert n == 16 * HexValue(p) + d;
      assert n / 16 == HexValue(p) && n % 16 == d;
      HexDigitsOfValue(p);
      assert HexDigitChar(d) == FoldHexCase(c);
      assert FoldAll(s) == FoldAll(p) + [FoldHexCase(c)];
    }
  }

  /** A hair colour is valid exactly when, with its hexadecimal letters
      lowered, it is the `#rrggbb` code of some 24-bit colour. */
  lemma HairColorValidIff(raw: string)
    ensures HairColor.Parse(raw).IsValid() <==>
              exists rgb: nat :: rgb < 0x100_0000 && ColourCode(rgb) == FoldAll(raw)
  {
    if HairColor.Parse(raw).IsValid() {
      var digits := raw[1..];
      var rgb := HexValue(digits);
      HexDigitsOfValue(digits);
      assert Pow16(6) == 0x100_0000;
      assert ColourCode(rgb) == FoldAll(raw);
    }
    if rgb: nat :| rgb < 0x100_0000 && ColourCode(rgb) == FoldAll(raw) {
      assert FoldAll(raw)[0] == '#';
      forall i | 1 <= i < 7
        ensures IsHexDigit(raw[i])
      {
        assert FoldAll(raw)[i] == HexDigits(rgb, 6)[i - 1];
      }
    }
  }

  //----------------------------------------------------------------------
  // Eye colour
  //----------------------------------------------------------------------

  datatype EyeColors = Ambar | Blue | Brown | Grey | Green | Hazel | Other

  /** The three-letter code of each eye colour. */
  function Code(c: EyeColors): string
  {
    match c
    case Ambar => "amb"
    case Blue => "blu"
    case Brown => "brn"
    case Grey => "gry"
    case Green => "grn"
    case Hazel => "hzl"
    case Other => "oth"
  }

  datatype EyeColor = EyeColor(value: Option<EyeColors>)
  {
    static function Parse(raw: string): (e: EyeColor)
      ensures e.value.Some? ==> Code(e.value.value) == raw
      ensures forall c :: Code(c) == raw ==> e.value == Some(c)
    {
      if raw == "amb" then EyeColor(Some(Ambar))
      else if raw == "blu" then EyeColor(Some(Blue))
      else if raw == "brn" then EyeColor(Some(Brown))
      else if raw == "gry" then EyeColor(Some(Grey))
      else if raw == "grn" then EyeColor(Some(Green))
      else if raw == "hzl" then EyeColor(Some(Hazel))
      else if raw == "oth" then EyeColor(Some(Other))
      else EyeColor(None)
    }

    predicate IsValid()
    {
      value.Some?
    }
  }

  /** Each code reads back as its own colour, so an eye colour is valid
      exactly when its raw value is one of the seven codes. */
  lemma EyeColorRoundTrip(c: EyeColors)
    ensures EyeColor.Parse(Code(c)) == EyeColor(Some(c))
  {
  }

  lemma EyeColorValidIff(raw: string)
    ensures EyeColor.Parse(raw).IsValid() <==> exists c :: Code(c) == raw
  {
    if c :| Code(c) == raw {
      EyeColorRoundTrip(c);
    }
  }

  //----------------------------------------------------------------------
  // Passport id
  //----------------------------------------------------------------------

  datatype PassportID = PassportID(value: Option<string>)
  {
    static function Parse(raw: string): PassportID
    {
      PassportID(Some(raw))
    }

    /** Exactly nine ASCII digits. */
    predicate IsValid()
    {
      value.Some? && |value.value| == 9 && AllDigits(value.value)
    }
  }

  /** The valid passport ids are exactly the nine-digit, zero-padded
      renderings of the numbers below one billion. */
  lemma PassportIdIffNineDigits(raw: string)
    ensures PassportID.Parse(raw).IsValid() <==>
              exists n: nat :: n < Pow10(9) && raw == ZeroPadded(n, 9)
  {
    if PassportID.Parse(raw).IsValid() {
      ZeroPaddedOfValue(raw);
      var n := DecimalValue(raw);
      assert n < Pow10(9) && raw == ZeroPadded(n, 9);
    }
  }

  //----------------------------------------------------------------------
  // The unit tests' examples
  //----------------------------------------------------------------------

  lemma BirthYearExamples()
    ensures BirthYear.Parse("2002").IsValid()
    ensures !BirthYear.Parse("2003").IsValid()
  {
    assert DecimalValue("2") == 2 by { assert "2"[..0] == ""; }
    assert DecimalValue("20") == 20 by { assert "20"[..1] == "2"; }
    assert DecimalValue("200") == 200 by { assert "200"[..2] == "20"; }
    assert DecimalValue("2002") == 2002 by { assert "2002"[..3] == "200"; }
    assert DecimalValue("2003") == 2003 by { assert "2003"[..3] == "200"; }
  }

  /** Rust's integer parsing admits a `+` sign and leading zeros. */
  lemma SignedAndPaddedYears()
    ensures BirthYear.Parse("02002").IsValid()
    ensures BirthYear.Parse("+1920").IsValid()
  {
    assert DecimalValue("2") == 2 by { assert "2"[..0] == ""; }
    assert DecimalValue("20") == 20 by { assert "20"[..1] == "2"; }
    assert DecimalValue("200") == 200 by { assert "200"[..2] == "20"; }
    assert DecimalValue("2002") == 2002 by { assert "2002"[..3] == "200"; }
    assert DecimalValue("02002") == 2002 by {
      assert "02002"[..4] == "0200";
      assert "0200"[..3] == "020" && "020"[..2] == "02" && "02"[..1] == "0" && "0"[..0] == "";
    }
    assert DecimalValue("1920") == 1920 by {
      assert "1920"[..3] == "192" && "192"[..2] == "19" && "19"[..1] == "1" && "1"[..0] == "";
    }
    assert Magnitude("+1920", true) == "1920";
    BirthYearValidIff("02002");
    BirthYearValidIff("+1920");
  }

  lemma HeightExamples()
    ensures Height.Parse("60in").IsValid()
    ensures Height.Parse("190cm").IsValid()
    ensures !Height.Parse("190in").IsValid()
    ensures !Height.Parse("190").IsValid()
  {
    assert DecimalValue("6") == 6 by { assert "6"[..0] == ""; }
    assert DecimalValue("60") == 60 by { assert "60"[..1] == "6"; }
    assert DecimalValue("1") == 1 by { assert "1"[..0] == ""; }
    assert DecimalValue("19") == 19 by { assert "19"[..1] == "1"; }
    assert DecimalValue("190") == 190 by { assert "190"[..2] == "19"; }
    assert "60in"[..2] == "60" && "60in"[2..] == "in";
    assert "190cm"[..3] == "190" && "190cm"[3..] == "cm";
    assert "190in"[..3] == "190" && "190in"[3..] == "in";
    assert "190"[1..] == "90";
  }

  lemma HairColorExamples()
    ensures HairColor.Parse("#123abc").IsValid()
    ensures !HairColor.Parse("#123abz").IsValid()
    ensures !HairColor.Parse("123abc").IsValid()
    ensures HairColor.Parse("#123ABC").IsValid()
  {
    assert !IsHexDigit("#123abz"[6]);
  }

  lemma EyeColorExamples()
    ensures EyeColor.Parse("brn").IsValid()
    ensures !EyeColor.Parse("wat").IsValid()
  {
  }

  lemma PassportIdExamples()
    ensures PassportID.Parse("000000001").IsValid()
    ensures !PassportID.Parse("0123456789").IsValid()
  {
  }
}
