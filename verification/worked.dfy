/**
 * processText on whole inputs, end to end: each pattern is shown to match,
 * or to match nowhere, through what its regular expression requires
 * (PatternSpec), and the chain of six replaces is then followed stage by
 * stage.
 */
module Worked {
  import opened Opt
  import opened Chars
  import opened Conversions
  import opened Patterns
  import opened PatternSpec
  import opened Guard
  import opened Replace
  import opened Engine

  // ------------------------------------------------------------ general facts

  /** Every shape the guard looks for opens with a parenthesis, so a text without one is not processed. */
  lemma NoParenNotProcessed(s: string)
    requires forall m | 0 <= m < |s| :: s[m] != '('
    ensures !AlreadyProcessed(s)
  {
    forall i | 0 <= i < |s|
      ensures !GuardAt(s, i)
    {
      if i + 3 <= |s| {
        assert s[i..i + 3][0] == s[i];
      }
    }
  }

  /** A rule that matches nowhere leaves the text as it is. */
  lemma NowhereKeeps(r: Rule, s: string)
    requires forall i | 0 <= i < |s| :: MatchEnd(r, s, i) == None
    ensures ApplyRule(r, s) == s
  {
    NoMatchCopies(s, Scan(r, s), 0);
    assert s[0..] == s;
  }

  /** Every pattern but the brands one needs a digit where its match starts. */
  lemma MatchStartsWithDigit(r: Rule, s: string, i: nat, e: nat)
    requires !r.Brands? && i <= |s| && MatchEnd(r, s, i) == Some(e)
    ensures i < |s| && IsDigit(s[i])
  {
    MatchEndExact(r, s, i, e);
    if r.Dates? {
      var a, b :| DateShape(s, i, a, b, e);
    } else {
      var k :| NumberSpan(s, i, k) && SuffixSpan(r, s, k, e);
      NumberSpanStart(s, i, k);
    }
  }

  lemma NumberSpanStart(s: string, i: nat, k: nat)
    requires NumberSpan(s, i, k)
    ensures i < |s| && IsDigit(s[i])
  {
    if !DigitsIn(s, i, k) {
      var j :| i < j < k && FractionAt(s, i, j, k);
    }
  }

  /** A temperature match ends with its F (or f). */
  lemma TemperatureEndsWithF(s: string, i: nat, e: nat)
    requires i <= |s| && MatchEnd(Temperature, s, i) == Some(e)
    ensures 0 < e <= |s| && Lower(s[e - 1]) == 'f'
  {
    MatchEndExact(Temperature, s, i, e);
    var k :| NumberSpan(s, i, k) && SuffixSpan(Temperature, s, k, e);
    assert DegreesSpan(s, k, e);
    var j: nat :| DegreesAt(s, k, j, e);
    DegreesEndWithF(s, k, j, e);
  }

  lemma DegreesEndWithF(s: string, k: nat, j: nat, e: nat)
    requires DegreesAt(s, k, j, e)
    ensures 0 < e <= |s| && Lower(s[e - 1]) == 'f'
  {
    var f := if e == j + 1 then j else j + 1;
    assert MatchesAt(s, f, "F");
    assert Lower(s[f + 0]) == Lower("F"[0]);
  }

  /** A distance, speed or weight match holds an m (mile, mph) or an l (lb), at j. */
  lemma UnitLetter(r: Rule, s: string, i: nat, e: nat) returns (j: nat)
    requires r.Distance? || r.Speed? || r.Weight?
    requires i <= |s| && MatchEnd(r, s, i) == Some(e)
    ensures j < |s| && (Lower(s[j]) == 'm' || Lower(s[j]) == 'l')
  {
    MatchEndExact(r, s, i, e);
    var k :| NumberSpan(s, i, k) && SuffixSpan(r, s, k, e);
    var unit := if r.Distance? then "mile" else if r.Speed? then "mph" else "lb";
    var plural := !r.Speed?;
    assert UnitSpan(s, k, unit, plural, e);
    j :| UnitAt(s, k, unit, plural, j, e);
    MatchesAtEnds(s, j, unit);
  }

  /** A date match holds a slash, at a. */
  lemma DateSlash(s: string, i: nat, e: nat) returns (a: nat)
    requires i <= |s| && MatchEnd(Dates, s, i) == Some(e)
    ensures a < |s| && s[a] == '/'
  {
    MatchEndExact(Dates, s, i, e);
    var b: nat;
    a, b :| DateShape(s, i, a, b, e);
  }

  /** The lower-case first letters of the brands pattern's alternatives. */
  predicate BrandInitial(c: char) {
    c == 'a' || c == 'm' || c == 'w' || c == 's' || c == 'n' || c == 'c' || c == 'p' || c == 'k' || c == 'b'
  }

  /** Every alternative of the brands pattern has at least three characters and one of those first letters. */
  lemma BrandNameShape(n: nat)
    requires n < |BrandNames|
    ensures |BrandNames[n]| >= 3 && BrandInitial(Lower(BrandNames[n][0]))
  {
  }

  /** A brand match starts with a brand's first letter and has at least three characters. */
  lemma BrandStart(s: string, i: nat, e: nat)
    requires i <= |s| && MatchEnd(Brands, s, i) == Some(e)
    ensures i + 3 <= |s| && BrandInitial(Lower(s[i]))
  {
    MatchEndExact(Brands, s, i, e);
    var n: nat :| BrandShape(s, i, n, e);
    BrandNameShape(n);
    MatchesAtEnds(s, i, BrandNames[n]);
  }

  lemma DigitlessMisses(r: Rule, s: string, i: nat)
    requires !r.Brands? && i < |s| && !IsDigit(s[i])
    ensures MatchEnd(r, s, i) == None
  {
    if MatchEnd(r, s, i).Some? {
      MatchStartsWithDigit(r, s, i, MatchEnd(r, s, i).value);
    }
  }

  lemma NoFahrenheitMisses(s: string, i: nat)
    requires i <= |s| && forall m | 0 <= m < |s| :: Lower(s[m]) != 'f'
    ensures MatchEnd(Temperature, s, i) == None
  {
    if MatchEnd(Temperature, s, i).Some? {
      TemperatureEndsWithF(s, i, MatchEnd(Temperature, s, i).value);
    }
  }

  lemma NoUnitLetterMisses(r: Rule, s: string, i: nat)
    requires r.Distance? || r.Speed? || r.Weight?
    requires i <= |s| && forall m | 0 <= m < |s| :: Lower(s[m]) != 'm' && Lower(s[m]) != 'l'
    ensures MatchEnd(r, s, i) == None
  {
    if MatchEnd(r, s, i).Some? {
      var j := UnitLetter(r, s, i, MatchEnd(r, s, i).value);
    }
  }

  lemma NoSlashMisses(s: string, i: nat)
    requires i <= |s| && forall m | 0 <= m < |s| :: s[m] != '/'
    ensures MatchEnd(Dates, s, i) == None
  {
    if MatchEnd(Dates, s, i).Some? {
      var a := DateSlash(s, i, MatchEnd(Dates, s, i).value);
    }
  }

  lemma BrandMissesAt(s: string, i: nat)
    requires i < |s| && (i + 3 > |s| || !BrandInitial(Lower(s[i])))
    ensures MatchEnd(Brands, s, i) == None
  {
    if MatchEnd(Brands, s, i).Some? {
      BrandStart(s, i, MatchEnd(Brands, s, i).value);
    }
  }

  /** The five rules other than temperature leave a text with no digit, m, l, slash or brand letter alone. */
  lemma QuietAfterTemperature(t: string)
    requires forall m | 0 <= m < |t| :: Lower(t[m]) != 'm' && Lower(t[m]) != 'l' && t[m] != '/'
    requires forall m | 0 <= m < |t| :: m + 3 > |t| || !BrandInitial(Lower(t[m]))
    ensures forall r: Rule | !r.Temperature? :: ApplyRule(r, t) == t
  {
    forall r: Rule | !r.Temperature?
      ensures ApplyRule(r, t) == t
    {
      forall i | 0 <= i < |t|
        ensures MatchEnd(r, t, i) == None
      {
        match r
        case Temperature =>
        case Dates => NoSlashMisses(t, i);
        case Brands => BrandMissesAt(t, i);
        case Distance => NoUnitLetterMisses(r, t, i);
        case Speed => NoUnitLetterMisses(r, t, i);
        case Weight => NoUnitLetterMisses(r, t, i);
      }
      NowhereKeeps(r, t);
    }
  }

  /** processText's result, given what each of the six stages makes of the previous one's output. */
  lemma Chain(st: Settings, s: string, t1: string, t2: string, t3: string, t4: string, t5: string, t6: string)
    requires !AlreadyProcessed(s)
    requires Stage(st, Temperature, s) == t1 && Stage(st, Distance, t1) == t2 && Stage(st, Speed, t2) == t3
    requires Stage(st, Weight, t3) == t4 && Stage(st, Dates, t4) == t5 && Stage(st, Brands, t5) == t6
    ensures ProcessText(st, s) == t6
  {
  }

  // ------------------------------------------------------------ 98.6F

  /** The temperature pattern matches all of "98.6F" and notes 37°C. */
  lemma FeverHit()
    ensures Scan(Temperature, "98.6F")[0] == Some(Hit(5, " (37°C)"))
  {
    var s := "98.6F";
    FeverMatch();
    FeverNote();
    assert Scan(Temperature, s)[0] == HitAt(Temperature, s, 0);
    assert Insertion(Temperature, s, 0, 5) == " (" + "37°C" + ")";
    assert " (" + "37°C" + ")" == " (37°C)";
  }

  lemma FeverMatch()
    ensures MatchEnd(Temperature, "98.6F", 0) == Some(5)
    ensures NumberEnd("98.6F", 0) == Some(4)
  {
    var s := "98.6F";
    assert NumberSpan(s, 0, 4) by { assert FractionAt(s, 0, 2, 4); }
    assert SuffixSpan(Temperature, s, 4, 5) by { assert DegreesAt(s, 4, 4, 5); }
    MatchEndExact(Temperature, s, 0, 5);
    NumberEndStops(s, 0, 4);
  }

  lemma FeverNote()
    requires MatchEnd(Temperature, "98.6F", 0) == Some(5) && NumberEnd("98.6F", 0) == Some(4)
    ensures Note(Temperature, "98.6F", 0, 5) == Some("37°C")
  {
    var s := "98.6F";
    FeverNumber();
    FeverCelsius();
    ThirtySeven();
    assert Note(Temperature, s, 0, 5) == Some(IntToString(FahrenheitToCelsius(Captured(s, 0))) + "°C");
    assert "37" + "°C" == "37°C";
  }

  lemma FeverCelsius()
    ensures FahrenheitToCelsius(Decimal(986, 1)) == 37
  {
    ConversionExamples();
  }

  lemma ThirtySeven()
    ensures IntToString(37) == "37"
  {
    assert NatToString(37) == NatToString(3) + [DigitChar(7)];
  }

  lemma FeverNumber()
    requires NumberEnd("98.6F", 0) == Some(4)
    ensures Captured("98.6F", 0) == Decimal(986, 1)
  {
    ParseNumberValue("98", "6");
    assert "98.6F"[0..4] == "98" + "." + "6";
    assert "98" + "6" == "986";
    assert DigitsValue("986") == 986 by {
      assert "986"[..2] == "98" && "98"[..1] == "9" && "9"[..0] == [];
    }
  }

  /** processText("98.6F") is "98.6F (37°C)" under the settings the content script starts from. */
  lemma FeverConverted()
    ensures ProcessText(DefaultSettings, "98.6F") == "98.6F (37°C)"
  {
    var t := "98.6F (37°C)";
    FeverNotProcessed();
    FeverTemperature();
    FeverQuiet();
    assert Convert(DefaultSettings, "98.6F") == t;
  }

  lemma FeverNotProcessed()
    ensures !AlreadyProcessed("98.6F")
  {
    NoParenNotProcessed("98.6F");
  }

  lemma FeverTemperature()
    ensures ApplyRule(Temperature, "98.6F") == "98.6F (37°C)"
  {
    var s := "98.6F";
    FeverHit();
    LastMatchOnly(s, Scan(Temperature, s), 0, 0, " (37°C)");
    assert s[0..] == s;
    FeverJoined();
  }

  lemma FeverJoined()
    ensures "98.6F" + " (37°C)" == "98.6F (37°C)"
  {
  }

  lemma FeverQuiet()
    ensures forall r: Rule | !r.Temperature? :: ApplyRule(r, "98.6F (37°C)") == "98.6F (37°C)"
  {
    var t := "98.6F (37°C)";
    forall m | 0 <= m < |t|
      ensures Lower(t[m]) != 'm' && Lower(t[m]) != 'l' && t[m] != '/'
      ensures m + 3 > |t| || !BrandInitial(Lower(t[m]))
    {
    }
    QuietAfterTemperature(t);
  }

  // ------------------------------------------------------------ 7/4/1976

  /** The date pattern matches all of "7/4/1976" and notes it as 4 July 1976. */
  lemma IndependenceDayHit()
    ensures Scan(Dates, "7/4/1976")[0] == Some(Hit(8, " (4 July 1976)"))
  {
    var s := "7/4/1976";
    IndependenceDayMatch();
    IndependenceDayNote();
    assert Scan(Dates, s)[0] == HitAt(Dates, s, 0);
    assert Insertion(Dates, s, 0, 8) == " (" + "4 July 1976" + ")";
    IndependenceDayInsertion();
  }

  lemma IndependenceDayInsertion()
    ensures " (" + "4 July 1976" + ")" == " (4 July 1976)"
  {
  }

  lemma IndependenceDayMatch()
    ensures DateAt("7/4/1976", 0) == Some(DateSpan(1, 3, 8))
    ensures MatchEnd(Dates, "7/4/1976", 0) == Some(8)
  {
    var s := "7/4/1976";
    assert DateShape(s, 0, 1, 3, 8);
    DateAtExact(s, 0, 1, 3, 8);
  }

  lemma IndependenceDayNote()
    requires DateAt("7/4/1976", 0) == Some(DateSpan(1, 3, 8)) && MatchEnd(Dates, "7/4/1976", 0) == Some(8)
    ensures Note(Dates, "7/4/1976", 0, 8) == Some("4 July 1976")
  {
    var s := "7/4/1976";
    assert DateCaptures(s, 0) == DateFields("7", "4", "1976");
    FormatDateExample();
  }

  /** processText("7/4/1976") is "7/4/1976 (4 July 1976)": the month comes first, as in the US. */
  lemma IndependenceDayConverted()
    ensures ProcessText(DefaultSettings, "7/4/1976") == "7/4/1976 (4 July 1976)"
  {
    IndependenceDayNotProcessed();
    IndependenceDayMeasures();
    IndependenceDayDates();
    IndependenceDayBrands();
    OnlyDatesChange("7/4/1976", "7/4/1976 (4 July 1976)");
  }

  /** processText's result when the date rule is the only one to change the text. */
  lemma OnlyDatesChange(s: string, t: string)
    requires !AlreadyProcessed(s)
    requires ApplyRule(Temperature, s) == s && ApplyRule(Distance, s) == s
    requires ApplyRule(Speed, s) == s && ApplyRule(Weight, s) == s
    requires ApplyRule(Dates, s) == t && ApplyRule(Brands, t) == t
    ensures ProcessText(DefaultSettings, s) == t
  {
    Chain(DefaultSettings, s, s, s, s, s, t, t);
  }

  lemma IndependenceDayNotProcessed()
    ensures !AlreadyProcessed("7/4/1976")
  {
    NoParenNotProcessed("7/4/1976");
  }

  /** Without letters, "7/4/1976" holds no temperature, distance, speed or weight. */
  lemma IndependenceDayMeasures()
    ensures ApplyRule(Temperature, "7/4/1976") == "7/4/1976" && ApplyRule(Distance, "7/4/1976") == "7/4/1976"
    ensures ApplyRule(Speed, "7/4/1976") == "7/4/1976" && ApplyRule(Weight, "7/4/1976") == "7/4/1976"
  {
    var s := "7/4/1976";
    forall r: Rule | !r.Dates? && !r.Brands?
      ensures ApplyRule(r, s) == s
    {
      forall i | 0 <= i < |s|
        ensures MatchEnd(r, s, i) == None
      {
        if r.Temperature? {
          NoFahrenheitMisses(s, i);
        } else {
          NoUnitLetterMisses(r, s, i);
        }
      }
      NowhereKeeps(r, s);
    }
  }

  lemma IndependenceDayDates()
    ensures ApplyRule(Dates, "7/4/1976") == "7/4/1976 (4 July 1976)"
  {
    var s := "7/4/1976";
    IndependenceDayHit();
    LastMatchOnly(s, Scan(Dates, s), 0, 0, " (4 July 1976)");
    assert s[0..] == s;
    IndependenceDayJoined();
  }

  lemma IndependenceDayJoined()
    ensures "7/4/1976" + " (4 July 1976)" == "7/4/1976 (4 July 1976)"
  {
  }

  /** No letter of "7/4/1976 (4 July 1976)" starts a brand name. */
  lemma IndependenceDayBrands()
    ensures ApplyRule(Brands, "7/4/1976 (4 July 1976)") == "7/4/1976 (4 July 1976)"
  {
    var t := "7/4/1976 (4 July 1976)";
    forall i | 0 <= i < |t|
      ensures MatchEnd(Brands, t, i) == None
    {
      BrandMissesAt(t, i);
    }
    NowhereKeeps(Brands, t);
  }

  // ------------------------------------------------------------ I love Nike

  /** The brands pattern matches "Nike" at the end of "I love Nike" and notes its origin. */
  lemma NikeHit()
    ensures Scan(Brands, "I love Nike")[7] == Some(Hit(11, " (US sportswear brand)"))
  {
    var s := "I love Nike";
    NikeMatch();
    NikeNote();
    assert Scan(Brands, s)[7] == HitAt(Brands, s, 7);
    assert Insertion(Brands, s, 7, 11) == " (" + "US sportswear brand" + ")";
    NikeInsertion();
  }

  lemma NikeInsertion()
    ensures " (" + "US sportswear brand" + ")" == " (US sportswear brand)"
  {
  }

  lemma NikeMatch()
    ensures MatchEnd(Brands, "I love Nike", 7) == Some(11)
  {
    var s := "I love Nike";
    assert BrandShape(s, 7, 4, 11);
    MatchEndExact(Brands, s, 7, 11);
  }

  lemma NikeNote()
    requires MatchEnd(Brands, "I love Nike", 7) == Some(11)
    ensures Note(Brands, "I love Nike", 7, 11) == Some("US sportswear brand")
  {
    var s := "I love Nike";
    BrandMatchHasInfo(s, 7, 11);
    assert s[7..11] == "Nike";
    LowersTo("Nike", "nike");
  }

  /** processText("I love Nike") annotates the brand with where it comes from. */
  lemma NikeConverted()
    ensures ProcessText(DefaultSettings, "I love Nike") == "I love Nike (US sportswear brand)"
  {
    var s := "I love Nike";
    NikeNotProcessed();
    NikeDigitless();
    NikeBrands();
    Chain(DefaultSettings, s, s, s, s, s, s, "I love Nike (US sportswear brand)");
  }

  lemma NikeNotProcessed()
    ensures !AlreadyProcessed("I love Nike")
  {
    NoParenNotProcessed("I love Nike");
  }

  /** Without digits, "I love Nike" holds no measurement and no date. */
  lemma NikeDigitless()
    ensures forall r: Rule | !r.Brands? :: ApplyRule(r, "I love Nike") == "I love Nike"
  {
    var s := "I love Nike";
    forall r: Rule | !r.Brands?
      ensures ApplyRule(r, s) == s
    {
      forall i | 0 <= i < |s|
        ensures MatchEnd(r, s, i) == None
      {
        DigitlessMisses(r, s, i);
      }
      NowhereKeeps(r, s);
    }
  }

  lemma NikeBrands()
    ensures ApplyRule(Brands, "I love Nike") == "I love Nike (US sportswear brand)"
  {
    var s := "I love Nike";
    NikeHit();
    NikeBeforeBrand();
    var hits := Scan(Brands, s);
    assert forall i | 0 <= i < 7 :: hits[i] == HitAt(Brands, s, i);
    LastMatchOnly(s, hits, 0, 7, " (US sportswear brand)");
    assert s[0..] == s;
    NikeJoined();
  }

  /** No brand name starts in "I love ". */
  lemma NikeBeforeBrand()
    ensures forall i | 0 <= i < 7 :: MatchEnd(Brands, "I love Nike", i) == None
  {
    var s := "I love Nike";
    forall i | 0 <= i < 7
      ensures MatchEnd(Brands, s, i) == None
    {
      BrandMissesAt(s, i);
    }
  }

  lemma NikeJoined()
    ensures "I love Nike" + " (US sportswear brand)" == "I love Nike (US sportswear brand)"
  {
  }

  // ------------------------------------------------------------ 100F, temperature off

  /** With its flag off, the temperature rule does not run: "100F" comes back as it is. */
  lemma TemperatureOffKeeps()
    ensures ProcessText(Settings(false, true, true, true, true, true), "100F") == "100F"
  {
    var s := "100F";
    NoParenNotProcessed(s);
    QuietAfterTemperature(s);
  }
}
