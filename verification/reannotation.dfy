/**
 * A text the once-only guard does not protect: "0F" is annotated with a
 * negative Celsius value, and `\(\d+(?:\.\d+)?\s*°C\)` has no place for the
 * minus sign, so the annotated text passes isAlreadyProcessed and a second
 * call of processText annotates it again. This is the exception that
 * Engine.ProcessTextIdempotent leaves out, shown on a concrete input with
 * the settings the content script starts from.
 */
module ReAnnotation {
  import opened Opt
  import opened Chars
  import opened Conversions
  import opened Patterns
  import opened Guard
  import opened Replace
  import opened Engine

  /** processText("0F") under the default settings. */
  const Once := "0F (-18°C)"

  /** Math.round((0 - 32) * 5 / 9) is -18, written with its minus sign. */
  lemma MinusEighteen()
    ensures FahrenheitToCelsius(Decimal(0, 0)) == -18
    ensures IntToString(-18) == "-18"
  {
    ConversionExamples();
    assert NatToString(1) == "1";
    assert NatToString(18) == "1" + "8";
  }

  /** A text that starts with the word "0F": the temperature pattern matches there and notes -18°C. */
  lemma ZeroFahrenheitHit(s: string)
    requires |s| >= 2 && s[..2] == "0F" && (|s| == 2 || !IsWordChar(s[2]))
    ensures HitAt(Temperature, s, 0) == Some(Hit(2, " (-18°C)"))
  {
    ZeroFahrenheitEnd(s);
    ZeroFahrenheitNote(s);
    assert Insertion(Temperature, s, 0, 2) == " (-18°C)" by {
      assert " (" + "-18°C" + ")" == " (-18°C)";
    }
  }

  lemma ZeroFahrenheitEnd(s: string)
    requires |s| >= 2 && s[..2] == "0F" && (|s| == 2 || !IsWordChar(s[2]))
    ensures NumberEnd(s, 0) == Some(1)
    ensures MatchEnd(Temperature, s, 0) == Some(2)
  {
    assert s[0] == '0' && s[1] == 'F' by { assert s[..2][0] == s[0] && s[..2][1] == s[1]; }
    RunEndFrom(s, 0, 1, IsDigit);
    assert NumberEnd(s, 0) == Some(1);
    RunEndFrom(s, 1, 1, IsSpace);
    assert DegreesEnd(s, 1) == Some(2) by {
      assert MatchesAt(s, 1, "F");
      assert BoundaryAt(s, 2);
    }
  }

  lemma ZeroFahrenheitNote(s: string)
    requires |s| >= 2 && NumberEnd(s, 0) == Some(1) && s[0] == '0'
    requires MatchEnd(Temperature, s, 0) == Some(2)
    ensures Note(Temperature, s, 0, 2) == Some("-18°C")
  {
    ZeroCaptured(s);
    var c := Captured(s, 0);
    MinusEighteen();
    assert IntToString(FahrenheitToCelsius(c)) + "°C" == "-18°C";
  }

  /** parseFloat reads the 0 at the start of s. */
  lemma ZeroCaptured(s: string)
    requires |s| >= 1 && NumberEnd(s, 0) == Some(1) && s[0] == '0'
    ensures Captured(s, 0) == Decimal(0, 0)
  {
    assert s[0..1] == "0";
    assert DigitsValue("0") == 0 by { assert "0"[..0] == []; }
  }

  /** The first pass: the temperature rule turns "0F" into Once. */
  lemma FirstPassTemperature()
    ensures ApplyRule(Temperature, "0F") == Once
  {
    var s := "0F";
    ZeroFahrenheitHit(s);
    ZeroAnnotated(Scan(Temperature, s));
  }

  lemma ZeroAnnotated(hits: seq<Option<Hit>>)
    requires HitsOf("0F", hits)
    requires hits[0] == Some(Hit(2, " (-18°C)"))
    ensures ReplaceFrom("0F", hits, 0) == Once
  {
    NoMatchCopies("0F", hits, 2);
    assert "0F"[0..2] + " (-18°C)" + "0F"[2..] == Once;
  }

  /** In Once the temperature pattern matches only at its start: "18°C" has no F. */
  lemma OnceTemperatureMisses(k: nat)
    requires 2 <= k < |Once|
    ensures HitAt(Temperature, Once, k) == None
  {
    if k == 5 {
      EighteenNotFahrenheit();
    } else if k != 6 {
      RunEndFrom(Once, k, k, IsDigit);
      assert NumberEnd(Once, k) == None;
    }
  }

  /** The number 18 in Once is followed by °C, not °F. */
  lemma EighteenNotFahrenheit()
    ensures MatchEnd(Temperature, Once, 5) == None
  {
    RunEndFrom(Once, 5, 7, IsDigit);
    assert NumberEnd(Once, 5) == Some(7);
    RunEndFrom(Once, 7, 7, IsSpace);
    assert !MatchesAt(Once, 8, "F") by {
      assert Lower(Once[8 + 0]) != Lower("F"[0]);
    }
  }

  /** The second pass of the temperature rule annotates Once again. */
  lemma SecondPassTemperature()
    ensures ApplyRule(Temperature, Once) == "0F (-18°C) (-18°C)"
  {
    var hits := Scan(Temperature, Once);
    ZeroFahrenheitHit(Once);
    forall k | 2 <= k < |Once|
      ensures hits[k].None?
    {
      OnceTemperatureMisses(k);
    }
    AnnotatedAtStart(hits);
  }

  lemma AnnotatedAtStart(hits: seq<Option<Hit>>)
    requires HitsOf(Once, hits)
    requires hits[0] == Some(Hit(2, " (-18°C)"))
    requires forall k | 2 <= k < |Once| :: hits[k].None?
    ensures ReplaceFrom(Once, hits, 0) == "0F (-18°C) (-18°C)"
  {
    NoMatchCopies(Once, hits, 2);
  }

  /** No unit starting with m or l follows a number anywhere in Once. */
  lemma OnceNoUnit(k: nat, unit: string, plural: bool)
    requires k <= |Once| && |unit| > 0 && unit[0] in "ml"
    ensures UnitEnd(Once, k, unit, plural) == None
  {
    var j := RunEnd(Once, k, IsSpace);
    if j + |unit| <= |Once| {
      assert Lower(Once[j + 0]) != Lower(unit[0]);
    }
  }

  lemma OnceMeasureMisses(r: Rule, k: nat)
    requires r.Distance? || r.Speed? || r.Weight?
    requires k < |Once|
    ensures MatchEnd(r, Once, k) == None
  {
    if BoundaryAt(Once, k) && NumberEnd(Once, k).Some? {
      var e := NumberEnd(Once, k).value;
      match r
      case Distance => OnceNoUnit(e, "mile", true);
      case Speed => OnceNoUnit(e, "mph", false);
      case Weight => OnceNoUnit(e, "lb", true);
    }
  }

  lemma OnceDateMisses(k: nat)
    requires k < |Once|
    ensures MatchEnd(Dates, Once, k) == None
  {
    var a := RunEnd(Once, k, IsDigit);
    assert a < |Once| ==> Once[a] != '/';
  }

  /** No brand name, in any case, starts with a character of Once. */
  lemma OnceBrandMisses(k: nat, n: nat)
    requires k < |Once|
    ensures BrandEnd(Once, k, n) == None
    decreases |BrandNames| - n
  {
    if n < |BrandNames| {
      if k + |BrandNames[n]| <= |Once| {
        assert Lower(Once[k + 0]) != Lower(BrandNames[n][0]);
      }
      OnceBrandMisses(k, n + 1);
    }
  }

  /** The five rules after temperature leave Once as it is. */
  lemma OtherRulesKeepOnce(r: Rule)
    requires !r.Temperature?
    ensures ApplyRule(r, Once) == Once
  {
    forall k | 0 <= k < |Once|
      ensures Scan(r, Once)[k].None?
    {
      match r
      case Dates => OnceDateMisses(k);
      case Brands => OnceBrandMisses(k, 0);
      case _ => OnceMeasureMisses(r, k);
    }
    NoMatchCopies(Once, Scan(r, Once), 0);
  }

  /** The guard finds none of its six shapes in Once: the only parenthesis is followed by a minus sign. */
  lemma OnceNotGuardedAt(i: nat)
    requires i < |Once|
    ensures !GuardAt(Once, i)
  {
    if i == 3 {
      MinusAfterParenthesis();
    } else {
      assert Once[i] != '(';
      if i + 3 <= |Once| {
        assert Once[i..i + 3][0] != '(';
      }
    }
  }

  /** The parenthesis in Once opens "(-": no digit and no "US" follows it. */
  lemma MinusAfterParenthesis()
    ensures !GuardAt(Once, 3)
  {
    RunEndFrom(Once, 4, 4, IsDigit);
    assert NumberEnd(Once, 4) == None;
    assert !DateNoteAt(Once, 3);
    assert Once[3..6][1] == '-';
    assert !BrandNoteAt(Once, 3);
  }

  lemma OnceNotProcessed()
    ensures !AlreadyProcessed(Once)
  {
    forall i | 0 <= i < |Once|
      ensures !GuardAt(Once, i)
    {
      OnceNotGuardedAt(i);
    }
  }

  lemma ZeroFahrenheitNotProcessed()
    ensures !AlreadyProcessed("0F")
  {
    var s := "0F";
    forall i | 0 <= i < |s|
      ensures !GuardAt(s, i)
    {
      assert s[i] != '(';
    }
  }

  lemma FirstPass()
    ensures ProcessText(DefaultSettings, "0F") == Once
  {
    ZeroFahrenheitNotProcessed();
    FirstPassTemperature();
    OtherRulesKeepOnce(Distance);
    OtherRulesKeepOnce(Speed);
    OtherRulesKeepOnce(Weight);
    OtherRulesKeepOnce(Dates);
    OtherRulesKeepOnce(Brands);
  }

  /** The temperature rule matches "0F" once, and converts it to -18. */
  lemma ZeroFahrenheitBelowZero()
    ensures Matches("0F", Scan(Temperature, "0F"), 0) == [0]
    ensures NumberEnd("0F", 0).Some? && FahrenheitToCelsius(Captured("0F", 0)) == -18
  {
    var s := "0F";
    var hits := Scan(Temperature, s);
    ZeroFahrenheitHit(s);
    assert Matches(s, hits, 0) == [0] + Matches(s, hits, 2);
    ZeroFahrenheitEnd(s);
    ZeroCaptured(s);
    MinusEighteen();
  }

  lemma SecondPassGrows()
    ensures |ProcessText(DefaultSettings, Once)| > |Once|
  {
    OnceNotProcessed();
    SecondPassTemperature();
  }

  /**
   * "0F" is the exception: only the temperature rule fires and its one
   * value is negative, and processing the result again changes it.
   */
  lemma ZeroFahrenheitAnnotatedTwice()
    ensures ProcessText(DefaultSettings, "0F") == "0F (-18°C)"
    ensures NegativeTemperatureOnly(DefaultSettings, "0F")
    ensures ProcessText(DefaultSettings, ProcessText(DefaultSettings, "0F")) != ProcessText(DefaultSettings, "0F")
  {
    FirstPass();
    ZeroFahrenheitNotProcessed();
    ZeroFahrenheitBelowZero();
    FirstPassTemperature();
    SecondPassGrows();
  }
}
