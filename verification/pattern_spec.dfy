/**
 * What each of the six global patterns accepts, stated as the regular
 * expression reads, with every choice the backtracking matcher could make
 * left open: how many digits, spaces and optional characters each part
 * takes. The lemmas show that the greedy scanners of `Patterns` find a match
 * at a position exactly when the pattern can match there, and end it where
 * every such match ends.
 */
module PatternSpec {
  import opened Opt
  import opened Chars
  import opened Conversions
  import opened Patterns

  /** s[a..b] is a non-empty run of `\d`. */
  predicate DigitsIn(s: string, a: nat, b: nat) {
    a < b <= |s| && forall m | a <= m < b :: IsDigit(s[m])
  }

  /** s[a..b] is a run of `\s`, possibly empty. */
  predicate SpacesIn(s: string, a: nat, b: nat) {
    a <= b <= |s| && forall m | a <= m < b :: IsSpace(s[m])
  }

  /** `\d+(?:\.\d+)?` spells s[i..k]. */
  predicate NumberSpan(s: string, i: nat, k: nat) {
    || DigitsIn(s, i, k)
    || exists j | i < j < k :: FractionAt(s, i, j, k)
  }

  /** Digits in s[i..j], a point at j, digits in s[j + 1..k]. */
  predicate FractionAt(s: string, i: nat, j: nat, k: nat) {
    DigitsIn(s, i, j) && DigitsIn(s, j + 1, k) && s[j] == '.'
  }

  /** `\s*°?F\b` spells s[k..e], with the spaces ending at j (the `i` flag lets the F be lower case). */
  predicate DegreesAt(s: string, k: nat, j: nat, e: nat) {
    && SpacesIn(s, k, j)
    && (|| (e == j + 1 && MatchesAt(s, j, "F"))
        || (e == j + 2 && j < |s| && s[j] == '°' && MatchesAt(s, j + 1, "F")))
    && BoundaryAt(s, e)
  }

  ghost predicate DegreesSpan(s: string, k: nat, e: nat) {
    exists j: nat :: DegreesAt(s, k, j, e)
  }

  /** `\s*unit\b`, or `\s*units?\b` when plural, spells s[k..e], with the spaces ending at j. */
  predicate UnitAt(s: string, k: nat, unit: string, plural: bool, j: nat, e: nat) {
    && SpacesIn(s, k, j) && MatchesAt(s, j, unit)
    && (e == j + |unit| || (plural && e == j + |unit| + 1 && MatchesAt(s, j + |unit|, "s")))
    && BoundaryAt(s, e)
  }

  ghost predicate UnitSpan(s: string, k: nat, unit: string, plural: bool, e: nat) {
    exists j: nat :: UnitAt(s, k, unit, plural, j, e)
  }

  /** What follows the captured number in the rule's pattern spells s[k..e]. */
  ghost predicate SuffixSpan(r: Rule, s: string, k: nat, e: nat)
    requires !r.Dates? && !r.Brands?
  {
    match r
    case Temperature => DegreesSpan(s, k, e)
    case Distance => UnitSpan(s, k, "mile", true, e)
    case Speed => UnitSpan(s, k, "mph", false, e)
    case Weight => UnitSpan(s, k, "lb", true, e)
  }

  /** The pattern `(\b\d+(?:\.\d+)?)` + suffix of a measurement rule matches s[i..e]. */
  ghost predicate MeasureMatch(r: Rule, s: string, i: nat, e: nat)
    requires !r.Dates? && !r.Brands?
  {
    BoundaryAt(s, i) && exists k :: NumberSpan(s, i, k) && SuffixSpan(r, s, k, e)
  }

  /** `\b(\d{1,2})\/(\d{1,2})\/(\d{4})\b` matches s[i..e] with its slashes at a and b. */
  predicate DateShape(s: string, i: nat, a: nat, b: nat, e: nat) {
    && BoundaryAt(s, i)
    && DigitsIn(s, i, a) && a <= i + 2 && a < |s| && s[a] == '/'
    && DigitsIn(s, a + 1, b) && b <= a + 3 && b < |s| && s[b] == '/'
    && DigitsIn(s, b + 1, e) && e == b + 5
    && BoundaryAt(s, e)
  }

  ghost predicate DateMatch(s: string, i: nat, e: nat) {
    exists a, b :: DateShape(s, i, a, b, e)
  }

  /** `\b(Apple|...|Subway)\b` matches s[i..e] with its n-th alternative, ignoring ASCII case. */
  predicate BrandShape(s: string, i: nat, n: nat, e: nat) {
    && BoundaryAt(s, i) && n < |BrandNames|
    && MatchesAt(s, i, BrandNames[n]) && e == i + |BrandNames[n]|
    && BoundaryAt(s, e)
  }

  ghost predicate BrandMatch(s: string, i: nat, e: nat) {
    exists n :: BrandShape(s, i, n, e)
  }

  /** The rule's pattern matches s[i..e]. */
  ghost predicate PatternMatch(r: Rule, s: string, i: nat, e: nat) {
    match r
    case Dates => DateMatch(s, i, e)
    case Brands => BrandMatch(s, i, e)
    case _ => MeasureMatch(r, s, i, e)
  }

  // ---------------------------------------------------------------- numbers

  /** Digits from a up to a non-digit (or the end) at b: the greedy `\d*` from a stops at b. */
  lemma DigitsStop(s: string, a: nat, b: nat)
    requires a <= b <= |s| && forall m | a <= m < b :: IsDigit(s[m])
    requires b == |s| || !IsDigit(s[b])
    ensures RunEnd(s, a, IsDigit) == b
  {
    RunEndFrom(s, a, b, IsDigit);
  }

  /** A run of digits from a cannot end beyond the greedy run. */
  lemma DigitsWithinRun(s: string, a: nat, b: nat)
    requires DigitsIn(s, a, b)
    ensures b <= RunEnd(s, a, IsDigit)
  {
  }

  /**
   * NumberEnd finds `\d+(?:\.\d+)?` at i exactly when a digit is there, reads
   * a span the pattern spells, and no span the pattern spells from i is longer.
   */
  lemma NumberEndGreedy(s: string, i: nat)
    requires i <= |s|
    ensures NumberEnd(s, i).Some? <==> i < |s| && IsDigit(s[i])
    ensures NumberEnd(s, i).Some? ==> NumberSpan(s, i, NumberEnd(s, i).value)
    ensures forall k: nat | NumberSpan(s, i, k) :: NumberEnd(s, i).Some? && k <= NumberEnd(s, i).value
  {
    if i < |s| && IsDigit(s[i]) {
      assert RunEnd(s, i, IsDigit) > i;
      NumberEndSpan(s, i);
    }
    forall k: nat | NumberSpan(s, i, k)
      ensures NumberEnd(s, i).Some? && k <= NumberEnd(s, i).value
    {
      NumberEndLongest(s, i, k);
    }
  }

  lemma NumberEndSpan(s: string, i: nat)
    requires i <= |s| && NumberEnd(s, i).Some?
    ensures NumberSpan(s, i, NumberEnd(s, i).value)
  {
    var j := RunEnd(s, i, IsDigit);
    var k := NumberEnd(s, i).value;
    if k != j {
      assert FractionAt(s, i, j, k);
    }
  }

  lemma NumberEndLongest(s: string, i: nat, k: nat)
    requires NumberSpan(s, i, k)
    ensures NumberEnd(s, i).Some? && k <= NumberEnd(s, i).value
  {
    var j := RunEnd(s, i, IsDigit);
    if DigitsIn(s, i, k) {
      DigitsWithinRun(s, i, k);
    } else {
      var d :| i < d < k && FractionAt(s, i, d, k);
      DigitsWithinRun(s, i, d);
      assert d == j;
      DigitsWithinRun(s, d + 1, k);
    }
  }

  /** A span the pattern spells, followed by neither a digit nor a point, is the one NumberEnd reads. */
  lemma NumberEndStops(s: string, i: nat, k: nat)
    requires NumberSpan(s, i, k) && k < |s| && !IsDigit(s[k]) && s[k] != '.'
    ensures NumberEnd(s, i) == Some(k)
  {
    if DigitsIn(s, i, k) {
      DigitsStop(s, i, k);
    } else {
      var d :| i < d < k && FractionAt(s, i, d, k);
      DigitsStop(s, i, d);
      DigitsStop(s, d + 1, k);
    }
  }

  // ---------------------------------------------------------------- suffixes

  /** Spaces from a up to a character that is not one: the greedy `\s*` from a stops there. */
  lemma SpacesStop(s: string, a: nat, b: nat)
    requires SpacesIn(s, a, b) && b < |s| && !IsSpace(s[b])
    ensures RunEnd(s, a, IsSpace) == b
  {
    RunEndFrom(s, a, b, IsSpace);
  }

  /** A character that lower-cases to an ASCII lower-case letter is an ASCII letter. */
  lemma LowersToLetter(c: char, l: char)
    requires 'a' <= l <= 'z' && Lower(c) == l
    ensures IsWordChar(c) && !IsSpace(c) && !IsDigit(c) && c != '.' && c != '°'
  {
  }

  /** The first and last characters of a case-insensitive match of a literal. */
  lemma MatchesAtEnds(s: string, j: nat, lit: string)
    requires |lit| > 0 && MatchesAt(s, j, lit)
    ensures j + |lit| <= |s| && Lower(s[j]) == Lower(lit[0])
    ensures Lower(s[j + |lit| - 1]) == Lower(lit[|lit| - 1])
  {
    assert Lower(s[j + 0]) == Lower(lit[0]);
    assert Lower(s[j + (|lit| - 1)]) == Lower(lit[|lit| - 1]);
  }

  /** DegreesEnd ends `\s*°?F\b` at e exactly when the pattern spells s[k..e]. */
  lemma DegreesEndExact(s: string, k: nat, e: nat)
    requires k <= |s|
    ensures DegreesEnd(s, k) == Some(e) <==> DegreesSpan(s, k, e)
  {
    if DegreesEnd(s, k) == Some(e) {
      DegreesSpanned(s, k, e);
    }
    if DegreesSpan(s, k, e) {
      var j: nat :| DegreesAt(s, k, j, e);
      DegreesFound(s, k, j, e);
    }
  }

  lemma DegreesSpanned(s: string, k: nat, e: nat)
    requires k <= |s| && DegreesEnd(s, k) == Some(e)
    ensures DegreesSpan(s, k, e)
  {
    assert DegreesAt(s, k, RunEnd(s, k, IsSpace), e);
  }

  lemma DegreesFound(s: string, k: nat, j: nat, e: nat)
    requires DegreesAt(s, k, j, e)
    ensures DegreesEnd(s, k) == Some(e)
  {
    if e == j + 1 && MatchesAt(s, j, "F") {
      MatchesAtEnds(s, j, "F");
      LowersToLetter(s[j], 'f');
    }
    SpacesStop(s, k, j);
  }

  /** UnitEnd ends `\s*unit\b` (or `\s*units?\b`) at e exactly when the pattern spells s[k..e]. */
  lemma UnitEndExact(s: string, k: nat, unit: string, plural: bool, e: nat)
    requires k <= |s| && |unit| > 0 && forall m | 0 <= m < |unit| :: 'a' <= unit[m] <= 'z'
    ensures UnitEnd(s, k, unit, plural) == Some(e) <==> UnitSpan(s, k, unit, plural, e)
  {
    var j := RunEnd(s, k, IsSpace);
    if UnitEnd(s, k, unit, plural) == Some(e) {
      if e != j + |unit| {
        assert MatchesAt(s, j + |unit|, "s") by { assert Lower(s[j + |unit| + 0]) == 's'; }
      }
      assert UnitAt(s, k, unit, plural, j, e);
    }
    if UnitSpan(s, k, unit, plural, e) {
      var j': nat :| UnitAt(s, k, unit, plural, j', e);
      UnitFound(s, k, unit, plural, j', e);
    }
  }

  lemma UnitFound(s: string, k: nat, unit: string, plural: bool, j: nat, e: nat)
    requires |unit| > 0 && 'a' <= unit[0] <= 'z' && 'a' <= unit[|unit| - 1] <= 'z'
    requires UnitAt(s, k, unit, plural, j, e)
    ensures UnitEnd(s, k, unit, plural) == Some(e)
  {
    MatchesAtEnds(s, j, unit);
    LowersToLetter(s[j], unit[0]);
    LowersToLetter(s[j + |unit| - 1], unit[|unit| - 1]);
    SpacesStop(s, k, j);
    var e0 := j + |unit|;
    if plural && e0 < |s| && Lower(s[e0]) == 's' {
      LowersToLetter(s[e0], 's');
    }
    if e != e0 {
      MatchesAtEnds(s, e0, "s");
    }
  }

  /** What follows a number in a measurement pattern starts with neither a digit nor a point. */
  lemma SuffixStart(r: Rule, s: string, k: nat, e: nat)
    requires !r.Dates? && !r.Brands? && SuffixSpan(r, s, k, e)
    ensures k < |s| && !IsDigit(s[k]) && s[k] != '.'
  {
    match r
    case Temperature => DegreesSpanStart(s, k, e);
    case Distance => UnitSpanStart(s, k, "mile", true, e);
    case Speed => UnitSpanStart(s, k, "mph", false, e);
    case Weight => UnitSpanStart(s, k, "lb", true, e);
  }

  lemma DegreesSpanStart(s: string, k: nat, e: nat)
    requires DegreesSpan(s, k, e)
    ensures k < |s| && !IsDigit(s[k]) && s[k] != '.'
  {
    var j: nat :| DegreesAt(s, k, j, e);
    if j > k {
      assert IsSpace(s[k]);
    } else if e == j + 1 && MatchesAt(s, j, "F") {
      MatchesAtEnds(s, j, "F");
      LowersToLetter(s[j], 'f');
    } else {
      assert s[k] == '°';
    }
  }

  lemma UnitSpanStart(s: string, k: nat, unit: string, plural: bool, e: nat)
    requires |unit| > 0 && 'a' <= unit[0] <= 'z' && UnitSpan(s, k, unit, plural, e)
    ensures k < |s| && !IsDigit(s[k]) && s[k] != '.'
  {
    var j: nat :| UnitAt(s, k, unit, plural, j, e);
    if j > k {
      assert IsSpace(s[k]);
    } else {
      MatchesAtEnds(s, j, unit);
      LowersToLetter(s[j], unit[0]);
    }
  }

  /** The scanner of a measurement rule's suffix ends at e exactly when the suffix pattern spells s[k..e]. */
  lemma SuffixExact(r: Rule, s: string, k: nat, e: nat)
    requires !r.Dates? && !r.Brands? && k <= |s|
    ensures MeasureSuffixEnd(r, s, k) == Some(e) <==> SuffixSpan(r, s, k, e)
  {
    match r
    case Temperature => DegreesEndExact(s, k, e);
    case Distance => UnitEndExact(s, k, "mile", true, e);
    case Speed => UnitEndExact(s, k, "mph", false, e);
    case Weight => UnitEndExact(s, k, "lb", true, e);
  }

  /** MeasureEnd ends a match at e exactly when the measurement pattern matches s[i..e]. */
  lemma MeasureEndExact(r: Rule, s: string, i: nat, e: nat)
    requires !r.Dates? && !r.Brands? && i <= |s|
    ensures MeasureEnd(r, s, i) == Some(e) <==> MeasureMatch(r, s, i, e)
  {
    if MeasureEnd(r, s, i) == Some(e) {
      var k := NumberEnd(s, i).value;
      NumberEndSpan(s, i);
      SuffixExact(r, s, k, e);
    }
    if MeasureMatch(r, s, i, e) {
      var k :| NumberSpan(s, i, k) && SuffixSpan(r, s, k, e);
      SuffixStart(r, s, k, e);
      NumberEndStops(s, i, k);
      SuffixExact(r, s, k, e);
    }
  }

  // ---------------------------------------------------------------- dates

  /** DateAt finds slashes a and b and end e exactly when the date pattern matches s[i..e] with those slashes. */
  lemma DateAtExact(s: string, i: nat, a: nat, b: nat, e: nat)
    requires i <= |s|
    ensures DateAt(s, i) == Some(DateSpan(a, b, e)) <==> DateShape(s, i, a, b, e)
  {
    if DateAt(s, i) == Some(DateSpan(a, b, e)) {
      assert AllDigits(s[b + 1..b + 5]);
      forall m | b + 1 <= m < e
        ensures IsDigit(s[m])
      {
        assert s[m] == s[b + 1..b + 5][m - b - 1];
      }
    }
    if DateShape(s, i, a, b, e) {
      DigitsStop(s, i, a);
      DigitsStop(s, a + 1, b);
      assert AllDigits(s[b + 1..b + 5]);
    }
  }

  lemma DateEndExact(s: string, i: nat, e: nat)
    requires i <= |s|
    ensures MatchEnd(Dates, s, i) == Some(e) <==> DateMatch(s, i, e)
  {
    if MatchEnd(Dates, s, i) == Some(e) {
      var d := DateAt(s, i).value;
      DateAtExact(s, i, d.slash1, d.slash2, d.end);
    }
    if DateMatch(s, i, e) {
      var a, b :| DateShape(s, i, a, b, e);
      DateAtExact(s, i, a, b, e);
    }
  }

  // ---------------------------------------------------------------- brands

  /** No two alternatives of the brands pattern agree, ignoring case, on their first two characters. */
  lemma BrandPrefixesDiffer(m: nat, n: nat)
    requires m < |BrandNames| && n < |BrandNames| && m != n
    ensures Lower(BrandNames[m][0]) != Lower(BrandNames[n][0]) || Lower(BrandNames[m][1]) != Lower(BrandNames[n][1])
  {
  }

  /** At most one alternative of the brands pattern matches at any position. */
  lemma BrandsDiffer(s: string, i: nat, m: nat, n: nat)
    requires m < |BrandNames| && n < |BrandNames| && m != n
    requires MatchesAt(s, i, BrandNames[n])
    ensures !MatchesAt(s, i, BrandNames[m])
  {
    BrandPrefixesDiffer(m, n);
    assert Lower(s[i + 0]) == Lower(BrandNames[n][0]) && Lower(s[i + 1]) == Lower(BrandNames[n][1]);
  }

  /** Trying the alternatives from the k-th on finds the n-th whenever it matches with `\b` after it. */
  lemma {:induction false} BrandEndFinds(s: string, i: nat, k: nat, n: nat)
    requires i <= |s| && k <= n < |BrandNames|
    requires MatchesAt(s, i, BrandNames[n]) && BoundaryAt(s, i + |BrandNames[n]|)
    ensures BrandEnd(s, i, k) == Some(i + |BrandNames[n]|)
    decreases n - k
  {
    if k < n {
      BrandsDiffer(s, i, k, n);
      BrandEndFinds(s, i, k + 1, n);
    }
  }

  lemma BrandEndExact(s: string, i: nat, e: nat)
    requires i <= |s|
    ensures MatchEnd(Brands, s, i) == Some(e) <==> BrandMatch(s, i, e)
  {
    if MatchEnd(Brands, s, i) == Some(e) {
      var n :| 0 <= n < |BrandNames| && MatchesAt(s, i, BrandNames[n]) && e == i + |BrandNames[n]| && BoundaryAt(s, e);
      assert BrandShape(s, i, n, e);
    }
    if BrandMatch(s, i, e) {
      var n :| BrandShape(s, i, n, e);
      BrandEndFinds(s, i, 0, n);
    }
  }

  // ---------------------------------------------------------------- all rules

  /**
   * The scan of every rule finds a match at i ending at e exactly when the
   * rule's pattern matches s[i..e]. As MatchEnd is a function, every match the
   * pattern could make at i ends at the same place.
   */
  lemma MatchEndExact(r: Rule, s: string, i: nat, e: nat)
    requires i <= |s|
    ensures MatchEnd(r, s, i) == Some(e) <==> PatternMatch(r, s, i, e)
  {
    match r
    case Dates => DateEndExact(s, i, e);
    case Brands => BrandEndExact(s, i, e);
    case _ => MeasureEndExact(r, s, i, e);
  }
}
