/**
 * The six global patterns of the content script as scanners: for a rule and a
 * position, whether the rule's regular expression matches there and where the
 * match ends, and the annotation its replacement callback computes.
 *
 * Backtracking cannot make any of these patterns match differently from a
 * greedy scan: a digit run cannot be shortened because what follows it must
 * then be a digit, and neither `\s`, `°`, the unit letters nor `/` is one. So
 * each scanner reads greedily and checks the same conditions the pattern does.
 */
module Patterns {
  import opened Opt
  import opened Chars
  import opened Conversions

  datatype Rule = Temperature | Distance | Speed | Weight | Dates | Brands

  /** `\d+(?:\.\d+)?` starting at i: where it ends, if it matches. */
  function NumberEnd(s: string, i: nat): (k: Option<nat>)
    requires i <= |s|
    ensures k.Some? ==> i < k.value <= |s| && IsNumberToken(s[i..k.value])
  {
    var j := RunEnd(s, i, IsDigit);
    if j == i then None
    else if j + 1 < |s| && s[j] == '.' && IsDigit(s[j + 1]) then
      var k := RunEnd(s, j + 1, IsDigit);
      NumberTokenSlice(s, i, j, k);
      Some(k)
    else
      assert IsNumberToken(s[i..j]) by { RunEndFrom(s[i..j], 0, j - i, IsDigit); }
      Some(j)
  }

  lemma NumberTokenSlice(s: string, i: nat, j: nat, k: nat)
    requires i < j && j + 1 < k <= |s| && s[j] == '.'
    requires forall m | i <= m < j :: IsDigit(s[m])
    requires forall m | j + 1 <= m < k :: IsDigit(s[m])
    ensures IsNumberToken(s[i..k])
  {
    var g := s[i..k];
    RunEndFrom(g, 0, j - i, IsDigit);
    RunEndFrom(g, j - i + 1, |g|, IsDigit);
  }

  /** The value parseFloat gives the captured number that starts at i. */
  function Captured(s: string, i: nat): Decimal
    requires i <= |s| && NumberEnd(s, i).Some?
  {
    ParseNumber(s[i..NumberEnd(s, i).value])
  }

  /** Case-insensitive comparison of an ASCII literal with the text at i. */
  predicate MatchesAt(s: string, i: nat, lit: string) {
    i + |lit| <= |s| && forall k | 0 <= k < |lit| :: Lower(s[i + k]) == Lower(lit[k])
  }

  /** `\s*°?F\b` after the number that ends at k. */
  function DegreesEnd(s: string, k: nat): (e: Option<nat>)
    requires k <= |s|
    ensures e.Some? ==> k < e.value <= |s|
  {
    var j := RunEnd(s, k, IsSpace);
    var f := if j < |s| && s[j] == '°' then j + 1 else j;
    if MatchesAt(s, f, "F") && BoundaryAt(s, f + 1) then Some(f + 1) else None
  }

  /** `\s*unit\b`, or `\s*units?\b` when plural, after the number that ends at k. */
  function UnitEnd(s: string, k: nat, unit: string, plural: bool): (e: Option<nat>)
    requires k <= |s| && |unit| > 0
    ensures e.Some? ==> k < e.value <= |s|
  {
    var j := RunEnd(s, k, IsSpace);
    if !MatchesAt(s, j, unit) then None
    else
      var e0 := j + |unit|;
      var e := if plural && e0 < |s| && Lower(s[e0]) == 's' then e0 + 1 else e0;
      if BoundaryAt(s, e) then Some(e) else None
  }

  /** The part of a measurement pattern after the captured number, read from k. */
  function MeasureSuffixEnd(r: Rule, s: string, k: nat): (e: Option<nat>)
    requires k <= |s| && !r.Dates? && !r.Brands?
    ensures e.Some? ==> k < e.value <= |s|
  {
    match r
    case Temperature => DegreesEnd(s, k)
    case Distance => UnitEnd(s, k, "mile", true)
    case Speed => UnitEnd(s, k, "mph", false)
    case Weight => UnitEnd(s, k, "lb", true)
  }

  /** Where `(\b\d+(?:\.\d+)?)` followed by the rule's unit matches at i, for the four measurement rules. */
  function MeasureEnd(r: Rule, s: string, i: nat): (e: Option<nat>)
    requires i <= |s| && !r.Dates? && !r.Brands?
    ensures e.Some? ==> NumberEnd(s, i).Some? && NumberEnd(s, i).value < e.value <= |s|
  {
    if !BoundaryAt(s, i) then None
    else match NumberEnd(s, i)
      case None => None
      case Some(k) => MeasureSuffixEnd(r, s, k)
  }

  /** The two slashes and the end of a `\b(\d{1,2})\/(\d{1,2})\/(\d{4})\b` match. */
  datatype DateSpan = DateSpan(slash1: nat, slash2: nat, end: nat)

  function DateAt(s: string, i: nat): (d: Option<DateSpan>)
    requires i <= |s|
    ensures d.Some? ==>
      && i < d.value.slash1 < d.value.slash2 < d.value.end <= |s|
      && 1 <= d.value.slash1 - i <= 2 && 1 <= d.value.slash2 - d.value.slash1 - 1 <= 2
      && d.value.end == d.value.slash2 + 5
      && AllDigits(s[i..d.value.slash1]) && AllDigits(s[d.value.slash1 + 1..d.value.slash2])
      && AllDigits(s[d.value.slash2 + 1..d.value.end])
  {
    if !BoundaryAt(s, i) then None
    else
      var a := RunEnd(s, i, IsDigit);
      if !(1 <= a - i <= 2 && a < |s| && s[a] == '/') then None
      else
        var b := RunEnd(s, a + 1, IsDigit);
        if !(1 <= b - (a + 1) <= 2 && b < |s| && s[b] == '/') then None
        else if b + 5 <= |s| && AllDigits(s[b + 1..b + 5]) && BoundaryAt(s, b + 5) then
          Some(DateSpan(a, b, b + 5))
        else None
  }

  /** The three capture groups of a date match: month, day and year. */
  datatype DateFields = DateFields(month: string, day: string, year: string)

  function DateCaptures(s: string, i: nat): (f: DateFields)
    requires i <= |s| && DateAt(s, i).Some?
    ensures 1 <= |f.month| <= 2 && AllDigits(f.month)
    ensures 1 <= |f.day| <= 2 && AllDigits(f.day)
    ensures |f.year| == 4 && AllDigits(f.year)
    ensures s[i..DateAt(s, i).value.end] == f.month + "/" + f.day + "/" + f.year
  {
    var d := DateAt(s, i).value;
    var f := DateFields(s[i..d.slash1], s[d.slash1 + 1..d.slash2], s[d.slash2 + 1..d.end]);
    assert s[i..d.end] == s[i..d.slash1] + [s[d.slash1]] + s[d.slash1 + 1..d.slash2] + [s[d.slash2]] + s[d.slash2 + 1..d.end];
    f
  }

  /** The alternatives of the brands pattern, in the order the pattern tries them. */
  const BrandNames: seq<string> := [
    "Apple", "McDonald's", "Walmart", "Starbucks", "Nike",
    "Coca-Cola", "Pepsi", "KFC", "Burger King", "Subway"
  ]

  /** brandInfo: lower-case brand name to its origin description. */
  const BrandInfo: map<string, string> := map[
    "apple" := "US tech company",
    "mcdonald's" := "US fast food chain",
    "walmart" := "US retail corporation",
    "starbucks" := "US coffeehouse chain",
    "nike" := "US sportswear brand",
    "coca-cola" := "US beverage company",
    "pepsi" := "US beverage company",
    "kfc" := "US fast food chain",
    "burger king" := "US fast food chain",
    "subway" := "US sandwich chain"
  ]

  /** `(A|B|...)\b` at i, trying the alternatives from the k-th on, the first that matches winning. */
  function BrandEnd(s: string, i: nat, k: nat): (e: Option<nat>)
    requires i <= |s|
    ensures e.Some? ==> exists n | k <= n < |BrandNames| ::
      MatchesAt(s, i, BrandNames[n]) && e.value == i + |BrandNames[n]| && BoundaryAt(s, e.value)
    decreases |BrandNames| - k
  {
    if k >= |BrandNames| then None
    else if MatchesAt(s, i, BrandNames[k]) && BoundaryAt(s, i + |BrandNames[k]|) then
      Some(i + |BrandNames[k]|)
    else BrandEnd(s, i, k + 1)
  }

  /** Where the rule's pattern matches when the search reaches position i, if it does. */
  function MatchEnd(r: Rule, s: string, i: nat): (e: Option<nat>)
    requires i <= |s|
    ensures e.Some? ==> i < e.value <= |s|
  {
    match r
    case Dates => if DateAt(s, i).Some? then Some(DateAt(s, i).value.end) else None
    case Brands => if BoundaryAt(s, i) then BrandEnd(s, i, 0) else None
    case _ => MeasureEnd(r, s, i)
  }

  /**
   * What the rule's replacement callback puts between the parentheses after
   * the match s[i..e]; None where the brands callback finds no entry and
   * returns the match unchanged.
   */
  function Note(r: Rule, s: string, i: nat, e: nat): Option<string>
    requires i <= |s| && MatchEnd(r, s, i) == Some(e)
  {
    match r
    case Temperature => Some(IntToString(FahrenheitToCelsius(Captured(s, i))) + "°C")
    case Distance => Some(Hundredths(MilesToKm(Captured(s, i))) + " km")
    case Speed => Some(NatToString(MphToKmh(Captured(s, i))) + " km/h")
    case Weight => Some(Hundredths(LbsToKg(Captured(s, i))) + " kg")
    case Dates =>
      var f := DateCaptures(s, i);
      Some(FormatDate(f.month, f.day, f.year))
    case Brands =>
      var key := LowerString(s[i..e]);
      if key in BrandInfo then Some(BrandInfo[key]) else None
  }

  /** Every alternative of the brands pattern, lower-cased, is a key of brandInfo. */
  lemma BrandNamesHaveInfo(n: nat)
    requires n < |BrandNames|
    ensures LowerString(BrandNames[n]) in BrandInfo
  {
    var lowered := ["apple", "mcdonald's", "walmart", "starbucks", "nike",
                    "coca-cola", "pepsi", "kfc", "burger king", "subway"];
    LowersTo(BrandNames[n], lowered[n]);
  }

  lemma LowersTo(a: string, b: string)
    requires |a| == |b| && forall k | 0 <= k < |a| :: Lower(a[k]) == b[k]
    ensures LowerString(a) == b
  {
  }

  /**
   * Whatever the brands pattern matches has an entry in brandInfo, so its
   * callback always annotates and its unchanged-match fallback is unreachable.
   */
  lemma BrandMatchHasInfo(s: string, i: nat, e: nat)
    requires i <= |s| && MatchEnd(Brands, s, i) == Some(e)
    ensures LowerString(s[i..e]) in BrandInfo
    ensures Note(Brands, s, i, e) == Some(BrandInfo[LowerString(s[i..e])])
  {
    var n :| 0 <= n < |BrandNames| && MatchesAt(s, i, BrandNames[n]) && e == i + |BrandNames[n]|;
    BrandNamesHaveInfo(n);
    assert LowerString(s[i..e]) == LowerString(BrandNames[n]);
  }

  /** Every rule's callback yields an annotation for every match. */
  lemma NoteDefined(r: Rule, s: string, i: nat, e: nat)
    requires i <= |s| && MatchEnd(r, s, i) == Some(e)
    ensures Note(r, s, i, e).Some?
  {
    if r.Brands? {
      BrandMatchHasInfo(s, i, e);
    }
  }
}
