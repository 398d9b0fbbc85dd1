/**
 * processText: the once-only guard, then the six rules chained in a fixed
 * order, each a global replace whose callback returns
 * `match + " (" + value + ")"`.
 */
module Engine {
  import opened Opt
  import opened Chars
  import opened Conversions
  import opened Patterns
  import opened Guard
  import opened Replace
  import opened PatternSpec

  /** The six flags of `this.settings`. */
  datatype Settings = Settings(
    temperature: bool, distance: bool, speed: bool, weight: bool, dates: bool, brands: bool)

  /** The settings the constructor starts from, and keeps when none are stored: every rule on. */
  const DefaultSettings := Settings(true, true, true, true, true, true)

  function Enabled(st: Settings, r: Rule): bool {
    match r
    case Temperature => st.temperature
    case Distance => st.distance
    case Speed => st.speed
    case Weight => st.weight
    case Dates => st.dates
    case Brands => st.brands
  }

  predicate AllOff(st: Settings) {
    !st.temperature && !st.distance && !st.speed && !st.weight && !st.dates && !st.brands
  }

  /** What the callback adds after the match s[i..e]: the parenthesised note, or nothing. */
  function Insertion(r: Rule, s: string, i: nat, e: nat): string
    requires i <= |s| && MatchEnd(r, s, i) == Some(e)
  {
    match Note(r, s, i, e)
    case Some(v) => " (" + v + ")"
    case None => ""
  }

  function HitAt(r: Rule, s: string, i: nat): (h: Option<Hit>)
    requires i < |s|
    ensures h.Some? ==> i < h.value.end <= |s|
  {
    match MatchEnd(r, s, i)
    case Some(e) => Some(Hit(e, Insertion(r, s, i, e)))
    case None => None
  }

  /** The rule's pattern tried at every position of s. */
  function Scan(r: Rule, s: string): (hits: seq<Option<Hit>>)
    ensures HitsOf(s, hits)
  {
    seq(|s|, i requires 0 <= i < |s| => HitAt(r, s, i))
  }

  /** Every match of every rule inserts a note. */
  lemma ScanInsertsText(r: Rule, s: string)
    ensures InsertsText(Scan(r, s))
  {
    forall i | 0 <= i < |s| && Scan(r, s)[i].Some?
      ensures |Scan(r, s)[i].value.insert| > 0
    {
      NoteDefined(r, s, i, MatchEnd(r, s, i).value);
    }
  }

  /** processedText.replace(pattern, callback) for one rule. */
  function ApplyRule(r: Rule, s: string): string {
    ReplaceFrom(s, Scan(r, s), 0)
  }

  /** One step of the chain: the rule's replace when its flag is on, nothing when it is off. */
  function Stage(st: Settings, r: Rule, s: string): string {
    if Enabled(st, r) then ApplyRule(r, s) else s
  }

  /** The six replaces in the order processText runs them, each on the previous one's output. */
  function Convert(st: Settings, s: string): string {
    var t1 := Stage(st, Temperature, s);
    var t2 := Stage(st, Distance, t1);
    var t3 := Stage(st, Speed, t2);
    var t4 := Stage(st, Weight, t3);
    var t5 := Stage(st, Dates, t4);
    Stage(st, Brands, t5)
  }

  /** processText: the input itself when it already holds an annotation, else the chained conversions. */
  function ProcessText(st: Settings, s: string): (r: string)
    ensures AlreadyProcessed(s) ==> r == s
    ensures AllOff(st) ==> r == s
    ensures |r| >= |s|
  {
    if AlreadyProcessed(s) then s else Convert(st, s)
  }

  /** A rule changes the text exactly when its pattern matches somewhere in it. */
  lemma RuleChangesIffMatch(r: Rule, s: string)
    ensures ApplyRule(r, s) != s <==> Matches(s, Scan(r, s), 0) != []
  {
    ScanInsertsText(r, s);
    ReplaceChangesIffMatch(s, Scan(r, s), 0);
    assert s[0..] == s;
  }

  /** The temperature rule's match at p converts to a value below zero. */
  predicate BelowZeroAt(s: string, p: nat) {
    p < |s| && NumberEnd(s, p).Some? && FahrenheitToCelsius(Captured(s, p)) < 0
  }

  /** A stage lengthens the text exactly when its rule is on and its pattern matches; otherwise it changes nothing. */
  lemma StageGrowsIffMatch(st: Settings, r: Rule, s: string)
    ensures Enabled(st, r) && Matches(s, Scan(r, s), 0) != [] ==> |Stage(st, r, s)| > |s|
    ensures !(Enabled(st, r) && Matches(s, Scan(r, s), 0) != []) ==> Stage(st, r, s) == s
  {
    RuleChangesIffMatch(r, s);
    if Enabled(st, r) && Matches(s, Scan(r, s), 0) != [] {
      ScanInsertsText(r, s);
      ReplaceLonger(s, Scan(r, s));
    }
  }

  /** The six conversions leave a text unchanged exactly when no rule that is on matches it. */
  lemma ConvertUnchangedIff(st: Settings, s: string)
    ensures Convert(st, s) == s <==> forall r: Rule :: Enabled(st, r) ==> Matches(s, Scan(r, s), 0) == []
  {
    if forall r: Rule :: Enabled(st, r) ==> Matches(s, Scan(r, s), 0) == [] {
      StageGrowsIffMatch(st, Temperature, s);
      StageGrowsIffMatch(st, Distance, s);
      StageGrowsIffMatch(st, Speed, s);
      StageGrowsIffMatch(st, Weight, s);
      StageGrowsIffMatch(st, Dates, s);
      StageGrowsIffMatch(st, Brands, s);
    } else {
      var r: Rule :| Enabled(st, r) && Matches(s, Scan(r, s), 0) != [];
      ConvertGrows(st, s, r);
    }
  }

  /** When a rule that is on matches the text, the conversions lengthen it. */
  lemma ConvertGrows(st: Settings, s: string, r: Rule)
    requires Enabled(st, r) && Matches(s, Scan(r, s), 0) != []
    ensures |Convert(st, s)| > |s|
  {
    var t1 := Stage(st, Temperature, s);
    var t2 := Stage(st, Distance, t1);
    var t3 := Stage(st, Speed, t2);
    var t4 := Stage(st, Weight, t3);
    var t5 := Stage(st, Dates, t4);
    StageGrowsIffMatch(st, Temperature, s);
    StageGrowsIffMatch(st, Distance, t1);
    StageGrowsIffMatch(st, Speed, t2);
    StageGrowsIffMatch(st, Weight, t3);
    StageGrowsIffMatch(st, Dates, t4);
    StageGrowsIffMatch(st, Brands, t5);
    StageGrowsIffMatch(st, r, s);
    assert |Convert(st, s)| >= |t5| >= |t4| >= |t3| >= |t2| >= |t1| >= |s|;
  }

  /** A number written by NatToString is a `\d+` token. */
  lemma NatIsToken(n: nat)
    ensures IsNumberToken(NatToString(n))
  {
    WholeToken(NatToString(n));
  }

  /** The rule matches t[p..e] and its callback notes v. */
  predicate NoteAt(r: Rule, t: string, p: nat, e: nat, v: string) {
    p < |t| && MatchEnd(r, t, p) == Some(e) && Note(r, t, p, e) == Some(v)
  }

  /** The note of a match, in parentheses at position q of x, is recognised by the guard. */
  lemma NoteRecognised(r: Rule, t: string, p: nat, e: nat, v: string, x: string, q: nat)
    requires NoteAt(r, t, p, e, v) && Parenthesised(x, q, v)
    requires r == Temperature ==> FahrenheitToCelsius(Captured(t, p)) >= 0
    ensures GuardAt(x, q)
  {
    match r
    case Temperature => CelsiusRecognised(FahrenheitToCelsius(Captured(t, p)), x, q);
    case Distance => HundredthsRecognised(MilesToKm(Captured(t, p)), " km", x, q);
    case Speed => KmhRecognised(MphToKmh(Captured(t, p)), x, q);
    case Weight => HundredthsRecognised(LbsToKg(Captured(t, p)), " kg", x, q);
    case Dates => DateRecognised(DateCaptures(t, p), x, q);
    case Brands =>
      BrandMatchHasInfo(t, p, e);
      SeesBrand(x, q, LowerString(t[p..e]));
  }

  /** A text holding the note of a match in parentheses counts as already processed. */
  lemma NoteProcessed(r: Rule, t: string, p: nat, e: nat, v: string, x: string, q: nat)
    requires NoteAt(r, t, p, e, v) && Parenthesised(x, q, v)
    requires r == Temperature ==> FahrenheitToCelsius(Captured(t, p)) >= 0
    ensures AlreadyProcessed(x)
  {
    NoteRecognised(r, t, p, e, v, x, q);
    GuardSomewhere(x, q);
  }

  lemma CelsiusRecognised(c: int, x: string, q: nat)
    requires c >= 0 && Parenthesised(x, q, IntToString(c) + "°C")
    ensures MeasureNoteAt(x, q, "°C")
  {
    var g := NatToString(c);
    NatIsToken(c);
    assert "(" + (IntToString(c) + "°C") + ")" == "(" + g + "" + "°C" + ")";
    SeesMeasure(x, q, g, "", "°C");
  }

  lemma KmhRecognised(k: nat, x: string, q: nat)
    requires Parenthesised(x, q, NatToString(k) + " km/h")
    ensures MeasureNoteAt(x, q, "km/h")
  {
    var g := NatToString(k);
    NatIsToken(k);
    assert "(" + (g + " km/h") + ")" == "(" + g + " " + "km/h" + ")";
    SeesMeasure(x, q, g, " ", "km/h");
  }

  lemma HundredthsRecognised(h: nat, unit: string, x: string, q: nat)
    requires unit == " km" || unit == " kg"
    requires Parenthesised(x, q, Hundredths(h) + unit)
    ensures MeasureNoteAt(x, q, unit[1..])
  {
    var g := Hundredths(h);
    HundredthsRoundTrip(h);
    assert IsNumberToken(g);
    assert "(" + (g + unit) + ")" == "(" + g + " " + unit[1..] + ")";
    SeesMeasure(x, q, g, " ", unit[1..]);
  }

  lemma DateRecognised(f: DateFields, x: string, q: nat)
    requires AllDigits(f.month) && 1 <= |f.day| <= 2 && AllDigits(f.day) && |f.year| == 4 && AllDigits(f.year)
    requires Parenthesised(x, q, FormatDate(f.month, f.day, f.year))
    ensures DateNoteAt(x, q)
  {
    var name := MonthName(DigitsValue(f.month));
    MonthNameIsWord(DigitsValue(f.month));
    assert "(" + FormatDate(f.month, f.day, f.year) + ")" == "(" + f.day + " " + name + " " + f.year + ")";
    SeesDate(x, q, f.day, name, f.year);
  }

  /**
   * After a rule has changed the text, the guard recognises its output, unless
   * it is the temperature rule and every value it wrote is below zero.
   */
  lemma ChangedOutputRecognised(r: Rule, t: string)
    requires ApplyRule(r, t) != t
    requires r == Temperature ==> exists p | p in Matches(t, Scan(r, t), 0) :: !BelowZeroAt(t, p)
    ensures AlreadyProcessed(ApplyRule(r, t))
  {
    RuleChangesIffMatch(r, t);
    if r == Temperature {
      var p :| p in Matches(t, Scan(r, t), 0) && !BelowZeroAt(t, p);
      CelsiusNoteRecognised(t, p);
    } else {
      OtherNoteRecognised(r, t, Matches(t, Scan(r, t), 0)[0]);
    }
  }

  lemma CelsiusNoteRecognised(t: string, p: nat)
    requires p in Matches(t, Scan(Temperature, t), 0) && !BelowZeroAt(t, p)
    ensures AlreadyProcessed(ApplyRule(Temperature, t))
  {
    var x, e, v, q := MatchNoteAt(Temperature, t, p);
    TemperatureMatchNumber(t, p);
    NoteProcessed(Temperature, t, p, e, v, x, q);
  }

  lemma OtherNoteRecognised(r: Rule, t: string, p: nat)
    requires r != Temperature && p in Matches(t, Scan(r, t), 0)
    ensures AlreadyProcessed(ApplyRule(r, t))
  {
    var x, e, v, q := MatchNoteAt(r, t, p);
    NoteProcessed(r, t, p, e, v, x, q);
  }

  lemma TemperatureMatchNumber(t: string, p: nat)
    requires p < |t| && MatchEnd(Temperature, t, p).Some?
    ensures NumberEnd(t, p).Some?
  {
  }

  /** The note of every match the search finds sits in parentheses, at q, in the rule's output. */
  lemma MatchNoteAt(r: Rule, t: string, p: nat) returns (x: string, e: nat, v: string, q: nat)
    requires p in Matches(t, Scan(r, t), 0)
    ensures x == ApplyRule(r, t)
    ensures NoteAt(r, t, p, e, v) && Parenthesised(x, q, v)
  {
    x := ApplyRule(r, t);
    var hits := Scan(r, t);
    MatchIsHit(t, hits, p);
    HitIsNote(r, t, p);
    e := MatchEnd(r, t, p).value;
    v := Note(r, t, p, e).value;
    q := NoteParenthesised(t, hits, p, v);
  }

  /** A match found by the scan inserts its note in parentheses. */
  lemma HitIsNote(r: Rule, t: string, p: nat)
    requires p < |t| && Scan(r, t)[p].Some?
    ensures MatchEnd(r, t, p).Some? && Note(r, t, p, MatchEnd(r, t, p).value).Some?
    ensures Scan(r, t)[p].value == Hit(MatchEnd(r, t, p).value, " (" + Note(r, t, p, MatchEnd(r, t, p).value).value + ")")
  {
    NoteDefined(r, t, p, MatchEnd(r, t, p).value);
  }

  /**
   * The one case the guard misses: the temperature rule was the only one to
   * change the text, and every value it wrote is below zero, so that the
   * guard's `\(\d+(?:\.\d+)?\s*°C\)` finds none of them.
   */
  predicate NegativeTemperatureOnly(st: Settings, s: string) {
    && !AlreadyProcessed(s)
    && st.temperature
    && Matches(s, Scan(Temperature, s), 0) != []
    && Convert(st, s) == ApplyRule(Temperature, s)
    && forall p | p in Matches(s, Scan(Temperature, s), 0) :: BelowZeroAt(s, p)
  }

  /** processText's output is a fixed point of processText, outside the one case the guard misses. */
  lemma ProcessTextIdempotent(st: Settings, s: string)
    requires !NegativeTemperatureOnly(st, s)
    ensures ProcessText(st, ProcessText(st, s)) == ProcessText(st, s)
  {
    if !AlreadyProcessed(s) {
      var t1 := Stage(st, Temperature, s);
      var t2 := Stage(st, Distance, t1);
      var t3 := Stage(st, Speed, t2);
      var t4 := Stage(st, Weight, t3);
      var t5 := Stage(st, Dates, t4);
      var t6 := Stage(st, Brands, t5);
      assert Convert(st, s) == t6;
      if t6 != t5 {
        ChangedOutputRecognised(Brands, t5);
      } else if t5 != t4 {
        ChangedOutputRecognised(Dates, t4);
      } else if t4 != t3 {
        ChangedOutputRecognised(Weight, t3);
      } else if t3 != t2 {
        ChangedOutputRecognised(Speed, t2);
      } else if t2 != t1 {
        ChangedOutputRecognised(Distance, t1);
      } else if t1 != s {
        RuleChangesIffMatch(Temperature, s);
        ChangedOutputRecognised(Temperature, s);
      }
    }
  }

  /**
   * In the case the guard misses, processing the output again annotates the
   * first temperature again, so the text grows, unless the output happens to
   * hold another of the guard's shapes (a "(US " before the inserted note, say).
   */
  lemma NegativeTemperatureReannotated(st: Settings, s: string)
    requires NegativeTemperatureOnly(st, s) && !AlreadyProcessed(ProcessText(st, s))
    ensures |ProcessText(st, ProcessText(st, s))| > |ProcessText(st, s)|
  {
    var x := ProcessText(st, s);
    assert x == ApplyRule(Temperature, s);
    var hits := Scan(Temperature, x);
    var p := Matches(s, Scan(Temperature, s), 0)[0];
    FirstMatchKept(s, p);
    MatchesAreLeftmost(x, hits, 0, p);
    ScanInsertsText(Temperature, x);
    ReplaceLonger(x, hits);
    assert |Stage(st, Temperature, x)| > |x|;
  }

  /**
   * The whole answer: processText's output is a fixed point of processText
   * exactly outside the case the guard misses.
   */
  lemma ProcessTextFixedPointIff(st: Settings, s: string)
    ensures ProcessText(st, ProcessText(st, s)) == ProcessText(st, s) <==>
            !(NegativeTemperatureOnly(st, s) && !AlreadyProcessed(ProcessText(st, s)))
  {
    if !NegativeTemperatureOnly(st, s) {
      ProcessTextIdempotent(st, s);
    } else if !AlreadyProcessed(ProcessText(st, s)) {
      NegativeTemperatureReannotated(st, s);
    }
  }

  /** The first temperature match of s is still a match, at the same place, in the rule's output. */
  lemma FirstMatchKept(s: string, p: nat)
    requires Matches(s, Scan(Temperature, s), 0) != [] && p == Matches(s, Scan(Temperature, s), 0)[0]
    ensures p < |ApplyRule(Temperature, s)| && Scan(Temperature, ApplyRule(Temperature, s))[p].Some?
  {
    var x := ApplyRule(Temperature, s);
    var e := FirstMatchSpaced(s, p);
    TemperatureMatchSurvives(s, x, p, e);
    assert Scan(Temperature, x)[p] == HitAt(Temperature, x, p);
  }

  /** In the rule's output, the first temperature match is followed by the space of its note. */
  lemma FirstMatchSpaced(s: string, p: nat) returns (e: nat)
    requires Matches(s, Scan(Temperature, s), 0) != [] && p == Matches(s, Scan(Temperature, s), 0)[0]
    ensures p <= |s| && MatchEnd(Temperature, s, p) == Some(e)
    ensures var x := ApplyRule(Temperature, s); e < |x| && x[..e] == s[..e] && x[e] == ' '
  {
    var hits := Scan(Temperature, s);
    MatchIsHit(s, hits, p);
    HitIsNote(Temperature, s, p);
    e := MatchEnd(Temperature, s, p).value;
    var v := Note(Temperature, s, p, e).value;
    assert (" (" + v + ")")[0] == ' ';
    FirstInsertionFollows(s, hits);
  }

  /** A temperature match is unaffected by what follows it, as long as a non-word character does. */
  lemma TemperatureMatchSurvives(s: string, x: string, p: nat, e: nat)
    requires p <= |s| && MatchEnd(Temperature, s, p) == Some(e)
    requires e < |x| && x[..e] == s[..e] && x[e] == ' '
    ensures MatchEnd(Temperature, x, p) == Some(e)
  {
    MatchEndExact(Temperature, s, p, e);
    var k :| NumberSpan(s, p, k) && SuffixSpan(Temperature, s, k, e);
    assert DegreesSpan(s, k, e);
    var j: nat :| DegreesAt(s, k, j, e);
    forall m | 0 <= m < e
      ensures x[m] == s[m]
    {
      assert x[..e][m] == s[..e][m];
    }
    NumberSpanKept(s, x, p, k, e);
    DegreesAtKept(s, x, k, j, e);
    MatchEndExact(Temperature, x, p, e);
  }

  lemma NumberSpanKept(s: string, x: string, p: nat, k: nat, e: nat)
    requires BoundaryAt(s, p) && NumberSpan(s, p, k) && k <= e <= |x| && e <= |s|
    requires forall m | 0 <= m < e :: x[m] == s[m]
    ensures BoundaryAt(x, p) && NumberSpan(x, p, k)
  {
    if !DigitsIn(s, p, k) {
      var d :| p < d < k && FractionAt(s, p, d, k);
      assert FractionAt(x, p, d, k);
    }
  }

  lemma DegreesAtKept(s: string, x: string, k: nat, j: nat, e: nat)
    requires DegreesAt(s, k, j, e) && e < |x| && x[e] == ' '
    requires forall m | 0 <= m < e :: x[m] == s[m]
    ensures DegreesAt(x, k, j, e)
  {
    var f := e - 1;
    assert MatchesAt(s, f, "F") by {
      if e == j + 2 {
        assert f == j + 1;
      }
    }
    MatchesAtEnds(s, f, "F");
    LowersToLetter(s[f], 'f');
    assert MatchesAt(x, f, "F") by { assert Lower(x[f + 0]) == Lower("F"[0]); }
    if e == j + 2 {
      assert MatchesAt(x, j + 1, "F");
    }
  }
}
