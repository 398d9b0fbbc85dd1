/**
 * isAlreadyProcessed: the six annotation-shaped patterns the content script
 * tests a text against before converting it. None of them has the `i` flag.
 */
module Guard {
  import opened Opt
  import opened Chars
  import opened Conversions
  import opened Patterns

  /** `\(\d+(?:\.\d+)?\s*unit\)` at i. */
  predicate MeasureNoteAt(s: string, i: nat, unit: string) {
    i < |s| && s[i] == '(' &&
    match NumberEnd(s, i + 1)
    case None => false
    case Some(k) =>
      var j := RunEnd(s, k, IsSpace);
      j + |unit| + 1 <= |s| && s[j..j + |unit| + 1] == unit + ")"
  }

  /** `\(\d{1,2}\s+\w+\s+\d{4}\)` at i. */
  predicate DateNoteAt(s: string, i: nat) {
    i < |s| && s[i] == '(' &&
    var a := RunEnd(s, i + 1, IsDigit);
    var b := RunEnd(s, a, IsSpace);
    var c := RunEnd(s, b, IsWordChar);
    var d := RunEnd(s, c, IsSpace);
    1 <= a - (i + 1) <= 2 && b > a && c > b && d > c &&
    d + 5 <= |s| && AllDigits(s[d..d + 4]) && s[d + 4] == ')'
  }

  /** `.*?\)` from m: a closing parenthesis comes before any line terminator. */
  predicate ClosesOnLine(s: string, m: nat)
    decreases |s| - m
  {
    m < |s| && (s[m] == ')' || (!IsLineTerminator(s[m]) && ClosesOnLine(s, m + 1)))
  }

  /** `\(US\s+\w+.*?\)` at i. */
  predicate BrandNoteAt(s: string, i: nat) {
    i + 3 <= |s| && s[i..i + 3] == "(US" &&
    var j := RunEnd(s, i + 3, IsSpace);
    j > i + 3 && j < |s| && IsWordChar(s[j]) && ClosesOnLine(s, j + 1)
  }

  /** Some annotation-shaped pattern matches at i. */
  predicate GuardAt(s: string, i: nat) {
    || MeasureNoteAt(s, i, "°C")
    || MeasureNoteAt(s, i, "km")
    || MeasureNoteAt(s, i, "km/h")
    || MeasureNoteAt(s, i, "kg")
    || DateNoteAt(s, i)
    || BrandNoteAt(s, i)
  }

  /** isAlreadyProcessed: one of the six patterns matches somewhere in s. */
  predicate AlreadyProcessed(s: string) {
    exists i | 0 <= i < |s| :: GuardAt(s, i)
  }

  /** A number token followed by neither a digit nor a point is read whole by `\d+(?:\.\d+)?`. */
  lemma NumberEndOf(x: string, p: nat, g: string)
    requires IsNumberToken(g)
    requires p + |g| < |x| && x[p..p + |g|] == g
    requires !IsDigit(x[p + |g|]) && x[p + |g|] != '.'
    ensures NumberEnd(x, p) == Some(p + |g|)
  {
    var j0 := RunEnd(g, 0, IsDigit);
    forall k | p <= k < p + j0
      ensures IsDigit(x[k])
    {
      assert x[k] == g[k - p];
    }
    if j0 < |g| {
      assert x[p + j0] == g[j0] == '.';
      assert x[p + j0 + 1] == g[j0 + 1];
      forall k | p + j0 + 1 <= k < p + |g|
        ensures IsDigit(x[k])
      {
        assert x[k] == g[k - p];
      }
      RunEndFrom(x, p, p + j0, IsDigit);
      RunEndFrom(x, p + j0 + 1, p + |g|, IsDigit);
    } else {
      RunEndFrom(x, p, p + j0, IsDigit);
    }
  }

  /** Splitting a slice known to spell u + v into the slices that spell u and v. */
  lemma SplitAt(x: string, q: nat, u: string, v: string)
    requires q + |u| + |v| <= |x| && x[q..q + |u| + |v|] == u + v
    ensures x[q..q + |u|] == u && x[q + |u|..q + |u| + |v|] == v
  {
    assert x[q..q + |u|] == x[q..q + |u| + |v|][..|u|];
    assert x[q + |u|..q + |u| + |v|] == x[q..q + |u| + |v|][|u|..];
  }

  /** `(` number, an optional space, unit, `)` is what the measurement guards recognise. */
  lemma SeesMeasure(x: string, q: nat, g: string, sep: string, unit: string)
    requires IsNumberToken(g)
    requires sep == "" || sep == " "
    requires |unit| > 0 && !IsDigit(unit[0]) && unit[0] != '.' && !IsSpace(unit[0])
    requires q + |g| + |sep| + |unit| + 2 <= |x|
    requires x[q..q + |g| + |sep| + |unit| + 2] == "(" + g + sep + unit + ")"
    ensures MeasureNoteAt(x, q, unit)
  {
    var a := q + 1 + |g|;
    var j := a + |sep|;
    SplitAt(x, q, "(" + g + sep + unit, ")");
    SplitAt(x, q, "(" + g + sep, unit);
    SplitAt(x, q, "(" + g, sep);
    SplitAt(x, q, "(", g);
    MeasurePieces(x, q, a, j, g, sep, unit);
  }

  lemma MeasurePieces(x: string, q: nat, a: nat, j: nat, g: string, sep: string, unit: string)
    requires IsNumberToken(g)
    requires sep == "" || sep == " "
    requires |unit| > 0 && !IsDigit(unit[0]) && unit[0] != '.' && !IsSpace(unit[0])
    requires a == q + 1 + |g| && j == a + |sep| && j + |unit| + 1 <= |x|
    requires x[q..q + 1] == "(" && x[q + 1..a] == g && x[a..j] == sep
    requires x[j..j + |unit|] == unit && x[j + |unit|..j + |unit| + 1] == ")"
    ensures MeasureNoteAt(x, q, unit)
  {
    assert x[q] == x[q..q + 1][0];
    assert x[j] == x[j..j + |unit|][0];
    NumberEndOf(x, q + 1, g);
    if sep == " " {
      assert x[a] == x[a..j][0];
    }
    RunEndFrom(x, a, j, IsSpace);
    assert x[j..j + |unit| + 1] == x[j..j + |unit|] + x[j + |unit|..j + |unit| + 1];
  }

  /** `(` day, a space, a month name, a space, a four-digit year, `)` is what the date guard recognises. */
  lemma SeesDate(x: string, q: nat, day: string, name: string, year: string)
    requires 1 <= |day| <= 2 && AllDigits(day)
    requires |name| > 0 && forall k | 0 <= k < |name| :: IsAsciiLetter(name[k])
    requires |year| == 4 && AllDigits(year)
    requires q + |day| + |name| + 8 <= |x|
    requires x[q..q + |day| + |name| + 8] == "(" + day + " " + name + " " + year + ")"
    ensures DateNoteAt(x, q)
  {
    var a := q + 1 + |day|;
    var b := a + 1;
    var c := b + |name|;
    var d := c + 1;
    SplitAt(x, q, "(" + day + " " + name + " " + year, ")");
    SplitAt(x, q, "(" + day + " " + name + " ", year);
    SplitAt(x, q, "(" + day + " " + name, " ");
    SplitAt(x, q, "(" + day + " ", name);
    SplitAt(x, q, "(" + day, " ");
    SplitAt(x, q, "(", day);
    DatePieces(x, q, a, b, c, d, day, name, year);
  }

  lemma DatePieces(x: string, q: nat, a: nat, b: nat, c: nat, d: nat, day: string, name: string, year: string)
    requires 1 <= |day| <= 2 && AllDigits(day)
    requires |name| > 0 && forall k | 0 <= k < |name| :: IsAsciiLetter(name[k])
    requires |year| == 4 && AllDigits(year)
    requires a == q + 1 + |day| && b == a + 1 && c == b + |name| && d == c + 1 && d + 5 <= |x|
    requires x[q..q + 1] == "(" && x[q + 1..a] == day && x[a..b] == " " && x[b..c] == name
    requires x[c..d] == " " && x[d..d + 4] == year && x[d + 4..d + 5] == ")"
    ensures DateNoteAt(x, q)
  {
    assert x[q] == x[q..q + 1][0];
    forall k | q + 1 <= k < a ensures IsDigit(x[k]) { assert x[k] == day[k - q - 1]; }
    assert x[a] == x[a..b][0];
    forall k | b <= k < c ensures IsWordChar(x[k]) { assert x[k] == name[k - b]; }
    assert x[c] == x[c..d][0];
    assert x[d] == year[0];
    assert x[d + 4] == x[d + 4..d + 5][0];
    RunEndFrom(x, q + 1, a, IsDigit);
    RunEndFrom(x, a, b, IsSpace);
    RunEndFrom(x, b, c, IsWordChar);
    RunEndFrom(x, c, d, IsSpace);
  }

  lemma {:induction false} ClosesAt(x: string, m: nat, n: nat)
    requires m <= n < |x| && x[n] == ')'
    requires forall k | m <= k < n :: !IsLineTerminator(x[k])
    ensures ClosesOnLine(x, m)
    decreases n - m
  {
    if m < n {
      ClosesAt(x, m + 1, n);
    }
  }

  /** "US", a space, a word, and no parenthesis or line break. */
  predicate InfoShaped(info: string) {
    && |info| > 3 && info[..3] == "US " && IsAsciiLetter(info[3])
    && forall k | 0 <= k < |info| :: info[k] != ')' && !IsLineTerminator(info[k])
  }

  /** "US ", then letters and spaces only. */
  lemma PlainInfoShaped(info: string)
    requires |info| > 3 && info[0] == 'U' && info[1] == 'S' && info[2] == ' ' && IsAsciiLetter(info[3])
    requires forall k | 3 <= k < |info| :: IsAsciiLetter(info[k]) || info[k] == ' '
    ensures InfoShaped(info)
  {
    assert info[..3] == "US ";
  }

  /** Every description in brandInfo has that shape. */
  lemma BrandInfoShape(key: string)
    requires key in BrandInfo
    ensures InfoShaped(BrandInfo[key])
  {
    PlainInfoShaped(BrandInfo[key]);
  }

  /** `(` brandInfo entry `)` is what the brand guard recognises. */
  lemma SeesBrand(x: string, q: nat, key: string)
    requires key in BrandInfo
    requires q + |BrandInfo[key]| + 2 <= |x|
    requires x[q..q + |BrandInfo[key]| + 2] == "(" + BrandInfo[key] + ")"
    ensures BrandNoteAt(x, q)
  {
    var info := BrandInfo[key];
    BrandInfoShape(key);
    SplitAt(x, q, "(" + info, ")");
    SplitAt(x, q, "(", info);
    BrandPieces(x, q, info);
  }

  lemma BrandPieces(x: string, q: nat, info: string)
    requires InfoShaped(info) && q + |info| + 2 <= |x|
    requires x[q..q + 1] == "(" && x[q + 1..q + |info| + 1] == info
    requires x[q + |info| + 1..q + |info| + 2] == ")"
    ensures BrandNoteAt(x, q)
  {
    assert x[q..q + 3] == "(US" by {
      assert x[q..q + 3] == x[q..q + 1] + x[q + 1..q + |info| + 1][..2];
      assert info[..3][..2] == "US";
    }
    assert x[q + 3] == info[2] == info[..3][2] == ' ';
    assert x[q + 4] == info[3];
    RunEndFrom(x, q + 3, q + 4, IsSpace);
    forall k | q + 5 <= k < q + |info| + 1
      ensures !IsLineTerminator(x[k])
    {
      assert x[k] == info[k - q - 1];
    }
    assert x[q + |info| + 1] == x[q + |info| + 1..q + |info| + 2][0];
    ClosesAt(x, q + 5, q + |info| + 1);
  }

  /** A recognised annotation anywhere makes the text count as already processed. */
  lemma GuardSomewhere(x: string, q: nat)
    requires q < |x| && GuardAt(x, q)
    ensures AlreadyProcessed(x)
  {
  }
}
