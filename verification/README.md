# Un-American-iser content script in Dafny

This project models the content script of the Un-American-iser browser
extension (`content.js`). The script finds American units, dates and brand
names in the text of a web page and appends an international equivalent in
parentheses, as in `75°F (24°C)`. It has two parts, and the model follows
both.

* **The text engine** is pure string rewriting. `processText` first asks
  `isAlreadyProcessed` whether the text already holds an annotation. If it
  does not, up to six rules run one after another: temperature, distance,
  speed, weight, dates and brands. Each rule is a global `replace` whose
  callback returns `match + " (" + value + ")"`.
  * The values come from the `conversions` helpers, `formatDate` and the
    `brandInfo` table.
  * The regular expressions are modelled by greedy scanners. `\d`, `\w` and
    `\b` are ASCII only, the `i` flag folds ASCII only, and `\s` is
    ECMAScript white space plus line terminators.
  * Numbers are exact decimals (`Decimal(num, scale)`) read from the
    captured digits, and `Math.round` is `floor(x + 1/2)`.
* **The traversal** is an object that changes the page.
  * `UnAmericaniser` is a class. Its fields are the text of every node and
    the set of elements carrying `data-unamericanised`.
  * Its methods are `processTextNode`, the tree walker's collecting loop,
    `processElement`, `processPage` and the mutation observer's callback.
  * Each method is proved equal to a step function on the page state
    (module `Dom`). Lemmas about those functions state what a run of steps
    may change.

Modules, in dependency order:

* `Opt` and `Chars`: character classes, `\b`, and number-to-string.
* `Conversions`: `conversions`, `formatDate` and `Math.round`.
* `Patterns`: the six patterns, `brandInfo` and the callbacks' values.
* `PatternSpec`: what each pattern accepts, with every choice of the
  backtracking matcher left open, and the proof that the scanners find
  exactly those matches.
* `Guard`: `isAlreadyProcessed`.
* `Replace`: a global replace with a callback, independent of the pattern.
* `Engine`: `processText`.
* `ReAnnotation`: the input the guard does not protect.
* `Dom`: the tree and the step functions.
* `ContentScript`: the `UnAmericaniser` class.
* `Worked`: `processText` on whole inputs, end to end.

Notes on the code's behaviour, which the model follows as written:

* `Math.round` rounds halves towards +infinity, not away from zero.
* The tree walker's filter tests only a text node's direct parent element.
  It does not stop at excluded containers further up.
* The `INPUT`-type test in `shouldProcessElement` can never decide anything,
  because `INPUT` is already excluded by tag.
* The mutation callback hands an added text node to `processTextNode` after
  checking only its parent's mark. It never calls `shouldProcessElement`, so
  text added inside `SCRIPT`, `STYLE`, `TEXTAREA` or an editable element is
  rewritten even though the tree walker would skip it.
* `processPage` marks `body` before it walks it. The filter therefore
  rejects every text node whose parent is `body`, so that text is never
  annotated.
* The guard `\(\d+(?:\.\d+)?\s*°C\)` has no place for a minus sign. A text
  whose only annotation is a negative temperature is therefore annotated
  again by a second `processText`: `"0F"` becomes `"0F (-18°C)"` and then
  `"0F (-18°C) (-18°C)"`. The exact condition is proved: the output of
  `processText` is a fixed point of `processText` unless the temperature
  rule is the only rule that changed the text, every value it wrote is
  below zero, and the output holds no other shape the guard recognises.
  In that case a second run makes the text longer.

## Model

| member | source | states |
|---|---|---|
| Chars.LowerString | content.js:180 | toLowerCase keeps the length and lower-cases each character |
| Chars.NatToString | content.js:141 | a non-negative number is written as at least one digit, with no leading zero |
| Chars.IntToString | content.js:141 | a minus sign exactly when the number is negative, then the shortest digits (at least one, no leading zero) that read back as its magnitude |
| Chars.NatToStringRoundTrip | content.js:140-141 | reading back the digits that are written gives the same number |
| Chars.NatToStringInjective | content.js:141 | distinct numbers are written differently |
| Conversions.RoundHalfUp | content.js:38 | Math.round(p / q) is the integer r with q(2r-1) <= 2p < q(2r+1), so halves round up |
| Conversions.RoundHalfUpUnique | content.js:38 | only one integer meets those bounds |
| Conversions.FahrenheitToCelsius | content.js:38 | the result is the integer nearest (f - 32) * 5 / 9, a half rounding up |
| Conversions.MilesToKm | content.js:41 | the result in hundredths of a km is the integer nearest miles * 160.934 |
| Conversions.LbsToKg | content.js:44 | the result in hundredths of a kg is the integer nearest lbs * 45.3592 |
| Conversions.MphToKmh | content.js:47 | the result is the integer nearest mph * 1.60934, never negative |
| Conversions.HundredthsRoundTrip | content.js:41 | writing h / 100 gives a number token that parses back as exactly h / 100 |
| Conversions.HundredthsShortest | content.js:41 | h / 100 is written with a point exactly when it is not whole, and then without a trailing zero |
| Conversions.ParseNumberValue | content.js:139-140 | parseFloat of a captured "digits" or "digits.digits" is the exact decimal those digits spell |
| Conversions.MonthNameIsWord | content.js:55 | every month name, and "undefined", is a non-empty run of letters |
| Conversions.FormatDateWord | content.js:50-56 | formatDate writes the day, a space, a word, a space and the year; the word is the month named by parseInt(month) for 1..12, and "undefined" exactly when that is 0 or above 12 |
| Conversions.FormatDateExample | content.js:50-56 | months "7" and "07" give "4 July 1976"; months "13", "0" and "00" give "4 undefined 1976" |
| Conversions.ConversionExamples | content.js:38-47 | 98.6F is 37°C, 32F is 0°C, 0F is -18°C, 26.2 miles is 42.16 km, 150 lbs is 68.04 kg, 60 mph is 97 km/h |
| Patterns.NumberEnd | content.js:63 | the captured number, when present, is a non-empty digits-with-optional-fraction token inside the text |
| Patterns.DateCaptures | content.js:67 | the three captures are digit strings of lengths 1-2, 1-2 and 4, and the match is month "/" day "/" year |
| PatternSpec.NumberEndGreedy | content.js:63 | `\d+(?:\.\d+)?` matches at i exactly when a digit is there; the scanner's end is a way the group can match, and no way ends later |
| PatternSpec.NumberEndStops | content.js:63 | a number spelling followed by neither a digit nor a point is exactly where the scanner ends |
| PatternSpec.DegreesEndExact | content.js:63 | the degree scanner ends at e exactly when `\s*°?F\b` can spell the text up to e |
| PatternSpec.UnitEndExact | content.js:64-66 | the unit scanner ends at e exactly when `\s*miles?\b`, `\s*mph\b` or `\s*lbs?\b` can spell the text up to e |
| PatternSpec.MeasureEndExact | content.js:63-66 | a measurement scanner ends at e exactly when boundary, number and suffix of the pattern can match the text from i to e |
| PatternSpec.DateAtExact | content.js:67 | the date scanner reports slashes a, b and end e exactly when the date pattern matches with those captures |
| PatternSpec.DateEndExact | content.js:67 | the date scanner ends at e exactly when the date pattern matches from i to e |
| PatternSpec.BrandsDiffer | content.js:68 | no two brand alternatives can match at the same place, so the alternation's order never matters |
| PatternSpec.BrandEndExact | content.js:68 | the brand scanner ends at e exactly when one of the ten alternatives, case-insensitively and between word boundaries, spans i to e |
| PatternSpec.MatchEndExact | content.js:63-68 | for each of the six rules, the scanner ends at e exactly when the rule's pattern matches from i to e |
| Patterns.BrandNamesHaveInfo | content.js:74-85 | every alternative of the brands pattern, lower-cased, is a key of brandInfo |
| Patterns.BrandMatchHasInfo | content.js:179-182 | every brand match finds its entry, so the unchanged-match fallback is unreachable |
| Patterns.NoteDefined | content.js:139-183 | every rule's callback adds an annotation for every match |
| Guard.SeesMeasure | content.js:115-118 | a parenthesised number, optional space and unit matches the guard pattern for that unit |
| Guard.SeesDate | content.js:119 | a parenthesised day, word and four-digit year matches the date guard |
| Guard.BrandInfoShape | content.js:74-85 | every brandInfo value is "US", a space, a word, then text without line breaks |
| Guard.SeesBrand | content.js:120 | every parenthesised brandInfo value matches the brand guard |
| Replace.Matches | content.js:139 | the global search finds match starts in order, each match ending before the next begins |
| Replace.ReplaceIsSplice | content.js:139-142 | the replace copies the text and inserts each callback result right after its match, and nothing else |
| Replace.MatchesAreLeftmost | content.js:139 | every match position is found unless it starts inside an earlier match |
| Replace.ReplaceChangesIffMatch | content.js:139-142 | when every callback adds text, the replace changes the text iff the pattern matches somewhere |
| Replace.FirstInsertionPlaced | content.js:139-142 | the text up to the first match's end is copied, and that match's insertion follows it |
| Replace.MatchIsHit | content.js:139 | every match position of the global search is inside the text and is a place where the pattern matches |
| Replace.InsertionPlaced | content.js:139-142 | every match's callback result appears in the output |
| Replace.NoteParenthesised | content.js:139-142 | every match whose callback returns " (" + v + ")" leaves "(" + v + ")" in the output |
| Replace.ReplaceLonger | content.js:139-142 | with at least one match and non-empty callback results, the output is longer than the input |
| Replace.NoMatchCopies | content.js:139 | with no match, the replace returns the text unchanged |
| Engine.HitAt | content.js:139-142 | a match found at i ends inside the text |
| Engine.Scan | content.js:139 | every match found by the scan is non-empty and ends inside the text |
| Engine.ScanInsertsText | content.js:139-183 | every match of every rule inserts a non-empty annotation |
| Engine.ProcessText | content.js:129-187 | text holding an annotation comes back unchanged; with every flag off the text is unchanged; the text never gets shorter |
| Engine.RuleChangesIffMatch | content.js:135-186 | a rule changes the text exactly when its pattern matches somewhere |
| Engine.StageGrowsIffMatch | content.js:137-184 | an enabled rule whose pattern matches makes the text longer; a disabled rule, or one that matches nowhere, leaves it as it is |
| Engine.ConvertUnchangedIff | content.js:135-186 | the six stages together leave the text unchanged exactly when no enabled rule matches |
| Engine.ConvertGrows | content.js:135-186 | when some enabled rule matches, the six stages together make the text longer |
| Engine.HitIsNote | content.js:139-142 | each match found inserts " (" + value + ")" after itself |
| Engine.MatchNoteAt | content.js:139-183 | for every match of a rule, the callback's value appears in parentheses in the rule's output |
| Engine.NoteRecognised | content.js:112-124 | the guard matches the parenthesised value of any rule, except a negative temperature |
| Engine.CelsiusRecognised | content.js:115 | "(c°C)" with c >= 0 matches the temperature guard |
| Engine.HundredthsRecognised | content.js:116-118 | "(x km)" and "(x kg)" match the distance and weight guards |
| Engine.KmhRecognised | content.js:117 | "(k km/h)" matches the speed guard |
| Engine.DateRecognised | content.js:119 | a formatted date in parentheses matches the date guard, even for the "undefined" month |
| Engine.CelsiusNoteRecognised | content.js:115 | a temperature match whose value is not negative makes the guard recognise the rule's output |
| Engine.ChangedOutputRecognised | content.js:131-133 | once a rule has changed the text, the guard recognises the output (for temperature: when some value written is not negative) |
| Engine.ProcessTextIdempotent | content.js:129-187 | processing the output again gives the same output, except when only the temperature rule changed the text and every value it wrote is negative |
| Engine.TemperatureMatchSurvives | content.js:139-142 | a temperature match followed by a space is still a match, with the same end, after text is inserted behind it |
| Engine.NegativeTemperatureReannotated | content.js:129-142 | in that excepted case, unless the output holds another guard shape, a second processText makes the text longer |
| Engine.ProcessTextFixedPointIff | content.js:129-187 | the output is a fixed point of processText exactly when the excepted case does not hold or the guard recognises the output |
| ReAnnotation.MinusEighteen | content.js:38 | 0°F converts to -18, written "-18" |
| ReAnnotation.FirstPass | content.js:129-187 | processText("0F") under the default settings is "0F (-18°C)" |
| ReAnnotation.OnceNotProcessed | content.js:112-124 | "0F (-18°C)" matches none of the six guard patterns |
| ReAnnotation.SecondPassTemperature | content.js:138-142 | the temperature rule annotates "0F (-18°C)" a second time |
| ReAnnotation.ZeroFahrenheitBelowZero | content.js:38 | "0F" has one temperature match, at 0, and its value -18 is below zero |
| ReAnnotation.ZeroFahrenheitAnnotatedTwice | content.js:115 | "0F" is the excluded case of idempotence, and a second processText changes it |
| Worked.NoParenNotProcessed | content.js:112-124 | a text without "(" is never already processed |
| Worked.FeverConverted | content.js:129-142 | processText("98.6F") under the default settings is "98.6F (37°C)" |
| Worked.IndependenceDayConverted | content.js:169-175 | processText("7/4/1976") under the default settings is "7/4/1976 (4 July 1976)" |
| Worked.NikeConverted | content.js:177-184 | processText("I love Nike") under the default settings is "I love Nike (US sportswear brand)" |
| Worked.TemperatureOffKeeps | content.js:137-143 | with the temperature flag off, "100F" comes back unchanged |
| Dom.ShouldProcessElement | content.js:90-107 | false exactly for the six excluded tags and for editable elements; the input type never matters |
| Dom.Collect | content.js:223-239 | the walker yields, in document order, exactly the text nodes whose parent is unmarked and may be processed |
| Dom.TextStepEffect | content.js:192-208 | nothing changes under a marked parent; otherwise the node's text is rewritten iff processText changes it, and then the parent is marked; no other node changes |
| Dom.TextStepProgress | content.js:192-208 | one processTextNode is a step that only rewrites a text node to processText of its text and newly marks its parent |
| Dom.ProgressTrans | content.js:241-243 | two runs of steps make one run |
| Dom.TextStepsProgress | content.js:241-243 | the forEach changes only listed nodes, at most one per parent, and leaves each listed node marked or settled |
| Dom.ElementStepProgress | content.js:213-244 | processElement changes only accepted text nodes inside the element, and nothing for an excluded element |
| Dom.ElementStepIdempotent | content.js:213-244 | a second processElement on the same element changes nothing |
| Dom.PageStepEffect | content.js:249-256 | body ends up marked; an already marked body means no change; body's own text children are never rewritten |
| Dom.PageStepIdempotent | content.js:249-253 | a second processPage changes nothing |
| Dom.AddedStepProgress | content.js:268-276 | an added node is a step; other node kinds, marked elements and text under a marked or missing parent are ignored |
| Dom.AddedTextUnderExcludedParent | content.js:272-275 | an added text node under an unmarked parent that shouldProcessElement rejects is refused by the walker's filter, yet the callback rewrites it to processText of its text and marks the parent |
| Dom.AddedStepsProgress | content.js:267-278 | a whole batch of added nodes is a run of steps |
| Dom.AddedNodes | content.js:267-268 | the batch holds exactly the nodes of the records' addedNodes |
| Dom.AddedNodesAppend | content.js:266-268 | the batch of two lists of records is the batch of the first followed by the batch of the second |
| Dom.AddedNodesInOrder | content.js:266-268 | the batch is the records before record m, then record m's nodes in their own order, then the records after it |
| Dom.AddedStepsAppend | content.js:266-279 | handling two lists of nodes in turn is handling their concatenation |
| ContentScript.UnAmericaniser.constructor | content.js:7-15 | the object starts with the given settings, tree, text and marks |
| ContentScript.UnAmericaniser.ProcessTextNode | content.js:192-208 | the new text and marks are those of one text step |
| ContentScript.UnAmericaniser.CollectTextNodes | content.js:219-239 | the while loop collects exactly the walker's accepted nodes inside the element, in order |
| ContentScript.UnAmericaniser.ProcessElement | content.js:213-244 | it collects first, then processes each collected node in order; the new state is the element step |
| ContentScript.UnAmericaniser.ProcessPage | content.js:249-256 | the new state is the page step: mark body, then process it |
| ContentScript.UnAmericaniser.OnAddedNodes | content.js:268-277 | each added node is handled in order, as the added-node step says |
| ContentScript.UnAmericaniser.OnMutations | content.js:266-279 | the records are handled one after another, as the concatenation of their added nodes |

## Left out

- Loading the settings from `chrome.storage.sync` and the page bootstrap (content.js:19-31, 289-293) are host I/O. The settings are a given record of six flags, and the default record has every flag on.
- Registering the MutationObserver and how the browser delivers batches (content.js:259, 265, 281-284). The callback is a method over a sequence of records, each a sequence of added node ids.
- `document.createTreeWalker` and the DOM API. The tree is an abstract structure with node ids in document order and a fixed parent map. `isContentEditable` is a given flag per element, because the browser computes its inheritance. Structural changes the page itself makes are not modelled; the script changes only text and marks.
- Floating point. `parseFloat`, the products in `conversions` and `Math.round` are exact rational arithmetic here. Number-to-string is plain fixed-point writing, without exponent notation. Results that depend on binary rounding error at a half are therefore not captured.
- Characters are Unicode scalar values, not UTF-16 code units. A character outside the Basic Multilingual Plane is one character here but two code units in the page, and a lone surrogate cannot be written at all. No match depends on this: the patterns name only ASCII characters, `°` and white space from the Basic Multilingual Plane, and `.*?` in the brand guard refuses only line terminators, which are single units either way. Case folding is ASCII only, as `toLowerCase` is on every string the brands pattern matches.
- The script has no handler for the settings-changed messages that the other extension scripts send, so a re-scan on a settings change is not modelled.
- background.js, options.js and popup.js are extension plumbing and user interface, and are not part of this model.
- Conversions.MilesToKm: returns the rounded value as a count of hundredths. `Conversions.Hundredths` writes it as JavaScript writes the quotient by 100; the floating-point division itself is not modelled.
- Conversions.LbsToKg: the same, for hundredths of a kilogram.
