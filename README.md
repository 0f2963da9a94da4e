# Fraction worksheet: a Dafny model of its logic

The worksheet is a single page script (`script.js`) in model/view/controller
style. Learners colour shapes with fractions, compare fractions, play a
counting game ("how many of the 8 people stand in front of the class?"), and
their answers are kept in a progress record. This project models the parts of
that script that decide something, and proves what they promise:

- **Fraction utility** (`model.fractions`), module `Fractions` in
  `fractions.dfy`. It covers Euclid's `gcd`, `simplify`, the format check
  `^\d+\/\d+$`, `toDecimal` and `compare`. Fractions stay text, as in the
  script: each operation splits on `/` and parses the pieces again.
- **JavaScript built-ins** those operations rely on, module `JsText` in
  `js_text.dfy`. It covers `split` on one character, `parseInt` on decimal
  digits, `trim`, and how a template literal renders a whole number.
- **The colouring guard** of `model.shapes.colorShape`, module `Shapes` in
  `shapes.dfy`. Whether the shape and its fill element exist comes in as two
  flags.
- **The counting game** (`model.game`), module `Game` in `game.dfy`. It is a
  class with the constant `totalPeople = 8` and the field `frontPeople`.
  `UpdatePeople` changes that field and clamps it, step by step as the script
  does.
- **The progress record** (`model.userProgress`) and `resetProgress`, module
  `Progress` in `progress.dfy`. It is a class whose map fields are updated in
  place.
- **The controller handlers** `applyFraction`, `checkGameFraction`,
  `connectFraction`, `updateAssessment` and `initPeopleGame`, module
  `Controller` in `controller.dfy`. Whatever the script reads from the page
  arrives as a parameter: an input's value is `None` when the element is
  missing, and a shape is `None` when absent. Each handler's decision is a
  function. The handler itself is a method that records into the progress
  record.

Some behaviour is modelled exactly as the code does it, even where it
surprises:

- `compare` answers `'='` when one side is NaN (e.g. `"x/2"`), because both
  of its `>` and `<` tests are false.
- The `colorShape` guard lets a NaN piece through for the same reason.
  `Shapes.ColorShapeAdmitsNaN` shows this.
- `simplify("0/0")` gives `"NaN/NaN"`.
- With a NaN numerator over a zero denominator (`"x/0"`), `gcd` returns NaN at
  once and `simplify` gives `"NaN/NaN"`. With a NaN denominator, or a NaN
  numerator over a non-zero denominator, `gcd` recurses until the call stack
  overflows and `simplify` throws a RangeError. `Fractions.Simplify`
  therefore requires `SimplifyTerminates`, which excludes exactly that case.
- `checkGameFraction` compares texts, not values. At 4 of 8, `"2/4"` is
  rejected although it equals `"4/8"` in value.

A learner might expect any fraction of the right value to count in the
game. The model follows the code instead (`script.js:461`): at 4 of 8,
`"2/4"` is rejected, since it is neither `"4/8"` nor `"1/2"`
(`Controller.GameAnswerExamples`). In `applyFraction`, a missing
shape and an improper fraction end in the same failure, because both make
`colorShape` return false (`ColoringFailed`).

## Model

| member | source | states |
|---|---|---|
| `JsText.ParseInt` | script.js:21-22 | `parseInt` yields NaN (`None`) exactly when the text does not start with a digit; on an all-digit text it yields the decimal value of the digits |
| `JsText.NatToString` | script.js:42 | `${n}` renders a whole number as non-empty digits without a leading zero whose decimal value is `n` |
| `JsText.NatToStringCanonical` | script.js:42 | a digit string without leading zeros is the rendering of its own value, so each number has exactly one spelling |
| `JsText.Split` | script.js:18 | `split('/')` gives at least one piece, no piece contains the separator, and joining the pieces with it gives the input back |
| `JsText.SplitJoin` | script.js:18 | splitting a join of separator-free pieces gives back exactly those pieces (the other half of the round trip) |
| `JsText.Trim` | script.js:376 | `trim()` is empty exactly for all-blank text; otherwise it starts and ends with a non-blank character and is the input minus a blank prefix and a blank suffix |
| `JsText.TrimPadded` | script.js:454 | trimming blank padding around a text with no blank ends gives that text back, whatever the padding |
| `Fractions.SplitFraction` | script.js:18-22 | the pieces are parsed exactly when `split('/')` gives two pieces |
| `Fractions.FormatFractionRoundTrip` | script.js:42 | `"${n}/${d}"` splits into the two renderings, parses back to `(n, d)`, passes the format check, and neither piece has a leading zero |
| `Fractions.ValidFormatPieces` | script.js:52-56 | `^\d+\/\d+$` holds if and only if `split('/')` gives exactly two non-empty all-digit pieces |
| `Fractions.CanonicalFractionUnique` | script.js:42 | a well-formed text whose pieces have no leading zero is the rendering `"${n}/${d}"` of the numbers it parses to, so the format, the value and the spelling together fix the text that `checkGameFraction` compares |
| `Fractions.ValidFormatNumbers` | script.js:52-56 | a text that passes the format check always parses to two numbers |
| `Fractions.IsValidFormatExamples` | script.js:52-56 | `"1/2"` and `"10/25"` are accepted; `""`, `"1/"`, `"/2"`, `"1.5/2"`, `" 1/2 "` and `"1/2/3"` are rejected |
| `Fractions.Gcd` | script.js:46-49 | Euclid's recursion gives 0 only when both arguments are 0 |
| `Fractions.GcdIsGcd` | script.js:46-49 | the result of `gcd` divides both arguments; every common divisor divides it, and is no larger when the arguments are not both 0 |
| `Fractions.LowestTerms` | script.js:36-40 | dividing both terms by their gcd is exact, keeps the value (`p*d == q*n`) and leaves terms whose gcd is 1 |
| `Fractions.Simplify` | script.js:29-43 | text that does not split into two pieces comes back unchanged; otherwise the result is `"NaN/NaN"` or a text in the accepted format |
| `Fractions.SimplifyLowestTerms` | script.js:29-43 | for numbers `n/d` not both 0, `simplify` gives `p/q` in the accepted format with `p*d == q*n` and `gcd(p, q) == 1`, both pieces without a leading zero |
| `Fractions.SimplifyIdempotent` | script.js:29-43 | applying `simplify` to its own output returns the same text |
| `Fractions.SimplifyNaNOverZero` | script.js:37-42 | `simplify("x/0")` returns: `gcd` gives NaN at once and the result is `"NaN/NaN"` |
| `Fractions.ToDecimal` | script.js:17-26 | `toDecimal` is null exactly when the split does not give two pieces or the denominator parses to 0; it is a quotient exactly when both pieces are numbers and the denominator is not 0, and then it carries those numbers |
| `Fractions.ToDecimalExamples` | script.js:17-26 | `"0/1"` is the quotient 0/1; `"7/0"` and `"bad"` are null |
| `Fractions.Compare` | script.js:59-68 | `compare` is null exactly when either side's `toDecimal` is null, and otherwise one of `'>'`, `'<'`, `'='` |
| `Fractions.CompareSwap` | script.js:59-68 | swapping the arguments turns `'<'` into `'>'` and keeps `'='` |
| `Fractions.CompareValues` | script.js:59-68 | on `a/b` and `c/d` with non-zero denominators, `'='` holds exactly when `a*d == c*b`, and `'<'` exactly when `a*d < c*b` |
| `Fractions.CompareSimplified` | script.js:29-43 | a fraction with a non-zero denominator compares `'='` with its simplified form |
| `Fractions.CompareExamples` | script.js:59-68 | `"1/4"` is `'<'` against `"1/2"`, `"2/4"` is `'='` against `"1/2"`, and `"abc"` against `"1/2"` is null |
| `Shapes.ColorShape` | script.js:74-105 | a success needs the shape, its fill element and two pieces, and `toDecimal` of the fraction is then not null (it is NaN when a piece is not a number); on numeric pieces it succeeds exactly for proper fractions (`0 < d`, `n <= d`) |
| `Shapes.ColorShapeValidFormat` | script.js:82-88 | on a text in the accepted format the guard passes exactly when the shapes exist and the fraction is proper, i.e. its value is not above `1/1` |
| `Shapes.ColorShapeAdmitsNaN` | script.js:82-88 | `"x/y"` and `"3/y"` pass the guard, since comparisons with NaN are false |
| `Game.Clamp` | script.js:129-131 | the clamped value lies in `[lo, hi]`, equals the input when already inside, and is the nearer bound otherwise |
| `Game.PeopleGame.constructor` | script.js:121-123 | the game starts with 0 of 8 people in front |
| `Game.PeopleGame.UpdatePeople` | script.js:126-134 | `frontPeople` becomes `clamp(old + change, 0, totalPeople)`, which is returned and keeps `0 <= frontPeople <= totalPeople` |
| `Game.PeopleGame.CalculateFraction` | script.js:137-139 | the game's fraction text is in the accepted format and parses back to `(frontPeople, totalPeople)`; neither piece has a leading zero |
| `Game.PeopleGame.SimplifyFraction` | script.js:142-144 | the simplified game fraction is in the accepted format, has the value `frontPeople/totalPeople`, and its terms have gcd 1; neither piece has a leading zero |
| `Controller.PeopleGameScenario` | script.js:126-134 | from the round's starting 4 of 8, a change of -10 gives 0 and a further -1 stays at 0; +10 gives 8 and a further +1 stays at 8 |
| `Progress.UserProgress.constructor` | script.js:4-9 | a new record has path `"c"` and empty exercise, assessment and score maps |
| `Progress.UserProgress.RecordExercise` | script.js:397 | one key of `completedExercises` is set; every other entry and field is unchanged |
| `Progress.UserProgress.RecordAssessment` | script.js:515 | one key of `assessments` is set; every other entry and field is unchanged |
| `Progress.UserProgress.Reset` | script.js:165-171 | `resetProgress` restores path `"c"` and empty maps, whatever the record held |
| `Controller.ApplyFractionAccepts` | script.js:379-401 | the shape is painted and `"<shapeId>-<fraction>"` is recorded exactly when the trimmed input is well formed, the shape and fill exist and the fraction is proper; blank input is reported as empty, and then a bad format as invalid, before the shape is looked at |
| `Controller.ApplyFractionFormatted` | script.js:389-401 | once the trimmed input is well formed, only the `colorShape` guard decides between success and failure |
| `Controller.ProperExamples` | script.js:82-88 | `"3/2"` and `"1/0"` are well formed and refused by the colouring guard; `"1/2"` is well formed and passes |
| `Controller.ApplyFractionRejectsImproper` | script.js:88 | `"3/2"` (above one whole) is well formed but is refused by the colouring guard |
| `Controller.ApplyFractionRejectsZeroDenominator` | script.js:88 | every `"<n>/0"` is well formed but is refused by the colouring guard, so a zero denominator never colours a shape |
| `Controller.ApplyFractionIgnoresPadding` | script.js:376 | blank padding around the entry changes neither the decision nor the recorded key |
| `Controller.ApplyFractionEmptyExample` | script.js:379-382 | an all-blank entry is reported as empty |
| `Controller.ApplyFractionNoShapeExample` | script.js:74-76 | a well-formed proper fraction still fails when the shape is missing |
| `Controller.ApplyFraction` | script.js:372-402 | the handler takes the decision above; only on success does it set the key to `true`, and any failure leaves the whole record as it was |
| `Controller.GameAnswerSound` | script.js:461 | an accepted game answer is a well-formed fraction with the game's value |
| `Controller.GameAnswerExamples` | script.js:461 | at 4 of 8, `"4/8"` and `"1/2"` are accepted; `"2/4"` is rejected although it compares `'='` with `"4/8"` |
| `Controller.GameAnswerMatchesGame` | script.js:455-461 | the acceptance rule holds exactly when the entry equals `calculateFraction()` or `simplifyFraction()` of the game |
| `Controller.CheckGameFraction` | script.js:450-473 | the verdict is string equality of the trimmed entry with the game fraction or its simplified form; the entered text is stored under `"game-fraction"` whatever the verdict, and nothing else changes |
| `Controller.InitPeopleGame` | script.js:366-369 | the game starts its round at 4 people in front, within bounds |
| `Controller.ConnectFraction` | script.js:488-511 | correctness is exact text equality with the shape's expected fraction, recorded as a boolean under `"match-<shapeId>"`; a missing shape changes nothing |
| `Controller.UpdateAssessment` | script.js:514-519 | one assessment entry is set to the checkbox state; nothing else changes |

## Left out

- Fractions.Simplify: requires `SimplifyTerminates`, which drops the RangeError path (a NaN denominator, or a NaN numerator over a non-zero denominator). Its only caller, `simplifyFraction` (script.js:143), passes the game's own digits, so that path is never reached there.
- JsText.ParseInt: does not model the leading white space, the `+`/`-` sign or the `0x` hexadecimal prefix that `parseInt` also accepts. The texts `applyFraction` and `checkGameFraction` parse passed the format check or were built by the game, so none of these can occur there. `connectFraction` hands its caller's text to `colorShape` unchecked, where a signed piece such as `"3/-1"` is refused by JavaScript but admitted as NaN by the model; `connectFraction` ignores `colorShape`'s result, so nothing it records depends on the difference. `toDecimal` and `compare` have no caller in the script and are modelled over all text, so there the difference shows: JavaScript gives `compare("-1/2", "1/2")` as `'<'` where the model gives `'='` through NaN, and `toDecimal("1/-0")` is null in JavaScript but NaN in the model.
- Large numbers: JavaScript numbers are doubles. Integers above 2^53 lose precision, and `${n}` switches to exponent notation from 10^21. The model uses unbounded naturals.
- Fractions.ToDecimal: keeps the quotient as an exact ratio instead of an IEEE double. Fractions.Compare therefore compares exactly, where doubles might round two very close values to the same number.
- The fill percentage and the gradient strings of `colorShape`, and the circle/rectangle distinction. They are presentation, and they are floating point.
- `saveProgress`, `loadProgress` and the removal of the stored copy in `resetProgress`. They are browser-storage I/O with JSON serialisation.
- Progress.UserProgress.Reset: resets the fields of the one record object, while the script builds a new object. Nothing keeps a reference to the old record, so the two cannot be told apart.
- Game.PeopleGame.UpdatePeople: takes an integer `change`, while JavaScript numbers may be fractional. Its only callers pass +1 and -1.
- `addPerson` and `removePerson` are left out. They are `UpdatePeople(1)` and `UpdatePeople(-1)` followed by a redraw.
- The view's `showResult` and its five-second timer, `updatePeopleDisplay`, `markSelectedShape` and `updateMatchStatus` are left out. They are DOM rendering only.
- Handlers outside the modelled core are left out, although several write to the progress record. The model keeps to the fraction utility, the game, the colouring guard, the progress record with `resetProgress`, and the five handlers listed at the top.
  - `showWorksheet` (script.js:208) sets `path` from the worksheet id without its `path-` prefix.
  - `transferToPath` (script.js:522-531) sets `path` to `a` or `b` after a `confirm`.
  - `selectMostColoredShape` (script.js:418) sets `completedExercises["most-colored-<shapeId>"]` to `true`.
  - `checkComparison` (script.js:445) stores the chosen option under `completedExercises["comparison-c"]`.
  - `init` (script.js:315-333) loads the whole record from storage through `loadProgress`, starts the game with `initPeopleGame` (modelled), and shows the stored path through `showWorksheet`, which writes `path` back.
  - `resetAll` calls `resetProgress` (modelled) after a `confirm` and reloads the page.
  - The controller's `saveProgress` wrapper, `clearShape` and the live border colouring in `setupFractionInputs` touch only storage or the page.
- `console.log` calls and every user-facing message are left out.
