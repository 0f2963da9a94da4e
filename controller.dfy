/** The decision and recording logic of the controller's handlers, with the
    page taken out: what an element holds, and whether it exists, arrive as
    parameters; the messages shown to the learner are left out. */
module Controller {
  import opened Wrappers
  import opened JsText
  import opened Fractions
  import opened Shapes
  import opened Game
  import opened Progress

  // ---------------------------------------------------------------- applyFraction

  /** What `applyFraction` does with the value of the fraction input. */
  datatype ApplyOutcome =
    | InputMissing            // no input element: nothing happens
    | EmptyInput              // trimmed value is empty
    | InvalidFormat           // not digits/digits
    | ColoringFailed          // colorShape refused (no shape, or not a proper fraction)
    | Colored(exerciseKey: string)  // painted; this key is recorded as completed

  /** The guards of `applyFraction`, in the script's order: empty input, then
      format, then the `colorShape` guard. `inputValue` is `None` when the
      input element does not exist. */
  function ApplyFractionOutcome(inputValue: Option<string>, shapeId: string, shapeFound: bool, fillFound: bool): ApplyOutcome {
    match inputValue
    case None => InputMissing
    case Some(value) =>
      var fraction := Trim(value);
      if fraction == [] then EmptyInput
      else if !IsValidFormat(fraction) then InvalidFormat
      else if !ColorShape(shapeFound, fillFound, fraction) then ColoringFailed
      else Colored(shapeId + "-" + fraction)
  }

  /** A shape is painted, and `"<shapeId>-<fraction>"` recorded, exactly when
      the trimmed input is in the accepted format, the shape and its fill
      exist, and the fraction is proper. Empty input and a bad format are
      reported before the shape is looked at. */
  lemma ApplyFractionAccepts(inputValue: Option<string>, shapeId: string, shapeFound: bool, fillFound: bool)
    ensures var outcome := ApplyFractionOutcome(inputValue, shapeId, shapeFound, fillFound);
      && (outcome.Colored? <==>
            inputValue.Some? && IsValidFormat(Trim(inputValue.value))
            && shapeFound && fillFound && IsProperFraction(Trim(inputValue.value)))
      && (outcome.Colored? ==> outcome.exerciseKey == shapeId + "-" + Trim(inputValue.value))
      && (inputValue.Some? && AllSpace(inputValue.value) ==> outcome == EmptyInput)
      && (inputValue.Some? && !AllSpace(inputValue.value) && !IsValidFormat(Trim(inputValue.value)) ==> outcome == InvalidFormat)
  {
    if inputValue.Some? && IsValidFormat(Trim(inputValue.value)) {
      ColorShapeValidFormat(shapeFound, fillFound, Trim(inputValue.value));
    }
  }

  /** The outcome once the trimmed input is known to be a non-empty text in
      the accepted format: only the colouring guard is left to decide. */
  lemma ApplyFractionFormatted(value: string, fraction: string, shapeId: string, shapeFound: bool, fillFound: bool)
    requires Trim(value) == fraction && IsValidFormat(fraction)
    ensures ApplyFractionOutcome(Some(value), shapeId, shapeFound, fillFound) ==
      if ColorShape(shapeFound, fillFound, fraction) then Colored(shapeId + "-" + fraction) else ColoringFailed
  {
  }

  lemma ProperExamples()
    ensures IsValidFormat("3/2") && !ColorShape(true, true, "3/2")
    ensures IsValidFormat("1/0") && !ColorShape(true, true, "1/0")
    ensures IsValidFormat("1/2") && ColorShape(true, true, "1/2")
  {
    FormatFractionRoundTrip(3, 2);
    FormatFractionRoundTrip(1, 0);
    FormatFractionRoundTrip(1, 2);
    assert FormatFraction(3, 2) == "3/2" && FormatFraction(1, 0) == "1/0" && FormatFraction(1, 2) == "1/2";
  }

  /** "3/2" (more than the whole shape) passes the format check and is
      refused by the colouring guard. */
  lemma ApplyFractionRejectsImproper(shapeId: string)
    ensures ApplyFractionOutcome(Some("3/2"), shapeId, true, true) == ColoringFailed
  {
    ProperExamples();
    TrimPadded("", "3/2", "");
    ApplyFractionFormatted("3/2", "3/2", shapeId, true, true);
  }

  /** So does every "<n>/0": a zero denominator never colours a shape. */
  lemma ApplyFractionRejectsZeroDenominator(n: nat, shapeId: string)
    ensures ApplyFractionOutcome(Some(FormatFraction(n, 0)), shapeId, true, true) == ColoringFailed
  {
    var fraction := FormatFraction(n, 0);
    FormatFractionRoundTrip(n, 0);
    var num := NatToString(n);
    assert fraction[0] == num[0] && fraction[|fraction| - 1] == '0';
    TrimPadded("", fraction, "");
    assert "" + fraction + "" == fraction;
    ColorShapeValidFormat(true, true, fraction);
  }

  /** White space around the entry changes nothing: the input is trimmed
      before it is checked and before it becomes part of the key. */
  lemma ApplyFractionIgnoresPadding(before: string, fraction: string, after: string, shapeId: string, shapeFound: bool, fillFound: bool)
    requires AllSpace(before) && AllSpace(after)
    requires fraction != [] ==> !IsSpace(fraction[0]) && !IsSpace(fraction[|fraction| - 1])
    ensures ApplyFractionOutcome(Some(before + fraction + after), shapeId, shapeFound, fillFound)
         == ApplyFractionOutcome(Some(fraction), shapeId, shapeFound, fillFound)
  {
    TrimPadded(before, fraction, after);
    TrimPadded([], fraction, []);
    assert [] + fraction + [] == fraction;
  }

  lemma ApplyFractionEmptyExample(shapeId: string)
    ensures ApplyFractionOutcome(Some("  "), shapeId, true, true) == EmptyInput
  {
    assert AllSpace("  ");
  }

  lemma ApplyFractionNoShapeExample(shapeId: string)
    ensures ApplyFractionOutcome(Some("1/2"), shapeId, false, true) == ColoringFailed
  {
    ProperExamples();
    TrimPadded("", "1/2", "");
    ApplyFractionFormatted("1/2", "1/2", shapeId, false, true);
  }

  /** `applyFraction(inputId, shapeId)`: check the input, paint the shape, and
      on success set `"<shapeId>-<fraction>"` to `true` in
      `completedExercises`. Any failure leaves the record as it was. */
  method ApplyFraction(progress: UserProgress, inputValue: Option<string>, shapeId: string, shapeFound: bool, fillFound: bool)
    returns (outcome: ApplyOutcome)
    modifies progress
    ensures outcome == ApplyFractionOutcome(inputValue, shapeId, shapeFound, fillFound)
    ensures progress.completedExercises ==
      if outcome.Colored? then old(progress.completedExercises)[outcome.exerciseKey := Flag(true)]
      else old(progress.completedExercises)
    ensures progress.path == old(progress.path) && progress.assessments == old(progress.assessments)
    ensures progress.scores == old(progress.scores)
  {
    if inputValue.None? {
      return InputMissing;
    }
    var fraction := Trim(inputValue.value);
    if fraction == [] {
      return EmptyInput;
    }
    if !IsValidFormat(fraction) {
      return InvalidFormat;
    }
    var success := ColorShape(shapeFound, fillFound, fraction);
    if success {
      var exerciseKey := shapeId + "-" + fraction;
      progress.RecordExercise(exerciseKey, Flag(true));
      outcome := Colored(exerciseKey);
    } else {
      outcome := ColoringFailed;
    }
  }

  // ---------------------------------------------------------------- checkGameFraction

  /** The key under which `checkGameFraction` stores the entered text. */
  const GameFractionKey: string := "game-fraction"

  /** The acceptance rule of `checkGameFraction`: the entered text must be,
      character for character, the game's fraction or its simplified form. */
  predicate GameAnswerCorrect(entered: string, front: nat, total: nat)
  {
    FormatFractionRoundTrip(front, total);
    entered == FormatFraction(front, total) || entered == Simplify(FormatFraction(front, total))
  }

  /** The rule is stated over the game's own two renderings. */
  lemma GameAnswerMatchesGame(game: PeopleGame, entered: string)
    requires game.Valid()
    ensures GameAnswerCorrect(entered, game.frontPeople, game.totalPeople)
        <==> entered == game.CalculateFraction() || entered == game.SimplifyFraction()
  {
  }

  /** An accepted answer is a well-formed fraction with the game's value. */
  lemma GameAnswerSound(entered: string, front: nat, total: nat)
    requires total > 0 && GameAnswerCorrect(entered, front, total)
    ensures IsValidFormat(entered)
    ensures var pq := NumberPair(entered);
      pq.Some? && pq.value.0 * total == pq.value.1 * front
  {
    FormatFractionRoundTrip(front, total);
    SimplifyLowestTerms(FormatFraction(front, total), front, total);
  }

  /** Value equality is not enough: at 4 of 8, "4/8" and "1/2" are accepted
      but "2/4", of the same value, is not. */
  lemma GameAnswerExamples()
    ensures GameAnswerCorrect("4/8", 4, 8)
    ensures GameAnswerCorrect("1/2", 4, 8)
    ensures !GameAnswerCorrect("2/4", 4, 8)
    ensures Compare("2/4", "4/8") == Some('=')
  {
    FormatFractionRoundTrip(4, 8);
    assert FormatFraction(4, 8) == "4/8";
    assert Gcd(4, 8) == 4;
    DivExactByFour();
    assert Simplify("4/8") == FormatFraction(1, 2);
    assert FormatFraction(1, 2) == "1/2";
    CompareValues(2, 4, 4, 8);
    assert FormatFraction(2, 4) == "2/4";
  }

  lemma DivExactByFour()
    ensures Divides(4, 4) && Divides(4, 8) && DivExact(4, 4) == 1 && DivExact(8, 4) == 2
  {
  }

  /** `checkGameFraction()`: compare the trimmed entry with the game's
      fraction and its simplified form, and store the entered text under
      "game-fraction" whether right or wrong. Without the input element
      nothing happens (`None`). */
  method CheckGameFraction(progress: UserProgress, game: PeopleGame, inputValue: Option<string>)
    returns (correct: Option<bool>)
    requires game.Valid()
    modifies progress
    ensures inputValue.None? ==> correct.None? && progress.completedExercises == old(progress.completedExercises)
    ensures inputValue.Some? ==>
      && correct == Some(GameAnswerCorrect(Trim(inputValue.value), game.frontPeople, game.totalPeople))
      && progress.completedExercises == old(progress.completedExercises)[GameFractionKey := Answer(Trim(inputValue.value))]
    ensures progress.path == old(progress.path) && progress.assessments == old(progress.assessments)
    ensures progress.scores == old(progress.scores)
  {
    if inputValue.None? {
      return None;
    }
    var enteredFraction := Trim(inputValue.value);
    var correctFraction := game.CalculateFraction();
    var simplifiedFraction := game.SimplifyFraction();
    var isCorrect := enteredFraction == correctFraction || enteredFraction == simplifiedFraction;
    progress.RecordExercise(GameFractionKey, Answer(enteredFraction));
    correct := Some(isCorrect);
  }

  /** `initPeopleGame()`: the game starts with 4 people in front. */
  method InitPeopleGame(game: PeopleGame)
    modifies game
    ensures game.frontPeople == 4 && game.Valid()
  {
    game.frontPeople := 4;
  }

  /** The clamping examples of the game, from the round's starting count of 4
      of 8: -10 gives 0 and a further -1 stays at 0; +10 gives 8 and a further
      +1 stays at 8. */
  method PeopleGameScenario() returns (afterDrop: int, belowZero: int, afterRise: int, aboveTotal: int)
    ensures afterDrop == 0 && belowZero == 0
    ensures afterRise == 8 && aboveTotal == 8
  {
    var game := new PeopleGame();
    InitPeopleGame(game);
    afterDrop := game.UpdatePeople(-10);
    belowZero := game.UpdatePeople(-1);
    InitPeopleGame(game);
    afterRise := game.UpdatePeople(10);
    aboveTotal := game.UpdatePeople(1);
  }

  // ---------------------------------------------------------------- connectFraction

  /** What the page holds for a shape: its `data-expected` attribute (`None`
      when absent) and whether it has a fill element. */
  datatype ShapeElement = ShapeElement(expected: Option<string>, hasFill: bool)

  /** The key under which `connectFraction` records a match for a shape. */
  function MatchKey(shapeId: string): string {
    "match-" + shapeId
  }

  /** `connectFraction(fraction, shapeId)`: paint the shape with the fraction
      (its success is not looked at), decide correctness by exact text
      equality with the expected fraction, and record that boolean under
      `"match-<shapeId>"`. Without the shape nothing happens (`None`). */
  method ConnectFraction(progress: UserProgress, fraction: string, shapeId: string, shape: Option<ShapeElement>)
    returns (isCorrect: Option<bool>)
    modifies progress
    ensures shape.None? ==> isCorrect.None? && progress.completedExercises == old(progress.completedExercises)
    ensures shape.Some? ==>
      && isCorrect == Some(shape.value.expected == Some(fraction))
      && progress.completedExercises == old(progress.completedExercises)[MatchKey(shapeId) := Flag(isCorrect.value)]
    ensures progress.path == old(progress.path) && progress.assessments == old(progress.assessments)
    ensures progress.scores == old(progress.scores)
  {
    if shape.None? {
      return None;
    }
    var expectedFraction := shape.value.expected;
    var correct := expectedFraction == Some(fraction);
    var _ := ColorShape(true, shape.value.hasFill, fraction);
    progress.RecordExercise(MatchKey(shapeId), Flag(correct));
    isCorrect := Some(correct);
  }

  // ---------------------------------------------------------------- updateAssessment

  /** `updateAssessment(assessmentId, isChecked)`: one assessment entry set. */
  method UpdateAssessment(progress: UserProgress, assessmentId: string, isChecked: bool)
    modifies progress
    ensures progress.assessments == old(progress.assessments)[assessmentId := isChecked]
    ensures progress.path == old(progress.path) && progress.completedExercises == old(progress.completedExercises)
    ensures progress.scores == old(progress.scores)
  {
    progress.RecordAssessment(assessmentId, isChecked);
  }
}
