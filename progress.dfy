/** The learner's progress record (`model.userProgress`) and
    `model.resetProgress`. Writing the record to browser storage is not part
    of this model. */
module Progress {

  /** A value kept in `completedExercises`: a boolean, or the text the learner
      entered. */
  datatype Completion = Flag(done: bool) | Answer(text: string)

  class UserProgress {
    /** The worksheet path the learner is on ("c", "b" or "a"). */
    var path: string
    var completedExercises: map<string, Completion>
    var assessments: map<string, bool>
    /** Declared and reset, but never written by any handler. */
    var scores: map<string, Completion>

    /** The record as first created and as `resetProgress` leaves it. */
    predicate IsDefault()
      reads this
    {
      path == "c" && completedExercises == map[] && assessments == map[] && scores == map[]
    }

    constructor ()
      ensures IsDefault()
    {
      path := "c";
      completedExercises := map[];
      assessments := map[];
      scores := map[];
    }

    /** `completedExercises[key] = value`: one entry set, everything else kept. */
    method RecordExercise(key: string, value: Completion)
      modifies this
      ensures completedExercises == old(completedExercises)[key := value]
      ensures path == old(path) && assessments == old(assessments) && scores == old(scores)
    {
      completedExercises := completedExercises[key := value];
    }

    /** `assessments[key] = checked`: one entry set, everything else kept. */
    method RecordAssessment(key: string, checked: bool)
      modifies this
      ensures assessments == old(assessments)[key := checked]
      ensures path == old(path) && completedExercises == old(completedExercises) && scores == old(scores)
    {
      assessments := assessments[key := checked];
    }

    /** `resetProgress()`: every field back to its default, whatever it held. */
    method Reset()
      modifies this
      ensures IsDefault()
    {
      path := "c";
      completedExercises := map[];
      assessments := map[];
      scores := map[];
    }
  }
}
