/** The canonical cue model shared by the three readers and the SRT writer. */
module Cues {

  /** One subtitle display unit: start and stop in milliseconds, and its text
      (lines separated by newlines, inline markup in the SRT subset). */
  datatype Cue = Cue(start: int, stop: int, text: string)

  /** The cues of one language or style variant, in output order. */
  type Track = seq<Cue>

  /** The ways `readSubtitle` ends in a thrown `TypeError` instead of a result. */
  datatype Failure =
    | MissingEvents              // an ASS text without an `[Events]` section
    | InheritedLabel(name: string)  // a SAMI class label that names an inherited property

  datatype Result<T> = Ok(value: T) | Fail(failure: Failure)
}
