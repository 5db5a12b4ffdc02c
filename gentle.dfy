/** The part of the aligner's response schema that the timeline builder reads. */
module Gentle {
  import opened Wrappers

  /** One recognised word of the aligner's response. `outcome` is the JSON field `case`;
      `start`/`end` are seconds, `startOffset`/`endOffset` character indices into the
      cleaned transcript that was sent to the aligner. The fields `word`, `alignedWord`
      and `phones` are never read and are not modelled. */
  datatype GentleWord = GentleWord(
    outcome: string,
    start: Option<real>,
    startOffset: Option<nat>,
    endOffset: Option<nat>,
    end: Option<real>)
}
