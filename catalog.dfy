/** The message type identifiers both endpoints use. 27 is used in both
    directions: from the instrument it means "this point's test finished",
    from the controller "the whole batch finished". */
module Catalog {
  import opened Bytes

  const READY: int32 := 1                // instrument: ready to load sample
  const SAMPLE_LOADED: int32 := 2        // controller: sample in position
  const BUSY: int32 := 4                 // instrument: test still running
  const METHOD_ID: int32 := 5            // controller: run this method
  const MOVE_XY: int32 := 10             // controller: move the stage to "X:Y"
  const REQUEST_STATUS: int32 := 11      // controller: status query
  const ERROR: int32 := 12               // instrument: error, stop
  const JOB_EXEC_STATUS: int32 := 22     // instrument: stage moving
  const APPROACH_STATUS: int32 := 23     // instrument: approach started
  const OPERATION_COMPLETED: int32 := 27 // either side: completed
}
