/** The steps of a frame of `Application.run`, and a ghost record of the steps taken: each
    method that takes a step of the frame appends it, so the record shows the calls a frame
    makes and their order. */
module FrameLogs {

  /** One step of `run`'s frame. */
  datatype FrameStep = HandleInputStep | SetupFrameStep(dt: real) | PreframeStep | RenderStep | PostframeStep

  /** The steps taken so far; no step of the program reads it. */
  class FrameLog {
    ghost var steps: seq<FrameStep>

    constructor ()
      ensures steps == []
    {
      steps := [];
    }
  }
}
