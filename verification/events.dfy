/** The records the polling-loop pipeline works on. */
module Events {
  import opened HexCodec

  /** `PollingFrame.POLLING_LOOP_TYPE_*`: the three technologies, the field
      switching on and off, and everything else. */
  datatype FrameType = A | B | F | On | Off | Unknown

  /** A captured polling frame with the microseconds since the previous one
      (`delta`, -1 when unknown). The platform arrival time is not modelled. */
  datatype PollingLoopEvent = PollingLoopEvent(
    timestamp: int,
    frameType: FrameType,
    data: seq<byte>,
    vendorSpecificGain: int,
    delta: int)

  /** One activation of the reader's field: the idle time before it, the idle
      time recorded on the closing OFF (-1 while open) and the frames sent. */
  datatype Loop = Loop(startDelta: int, endDelta: int, events: seq<PollingLoopEvent>)
}
