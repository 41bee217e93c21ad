/** The messages exchanged between the main-thread `CirclePacker` and the worker. */
module Protocol {
  /** One circle as it is reported to the main thread: its id and the centre of its position. */
  datatype PositionRecord = PositionRecord(id: int, x: real, y: real)

  /** A message posted by the main thread to the worker, by its `type` field. */
  datatype WorkerCommand =
    | AddNode(id: int, radius: real, x: real, y: real)
    | SetDimensions(width: real, height: real)
    | Update(iterations: int)
    | UnknownCommand(kind: string)

  /** A message posted by the worker to the main thread; the worker only ever posts `Positions`. */
  datatype WorkerEvent =
    | Positions(payload: seq<PositionRecord>)
    | UnknownEvent(kind: string)
}
