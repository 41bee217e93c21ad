/**
 * The main-thread `CirclePacker`: it hands out circle ids, remembers the node behind each id,
 * posts commands to the worker, and attaches the nodes to the positions the worker reports.
 * Posting to the worker is an append to `posted`; calling the update handler is an append to
 * `delivered`.
 */
module Host {
  import opened Wrappers
  import opened Protocol

  /** A reported position together with the node registered under its id, when there is one. */
  datatype ProcessedPosition<N> = ProcessedPosition(id: int, x: real, y: real, node: Option<N>)

  /** The `map` in `#handleWorkerMessage`: every record is copied and given the node stored under its id. */
  function Attach<N>(payload: seq<PositionRecord>, nodes: map<int, N>): (r: seq<ProcessedPosition<N>>)
    ensures |r| == |payload|
  {
    seq(|payload|, k requires 0 <= k < |payload| =>
      ProcessedPosition(payload[k].id, payload[k].x, payload[k].y,
                        if payload[k].id in nodes then Some(nodes[payload[k].id]) else None))
  }

  /** The record a processed position was made from. */
  function Strip<N>(p: ProcessedPosition<N>): PositionRecord {
    PositionRecord(p.id, p.x, p.y)
  }

  /** Attaching the nodes keeps every record as it was, in the same order. */
  lemma StripAttach<N>(payload: seq<PositionRecord>, nodes: map<int, N>)
    ensures |Attach(payload, nodes)| == |payload|
    ensures forall k :: 0 <= k < |payload| ==> Strip(Attach(payload, nodes)[k]) == payload[k]
  {
  }

  /**
   * When the nodes are keyed by exactly the ids `0 .. count - 1`, a reported position gets a node
   * precisely when its id is one of those, and then the node registered under that id.
   */
  lemma AttachIssued<N>(payload: seq<PositionRecord>, nodes: map<int, N>, count: nat)
    requires forall id :: id in nodes <==> 0 <= id < count
    ensures forall k :: 0 <= k < |payload| ==>
              (Attach(payload, nodes)[k].node.Some? <==> 0 <= payload[k].id < count)
    ensures forall k :: 0 <= k < |payload| && 0 <= payload[k].id < count ==>
              Attach(payload, nodes)[k].node == Some(nodes[payload[k].id])
  {
  }

  /** The ids of the `addNode` commands, in the order they were posted. */
  function IssuedIds(commands: seq<WorkerCommand>): (ids: seq<int>)
    ensures |ids| <= |commands|
    ensures forall k :: 0 <= k < |ids| ==>
              exists j :: 0 <= j < |commands| && commands[j].AddNode? && commands[j].id == ids[k]
  {
    if commands == [] then []
    else
      var init := commands[..|commands| - 1];
      var last := commands[|commands| - 1];
      assert forall j :: 0 <= j < |init| ==> init[j] == commands[j];
      IssuedIds(init) + if last.AddNode? then [last.id] else []
  }

  /** Posting a command extends the issued ids by its id when it is an `addNode`, and by nothing otherwise. */
  lemma IssuedIdsAppend(commands: seq<WorkerCommand>, c: WorkerCommand)
    ensures IssuedIds(commands + [c]) == IssuedIds(commands) + if c.AddNode? then [c.id] else []
  {
    assert (commands + [c])[..|commands|] == commands;
  }

  class CirclePacker<N> {
    /** The configured spacing between circles; the configuration module is not part of this model. */
    const circleSpacing: real
    var nodes: map<int, N>
    var idCounter: nat
    var width: real
    var height: real
    /** The commands posted to the worker, oldest first. */
    var posted: seq<WorkerCommand>
    /** The payloads handed to the update handler, oldest first. */
    var delivered: seq<seq<ProcessedPosition<N>>>

    /**
     * The nodes are keyed by exactly the ids handed out so far, and the `addNode` commands
     * carried the ids 0, 1, 2, ... in that order, so no id was ever sent twice.
     */
    ghost predicate Valid()
      reads this
    {
      && (forall id :: id in nodes <==> 0 <= id < idCounter)
      && IssuedIds(posted) == seq(idCounter, k => k)
    }

    constructor (circleSpacing: real)
      ensures Valid()
      ensures this.circleSpacing == circleSpacing
      ensures nodes == map[] && idCounter == 0 && width == 0.0 && height == 0.0
      ensures posted == [] && delivered == []
    {
      this.circleSpacing := circleSpacing;
      nodes := map[];
      idCounter := 0;
      width := 0.0;
      height := 0.0;
      posted := [];
      delivered := [];
    }

    /**
     * `addNode`: register the node under a fresh id and ask the worker for a circle of radius
     * `circleSpacing / 2 + size` near the centre; `jitterX` and `jitterY` are the two values
     * drawn by `randRange(-5, 5)`.
     */
    method AddNode(node: N, size: real, jitterX: real, jitterY: real)
      requires Valid()
      modifies this`nodes, this`idCounter, this`posted
      ensures Valid()
      ensures old(idCounter) !in old(nodes)
      ensures idCounter == old(idCounter) + 1
      ensures nodes == old(nodes)[old(idCounter) := node]
      ensures posted == old(posted)
                + [WorkerCommand.AddNode(old(idCounter), circleSpacing / 2.0 + size, width / 2.0 + jitterX, height / 2.0 + jitterY)]
    {
      var nodeId := idCounter;
      idCounter := idCounter + 1;
      nodes := nodes[nodeId := node];
      var resolvedRadius := circleSpacing / 2.0 + size;
      var initialX := width / 2.0 + jitterX;
      var initialY := height / 2.0 + jitterY;
      IssuedIdsAppend(posted, WorkerCommand.AddNode(nodeId, resolvedRadius, initialX, initialY));
      posted := posted + [WorkerCommand.AddNode(nodeId, resolvedRadius, initialX, initialY)];
      assert seq(idCounter, k => k) == seq(nodeId, k => k) + [nodeId];
    }

    /** `update`: ask the worker for `iterations` manual steps, one unless told otherwise. */
    method Update(iterations: int := 1)
      requires Valid()
      modifies this`posted
      ensures Valid()
      ensures posted == old(posted) + [WorkerCommand.Update(iterations)]
    {
      IssuedIdsAppend(posted, WorkerCommand.Update(iterations));
      posted := posted + [WorkerCommand.Update(iterations)];
    }

    /** `setDimensions`: remember the size and pass it on to the worker. */
    method SetDimensions(width: real, height: real)
      requires Valid()
      modifies this`width, this`height, this`posted
      ensures Valid()
      ensures this.width == width && this.height == height
      ensures posted == old(posted) + [WorkerCommand.SetDimensions(width, height)]
    {
      IssuedIdsAppend(posted, WorkerCommand.SetDimensions(width, height));
      this.width := width;
      this.height := height;
      posted := posted + [WorkerCommand.SetDimensions(width, height)];
    }

    /** `#handleWorkerMessage`: an `update` message is passed to the handler with its nodes attached; anything else is ignored. */
    method HandleWorkerMessage(event: WorkerEvent)
      requires Valid()
      modifies this`delivered
      ensures Valid()
      ensures event.Positions? ==> delivered == old(delivered) + [Attach(event.payload, nodes)]
      ensures event.Positions? ==>
                forall k :: 0 <= k < |event.payload| ==>
                  (delivered[|delivered| - 1][k].node.Some? <==> 0 <= event.payload[k].id < idCounter)
      ensures !event.Positions? ==> delivered == old(delivered)
    {
      match event {
        case Positions(payload) =>
          AttachIssued(payload, nodes, idCounter);
          delivered := delivered + [Attach(payload, nodes)];
        case _ =>
      }
    }
  }
}
