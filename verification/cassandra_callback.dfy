/**
 * The Cassandra sink attached to one stream: while running it turns every delivered batch
 * into stream messages and hands them to persistence; a control message naming the stream
 * (or the wildcard) closes its Cassandra resources once and stops it for good.
 *
 * The cluster handle is never stored in the callback's field (the constructor's set-up
 * binds it to a local of the same name), so the shutdown never finds a cluster to close.
 */
module CassandraCallback {
  import opened Siddhi
  import opened SinkCallback

  datatype Callback = Callback(
    definition: StreamDefinition,
    running: bool,
    sessionCloses: nat,
    clusterAssigned: bool,
    clusterCloses: nat,
    persisted: seq<seq<EventMessage>>)

  /** A freshly constructed callback: running, with a session and no cluster in its field. */
  function New(def: StreamDefinition): (r: Callback)
    ensures r.running && !r.clusterAssigned
    ensures r.sessionCloses == 0 && r.clusterCloses == 0 && r.persisted == []
  {
    Callback(def, true, 0, false, 0, [])
  }

  /** Closes the session, and the cluster when one is stored, if still running. */
  function ShutdownCallback(cb: Callback): (r: Callback)
    ensures !cb.running ==> r == cb
    ensures cb.running ==> r.sessionCloses == cb.sessionCloses + 1
    ensures r.clusterCloses == cb.clusterCloses + (if cb.running && cb.clusterAssigned then 1 else 0)
    ensures r.running == cb.running && r.definition == cb.definition && r.persisted == cb.persisted
  {
    if cb.running then
      cb.(sessionCloses := cb.sessionCloses + 1,
          clusterCloses := if cb.clusterAssigned then cb.clusterCloses + 1 else cb.clusterCloses)
    else cb
  }

  /** A control message on the save-to-Cassandra topic. */
  function OnMessage(cb: Callback, payload: string): (r: Callback)
    ensures r.running <==> cb.running && !IsForStream(payload, cb.definition.id)
    ensures !(cb.running && IsForStream(payload, cb.definition.id)) ==> r == cb
    ensures r.definition == cb.definition && r.persisted == cb.persisted
    ensures r.clusterAssigned == cb.clusterAssigned
    ensures r.sessionCloses == cb.sessionCloses + (if cb.running && !r.running then 1 else 0)
    ensures !cb.clusterAssigned ==> r.clusterCloses == cb.clusterCloses
  {
    if cb.running && IsForStream(payload, cb.definition.id) then
      ShutdownCallback(cb).(running := false)
    else cb
  }

  /** A batch of events from the engine: persisted as messages while running, ignored otherwise. */
  function Receive(cb: Callback, events: seq<Event>): (r: Callback)
    ensures !cb.running ==> r == cb
    ensures cb.running ==> r == cb.(persisted := cb.persisted + [Collect(cb.definition, events)])
  {
    if cb.running then cb.(persisted := cb.persisted + [Collect(cb.definition, events)]) else cb
  }

  /** Teardown is idempotent: repeating a control message changes nothing more. */
  lemma OnMessageIdempotent(cb: Callback, payload: string)
    ensures OnMessage(OnMessage(cb, payload), payload) == OnMessage(cb, payload)
  {
  }

  /** Once stopped, neither control messages nor batches change the callback. */
  lemma StoppedIsInert(cb: Callback, payload: string, events: seq<Event>)
    requires !cb.running
    ensures OnMessage(cb, payload) == cb && Receive(cb, events) == cb
  {
  }

  /** What the callback sees, one at a time: a control message or a batch of events. */
  datatype Input = Control(payload: string) | Batch(events: seq<Event>)

  function Step(cb: Callback, input: Input): Callback {
    match input
    case Control(p) => OnMessage(cb, p)
    case Batch(evs) => Receive(cb, evs)
  }

  function Run(cb: Callback, inputs: seq<Input>): Callback
    decreases |inputs|
  {
    if |inputs| == 0 then cb else Run(Step(cb, inputs[0]), inputs[1..])
  }

  /** Whether some control message among `inputs` is addressed to the stream. */
  predicate StopsStream(inputs: seq<Input>, id: string) {
    exists k :: 0 <= k < |inputs| && inputs[k].Control? && IsForStream(inputs[k].payload, id)
  }

  /** The message batches of the inputs up to the first control message addressed to the stream. */
  function BatchesUntilStop(def: StreamDefinition, inputs: seq<Input>): seq<seq<EventMessage>>
    decreases |inputs|
  {
    if |inputs| == 0 then []
    else match inputs[0]
      case Control(p) => if IsForStream(p, def.id) then [] else BatchesUntilStop(def, inputs[1..])
      case Batch(evs) => [Collect(def, evs)] + BatchesUntilStop(def, inputs[1..])
  }

  /** A stopped callback stays exactly as it is, whatever follows. */
  lemma {:induction false} RunStopped(cb: Callback, inputs: seq<Input>)
    requires !cb.running
    ensures Run(cb, inputs) == cb
    decreases |inputs|
  {
    if |inputs| > 0 {
      RunStopped(Step(cb, inputs[0]), inputs[1..]);
    }
  }

  /**
   * Running a live callback over any inputs: it persists exactly the batches that arrive
   * before the first control message for its stream, stops iff such a message arrives,
   * and closes its session (and a stored cluster) once if it stops and never otherwise.
   */
  lemma {:induction false} RunLive(cb: Callback, inputs: seq<Input>)
    requires cb.running
    ensures var r := Run(cb, inputs);
      && r.definition == cb.definition
      && (r.running <==> !StopsStream(inputs, cb.definition.id))
      && r.persisted == cb.persisted + BatchesUntilStop(cb.definition, inputs)
      && r.sessionCloses == cb.sessionCloses + (if r.running then 0 else 1)
      && r.clusterCloses == cb.clusterCloses + (if !r.running && cb.clusterAssigned then 1 else 0)
    decreases |inputs|
  {
    if |inputs| > 0 {
      var next := Step(cb, inputs[0]);
      var id := cb.definition.id;
      assert StopsStream(inputs, id) <==>
        (inputs[0].Control? && IsForStream(inputs[0].payload, id)) || StopsStream(inputs[1..], id)
      by {
        if StopsStream(inputs[1..], id) {
          var k :| 0 <= k < |inputs[1..]| && inputs[1..][k].Control? && IsForStream(inputs[1..][k].payload, id);
          assert inputs[k + 1] == inputs[1..][k];
        }
        if StopsStream(inputs, id) {
          var k :| 0 <= k < |inputs| && inputs[k].Control? && IsForStream(inputs[k].payload, id);
          if k > 0 {
            assert inputs[1..][k - 1] == inputs[k];
          }
        }
      }
      if next.running {
        RunLive(next, inputs[1..]);
      } else {
        RunStopped(next, inputs[1..]);
      }
    }
  }

  /** From construction: the session is closed at most once and the cluster never. */
  lemma FromNew(def: StreamDefinition, inputs: seq<Input>)
    ensures var r := Run(New(def), inputs);
      && r.sessionCloses <= 1
      && r.clusterCloses == 0
      && (r.running <==> !StopsStream(inputs, def.id))
      && r.persisted == BatchesUntilStop(def, inputs)
  {
    RunLive(New(def), inputs);
  }

  /** As written, a stopped callback has closed its session but left its cluster open. */
  lemma ClusterLeftOpen(def: StreamDefinition)
    ensures var r := Run(New(def), [Control(Wildcard)]);
      !r.running && r.sessionCloses == 1 && r.clusterCloses == 0
  {
    IsForStreamCases(Wildcard, def.id);
  }

  /** The corrected set-up: the cluster handle is kept in the callback's field. */
  function NewWithCluster(def: StreamDefinition): (r: Callback)
    ensures r.running && r.clusterAssigned
    ensures r.sessionCloses == 0 && r.clusterCloses == 0 && r.persisted == []
  {
    Callback(def, true, 0, true, 0, [])
  }

  /** With the cluster kept, stopping closes the session and the cluster, each exactly once. */
  lemma FromNewWithCluster(def: StreamDefinition, inputs: seq<Input>)
    ensures var r := Run(NewWithCluster(def), inputs);
      && (r.running <==> !StopsStream(inputs, def.id))
      && r.sessionCloses == r.clusterCloses
      && r.clusterCloses == (if r.running then 0 else 1)
      && r.persisted == BatchesUntilStop(def, inputs)
  {
    RunLive(NewWithCluster(def), inputs);
  }
}
