/**
 * The bus sink attached to one stream (the listen action): while running it sends every
 * inserted event of a delivered batch to the message bus, keyed by the stream; a control
 * message naming the stream (or the wildcard) closes its producer once and stops it.
 */
module BusCallback {
  import opened Siddhi
  import opened SinkCallback
  import Text

  /** A bus message: the topic it is sent to, its key, and the stream message it carries. */
  datatype KeyedMessage = KeyedMessage(topic: string, key: string, message: EventMessage)

  datatype Callback = Callback(
    definition: StreamDefinition,
    running: bool,
    producerCloses: nat,
    sent: seq<KeyedMessage>)

  function New(def: StreamDefinition): (r: Callback)
    ensures r.running && r.producerCloses == 0 && r.sent == []
  {
    Callback(def, true, 0, [])
  }

  /** The key every message of a stream is sent under. */
  function EventKey(streamId: string): string {
    streamId + "event"
  }

  /** One bus message per stream message, in order, on the stream's own topic and key. */
  function SendEventsToBus(def: StreamDefinition, messages: seq<EventMessage>): (r: seq<KeyedMessage>)
    ensures |r| == |messages|
    ensures forall k :: 0 <= k < |r| ==> r[k].topic == def.id && r[k].key == EventKey(def.id)
  {
    if |messages| == 0 then []
    else [KeyedMessage(def.id, EventKey(def.id), messages[0])] + SendEventsToBus(def, messages[1..])
  }

  /** The stream messages carried by a run of bus messages. */
  function Payloads(sent: seq<KeyedMessage>): (r: seq<EventMessage>)
    ensures |r| == |sent|
  {
    if |sent| == 0 then [] else [sent[0].message] + Payloads(sent[1..])
  }

  /** Reading the payloads back from what was sent gives the stream messages, in order. */
  lemma {:induction false} SendEventsToBusRoundTrip(def: StreamDefinition, messages: seq<EventMessage>)
    ensures Payloads(SendEventsToBus(def, messages)) == messages
    decreases |messages|
  {
    if |messages| > 0 {
      SendEventsToBusRoundTrip(def, messages[1..]);
    }
  }

  function ShutdownCallback(cb: Callback): (r: Callback)
    ensures r.producerCloses == cb.producerCloses + (if cb.running then 1 else 0)
    ensures r.running == cb.running && r.definition == cb.definition && r.sent == cb.sent
  {
    if cb.running then cb.(producerCloses := cb.producerCloses + 1) else cb
  }

  /** A control message on the listen topic. */
  function OnMessage(cb: Callback, payload: string): (r: Callback)
    ensures r.running <==> cb.running && !IsForStream(payload, cb.definition.id)
    ensures !(cb.running && IsForStream(payload, cb.definition.id)) ==> r == cb
    ensures r.definition == cb.definition && r.sent == cb.sent
    ensures r.producerCloses == cb.producerCloses + (if cb.running && !r.running then 1 else 0)
  {
    if cb.running && IsForStream(payload, cb.definition.id) then
      ShutdownCallback(cb).(running := false)
    else cb
  }

  /** A batch from the engine: its inserted events are sent while running; nothing is sent otherwise. */
  function Receive(cb: Callback, events: seq<Event>): (r: Callback)
    ensures !cb.running ==> r == cb
    ensures r.running == cb.running && r.producerCloses == cb.producerCloses && r.definition == cb.definition
    ensures cb.running ==> r.sent == cb.sent + SendEventsToBus(cb.definition, Collect(cb.definition, events))
  {
    if cb.running then cb.(sent := cb.sent + SendEventsToBus(cb.definition, Collect(cb.definition, events))) else cb
  }

  /**
   * What a live callback sends for a batch reads back as one message per inserted event,
   * in batch order, each projected onto the stream's columns.
   */
  lemma ReceiveSendsInsertedEvents(cb: Callback, events: seq<Event>)
    requires cb.running
    ensures var added := Receive(cb, events).sent[|cb.sent|..];
      && Payloads(added) == Collect(cb.definition, events)
      && |added| == |InEvents(events)|
      && forall k :: 0 <= k < |added| ==> added[k].message == ToMessage(cb.definition, InEvents(events)[k])
  {
    var msgs := Collect(cb.definition, events);
    var added := Receive(cb, events).sent[|cb.sent|..];
    assert added == SendEventsToBus(cb.definition, msgs);
    SendEventsToBusRoundTrip(cb.definition, msgs);
    forall k | 0 <= k < |added|
      ensures added[k].message == msgs[k]
    {
      PayloadsIndex(added, k);
    }
  }

  lemma {:induction false} PayloadsIndex(sent: seq<KeyedMessage>, k: int)
    requires 0 <= k < |sent|
    ensures Payloads(sent)[k] == sent[k].message
    decreases k
  {
    if k > 0 {
      PayloadsIndex(sent[1..], k - 1);
    }
  }

  lemma OnMessageIdempotent(cb: Callback, payload: string)
    ensures OnMessage(OnMessage(cb, payload), payload) == OnMessage(cb, payload)
  {
  }

  /** A run of control messages, delivered one after another. */
  function OnMessages(cb: Callback, payloads: seq<string>): Callback
    decreases |payloads|
  {
    if |payloads| == 0 then cb else OnMessages(OnMessage(cb, payloads[0]), payloads[1..])
  }

  /**
   * However many control messages arrive, the producer is closed at most once more, and
   * exactly once when the callback was running and one of them was addressed to it.
   */
  lemma {:induction false} ProducerClosedAtMostOnce(cb: Callback, payloads: seq<string>)
    ensures var r := OnMessages(cb, payloads);
      && r.sent == cb.sent
      && r.producerCloses == cb.producerCloses + (if cb.running && !r.running then 1 else 0)
      && (r.running <==> cb.running && forall k :: 0 <= k < |payloads| ==> !IsForStream(payloads[k], cb.definition.id))
    decreases |payloads|
  {
    if |payloads| > 0 {
      var next := OnMessage(cb, payloads[0]);
      ProducerClosedAtMostOnce(next, payloads[1..]);
      var r := OnMessages(cb, payloads);
      var id := cb.definition.id;
      assert (forall k :: 0 <= k < |payloads| ==> !IsForStream(payloads[k], id)) <==>
        !IsForStream(payloads[0], id) && (forall k :: 0 <= k < |payloads[1..]| ==> !IsForStream(payloads[1..][k], id))
      by {
        if forall k :: 0 <= k < |payloads[1..]| ==> !IsForStream(payloads[1..][k], id) {
          forall k | 1 <= k < |payloads|
            ensures !IsForStream(payloads[k], id)
          {
            assert payloads[k] == payloads[1..][k - 1];
          }
        }
      }
    }
  }

  /** A stopped callback ignores control messages and sends nothing. */
  lemma StoppedIsInert(cb: Callback, payload: string, events: seq<Event>)
    requires !cb.running
    ensures OnMessage(cb, payload) == cb && Receive(cb, events) == cb
  {
  }

  /** A control message published on the listen topic reaches every callback subscribed to it. */
  function Broadcast(cbs: seq<Callback>, payload: string): (r: seq<Callback>)
    ensures |r| == |cbs|
    ensures forall k :: 0 <= k < |r| ==> r[k] == OnMessage(cbs[k], payload)
  {
    if |cbs| == 0 then [] else [OnMessage(cbs[0], payload)] + Broadcast(cbs[1..], payload)
  }

  /**
   * The wildcard stops every callback; a stream name stops the running callbacks whose
   * stream it names ignoring case, and leaves every other callback exactly as it was.
   */
  lemma BroadcastStops(cbs: seq<Callback>, payload: string)
    ensures payload == Wildcard ==> forall k :: 0 <= k < |cbs| ==> !Broadcast(cbs, payload)[k].running
    ensures payload != Wildcard ==> forall k :: 0 <= k < |cbs| ==>
      if Text.EqualsIgnoreCase(payload, cbs[k].definition.id) then !Broadcast(cbs, payload)[k].running
      else Broadcast(cbs, payload)[k] == cbs[k]
  {
    forall k | 0 <= k < |cbs| {
      IsForStreamCases(payload, cbs[k].definition.id);
    }
  }
}
