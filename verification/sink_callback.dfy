/**
 * What every sink callback shares: the events the engine delivers, the projection of an
 * event onto the stream's columns, and the rule deciding whether a control message on
 * the callback's topic is addressed to it.
 */
module SinkCallback {
  import opened Siddhi
  import Text

  /** A value carried in an event; sinks pass values through without looking at them. */
  datatype Value = Value(token: nat)

  /** An engine output event: an inserted event, or any other kind (removal, expiry...). */
  datatype Event =
    | InEvent(timestamp: int, data: seq<Value>)
    | OtherEvent(timestamp: int, data: seq<Value>)

  datatype ColumnNameTypeValue = ColumnNameTypeValue(column: string, typ: AttrType, value: Value)

  /** A message carrying one event: the stream, the event's timestamp and its columns. */
  datatype EventMessage = EventMessage(streamName: string, timestamp: int, columns: seq<ColumnNameTypeValue>)

  // ---------------------------------------------------------------- control messages

  /** The teardown wildcard: addressed to every callback on the topic. */
  const Wildcard: string := "*"

  /** A control payload is for a callback when it names its stream, ignoring case, or is the wildcard. */
  predicate IsForStream(payload: string, streamId: string) {
    Text.EqualsIgnoreCase(payload, streamId) || Text.EqualsIgnoreCase(payload, Wildcard)
  }

  /** The wildcard reaches every stream; any other payload reaches only the streams it names. */
  lemma IsForStreamCases(payload: string, streamId: string)
    ensures payload == Wildcard ==> IsForStream(payload, streamId)
    ensures payload != Wildcard ==> (IsForStream(payload, streamId) <==> Text.EqualsIgnoreCase(payload, streamId))
  {
    Text.WildcardMatchesOnlyItself(payload);
    Text.EqualsIgnoreCaseReflexiveSymmetric(payload, payload);
  }

  // ---------------------------------------------------------------- projection

  /**
   * The columns of an event, walking the attribute list from index `i`: an attribute is
   * included when its position in the definition lies within the event's data.
   */
  function ProjectFrom(attrs: seq<Attribute>, i: nat, data: seq<Value>): (r: seq<ColumnNameTypeValue>)
    requires i <= |attrs|
    ensures |r| <= |attrs| - i
    decreases |attrs| - i
  {
    if i == |attrs| then []
    else
      assert attrs[i].name in Names(attrs);
      var p := Position(attrs, attrs[i].name);
      var here := if |data| >= p + 1 then [ColumnNameTypeValue(attrs[i].name, attrs[i].typ, data[p])] else [];
      here + ProjectFrom(attrs, i + 1, data)
  }

  function Project(attrs: seq<Attribute>, data: seq<Value>): seq<ColumnNameTypeValue> {
    ProjectFrom(attrs, 0, data)
  }

  /**
   * Whatever the definition, every projected column is an attribute of it whose position
   * lies within the event's data, and its value is the data at that position.
   */
  lemma {:induction false} ProjectFromInBounds(attrs: seq<Attribute>, i: nat, data: seq<Value>)
    requires i <= |attrs|
    ensures forall k :: 0 <= k < |ProjectFrom(attrs, i, data)| ==> InBounds(attrs, data, ProjectFrom(attrs, i, data)[k])
    decreases |attrs| - i
  {
    if i < |attrs| {
      ProjectFromInBounds(attrs, i + 1, data);
      assert attrs[i].name in Names(attrs);
      var p := Position(attrs, attrs[i].name);
      var rest := ProjectFrom(attrs, i + 1, data);
      var r := ProjectFrom(attrs, i, data);
      if |data| >= p + 1 {
        var col := ColumnNameTypeValue(attrs[i].name, attrs[i].typ, data[p]);
        assert r == [col] + rest;
        assert InBounds(attrs, data, col);
        forall k | 1 <= k < |r|
          ensures InBounds(attrs, data, r[k])
        {
          assert r[k] == rest[k - 1];
        }
      } else {
        assert r == rest;
      }
    }
  }

  /** A column names an attribute whose position lies within the data and carries the data there. */
  predicate InBounds(attrs: seq<Attribute>, data: seq<Value>, col: ColumnNameTypeValue) {
    && col.column in Names(attrs)
    && Position(attrs, col.column) < |data|
    && col.value == data[Position(attrs, col.column)]
  }

  /** The columns of attributes `i..hi` with their data, `hi` being where the data runs out. */
  function Prefix(attrs: seq<Attribute>, i: nat, data: seq<Value>): (r: seq<ColumnNameTypeValue>)
    requires i <= |attrs|
    decreases |attrs| - i
  {
    if i >= |attrs| || i >= |data| then []
    else [ColumnNameTypeValue(attrs[i].name, attrs[i].typ, data[i])] + Prefix(attrs, i + 1, data)
  }

  /**
   * For a definition without duplicate names the projection is exactly the attributes at
   * positions below the data length, in attribute order, each with the value at its position.
   */
  lemma {:induction false} ProjectFromDistinct(attrs: seq<Attribute>, i: nat, data: seq<Value>)
    requires DistinctNames(attrs) && i <= |attrs|
    ensures ProjectFrom(attrs, i, data) == Prefix(attrs, i, data)
    decreases |attrs| - i
  {
    if i < |attrs| {
      if i < |data| {
        var col := ColumnNameTypeValue(attrs[i].name, attrs[i].typ, data[i]);
        calc {
          ProjectFrom(attrs, i, data);
          == { ProjectFromIncludes(attrs, i, data); }
          [col] + ProjectFrom(attrs, i + 1, data);
          == { ProjectFromDistinct(attrs, i + 1, data); }
          [col] + Prefix(attrs, i + 1, data);
        }
      } else {
        ProjectFromBeyondData(attrs, i, data);
      }
    }
  }

  /** An attribute sitting at its own position within the data is included. */
  lemma ProjectFromIncludes(attrs: seq<Attribute>, i: nat, data: seq<Value>)
    requires DistinctNames(attrs) && i < |attrs| && i < |data|
    ensures ProjectFrom(attrs, i, data)
         == [ColumnNameTypeValue(attrs[i].name, attrs[i].typ, data[i])] + ProjectFrom(attrs, i + 1, data)
  {
    PositionOfDistinct(attrs, i);
  }

  /** Past the end of the data no attribute of a distinct-named definition is included. */
  lemma {:induction false} ProjectFromBeyondData(attrs: seq<Attribute>, i: nat, data: seq<Value>)
    requires DistinctNames(attrs) && i <= |attrs| && i >= |data|
    ensures ProjectFrom(attrs, i, data) == []
    decreases |attrs| - i
  {
    if i < |attrs| {
      PositionOfDistinct(attrs, i);
      ProjectFromBeyondData(attrs, i + 1, data);
    }
  }

  lemma {:induction false} PrefixShape(attrs: seq<Attribute>, i: nat, data: seq<Value>)
    requires i <= |attrs|
    ensures var n := if |attrs| < |data| then |attrs| else |data|;
      && |Prefix(attrs, i, data)| == (if i < n then n - i else 0)
      && forall k :: 0 <= k < |Prefix(attrs, i, data)| ==>
           Prefix(attrs, i, data)[k] == ColumnNameTypeValue(attrs[i + k].name, attrs[i + k].typ, data[i + k])
    decreases |attrs| - i
  {
    if i < |attrs| && i < |data| {
      PrefixShape(attrs, i + 1, data);
    }
  }

  /** The projection of a distinct-named definition, stated index by index. */
  lemma ProjectDistinct(attrs: seq<Attribute>, data: seq<Value>)
    requires DistinctNames(attrs)
    ensures var n := if |attrs| < |data| then |attrs| else |data|;
      && |Project(attrs, data)| == n
      && forall k :: 0 <= k < n ==>
           Project(attrs, data)[k] == ColumnNameTypeValue(attrs[k].name, attrs[k].typ, data[k])
  {
    var cols := Prefix(attrs, 0, data);
    ProjectFromDistinct(attrs, 0, data);
    assert Project(attrs, data) == cols;
    PrefixShape(attrs, 0, data);
  }

  /** The inserted events of a batch, in order. */
  function InEvents(events: seq<Event>): (r: seq<Event>)
    ensures forall k :: 0 <= k < |r| ==> r[k].InEvent? && r[k] in events
  {
    if |events| == 0 then []
    else (if events[0].InEvent? then [events[0]] else []) + InEvents(events[1..])
  }

  lemma {:induction false} InEventsAppend(a: seq<Event>, b: seq<Event>)
    ensures InEvents(a + b) == InEvents(a) + InEvents(b)
    decreases |a|
  {
    if |a| > 0 {
      assert (a + b)[0] == a[0];
      assert (a + b)[1..] == a[1..] + b;
      InEventsAppend(a[1..], b);
    } else {
      assert a + b == b;
    }
  }

  /** The message a callback builds for one inserted event. */
  function ToMessage(def: StreamDefinition, e: Event): EventMessage {
    EventMessage(def.id, e.timestamp, Project(def.attributes, e.data))
  }

  /**
   * The messages `receive` collects from a batch: one per inserted event, in batch
   * order; other events are skipped.
   */
  function Collect(def: StreamDefinition, events: seq<Event>): (r: seq<EventMessage>)
    ensures |r| == |InEvents(events)|
    ensures forall k :: 0 <= k < |r| ==> r[k] == ToMessage(def, InEvents(events)[k])
  {
    if |events| == 0 then []
    else if events[0].InEvent? then [ToMessage(def, events[0])] + Collect(def, events[1..])
    else Collect(def, events[1..])
  }
}
