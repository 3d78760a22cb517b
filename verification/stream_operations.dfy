/**
 * The stream operations as state transformers. The state is the engine, the shared
 * registry, the log of everything published on the four internal control topics, and
 * the sink callbacks registered so far. Each operation is one sequential step.
 */
module StreamOperations {
  import opened Wrappers
  import opened Siddhi
  import opened StreamStatus
  import Text
  import Validators
  import Cql
  import ReplyCodes

  /** The internal control topics, one per sink action. */
  datatype Topic = INTERNAL_LISTEN_TOPIC | INTERNAL_SAVE2CASSANDRA_TOPIC | INTERNAL_INDEXER_TOPIC | INTERNAL_SAVE2MONGO_TOPIC

  /** The control topic on which an action's callbacks listen for teardown. */
  function TopicOf(action: StreamAction): Topic {
    match action
    case LISTEN => INTERNAL_LISTEN_TOPIC
    case SAVE_TO_CASSANDRA => INTERNAL_SAVE2CASSANDRA_TOPIC
    case INDEXED => INTERNAL_INDEXER_TOPIC
    case SAVE_TO_MONGO => INTERNAL_SAVE2MONGO_TOPIC
  }

  /** Each action has its own topic. */
  lemma TopicOfInjective(a: StreamAction, b: StreamAction)
    ensures TopicOf(a) == TopicOf(b) ==> a == b
  {
  }

  /**
   * Every payload published on each topic. Publication order is not kept: the
   * registry sweep publishes in the map's unspecified iteration order.
   */
  datatype TopicLog = TopicLog(
    listen: multiset<string>, save2cassandra: multiset<string>,
    indexer: multiset<string>, save2mongo: multiset<string>)
  {
    function Published(t: Topic): multiset<string> {
      match t
      case INTERNAL_LISTEN_TOPIC => listen
      case INTERNAL_SAVE2CASSANDRA_TOPIC => save2cassandra
      case INTERNAL_INDEXER_TOPIC => indexer
      case INTERNAL_SAVE2MONGO_TOPIC => save2mongo
    }

    /** `getTopic(t).publish(payload)`. */
    function Publish(t: Topic, payloads: multiset<string>): (r: TopicLog)
      ensures r.Published(t) == Published(t) + payloads
      ensures forall u :: u != t ==> r.Published(u) == Published(u)
    {
      match t
      case INTERNAL_LISTEN_TOPIC => this.(listen := listen + payloads)
      case INTERNAL_SAVE2CASSANDRA_TOPIC => this.(save2cassandra := save2cassandra + payloads)
      case INTERNAL_INDEXER_TOPIC => this.(indexer := indexer + payloads)
      case INTERNAL_SAVE2MONGO_TOPIC => this.(save2mongo := save2mongo + payloads)
    }
  }

  /**
   * A sink callback: registered with the engine for `stream` and subscribed to the
   * control topic of `action`.
   */
  datatype Sink = Sink(action: StreamAction, stream: string)
  {
    function Topic(): Topic { TopicOf(action) }
  }

  datatype State = State(engine: Engine, registry: Registry, log: TopicLog, sinks: seq<Sink>)

  predicate Valid(st: State) {
    Siddhi.Valid(st.engine)
  }

  /** What the operations can fail with: an engine refusal, or the engine's exceptions. */
  datatype OpError =
    | EngineRefused(engineError: EngineError)
    | StreamNotDefined
    | AttributeAlreadyExists(column: string)
    | StatusFailed(statusError: StatusError)
    | UnsupportedColumn(message: string)

  // ---------------------------------------------------------------- create

  /**
   * `createStream`: the stream is defined in the engine first, and only then given a
   * client-created registry entry.
   */
  function CreateStream(st: State, name: string, columns: seq<Attribute>): (r: Result<State, OpError>)
    requires Valid(st)
    ensures r.Success? ==> Valid(r.value)
    ensures r.Success? <==> DefineStream(st.engine, StreamDefinition(name, columns)).Success?
    ensures r.Success? ==>
      && GetDefinition(r.value.engine, name) == Some(StreamDefinition(name, columns))
      && name in r.value.registry
      && (name !in st.registry ==> r.value.registry[name] == Created)
      && (forall n :: n in st.registry ==> n in r.value.registry && r.value.registry[n] == st.registry[n])
      && (forall n :: n in r.value.registry ==> n == name || n in st.registry)
      && r.value.log == st.log && r.value.sinks == st.sinks
  {
    match DefineStream(st.engine, StreamDefinition(name, columns))
    case Failure(err) => Failure(EngineRefused(err))
    case Success(e) => Success(st.(engine := e, registry := CreateStatus(st.registry, name)))
  }

  /** A stream created under a fresh name reads back as client-created with nothing enabled. */
  lemma CreateThenGetStatus(st: State, name: string, columns: seq<Attribute>)
    requires Valid(st)
    requires name !in st.engine.definitions && name !in st.registry
    requires DistinctNames(columns)
    ensures CreateStream(st, name, columns).Success?
    ensures var s := CreateStream(st, name, columns).value;
      GetStatus(s.registry, s.engine, name) == Some(Created)
  {
  }

  /**
   * Creation is guarded by the "stream exists" validator: it lets a new name through, and
   * once the stream is created the same request is refused with "stream already exists".
   */
  lemma CreateTwiceRefused(st: State, name: string, columns: seq<Attribute>, operation: string)
    requires Valid(st)
    requires name != "" && name !in st.engine.definitions
    requires CreateStream(st, name, columns).Success?
    ensures var req := Validators.Request(Some(name), operation);
      && Validators.StreamExistsValidation(req, st.engine) == Validators.Pass
      && Validators.StreamExistsValidation(req, CreateStream(st, name, columns).value.engine)
         == Validators.Fail(ReplyCodes.KO_STREAM_ALREADY_EXISTS, Validators.StreamAlreadyExistsMessage(name))
  {
  }

  // ---------------------------------------------------------------- enlarge

  /** The result of an operation that may throw after it has already changed the state. */
  datatype Outcome<T> = Outcome(state: State, result: Result<T, OpError>)

  /** No request column repeats a name of the definition or of an earlier request column. */
  predicate NoClash(attrs: seq<Attribute>, columns: seq<Attribute>) {
    forall k :: 0 <= k < |columns| ==> columns[k].name !in Names(attrs + columns[..k])
  }

  /** The state with the stream's attribute list replaced in place. */
  function WithAttributes(st: State, name: string, attrs: seq<Attribute>): (r: State)
    requires Valid(st) && name in st.engine.definitions
    ensures Valid(r)
  {
    st.(engine := st.engine.(definitions := st.engine.definitions[name := attrs]))
  }

  /**
   * `enlargeStream`: appends the request columns, one at a time, to the stream's live
   * definition and returns how many were added. A column whose name the definition already
   * has (including one appended earlier by the same request) raises, and the columns
   * appended before it stay appended.
   */
  method EnlargeStream(st: State, name: string, columns: seq<Attribute>) returns (r: Outcome<nat>)
    requires Valid(st)
    ensures Valid(r.state)
    ensures name !in st.engine.definitions ==> r == Outcome(st, Failure(StreamNotDefined))
    ensures name in st.engine.definitions ==>
      var attrs := st.engine.definitions[name];
      && name in r.state.engine.definitions
      && (r.result.Success? <==> NoClash(attrs, columns))
      && (r.result.Success? ==> r.result.value == |columns| && r.state.engine.definitions[name] == attrs + columns)
      && (r.result.Failure? ==> exists k ::
            && 0 <= k < |columns|
            && r.state.engine.definitions[name] == attrs + columns[..k]
            && columns[k].name in Names(attrs + columns[..k])
            && r.result.error == AttributeAlreadyExists(columns[k].name))
    ensures forall n :: n != name ==> GetDefinition(r.state.engine, n) == GetDefinition(st.engine, n)
    ensures r.state.engine.order == st.engine.order && r.state.engine.queries == st.engine.queries
    ensures r.state.registry == st.registry && r.state.log == st.log && r.state.sinks == st.sinks
  {
    if name !in st.engine.definitions {
      return Outcome(st, Failure(StreamNotDefined));
    }
    var original := st.engine.definitions[name];
    var attrs := original;
    var addedColumns := 0;
    var i := 0;
    while i < |columns|
      invariant 0 <= i <= |columns|
      invariant attrs == original + columns[..i]
      invariant addedColumns == i
      invariant forall k :: 0 <= k < i ==> columns[k].name !in Names(original + columns[..k])
    {
      if columns[i].name !in Names(attrs) {
        addedColumns := addedColumns + 1;
        attrs := attrs + [columns[i]];
        assert columns[..i + 1] == columns[..i] + [columns[i]];
      } else {
        assert !NoClash(original, columns);
        return Outcome(WithAttributes(st, name, attrs), Failure(AttributeAlreadyExists(columns[i].name)));
      }
      i := i + 1;
    }
    assert columns[..i] == columns;
    return Outcome(WithAttributes(st, name, attrs), Success(addedColumns));
  }

  // ---------------------------------------------------------------- drop

  /** The ids of a list of attached queries. */
  function QueryIds(qs: seq<Query>): (r: set<string>)
    ensures forall id :: id in r <==> exists k :: 0 <= k < |qs| && qs[k].id == id
  {
    set k | 0 <= k < |qs| :: qs[k].id
  }

  /** The ids of the queries `getStreamStatus` reports attached to the stream. */
  function AttachedQueryIds(reg: Registry, e: Engine, name: string): set<string> {
    match GetStatus(reg, e, name)
    case None => {}
    case Some(s) => QueryIds(s.addedQueries)
  }

  /** The queries `getStreamStatus` reports attached to the stream. */
  function AttachedQueries(reg: Registry, e: Engine, name: string): (r: seq<Query>)
    ensures QueryIds(r) == AttachedQueryIds(reg, e, name)
  {
    match GetStatus(reg, e, name)
    case None => []
    case Some(s) => s.addedQueries
  }

  /**
   * `removeQuery` for each query in turn. Each removal may drop streams the engine
   * inferred from that query's output; `dropped` is the set of streams so dropped.
   */
  function RemoveQueries(e: Engine, qs: seq<Query>, dropped: set<string>): (r: Engine)
    requires Siddhi.Valid(e)
    ensures Siddhi.Valid(r)
    ensures r.queries == e.queries - QueryIds(qs)
    ensures |qs| == 0 ==> r == e
    ensures |qs| > 0 ==> forall n :: n in r.definitions <==> n in e.definitions && n !in dropped
    ensures forall n :: n in r.definitions ==> n in e.definitions && r.definitions[n] == e.definitions[n]
    decreases |qs|
  {
    if |qs| == 0 then e
    else
      var first := RemoveQuery(e, qs[0].id, dropped);
      var r := RemoveQueries(first, qs[1..], dropped);
      QueryIdsCons(qs);
      RemoveKeysTwice(e.queries, {qs[0].id}, QueryIds(qs[1..]));
      assert forall n :: n in r.definitions <==> n in first.definitions by {
        if |qs[1..]| > 0 {
          assert forall n :: n in first.definitions ==> n !in dropped;
        }
      }
      r
  }

  /** Removing two key sets one after the other removes their union. */
  lemma RemoveKeysTwice(m: map<string, string>, a: set<string>, b: set<string>)
    ensures (m - a) - b == m - (a + b)
  {
  }

  /** The ids of a non-empty list are the first id and the ids of the rest. */
  lemma QueryIdsCons(qs: seq<Query>)
    requires |qs| > 0
    ensures QueryIds(qs) == {qs[0].id} + QueryIds(qs[1..])
  {
    assert forall k :: 1 <= k < |qs| ==> qs[1..][k - 1] == qs[k];
  }

  /**
   * `dropStream`: tells the stream's listeners to stop, removes its attached queries from
   * the engine (which may drop the streams in `dropped` along with them), then its
   * definition, then its registry entry. Streams the engine dropped keep their registry
   * entries: unlike query removal, dropping a stream does not sweep the registry.
   */
  function DropStream(st: State, name: string, dropped: set<string>): (r: State)
    requires Valid(st)
    ensures Valid(r)
    ensures r.log == st.log.Publish(INTERNAL_LISTEN_TOPIC, multiset{name})
    ensures GetDefinition(r.engine, name) == None && name !in r.registry
    ensures r.engine.queries == st.engine.queries - AttachedQueryIds(st.registry, st.engine, name)
    ensures forall n :: n != name ==>
      (n in r.engine.definitions <==>
         n in st.engine.definitions && (AttachedQueryIds(st.registry, st.engine, name) == {} || n !in dropped))
    ensures forall n :: n in r.engine.definitions ==> r.engine.definitions[n] == st.engine.definitions[n]
    ensures r.registry == st.registry - {name}
    ensures r.sinks == st.sinks
  {
    var log := st.log.Publish(INTERNAL_LISTEN_TOPIC, multiset{name});
    var qs := AttachedQueries(st.registry, st.engine, name);
    QueryIdsEmpty(qs);
    var reg := Materialize(st.registry, st.engine, name);
    MaterializeThenRemove(st.registry, st.engine, name);
    var e := RemoveQueries(st.engine, qs, dropped);
    var e' := RemoveStream(e, name);
    State(e', RemoveStatus(reg, name), log, st.sinks)
  }

  /** A list of queries is empty exactly when it has no ids. */
  lemma QueryIdsEmpty(qs: seq<Query>)
    ensures |qs| == 0 <==> QueryIds(qs) == {}
  {
    if |qs| > 0 {
      assert qs[0].id in QueryIds(qs);
    }
  }

  /** Materialising an entry and then removing it leaves the registry without that key. */
  lemma MaterializeThenRemove(reg: Registry, e: Engine, name: string)
    ensures RemoveStatus(Materialize(reg, e, name), name) == reg - {name}
  {
  }

  /**
   * When the removed queries take other streams with them, those streams are gone from
   * the engine but keep their registry entries.
   */
  lemma DropStreamLeavesStaleEntries(st: State, name: string, dropped: set<string>)
    requires Valid(st)
    ensures var r := DropStream(st, name, dropped);
      forall n :: n in dropped && n != name && n in st.registry && AttachedQueryIds(st.registry, st.engine, name) != {} ==>
        n in r.registry && r.registry[n] == st.registry[n] && n !in r.engine.definitions
  {
  }

  /** Dropping a stream publishes exactly one message, its name, and only on the listen topic. */
  lemma DropStreamPublishesOnceOnListen(st: State, name: string, dropped: set<string>)
    requires Valid(st)
    ensures var r := DropStream(st, name, dropped);
      && r.log.Published(INTERNAL_LISTEN_TOPIC) - st.log.Published(INTERNAL_LISTEN_TOPIC) == multiset{name}
      && r.log.Published(INTERNAL_LISTEN_TOPIC)[name] == st.log.Published(INTERNAL_LISTEN_TOPIC)[name] + 1
      && forall t :: t != INTERNAL_LISTEN_TOPIC ==> r.log.Published(t) == st.log.Published(t)
  {
  }

  /**
   * Re-creating a stream the drop took with it does not give it a fresh status: creation
   * only adds an entry when none is there, so the stale entry (not user-defined, with
   * whatever actions it had) is what the new stream reads back.
   */
  lemma RecreateOverStaleEntry(st: State, name: string, dropped: set<string>, n: string, columns: seq<Attribute>)
    requires Valid(st)
    requires n in dropped && n != name && n in st.registry && AttachedQueryIds(st.registry, st.engine, name) != {}
    requires DistinctNames(columns)
    ensures var d := DropStream(st, name, dropped);
      && n !in d.engine.definitions
      && CreateStream(d, n, columns).Success?
      && var s := CreateStream(d, n, columns).value;
         GetStatus(s.registry, s.engine, n) == Some(st.registry[n])
  {
    DropStreamLeavesStaleEntries(st, name, dropped);
  }

  /**
   * The corrected `dropStream`: after the drop, the registry is swept the way query removal
   * sweeps it, every entry whose stream the engine no longer defines being announced on
   * the listen topic and removed.
   */
  function DropStreamSwept(st: State, name: string, dropped: set<string>): (r: State)
    requires Valid(st)
    ensures Valid(r)
    ensures r.engine == DropStream(st, name, dropped).engine
    ensures forall n :: n in r.registry ==> n in r.engine.definitions
    ensures forall n :: n in r.registry <==> n in st.registry && n != name && n in r.engine.definitions
    ensures forall n :: n in r.registry ==> r.registry[n] == st.registry[n]
    ensures r.log.Published(INTERNAL_LISTEN_TOPIC)[name] > st.log.Published(INTERNAL_LISTEN_TOPIC)[name]
    ensures forall n :: n in st.registry && n !in r.registry ==>
      r.log.Published(INTERNAL_LISTEN_TOPIC)[n] > st.log.Published(INTERNAL_LISTEN_TOPIC)[n]
    ensures forall t :: t != INTERNAL_LISTEN_TOPIC ==> r.log.Published(t) == st.log.Published(t)
    ensures r.sinks == st.sinks
  {
    var d := DropStream(st, name, dropped);
    var orphans := Orphans(d.registry, d.engine);
    d.(registry := d.registry - orphans, log := d.log.Publish(INTERNAL_LISTEN_TOPIC, multiset(orphans)))
  }

  /**
   * With the sweep, every stream that is not defined after the drop can be re-created,
   * and reads back as client-created with nothing enabled.
   */
  lemma RecreateAfterSweptDrop(st: State, name: string, dropped: set<string>, n: string, columns: seq<Attribute>)
    requires Valid(st)
    requires n !in DropStreamSwept(st, name, dropped).engine.definitions
    requires DistinctNames(columns)
    ensures var d := DropStreamSwept(st, name, dropped);
      && CreateStream(d, n, columns).Success?
      && var s := CreateStream(d, n, columns).value;
         GetStatus(s.registry, s.engine, n) == Some(Created)
  {
    var d := DropStreamSwept(st, name, dropped);
    assert n !in d.registry;
    CreateThenGetStatus(d, n, columns);
  }

  // ---------------------------------------------------------------- queries

  /** The query text handed to the engine: every "timebatch" spelled "timeBatch". */
  function EngineQueryText(raw: string): string {
    Text.ReplaceAll(raw, "timebatch", "timeBatch")
  }

  /** The engine text differs from the raw text only in upper-casing some 'b's. */
  lemma EngineQueryTextOnlyRecases(raw: string)
    ensures |EngineQueryText(raw)| == |raw|
    ensures forall k :: 0 <= k < |raw| ==>
      EngineQueryText(raw)[k] == raw[k] || (raw[k] == 'b' && EngineQueryText(raw)[k] == 'B')
  {
    Text.ReplaceAllOnlyRecases(raw, "timebatch", "timeBatch", 'b', 'B');
  }

  /** No "timebatch" survives: the engine text never contains it. */
  lemma {:induction false} EngineQueryTextHasNoTimebatch(raw: string)
    ensures forall i :: !Text.OccursAt(EngineQueryText(raw), "timebatch", i)
    decreases |raw|
  {
    var pattern, replacement := "timebatch", "timeBatch";
    var r := EngineQueryText(raw);
    EngineQueryTextOnlyRecases(raw);
    if |raw| >= |pattern| {
      if raw[..|pattern|] == pattern {
        var x := EngineQueryText(raw[|pattern|..]);
        EngineQueryTextHasNoTimebatch(raw[|pattern|..]);
        assert r == replacement + x;
        forall i | 0 <= i <= |r| - |pattern|
          ensures !Text.OccursAt(r, pattern, i)
        {
          if i >= |pattern| {
            assert r[i..i + |pattern|] == x[i - |pattern|..i - |pattern| + |pattern|];
            assert !Text.OccursAt(x, pattern, i - |pattern|);
          } else if i == 0 {
            assert r[i..i + |pattern|][4] == r[4] == replacement[4] == 'B';
          } else if i == 6 {
            assert r[i..i + |pattern|][1] == r[7] == replacement[7] == 'c';
          } else {
            ReplacementStartsOnlyOnceWithT(i);
            assert r[i..i + |pattern|][0] == r[i] == replacement[i] != 't';
          }
        }
      } else {
        var x := EngineQueryText(raw[1..]);
        EngineQueryTextHasNoTimebatch(raw[1..]);
        assert r == [raw[0]] + x;
        forall i | 0 <= i <= |r| - |pattern|
          ensures !Text.OccursAt(r, pattern, i)
        {
          if i >= 1 {
            assert r[i..i + |pattern|] == x[i - 1..i - 1 + |pattern|];
            assert !Text.OccursAt(x, pattern, i - 1);
          } else {
            var k :| 0 <= k < |pattern| && raw[..|pattern|][k] != pattern[k];
            assert r[..|pattern|][k] == r[k];
          }
        }
      }
    }
  }

  /** Inside "timeBatch", a 't' starts only at positions 0 and 6. */
  lemma ReplacementStartsOnlyOnceWithT(i: int)
    requires 0 < i < 9 && i != 6
    ensures "timeBatch"[i] != 't'
  {
    if i == 1 {
    } else if i == 2 {
    } else if i == 3 {
    } else if i == 4 {
    } else if i == 5 {
    } else if i == 7 {
    } else {
    }
  }

  /** Re-casing is idempotent: the engine text of an engine text is itself. */
  lemma EngineQueryTextIdempotent(raw: string)
    ensures EngineQueryText(EngineQueryText(raw)) == EngineQueryText(raw)
  {
    EngineQueryTextHasNoTimebatch(raw);
    Text.ReplaceAllWithoutOccurrence(EngineQueryText(raw), "timebatch", "timeBatch");
  }

  /** Stores a fresh status for each of `names` that the engine defines. */
  function MaterializeAll(reg: Registry, e: Engine, names: seq<string>): (r: Registry)
    ensures forall n :: n in reg ==> n in r && r[n] == reg[n]
    ensures forall n :: n in names && n in e.definitions ==> n in r
    ensures forall n :: n in r && n !in reg ==> r[n] == Inferred && n in e.definitions && n in names
    decreases |names|
  {
    if |names| == 0 then reg
    else MaterializeAll(Materialize(reg, e, names[0]), e, names[1..])
  }

  /**
   * `addQueryToExistingStream`: registers the query with the engine (under the engine's
   * fresh id `id`, defining the output streams `outputs` the engine infers), records the
   * raw text under that id in the stream's status, then gives every engine stream that
   * has no registry entry a non-user-defined one.
   */
  function AddQueryToExistingStream(st: State, name: string, raw: string, id: string, outputs: seq<StreamDefinition>,
                                    accepted: bool): (r: Result<State, OpError>)
    requires Valid(st)
    requires id !in st.engine.queries
    ensures r.Success? <==> accepted && OutputsAgree(st.engine.definitions, outputs)
    ensures r.Failure? ==> r.error == EngineRefused(if accepted then DifferentDefinitionAlreadyExists else QueryRefused)
    ensures r.Success? ==>
      var s := r.value;
      && Valid(s)
      && AddQuery(st.engine, id, EngineQueryText(raw), outputs, accepted) == Success(s.engine)
      && s.engine.queries[id] == EngineQueryText(raw)
      && (name in st.engine.definitions ==>
            var before := GetStatus(st.registry, st.engine, name).value;
            && name in s.registry
            && s.registry[name].addedQueries == before.addedQueries + [Query(id, raw)]
            && s.registry[name].userDefined == before.userDefined
            && s.registry[name].actionsEnabled == before.actionsEnabled)
      && (forall n :: n in s.engine.definitions ==> n in s.registry)
      && (forall n :: n in s.registry && n !in st.registry && n != name ==> s.registry[n] == Inferred)
      && (forall n :: n in st.registry && n != name ==> n in s.registry && s.registry[n] == st.registry[n])
      && s.log == st.log && s.sinks == st.sinks
  {
    match AddQuery(st.engine, id, EngineQueryText(raw), outputs, accepted)
    case Failure(err) => Failure(EngineRefused(err))
    case Success(e) =>
      var reg := AddQueryToStatus(st.registry, e, id, raw, name);
      var reg' := MaterializeAll(reg, e, e.order);
      Success(State(e, reg', st.log, st.sinks))
  }

  /** The names of registry entries whose stream the engine no longer defines. */
  function Orphans(reg: Registry, e: Engine): (r: set<string>)
    ensures forall n :: n in r <==> n in reg && n !in e.definitions
  {
    set n | n in reg && n !in e.definitions
  }

  /**
   * `removeQueryFromExistingStream`: detaches the query with the given raw text from the
   * stream's status, removes it from the engine (which drops the streams in `dropped`),
   * then sweeps the registry: every entry whose stream is gone is announced on the listen
   * topic and removed. Fails, changing nothing, when the stream has no such query.
   */
  function RemoveQueryFromExistingStream(st: State, name: string, raw: string, dropped: set<string>): (r: Result<State, OpError>)
    requires Valid(st)
    ensures r.Success? ==> Valid(r.value)
    ensures r.Failure? <==> RemoveQueryInStatus(st.registry, st.engine, raw, name).Failure?
    ensures r.Success? ==>
      var (reg, id) := RemoveQueryInStatus(st.registry, st.engine, raw, name).value;
      var e := RemoveQuery(st.engine, id, dropped);
      && r.value.engine == e
      && r.value.log == st.log.Publish(INTERNAL_LISTEN_TOPIC, multiset(Orphans(reg, e)))
      && (forall n :: n in r.value.registry <==> n in reg && n in e.definitions)
      && (forall n :: n in r.value.registry ==> r.value.registry[n] == reg[n])
    ensures r.Success? ==> r.value.sinks == st.sinks
  {
    match RemoveQueryInStatus(st.registry, st.engine, raw, name)
    case Failure(err) => Failure(StatusFailed(err))
    case Success((reg, id)) =>
      var e := RemoveQuery(st.engine, id, dropped);
      var orphans := Orphans(reg, e);
      var log := st.log.Publish(INTERNAL_LISTEN_TOPIC, multiset(orphans));
      Success(State(e, reg - orphans, log, st.sinks))
  }

  /**
   * After a query is removed: every registry entry still has an engine definition, every
   * entry removed was announced on the listen topic, and entries of streams that still
   * exist are exactly as before (apart from the detached query).
   */
  lemma RemoveQuerySweep(st: State, name: string, raw: string, dropped: set<string>)
    requires Valid(st)
    requires RemoveQueryFromExistingStream(st, name, raw, dropped).Success?
    ensures var r := RemoveQueryFromExistingStream(st, name, raw, dropped).value;
      && (forall n :: n in r.registry ==> n in r.engine.definitions)
      && (forall n :: n in st.registry && n !in r.registry ==>
            r.log.Published(INTERNAL_LISTEN_TOPIC)[n] > st.log.Published(INTERNAL_LISTEN_TOPIC)[n])
      && (forall n :: n in st.registry && n != name && n in r.engine.definitions ==>
            n in r.registry && r.registry[n] == st.registry[n])
      && (forall t :: t != INTERNAL_LISTEN_TOPIC ==> r.log.Published(t) == st.log.Published(t))
  {
    var r := RemoveQueryFromExistingStream(st, name, raw, dropped).value;
    var (reg, id) := RemoveQueryInStatus(st.registry, st.engine, raw, name).value;
    var e := RemoveQuery(st.engine, id, dropped);
    forall n | n in st.registry && n !in r.registry
      ensures r.log.Published(INTERNAL_LISTEN_TOPIC)[n] > st.log.Published(INTERNAL_LISTEN_TOPIC)[n]
    {
      assert n in reg;
      assert n in Orphans(reg, e);
    }
  }

  // ---------------------------------------------------------------- list

  /** One entry of a stream listing. */
  datatype StreamInfo = StreamInfo(
    streamName: string, columns: seq<Attribute>, queries: seq<Query>,
    userDefined: bool, activeActions: set<StreamAction>)

  /**
   * How the listing describes a defined stream: its columns, and whatever status
   * `getStreamStatus` reports (a stream without an entry reports a fresh non-user-defined one).
   */
  function Describe(reg: Registry, e: Engine, name: string): (r: StreamInfo)
    requires name in e.definitions
    ensures r.streamName == name && r.columns == e.definitions[name]
    ensures name !in reg ==> !r.userDefined && r.queries == [] && r.activeActions == {}
    ensures name in reg ==>
      r.userDefined == reg[name].userDefined && r.queries == reg[name].addedQueries &&
      r.activeActions == reg[name].actionsEnabled
  {
    var s := GetStatus(reg, e, name).value;
    StreamInfo(name, e.definitions[name], s.addedQueries, s.userDefined, s.actionsEnabled)
  }

  /** The listing loop over `ids`: describes each non-statistics stream, storing fresh statuses as it goes. */
  function ListFrom(reg: Registry, e: Engine, ids: seq<string>, statsStreams: set<string>): (r: (Registry, seq<StreamInfo>))
    requires forall n :: n in ids ==> n in e.definitions
    decreases |ids|
  {
    if |ids| == 0 then (reg, [])
    else if ids[0] in statsStreams then ListFrom(reg, e, ids[1..], statsStreams)
    else
      var info := Describe(reg, e, ids[0]);
      var (reg', rest) := ListFrom(Materialize(reg, e, ids[0]), e, ids[1..], statsStreams);
      (reg', [info] + rest)
  }

  /** The listing loop describes the listed streams exactly as `Describe` does on the initial registry. */
  lemma {:induction false} ListFromDescribes(reg: Registry, e: Engine, ids: seq<string>, statsStreams: set<string>)
    requires forall n :: n in ids ==> n in e.definitions
    ensures var (_, infos) := ListFrom(reg, e, ids, statsStreams);
      var names := Without(ids, statsStreams);
      |infos| == |names| && forall k :: 0 <= k < |infos| ==> infos[k] == Describe(reg, e, names[k])
    decreases |ids|
  {
    if |ids| > 0 {
      if ids[0] in statsStreams {
        ListFromDescribes(reg, e, ids[1..], statsStreams);
        assert Without(ids, statsStreams) == Without(ids[1..], statsStreams);
      } else {
        var reg1 := Materialize(reg, e, ids[0]);
        ListFromDescribes(reg1, e, ids[1..], statsStreams);
        forall n | n in e.definitions
          ensures Describe(reg1, e, n) == Describe(reg, e, n)
        {
          MaterializeKeepsLookups(reg, e, ids[0], n);
        }
        var names := Without(ids, statsStreams);
        var rest := Without(ids[1..], statsStreams);
        assert names == [ids[0]] + rest;
        var (_, infos) := ListFrom(reg, e, ids, statsStreams);
        var (_, restInfos) := ListFrom(reg1, e, ids[1..], statsStreams);
        assert infos == [Describe(reg, e, ids[0])] + restInfos;
        DescribesCons(reg, reg1, e, ids[0], rest, restInfos);
      }
    }
  }

  /** The listing loop leaves behind a fresh status for each listed stream that had none. */
  lemma {:induction false} ListFromRegistry(reg: Registry, e: Engine, ids: seq<string>, statsStreams: set<string>)
    requires forall n :: n in ids ==> n in e.definitions
    ensures ListFrom(reg, e, ids, statsStreams).0 == MaterializeAll(reg, e, Without(ids, statsStreams))
    decreases |ids|
  {
    if |ids| > 0 {
      var names := Without(ids, statsStreams);
      if ids[0] in statsStreams {
        ListFromRegistry(reg, e, ids[1..], statsStreams);
      } else {
        ListFromRegistry(Materialize(reg, e, ids[0]), e, ids[1..], statsStreams);
        assert names == [ids[0]] + Without(ids[1..], statsStreams);
        assert names[0] == ids[0] && names[1..] == Without(ids[1..], statsStreams);
      }
    }
  }

  /** Describing a first stream in front of a described rest describes the whole list. */
  lemma DescribesCons(reg: Registry, reg1: Registry, e: Engine, first: string, rest: seq<string>, restInfos: seq<StreamInfo>)
    requires first in e.definitions && forall n :: n in rest ==> n in e.definitions
    requires forall n :: n in e.definitions ==> Describe(reg1, e, n) == Describe(reg, e, n)
    requires |restInfos| == |rest| && forall k :: 0 <= k < |rest| ==> restInfos[k] == Describe(reg1, e, rest[k])
    ensures var names, infos := [first] + rest, [Describe(reg, e, first)] + restInfos;
      forall k :: 0 <= k < |infos| ==> infos[k] == Describe(reg, e, names[k])
  {
    var names, infos := [first] + rest, [Describe(reg, e, first)] + restInfos;
    forall k | 1 <= k < |infos|
      ensures infos[k] == Describe(reg, e, names[k])
    {
      assert infos[k] == restInfos[k - 1] && names[k] == rest[k - 1];
    }
  }

  /**
   * `listStreams`: one entry per engine stream not reserved for statistics, in engine
   * order. Looking up each status stores a fresh one for streams without an entry, so the
   * registry is returned too.
   */
  function ListStreams(st: State, statsStreams: set<string>): (r: (Registry, seq<StreamInfo>))
    requires Valid(st)
    ensures var names := Without(st.engine.order, statsStreams);
      |r.1| == |names| && forall k :: 0 <= k < |r.1| ==> r.1[k] == Describe(st.registry, st.engine, names[k])
    ensures r.0 == MaterializeAll(st.registry, st.engine, Without(st.engine.order, statsStreams))
  {
    ListFromDescribes(st.registry, st.engine, st.engine.order, statsStreams);
    ListFromRegistry(st.registry, st.engine, st.engine.order, statsStreams);
    ListFrom(st.registry, st.engine, st.engine.order, statsStreams)
  }

  // ---------------------------------------------------------------- actions

  /**
   * Starting an action: a callback for the stream is registered with the engine and
   * subscribed to the action's topic, and the action is marked enabled. Building the
   * callback needs the stream's definition, so an undefined stream fails.
   */
  function StartAction(st: State, action: StreamAction, name: string): (r: Result<State, OpError>)
    requires Valid(st)
    ensures r.Success? <==> name in st.engine.definitions
    ensures r.Success? ==>
      && r.value.sinks == st.sinks + [Sink(action, name)]
      && r.value.engine == st.engine && r.value.log == st.log
      && r.value.registry == ChangeAction(st.registry, st.engine, true, name, action)
  {
    if name !in st.engine.definitions then Failure(StreamNotDefined)
    else
      Success(st.(sinks := st.sinks + [Sink(action, name)],
                  registry := ChangeAction(st.registry, st.engine, true, name, action)))
  }

  /**
   * Stopping an action: the stream's name is published once on the action's topic, and
   * the action is marked disabled, whether or not its callbacks have stopped yet.
   */
  function StopAction(st: State, action: StreamAction, name: string): (r: State)
    requires Valid(st)
    ensures r.log == st.log.Publish(TopicOf(action), multiset{name})
    ensures r.engine == st.engine && r.sinks == st.sinks
    ensures r.registry == ChangeAction(st.registry, st.engine, false, name, action)
  {
    st.(log := st.log.Publish(TopicOf(action), multiset{name}),
        registry := ChangeAction(st.registry, st.engine, false, name, action))
  }

  /** Starting sets exactly that action enabled; the other actions and the status are kept. */
  lemma StartActionEnablesOnlyIt(st: State, action: StreamAction, name: string)
    requires Valid(st) && name in st.engine.definitions
    ensures var r := StartAction(st, action, name).value;
      var before := GetStatus(st.registry, st.engine, name).value;
      var after := GetStatus(r.registry, r.engine, name).value;
      && action in after.actionsEnabled
      && (forall a :: a != action ==> (a in after.actionsEnabled <==> a in before.actionsEnabled))
      && after.userDefined == before.userDefined && after.addedQueries == before.addedQueries
      && (forall n :: n != name ==> GetStatus(r.registry, r.engine, n) == GetStatus(st.registry, st.engine, n))
  {
  }

  /**
   * Stopping publishes the name once on the action's own topic and nowhere else, and
   * clears only that action.
   */
  lemma StopActionClearsOnlyIt(st: State, action: StreamAction, name: string)
    requires Valid(st) && name in st.engine.definitions
    ensures var r := StopAction(st, action, name);
      var before := GetStatus(st.registry, st.engine, name).value;
      var after := GetStatus(r.registry, r.engine, name).value;
      && action !in after.actionsEnabled
      && (forall a :: a != action ==> (a in after.actionsEnabled <==> a in before.actionsEnabled))
      && r.log.Published(TopicOf(action)) - st.log.Published(TopicOf(action)) == multiset{name}
      && (forall t :: t != TopicOf(action) ==> r.log.Published(t) == st.log.Published(t))
  {
  }

  /** Stopping then starting an action leaves it enabled again with a fresh callback. */
  lemma StopThenStartReenables(st: State, action: StreamAction, name: string)
    requires Valid(st) && name in st.engine.definitions
    ensures var s1 := StopAction(st, action, name);
      var s2 := StartAction(s1, action, name);
      && s2.Success?
      && action in GetStatus(s2.value.registry, s2.value.engine, name).value.actionsEnabled
      && s2.value.sinks == st.sinks + [Sink(action, name)]
  {
  }

  /**
   * `after` is `before` with at most the flag of `action` on the defined stream `name`
   * changed: that stream's other flags, its queries and its user-defined mark are kept, and
   * every other stream reads back exactly as before.
   */
  ghost predicate OnlyActionFlagChanged(before: State, after: State, action: StreamAction, name: string)
    requires name in before.engine.definitions && after.engine == before.engine
  {
    var b := GetStatus(before.registry, before.engine, name).value;
    var a := GetStatus(after.registry, after.engine, name).value;
    && a.userDefined == b.userDefined && a.addedQueries == b.addedQueries
    && (forall x :: x != action ==> (x in a.actionsEnabled <==> x in b.actionsEnabled))
    && (forall n :: n != name ==> GetStatus(after.registry, after.engine, n) == GetStatus(before.registry, before.engine, n))
  }

  /** Start listen: a bus callback on the INTERNAL_LISTEN_TOPIC topic, and LISTEN enabled. */
  function ListenStream(st: State, name: string): (r: Result<State, OpError>)
    requires Valid(st)
    ensures r.Success? <==> name in st.engine.definitions
    ensures r.Success? ==>
      && r.value.sinks == st.sinks + [Sink(LISTEN, name)]
      && r.value.sinks[|st.sinks|].Topic() == INTERNAL_LISTEN_TOPIC
      && r.value.engine == st.engine
      && r.value.log == st.log
      && LISTEN in GetStatus(r.value.registry, r.value.engine, name).value.actionsEnabled
      && OnlyActionFlagChanged(st, r.value, LISTEN, name)
  {
    if name in st.engine.definitions then StartActionEnablesOnlyIt(st, LISTEN, name); StartAction(st, LISTEN, name)
    else StartAction(st, LISTEN, name)
  }

  /** Stop listen: the name is published once on the INTERNAL_LISTEN_TOPIC topic only, and LISTEN is disabled. */
  function StopListenStream(st: State, name: string): (r: State)
    requires Valid(st)
    ensures r.engine == st.engine
    ensures r.sinks == st.sinks
    ensures r.log.Published(INTERNAL_LISTEN_TOPIC) == st.log.Published(INTERNAL_LISTEN_TOPIC) + multiset{name}
    ensures forall t :: t != INTERNAL_LISTEN_TOPIC ==> r.log.Published(t) == st.log.Published(t)
    ensures name in st.engine.definitions ==>
      LISTEN !in GetStatus(r.registry, r.engine, name).value.actionsEnabled && OnlyActionFlagChanged(st, r, LISTEN, name)
    ensures name !in st.engine.definitions ==> r.registry == st.registry
  {
    if name in st.engine.definitions then StopActionClearsOnlyIt(st, LISTEN, name); StopAction(st, LISTEN, name)
    else StopAction(st, LISTEN, name)
  }

  /**
   * Start save to Cassandra: a Cassandra callback on the INTERNAL_SAVE2CASSANDRA_TOPIC
   * topic, and SAVE_TO_CASSANDRA enabled. Building the callback issues the CREATE TABLE
   * for the stream, so a column type with no Cassandra counterpart makes the start fail
   * before anything is subscribed, registered or enabled.
   */
  function Save2cassandraStream(st: State, name: string): (r: Result<State, OpError>)
    requires Valid(st)
    ensures r.Success? <==>
      name in st.engine.definitions && forall a :: a in st.engine.definitions[name] ==> a.typ != OBJECT
    ensures name in st.engine.definitions && r.Failure? ==> r == Failure(UnsupportedColumn(Cql.UnsupportedColumnType))
    ensures r.Success? ==>
      && r.value.sinks == st.sinks + [Sink(SAVE_TO_CASSANDRA, name)]
      && r.value.sinks[|st.sinks|].Topic() == INTERNAL_SAVE2CASSANDRA_TOPIC
      && r.value.engine == st.engine
      && r.value.log == st.log
      && SAVE_TO_CASSANDRA in GetStatus(r.value.registry, r.value.engine, name).value.actionsEnabled
      && OnlyActionFlagChanged(st, r.value, SAVE_TO_CASSANDRA, name)
  {
    if name !in st.engine.definitions then StartAction(st, SAVE_TO_CASSANDRA, name)
    else
      match Cql.FieldsAndTypes(st.engine.definitions[name])
      case Failure(message) => Failure(UnsupportedColumn(message))
      case Success(_) => StartActionEnablesOnlyIt(st, SAVE_TO_CASSANDRA, name); StartAction(st, SAVE_TO_CASSANDRA, name)
  }

  /** A successful start has a field map, and so a table column, for every column of the stream. */
  lemma Save2cassandraStreamHasEveryField(st: State, name: string)
    requires Valid(st)
    requires Save2cassandraStream(st, name).Success?
    ensures var attrs := st.engine.definitions[name];
      && Cql.FieldsAndTypes(attrs).Success?
      && forall a :: a in attrs ==> a.name in Cql.FieldsAndTypes(attrs).value
  {
    var attrs := st.engine.definitions[name];
    Cql.FieldsAndTypesKeys(attrs);
    forall a | a in attrs
      ensures a.name in Names(attrs)
    {
      var i :| 0 <= i < |attrs| && attrs[i] == a;
      assert Names(attrs)[i] == a.name;
    }
  }

  /** Stop save to Cassandra: the name is published once on the INTERNAL_SAVE2CASSANDRA_TOPIC topic only, and SAVE_TO_CASSANDRA is disabled. */
  function StopSave2cassandraStream(st: State, name: string): (r: State)
    requires Valid(st)
    ensures r.engine == st.engine
    ensures r.sinks == st.sinks
    ensures r.log.Published(INTERNAL_SAVE2CASSANDRA_TOPIC) == st.log.Published(INTERNAL_SAVE2CASSANDRA_TOPIC) + multiset{name}
    ensures forall t :: t != INTERNAL_SAVE2CASSANDRA_TOPIC ==> r.log.Published(t) == st.log.Published(t)
    ensures name in st.engine.definitions ==>
      SAVE_TO_CASSANDRA !in GetStatus(r.registry, r.engine, name).value.actionsEnabled && OnlyActionFlagChanged(st, r, SAVE_TO_CASSANDRA, name)
    ensures name !in st.engine.definitions ==> r.registry == st.registry
  {
    if name in st.engine.definitions then StopActionClearsOnlyIt(st, SAVE_TO_CASSANDRA, name); StopAction(st, SAVE_TO_CASSANDRA, name)
    else StopAction(st, SAVE_TO_CASSANDRA, name)
  }

  /** Start index: an indexer callback on the INTERNAL_INDEXER_TOPIC topic, and INDEXED enabled. */
  function StreamToIndexer(st: State, name: string): (r: Result<State, OpError>)
    requires Valid(st)
    ensures r.Success? <==> name in st.engine.definitions
    ensures r.Success? ==>
      && r.value.sinks == st.sinks + [Sink(INDEXED, name)]
      && r.value.sinks[|st.sinks|].Topic() == INTERNAL_INDEXER_TOPIC
      && r.value.engine == st.engine
      && r.value.log == st.log
      && INDEXED in GetStatus(r.value.registry, r.value.engine, name).value.actionsEnabled
      && OnlyActionFlagChanged(st, r.value, INDEXED, name)
  {
    if name in st.engine.definitions then StartActionEnablesOnlyIt(st, INDEXED, name); StartAction(st, INDEXED, name)
    else StartAction(st, INDEXED, name)
  }

  /** Stop index: the name is published once on the INTERNAL_INDEXER_TOPIC topic only, and INDEXED is disabled. */
  function StopStreamToIndexer(st: State, name: string): (r: State)
    requires Valid(st)
    ensures r.engine == st.engine
    ensures r.sinks == st.sinks
    ensures r.log.Published(INTERNAL_INDEXER_TOPIC) == st.log.Published(INTERNAL_INDEXER_TOPIC) + multiset{name}
    ensures forall t :: t != INTERNAL_INDEXER_TOPIC ==> r.log.Published(t) == st.log.Published(t)
    ensures name in st.engine.definitions ==>
      INDEXED !in GetStatus(r.registry, r.engine, name).value.actionsEnabled && OnlyActionFlagChanged(st, r, INDEXED, name)
    ensures name !in st.engine.definitions ==> r.registry == st.registry
  {
    if name in st.engine.definitions then StopActionClearsOnlyIt(st, INDEXED, name); StopAction(st, INDEXED, name)
    else StopAction(st, INDEXED, name)
  }

  /** Start save to Mongo: a Mongo callback on the INTERNAL_SAVE2MONGO_TOPIC topic, and SAVE_TO_MONGO enabled. */
  function Save2mongoStream(st: State, name: string): (r: Result<State, OpError>)
    requires Valid(st)
    ensures r.Success? <==> name in st.engine.definitions
    ensures r.Success? ==>
      && r.value.sinks == st.sinks + [Sink(SAVE_TO_MONGO, name)]
      && r.value.sinks[|st.sinks|].Topic() == INTERNAL_SAVE2MONGO_TOPIC
      && r.value.engine == st.engine
      && r.value.log == st.log
      && SAVE_TO_MONGO in GetStatus(r.value.registry, r.value.engine, name).value.actionsEnabled
      && OnlyActionFlagChanged(st, r.value, SAVE_TO_MONGO, name)
  {
    if name in st.engine.definitions then StartActionEnablesOnlyIt(st, SAVE_TO_MONGO, name); StartAction(st, SAVE_TO_MONGO, name)
    else StartAction(st, SAVE_TO_MONGO, name)
  }

  /** Stop save to Mongo: the name is published once on the INTERNAL_SAVE2MONGO_TOPIC topic only, and SAVE_TO_MONGO is disabled. */
  function StopSave2mongoStream(st: State, name: string): (r: State)
    requires Valid(st)
    ensures r.engine == st.engine
    ensures r.sinks == st.sinks
    ensures r.log.Published(INTERNAL_SAVE2MONGO_TOPIC) == st.log.Published(INTERNAL_SAVE2MONGO_TOPIC) + multiset{name}
    ensures forall t :: t != INTERNAL_SAVE2MONGO_TOPIC ==> r.log.Published(t) == st.log.Published(t)
    ensures name in st.engine.definitions ==>
      SAVE_TO_MONGO !in GetStatus(r.registry, r.engine, name).value.actionsEnabled && OnlyActionFlagChanged(st, r, SAVE_TO_MONGO, name)
    ensures name !in st.engine.definitions ==> r.registry == st.registry
  {
    if name in st.engine.definitions then StopActionClearsOnlyIt(st, SAVE_TO_MONGO, name); StopAction(st, SAVE_TO_MONGO, name)
    else StopAction(st, SAVE_TO_MONGO, name)
  }
}
