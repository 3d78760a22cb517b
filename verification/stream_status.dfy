/**
 * The shared stream registry: stream name to status. Its operations are the interface
 * the stream operations use; the registry lives in a distributed map, modelled here as
 * a plain immutable map updated one call at a time.
 */
module StreamStatus {
  import opened Wrappers
  import opened Siddhi

  /** The kinds of sink a stream can have enabled. */
  datatype StreamAction = LISTEN | SAVE_TO_CASSANDRA | SAVE_TO_MONGO | INDEXED

  /** A query attached to a stream: the engine's id and the raw text the client sent. */
  datatype Query = Query(id: string, raw: string)

  /**
   * The status of one stream: whether a client created it, its attached queries in
   * iteration order, and its enabled sink actions.
   */
  datatype Status = Status(userDefined: bool, addedQueries: seq<Query>, actionsEnabled: set<StreamAction>)

  type Registry = map<string, Status>

  /** The status a stream gets when it is first seen only as a query's output. */
  const Inferred: Status := Status(false, [], {})

  /** The status a client-created stream starts with. */
  const Created: Status := Status(true, [], {})

  /**
   * `getStreamStatus`: nothing when the engine does not define the stream; otherwise its
   * registry entry, or a fresh non-user-defined status when it has none yet.
   */
  function GetStatus(reg: Registry, e: Engine, name: string): (r: Option<Status>)
    ensures r.Some? <==> name in e.definitions
    ensures r.Some? && name !in reg ==> r.value == Inferred
    ensures r.Some? && name in reg ==> r.value == reg[name]
  {
    if name !in e.definitions then None
    else if name in reg then Some(reg[name])
    else Some(Inferred)
  }

  /** The registry write `getStreamStatus` performs: it stores the fresh status it hands out. */
  function Materialize(reg: Registry, e: Engine, name: string): (r: Registry)
    ensures r.Keys == if name in e.definitions then reg.Keys + {name} else reg.Keys
    ensures forall n :: n in reg ==> r[n] == reg[n]
    ensures name in e.definitions && name !in reg ==> r[name] == Inferred
  {
    if name in e.definitions && name !in reg then reg[name := Inferred] else reg
  }

  /** Storing a fresh status never changes what any later lookup sees. */
  lemma MaterializeKeepsLookups(reg: Registry, e: Engine, name: string, other: string)
    ensures GetStatus(Materialize(reg, e, name), e, other) == GetStatus(reg, e, other)
  {
  }

  /** `createStreamStatus`: a client-created status, unless the stream already has one. */
  function CreateStatus(reg: Registry, name: string): (r: Registry)
    ensures r.Keys == reg.Keys + {name}
    ensures name !in reg ==> r[name] == Created
    ensures forall n :: n in reg ==> r[n] == reg[n]
  {
    if name in reg then reg else reg[name := Created]
  }

  /** `addQueryToStreamStatus`: records the query under the stream, if the stream is defined. */
  function AddQueryToStatus(reg: Registry, e: Engine, id: string, raw: string, name: string): (r: Registry)
    ensures forall n :: n != name ==> (n in r <==> n in reg) && (n in reg ==> r[n] == reg[n])
    ensures name in e.definitions ==>
      name in r && GetStatus(reg, e, name).Some? &&
      r[name] == GetStatus(reg, e, name).value.(addedQueries := GetStatus(reg, e, name).value.addedQueries + [Query(id, raw)])
    ensures name !in e.definitions ==> r == reg
  {
    match GetStatus(reg, e, name)
    case None => reg
    case Some(s) => reg[name := s.(addedQueries := s.addedQueries + [Query(id, raw)])]
  }

  /** The index of the first attached query whose raw text is `raw`. */
  function FindQuery(qs: seq<Query>, raw: string): (r: Option<nat>)
    ensures r.Some? ==> r.value < |qs| && qs[r.value].raw == raw
    ensures r.Some? ==> forall k :: 0 <= k < r.value ==> qs[k].raw != raw
    ensures r.None? ==> forall k :: 0 <= k < |qs| ==> qs[k].raw != raw
  {
    if |qs| == 0 then None
    else if qs[0].raw == raw then Some(0)
    else match FindQuery(qs[1..], raw)
      case None => None
      case Some(k) => Some(k + 1)
  }

  datatype StatusError = QueryNotFound

  /**
   * `removeQueryInStreamStatus`: detaches the first query of the stream with raw text
   * `raw` and hands back its id; fails when the stream has no such query.
   */
  function RemoveQueryInStatus(reg: Registry, e: Engine, raw: string, name: string): (r: Result<(Registry, string), StatusError>)
    ensures r.Failure? <==>
      (GetStatus(reg, e, name).None? || FindQuery(GetStatus(reg, e, name).value.addedQueries, raw).None?)
    ensures r.Success? ==>
      var s := GetStatus(reg, e, name).value;
      var k := FindQuery(s.addedQueries, raw).value;
      && r.value.1 == s.addedQueries[k].id
      && r.value.0 == reg[name := s.(addedQueries := s.addedQueries[..k] + s.addedQueries[k + 1..])]
  {
    match GetStatus(reg, e, name)
    case None => Failure(QueryNotFound)
    case Some(s) =>
      match FindQuery(s.addedQueries, raw)
      case None => Failure(QueryNotFound)
      case Some(k) =>
        Success((reg[name := s.(addedQueries := s.addedQueries[..k] + s.addedQueries[k + 1..])], s.addedQueries[k].id))
  }

  /** `changeActionStreamStatus`: turns one action on or off for a defined stream. */
  function ChangeAction(reg: Registry, e: Engine, enable: bool, name: string, action: StreamAction): (r: Registry)
    ensures forall n :: n != name ==> (n in r <==> n in reg) && (n in reg ==> r[n] == reg[n])
    ensures name !in e.definitions ==> r == reg
    ensures name in e.definitions ==>
      var s := GetStatus(reg, e, name).value;
      && name in r
      && r[name].userDefined == s.userDefined
      && r[name].addedQueries == s.addedQueries
      && (action in r[name].actionsEnabled <==> enable)
      && (forall a :: a != action ==> (a in r[name].actionsEnabled <==> a in s.actionsEnabled))
  {
    match GetStatus(reg, e, name)
    case None => reg
    case Some(s) =>
      var actions := if enable then s.actionsEnabled + {action} else s.actionsEnabled - {action};
      reg[name := s.(actionsEnabled := actions)]
  }

  /** `removeStreamStatus`: forgets the stream. */
  function RemoveStatus(reg: Registry, name: string): (r: Registry)
    ensures r.Keys == reg.Keys - {name}
    ensures forall n :: n in r ==> r[n] == reg[n]
  {
    reg - {name}
  }
}
