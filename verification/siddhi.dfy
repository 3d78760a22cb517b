/**
 * The event-processing engine as the control plane sees it: a set of stream
 * definitions kept in definition order, and the queries registered against them.
 * Query semantics are not modelled; where the engine itself decides something
 * (a fresh query id, the output streams a query brings into being, the streams it
 * silently drops when a query goes away) the caller supplies it.
 */
module Siddhi {
  import opened Wrappers

  /** The attribute types of a stream column; `OBJECT` stands for every remaining engine type. */
  datatype AttrType = STRING | INT | LONG | FLOAT | DOUBLE | BOOL | OBJECT

  datatype Attribute = Attribute(name: string, typ: AttrType)

  datatype StreamDefinition = StreamDefinition(id: string, attributes: seq<Attribute>)

  /** The attribute names, in attribute order. */
  function Names(attrs: seq<Attribute>): (r: seq<string>)
    ensures |r| == |attrs|
    ensures forall i :: 0 <= i < |attrs| ==> r[i] == attrs[i].name
  {
    if |attrs| == 0 then [] else [attrs[0].name] + Names(attrs[1..])
  }

  lemma NamesAppend(a: seq<Attribute>, b: seq<Attribute>)
    ensures Names(a + b) == Names(a) + Names(b)
  {
    assert forall i :: 0 <= i < |a + b| ==> Names(a + b)[i] == (Names(a) + Names(b))[i];
  }

  /** No two attributes share a name (the engine refuses a duplicate attribute). */
  predicate DistinctNames(attrs: seq<Attribute>) {
    forall i, j :: 0 <= i < j < |attrs| ==> attrs[i].name != attrs[j].name
  }

  /** The position of the first attribute with the given name. */
  function Position(attrs: seq<Attribute>, name: string): (r: nat)
    requires name in Names(attrs)
    ensures r < |attrs| && attrs[r].name == name
    ensures forall j :: 0 <= j < r ==> attrs[j].name != name
  {
    if attrs[0].name == name then 0
    else
      assert Names(attrs) == [attrs[0].name] + Names(attrs[1..]);
      1 + Position(attrs[1..], name)
  }

  /** In a definition without duplicate names, each attribute sits at its own position. */
  lemma PositionOfDistinct(attrs: seq<Attribute>, i: int)
    requires DistinctNames(attrs) && 0 <= i < |attrs|
    ensures attrs[i].name in Names(attrs)
    ensures Position(attrs, attrs[i].name) == i
  {
  }

  /**
   * The engine's refusals: a conflicting definition, a repeated attribute, or a query it
   * cannot take (text that does not parse, or a source stream that is not defined).
   */
  datatype EngineError = DifferentDefinitionAlreadyExists | DuplicateAttribute | QueryRefused

  /**
   * The engine's live state: defined streams in definition order, each one's attribute
   * list, and the registered queries by id (the text the engine was given).
   */
  datatype Engine = Engine(order: seq<string>, definitions: map<string, seq<Attribute>>, queries: map<string, string>)

  /** Each defined stream appears once in the definition order, and nothing else does. */
  predicate DistinctIds(ids: seq<string>) {
    forall i, j :: 0 <= i < j < |ids| ==> ids[i] != ids[j]
  }

  predicate Valid(e: Engine) {
    && DistinctIds(e.order)
    && (forall n :: n in e.order ==> n in e.definitions)
    && (forall n :: n in e.definitions ==> n in e.order)
  }

  /** `getStreamDefinition(name)`: the definition, or nothing when the stream is not defined. */
  function GetDefinition(e: Engine, name: string): (r: Option<StreamDefinition>)
    ensures r.Some? <==> name in e.definitions
    ensures r.Some? ==> r.value.id == name && r.value.attributes == e.definitions[name]
  {
    if name in e.definitions then Some(StreamDefinition(name, e.definitions[name])) else None
  }

  /**
   * `defineStream`: a new name is appended to the definition order; redefining a name
   * with the same attributes changes nothing and with different ones is refused.
   */
  function DefineStream(e: Engine, def: StreamDefinition): (r: Result<Engine, EngineError>)
    requires Valid(e)
    ensures r.Success? ==> Valid(r.value)
    ensures r.Success? <==>
      (if def.id in e.definitions then e.definitions[def.id] == def.attributes else DistinctNames(def.attributes))
    ensures r.Success? ==> GetDefinition(r.value, def.id) == Some(def)
    ensures r.Success? ==> r.value.queries == e.queries
    ensures r.Success? ==> forall n :: n != def.id ==> GetDefinition(r.value, n) == GetDefinition(e, n)
    ensures r.Success? && def.id !in e.definitions ==> r.value.order == e.order + [def.id]
    ensures r.Success? && def.id in e.definitions ==> r.value == e
  {
    if def.id in e.definitions then
      if e.definitions[def.id] == def.attributes then Success(e) else Failure(DifferentDefinitionAlreadyExists)
    else if !DistinctNames(def.attributes) then Failure(DuplicateAttribute)
    else Success(Engine(e.order + [def.id], e.definitions[def.id := def.attributes], e.queries))
  }

  /** The ids of `ids` that are not in `gone`, in their original order. */
  function Without(ids: seq<string>, gone: set<string>): (r: seq<string>)
    ensures forall n :: n in r <==> n in ids && n !in gone
    ensures DistinctIds(ids) ==> DistinctIds(r)
  {
    if |ids| == 0 then []
    else if ids[0] in gone then Without(ids[1..], gone)
    else [ids[0]] + Without(ids[1..], gone)
  }

  /** Removing ids keeps the survivors in their original order: it distributes over concatenation. */
  lemma {:induction false} WithoutAppend(a: seq<string>, b: seq<string>, gone: set<string>)
    ensures Without(a + b, gone) == Without(a, gone) + Without(b, gone)
    decreases |a|
  {
    if |a| == 0 {
      assert a + b == b;
    } else {
      assert (a + b)[0] == a[0] && (a + b)[1..] == a[1..] + b;
      WithoutAppend(a[1..], b, gone);
    }
  }

  /** `removeStream(name)`: the stream's definition is gone; nothing else changes. */
  function RemoveStream(e: Engine, name: string): (r: Engine)
    requires Valid(e)
    ensures Valid(r)
    ensures GetDefinition(r, name) == None
    ensures forall n :: n != name ==> GetDefinition(r, n) == GetDefinition(e, n)
    ensures r.queries == e.queries
  {
    Engine(Without(e.order, {name}), e.definitions - {name}, e.queries)
  }

  /**
   * The output streams of a query are compatible with the engine: each one already
   * defined has the same attributes, and outputs that share a name share attributes.
   */
  predicate OutputsAgree(defs: map<string, seq<Attribute>>, outputs: seq<StreamDefinition>) {
    && (forall k :: 0 <= k < |outputs| && outputs[k].id in defs ==> defs[outputs[k].id] == outputs[k].attributes)
    && (forall j, k :: 0 <= j < k < |outputs| && outputs[j].id == outputs[k].id ==>
          outputs[j].attributes == outputs[k].attributes)
  }

  /**
   * Defines, in order, each output stream whose name is not yet defined; an output
   * already defined with other attributes is refused, as `defineStream` refuses it.
   */
  function DefineOutputs(e: Engine, outputs: seq<StreamDefinition>): (r: Result<Engine, EngineError>)
    requires Valid(e)
    ensures r.Success? <==> OutputsAgree(e.definitions, outputs)
    ensures r.Failure? ==> r.error == DifferentDefinitionAlreadyExists
    ensures r.Success? ==> Valid(r.value) && r.value.queries == e.queries
    ensures r.Success? ==> forall n :: n in e.definitions ==> n in r.value.definitions && r.value.definitions[n] == e.definitions[n]
    ensures r.Success? ==> forall k :: 0 <= k < |outputs| ==>
      outputs[k].id in r.value.definitions && r.value.definitions[outputs[k].id] == outputs[k].attributes
    ensures r.Success? ==> forall n :: n in r.value.definitions ==>
      n in e.definitions || exists k :: 0 <= k < |outputs| && outputs[k].id == n
    decreases |outputs|
  {
    if |outputs| == 0 then Success(e)
    else
      var out := outputs[0];
      if out.id in e.definitions && e.definitions[out.id] != out.attributes then
        Failure(DifferentDefinitionAlreadyExists)
      else
        var next :=
          if out.id in e.definitions then e
          else Engine(e.order + [out.id], e.definitions[out.id := out.attributes], e.queries);
        var r := DefineOutputs(next, outputs[1..]);
        assert forall k :: 1 <= k < |outputs| ==> outputs[1..][k - 1] == outputs[k];
        OutputsAgreeStep(e.definitions, next.definitions, outputs);
        r
  }

  /** Agreement of all outputs is agreement of the first plus agreement of the rest once it is defined. */
  lemma OutputsAgreeStep(defs: map<string, seq<Attribute>>, next: map<string, seq<Attribute>>, outputs: seq<StreamDefinition>)
    requires |outputs| > 0
    requires outputs[0].id in defs ==> defs[outputs[0].id] == outputs[0].attributes
    requires next == defs[outputs[0].id := outputs[0].attributes]
    ensures OutputsAgree(defs, outputs) <==> OutputsAgree(next, outputs[1..])
  {
    var rest := outputs[1..];
    assert forall k :: 1 <= k < |outputs| ==> rest[k - 1] == outputs[k];
    if OutputsAgree(next, rest) {
      forall j, k | 0 <= j < k < |outputs| && outputs[j].id == outputs[k].id
        ensures outputs[j].attributes == outputs[k].attributes
      {
        if j == 0 {
          assert rest[k - 1].id in next;
        } else {
          assert rest[j - 1].id == rest[k - 1].id;
        }
      }
      forall k | 0 <= k < |outputs| && outputs[k].id in defs
        ensures defs[outputs[k].id] == outputs[k].attributes
      {
        if k > 0 {
          assert rest[k - 1].id in next;
        }
      }
    }
    if OutputsAgree(defs, outputs) {
      forall k | 0 <= k < |rest| && rest[k].id in next
        ensures next[rest[k].id] == rest[k].attributes
      {
        assert rest[k] == outputs[k + 1];
        if rest[k].id == outputs[0].id {
          assert outputs[0].attributes == outputs[k + 1].attributes;
        }
      }
      forall j, k | 0 <= j < k < |rest| && rest[j].id == rest[k].id
        ensures rest[j].attributes == rest[k].attributes
      {
        assert rest[j] == outputs[j + 1] && rest[k] == outputs[k + 1];
      }
    }
  }

  /**
   * `addQuery(text)`: the query is registered under the engine-chosen id `id`, and the
   * streams the query outputs to (`outputs`, as the engine infers them) are defined when
   * they are new. `accepted` is the engine's verdict on the text itself: whether it parses
   * and every stream it reads from is defined. A refused text, or an output that clashes
   * with an existing definition, makes the engine throw, and nothing is registered.
   */
  function AddQuery(e: Engine, id: string, text: string, outputs: seq<StreamDefinition>, accepted: bool): (r: Result<Engine, EngineError>)
    requires Valid(e)
    requires id !in e.queries
    ensures r.Success? <==> accepted && OutputsAgree(e.definitions, outputs)
    ensures r.Failure? ==> r.error == if accepted then DifferentDefinitionAlreadyExists else QueryRefused
    ensures r.Success? ==> Valid(r.value)
    ensures r.Success? ==> r.value.queries == e.queries[id := text]
    ensures r.Success? ==> forall n :: n in e.definitions ==> n in r.value.definitions && r.value.definitions[n] == e.definitions[n]
    ensures r.Success? ==> forall k :: 0 <= k < |outputs| ==> outputs[k].id in r.value.definitions
  {
    if !accepted then Failure(QueryRefused)
    else DefineOutputs(Engine(e.order, e.definitions, e.queries[id := text]), outputs)
  }

  /**
   * `removeQuery(id)`: the query is gone, and so are the streams in `dropped`, the ones
   * the engine removes because no query feeds them any more.
   */
  function RemoveQuery(e: Engine, id: string, dropped: set<string>): (r: Engine)
    requires Valid(e)
    ensures Valid(r)
    ensures r.queries == e.queries - {id}
    ensures forall n :: n in r.definitions <==> n in e.definitions && n !in dropped
    ensures forall n :: n in r.definitions ==> r.definitions[n] == e.definitions[n]
  {
    Engine(Without(e.order, dropped), e.definitions - dropped, e.queries - {id})
  }
}
