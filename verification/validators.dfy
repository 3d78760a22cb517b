/**
 * Request validators: each reads the request and the engine (and, for some, the
 * registry) and either passes or fails with a reply code and a message. They are pure
 * functions, so validating can never change the engine or the registry.
 */
module Validators {
  import opened Wrappers
  import opened Siddhi
  import opened StreamStatus
  import ReplyCodes
  import Text

  /** The request fields validators read; a `None` stream name is a `null` one. */
  datatype Request = Request(streamName: Option<string>, operation: string)

  datatype Verdict = Pass | Fail(code: int, message: string)

  /** How `String.format` renders a possibly-null stream name. */
  function NameText(name: Option<string>): string {
    match name
    case None => "null"
    case Some(n) => n
  }

  // ---------------------------------------------------------------- StreamExistsValidation

  const StreamAlreadyExistsPrefix: string := "Stream "
  const StreamAlreadyExistsSuffix: string := " already exists"

  /** "Stream %s already exists" with the stream name filled in. */
  function StreamAlreadyExistsMessage(name: string): string {
    StreamAlreadyExistsPrefix + name + StreamAlreadyExistsSuffix
  }

  /**
   * Guards stream creation: a non-empty name that the engine already defines fails with
   * "stream already exists"; a null or empty name, or an undefined one, passes.
   */
  function StreamExistsValidation(req: Request, e: Engine): (r: Verdict)
    ensures r == Pass <==>
      req.streamName.None? || req.streamName.value == "" || req.streamName.value !in e.definitions
    ensures r.Fail? ==>
      r.code == ReplyCodes.KO_STREAM_ALREADY_EXISTS && r.message == StreamAlreadyExistsMessage(req.streamName.value)
  {
    match req.streamName
    case None => Pass
    case Some(name) =>
      if name != "" && GetDefinition(e, name).Some? then
        Fail(ReplyCodes.KO_STREAM_ALREADY_EXISTS, StreamAlreadyExistsMessage(name))
      else Pass
  }

  /** The "already exists" message names its stream: the name reads back from it. */
  lemma StreamAlreadyExistsMessageReadsBack(name: string)
    ensures var m := StreamAlreadyExistsMessage(name);
      m[|StreamAlreadyExistsPrefix|..|m| - |StreamAlreadyExistsSuffix|] == name
  {
  }

  /** Distinct streams get distinct "already exists" messages. */
  lemma StreamAlreadyExistsMessageInjective(a: string, b: string)
    ensures StreamAlreadyExistsMessage(a) == StreamAlreadyExistsMessage(b) ==> a == b
  {
    StreamAlreadyExistsMessageReadsBack(a);
    StreamAlreadyExistsMessageReadsBack(b);
  }

  // ---------------------------------------------------------------- StreamAllowedValidation

  const NotAllowedPrefix: string := "Operation "
  const NotAllowedMiddle: string := " not allowed in stream "

  /** "Operation %s not allowed in stream %s" with the operation first, then the stream. */
  function OperationNotAllowedMessage(operation: string, name: string): string {
    NotAllowedPrefix + operation + NotAllowedMiddle + name
  }

  /**
   * Fails with "operation not allowed" exactly when the engine's reserved-stream rule
   * `isAllowed(stream, operation)` (not modelled; any rule may be supplied) refuses it.
   */
  function StreamAllowedValidation(req: Request, isAllowed: (Option<string>, string) -> bool): (r: Verdict)
    ensures r.Pass? <==> isAllowed(req.streamName, req.operation)
    ensures r.Fail? ==>
      && r.code == ReplyCodes.KO_STREAM_OPERATION_NOT_ALLOWED
      && r.message == OperationNotAllowedMessage(req.operation, NameText(req.streamName))
  {
    if !isAllowed(req.streamName, req.operation) then
      Fail(ReplyCodes.KO_STREAM_OPERATION_NOT_ALLOWED,
           OperationNotAllowedMessage(req.operation, NameText(req.streamName)))
    else Pass
  }

  /**
   * For an operation name without spaces, the "not allowed" message reads back to the
   * operation (first) and the stream (second).
   */
  lemma OperationNotAllowedMessageReadsBack(operation: string, name: string)
    requires ' ' !in operation
    ensures var body := OperationNotAllowedMessage(operation, name)[|NotAllowedPrefix|..];
      && Text.UpTo(body, ' ') == operation
      && body[|operation| + |NotAllowedMiddle|..] == name
  {
    var m := OperationNotAllowedMessage(operation, name);
    var body := m[|NotAllowedPrefix|..];
    assert body == operation + [' '] + (NotAllowedMiddle[1..] + name);
    Text.UpToOfTerminated(operation, ' ', NotAllowedMiddle[1..] + name);
  }

  /** Distinct (operation, stream) pairs without spaces in the operation get distinct messages. */
  lemma OperationNotAllowedMessageInjective(op1: string, name1: string, op2: string, name2: string)
    requires ' ' !in op1 && ' ' !in op2
    ensures OperationNotAllowedMessage(op1, name1) == OperationNotAllowedMessage(op2, name2) ==>
      op1 == op2 && name1 == name2
  {
    OperationNotAllowedMessageReadsBack(op1, name1);
    OperationNotAllowedMessageReadsBack(op2, name2);
  }

  // ---------------------------------------------------------------- validators used by the sink functions

  /**
   * The stream must be defined (the validator's own message is not part of this model;
   * the reply code's text stands in for it).
   */
  function StreamNotExistsValidation(req: Request, e: Engine): (r: Verdict)
    ensures r.Pass? <==> req.streamName.Some? && req.streamName.value in e.definitions
    ensures r.Fail? ==> r.code == ReplyCodes.KO_STREAM_DOES_NOT_EXIST
  {
    if req.streamName.Some? && req.streamName.value in e.definitions then Pass
    else Fail(ReplyCodes.KO_STREAM_DOES_NOT_EXIST, ReplyCodes.ReadableError(ReplyCodes.KO_STREAM_DOES_NOT_EXIST))
  }

  /**
   * The action must not already be enabled on the stream; fails with the supplied code
   * (its message is not part of this model; the code's text stands in for it).
   */
  function ActionEnabledValidation(req: Request, reg: Registry, e: Engine, action: StreamAction, code: int): (r: Verdict)
    ensures r.Fail? <==>
      req.streamName.Some? && GetStatus(reg, e, req.streamName.value).Some? &&
      action in GetStatus(reg, e, req.streamName.value).value.actionsEnabled
    ensures r.Fail? ==> r.code == code
  {
    match req.streamName
    case None => Pass
    case Some(name) =>
      match GetStatus(reg, e, name)
      case None => Pass
      case Some(s) => if action in s.actionsEnabled then Fail(code, ReplyCodes.ReadableError(code)) else Pass
  }

  /** The validators a command can be guarded by. */
  datatype Validator =
    | StreamExists
    | StreamNotExists
    | StreamAllowed
    | ActionEnabled(action: StreamAction, code: int)

  function Check(v: Validator, req: Request, reg: Registry, e: Engine, isAllowed: (Option<string>, string) -> bool): Verdict {
    match v
    case StreamExists => StreamExistsValidation(req, e)
    case StreamNotExists => StreamNotExistsValidation(req, e)
    case StreamAllowed => StreamAllowedValidation(req, isAllowed)
    case ActionEnabled(action, code) => ActionEnabledValidation(req, reg, e, action, code)
  }

  /**
   * The failures a set of validators reports. The validators of a command form an
   * unordered set, so which failure is replied is not fixed: any of these.
   */
  function Failures(vs: set<Validator>, req: Request, reg: Registry, e: Engine, isAllowed: (Option<string>, string) -> bool): (r: set<Verdict>)
    ensures r == {} <==> forall v :: v in vs ==> Check(v, req, reg, e, isAllowed) == Pass
    ensures forall f :: f in r ==> f.Fail? && exists v :: v in vs && Check(v, req, reg, e, isAllowed) == f
    ensures forall v :: v in vs && Check(v, req, reg, e, isAllowed).Fail? ==> Check(v, req, reg, e, isAllowed) in r
  {
    var r := set v | v in vs && Check(v, req, reg, e, isAllowed).Fail? :: Check(v, req, reg, e, isAllowed);
    assert forall v :: v in vs && Check(v, req, reg, e, isAllowed).Fail? ==> Check(v, req, reg, e, isAllowed) in r;
    r
  }
}
