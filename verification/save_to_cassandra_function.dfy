/**
 * The save-to-Cassandra command handler: which command names start and stop the sink,
 * which validators guard each, and what starting and stopping do.
 */
module SaveToCassandraFunction {
  import opened Wrappers
  import opened Siddhi
  import opened StreamStatus
  import opened Validators
  import opened StreamOperations
  import ReplyCodes

  /** The action command names this handler answers to. */
  datatype ActionCommand = SAVETO_CASSANDRA | STOP_SAVETO_CASSANDRA

  function GetStartOperationCommand(): ActionCommand { SAVETO_CASSANDRA }

  function GetStopOperationCommand(): ActionCommand { STOP_SAVETO_CASSANDRA }

  /** The handler starts on one command and stops on a different one. */
  lemma CommandNames()
    ensures GetStartOperationCommand() == SAVETO_CASSANDRA
    ensures GetStopOperationCommand() == STOP_SAVETO_CASSANDRA
    ensures GetStartOperationCommand() != GetStopOperationCommand()
  {
  }

  /** Starting requires the stream to exist and the sink not to be enabled already. */
  function StartRequestsValidations(): set<Validator> {
    {ActionEnabled(SAVE_TO_CASSANDRA, ReplyCodes.KO_SAVE2CASSANDRA_STREAM_ALREADY_ENABLED), StreamNotExists}
  }

  /** Stopping only requires the stream to exist. */
  function StopRequestsValidations(): set<Validator> {
    {StreamNotExists}
  }

  /** `startAction`: enables the sink through the stream operations and reports true. */
  function StartAction(st: State, req: Request): (r: Result<(State, bool), OpError>)
    requires StreamOperations.Valid(st)
    ensures r.Success? ==> r.value.1
    ensures r.Success? <==> req.streamName.Some? && Save2cassandraStream(st, req.streamName.value).Success?
    ensures r.Success? ==> Save2cassandraStream(st, req.streamName.value) == Success(r.value.0)
  {
    match req.streamName
    case None => Failure(StreamNotDefined)
    case Some(name) =>
      match Save2cassandraStream(st, name)
      case Failure(err) => Failure(err)
      case Success(st') => Success((st', true))
  }

  /** `stopAction`: disables the sink through the stream operations and reports true. */
  function StopAction(st: State, req: Request): (r: Result<(State, bool), OpError>)
    requires StreamOperations.Valid(st)
    ensures r.Success? <==> req.streamName.Some?
    ensures r.Success? ==> r.value.1 && r.value.0 == StopSave2cassandraStream(st, req.streamName.value)
  {
    match req.streamName
    case None => Failure(StreamNotDefined)
    case Some(name) => Success((StopSave2cassandraStream(st, name), true))
  }

  /**
   * The start guards pass exactly when the stream is defined and the sink is not yet
   * enabled on it; a second start on an enabled stream is refused with code 14.
   */
  lemma StartGuards(st: State, req: Request, isAllowed: (Option<string>, string) -> bool)
    requires StreamOperations.Valid(st)
    ensures var fs := Failures(StartRequestsValidations(), req, st.registry, st.engine, isAllowed);
      && (fs == {} <==>
            req.streamName.Some? && req.streamName.value in st.engine.definitions &&
            SAVE_TO_CASSANDRA !in GetStatus(st.registry, st.engine, req.streamName.value).value.actionsEnabled)
      && (req.streamName.Some? && req.streamName.value in st.engine.definitions &&
          SAVE_TO_CASSANDRA in GetStatus(st.registry, st.engine, req.streamName.value).value.actionsEnabled ==>
            exists f :: f in fs && f.code == ReplyCodes.KO_SAVE2CASSANDRA_STREAM_ALREADY_ENABLED)
  {
    var fs := Failures(StartRequestsValidations(), req, st.registry, st.engine, isAllowed);
    var enabled := ActionEnabled(SAVE_TO_CASSANDRA, ReplyCodes.KO_SAVE2CASSANDRA_STREAM_ALREADY_ENABLED);
    assert enabled in StartRequestsValidations() && StreamNotExists in StartRequestsValidations();
    if req.streamName.Some? && req.streamName.value in st.engine.definitions &&
       SAVE_TO_CASSANDRA in GetStatus(st.registry, st.engine, req.streamName.value).value.actionsEnabled {
      var f := Check(enabled, req, st.registry, st.engine, isAllowed);
      assert f in fs;
    }
  }

  /**
   * The stop guard depends only on the stream being defined: it passes whether or not
   * the sink is enabled.
   */
  lemma StopGuardIgnoresEnabledActions(st: State, req: Request, isAllowed: (Option<string>, string) -> bool)
    requires StreamOperations.Valid(st)
    ensures Failures(StopRequestsValidations(), req, st.registry, st.engine, isAllowed) == {} <==>
      req.streamName.Some? && req.streamName.value in st.engine.definitions
  {
    assert StreamNotExists in StopRequestsValidations();
  }

  /**
   * When the start guards pass, starting succeeds exactly when every column has a Cassandra
   * type (the guards do not look at column types), and then leaves the sink enabled.
   */
  lemma GuardedStartEnables(st: State, req: Request, isAllowed: (Option<string>, string) -> bool)
    requires StreamOperations.Valid(st)
    requires Failures(StartRequestsValidations(), req, st.registry, st.engine, isAllowed) == {}
    ensures StartAction(st, req).Success? <==>
      forall a :: a in st.engine.definitions[req.streamName.value] ==> a.typ != OBJECT
    ensures StartAction(st, req).Success? ==> var st' := StartAction(st, req).value.0;
      SAVE_TO_CASSANDRA in GetStatus(st'.registry, st'.engine, req.streamName.value).value.actionsEnabled
  {
    StartGuards(st, req, isAllowed);
    StartActionEnablesOnlyIt(st, SAVE_TO_CASSANDRA, req.streamName.value);
  }

  /** Starting twice: after a successful start the start guards refuse with code 14. */
  lemma SecondStartRefused(st: State, req: Request, isAllowed: (Option<string>, string) -> bool)
    requires StreamOperations.Valid(st)
    requires StartAction(st, req).Success?
    ensures exists f :: f in Failures(StartRequestsValidations(), req, StartAction(st, req).value.0.registry,
                                      StartAction(st, req).value.0.engine, isAllowed)
                     && f.code == ReplyCodes.KO_SAVE2CASSANDRA_STREAM_ALREADY_ENABLED
  {
    var st' := StartAction(st, req).value.0;
    StartActionEnablesOnlyIt(st, SAVE_TO_CASSANDRA, req.streamName.value);
    StartGuards(st', req, isAllowed);
  }
}
