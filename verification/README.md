# Stream control plane of stratio-streaming, modelled in Dafny

This project models the control plane of the stratio-streaming engine. Clients send commands
that create, enlarge and drop streams, attach and detach continuous queries, list streams,
and start or stop sink actions (listen on the bus, save to Cassandra, index, save to Mongo).

The engine keeps three pieces of state, and the model keeps the same three:

- the stream processor's definitions and queries;
- a shared registry of per-stream status;
- four internal control topics, on which teardown signals are published to the sink callbacks.

Each operation is one sequential step over an immutable `State`. The modules are:

- `Wrappers`: the `Option` and `Result` types.
- `ReplyCodes`: the eighteen reply codes and their readable texts. The partner is a decoder that reads a text back to its code.
- `Text`: ASCII case-insensitive comparison, `replaceAll`, and terminated joins and splits.
- `Siddhi`: the parts of the stream processor the operations use. The processor holds definitions in definition order, attribute lists, and queries by id.
- `StreamStatus`: the registry interface the operations call, covering lookup with lazy creation, create, add or remove a query, change an action, and remove.
- `StreamOperations`: the stream operations as state transformers, plus the log of what was published on each control topic.
- `Validators`: the request validators.
- `SaveToCassandraFunction`: the save-to-Cassandra command handler.
- `SinkCallback`: what the two sink callbacks share. That is the engine events, the projection of an event onto the stream's columns, and the rule for which control messages are addressed to a callback.
- `Cql`: the Cassandra column types and the CREATE and ALTER statement text.
- `CassandraCallback` and `BusCallback`: the two sink callbacks as teardown state machines.

## Model

| member | source | states |
|---|---|---|
| ReplyCodes.CodesAreOneToEighteen | commons/src/main/java/com/stratio/streaming/commons/constants/REPLY_CODES.java:20-37 | the eighteen constants are exactly 1..18 in declaration order, so they are pairwise distinct |
| ReplyCodes.ReadableErrorRoundTrip | commons/src/main/java/com/stratio/streaming/commons/constants/REPLY_CODES.java:39-104 | the text of every code in 1..18 decodes back to that code; the text of any other integer decodes to nothing |
| ReplyCodes.ReadableErrorInjective | commons/src/main/java/com/stratio/streaming/commons/constants/REPLY_CODES.java:43-101 | no two codes in the table share a text |
| ReplyCodes.ReadableErrorShape | commons/src/main/java/com/stratio/streaming/commons/constants/REPLY_CODES.java:43-101 | code 1 is the only code whose text is "OK"; codes 2..18 start with "KO: "; exactly the codes outside 1..18 get "UNKOWN ERROR" |
| ReplyCodes.StreamDoesNotExistTextKeepsTrailingSpace | commons/src/main/java/com/stratio/streaming/commons/constants/REPLY_CODES.java:53-55 | the text of code 4 ends with a space |
| Text.WildcardMatchesOnlyItself | engine/src/main/java/com/stratio/streaming/callbacks/StreamToCassandraCallback.java:261-262 | a payload equals "*" ignoring case exactly when it is "*" |
| Siddhi.DefineStream | engine/src/main/java/com/stratio/streaming/streams/StreamOperations.java:50-56 | an engine assumption: defining a new name appends it, re-defining it identically changes nothing, and a different definition or a duplicate attribute is refused |
| Siddhi.RemoveStream | engine/src/main/java/com/stratio/streaming/streams/StreamOperations.java:101-102 | an engine assumption: only the named definition disappears, and the queries stay |
| Siddhi.AddQuery | engine/src/main/java/com/stratio/streaming/streams/StreamOperations.java:109-111 | an engine assumption: it fails iff the engine refuses the text itself (a supplied verdict: the text does not parse or reads an undefined stream), or an output stream is already defined with other attributes, or two outputs share a name but not attributes; otherwise the query is stored under the supplied fresh id, its output streams become defined, and existing definitions are kept |
| Siddhi.RemoveQuery | engine/src/main/java/com/stratio/streaming/streams/StreamOperations.java:131-132 | an engine assumption: the query is gone, the supplied dropped streams are gone, and nothing else changes |
| Siddhi.WithoutAppend | engine/src/main/java/com/stratio/streaming/streams/StreamOperations.java:158-162 | dropping names keeps the survivors in their original order: it distributes over concatenation, so the listing keeps engine order |
| StreamStatus.GetStatus | engine/src/main/java/com/stratio/streaming/streams/StreamOperations.java:174-187 | a status exists exactly for defined streams; a stream without a registry entry reads as not user-defined, with no queries and no actions |
| StreamStatus.Materialize | engine/src/main/java/com/stratio/streaming/streams/StreamOperations.java:116-122 | the lookup stores the fresh status it hands out and changes no other entry |
| StreamStatus.MaterializeKeepsLookups | engine/src/main/java/com/stratio/streaming/streams/StreamOperations.java:118-122 | storing a fresh status never changes what any later lookup returns |
| StreamStatus.CreateStatus | engine/src/main/java/com/stratio/streaming/streams/StreamOperations.java:54-55 | the name gets a user-defined entry with no queries and no actions unless it already has one; other entries are kept |
| StreamStatus.AddQueryToStatus | engine/src/main/java/com/stratio/streaming/streams/StreamOperations.java:112-114 | a defined stream's query list grows by (id, raw text) at its end; other entries are kept |
| StreamStatus.RemoveQueryInStatus | engine/src/main/java/com/stratio/streaming/streams/StreamOperations.java:127-129 | fails iff the stream has no query with that raw text; otherwise the first such query is cut out and its id is returned |
| StreamStatus.ChangeAction | engine/src/main/java/com/stratio/streaming/streams/StreamOperations.java:216-217 | for a defined stream, the one action is set on or off and everything else in its status is kept; other entries are kept |
| StreamStatus.RemoveStatus | engine/src/main/java/com/stratio/streaming/streams/StreamOperations.java:104-105 | the registry loses exactly that name |
| StreamOperations.TopicOfInjective | engine/src/main/java/com/stratio/streaming/streams/StreamOperations.java:202-304 | each action kind has its own control topic |
| StreamOperations.CreateStream | engine/src/main/java/com/stratio/streaming/streams/StreamOperations.java:50-56 | succeeds iff the engine accepts the definition; on success the stream is defined and has a registry entry, and no other entry, topic or sink changes |
| StreamOperations.CreateThenGetStatus | engine/src/main/java/com/stratio/streaming/streams/StreamOperations.java:50-56 | a stream created under a fresh name reads back as user-defined, with no queries and no actions |
| StreamOperations.CreateTwiceRefused | engine/src/main/java/com/stratio/streaming/functions/validator/StreamExistsValidation.java:34-37 | the existence validator lets a new name through; after creation the same request fails with code 3 and the "already exists" message |
| StreamOperations.EnlargeStream | engine/src/main/java/com/stratio/streaming/streams/StreamOperations.java:58-83 | success iff no request column repeats an existing or earlier request column; on success it returns the number of request columns and they are appended in order; on failure the first clashing column is named and the columns before it stay appended |
| StreamOperations.DropStream | engine/src/main/java/com/stratio/streaming/streams/StreamOperations.java:85-107 | the name is published once on the listen topic; the attached query ids leave the engine, and with them the streams the engine drops for those queries; the definition and the registry entry are gone; every surviving stream keeps its definition; no other registry entry changes |
| StreamOperations.DropStreamPublishesOnceOnListen | engine/src/main/java/com/stratio/streaming/streams/StreamOperations.java:87-89 | dropping adds exactly one message, the stream name, to the listen topic and nothing to the other topics |
| StreamOperations.DropStreamLeavesStaleEntries | engine/src/main/java/com/stratio/streaming/streams/StreamOperations.java:91-105 | a stream the engine dropped along with the attached queries keeps its registry entry, unchanged, with no engine definition |
| StreamOperations.RecreateOverStaleEntry | engine/src/main/java/com/stratio/streaming/streams/StreamOperations.java:50-56 | as written: after a drop takes another stream with it, re-creating that stream succeeds but reads back its stale entry, not a fresh user-defined status |
| StreamOperations.DropStreamSwept | engine/src/main/java/com/stratio/streaming/streams/StreamOperations.java:85-107 | the corrected drop: the same engine as the drop, and afterwards every registry entry has a definition; surviving entries are unchanged and every removed entry is announced on the listen topic |
| StreamOperations.RecreateAfterSweptDrop | engine/src/main/java/com/stratio/streaming/streams/StreamOperations.java:50-56 | after the corrected drop, any stream that is not defined can be re-created and reads back as user-defined with no queries and no actions |
| StreamOperations.EngineQueryTextOnlyRecases | engine/src/main/java/com/stratio/streaming/streams/StreamOperations.java:111 | the text sent to the engine has the raw text's length and differs only by turning some 'b' into 'B' |
| StreamOperations.EngineQueryTextHasNoTimebatch | engine/src/main/java/com/stratio/streaming/streams/StreamOperations.java:111 | no occurrence of "timebatch" survives in the text sent to the engine |
| StreamOperations.EngineQueryTextIdempotent | engine/src/main/java/com/stratio/streaming/streams/StreamOperations.java:111 | re-casing an already re-cased text changes nothing |
| StreamOperations.MaterializeAll | engine/src/main/java/com/stratio/streaming/streams/StreamOperations.java:116-122 | every listed engine stream ends up with an entry; existing entries are untouched; new entries are non-user-defined |
| StreamOperations.AddQueryToExistingStream | engine/src/main/java/com/stratio/streaming/streams/StreamOperations.java:109-123 | fails, changing nothing, iff the engine refuses the query (its text, or a clashing output), reporting which; otherwise the engine gets the re-cased text under the fresh id, the stream's status records the original raw text under that id and keeps its flags, every engine stream then has an entry, and newly seen ones are non-user-defined |
| StreamOperations.RemoveQueryFromExistingStream | engine/src/main/java/com/stratio/streaming/streams/StreamOperations.java:125-154 | fails iff the stream has no such query; otherwise the query leaves the engine, each orphan is published on the listen topic and removed, and the remaining entries are kept |
| StreamOperations.RemoveQuerySweep | engine/src/main/java/com/stratio/streaming/streams/StreamOperations.java:134-153 | afterwards every registry entry has a definition; each removed entry was announced on the listen topic; entries of surviving streams other than the target are unchanged; other topics get nothing |
| StreamOperations.Describe | engine/src/main/java/com/stratio/streaming/streams/StreamOperations.java:164-192 | an entry carries the stream's columns and its status, or non-user-defined with no queries and no actions when the stream has no entry |
| StreamOperations.ListFromRegistry | engine/src/main/java/com/stratio/streaming/streams/StreamOperations.java:158-187 | the registry the listing leaves behind is the initial one with a fresh status stored for each listed stream that had none |
| StreamOperations.ListFromDescribes | engine/src/main/java/com/stratio/streaming/streams/StreamOperations.java:158-198 | the listing loop yields exactly the description of each listed stream against the initial registry, although it stores fresh statuses as it goes |
| StreamOperations.ListStreams | engine/src/main/java/com/stratio/streaming/streams/StreamOperations.java:156-200 | one entry per engine stream that is not a statistics stream, in engine order, each as Describe gives it; the returned registry has a fresh status stored for each listed stream that had none |
| StreamOperations.StartAction | engine/src/main/java/com/stratio/streaming/streams/StreamOperations.java:202-218 | succeeds iff the stream is defined; registers one callback subscribed to that action's topic and enables the action |
| StreamOperations.StopAction | engine/src/main/java/com/stratio/streaming/streams/StreamOperations.java:220-230 | publishes the name on the action's topic and disables the action |
| StreamOperations.StartActionEnablesOnlyIt | engine/src/main/java/com/stratio/streaming/streams/StreamOperations.java:232-246 | after a start, that action is enabled and the other actions, the queries and the user-defined flag are as before; other streams are unchanged |
| StreamOperations.StopActionClearsOnlyIt | engine/src/main/java/com/stratio/streaming/streams/StreamOperations.java:248-255 | after a stop, that action is disabled and the others are as before; exactly one message, the name, is added to that action's topic and nothing to the others |
| StreamOperations.ListenStream | engine/src/main/java/com/stratio/streaming/streams/StreamOperations.java:202-218 | succeeds iff the stream is defined; adds a bus callback listening on INTERNAL_LISTEN_TOPIC, leaves the engine and the topic log alone and enables LISTEN; the stream\'s other flags, its queries and every other stream are kept |
| StreamOperations.StopListenStream | engine/src/main/java/com/stratio/streaming/streams/StreamOperations.java:220-230 | adds exactly one message, the name, to INTERNAL_LISTEN_TOPIC and nothing to the other topics; keeps the engine and the callbacks; on a defined stream disables LISTEN and keeps its other flags, its queries and every other stream; on an undefined one leaves the registry alone |
| StreamOperations.Save2cassandraStream | engine/src/main/java/com/stratio/streaming/streams/StreamOperations.java:232-246 | succeeds iff the stream is defined and no column is of an unsupported type; a defined stream with such a column fails with "Unsupported Column type" and changes nothing; on success adds a Cassandra callback listening on INTERNAL_SAVE2CASSANDRA_TOPIC, leaves the engine and the topic log alone and enables SAVE_TO_CASSANDRA; the stream\'s other flags, its queries and every other stream are kept |
| StreamOperations.Save2cassandraStreamHasEveryField | engine/src/main/java/com/stratio/streaming/callbacks/StreamToCassandraCallback.java:83-131 | a start that succeeds has built a field map with an entry for every column of the stream |
| StreamOperations.StopSave2cassandraStream | engine/src/main/java/com/stratio/streaming/streams/StreamOperations.java:248-255 | adds exactly one message, the name, to INTERNAL_SAVE2CASSANDRA_TOPIC and nothing to the other topics; keeps the engine and the callbacks; on a defined stream disables SAVE_TO_CASSANDRA and keeps its other flags, its queries and every other stream; on an undefined one leaves the registry alone |
| StreamOperations.StreamToIndexer | engine/src/main/java/com/stratio/streaming/streams/StreamOperations.java:257-271 | succeeds iff the stream is defined; adds an indexer callback listening on INTERNAL_INDEXER_TOPIC, leaves the engine and the topic log alone and enables INDEXED; the stream\'s other flags, its queries and every other stream are kept |
| StreamOperations.StopStreamToIndexer | engine/src/main/java/com/stratio/streaming/streams/StreamOperations.java:273-279 | adds exactly one message, the name, to INTERNAL_INDEXER_TOPIC and nothing to the other topics; keeps the engine and the callbacks; on a defined stream disables INDEXED and keeps its other flags, its queries and every other stream; on an undefined one leaves the registry alone |
| StreamOperations.Save2mongoStream | engine/src/main/java/com/stratio/streaming/streams/StreamOperations.java:281-295 | succeeds iff the stream is defined; adds a Mongo callback listening on INTERNAL_SAVE2MONGO_TOPIC, leaves the engine and the topic log alone and enables SAVE_TO_MONGO; the stream\'s other flags, its queries and every other stream are kept |
| StreamOperations.StopSave2mongoStream | engine/src/main/java/com/stratio/streaming/streams/StreamOperations.java:297-304 | adds exactly one message, the name, to INTERNAL_SAVE2MONGO_TOPIC and nothing to the other topics; keeps the engine and the callbacks; on a defined stream disables SAVE_TO_MONGO and keeps its other flags, its queries and every other stream; on an undefined one leaves the registry alone |
| StreamOperations.StopThenStartReenables | engine/src/main/java/com/stratio/streaming/streams/StreamOperations.java:220-246 | stop followed by start succeeds and leaves the action enabled, with one new callback |
| Validators.StreamExistsValidation | engine/src/main/java/com/stratio/streaming/functions/validator/StreamExistsValidation.java:33-40 | passes iff the name is null, empty, or not defined; otherwise fails with code 3 and "Stream <name> already exists" |
| Validators.StreamAlreadyExistsMessageReadsBack | engine/src/main/java/com/stratio/streaming/functions/validator/StreamExistsValidation.java:36-37 | the stream name reads back from between the fixed prefix and suffix of the message |
| Validators.StreamAlreadyExistsMessageInjective | engine/src/main/java/com/stratio/streaming/functions/validator/StreamExistsValidation.java:36-37 | distinct names give distinct messages |
| Validators.StreamAllowedValidation | engine/src/main/java/com/stratio/streaming/functions/validator/StreamAllowedValidation.java:33-39 | fails iff the supplied rule refuses (stream, operation); a failure carries code 17 and "Operation <op> not allowed in stream <name>", with a null name written "null" |
| Validators.OperationNotAllowedMessageReadsBack | engine/src/main/java/com/stratio/streaming/functions/validator/StreamAllowedValidation.java:36-37 | for an operation without spaces, the operation reads back first and the stream second |
| Validators.OperationNotAllowedMessageInjective | engine/src/main/java/com/stratio/streaming/functions/validator/StreamAllowedValidation.java:36-37 | distinct (operation, stream) pairs give distinct messages when the operation has no spaces |
| Validators.StreamNotExistsValidation | engine/src/main/java/com/stratio/streaming/functions/dal/SaveToCassandraStreamFunction.java:65-68 | passes iff the named stream is defined; otherwise fails with code 4 |
| Validators.ActionEnabledValidation | engine/src/main/java/com/stratio/streaming/functions/dal/SaveToCassandraStreamFunction.java:72-73 | fails, with the supplied code, iff the action is already enabled on the defined stream |
| Validators.Failures | engine/src/main/java/com/stratio/streaming/functions/dal/SaveToCassandraStreamFunction.java:65-75 | the set of failures is empty iff every validator of the unordered set passes; it holds the verdict of every failing validator and nothing else |
| SaveToCassandraFunction.CommandNames | engine/src/main/java/com/stratio/streaming/functions/dal/SaveToCassandraStreamFunction.java:43-51 | start answers SAVETO_CASSANDRA and stop answers STOP_SAVETO_CASSANDRA, two different commands |
| SaveToCassandraFunction.StartAction | engine/src/main/java/com/stratio/streaming/functions/dal/SaveToCassandraStreamFunction.java:53-57 | succeeds exactly when the save-to-Cassandra start does, with its state, and then reports true |
| SaveToCassandraFunction.StopAction | engine/src/main/java/com/stratio/streaming/functions/dal/SaveToCassandraStreamFunction.java:59-63 | delegates to the save-to-Cassandra stop and reports true |
| SaveToCassandraFunction.StartGuards | engine/src/main/java/com/stratio/streaming/functions/dal/SaveToCassandraStreamFunction.java:70-75 | the start guards pass iff the stream is defined and the sink is not enabled on it; with the sink already enabled, a failure carries code 14 |
| SaveToCassandraFunction.StopGuardIgnoresEnabledActions | engine/src/main/java/com/stratio/streaming/functions/dal/SaveToCassandraStreamFunction.java:65-68 | the stop guard passes iff the stream is defined, whether or not the sink is enabled |
| SaveToCassandraFunction.GuardedStartEnables | engine/src/main/java/com/stratio/streaming/functions/dal/SaveToCassandraStreamFunction.java:53-75 | when the start guards pass, the start succeeds exactly when every column has a Cassandra type (the guards never look at column types), and then the sink is enabled |
| SaveToCassandraFunction.SecondStartRefused | engine/src/main/java/com/stratio/streaming/functions/dal/SaveToCassandraStreamFunction.java:70-75 | after a successful start, the start guards refuse the same request with code 14 |
| SinkCallback.IsForStreamCases | engine/src/main/java/com/stratio/streaming/callbacks/StreamToCassandraCallback.java:261-262 | "*" is addressed to every stream; any other payload is addressed to a stream iff it equals the stream id ignoring case |
| SinkCallback.ProjectFromInBounds | engine/src/main/java/com/stratio/streaming/callbacks/StreamToCassandraCallback.java:179-191 | every included column's position lies within the event data, and its value is the data at that position |
| SinkCallback.ProjectDistinct | engine/src/main/java/com/stratio/streaming/callbacks/StreamToCassandraCallback.java:179-191 | for distinct attribute names, the columns are exactly the attributes at positions below the data length, in attribute order, with their values |
| SinkCallback.Collect | engine/src/main/java/com/stratio/streaming/callbacks/StreamToCassandraCallback.java:170-197 | one message per inserted event, in batch order, each the event's projection; other events produce nothing |
| SinkCallback.InEventsAppend | engine/src/main/java/com/stratio/streaming/callbacks/StreamToBusCallback.java:65-89 | the inserted events of two batches together are those of the first, then those of the second |
| Cql.CqlType | engine/src/main/java/com/stratio/streaming/callbacks/StreamToCassandraCallback.java:95-116 | every attribute type except OBJECT has a column type, and OBJECT is refused with "Unsupported Column type" |
| Cql.CqlTypeCollisions | engine/src/main/java/com/stratio/streaming/callbacks/StreamToCassandraCallback.java:99-110 | two supported types share a column type iff they are equal or both are LONG/DOUBLE |
| Cql.FieldsAndTypes | engine/src/main/java/com/stratio/streaming/callbacks/StreamToCassandraCallback.java:91-120 | succeeds iff every attribute type is supported; otherwise fails with "Unsupported Column type" |
| Cql.FieldsAndTypesKeys | engine/src/main/java/com/stratio/streaming/callbacks/StreamToCassandraCallback.java:93-119 | the keys of the field map are exactly the attribute names |
| Cql.FieldsAndTypesValues | engine/src/main/java/com/stratio/streaming/callbacks/StreamToCassandraCallback.java:94-117 | each name maps to the column type of the last attribute with that name, because a later put overwrites an earlier one |
| Cql.CreateTableReadsBack | engine/src/main/java/com/stratio/streaming/callbacks/StreamToCassandraCallback.java:122-135 | the CREATE statement starts with the table header and ends with the primary-key clause; the middle splits on commas into one "name type" per field, in order, and holds exactly one comma per field |
| Cql.CreateTableForStreamReadsBack | engine/src/main/java/com/stratio/streaming/callbacks/StreamToCassandraCallback.java:91-135 | the CREATE statement built from a stream's own field map declares exactly one column per attribute name, each attribute that is last with its name with its own column type |
| Cql.AlterTable | engine/src/main/java/com/stratio/streaming/callbacks/StreamToCassandraCallback.java:137-150 | the ALTER script is empty iff the table already has every field |
| Cql.AlterTableReadsBack | engine/src/main/java/com/stratio/streaming/callbacks/StreamToCassandraCallback.java:137-150 | the ALTER script splits on semicolons into one ADD statement per field missing from the table, each missing field once, with one semicolon per statement |
| CassandraCallback.New | engine/src/main/java/com/stratio/streaming/callbacks/StreamToCassandraCallback.java:57-89 | a new callback is running, has closed nothing, and has no cluster stored in its field |
| CassandraCallback.ShutdownCallback | engine/src/main/java/com/stratio/streaming/callbacks/StreamToCassandraCallback.java:247-256 | when running, it closes the session once and closes the cluster only if one is stored; when stopped, it does nothing |
| CassandraCallback.OnMessage | engine/src/main/java/com/stratio/streaming/callbacks/StreamToCassandraCallback.java:258-270 | it stops iff running and the payload is addressed to the stream; a payload that is not addressed to it changes nothing; stopping closes the session once |
| CassandraCallback.Receive | engine/src/main/java/com/stratio/streaming/callbacks/StreamToCassandraCallback.java:165-202 | while running, the batch's collected messages go to persistence; when stopped, nothing happens |
| CassandraCallback.OnMessageIdempotent | engine/src/main/java/com/stratio/streaming/callbacks/StreamToCassandraCallback.java:258-270 | repeating a control message changes nothing more |
| CassandraCallback.StoppedIsInert | engine/src/main/java/com/stratio/streaming/callbacks/StreamToCassandraCallback.java:166-168 | a stopped callback ignores control messages and batches |
| CassandraCallback.RunStopped | engine/src/main/java/com/stratio/streaming/callbacks/StreamToCassandraCallback.java:258-270 | a stopped callback stays as it is through any inputs |
| CassandraCallback.RunLive | engine/src/main/java/com/stratio/streaming/callbacks/StreamToCassandraCallback.java:165-270 | through any inputs, a live callback persists exactly the batches that arrive before the first control message for its stream; it stops iff such a message arrives; it closes its session (and a stored cluster) once if it stops |
| CassandraCallback.FromNew | engine/src/main/java/com/stratio/streaming/callbacks/StreamToCassandraCallback.java:247-256 | from construction, the session is closed at most once and the cluster never |
| CassandraCallback.ClusterLeftOpen | engine/src/main/java/com/stratio/streaming/callbacks/StreamToCassandraCallback.java:76 | after a wildcard teardown, the session is closed but the cluster is not |
| CassandraCallback.FromNewWithCluster | engine/src/main/java/com/stratio/streaming/callbacks/StreamToCassandraCallback.java:247-256 | with the cluster stored, stopping closes the session and the cluster exactly once each |
| BusCallback.New | engine/src/main/java/com/stratio/streaming/callbacks/StreamToBusCallback.java:50-56 | a new callback is running, has sent nothing, and has not closed its producer |
| BusCallback.SendEventsToBus | engine/src/main/java/com/stratio/streaming/callbacks/StreamToBusCallback.java:96-108 | one bus message per stream message, with topic = stream id and key = stream id + "event" |
| BusCallback.SendEventsToBusRoundTrip | engine/src/main/java/com/stratio/streaming/callbacks/StreamToBusCallback.java:96-108 | the payloads read back from the bus messages are the stream messages, in order |
| BusCallback.ShutdownCallback | engine/src/main/java/com/stratio/streaming/callbacks/StreamToBusCallback.java:119-123 | the producer is closed once if running and not at all otherwise |
| BusCallback.OnMessage | engine/src/main/java/com/stratio/streaming/callbacks/StreamToBusCallback.java:125-137 | it stops iff running and the payload is addressed to the stream; a payload that is not addressed to it changes nothing; stopping closes the producer once |
| BusCallback.Receive | engine/src/main/java/com/stratio/streaming/callbacks/StreamToBusCallback.java:58-94 | while running, one bus message per inserted event is sent; when stopped, nothing is sent |
| BusCallback.ReceiveSendsInsertedEvents | engine/src/main/java/com/stratio/streaming/callbacks/StreamToBusCallback.java:63-91 | what one batch sends reads back as one message per inserted event, in batch order, each projected onto the stream's columns |
| BusCallback.OnMessageIdempotent | engine/src/main/java/com/stratio/streaming/callbacks/StreamToBusCallback.java:125-137 | repeating a control message changes nothing more |
| BusCallback.ProducerClosedAtMostOnce | engine/src/main/java/com/stratio/streaming/callbacks/StreamToBusCallback.java:119-137 | through any control messages, the producer is closed at most once, and exactly once iff the callback was running and one of the messages was addressed to it |
| BusCallback.StoppedIsInert | engine/src/main/java/com/stratio/streaming/callbacks/StreamToBusCallback.java:59-61 | a stopped callback ignores control messages and sends nothing |
| BusCallback.Broadcast | engine/src/main/java/com/stratio/streaming/callbacks/StreamToBusCallback.java:125-137 | a published control message reaches each subscribed callback |
| BusCallback.BroadcastStops | engine/src/main/java/com/stratio/streaming/callbacks/StreamToBusCallback.java:128-129 | "*" stops every callback; a stream name stops those callbacks whose id it matches ignoring case and leaves all others exactly as they were |

Notes on the code's behaviour:

- **Creation guard.** The existence validator lets a null or empty stream name through. It refuses only a non-empty name that is already defined.
- **Stop guard.** The save-to-Cassandra stop is guarded only by the stream being defined. It does not check that the sink is enabled.
- **Validator order.** A command's validators form an unordered set, so no "first failure" is fixed. `Validators.Failures` gives the set of failures that can be reported.
- **Dropping a stream.** `dropStream` announces the stream only on the listen topic. Its save-to-Cassandra, indexer and save-to-Mongo callbacks get no teardown message.
- **Stale entries after a drop.** Removing a dropped stream's queries can make the engine drop the streams it had inferred from them. Unlike query removal, `dropStream` does not sweep the registry afterwards, so those streams keep their registry entries and their callbacks. A stream re-created under such a name then reads back its stale status (see Findings).
- **Callbacks are not deregistered.** Stopping an action does not deregister the callback from the engine; it only stops running. So `State.sinks` only grows.

## Left out

- **Bootstrap and shutdown.** StreamingEngine.java is not part of this model: the Spark and Kafka wiring, ZooKeeper, the debug printer, and the shutdown hook that publishes "*" on two topics.
- **The shell banner.** StratioStreamingBannerProvider.java is shell UI text.
- **The Cassandra and bus I/O.** Not modelled:
  - contact-point parsing, connecting, keyspace creation, and statement execution;
  - `persistEventsToCassandra`, which builds inserts with clock-based uuids;
  - the Kafka producer configuration and sending;
  - the Gson serialisation of a message.

  `CassandraCallback.Receive` records each batch handed to persistence, and `BusCallback` records the keyed messages with their stream message unserialised.
- **The table's column names** come from Cassandra metadata, so `Cql.AlterTable` takes them as a parameter. The keyspace name is also a parameter.
- **Concurrency.** Hazelcast distribution, per-key atomicity, and the race between `receive` and `onMessage` on the unsynchronised `running` flag are not modelled. Each call is one sequential step.
- **The stream processor** is not part of this model. It is modelled by the assumptions on the `Siddhi` rows:
  - definitions are kept in definition order;
  - `addQuery` takes a supplied fresh id, supplied inferred outputs and a supplied verdict on whether the text parses and reads only defined streams; it refuses a refused text or an output that clashes with an existing definition;
  - `removeQuery` takes a supplied set of dropped streams; `dropStream` takes one set for all the queries it removes.

  Its query language and semantics are not modelled.
- StreamOperations.EnlargeStream: it does not model `decodeSiddhiType`: the request columns arrive already typed as attributes. `columnAlreadyExistsInStream` is modelled as membership among the attribute names.
- **Registry re-sync after enlarging.** `updateStreamDefinitionStreamStatus` is not part of this model. Because the registry keeps no copy of the definition, it is modelled as leaving the registry unchanged.
- Validators.StreamAllowedValidation: it takes the reserved-stream rule `isStreamAllowedForThisOperation` as a supplied function, because that rule is not part of this model.
- Validators.StreamNotExistsValidation: its class is not part of this model. Its pass/fail condition and code follow how the handler uses it; its message is not known, so the code's readable text stands in for it.
- Validators.ActionEnabledValidation: its class is not part of this model. Its pass/fail condition and code follow how the handler uses it; its message is not known, so the code's readable text stands in for it.
- StreamOperations.ListStreams: it takes the statistics stream names as a parameter.
- **Type encoding.** `encodeSiddhiType` is not part of this model, so the columns of a stream listing (`StreamOperations.Describe`) and of the sink callbacks' messages (`SinkCallback.Collect`, and through it `CassandraCallback.Receive` and `BusCallback.Receive`) carry the attribute type itself.
- Siddhi.AddQuery: why the engine refuses a text (a parse error, or a source stream that is not defined, the failures behind reply codes 2 and 15) is not modelled; it arrives as the supplied verdict `accepted`.
- StreamOperations.AddQueryToExistingStream: it inherits the supplied verdict on the query text from `Siddhi.AddQuery`.
- CassandraCallback.Receive: the callback keeps the definition it was started with. In the code it shares the engine's live definition object, which `enlargeStream` grows in place, so a running sink goes on to project the added columns and its field map grows, which is what makes the ALTER TABLE path fire. Here an enlarged stream's running sink keeps the old columns, and `Cql.AlterTable` is modelled on its own, with nothing in the model calling it.
- BusCallback.Receive: it keeps the definition it was started with, where the code's callback sees columns added later by `enlargeStream`, for the same reason.
- **Java nulls.** A null reply code (a null `Integer` that `ReadableError` would unbox and fail on) and a null operation name in a request cannot be expressed: codes are integers and operations are strings. A null stream name is modelled, as `None`.
- **Command names.** The command names are the constructors of `SaveToCassandraFunction.ActionCommand`; their string values are not part of this model.
- **The other sink callbacks.** The callbacks of the indexer and save-to-Mongo actions are not part of this model; their start and stop appear only as `StreamToIndexer`, `Save2mongoStream` and their stop counterparts, which record the subscription, the topic and the action flag.
- StreamOperations.Save2cassandraStream: of the ways the callback's set-up can fail it models only the unsupported column type; failing to connect or to execute a statement is I/O and is not modelled.
- SaveToCassandraFunction.StartAction: it reports a missing definition as a failure. The code instead lets the callback constructor fail on a null definition.
- **Ignore-case comparison** folds ASCII letters only; Java's `equalsIgnoreCase` also folds other alphabets.
- **Query removal by raw text.** The registry's query map has no specified order, so `removeQueryInStreamStatus` is modelled as removing the first attached query with that raw text in insertion order.
- SinkCallback.ProjectDistinct: it is stated only for definitions without duplicate attribute names, which the engine guarantees.
- StreamOperations.CreateThenGetStatus: it is stated for a name with no registry entry. A name left stale by `dropStream` is not defined but still has an entry, and re-creating it reads back that entry (`RecreateOverStaleEntry`); the property for every undefined name holds only with the corrected drop (`RecreateAfterSweptDrop`).
- Cql.CreateTableReadsBack: it is stated for field names free of commas.
- Cql.CreateTableForStreamReadsBack: it is stated for attribute names free of commas, and for a supplied iteration order of the field map.
- Cql.AlterTableReadsBack: it is stated for keyspace, stream and column names free of semicolons.

## Findings

| source | as written | input that shows it | evidently intended | confidence | as-written member | corrected member |
|---|---|---|---|---|---|---|
| engine/src/main/java/com/stratio/streaming/callbacks/StreamToCassandraCallback.java:76 | `init` binds the built cluster to a new local variable that shadows the field, so the field stays null and `shutdownCallback` never closes the cluster | a new callback receiving "*": the session is closed, the cluster is left open | the cluster is stored in the field and closed on shutdown, once | high (not executed) | CassandraCallback.ClusterLeftOpen | CassandraCallback.FromNewWithCluster |
| engine/src/main/java/com/stratio/streaming/streams/StreamOperations.java:85-107 | `dropStream` removes the attached queries, which can make the engine drop streams it inferred from them, but unlike `removeQueryFromExistingStream` it does not sweep the registry; `createStreamStatus` only adds an entry when none exists | drop a stream whose query fed an inferred stream, then create a stream with the inferred stream's name: it reads back not user-defined, with the old entry's actions | the drop sweeps orphaned entries the way query removal does, so a re-created stream reads back as user-defined with nothing enabled | medium (not executed) | StreamOperations.RecreateOverStaleEntry | StreamOperations.RecreateAfterSweptDrop |
