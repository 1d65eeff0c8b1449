# QUIC connection core, modelled and verified in Dafny

This project models the connection-lifecycle core of the PHP package
`tourze/quic-connection` and proves properties of that model. The core covers:

- **the connection state machine**: six states, ten legal edges, and `close` /
  `immediateClose`. It also builds the CONNECTION_CLOSE payload that is emitted
  on entering CLOSING.
- **the path manager**: the active, probing and validated paths, one
  outstanding PATH_CHALLENGE, promotion on PATH_RESPONSE, migration to a
  preferred address, and cleanup of stale probes.
- **the idle-timeout manager**: idle detection and keep-alive timing
  (section 10.1 of RFC 9000).
- **the connection**: it owns the three components above plus an event
  registry, keeps the transport parameters and queues outgoing frames.
- **the connection manager**: a capacity-bounded table of connections keyed by
  local id, with cleanup and timeout sweeps and per-state statistics.
- **the connection factory**: default transport parameters and default event
  handlers, applied to every connection it creates.
- **the connection monitor**: integer counters kept up to date by the event
  handlers it registers.
- **the wire helpers of two integration tests**:
  - the variable-length integer encoder (section 16 of RFC 9000);
  - long- and short-header packet builders (sections 17.2 and 17.3);
  - a frame builder (section 19);
  - the Version Negotiation version-list reader (section 17.2.1).

Each PHP class whose fields its methods update is a Dafny `class` with those
fields. Its methods carry `modifies` clauses and say what the new state is, and
the loops of the source are `while` loops with invariants. Pure code is
functions and lemmas. A PHP exception is a `Fail(error)` outcome naming the
exception class, as listed in `Exceptions.QuicError`.

PHP string-keyed arrays keep insertion order. Assigning to a present key
replaces the entry in place, assigning to a new key appends, and `unset`
removes. Where that order matters to the source — the path tables, the
event handler tables and the manager's connection table — they are modelled as
sequences of entries with distinct keys (`OrderedMaps.Table`), so "the first
probing path" and "handlers in registration order" mean what they mean in PHP.
Transport parameters (the core defaults, the factory's defaults and each
connection's parameters) are modelled as `map<string, ParamValue>`, which keeps
keys and values but not their order.

The path tables are keyed, as in the source, by the string
`"{local}:{lport}-{remote}:{rport}"`. `PathKeys.PathKeyCollision` exhibits two
different 4-tuples with the same key. `PathKeys.PathKeyInjective` proves that
the key identifies the tuple when no address contains `-` and no port is
negative.

The clock and random bytes are parameters:

- `nowMs` stands for `(int)(microtime(true) * 1000)`.
- `nowSec` stands for `time()`. Where one operation reads both, `nowSec` is
  `nowMs / 1000`.
- `challenge`, `randomId` and the connection-id and payload bytes of the
  packet builders stand for `random_bytes`.

The values the core reads from the QUIC core package's `Constants` class are a
`Constants` record: the default transport parameters, the default idle timeout
and the connection-id length.

Handlers are opaque ids. Invoking a handler is recorded as a `Delivery` in the
registry's log, in call order.

Each packet builder is checked against an independent reader:

- `LongHeaders.ParseLongHeader` reads the invariant long-header fields.
- `ShortHeaderFields` reads the short-header first byte.
- `ParseStreamFrame` and `ParseCloseFrame` read STREAM and CONNECTION_CLOSE
  frames.
- `DecodeVarint` decodes variable-length integers.
- `ExtractSupportedVersions` reads the version list of a Version Negotiation
  packet; it is checked against the reference builder `VersionNegotiationPacket`.

## Model

| member | source | states |
|---|---|---|
| ConnectionStates.LifecyclePartition | src/Enum/ConnectionState.php:25-60 | every state satisfies exactly one of isActive, isClosing and isClosed |
| ConnectionStates.CapabilitiesNested | src/Enum/ConnectionState.php:33-44 | canSendData implies canReceiveData, which implies isActive; NEW is the only active state that cannot receive |
| ConnectionStates.ValueInjective | src/Enum/ConnectionState.php:15-20 | two states have the same backing string exactly when they are the same state |
| ConnectionStates.AllStatesComplete | src/Enum/ConnectionState.php:15-20 | the six cases are all the states there are |
| PathStates.PathPredicatesExclusive | src/Enum/PathState.php:23-42 | no path state satisfies two of canSendData, isValidating and isFailed, and UNVALIDATED is exactly the state that satisfies none |
| StateMachine.IsValidTransition | src/ConnectionStateMachine.php:63-78 | exactly the ten legal edges of the table; a legal edge never loops, never leaves CLOSED and never enters NEW |
| StateMachine.ClosedTerminalNewInitial | src/ConnectionStateMachine.php:63-78 | no edge leaves CLOSED and no edge enters NEW |
| StateMachine.TransitionsNeverReopen | src/ConnectionStateMachine.php:63-78 | no edge leads from an inactive state back to an active one, and only NEW, CLOSING and DRAINING reach CLOSED |
| StateMachine.TransitionAdvancesRank | src/ConnectionStateMachine.php:63-78 | every legal edge moves strictly forward in the lifecycle order |
| StateMachine.RunIsSimplePath | src/ConnectionStateMachine.php:46-78 | along any run of legal transitions no state repeats, a run has at most six states, and nothing follows CLOSED |
| StateMachine.ConnectionClosePayload | src/ConnectionStateMachine.php:185-203 | the payload is 6 bytes plus the reason, plus 4 when a frame type is present |
| StateMachine.ConnectionClosePayloadRoundTrip | src/ConnectionStateMachine.php:185-203 | reading the payload back gives the error code and frame type modulo 2^32 and the reason, for any reason shorter than 2^16 bytes |
| StateMachine.CloseTarget | src/ConnectionStateMachine.php:145-163 | the state `close` reaches is the current one or a legal edge away, and is never active when the current one was |
| StateMachine.ImmediateCloseTarget | src/ConnectionStateMachine.php:168-180 | the state `immediateClose` reaches is the current one or a legal edge away |
| StateMachine.ConnectionStateMachine.constructor | src/ConnectionStateMachine.php:17-33 | a new machine is NEW with error code 0, no frame type, an empty reason and no timestamp |
| StateMachine.ConnectionStateMachine.TransitionTo | src/ConnectionStateMachine.php:46-58 | fails with InvalidArgument and changes nothing unless the edge is in the table; otherwise stores the target and then emits exactly the entered state's hook events |
| StateMachine.ConnectionStateMachine.OnStateTransition | src/ConnectionStateMachine.php:83-140 | entering CONNECTED emits `connected`, CLOSING emits `sendConnectionClose` with the payload, CLOSED emits `closed` with the close info; HANDSHAKING and DRAINING emit nothing |
| StateMachine.ConnectionStateMachine.SendConnectionClose | src/ConnectionStateMachine.php:185-204 | the bytes built step by step are the close payload of the current close info, delivered to every `sendConnectionClose` handler |
| StateMachine.ConnectionStateMachine.Close | src/ConnectionStateMachine.php:145-163 | a no-op when CLOSED, keeping the first close info; otherwise records the close info, then NEW goes to CLOSED, HANDSHAKING/CONNECTED to CLOSING, and CLOSING/DRAINING stay put; only a state change emits events |
| StateMachine.ConnectionStateMachine.ImmediateClose | src/ConnectionStateMachine.php:168-180 | always overwrites the close info, even when CLOSED; active states other than NEW go to DRAINING; from NEW it fails with InvalidArgument after writing the close info |
| StateMachine.ConnectionStateMachine.CanSendData | src/ConnectionStateMachine.php:217-220 | true exactly in CONNECTED |
| StateMachine.ConnectionStateMachine.CanReceiveData | src/ConnectionStateMachine.php:225-228 | true exactly in HANDSHAKING and CONNECTED |
| Events.DispatchInOrder | src/Connection.php:277-284 | one trigger invokes each registered handler exactly once, in registration order, with the event's name and data |
| Events.DispatchAppend | src/Connection.php:277-284 | triggering for two handler lists back to back is the same as triggering for their concatenation |
| Events.EventBus.constructor | src/Connection.php:50-52 | no handlers and no invocations yet |
| Events.EventBus.OnEvent | src/Connection.php:269-272 | appends the handler to the end of that event's list and leaves every other event and the log alone |
| Events.EventBus.TriggerEvent | src/Connection.php:277-284 | the log grows by one invocation per handler of that event, in order; an event with no handlers adds nothing |
| IdleTimeout.Half | src/IdleTimeoutManager.php:40-45 | the ping interval is half the idle timeout truncated toward zero: the remainder is 0 or 1 for non-negative timeouts, 0 or -1 for negative ones |
| IdleTimeout.TimeoutRepeats | src/IdleTimeoutManager.php:58-73 | after a timeout from HANDSHAKING or CONNECTED, any later check without new activity fires again; after one from NEW, none fires |
| IdleTimeout.KeepaliveNeverTimesOut | src/IdleTimeoutManager.php:78-88 | with pings on and a positive ping interval, ticks at most one interval apart that refresh activity when a ping is due never find the connection idle for the full timeout |
| IdleTimeout.IdleTimeoutManager.constructor | src/IdleTimeoutManager.php:40-45 | the default timeout, activity now, pings enabled, ping interval half the timeout, no connection set |
| IdleTimeout.IdleTimeoutManager.UpdateActivity | src/IdleTimeoutManager.php:50-53 | the last activity becomes now; nothing else changes |
| IdleTimeout.IdleTimeoutManager.Reset | src/IdleTimeoutManager.php:173-176 | the same effect as updateActivity |
| IdleTimeout.IdleTimeoutManager.CheckTimeout | src/IdleTimeoutManager.php:58-73 | fires exactly when the state is not CLOSED and the idle time reached the timeout; then the connection's `timeout` handlers run and the machine is closed with error 0 and reason "idle timeout", otherwise nothing changes |
| IdleTimeout.IdleTimeoutManager.HandleTimeout | src/IdleTimeoutManager.php:93-101 | `timeout` goes to the connection set with setConnection (if any), then the machine is closed with error 0 and "idle timeout" |
| IdleTimeout.IdleTimeoutManager.ShouldSendPing | src/IdleTimeoutManager.php:78-88 | true exactly when pings are on, the state is not CLOSED and the time to the next ping is zero |
| IdleTimeout.IdleTimeoutManager.SetConnection | src/IdleTimeoutManager.php:106-109 | stores the connection; timers unchanged |
| IdleTimeout.IdleTimeoutManager.SetIdleTimeout | src/IdleTimeoutManager.php:114-118 | stores max(0, t) and keeps the ping interval at half of it |
| IdleTimeout.IdleTimeoutManager.ExtendTimeout | src/IdleTimeoutManager.php:131-136 | refreshes activity first, then adds the extension without a clamp; the ping interval follows |
| IdleTimeout.IdleTimeoutManager.SetPingEnabled | src/IdleTimeoutManager.php:141-144 | stores the flag; timers unchanged |
| IdleTimeout.IdleTimeoutManager.TimeToTimeout | src/IdleTimeoutManager.php:149-154 | never negative; zero exactly when the idle time reached the timeout; otherwise the time at which it will have |
| IdleTimeout.IdleTimeoutManager.TimeToPing | src/IdleTimeoutManager.php:159-168 | never negative; PHP_INT_MAX with pings off; otherwise zero exactly when a ping is due, else the time until it is |
| IdleTimeout.TimeToTimeoutAfterActivity | src/IdleTimeoutManager.php:149-154 | right after activity is recorded the time to timeout is max(0, idle timeout) |
| PathKeys.PathKey | src/PathManager.php:261-264 | the key starts with the local address and ':', and contains the '-' between the two endpoints |
| PathKeys.PathKeyCollision | src/PathManager.php:261-264 | ("a",1,"b:2-c",3) and ("a:1-b",2,"c",3) get the same path key |
| PathKeys.PathKeyInjective | src/PathManager.php:261-264 | with no '-' in either address and non-negative ports, equal keys mean equal 4-tuples |
| PathManagement.SwitchedSpec | src/PathManager.php:171-200 | after a switch the new path is active, the old active path is found as validated under its own key, the switched key is gone from the validated table, and probing is untouched |
| PathManagement.FirstProbing | src/PathManager.php:138-162 | finds the first entry in insertion order whose state is PROBING, or reports that there is none |
| PathManagement.IsPreferredPath | src/PathManager.php:226-234 | never holds while no preferred address is set; otherwise it compares the path's remote address and port with the preferred ones |
| PathManagement.PromotedSpec | src/PathManager.php:138-162 | a matching response takes the oldest probe out of the probing table, marks it VALIDATED at now, and files it as validated, or as the active path when it leads to the preferred address |
| PathManagement.UnexpiredSpec | src/PathManager.php:239-256 | cleanup keeps exactly the probes that have not expired, and keys stay distinct |
| PathManagement.DropExpired | src/PathManager.php:242-250 | the unset loop leaves exactly the unexpired probes, in their order |
| PathManagement.MergedPathsSpec | src/PathManager.php:306-337 | the merged list has one entry per key, with the probing path winning over the validated one, which wins over the active path |
| PathManagement.PathManager.constructor | src/PathManager.php:53-56 | no paths, no challenge, no preferred address, and the given role |
| PathManagement.PathManager.InitializePath | src/PathManager.php:61-72 | the 4-tuple becomes the active path, VALIDATED at now; everything else is untouched |
| PathManagement.PathManager.ProbePath | src/PathManager.php:77-97 | a key already probing changes nothing; otherwise one PROBING entry is appended with probe start now, and the challenge and its now+5 deadline replace any earlier one |
| PathManagement.PathManager.InitiatePathValidation | src/PathManager.php:102-110 | the single challenge slot gets the new challenge and a deadline 5 seconds ahead |
| PathManagement.PathManager.HandlePathResponse | src/PathManager.php:126-163 | accepted exactly when the bytes equal the outstanding challenge and the deadline has not passed; a rejected response changes nothing; an accepted one promotes the first probe, clears the challenge and returns true even with no probe |
| PathManagement.PathManager.SwitchToPath | src/PathManager.php:171-200 | the tables become the switched tables; the challenge and preferred address are untouched |
| PathManagement.PathManager.SetPreferredAddress | src/PathManager.php:205-218 | fails with InvalidConnectionState and changes nothing for a client; a server stores the address and port |
| PathManagement.PathManager.CleanupTimeoutPaths | src/PathManager.php:239-256 | probing keeps exactly the unexpired probes in order, and the challenge is cleared exactly when its deadline has passed |
| PathManagement.PathManager.GetAllPaths | src/PathManager.php:306-337 | the values of the merged table, active then validated then probing, one per key |
| Connections.Connection.constructor | src/Connection.php:54-64 | NEW, no remote id, the supplied local id or the random one, the default transport parameters, empty queue and registry, fresh components wired to each other; its whole snapshot is `InitialView`, so the idle manager starts unlinked with the default timeout, half of it as ping interval and the activity time at creation, and no path, probe or challenge exists |
| Connections.Connection.Connect | src/Connection.php:69-77 | fails with Runtime and changes nothing unless NEW; from NEW the 4-tuple becomes the validated active path and the state HANDSHAKING, with no event, and nothing else in the snapshot changes (probing and validated tables, challenge, preferred address, timers, log, parameters) |
| Connections.Connection.HandlePacket | src/Connection.php:82-97 | only the last activity changes; the remote id and the idle manager's connection link stay as they were |
| Connections.Connection.SendFrame | src/Connection.php:120-128 | fails with Runtime, leaving the queue alone, unless CONNECTED; otherwise the frame goes to the end of the queue and activity is refreshed; parameters, remote id and the idle manager's link are unchanged |
| Connections.Connection.Close | src/Connection.php:133-136 | the state machine's close with no frame type; the whole snapshot becomes `AfterClose` of the old one: unchanged once CLOSED, otherwise the close target with the given code, reason and time, and the hook's log when the state changed |
| Connections.Connection.ProcessPendingTasks | src/Connection.php:141-156 | the new snapshot is `AfterTasks` of the old one, which `AfterTasksSpec` spells out field by field: the idle check's outcome, stale probes dropped, the challenge cleared exactly when its deadline has passed, activity following `AfterTick` while pings are on and the connection is open, an empty queue, and every other field unchanged |
| Connections.Connection.CheckIdle | src/Connection.php:144 | the first step of a tick: reports exactly whether the connection was due, and the snapshot becomes `AfterCheck` of the old one |
| Connections.Connection.CleanupPaths | src/Connection.php:147 | the second step: only the probing table, the challenge and its deadline change, as `cleanupTimeoutPaths` does |
| Connections.AfterCheckSpec | src/IdleTimeoutManager.php:58-101 | `checkTimeout` on a snapshot: unless due nothing changes; when due the state moves to its close target with error 0, reason "idle timeout" and the current second, the `timeout` event reaches the handlers only if the idle manager was linked, and the hook log follows a state change; every other field stays |
| Connections.AfterTasksSpec | src/Connection.php:141-156 | `processPendingTasks` on a snapshot, field by field (see `Connections.Connection.ProcessPendingTasks`) |
| Connections.Connection.SendPing | src/Connection.php:161-168 | only refreshes the activity time: the rest of the snapshot is unchanged |
| Connections.Connection.FlushPendingFrames | src/Connection.php:173-184 | the queue ends empty and nothing else in the snapshot changes |
| Connections.Connection.GetTransportParameter | src/Connection.php:253-256 | a value exactly for a key that is set, and then the stored value; null for any other key |
| Connections.Connection.SetTransportParameter | src/Connection.php:245-256 | the key then reads as the value, every other key reads as before, and an absent key reads as null; nothing else in the snapshot changes |
| Connections.Connection.OnEvent | src/Connection.php:269-272 | the handler goes to the end of that event's list; nothing else in the snapshot changes |
| Connections.Connection.TriggerEvent | src/Connection.php:277-284 | each handler of the event is invoked once, in registration order |
| Connections.TicksNeverTimeOut | src/Connection.php:141-156 | for an open connection with pings on, a run of `processPendingTasks` ticks (`AfterTaskRun`) spaced at most one ping interval apart never has its idle check fire: the state and close info stay as they were and the activity time follows `AfterTicks` |
| ConnectionManagement.IdMapSpec | src/ConnectionManager.php:48-51 | the id map holds exactly the stored ids, each mapped to itself |
| ConnectionManagement.TallySpec | src/ConnectionManager.php:143-158 | a state name is listed in by_state exactly when some connection is in that state, with the number of such connections |
| ConnectionManagement.CountsAddUp | src/ConnectionManager.php:143-158 | the per-state counts add up to the number of connections |
| ConnectionManagement.ConnectionManager.constructor | src/ConnectionManager.php:21-37 | no connections, an empty id map, a limit of 1000 and a counter of 0 |
| ConnectionManagement.ConnectionManager.AddConnection | src/ConnectionManager.php:42-52 | fails with QuicConnection and changes nothing when full; otherwise stores the connection under its local id, replacing one with that id, and counts one more add; the counter never drops below the count |
| ConnectionManagement.ConnectionManager.RemoveConnection | src/ConnectionManager.php:57-62 | removes a present id from both tables; an absent id changes nothing |
| ConnectionManagement.ConnectionManager.CheckTimeouts | src/ConnectionManager.php:92-99 | every stored connection runs its idle check and ends exactly as `AfterCheck` of its old snapshot says (closed with error 0 and "idle timeout" when due, otherwise unchanged); exactly the due ones are removed, the rest keeping their order |
| ConnectionManagement.ConnectionManager.SweepTimeouts | src/ConnectionManager.php:94-98 | the loop: from the sweep invariant at 0 it leaves exactly the kept entries, each connection checked once as `AfterCheck` says |
| ConnectionManagement.SweptAndChecked | src/ConnectionManager.php:92-99 | where the sweep ends: the swept table is the selection of kept entries, all well formed, and each connection's snapshot is the checked one |
| ConnectionManagement.ConnectionManager.TimeoutStep | src/ConnectionManager.php:94-98 | one turn keeps the sweep invariant `TimeoutSweep`: that entry is checked as `AfterCheck` says and removed exactly if it was due, every later connection keeps its whole snapshot |
| ConnectionManagement.ConnectionManager.SweepStep | src/ConnectionManager.php:114-121 | one `unset` of the cleanup sweep (and of the timeout sweep): the entry is removed exactly when it is flagged, the others keep their order, no connection's snapshot changes, and the limit and counter stay put |
| ConnectionManagement.ConnectionManager.ProcessPendingTasks | src/ConnectionManager.php:104-109 | every stored connection ticks once: each one's snapshot becomes `AfterTasks` of its old one (see `Connections.AfterTasksSpec`), and the table is unchanged |
| ConnectionManagement.ConnectionManager.Cleanup | src/ConnectionManager.php:114-121 | removes exactly the CLOSED connections and keeps the others in order |
| ConnectionManagement.ConnectionManager.SetMaxConnections | src/ConnectionManager.php:126-129 | stores max(1, n) |
| ConnectionManagement.ConnectionManager.GetStatistics | src/ConnectionManager.php:143-158 | total is the count and by_state tallies the stored connections' states |
| ConnectionManagement.ConnectionManager.CloseAllConnections | src/ConnectionManager.php:163-168 | every stored connection's snapshot becomes `AfterClose` of its old one with the same code and reason: NEW ones end CLOSED, active ones CLOSING, CLOSED ones unchanged, and queues, parameters, paths and timers stay |
| ConnectionManagement.FireAt | src/ConnectionManager.php:94-98 | the idle check of one stored connection fires exactly when it was due and turns its snapshot into `AfterCheck` of the old one; every other connection keeps its whole snapshot |
| ConnectionManagement.CloseAt | src/ConnectionManager.php:165-167 | closing one stored connection turns its snapshot into `AfterClose` of the old one; every other connection keeps its whole snapshot |
| ConnectionManagement.TickAt | src/ConnectionManager.php:106-108 | one connection's tick turns its snapshot into `AfterTasks` of the old one; every other connection keeps its whole snapshot |
| ConnectionFactories.RegisterEachSpec | src/ConnectionFactory.php:65-67 | registering a list for one event appends it to that event's handlers and leaves every other event alone |
| ConnectionFactories.RegisterAllSpec | src/ConnectionFactory.php:64-69 | registering the default handler table appends, for every event, exactly its default handlers, in order |
| ConnectionFactories.ConnectionFactory.constructor | src/ConnectionFactory.php:26-32 | a given parameter overrides its default key by key, every other default is kept, and no handlers are registered yet |
| ConnectionFactories.ConnectionFactory.CreateClientConnection | src/ConnectionFactory.php:37-42 | a new client connection (isServer false) with the supplied or random id whose whole snapshot is `Configured`: NEW, nothing logged or queued, no paths, no remote id, the idle manager unlinked with the default settings, exactly the factory's parameters and exactly its handlers |
| ConnectionFactories.ConnectionFactory.CreateServerConnection | src/ConnectionFactory.php:47-52 | the same for a server connection (isServer true) |
| ConnectionFactories.ConnectionFactory.Configured | src/ConnectionFactory.php:37-52 | the snapshot of a connection fresh from the factory: NEW with the initial close info, no remote id, empty log, queue and path tables, no challenge or preferred address, the idle manager unlinked with activity at creation, and the factory's parameters |
| ConnectionFactories.ConnectionFactory.FactoryDefaults | src/ConnectionFactory.php:57-70 | a configured new connection reports every factory default and nothing else, and has exactly the factory's handlers |
| ConnectionFactories.ConnectionFactory.ConfigureConnection | src/ConnectionFactory.php:57-70 | the connection's parameters are overridden by every default, then every default handler is registered event by event in order; nothing else in its snapshot changes |
| ConnectionFactories.ConnectionFactory.ApplyParameters | src/ConnectionFactory.php:59-62 | the parameter loop sets every default parameter on the connection and changes nothing else in its snapshot |
| ConnectionFactories.ConnectionFactory.RegisterHandlers | src/ConnectionFactory.php:64-69 | the outer handler loop registers every event's list, in table order, and changes nothing else in the snapshot |
| ConnectionFactories.ConnectionFactory.RegisterEventHandlers | src/ConnectionFactory.php:65-67 | the inner loop registers one event's handlers in order and changes nothing else in the snapshot |
| ConnectionFactories.ConnectionFactory.SetDefaultTransportParameter | src/ConnectionFactory.php:75-78 | sets one default; the handlers are untouched |
| ConnectionFactories.ConnectionFactory.AddDefaultEventHandler | src/ConnectionFactory.php:83-86 | that event's default handlers gain this handler at the end; every other event keeps its list |
| ConnectionFactories.ConnectionFactory.SetIdleTimeout | src/ConnectionFactory.php:91-94 | writes `max_idle_timeout` only |
| ConnectionFactories.ConnectionFactory.SetMaxData | src/ConnectionFactory.php:99-102 | writes `initial_max_data` only |
| ConnectionFactories.ConnectionFactory.SetMaxStreamData | src/ConnectionFactory.php:107-112 | writes the one value to exactly the three `initial_max_stream_data_*` keys |
| ConnectionFactories.ConnectionFactory.SetMaxBidiStreams | src/ConnectionFactory.php:117-120 | writes `initial_max_streams_bidi` only |
| ConnectionFactories.ConnectionFactory.SetMaxUniStreams | src/ConnectionFactory.php:125-128 | writes `initial_max_streams_uni` only |
| Monitoring.MonitorHandlersAppended | src/ConnectionMonitor.php:45-53 | each monitored event gains exactly its one handler at the end of its list, and every other event keeps its handlers |
| Monitoring.ConnectionMonitor.constructor | src/ConnectionMonitor.php:33-40 | all seven counters are zero, monitoring starts now, and the six handlers are registered on the connection |
| Monitoring.ConnectionMonitor.RegisterEventHandlers | src/ConnectionMonitor.php:45-53 | one handler for each of the six monitored events, appended in source order |
| Monitoring.ConnectionMonitor.OnConnected | src/ConnectionMonitor.php:58-61 | connection_time becomes the seconds since monitoring started; nothing else changes |
| Monitoring.ConnectionMonitor.OnDisconnected | src/ConnectionMonitor.php:66-69 | changes nothing |
| Monitoring.ConnectionMonitor.OnError | src/ConnectionMonitor.php:74-77 | errors grows by exactly one; nothing else changes |
| Monitoring.ConnectionMonitor.OnPacketSent | src/ConnectionMonitor.php:83-88 | packets_sent grows by one and bytes_sent by the size (0 if absent or non-numeric); nothing else changes |
| Monitoring.ConnectionMonitor.OnPacketReceived | src/ConnectionMonitor.php:94-99 | the same for the received counters |
| Monitoring.ConnectionMonitor.OnStateChanged | src/ConnectionMonitor.php:105-108 | state_changes grows by exactly one; nothing else changes |
| Monitoring.ConnectionMonitor.GetStatistics | src/ConnectionMonitor.php:114-127 | the counters, the uptime and the state name; both rates are present exactly when the uptime is positive and are the totals over the uptime |
| Monitoring.ConnectionMonitor.ResetStatistics | src/ConnectionMonitor.php:132-144 | all seven counters are zero and monitoring restarts now |
| Monitoring.ConnectionMonitor.GetHealthStatus | src/ConnectionMonitor.php:150-163 | healthy exactly when the state is active and no error was counted; the time to timeout is the idle manager's, zero exactly when the timeout has been reached; the loss rate lies in [0, 1] |
| Monitoring.ConnectionMonitor.PacketLossRate | src/ConnectionMonitor.php:168-179 | max(0, sent - received) over sent + received, which lies in [0, 1], and 0 when nothing was counted |
| Varints.EncodeVarint | tests/Integration/QuicProtocolBoundaryTest.php:535-546 | 1, 2 or 4 bytes for values up to 63, 16383 and 2^30 - 1 |
| Varints.VarintPrefix | tests/Integration/QuicProtocolBoundaryTest.php:537-542 | the top two bits of the first byte are 00, 01 or 10 for the 1-, 2- and 4-byte forms |
| Varints.VarintRoundTrip | tests/Integration/QuicProtocolConformanceTest.php:564-575 | decoding the encoding, whatever follows it, gives back the value and the encoded length |
| LongHeaders.ParseLongHeaderOf | tests/Integration/QuicProtocolConformanceTest.php:43-69 | the header reader recovers the first byte, the version modulo 2^32 and both connection ids of a well-formed long header |
| LongHeaders.ParseLongHeaderSound | tests/Integration/QuicProtocolConformanceTest.php:43-69 | whatever the header reader accepts is a long header (top bit set) with ids of at most 20 bytes, laid out field by field |
| BoundaryPackets.PacketWithCidLength | tests/Integration/QuicProtocolBoundaryTest.php:346-371 | at least 1200 bytes, first byte 0xc0, and byte 5 is the requested length as one byte |
| BoundaryPackets.PacketWithInvalidCidLength | tests/Integration/QuicProtocolBoundaryTest.php:376-399 | exactly 1200 bytes, first byte 0xc0, and byte 5 is the length modulo 256 |
| BoundaryPackets.PacketWithPacketNumber | tests/Integration/QuicProtocolBoundaryTest.php:404-434 | at least 1200 bytes carrying version 1 at bytes 1-4 and an empty token at byte 23 |
| BoundaryPackets.PacketWithReservedBits | tests/Integration/QuicProtocolBoundaryTest.php:508-530 | exactly 1200 bytes carrying version 1 at bytes 1-4 and an empty token at byte 23 |
| BoundaryPackets.CidLengthLayout | tests/Integration/QuicProtocolBoundaryTest.php:346-371 | exactly 1200 bytes; byte 0 is 0xc0, byte 5 the length and byte 6+length is 8; the header reads back as version 1 with the given ids |
| BoundaryPackets.InvalidCidLengthLayout | tests/Integration/QuicProtocolBoundaryTest.php:376-399 | 1200 bytes whose length byte is the length modulo 256 while at most 20 id bytes follow; a length byte above 20 is rejected by the reader |
| BoundaryPackets.PacketNumberLayout | tests/Integration/QuicProtocolBoundaryTest.php:404-434 | 1200 bytes, first byte 0xc0 plus length - 1, and the packet number field reads big-endian as pn modulo 256^length |
| BoundaryPackets.ReservedBitsLayout | tests/Integration/QuicProtocolBoundaryTest.php:508-530 | 1200 bytes whose first byte differs from 0xc0 only under mask 0x0C, where it carries the requested reserved bits |
| ConformancePackets.LongHeaderFirstByteBits | tests/Integration/QuicProtocolConformanceTest.php:321-331 | header form and fixed bits set, the packet type in bits 5-4 and a zero low nibble |
| ConformancePackets.LongHeaderPacket | tests/Integration/QuicProtocolConformanceTest.php:321-360 | 126 bytes for Initial, 55 for Retry and 34 otherwise, with version 1 and the two ids at their fixed offsets |
| ConformancePackets.ShortHeaderPacket | tests/Integration/QuicProtocolConformanceTest.php:365-389 | 110 bytes: the id at bytes 1-8, then the payload from byte 10 |
| ConformancePackets.PacketWithVersion | tests/Integration/QuicProtocolConformanceTest.php:394-412 | exactly 1200 bytes with `pack('N', version)` at bytes 1-4 and an empty token at byte 23 |
| ConformancePackets.BuildFrame | tests/Integration/QuicProtocolConformanceTest.php:445-529 | the first byte is the frame type modulo 256; a NEW_CONNECTION_ID frame is 28 bytes ending with the id and the reset token |
| ConformancePackets.LongHeaderPacketLayout | tests/Integration/QuicProtocolConformanceTest.php:321-357 | the length of each packet type's layout, and the header reads back as version 1 with two 8-byte ids |
| ConformancePackets.ShortHeaderFields | tests/Integration/QuicProtocolConformanceTest.php:87-106 | the packet number length read from a first byte is between 1 and 4 |
| ConformancePackets.ShortHeaderPacketLayout | tests/Integration/QuicProtocolConformanceTest.php:365-389 | 110 bytes whose first byte reads as form 0, fixed bit 1, spin 0, key phase 0 and a 1-byte packet number, followed by the id, the packet number and the payload |
| ConformancePackets.PacketWithVersionLayout | tests/Integration/QuicProtocolConformanceTest.php:394-412 | exactly 1200 bytes whose header reads back with the given version modulo 2^32 |
| ConformancePackets.BuildFrameLayout | tests/Integration/QuicProtocolConformanceTest.php:445-529 | the first byte is the frame type, and the length is the minimal layout of that type |
| ConformancePackets.StreamFrameFields | tests/Integration/QuicProtocolConformanceTest.php:484-500 | a STREAM frame read back has an offset exactly when bit 0x04 is set and a length exactly when bit 0x02 is set, then the data |
| ConformancePackets.CloseFrameFields | tests/Integration/QuicProtocolConformanceTest.php:510-517 | a CONNECTION_CLOSE frame read back has a frame type field exactly for type 0x1c |
| ConformancePackets.VersionsFromShape | tests/Integration/QuicProtocolConformanceTest.php:553-558 | the list has max(0, (len - pos) / 4) entries, each a big-endian word lying wholly inside the buffer |
| ConformancePackets.ExtractSupportedVersions | tests/Integration/QuicProtocolConformanceTest.php:534-559 | the loop returns exactly the words after the two skipped ids |
| ConformancePackets.VersionsFromPacked | tests/Integration/QuicProtocolConformanceTest.php:553-558 | reading a packed list of 32-bit versions gives the list back |
| ConformancePackets.VersionNegotiationRoundTrip | tests/Integration/QuicProtocolConformanceTest.php:534-559 | on a Version Negotiation packet the reader starts right after both ids and returns exactly the advertised versions |

## Left out

- Network I/O, the socket-based integration tests and the example client are not part of this model.
- Floating point: the monitor's rates and loss rate are numerator/denominator pairs (`Ratio`), not floats, and `(int)($t * 0.5)` is integer halving toward zero.
- PHP integers are 64-bit, while this model's integers are unbounded. Counter increments and timeout arithmetic near PHP_INT_MAX are not modelled; `pack` truncation is modelled explicitly.
- The Frame and Packet classes and the unimplemented bodies are not modelled:
  - frame handling;
  - frame extraction;
  - `handlePathChallenge`;
  - building a PING;
  - packing and sending queued frames.
  A frame is an opaque id.
- Handler closures are opaque ids, and invoking one only records the invocation. A callback that re-enters the connection is not modelled.
- The monitor's own handlers are registered on the connection but are not called through the registry: each `on*` method is a method of the monitor.
- Accessors that only return a field are plain functions without contracts:
  - `getState`, `getCloseInfo`;
  - the path manager's getters;
  - `getIdleTimeout`;
  - the connection's getters, `getTransportParameters`;
  - `getConnection`, `getAllConnections`, `getConnectionCount`, `getMaxConnections`.
- `buildPacketWithToken`, `buildPacketWithSpecificSize` and `buildInitialPacketWithSize` are not modelled.
- The `random_bytes` payload of the short-header builder and the ids of every builder are parameters.
- Varints.EncodeVarint: the eight-byte branch is not modelled. Its constant exceeds PHP_INT_MAX, so PHP makes it a float, and the source has no check against 2^62. The encoder therefore requires a value of at most 2^30 - 1.
- BoundaryPackets.PacketWithPacketNumber: the encoder's precondition becomes a `requires` that every length the source passes meets.
- ConnectionManagement.ConnectionManager.GetStatistics: `by_state` is a map, so the order in which PHP's array lists the state names (the order in which they first occur among the stored connections, src/ConnectionManager.php:149-154) is not kept; the names and counts are.
- Defaulted PHP arguments are explicit parameters: `close()` with no arguments is `Close(0, [], nowSec)` (src/Connection.php:133), a connection created without an id gets `None` and the random id is passed in (src/ConnectionFactory.php:37, 47), and the clock reading each call would take is a `nowMs`/`nowSec` argument.
- ConnectionManagement.ConnectionManager.AddConnection: it requires that the added connection shares no object with the stored ones, unless the same connection is already stored under its id. PHP has no such requirement; the sweeps need it to reason about one connection at a time.
- ConnectionManagement.ConnectionManager.Cleanup: the CLOSED flags are read for the whole table before the removal loop. Removal touches no connection's state, so the result is the same as checking inside the loop.
- ConnectionManagement.ConnectionManager.CheckTimeouts: keys are strings throughout the model. PHP stores a decimal-integer string key such as "42" as the int 42, and src/ConnectionManager.php and src/ConnectionFactory.php declare `strict_types=1` at line 3, so passing such a key to `removeConnection(string)` throws TypeError: a timed-out connection with such an id is not removed and the sweep stops there. The contract promises the removal.
- ConnectionManagement.ConnectionManager.TimeoutStep: keys are strings throughout the model. PHP stores a decimal-integer string key such as "42" as the int 42, and src/ConnectionManager.php and src/ConnectionFactory.php declare `strict_types=1` at line 3, so the `removeConnection` call of one turn throws TypeError for such an id; the contract promises the removal.
- ConnectionManagement.ConnectionManager.SweepStep: keys are strings throughout the model. PHP stores a decimal-integer string key such as "42" as the int 42, and src/ConnectionManager.php and src/ConnectionFactory.php declare `strict_types=1` at line 3, so the `removeConnection` call of the turn it models throws TypeError for such an id and removes nothing; the contract promises the removal.
- ConnectionManagement.ConnectionManager.Cleanup: keys are strings throughout the model. PHP stores a decimal-integer string key such as "42" as the int 42, and src/ConnectionManager.php and src/ConnectionFactory.php declare `strict_types=1` at line 3, so a CLOSED connection with such an id makes `removeConnection(string)` throw TypeError: it stays and the sweep stops there. The contract promises the removal.
- ConnectionFactories.ConnectionFactory.constructor: keys are strings throughout the model. PHP stores a decimal-integer string key such as "42" as the int 42, and `array_merge` renumbers such keys of the given parameters instead of letting them override the default with that key; here they override key by key. Such a key later makes `configureConnection` throw TypeError (see `ConfigureConnection`).
- ConnectionFactories.ConnectionFactory.ConfigureConnection: keys are strings throughout the model. PHP stores a decimal-integer string key such as "42" as the int 42, and src/ConnectionManager.php and src/ConnectionFactory.php declare `strict_types=1` at line 3, so a default parameter or event named by such a key makes `setTransportParameter(string, …)` or `onEvent(string, …)` throw TypeError. The contract promises every default is applied.
- ConnectionFactories.ConnectionFactory.ApplyParameters: keys are strings throughout the model. PHP stores a decimal-integer string key such as "42" as the int 42, and src/ConnectionManager.php and src/ConnectionFactory.php declare `strict_types=1` at line 3, so a default parameter named by such a key makes `setTransportParameter(string, …)` throw TypeError. The contract promises it is set.
- ConnectionFactories.ConnectionFactory.RegisterHandlers: keys are strings throughout the model. PHP stores a decimal-integer string key such as "42" as the int 42, and src/ConnectionManager.php and src/ConnectionFactory.php declare `strict_types=1` at line 3, so an event named by such a key makes `onEvent(string, …)` throw TypeError. The contract promises its handlers are registered.
- ConnectionFactories.ConnectionFactory.CreateClientConnection: keys are strings throughout the model. PHP stores a decimal-integer string key such as "42" as the int 42, and src/ConnectionManager.php and src/ConnectionFactory.php declare `strict_types=1` at line 3, so through `configureConnection`, a default parameter or event named by such a key makes PHP throw TypeError instead of returning the connection. The contract promises a configured connection.
- ConnectionFactories.ConnectionFactory.CreateServerConnection: keys are strings throughout the model. PHP stores a decimal-integer string key such as "42" as the int 42, and src/ConnectionManager.php and src/ConnectionFactory.php declare `strict_types=1` at line 3, so the same TypeError as for `CreateClientConnection` is thrown through `configureConnection`. The contract promises a configured connection.
- Transport parameters are maps, not ordered arrays: the array `getTransportParameters` returns (src/Connection.php:261-264) lists the core defaults first and then the factory's new keys in the factory's order (src/ConnectionFactory.php:59-62), and that order is not kept; every key's value is.
- ConnectionFactories.ConnectionFactory.ApplyParameters: the defaults are applied in an unspecified key order rather than in PHP array order. The result is the same map whatever the order.
- The idle manager that Connection builds never gets `setConnection`, so its `timeout` event never reaches the connection. The model keeps this: the connection's `HandlePacket`, `SendFrame`, `SendPing` and `ProcessPendingTasks` leave the link as it was, and `CheckTimeout` states the `timeout` delivery only for a manager whose connection was set.
