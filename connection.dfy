/**
 * A QUIC connection: it owns its state machine, path manager, idle timeout
 * manager and event registry, keeps the transport parameters and queues
 * outgoing frames.
 */
module Connections {
  import opened Wrappers
  import opened Bytes
  import opened Exceptions
  import opened ConnectionStates
  import opened Events
  import opened StateMachine
  import opened PathStates
  import opened OrderedMaps
  import opened PathManagement
  import opened IdleTimeout
  import opened CoreConstants

  /** A frame handed to `sendFrame`; frame contents are not part of this model. */
  datatype Frame = Frame(id: nat)

  /**
   * Everything a connection and the objects it owns hold that an operation
   * can change: the state machine, the event registry, the idle timers, the
   * path tables and the connection's own fields.
   */
  datatype Snapshot = Snapshot(
    state: ConnectionState,
    closeInfo: CloseInfo,
    handlers: map<string, seq<HandlerId>>,
    log: seq<Delivery>,
    idleLink: Option<EventBus>,
    idleTimeout: int,
    lastActivity: int,
    pingEnabled: bool,
    pingInterval: int,
    paths: Tables,
    challenge: Option<ByteString>,
    challengeTimeout: Option<int>,
    preferred: Option<PreferredAddress>,
    remoteId: Option<ByteString>,
    parameters: map<string, ParamValue>,
    pending: seq<Frame>)

  /** A connection as the constructor leaves it. */
  function InitialView(consts: Constants, nowMs: int): Snapshot
  {
    Snapshot(New, InitialCloseInfo, map[], [], None, consts.defaultIdleTimeout, nowMs, true,
             Half(consts.defaultIdleTimeout), Tables(None, [], []), None, None, None, None,
             consts.defaultTransportParameters, [])
  }

  /**
   * After `checkTimeout` at `nowMs`: unchanged unless it fires; when it fires,
   * 'timeout' reaches the connection if the idle manager was linked to it, and
   * the machine is closed with error 0 and reason "idle timeout".
   */
  function AfterCheck(v: Snapshot, nowMs: int): Snapshot
  {
    if !TimeoutDue(v.state, v.lastActivity, v.idleTimeout, nowMs) then v
    else
      var info := CloseInfo(0, None, IdleTimeoutReason, Some(nowMs / 1000));
      var target := CloseTarget(v.state);
      var timeoutLog :=
        if v.idleLink.Some? then Dispatch(Registered(v.handlers, "timeout"), "timeout", TimeoutData("idle timeout")) else [];
      v.(state := target, closeInfo := info,
         log := v.log + timeoutLog + (if target != v.state then HookLog(v.handlers, target, info) else []))
  }

  /**
   * After one periodic tick at `nowMs`: the idle check, then stale probes
   * and an expired challenge are dropped, a due keep-alive refreshes the
   * activity time, and the frame queue is emptied.
   */
  function AfterTasks(v: Snapshot, nowMs: int): Snapshot
  {
    var w := AfterCheck(v, nowMs);
    var expired := w.challengeTimeout.Some? && nowMs / 1000 > w.challengeTimeout.value;
    w.(lastActivity :=
         if w.pingEnabled && w.state != Closed && nowMs - w.lastActivity >= w.pingInterval then nowMs else w.lastActivity,
       paths := w.paths.(probing := Unexpired(w.paths.probing, nowMs / 1000)),
       challenge := if expired then None else w.challenge,
       challengeTimeout := if expired then None else w.challengeTimeout,
       pending := [])
  }

  /**
   * The idle check field by field: when it fires the state goes to its close
   * target, the close info records error 0 and "idle timeout", and the log
   * gains the 'timeout' delivery (if linked) and the hook's deliveries; no
   * other field changes, and nothing changes when it does not fire.
   */
  lemma AfterCheckSpec(v: Snapshot, nowMs: int)
    ensures var w, fired := AfterCheck(v, nowMs), TimeoutDue(v.state, v.lastActivity, v.idleTimeout, nowMs);
      && w.state == (if fired then CloseTarget(v.state) else v.state)
      && w.closeInfo == (if fired then CloseInfo(0, None, IdleTimeoutReason, Some(nowMs / 1000)) else v.closeInfo)
      && w.log == v.log
           + (if fired && v.idleLink.Some?
              then Dispatch(Registered(v.handlers, "timeout"), "timeout", TimeoutData("idle timeout")) else [])
           + (if w.state != v.state then HookLog(v.handlers, w.state, w.closeInfo) else [])
      && w.(state := v.state, closeInfo := v.closeInfo, log := v.log) == v
  {
  }

  /**
   * A tick field by field: after the idle check, the probing table keeps
   * exactly the unexpired probes, the challenge and its deadline are cleared
   * exactly when the deadline has passed, the activity time follows
   * `AfterTick` while pings are on and the connection is open, and the queue
   * is empty; the registry, the idle settings, the active and validated
   * paths, the preferred address, the remote id and the parameters stay.
   */
  lemma AfterTasksSpec(v: Snapshot, nowMs: int)
    ensures var w, c := AfterTasks(v, nowMs), AfterCheck(v, nowMs);
      && w.state == c.state && w.closeInfo == c.closeInfo && w.log == c.log
      && w.paths == Tables(v.paths.active, Unexpired(v.paths.probing, nowMs / 1000), v.paths.validated)
      && w.challenge == (if v.challengeTimeout.Some? && nowMs / 1000 > v.challengeTimeout.value then None else v.challenge)
      && w.challengeTimeout ==
           (if v.challengeTimeout.Some? && nowMs / 1000 > v.challengeTimeout.value then None else v.challengeTimeout)
      && w.lastActivity == (if v.pingEnabled && w.state != Closed then AfterTick(v.lastActivity, v.pingInterval, nowMs)
                            else v.lastActivity)
      && w.pending == []
      && w.(state := v.state, closeInfo := v.closeInfo, log := v.log, paths := v.paths, challenge := v.challenge,
            challengeTimeout := v.challengeTimeout, lastActivity := v.lastActivity, pending := v.pending) == v
  {
    AfterCheckSpec(v, nowMs);
  }

  /** After `close(errorCode, reason)` at `nowSec`: nothing changes once CLOSED. */
  function AfterClose(v: Snapshot, errorCode: int, reason: ByteString, nowSec: int): Snapshot
  {
    if v.state == Closed then v
    else
      var info := CloseInfo(errorCode, None, reason, Some(nowSec));
      var target := CloseTarget(v.state);
      v.(state := target, closeInfo := info,
         log := v.log + (if target != v.state then HookLog(v.handlers, target, info) else []))
  }

  class Connection {
    const stateMachine: ConnectionStateMachine
    const pathManager: PathManager
    const idleTimeoutManager: IdleTimeoutManager
    /** `$eventCallbacks`, shared with the state machine, which triggers events on this connection. */
    const bus: EventBus
    const localConnectionId: ByteString
    var remoteConnectionId: Option<ByteString>
    const isServer: bool
    var transportParameters: map<string, ParamValue>
    var pendingFrames: seq<Frame>
    /** The objects this connection owns. */
    ghost const Repr: set<object>

    /** The connection's whole changeable state. */
    ghost function View(): Snapshot
      reads this, stateMachine, bus, idleTimeoutManager, pathManager
    {
      Snapshot(stateMachine.state, stateMachine.closeInfo, bus.handlers, bus.log,
               idleTimeoutManager.connection, idleTimeoutManager.idleTimeout, idleTimeoutManager.lastActivityTime,
               idleTimeoutManager.pingEnabled, idleTimeoutManager.pingInterval,
               pathManager.Paths(), pathManager.validationChallenge, pathManager.validationTimeout,
               pathManager.preferredAddress, remoteConnectionId, transportParameters, pendingFrames)
    }

    ghost predicate Valid()
      reads this, Repr
    {
      && Repr == {stateMachine, pathManager, idleTimeoutManager, bus}
      && stateMachine.bus == bus
      && idleTimeoutManager.stateMachine == stateMachine
      && (idleTimeoutManager.connection.None? || idleTimeoutManager.connection.value == bus)
      && pathManager.isServer == isServer
      && pathManager.Valid()
      && idleTimeoutManager.Valid()
    }

    /** A new connection is NEW, has no remote id and uses the given local id, or fresh random bytes. */
    constructor(isServer: bool, localConnectionId: Option<ByteString>, randomId: ByteString, consts: Constants, nowMs: int)
      requires |randomId| == consts.defaultConnectionIdLength
      ensures Valid() && fresh(Repr)
      ensures this.isServer == isServer
      ensures this.localConnectionId == if localConnectionId.Some? then localConnectionId.value else randomId
      ensures remoteConnectionId == None
      ensures stateMachine.state == New && stateMachine.closeInfo == InitialCloseInfo
      ensures transportParameters == consts.defaultTransportParameters && pendingFrames == []
      ensures bus.handlers == map[] && bus.log == []
      ensures pathManager.Paths() == Tables(None, [], []) && pathManager.validationChallenge == None
      ensures idleTimeoutManager.idleTimeout == consts.defaultIdleTimeout
      ensures idleTimeoutManager.lastActivityTime == nowMs && idleTimeoutManager.pingEnabled
      ensures idleTimeoutManager.connection == None
      ensures View() == InitialView(consts, nowMs)
    {
      this.isServer := isServer;
      this.localConnectionId := if localConnectionId.Some? then localConnectionId.value else randomId;
      remoteConnectionId := None;
      var b := new EventBus();
      var sm := new ConnectionStateMachine(b);
      var pm := new PathManager(isServer);
      var im := new IdleTimeoutManager(sm, consts, nowMs);
      bus := b;
      stateMachine := sm;
      pathManager := pm;
      idleTimeoutManager := im;
      transportParameters := consts.defaultTransportParameters;
      pendingFrames := [];
      Repr := {sm, pm, im, b};
    }

    /**
     * Only a NEW connection may connect: the given 4-tuple becomes the
     * validated active path and the machine enters HANDSHAKING, which emits
     * no event.
     */
    method Connect(remoteAddress: string, remotePort: int, localAddress: string, localPort: int, nowSec: int)
      returns (r: Outcome<QuicError>)
      requires Valid()
      modifies Repr
      ensures Valid()
      ensures r == if old(stateMachine.state) == New then Pass else Fail(Runtime)
      ensures r.Pass? ==> stateMachine.state == Handshaking
      ensures r.Pass? ==>
        pathManager.activePath ==
          Some(Path(PathId(localAddress, localPort, remoteAddress, remotePort), Validated, Some(nowSec), None))
      ensures r.Fail? ==> stateMachine.state == old(stateMachine.state) && unchanged(pathManager)
      ensures r.Pass? ==>
        View() == old(View()).(state := Handshaking,
                               paths := old(View()).paths.(active := pathManager.activePath))
      ensures r.Fail? ==> View() == old(View())
      ensures pathManager.probingPaths == old(pathManager.probingPaths)
      ensures pathManager.validatedPaths == old(pathManager.validatedPaths)
      ensures stateMachine.closeInfo == old(stateMachine.closeInfo)
      ensures bus.handlers == old(bus.handlers) && bus.log == old(bus.log)
      ensures unchanged(idleTimeoutManager)
    {
      if stateMachine.state != New {
        return Fail(Runtime);
      }
      pathManager.InitializePath(localAddress, localPort, remoteAddress, remotePort, nowSec);
      var t := stateMachine.TransitionTo(Handshaking);
      assert HookLog(bus.handlers, Handshaking, stateMachine.closeInfo) == [];
      r := Pass;
    }

    /** A received packet only refreshes the activity time: no frames are extracted yet. */
    method HandlePacket(nowMs: int)
      requires Valid()
      modifies idleTimeoutManager
      ensures Valid()
      ensures idleTimeoutManager.lastActivityTime == nowMs
      ensures idleTimeoutManager.idleTimeout == old(idleTimeoutManager.idleTimeout)
      ensures idleTimeoutManager.pingEnabled == old(idleTimeoutManager.pingEnabled)
      ensures idleTimeoutManager.connection == old(idleTimeoutManager.connection)
      ensures remoteConnectionId == old(remoteConnectionId)
    {
      idleTimeoutManager.UpdateActivity(nowMs);
    }

    /** Queues a frame, which only a CONNECTED connection may do, and refreshes the activity time. */
    method SendFrame(frame: Frame, nowMs: int) returns (r: Outcome<QuicError>)
      requires Valid()
      modifies this, idleTimeoutManager
      ensures Valid()
      ensures r == if stateMachine.state == Connected then Pass else Fail(Runtime)
      ensures pendingFrames == if r.Pass? then old(pendingFrames) + [frame] else old(pendingFrames)
      ensures idleTimeoutManager.lastActivityTime ==
        if r.Pass? then nowMs else old(idleTimeoutManager.lastActivityTime)
      ensures idleTimeoutManager.idleTimeout == old(idleTimeoutManager.idleTimeout)
      ensures idleTimeoutManager.pingEnabled == old(idleTimeoutManager.pingEnabled)
      ensures idleTimeoutManager.connection == old(idleTimeoutManager.connection)
      ensures transportParameters == old(transportParameters) && remoteConnectionId == old(remoteConnectionId)
    {
      if !stateMachine.CanSendData() {
        return Fail(Runtime);
      }
      pendingFrames := pendingFrames + [frame];
      idleTimeoutManager.UpdateActivity(nowMs);
      r := Pass;
    }

    /** `close`: the state machine's close, without a frame type. */
    method Close(errorCode: int, reason: ByteString, nowSec: int)
      requires Valid()
      modifies stateMachine, bus
      ensures Valid()
      ensures stateMachine.state == CloseTarget(old(stateMachine.state))
      ensures stateMachine.closeInfo == if old(stateMachine.state) == Closed then old(stateMachine.closeInfo)
                                        else CloseInfo(errorCode, None, reason, Some(nowSec))
      ensures bus.handlers == old(bus.handlers)
      ensures bus.log == old(bus.log) +
        if stateMachine.state != old(stateMachine.state)
        then HookLog(bus.handlers, stateMachine.state, stateMachine.closeInfo) else []
      ensures View() == AfterClose(old(View()), errorCode, reason, nowSec)
    {
      stateMachine.Close(errorCode, reason, None, nowSec);
    }

    /**
     * One periodic tick: the idle check, path cleanup, a keep-alive (which
     * only refreshes the activity time) when a PING is due after the check,
     * and flushing the frame queue.
     */
    method ProcessPendingTasks(nowMs: int)
      requires Valid()
      modifies this, Repr
      ensures Valid()
      ensures View() == AfterTasks(old(View()), nowMs)
    {
      var fired := CheckIdle(nowMs);
      CleanupPaths(nowMs / 1000);
      if idleTimeoutManager.ShouldSendPing(nowMs) {
        SendPing(nowMs);
      }
      FlushPendingFrames();
    }

    /** `$this->idleTimeoutManager->checkTimeout()`, seen on the whole connection. */
    method CheckIdle(nowMs: int) returns (fired: bool)
      requires Valid()
      modifies Repr
      ensures Valid()
      ensures fired == TimeoutDue(old(stateMachine.state), old(idleTimeoutManager.lastActivityTime),
                                  old(idleTimeoutManager.idleTimeout), nowMs)
      ensures View() == AfterCheck(old(View()), nowMs)
    {
      fired := idleTimeoutManager.CheckTimeout(nowMs);
    }

    /** `$this->pathManager->cleanupTimeoutPaths()`, seen on the whole connection. */
    method CleanupPaths(nowSec: int)
      requires Valid()
      modifies pathManager
      ensures Valid()
      ensures var v := old(View());
        var expired := v.challengeTimeout.Some? && nowSec > v.challengeTimeout.value;
        View() == v.(paths := v.paths.(probing := Unexpired(v.paths.probing, nowSec)),
                     challenge := if expired then None else v.challenge,
                     challengeTimeout := if expired then None else v.challengeTimeout)
    {
      pathManager.CleanupTimeoutPaths(nowSec);
    }

    /** The PING itself is not built yet; sending one only refreshes the activity time. */
    method SendPing(nowMs: int)
      requires Valid()
      modifies idleTimeoutManager
      ensures Valid()
      ensures idleTimeoutManager.lastActivityTime == nowMs
      ensures idleTimeoutManager.idleTimeout == old(idleTimeoutManager.idleTimeout)
      ensures idleTimeoutManager.pingEnabled == old(idleTimeoutManager.pingEnabled)
      ensures idleTimeoutManager.connection == old(idleTimeoutManager.connection)
      ensures View() == old(View()).(lastActivity := nowMs)
    {
      idleTimeoutManager.UpdateActivity(nowMs);
    }

    /** Packing and sending is not built yet; the queue is emptied. */
    method FlushPendingFrames()
      modifies this
      ensures pendingFrames == []
      ensures transportParameters == old(transportParameters) && remoteConnectionId == old(remoteConnectionId)
      ensures View() == old(View()).(pending := [])
    {
      if |pendingFrames| == 0 {
        return;
      }
      pendingFrames := [];
    }

    /** `getTransportParameter`: an absent key reads as null. */
    function GetTransportParameter(key: string): (r: Option<ParamValue>)
      reads this
      ensures r.Some? <==> key in transportParameters
      ensures r.Some? ==> r.value == transportParameters[key]
    {
      if key in transportParameters then Some(transportParameters[key]) else None
    }

    /** Afterwards `key` reads as `value` and every other key reads as before. */
    method SetTransportParameter(key: string, value: ParamValue)
      requires Valid()
      modifies this
      ensures Valid()
      ensures transportParameters == old(transportParameters)[key := value]
      ensures GetTransportParameter(key) == Some(value)
      ensures forall k | k != key :: GetTransportParameter(k) == old(GetTransportParameter(k))
      ensures transportParameters.Keys == old(transportParameters.Keys) + {key}
      ensures pendingFrames == old(pendingFrames) && remoteConnectionId == old(remoteConnectionId)
      ensures View() == old(View()).(parameters := old(transportParameters)[key := value])
    {
      transportParameters := transportParameters[key := value];
    }

    method OnEvent(name: string, handler: HandlerId)
      requires Valid()
      modifies bus
      ensures Valid()
      ensures bus.handlers == old(bus.handlers)[name := Registered(old(bus.handlers), name) + [handler]]
      ensures bus.log == old(bus.log)
      ensures View() == old(View()).(handlers := bus.handlers)
    {
      bus.OnEvent(name, handler);
    }

    /** Every handler registered under `name` is called once, in registration order. */
    method TriggerEvent(name: string, data: EventData)
      requires Valid()
      modifies bus
      ensures Valid()
      ensures bus.handlers == old(bus.handlers)
      ensures bus.log == old(bus.log) + Dispatch(Registered(bus.handlers, name), name, data)
    {
      bus.TriggerEvent(name, data);
    }
  }

  /** The snapshot after one `processPendingTasks` tick at each time of `ticks`, in order. */
  function AfterTaskRun(v: Snapshot, ticks: seq<int>): Snapshot
    decreases |ticks|
  {
    if |ticks| == 0 then v
    else AfterTasks(AfterTaskRun(v, ticks[..|ticks| - 1]), ticks[|ticks| - 1])
  }

  /**
   * Keep-alive at the connection level: an open connection with pings on,
   * ticked by `processPendingTasks` at times at most one ping interval apart
   * (the first within one interval of its last activity), never has its idle
   * check fire. It keeps its state and close info throughout, and its
   * activity time follows `AfterTicks`.
   */
  lemma {:induction false} TicksNeverTimeOut(v: Snapshot, ticks: seq<int>)
    requires v.pingEnabled && v.state != Closed
    requires v.pingInterval == Half(v.idleTimeout) && Half(v.idleTimeout) > 0
    requires |ticks| > 0 ==> ticks[0] - v.lastActivity <= Half(v.idleTimeout)
    requires forall j | 0 <= j < |ticks| - 1 :: ticks[j + 1] - ticks[j] <= Half(v.idleTimeout)
    ensures forall i | 0 <= i < |ticks| ::
      !TimeoutDue(AfterTaskRun(v, ticks[..i]).state, AfterTaskRun(v, ticks[..i]).lastActivity,
                  AfterTaskRun(v, ticks[..i]).idleTimeout, ticks[i])
    ensures var w := AfterTaskRun(v, ticks);
      && w.state == v.state && w.closeInfo == v.closeInfo
      && w.lastActivity == AfterTicks(v.lastActivity, v.pingInterval, ticks)
      && w.idleTimeout == v.idleTimeout && w.pingEnabled && w.pingInterval == v.pingInterval
  {
    if |ticks| > 0 {
      var n := |ticks| - 1;
      var pre := ticks[..n];
      TicksNeverTimeOut(v, pre);
      KeepaliveNeverTimesOut(v.idleTimeout, v.lastActivity, ticks);
      var u := AfterTaskRun(v, pre);
      assert ticks[..n] == pre;
      assert !TimeoutDue(u.state, u.lastActivity, u.idleTimeout, ticks[n]);
      AfterTasksSpec(u, ticks[n]);
      AfterCheckSpec(u, ticks[n]);
      forall i | 0 <= i < n
        ensures !TimeoutDue(AfterTaskRun(v, ticks[..i]).state, AfterTaskRun(v, ticks[..i]).lastActivity,
                            AfterTaskRun(v, ticks[..i]).idleTimeout, ticks[i])
      {
        assert ticks[..i] == pre[..i];
      }
    }
  }
}
