/**
 * Idle timeout detection and keep-alive scheduling (section 10.1 of RFC 9000).
 * The millisecond clock `(int)(microtime(true) * 1000)` is the `nowMs`
 * parameter; the close info timestamp, which the state machine takes from
 * `time()`, is `nowMs / 1000` of the same reading.
 */
module IdleTimeout {
  import opened Wrappers
  import opened Bytes
  import opened ConnectionStates
  import opened Events
  import opened StateMachine
  import opened CoreConstants

  /** `(int)($t * 0.5)`: half of `t`, truncated toward zero. */
  function Half(t: int): (h: int)
    ensures t >= 0 ==> 0 <= t - 2 * h <= 1
    ensures t < 0 ==> -1 <= t - 2 * h <= 0
  {
    if t >= 0 then t / 2 else -((-t) / 2)
  }

  /** The reason bytes "idle timeout". */
  const IdleTimeoutReason: ByteString := [0x69, 0x64, 0x6c, 0x65, 0x20, 0x74, 0x69, 0x6d, 0x65, 0x6f, 0x75, 0x74]

  /** The condition under which `checkTimeout` fires. */
  predicate TimeoutDue(state: ConnectionState, lastActivity: int, idleTimeout: int, nowMs: int)
  {
    state != Closed && nowMs - lastActivity >= idleTimeout
  }

  /**
   * A timeout from HANDSHAKING or CONNECTED only reaches CLOSING, so without
   * new activity the next check fires again; from NEW the machine ends CLOSED
   * and no later check fires.
   */
  lemma TimeoutRepeats(s: ConnectionState, lastActivity: int, idleTimeout: int, nowMs: int, laterMs: int)
    requires TimeoutDue(s, lastActivity, idleTimeout, nowMs) && nowMs <= laterMs
    ensures s == New ==> !TimeoutDue(CloseTarget(s), lastActivity, idleTimeout, laterMs)
    ensures s != New ==> TimeoutDue(CloseTarget(s), lastActivity, idleTimeout, laterMs)
  {
  }

  /** The last-activity time after a periodic tick on which no timeout fired and a ping was due or not. */
  function AfterTick(lastActivity: int, pingInterval: int, nowMs: int): int
  {
    if nowMs - lastActivity >= pingInterval then nowMs else lastActivity
  }

  /** The last-activity time after a run of such ticks. */
  function AfterTicks(lastActivity: int, pingInterval: int, ticks: seq<int>): int
  {
    if |ticks| == 0 then lastActivity
    else AfterTick(AfterTicks(lastActivity, pingInterval, ticks[..|ticks| - 1]), pingInterval, ticks[|ticks| - 1])
  }

  /**
   * Keep-alive: with pings enabled and a positive ping interval of half the
   * idle timeout, ticks that come at most one ping interval apart (the first
   * within one interval of the last activity) never find the connection idle
   * for the full timeout.
   */
  lemma {:induction false} KeepaliveNeverTimesOut(idleTimeout: int, lastActivity: int, ticks: seq<int>)
    requires Half(idleTimeout) > 0
    requires |ticks| > 0 ==> ticks[0] - lastActivity <= Half(idleTimeout)
    requires forall i | 0 <= i < |ticks| - 1 :: ticks[i + 1] - ticks[i] <= Half(idleTimeout)
    ensures forall i | 0 <= i < |ticks| ::
      ticks[i] - AfterTicks(lastActivity, Half(idleTimeout), ticks[..i]) < idleTimeout
  {
    var p := Half(idleTimeout);
    forall i | 0 <= i < |ticks|
      ensures ticks[i] - AfterTicks(lastActivity, p, ticks[..i]) < idleTimeout
    {
      if i > 0 {
        assert ticks[..i][..i - 1] == ticks[..i - 1];
        var before := AfterTicks(lastActivity, p, ticks[..i - 1]);
        assert AfterTicks(lastActivity, p, ticks[..i]) == AfterTick(before, p, ticks[i - 1]);
        assert ticks[i - 1] - AfterTick(before, p, ticks[i - 1]) < p;
      } else {
        assert ticks[..i] == [];
      }
    }
  }

  class IdleTimeoutManager {
    const stateMachine: ConnectionStateMachine
    /** The registry of the connection set with `setConnection`, which hears 'timeout'. */
    var connection: Option<EventBus>
    var idleTimeout: int
    var lastActivityTime: int
    var pingEnabled: bool
    var pingInterval: int

    /** The ping interval is always half the idle timeout, truncated toward zero. */
    ghost predicate Valid()
      reads this
    {
      pingInterval == Half(idleTimeout)
    }

    constructor(stateMachine: ConnectionStateMachine, consts: Constants, nowMs: int)
      ensures Valid()
      ensures this.stateMachine == stateMachine && connection == None
      ensures idleTimeout == consts.defaultIdleTimeout && lastActivityTime == nowMs && pingEnabled
    {
      this.stateMachine := stateMachine;
      connection := None;
      idleTimeout := consts.defaultIdleTimeout;
      lastActivityTime := nowMs;
      pingEnabled := true;
      pingInterval := Half(consts.defaultIdleTimeout);
    }

    method UpdateActivity(nowMs: int)
      modifies this
      ensures lastActivityTime == nowMs
      ensures idleTimeout == old(idleTimeout) && pingInterval == old(pingInterval)
      ensures pingEnabled == old(pingEnabled) && connection == old(connection)
    {
      lastActivityTime := nowMs;
    }

    /** `reset`: the same effect as `updateActivity`. */
    method Reset(nowMs: int)
      modifies this
      ensures lastActivityTime == nowMs
      ensures idleTimeout == old(idleTimeout) && pingInterval == old(pingInterval)
      ensures pingEnabled == old(pingEnabled) && connection == old(connection)
    {
      lastActivityTime := nowMs;
    }

    /**
     * Fires when the machine is not CLOSED and the connection has been idle
     * for the whole timeout: 'timeout' goes to the connection set with
     * `setConnection`, then the machine is closed with error 0 and reason
     * "idle timeout". When it does not fire nothing changes.
     */
    method CheckTimeout(nowMs: int) returns (timedOut: bool)
      modifies stateMachine, stateMachine.bus, if connection.Some? then {connection.value} else {}
      ensures timedOut == TimeoutDue(old(stateMachine.state), lastActivityTime, idleTimeout, nowMs)
      ensures stateMachine.state == if timedOut then CloseTarget(old(stateMachine.state)) else old(stateMachine.state)
      ensures stateMachine.closeInfo ==
        if timedOut then CloseInfo(0, None, IdleTimeoutReason, Some(nowMs / 1000)) else old(stateMachine.closeInfo)
      ensures stateMachine.bus.handlers == old(stateMachine.bus.handlers)
      ensures connection.Some? ==> connection.value.handlers == old(connection.value.handlers)
      ensures var timeoutLog :=
                if timedOut && connection.Some?
                then Dispatch(Registered(connection.value.handlers, "timeout"), "timeout", TimeoutData("idle timeout"))
                else [];
              var closeLog :=
                if stateMachine.state != old(stateMachine.state)
                then HookLog(stateMachine.bus.handlers, stateMachine.state, stateMachine.closeInfo)
                else [];
        && (connection.Some? && connection.value == stateMachine.bus ==>
              stateMachine.bus.log == old(stateMachine.bus.log) + timeoutLog + closeLog)
        && (connection.Some? && connection.value != stateMachine.bus ==>
              stateMachine.bus.log == old(stateMachine.bus.log) + closeLog
              && connection.value.log == old(connection.value.log) + timeoutLog)
        && (connection.None? ==> stateMachine.bus.log == old(stateMachine.bus.log) + closeLog)
    {
      if stateMachine.state.IsClosed() {
        return false;
      }
      var idleTime := nowMs - lastActivityTime;
      if idleTime >= idleTimeout {
        HandleTimeout(nowMs);
        return true;
      }
      return false;
    }

    method HandleTimeout(nowMs: int)
      requires stateMachine.state != Closed
      modifies stateMachine, stateMachine.bus, if connection.Some? then {connection.value} else {}
      ensures stateMachine.state == CloseTarget(old(stateMachine.state))
      ensures stateMachine.closeInfo == CloseInfo(0, None, IdleTimeoutReason, Some(nowMs / 1000))
      ensures stateMachine.bus.handlers == old(stateMachine.bus.handlers)
      ensures connection.Some? ==> connection.value.handlers == old(connection.value.handlers)
      ensures var timeoutLog :=
                if connection.Some?
                then Dispatch(Registered(connection.value.handlers, "timeout"), "timeout", TimeoutData("idle timeout"))
                else [];
              var closeLog :=
                if stateMachine.state != old(stateMachine.state)
                then HookLog(stateMachine.bus.handlers, stateMachine.state, stateMachine.closeInfo)
                else [];
        && (connection.Some? && connection.value == stateMachine.bus ==>
              stateMachine.bus.log == old(stateMachine.bus.log) + timeoutLog + closeLog)
        && (connection.Some? && connection.value != stateMachine.bus ==>
              stateMachine.bus.log == old(stateMachine.bus.log) + closeLog
              && connection.value.log == old(connection.value.log) + timeoutLog)
        && (connection.None? ==> stateMachine.bus.log == old(stateMachine.bus.log) + closeLog)
    {
      if connection.Some? {
        connection.value.TriggerEvent("timeout", TimeoutData("idle timeout"));
      }
      stateMachine.Close(0, IdleTimeoutReason, None, nowMs / 1000);
    }

    /** A PING is due when pings are on, the machine is not CLOSED and the idle time reached the ping interval. */
    function ShouldSendPing(nowMs: int): (b: bool)
      reads this, stateMachine
      ensures b <==> pingEnabled && stateMachine.state != Closed && TimeToPing(nowMs) == 0
    {
      pingEnabled && !stateMachine.state.IsClosed() && nowMs - lastActivityTime >= pingInterval
    }

    method SetConnection(bus: EventBus)
      modifies this
      ensures connection == Some(bus)
      ensures idleTimeout == old(idleTimeout) && pingInterval == old(pingInterval)
      ensures lastActivityTime == old(lastActivityTime) && pingEnabled == old(pingEnabled)
    {
      connection := Some(bus);
    }

    /** Negative timeouts are clamped to 0; the ping interval follows. */
    method SetIdleTimeout(timeoutMs: int)
      modifies this
      ensures Valid()
      ensures idleTimeout == if timeoutMs < 0 then 0 else timeoutMs
      ensures lastActivityTime == old(lastActivityTime) && pingEnabled == old(pingEnabled)
      ensures connection == old(connection)
    {
      idleTimeout := if timeoutMs < 0 then 0 else timeoutMs;
      pingInterval := Half(idleTimeout);
    }

    /** Refreshes activity, then adds the extension (unclamped); the ping interval follows. */
    method ExtendTimeout(extensionMs: int, nowMs: int)
      modifies this
      ensures Valid()
      ensures lastActivityTime == nowMs
      ensures idleTimeout == old(idleTimeout) + extensionMs
      ensures pingEnabled == old(pingEnabled) && connection == old(connection)
    {
      UpdateActivity(nowMs);
      idleTimeout := idleTimeout + extensionMs;
      pingInterval := Half(idleTimeout);
    }

    method SetPingEnabled(enabled: bool)
      modifies this
      ensures pingEnabled == enabled
      ensures idleTimeout == old(idleTimeout) && pingInterval == old(pingInterval)
      ensures lastActivityTime == old(lastActivityTime) && connection == old(connection)
    {
      pingEnabled := enabled;
    }

    /** Milliseconds left before a timeout: zero exactly when the idle time has reached the timeout. */
    function TimeToTimeout(nowMs: int): (r: int)
      reads this
      ensures r >= 0
      ensures r == 0 <==> nowMs - lastActivityTime >= idleTimeout
      ensures r > 0 ==> lastActivityTime + idleTimeout == nowMs + r
    {
      var idleTime := nowMs - lastActivityTime;
      if idleTimeout - idleTime < 0 then 0 else idleTimeout - idleTime
    }

    /** Milliseconds left before a PING is due; PHP_INT_MAX when pings are off. */
    function TimeToPing(nowMs: int): (r: int)
      reads this
      ensures r >= 0
      ensures !pingEnabled ==> r == PhpIntMax
      ensures pingEnabled ==> (r == 0 <==> nowMs - lastActivityTime >= pingInterval)
      ensures pingEnabled && r > 0 ==> lastActivityTime + pingInterval == nowMs + r
    {
      if !pingEnabled then PhpIntMax
      else
        var idleTime := nowMs - lastActivityTime;
        if pingInterval - idleTime < 0 then 0 else pingInterval - idleTime
    }
  }

  /** Right after activity is recorded the whole timeout lies ahead (none at all if it is not positive). */
  lemma TimeToTimeoutAfterActivity(m: IdleTimeoutManager, nowMs: int)
    requires m.lastActivityTime == nowMs
    ensures m.TimeToTimeout(nowMs) == if m.idleTimeout < 0 then 0 else m.idleTimeout
  {
  }
}
