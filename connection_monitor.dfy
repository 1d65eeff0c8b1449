/**
 * The connection monitor: counters updated by the handlers it registers on
 * a connection, and the statistics and health report built from them. The
 * clock `time()` is the `nowSec` parameter; rates, which the source computes
 * as floats, are kept as numerator/denominator pairs.
 */
module Monitoring {
  import opened Wrappers
  import opened Bytes
  import opened ConnectionStates
  import opened Events
  import opened StateMachine
  import opened IdleTimeout
  import opened Connections

  /** The `$statistics` array: seven integer counters. */
  datatype Statistics = Statistics(
    packetsSent: int, packetsReceived: int, bytesSent: int, bytesReceived: int,
    connectionTime: int, stateChanges: int, errors: int)

  const ZeroStatistics := Statistics(0, 0, 0, 0, 0, 0, 0)

  /** `$data['size']` as a packet handler sees it; `Numeric` carries the value `(int)` gives. */
  datatype SizeField = Absent | NonNumeric | Numeric(value: int)

  /** `is_numeric($size) ? (int) $size : 0`, where a missing size is 0. */
  function SizeOf(size: SizeField): int
  {
    match size
    case Numeric(v) => v
    case _ => 0
  }

  /** A quotient the source computes in floating point. */
  datatype Ratio = Ratio(num: int, den: int)

  /** The identities of the six bound handlers `registerEventHandlers` installs. */
  datatype MonitorHandlers = MonitorHandlers(
    connected: HandlerId, disconnected: HandlerId, error: HandlerId,
    packetSent: HandlerId, packetReceived: HandlerId, stateChanged: HandlerId)

  /** The `getStatistics` array: the counters, uptime, the state's name and, for a positive uptime, both rates. */
  datatype Report = Report(
    statistics: Statistics, uptime: int, currentState: string,
    packetsPerSecond: Option<Ratio>, bytesPerSecond: Option<Ratio>)

  /** The `getHealthStatus` array. */
  datatype Health = Health(
    isHealthy: bool, state: string, uptime: int, timeToTimeout: int, errorCount: int, packetLossRate: Ratio)

  /** The registry after the six `onEvent` calls of `registerEventHandlers`. */
  function WithMonitorHandlers(h: map<string, seq<HandlerId>>, ids: MonitorHandlers): map<string, seq<HandlerId>>
  {
    var h1 := h["connected" := Registered(h, "connected") + [ids.connected]];
    var h2 := h1["disconnected" := Registered(h1, "disconnected") + [ids.disconnected]];
    var h3 := h2["error" := Registered(h2, "error") + [ids.error]];
    var h4 := h3["packet_sent" := Registered(h3, "packet_sent") + [ids.packetSent]];
    var h5 := h4["packet_received" := Registered(h4, "packet_received") + [ids.packetReceived]];
    h5["state_changed" := Registered(h5, "state_changed") + [ids.stateChanged]]
  }

  /** The six event names the monitor listens to. */
  const MonitoredEvents: set<string> :=
    {"connected", "disconnected", "error", "packet_sent", "packet_received", "state_changed"}

  /**
   * Each monitored event gains exactly its one handler at the end of its
   * list; every other event keeps its handlers.
   */
  lemma MonitorHandlersAppended(h: map<string, seq<HandlerId>>, ids: MonitorHandlers, e: string)
    ensures Registered(WithMonitorHandlers(h, ids), e) == Registered(h, e) +
      (if e == "connected" then [ids.connected]
       else if e == "disconnected" then [ids.disconnected]
       else if e == "error" then [ids.error]
       else if e == "packet_sent" then [ids.packetSent]
       else if e == "packet_received" then [ids.packetReceived]
       else if e == "state_changed" then [ids.stateChanged]
       else [])
    ensures e !in MonitoredEvents ==> Registered(WithMonitorHandlers(h, ids), e) == Registered(h, e)
  {
  }

  class ConnectionMonitor {
    const connection: Connection
    var statistics: Statistics
    var startTime: int

    /** Packet, state-change and error counts never go negative (byte totals may: a size can be negative). */
    ghost predicate Valid()
      reads this
    {
      statistics.packetsSent >= 0 && statistics.packetsReceived >= 0
      && statistics.stateChanges >= 0 && statistics.errors >= 0
    }

    /** All counters start at zero; the six handlers are registered on the connection. */
    constructor(connection: Connection, ids: MonitorHandlers, nowSec: int)
      requires connection.Valid()
      modifies connection.bus
      ensures Valid() && connection.Valid()
      ensures this.connection == connection && statistics == ZeroStatistics && startTime == nowSec
      ensures connection.bus.handlers == WithMonitorHandlers(old(connection.bus.handlers), ids)
      ensures connection.bus.log == old(connection.bus.log)
    {
      this.connection := connection;
      statistics := ZeroStatistics;
      startTime := nowSec;
      new;
      RegisterEventHandlers(ids);
    }

    /** `registerEventHandlers`: one handler for each monitored event, in this order. */
    method RegisterEventHandlers(ids: MonitorHandlers)
      requires connection.Valid()
      modifies connection.bus
      ensures connection.Valid()
      ensures connection.bus.handlers == WithMonitorHandlers(old(connection.bus.handlers), ids)
      ensures connection.bus.log == old(connection.bus.log)
    {
      var c := connection;
      c.OnEvent("connected", ids.connected);
      c.OnEvent("disconnected", ids.disconnected);
      c.OnEvent("error", ids.error);
      c.OnEvent("packet_sent", ids.packetSent);
      c.OnEvent("packet_received", ids.packetReceived);
      c.OnEvent("state_changed", ids.stateChanged);
    }

    /** `onConnected`: records the seconds since monitoring started; nothing else changes. */
    method OnConnected(nowSec: int)
      requires Valid()
      modifies this
      ensures Valid()
      ensures statistics == old(statistics).(connectionTime := nowSec - startTime)
      ensures startTime == old(startTime)
    {
      statistics := statistics.(connectionTime := nowSec - startTime);
    }

    /** `onDisconnected` records nothing. */
    method OnDisconnected(errorCode: int, reason: ByteString)
      requires Valid()
      ensures Valid()
    {
    }

    /** `onError`: one more error; nothing else changes. */
    method OnError()
      requires Valid()
      modifies this
      ensures Valid()
      ensures statistics == old(statistics).(errors := old(statistics).errors + 1)
      ensures startTime == old(startTime)
    {
      statistics := statistics.(errors := statistics.errors + 1);
    }

    /** `onPacketSent`: one more packet sent and its size added to the bytes sent; nothing else changes. */
    method OnPacketSent(size: SizeField)
      requires Valid()
      modifies this
      ensures Valid()
      ensures statistics == old(statistics).(packetsSent := old(statistics).packetsSent + 1,
                                             bytesSent := old(statistics).bytesSent + SizeOf(size))
      ensures startTime == old(startTime)
    {
      statistics := statistics.(packetsSent := statistics.packetsSent + 1);
      statistics := statistics.(bytesSent := statistics.bytesSent + SizeOf(size));
    }

    /** `onPacketReceived`: one more packet received and its size added to the bytes received; nothing else changes. */
    method OnPacketReceived(size: SizeField)
      requires Valid()
      modifies this
      ensures Valid()
      ensures statistics == old(statistics).(packetsReceived := old(statistics).packetsReceived + 1,
                                             bytesReceived := old(statistics).bytesReceived + SizeOf(size))
      ensures startTime == old(startTime)
    {
      statistics := statistics.(packetsReceived := statistics.packetsReceived + 1);
      statistics := statistics.(bytesReceived := statistics.bytesReceived + SizeOf(size));
    }

    /** `onStateChanged`: one more state change; nothing else changes. */
    method OnStateChanged()
      requires Valid()
      modifies this
      ensures Valid()
      ensures statistics == old(statistics).(stateChanges := old(statistics).stateChanges + 1)
      ensures startTime == old(startTime)
    {
      statistics := statistics.(stateChanges := statistics.stateChanges + 1);
    }

    /**
     * `getStatistics`: the counters as they are, the uptime, the current
     * state's name and, only when the uptime is positive, packets and bytes
     * sent per second of uptime.
     */
    function GetStatistics(nowSec: int): (r: Report)
      reads this, connection, connection.stateMachine
      ensures r.statistics == statistics && r.uptime == nowSec - startTime
      ensures r.currentState == connection.stateMachine.state.Value()
      ensures r.packetsPerSecond.Some? <==> r.uptime > 0
      ensures r.bytesPerSecond.Some? <==> r.uptime > 0
      ensures r.packetsPerSecond.Some? ==> r.packetsPerSecond.value == Ratio(statistics.packetsSent, r.uptime)
      ensures r.bytesPerSecond.Some? ==> r.bytesPerSecond.value == Ratio(statistics.bytesSent, r.uptime)
    {
      var uptime := nowSec - startTime;
      if uptime > 0 then
        Report(statistics, uptime, connection.stateMachine.state.Value(),
               Some(Ratio(statistics.packetsSent, uptime)), Some(Ratio(statistics.bytesSent, uptime)))
      else
        Report(statistics, uptime, connection.stateMachine.state.Value(), None, None)
    }

    /** `resetStatistics`: all seven counters back to zero and monitoring restarts now. */
    method ResetStatistics(nowSec: int)
      modifies this
      ensures Valid()
      ensures statistics == ZeroStatistics && startTime == nowSec
    {
      statistics := ZeroStatistics;
      startTime := nowSec;
    }

    /**
     * `getHealthStatus`: healthy exactly when the state is active and no
     * error was counted; the time to timeout is the idle manager's.
     */
    function GetHealthStatus(nowMs: int): (r: Health)
      requires Valid()
      reads this, connection, connection.stateMachine, connection.idleTimeoutManager
      ensures r.isHealthy <==> connection.stateMachine.state in {New, Handshaking, Connected} && statistics.errors == 0
      ensures r.state == connection.stateMachine.state.Value()
      ensures r.uptime == nowMs / 1000 - startTime
      ensures r.timeToTimeout >= 0
      ensures r.timeToTimeout == 0 <==>
        nowMs - connection.idleTimeoutManager.lastActivityTime >= connection.idleTimeoutManager.idleTimeout
      ensures r.errorCount == statistics.errors
      ensures 0 <= r.packetLossRate.num <= r.packetLossRate.den
    {
      var state := connection.stateMachine.state;
      Health(state.IsActive() && 0 == statistics.errors, state.Value(), nowMs / 1000 - startTime,
             connection.idleTimeoutManager.TimeToTimeout(nowMs), statistics.errors, PacketLossRate())
    }

    /**
     * `calculatePacketLossRate`: sent packets in excess of received ones over
     * all packets counted, which lies between 0 and 1; 0 when none were
     * counted.
     */
    function PacketLossRate(): (r: Ratio)
      requires Valid()
      reads this
      ensures 0 < r.den && 0 <= r.num <= r.den
      ensures statistics.packetsSent + statistics.packetsReceived == 0 ==> r.num == 0
      ensures statistics.packetsSent + statistics.packetsReceived > 0 ==>
        r.den == statistics.packetsSent + statistics.packetsReceived
        && r.num == if statistics.packetsSent > statistics.packetsReceived
                    then statistics.packetsSent - statistics.packetsReceived else 0
    {
      var total := statistics.packetsSent + statistics.packetsReceived;
      if 0 == total then Ratio(0, 1)
      else
        var lost := if statistics.packetsSent - statistics.packetsReceived < 0 then 0
                    else statistics.packetsSent - statistics.packetsReceived;
        Ratio(lost, total)
    }
  }
}
