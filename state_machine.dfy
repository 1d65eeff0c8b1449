/**
 * `ConnectionStateMachine`: the legal-transition table, the hooks that fire on
 * entering a state, `close` / `immediateClose`, and the CONNECTION_CLOSE
 * payload emitted on entering CLOSING (fixed-width big-endian fields, not the
 * variable-length layout of section 19.19 of RFC 9000).
 */
module StateMachine {
  import opened Wrappers
  import opened Bytes
  import opened Exceptions
  import opened ConnectionStates
  import opened Events

  /** The `match` table of `isValidTransition`: exactly these ten edges are legal. */
  predicate IsValidTransition(from: ConnectionState, to: ConnectionState)
    ensures IsValidTransition(from, to) ==> from != to && from != Closed && to != New
  {
    match (from, to)
    case (New, Handshaking) => true
    case (New, Closed) => true
    case (Handshaking, Connected) => true
    case (Handshaking, Closing) => true
    case (Handshaking, Draining) => true
    case (Connected, Closing) => true
    case (Connected, Draining) => true
    case (Closing, Draining) => true
    case (Closing, Closed) => true
    case (Draining, Closed) => true
    case _ => false
  }

  /** CLOSED is terminal and NEW is only ever the initial state. */
  lemma ClosedTerminalNewInitial(s: ConnectionState)
    ensures !IsValidTransition(Closed, s)
    ensures !IsValidTransition(s, New)
  {
  }

  /** The closing phase is only entered from active states, and leaving it only goes further down. */
  lemma TransitionsNeverReopen(from: ConnectionState, to: ConnectionState)
    requires IsValidTransition(from, to)
    ensures !from.IsActive() ==> !to.IsActive()
    ensures to.IsClosed() ==> from == New || from.IsClosing()
  {
  }

  /** Position of a state in the lifecycle; every legal edge moves strictly forward. */
  function Rank(s: ConnectionState): (r: nat)
    ensures r <= 5
  {
    match s
    case New => 0
    case Handshaking => 1
    case Connected => 2
    case Closing => 3
    case Draining => 4
    case Closed => 5
  }

  lemma TransitionAdvancesRank(from: ConnectionState, to: ConnectionState)
    requires IsValidTransition(from, to)
    ensures Rank(from) < Rank(to)
  {
  }

  /** A run: every consecutive pair of states is an edge of the table. */
  ghost predicate IsRun(run: seq<ConnectionState>)
  {
    forall i :: 0 <= i < |run| - 1 ==> IsValidTransition(run[i], run[i + 1])
  }

  /**
   * Every run is a simple path through the table: ranks strictly increase, so
   * no state repeats, no run has more than six states, and nothing follows CLOSED.
   */
  lemma {:induction false} RunIsSimplePath(run: seq<ConnectionState>)
    requires IsRun(run)
    ensures forall i, j :: 0 <= i < j < |run| ==> Rank(run[i]) < Rank(run[j])
    ensures |run| <= 6
    ensures forall i :: 0 <= i < |run| - 1 ==> run[i] != Closed
  {
    if |run| > 1 {
      var tail := run[1..];
      assert IsRun(tail) by {
        forall i | 0 <= i < |tail| - 1 ensures IsValidTransition(tail[i], tail[i + 1]) {
          assert tail[i] == run[i + 1] && tail[i + 1] == run[i + 2];
        }
      }
      RunIsSimplePath(tail);
      TransitionAdvancesRank(run[0], run[1]);
      forall i, j | 0 <= i < j < |run| ensures Rank(run[i]) < Rank(run[j]) {
        if i > 0 {
          assert run[i] == tail[i - 1] && run[j] == tail[j - 1];
        } else if j > 1 {
          assert run[1] == tail[0] && run[j] == tail[j - 1];
        }
      }
      RanksAtLeast(run, Rank(run[0]));
      forall i | 0 <= i < |run| - 1 ensures run[i] != Closed {
        assert IsValidTransition(run[i], run[i + 1]);
      }
    }
  }

  /** In a strictly rank-increasing sequence the last rank is at least the first plus the length minus one. */
  lemma {:induction false} RanksAtLeast(run: seq<ConnectionState>, start: nat)
    requires |run| > 0 && Rank(run[0]) == start
    requires forall i, j :: 0 <= i < j < |run| ==> Rank(run[i]) < Rank(run[j])
    ensures start + |run| - 1 <= Rank(run[|run| - 1])
  {
    if |run| > 1 {
      RanksAtLeast(run[1..], Rank(run[1]));
      assert run[1..][|run| - 2] == run[|run| - 1];
    }
  }

  /** The close info before any close: `['errorCode' => 0, 'frameType' => null, 'reason' => '', 'timestamp' => null]`. */
  const InitialCloseInfo := CloseInfo(0, None, [], None)

  /**
   * The `frameData` built by `sendConnectionClose`: error code as `pack('N')`,
   * the frame type as `pack('N')` when present, the reason length as `pack('n')`,
   * then the reason bytes.
   */
  function ConnectionClosePayload(info: CloseInfo): (r: ByteString)
    ensures |r| == 6 + |info.reason| + (if info.frameType.Some? then 4 else 0)
  {
    PackN(info.errorCode)
      + (if info.frameType.Some? then PackN(info.frameType.value) else [])
      + Packn(|info.reason|)
      + info.reason
  }

  /** The fields a peer reads back from a payload, knowing whether a frame type is present. */
  datatype CloseFields = CloseFields(errorCode: nat, frameType: Option<nat>, reason: ByteString)

  function ParseConnectionClose(b: ByteString, hasFrameType: bool): Option<CloseFields>
  {
    var fixed := if hasFrameType then 10 else 6;
    if |b| < fixed then None
    else
      var code := ReadBigEndian(b[..4]);
      var ft := if hasFrameType then Some(ReadBigEndian(b[4..8])) else None;
      var len := ReadBigEndian(b[fixed - 2..fixed]);
      if |b| != fixed + len then None
      else Some(CloseFields(code, ft, b[fixed..]))
  }

  /**
   * The payload decodes to the recorded error code and frame type modulo 2^32 and
   * the reason, as long as the reason fits the 16-bit length field.
   */
  lemma ConnectionClosePayloadRoundTrip(info: CloseInfo)
    requires |info.reason| < 0x1_0000
    ensures ParseConnectionClose(ConnectionClosePayload(info), info.frameType.Some?)
      == Some(CloseFields(info.errorCode % 0x1_0000_0000,
                          if info.frameType.Some? then Some(info.frameType.value % 0x1_0000_0000) else None,
                          info.reason))
  {
    var b := ConnectionClosePayload(info);
    var head := PackN(info.errorCode) + (if info.frameType.Some? then PackN(info.frameType.value) else []);
    var fixed := |head| + 2;
    assert b == head + Packn(|info.reason|) + info.reason;
    assert b[..fixed] == head + Packn(|info.reason|);
    assert b[..4] == PackN(info.errorCode) by {
      assert b[..4] == head[..4];
    }
    ReadPackN(info.errorCode);
    if info.frameType.Some? {
      assert b[4..8] == PackN(info.frameType.value) by {
        assert b[4..8] == head[4..8];
      }
      ReadPackN(info.frameType.value);
    }
    assert b[fixed - 2..fixed] == Packn(|info.reason|);
    ReadPackn(|info.reason|);
    assert b[fixed..] == info.reason;
  }

  /** The events a hook emits on entering `to`; HANDSHAKING and DRAINING hooks emit nothing. */
  function HookEvent(to: ConnectionState, info: CloseInfo): Option<(string, EventData)>
  {
    match to
    case Connected => Some(("connected", NoData))
    case Closing => Some(("sendConnectionClose", ConnectionCloseData(ConnectionClosePayload(info))))
    case Closed => Some(("closed", ClosedData(info)))
    case _ => None
  }

  /** The callback invocations made by the hook for `to`. */
  function HookLog(handlers: map<string, seq<HandlerId>>, to: ConnectionState, info: CloseInfo): seq<Delivery>
  {
    match HookEvent(to, info)
    case None => []
    case Some((name, data)) => Dispatch(Registered(handlers, name), name, data)
  }

  /** The state `close` leads to. */
  function CloseTarget(s: ConnectionState): (t: ConnectionState)
    ensures t == s || IsValidTransition(s, t)
    ensures s.IsActive() ==> !t.IsActive()
  {
    match s
    case New => Closed
    case Handshaking => Closing
    case Connected => Closing
    case _ => s
  }

  /** The state `immediateClose` leads to when it does not throw. */
  function ImmediateCloseTarget(s: ConnectionState): (t: ConnectionState)
    ensures t == s || IsValidTransition(s, t)
  {
    match s
    case Handshaking => Draining
    case Connected => Draining
    case _ => s
  }

  class ConnectionStateMachine {
    var state: ConnectionState
    var closeInfo: CloseInfo
    /** The owning connection's event registry. */
    const bus: EventBus

    constructor (bus: EventBus)
      ensures this.bus == bus
      ensures state == New && closeInfo == InitialCloseInfo
    {
      this.bus := bus;
      state := New;
      closeInfo := InitialCloseInfo;
    }

    /**
     * `transitionTo`: throws (InvalidArgument) and changes nothing when the
     * edge is not in the table; otherwise stores the new state and then runs
     * the hook of the state entered.
     */
    method TransitionTo(target: ConnectionState) returns (r: Outcome<QuicError>)
      modifies this, bus
      ensures r == if IsValidTransition(old(state), target) then Pass else Fail(InvalidArgument)
      ensures state == if r.Pass? then target else old(state)
      ensures closeInfo == old(closeInfo)
      ensures bus.handlers == old(bus.handlers)
      ensures bus.log == old(bus.log) + if r.Pass? then HookLog(bus.handlers, target, closeInfo) else []
    {
      if !IsValidTransition(state, target) {
        return Fail(InvalidArgument);
      }
      var oldState := state;
      state := target;
      OnStateTransition(oldState, target);
      r := Pass;
    }

    /** `onStateTransition`: dispatches to the hook of the state entered. */
    method OnStateTransition(from: ConnectionState, to: ConnectionState)
      modifies bus
      ensures bus.handlers == old(bus.handlers)
      ensures bus.log == old(bus.log) + HookLog(bus.handlers, to, closeInfo)
    {
      match to
      case Connected =>
        bus.TriggerEvent("connected", NoData);
      case Closing =>
        SendConnectionClose();
      case Closed =>
        bus.TriggerEvent("closed", ClosedData(closeInfo));
      case _ =>
        // HANDSHAKING and DRAINING hooks do nothing; NEW is never entered.
    }

    /** `sendConnectionClose`: encodes the close info and hands it to the transport layer as an event. */
    method SendConnectionClose()
      modifies bus
      ensures bus.handlers == old(bus.handlers)
      ensures bus.log == old(bus.log) + HookLog(bus.handlers, Closing, closeInfo)
    {
      var frameData := PackN(closeInfo.errorCode);
      if closeInfo.frameType.Some? {
        frameData := frameData + PackN(closeInfo.frameType.value);
      }
      frameData := frameData + Packn(|closeInfo.reason|) + closeInfo.reason;
      assert frameData == ConnectionClosePayload(closeInfo);
      bus.TriggerEvent("sendConnectionClose", ConnectionCloseData(frameData));
    }

    /**
     * `close`: a no-op once CLOSED (the first close info is kept); otherwise
     * records the close info and moves NEW to CLOSED and HANDSHAKING/CONNECTED
     * to CLOSING. From CLOSING or DRAINING only the close info is overwritten.
     */
    method Close(errorCode: int, reason: ByteString, frameType: Option<int>, now: int)
      modifies this, bus
      ensures state == CloseTarget(old(state))
      ensures closeInfo == if old(state) == Closed then old(closeInfo)
                           else CloseInfo(errorCode, frameType, reason, Some(now))
      ensures bus.handlers == old(bus.handlers)
      ensures bus.log == old(bus.log) + if state != old(state) then HookLog(bus.handlers, state, closeInfo) else []
    {
      if state.IsClosed() {
        return;
      }
      closeInfo := CloseInfo(errorCode, frameType, reason, Some(now));
      if state == New {
        var r := TransitionTo(Closed);
      } else if state.IsActive() {
        var r := TransitionTo(Closing);
      }
    }

    /**
     * `immediateClose`: always overwrites the close info (even when CLOSED),
     * then moves an active state to DRAINING. From NEW that edge does not
     * exist, so it throws after the close info has been written.
     */
    method ImmediateClose(errorCode: int, reason: ByteString, frameType: Option<int>, now: int)
      returns (r: Outcome<QuicError>)
      modifies this, bus
      ensures r == if old(state) == New then Fail(InvalidArgument) else Pass
      ensures state == ImmediateCloseTarget(old(state))
      ensures closeInfo == CloseInfo(errorCode, frameType, reason, Some(now))
      ensures bus.handlers == old(bus.handlers)
      ensures bus.log == old(bus.log)
    {
      closeInfo := CloseInfo(errorCode, frameType, reason, Some(now));
      r := Pass;
      if state.IsActive() {
        r := TransitionTo(Draining);
      }
    }

    function GetCloseInfo(): CloseInfo
      reads this
    {
      closeInfo
    }

    /** Data may be sent only in CONNECTED. */
    function CanSendData(): (b: bool)
      reads this
      ensures b <==> state == Connected
    {
      state.CanSendData()
    }

    /** Data may be received only in HANDSHAKING and CONNECTED. */
    function CanReceiveData(): (b: bool)
      reads this
      ensures b <==> state == Handshaking || state == Connected
    {
      state.CanReceiveData()
    }
  }
}
