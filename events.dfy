/**
 * The connection's event registry (`Connection::onEvent` / `triggerEvent`).
 * Callbacks are opaque handler ids; invoking one is recorded as a delivery in
 * a log, in the order the calls happen. The state machine holds a reference to
 * the same registry, which is how its hooks reach the connection's handlers.
 */
module Events {
  import opened Wrappers
  import opened Bytes

  /** Identity of a registered callable. */
  type HandlerId = nat

  /** The connection's close metadata: `['errorCode', 'frameType', 'reason', 'timestamp']`. */
  datatype CloseInfo = CloseInfo(errorCode: int, frameType: Option<int>, reason: ByteString, timestamp: Option<int>)

  /** The `$data` array passed with an event. */
  datatype EventData =
    | NoData                              // []
    | ClosedData(info: CloseInfo)         // the close info array, for 'closed'
    | ConnectionCloseData(frameData: ByteString)  // ['frameData' => ...], for 'sendConnectionClose'
    | TimeoutData(reason: string)         // ['reason' => ...], for 'timeout'
    | External(tag: nat)                  // an array supplied by an outside caller

  /** One callback invocation `$callback($connection, $data)`. */
  datatype Delivery = Delivery(handler: HandlerId, event: string, data: EventData)

  /** The handlers registered under `name`, in registration order (none if the name is unknown). */
  function Registered(handlers: map<string, seq<HandlerId>>, name: string): seq<HandlerId>
  {
    if name in handlers then handlers[name] else []
  }

  /** The invocations one trigger makes: each handler in turn. */
  function Dispatch(hs: seq<HandlerId>, name: string, data: EventData): seq<Delivery>
  {
    if hs == [] then [] else Dispatch(hs[..|hs| - 1], name, data) + [Delivery(hs[|hs| - 1], name, data)]
  }

  /** Each registered handler is invoked exactly once, in registration order, with the event's data. */
  lemma {:induction false} DispatchInOrder(hs: seq<HandlerId>, name: string, data: EventData)
    ensures |Dispatch(hs, name, data)| == |hs|
    ensures forall i :: 0 <= i < |hs| ==> Dispatch(hs, name, data)[i] == Delivery(hs[i], name, data)
  {
    if hs != [] {
      DispatchInOrder(hs[..|hs| - 1], name, data);
    }
  }

  /** Triggering for two handler lists back to back is triggering for their concatenation. */
  lemma {:induction false} DispatchAppend(xs: seq<HandlerId>, ys: seq<HandlerId>, name: string, data: EventData)
    ensures Dispatch(xs + ys, name, data) == Dispatch(xs, name, data) + Dispatch(ys, name, data)
    decreases |ys|
  {
    if ys != [] {
      var zs := ys[..|ys| - 1];
      assert (xs + ys)[..|xs + ys| - 1] == xs + zs;
      DispatchAppend(xs, zs, name, data);
    } else {
      assert xs + ys == xs;
    }
  }

  class EventBus {
    /** `$eventCallbacks`: event name to its handlers, in registration order. */
    var handlers: map<string, seq<HandlerId>>
    /** Every callback invocation made so far. */
    var log: seq<Delivery>

    constructor ()
      ensures handlers == map[] && log == []
    {
      handlers := map[];
      log := [];
    }

    /** `onEvent`: appends the handler to the list for `name`. */
    method OnEvent(name: string, handler: HandlerId)
      modifies this
      ensures handlers == old(handlers)[name := Registered(old(handlers), name) + [handler]]
      ensures log == old(log)
    {
      handlers := handlers[name := Registered(handlers, name) + [handler]];
    }

    /** `triggerEvent`: calls every handler registered under `name`, in order. */
    method TriggerEvent(name: string, data: EventData)
      modifies this
      ensures handlers == old(handlers)
      ensures log == old(log) + Dispatch(Registered(handlers, name), name, data)
    {
      var hs := Registered(handlers, name);
      var i := 0;
      while i < |hs|
        invariant 0 <= i <= |hs|
        invariant handlers == old(handlers)
        invariant log == old(log) + Dispatch(hs[..i], name, data)
      {
        assert hs[..i + 1][..i] == hs[..i];
        log := log + [Delivery(hs[i], name, data)];
        i := i + 1;
      }
      assert hs[..i] == hs;
    }
  }
}
