/**
 * The connection factory: default transport parameters (the core defaults
 * overridden by the constructor's argument and by the setters) and default
 * event handlers, both applied to every connection it creates.
 */
module ConnectionFactories {
  import opened Wrappers
  import opened Bytes
  import opened Events
  import opened OrderedMaps
  import opened CoreConstants
  import opened Connections
  import opened ConnectionStates
  import opened StateMachine
  import opened PathManagement

  /** `$defaultEventHandlers[$event]`, or no handlers for an event never given one. */
  function HandlersOf(t: Table<string, seq<HandlerId>>, event: string): seq<HandlerId>
  {
    match Lookup(t, event)
    case Some(hs) => hs
    case None => []
  }

  /** The registry after `onEvent(event, h)` for each `h` of `hs` in turn. */
  function RegisterEach(h: map<string, seq<HandlerId>>, event: string, hs: seq<HandlerId>): map<string, seq<HandlerId>>
  {
    if hs == [] then h
    else
      var h' := RegisterEach(h, event, hs[..|hs| - 1]);
      h'[event := Registered(h', event) + [hs[|hs| - 1]]]
  }

  /** The registry after registering every event's handlers, event by event in table order. */
  function RegisterAll(h: map<string, seq<HandlerId>>, t: Table<string, seq<HandlerId>>): map<string, seq<HandlerId>>
  {
    if t == [] then h
    else
      var last := t[|t| - 1];
      RegisterEach(RegisterAll(h, t[..|t| - 1]), last.key, last.value)
  }

  /** Registering a list for one event appends it to that event's handlers and leaves every other event alone. */
  lemma {:induction false} RegisterEachSpec(h: map<string, seq<HandlerId>>, event: string, hs: seq<HandlerId>, e: string)
    ensures Registered(RegisterEach(h, event, hs), e) == Registered(h, e) + (if e == event then hs else [])
  {
    if hs != [] {
      var init := hs[..|hs| - 1];
      RegisterEachSpec(h, event, init, e);
      if e == event {
        assert hs == init + [hs[|hs| - 1]];
      }
    }
  }

  /**
   * After registering a table with distinct event names, each event's handlers
   * are its old handlers followed by the table's list for it, in order.
   */
  lemma {:induction false} RegisterAllSpec(h: map<string, seq<HandlerId>>, t: Table<string, seq<HandlerId>>, e: string)
    requires DistinctKeys(t)
    ensures Registered(RegisterAll(h, t), e) == Registered(h, e) + HandlersOf(t, e)
  {
    if t != [] {
      var init := t[..|t| - 1];
      var last := t[|t| - 1];
      var before := RegisterAll(h, init);
      assert Registered(before, e) == Registered(h, e) + HandlersOf(init, e) by {
        DistinctPrefix(t, |t| - 1);
        RegisterAllSpec(h, init, e);
      }
      var added := if e == last.key then last.value else [];
      assert Registered(RegisterAll(h, t), e) == Registered(before, e) + added by {
        assert RegisterAll(h, t) == RegisterEach(before, last.key, last.value);
        RegisterEachSpec(before, last.key, last.value, e);
      }
      assert HandlersOf(t, e) == HandlersOf(init, e) + added by {
        HandlersOfSnoc(t, e);
      }
      assert Registered(h, e) + HandlersOf(init, e) + added == Registered(h, e) + (HandlersOf(init, e) + added);
    }
  }

  /** The handlers a table lists for `e`, split at its last entry. */
  lemma HandlersOfSnoc(t: Table<string, seq<HandlerId>>, e: string)
    requires DistinctKeys(t) && t != []
    ensures HandlersOf(t, e) == HandlersOf(t[..|t| - 1], e) + (if e == t[|t| - 1].key then t[|t| - 1].value else [])
  {
    var init, last := t[..|t| - 1], t[|t| - 1];
    assert t == init + [last];
    LookupConcat(init, [last], e);
    if e == last.key {
      DistinctSplit(t, |t| - 1);
    }
  }

  class ConnectionFactory {
    /** The core package's constants, which also give the defaults every Connection starts with. */
    const consts: Constants
    var defaultTransportParameters: map<string, ParamValue>
    /** `$defaultEventHandlers`: event name to handlers, in the order the names were first used. */
    var defaultEventHandlers: Table<string, seq<HandlerId>>

    /** Every core default stays a key, and each event name occurs once. */
    ghost predicate Valid()
      reads this
    {
      && consts.defaultTransportParameters.Keys <= defaultTransportParameters.Keys
      && DistinctKeys(defaultEventHandlers)
    }

    /** `array_merge` of the core defaults and the given parameters: a given key overrides its default. */
    constructor(consts: Constants, given: map<string, ParamValue>)
      ensures Valid() && this.consts == consts
      ensures forall k :: k in defaultTransportParameters <==> k in consts.defaultTransportParameters || k in given
      ensures forall k | k in given :: defaultTransportParameters[k] == given[k]
      ensures forall k | k in consts.defaultTransportParameters && k !in given ::
        defaultTransportParameters[k] == consts.defaultTransportParameters[k]
      ensures defaultEventHandlers == []
    {
      this.consts := consts;
      defaultTransportParameters := consts.defaultTransportParameters + given;
      defaultEventHandlers := [];
    }

    /** `createClientConnection`: a configured connection with isServer = false. */
    method CreateClientConnection(connectionId: Option<ByteString>, randomId: ByteString, nowMs: int)
      returns (c: Connection)
      requires Valid()
      requires |randomId| == consts.defaultConnectionIdLength
      ensures fresh(c) && fresh(c.Repr) && c.Valid()
      ensures !c.isServer
      ensures c.localConnectionId == if connectionId.Some? then connectionId.value else randomId
      ensures c.transportParameters == defaultTransportParameters
      ensures forall e :: Registered(c.bus.handlers, e) == HandlersOf(defaultEventHandlers, e)
      ensures c.View() == Configured(nowMs)
    {
      c := new Connection(false, connectionId, randomId, consts, nowMs);
      ConfigureConnection(c);
      FactoryDefaults(c);
    }

    /** `createServerConnection`: a configured connection with isServer = true. */
    method CreateServerConnection(connectionId: Option<ByteString>, randomId: ByteString, nowMs: int)
      returns (c: Connection)
      requires Valid()
      requires |randomId| == consts.defaultConnectionIdLength
      ensures fresh(c) && fresh(c.Repr) && c.Valid()
      ensures c.isServer
      ensures c.localConnectionId == if connectionId.Some? then connectionId.value else randomId
      ensures c.transportParameters == defaultTransportParameters
      ensures forall e :: Registered(c.bus.handlers, e) == HandlersOf(defaultEventHandlers, e)
      ensures c.View() == Configured(nowMs)
    {
      c := new Connection(true, connectionId, randomId, consts, nowMs);
      ConfigureConnection(c);
      FactoryDefaults(c);
    }

    /**
     * A connection just made by this factory: NEW, nothing logged, queued or
     * probed, no remote id, the idle manager unlinked with the core defaults and
     * its activity at `nowMs`, and holding the factory's parameters and handlers.
     */
    function Configured(nowMs: int): (v: Snapshot)
      reads this
      ensures v.state == New && v.closeInfo == InitialCloseInfo && v.remoteId == None
      ensures v.log == [] && v.pending == [] && v.idleLink == None && v.lastActivity == nowMs
      ensures v.paths == Tables(None, [], []) && v.challenge == None && v.preferred == None
      ensures v.parameters == defaultTransportParameters
    {
      InitialView(consts, nowMs).(parameters := defaultTransportParameters,
                                  handlers := RegisterAll(map[], defaultEventHandlers))
    }

    /**
     * A new connection starts from the core defaults, whose keys the factory's
     * defaults all contain, so once configured it holds exactly the factory's
     * defaults and exactly the factory's handlers.
     */
    lemma FactoryDefaults(c: Connection)
      requires Valid()
      requires c.transportParameters == consts.defaultTransportParameters + defaultTransportParameters
      requires c.bus.handlers == RegisterAll(map[], defaultEventHandlers)
      ensures c.transportParameters == defaultTransportParameters
      ensures consts.defaultTransportParameters + defaultTransportParameters == defaultTransportParameters
      ensures forall e :: Registered(c.bus.handlers, e) == HandlersOf(defaultEventHandlers, e)
    {
      forall e
        ensures Registered(c.bus.handlers, e) == HandlersOf(defaultEventHandlers, e)
      {
        RegisterAllSpec(map[], defaultEventHandlers, e);
      }
    }

    /**
     * `configureConnection`: every default parameter is set on the connection,
     * then every default handler is registered, event by event and in order.
     */
    method ConfigureConnection(c: Connection)
      requires Valid() && c.Valid()
      modifies c, c.bus
      ensures c.Valid()
      ensures c.transportParameters == old(c.transportParameters) + defaultTransportParameters
      ensures c.bus.handlers == RegisterAll(old(c.bus.handlers), defaultEventHandlers)
      ensures c.View() == old(c.View()).(parameters := c.transportParameters, handlers := c.bus.handlers)
    {
      ApplyParameters(c);
      RegisterHandlers(c);
    }

    /** The first loop of `configureConnection`: `setTransportParameter` for each default. */
    method ApplyParameters(c: Connection)
      requires c.Valid()
      modifies c
      ensures c.Valid()
      ensures c.transportParameters == old(c.transportParameters) + defaultTransportParameters
      ensures c.View() == old(c.View()).(parameters := c.transportParameters)
    {
      var params := defaultTransportParameters;
      var remaining := params.Keys;
      while remaining != {}
        invariant remaining <= params.Keys
        invariant c.Valid()
        invariant c.transportParameters == old(c.transportParameters) + Restrict(params, params.Keys - remaining)
        invariant c.View() == old(c.View()).(parameters := c.transportParameters)
        decreases remaining
      {
        var key :| key in remaining;
        c.SetTransportParameter(key, params[key]);
        remaining := remaining - {key};
        assert c.transportParameters == old(c.transportParameters) + Restrict(params, params.Keys - remaining);
      }
      assert Restrict(params, params.Keys) == params;
    }

    /** The second loop of `configureConnection`: each event's handlers, in table order. */
    method RegisterHandlers(c: Connection)
      requires c.Valid()
      modifies c.bus
      ensures c.Valid()
      ensures c.bus.handlers == RegisterAll(old(c.bus.handlers), defaultEventHandlers)
      ensures c.View() == old(c.View()).(handlers := c.bus.handlers)
    {
      var table := defaultEventHandlers;
      var i := 0;
      while i < |table|
        invariant 0 <= i <= |table|
        invariant c.Valid()
        invariant c.bus.handlers == RegisterAll(old(c.bus.handlers), table[..i])
        invariant c.View() == old(c.View()).(handlers := c.bus.handlers)
      {
        RegisterEventHandlers(c, table[i].key, table[i].value);
        assert table[..i + 1][..i] == table[..i];
        i := i + 1;
      }
      assert table[..i] == table;
    }

    /** The inner loop: `onEvent(event, handler)` for each handler in turn. */
    method RegisterEventHandlers(c: Connection, event: string, handlers: seq<HandlerId>)
      requires c.Valid()
      modifies c.bus
      ensures c.Valid()
      ensures c.bus.handlers == RegisterEach(old(c.bus.handlers), event, handlers)
      ensures c.View() == old(c.View()).(handlers := c.bus.handlers)
    {
      var j := 0;
      while j < |handlers|
        invariant 0 <= j <= |handlers|
        invariant c.Valid()
        invariant c.bus.handlers == RegisterEach(old(c.bus.handlers), event, handlers[..j])
        invariant c.View() == old(c.View()).(handlers := c.bus.handlers)
      {
        c.OnEvent(event, handlers[j]);
        assert handlers[..j + 1][..j] == handlers[..j];
        j := j + 1;
      }
      assert handlers[..j] == handlers;
    }

    /** `setDefaultTransportParameter`: `key` now maps to `value`; other keys and the handlers are unchanged. */
    method SetDefaultTransportParameter(key: string, value: ParamValue)
      requires Valid()
      modifies this
      ensures Valid()
      ensures defaultTransportParameters == old(defaultTransportParameters)[key := value]
      ensures defaultEventHandlers == old(defaultEventHandlers)
    {
      defaultTransportParameters := defaultTransportParameters[key := value];
    }

    /** `addDefaultEventHandler`: the handler goes last in its event's list; other events are untouched. */
    method AddDefaultEventHandler(event: string, handler: HandlerId)
      requires Valid()
      modifies this
      ensures Valid()
      ensures forall e :: HandlersOf(defaultEventHandlers, e) == HandlersOf(old(defaultEventHandlers), e) + (if e == event then [handler] else [])
      ensures defaultTransportParameters == old(defaultTransportParameters)
    {
      ghost var t := defaultEventHandlers;
      defaultEventHandlers := Put(defaultEventHandlers, event, HandlersOf(defaultEventHandlers, event) + [handler]);
      PutDistinct(t, event, HandlersOf(t, event) + [handler]);
      forall e
        ensures HandlersOf(defaultEventHandlers, e) == HandlersOf(t, e) + (if e == event then [handler] else [])
      {
        LookupPut(t, event, HandlersOf(t, event) + [handler], e);
      }
    }

    /** `setIdleTimeout`: sets 'max_idle_timeout' only. */
    method SetIdleTimeout(timeoutMs: int)
      requires Valid()
      modifies this
      ensures Valid()
      ensures defaultTransportParameters == old(defaultTransportParameters)["max_idle_timeout" := IntParam(timeoutMs)]
      ensures defaultEventHandlers == old(defaultEventHandlers)
    {
      SetDefaultTransportParameter("max_idle_timeout", IntParam(timeoutMs));
    }

    /** `setMaxData`: sets 'initial_max_data' only. */
    method SetMaxData(maxData: int)
      requires Valid()
      modifies this
      ensures Valid()
      ensures defaultTransportParameters == old(defaultTransportParameters)["initial_max_data" := IntParam(maxData)]
      ensures defaultEventHandlers == old(defaultEventHandlers)
    {
      SetDefaultTransportParameter("initial_max_data", IntParam(maxData));
    }

    /** `setMaxStreamData`: the same value under the three per-stream keys, and nothing else changes. */
    method SetMaxStreamData(maxStreamData: int)
      requires Valid()
      modifies this
      ensures Valid()
      ensures forall k | k in StreamDataKeys :: k in defaultTransportParameters && defaultTransportParameters[k] == IntParam(maxStreamData)
      ensures forall k | k !in StreamDataKeys ::
        (k in defaultTransportParameters <==> k in old(defaultTransportParameters))
        && (k in defaultTransportParameters ==> defaultTransportParameters[k] == old(defaultTransportParameters)[k])
      ensures defaultEventHandlers == old(defaultEventHandlers)
    {
      SetDefaultTransportParameter("initial_max_stream_data_bidi_local", IntParam(maxStreamData));
      SetDefaultTransportParameter("initial_max_stream_data_bidi_remote", IntParam(maxStreamData));
      SetDefaultTransportParameter("initial_max_stream_data_uni", IntParam(maxStreamData));
    }

    /** `setMaxBidiStreams`: sets 'initial_max_streams_bidi' only. */
    method SetMaxBidiStreams(maxStreams: int)
      requires Valid()
      modifies this
      ensures Valid()
      ensures defaultTransportParameters == old(defaultTransportParameters)["initial_max_streams_bidi" := IntParam(maxStreams)]
      ensures defaultEventHandlers == old(defaultEventHandlers)
    {
      SetDefaultTransportParameter("initial_max_streams_bidi", IntParam(maxStreams));
    }

    /** `setMaxUniStreams`: sets 'initial_max_streams_uni' only. */
    method SetMaxUniStreams(maxStreams: int)
      requires Valid()
      modifies this
      ensures Valid()
      ensures defaultTransportParameters == old(defaultTransportParameters)["initial_max_streams_uni" := IntParam(maxStreams)]
      ensures defaultEventHandlers == old(defaultEventHandlers)
    {
      SetDefaultTransportParameter("initial_max_streams_uni", IntParam(maxStreams));
    }
  }

  /** The three keys `setMaxStreamData` writes. */
  const StreamDataKeys: set<string> :=
    {"initial_max_stream_data_bidi_local", "initial_max_stream_data_bidi_remote", "initial_max_stream_data_uni"}

  /** The entries of `m` whose keys are in `ks`. */
  function Restrict<K, V>(m: map<K, V>, ks: set<K>): (r: map<K, V>)
    ensures r.Keys == m.Keys * ks && forall k | k in r :: r[k] == m[k]
  {
    map k | k in m.Keys * ks :: m[k]
  }
}
