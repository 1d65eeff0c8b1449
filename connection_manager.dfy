/**
 * The registry of live connections, keyed by local connection id, with a
 * capacity limit and periodic sweeps. Each stored connection owns its own
 * objects, so a sweep that works on one connection leaves every other
 * connection as it was.
 */
module ConnectionManagement {
  import opened Wrappers
  import opened Bytes
  import opened Exceptions
  import opened ConnectionStates
  import opened Events
  import opened StateMachine
  import opened IdleTimeout
  import opened OrderedMaps
  import opened Connections

  const DefaultMaxConnections := 1000

  /** `$connections`: connections by local id, in insertion order. */
  type ConnectionTable = Table<ByteString, Connection>

  /** A connection and the objects it owns. */
  ghost function Owned(c: Connection): set<object>
  {
    {c} + c.Repr
  }

  /** The stored connections and the objects they own. */
  ghost function Footprint(t: ConnectionTable): set<object>
  {
    if |t| == 0 then {} else Owned(t[0].value) + Footprint(t[1..])
  }

  /** Each entry is filed under its connection's own local id. */
  predicate Filed(t: ConnectionTable)
  {
    |t| > 0 ==> t[0].key == t[0].value.localConnectionId && Filed(t[1..])
  }

  /** No two entries share an object (in particular no connection is stored twice). */
  ghost predicate Separate(t: ConnectionTable)
  {
    |t| > 0 ==> Owned(t[0].value) !! Footprint(t[1..]) && Separate(t[1..])
  }

  /** Every stored connection is itself well formed. */
  ghost predicate AllValid(t: ConnectionTable)
    reads Footprint(t)
  {
    |t| > 0 ==> t[0].value.Valid() && AllValid(t[1..])
  }

  /** The `$connectionIdMap` a table implies: each stored id mapped to itself. */
  function IdMap(t: ConnectionTable): map<ByteString, ByteString>
  {
    if |t| == 0 then map[] else IdMap(t[1..])[t[0].key := t[0].key]
  }

  /** The id map holds exactly the stored ids, each mapped to itself. */
  lemma {:induction false} IdMapSpec(t: ConnectionTable, k: ByteString)
    ensures k in IdMap(t) <==> HasKey(t, k)
    ensures k in IdMap(t) ==> IdMap(t)[k] == k
  {
    if |t| > 0 {
      IdMapSpec(t[1..], k);
    }
  }

  lemma IdMapPut(t: ConnectionTable, k: ByteString, c: Connection)
    ensures IdMap(Put(t, k, c)) == IdMap(t)[k := k]
  {
    forall k' | k' in IdMap(Put(t, k, c)) || k' in IdMap(t)[k := k]
      ensures k' in IdMap(Put(t, k, c)) && k' in IdMap(t)[k := k] && IdMap(Put(t, k, c))[k'] == IdMap(t)[k := k][k']
    {
      IdMapSpec(t, k');
      IdMapSpec(Put(t, k, c), k');
      LookupPut(t, k, c, k');
    }
  }

  lemma IdMapRemove(t: ConnectionTable, k: ByteString)
    ensures IdMap(Remove(t, k)) == IdMap(t) - {k}
  {
    forall k' | k' in IdMap(Remove(t, k)) || k' in IdMap(t) - {k}
      ensures k' in IdMap(Remove(t, k)) && k' in IdMap(t) - {k} && IdMap(Remove(t, k))[k'] == (IdMap(t) - {k})[k']
    {
      IdMapSpec(t, k');
      IdMapSpec(Remove(t, k), k');
      LookupRemove(t, k, k');
    }
  }

  /** The shape of the registry, independent of the connections' own state. */
  ghost predicate Registry(t: ConnectionTable, m: map<ByteString, ByteString>, counter: int, max: int)
  {
    && DistinctKeys(t)
    && Filed(t)
    && Separate(t)
    && m == IdMap(t)
    && counter >= |t|
    && max >= 1
  }

  /** The condition under which a connection's `checkTimeout` fires at `nowMs`. */
  predicate Due(c: Connection, nowMs: int)
    reads c.stateMachine, c.idleTimeoutManager
  {
    TimeoutDue(c.stateMachine.state, c.idleTimeoutManager.lastActivityTime, c.idleTimeoutManager.idleTimeout, nowMs)
  }

  /** Per entry: its connection does not time out at `nowMs`. */
  function NotDue(t: ConnectionTable, nowMs: int): (r: seq<bool>)
    reads set e | e in t :: e.value.stateMachine
    reads set e | e in t :: e.value.idleTimeoutManager
    ensures |r| == |t| && forall i | 0 <= i < |t| :: r[i] == !Due(t[i].value, nowMs)
  {
    if |t| == 0 then [] else [!Due(t[0].value, nowMs)] + NotDue(t[1..], nowMs)
  }

  /** Per entry: its connection's whole changeable state. */
  ghost function Views(t: ConnectionTable): (r: seq<Snapshot>)
    reads set e | e in t :: e.value
    reads set e | e in t :: e.value.stateMachine
    reads set e | e in t :: e.value.bus
    reads set e | e in t :: e.value.idleTimeoutManager
    reads set e | e in t :: e.value.pathManager
    ensures |r| == |t|
  {
    seq(|t|, i requires 0 <= i < |t|
                reads set e | e in t :: e.value
                reads set e | e in t :: e.value.stateMachine
                reads set e | e in t :: e.value.bus
                reads set e | e in t :: e.value.idleTimeoutManager
                reads set e | e in t :: e.value.pathManager
              => t[i].value.View())
  }

  lemma ViewsAt(t: ConnectionTable)
    ensures forall i | 0 <= i < |t| :: Views(t)[i] == t[i].value.View()
  {
  }

  /** What a sweep over the table does to each connection. */
  datatype Sweep = IdleCheck(nowMs: int) | Tick(nowMs: int) | CloseEach(errorCode: int, reason: ByteString, nowSec: int)

  function Apply(op: Sweep, v: Snapshot): Snapshot
  {
    match op
    case IdleCheck(nowMs) => AfterCheck(v, nowMs)
    case Tick(nowMs) => AfterTasks(v, nowMs)
    case CloseEach(errorCode, reason, nowSec) => AfterClose(v, errorCode, reason, nowSec)
  }

  /** `vs` with `op` applied to its first `i` entries. */
  ghost function Prefixed(vs: seq<Snapshot>, i: nat, op: Sweep): (r: seq<Snapshot>)
    requires i <= |vs|
    ensures |r| == |vs|
    ensures forall j | 0 <= j < |vs| :: r[j] == if j < i then Apply(op, vs[j]) else vs[j]
  {
    seq(|vs|, j requires 0 <= j < |vs| => if j < i then Apply(op, vs[j]) else vs[j])
  }

  /** Applying `op` to entry `i` of the `i`-prefixed sequence extends the prefix by one. */
  lemma PrefixedStep(vs: seq<Snapshot>, i: nat, op: Sweep)
    requires i < |vs|
    ensures Prefixed(vs, i, op)[i := Apply(op, vs[i])] == Prefixed(vs, i + 1, op)
  {
  }

  /** `Due`, read off a snapshot of the connection. */
  ghost predicate DueView(v: Snapshot, nowMs: int)
  {
    TimeoutDue(v.state, v.lastActivity, v.idleTimeout, nowMs)
  }

  /** Where the timeout sweep ends: the kept entries, each connection checked once. */
  lemma SweptAndChecked(cs: ConnectionTable, keep: seq<bool>, before: seq<Snapshot>, t: ConnectionTable, nowMs: int)
    requires |keep| == |cs| == |before| && DistinctKeys(cs) && AllValid(cs)
    requires t == Swept(cs, keep, |cs|)
    requires Views(cs) == Prefixed(before, |cs|, IdleCheck(nowMs))
    ensures t == Select(cs, keep) && AllValid(t)
    ensures forall j | 0 <= j < |cs| :: cs[j].value.View() == AfterCheck(before[j], nowMs)
  {
    SweptElements(cs, keep, |cs|);
    EachValid(cs);
    ValidSubTable(cs, t);
    SweptAll(cs, keep);
    ViewsAt(cs);
  }

  /** Per entry: its connection is not CLOSED. */
  function NotClosed(t: ConnectionTable): (r: seq<bool>)
    reads set e | e in t :: e.value.stateMachine
    ensures |r| == |t| && forall i | 0 <= i < |t| :: r[i] == (t[i].value.stateMachine.state != Closed)
  {
    if |t| == 0 then [] else [t[0].value.stateMachine.state != Closed] + NotClosed(t[1..])
  }

  /** The states of the stored connections, in order. */
  function StatesOf(t: ConnectionTable): (r: seq<ConnectionState>)
    reads set e | e in t :: e.value.stateMachine
    ensures |r| == |t| && forall i | 0 <= i < |t| :: r[i] == t[i].value.stateMachine.state
  {
    if |t| == 0 then [] else StatesOf(t[..|t| - 1]) + [t[|t| - 1].value.stateMachine.state]
  }

  /** How many of `states` equal `s`. */
  function CountOf(states: seq<ConnectionState>, s: ConnectionState): nat
  {
    if |states| == 0 then 0
    else CountOf(states[..|states| - 1], s) + (if states[|states| - 1] == s then 1 else 0)
  }

  /** The `by_state` array: state name to the number of connections in that state. */
  function Tally(states: seq<ConnectionState>): map<string, nat>
  {
    if |states| == 0 then map[]
    else
      var m := Tally(states[..|states| - 1]);
      var v := states[|states| - 1].Value();
      m[v := (if v in m then m[v] else 0) + 1]
  }

  /** A state's name is listed exactly when some connection is in it, with the number of such connections. */
  lemma {:induction false} TallySpec(states: seq<ConnectionState>, s: ConnectionState)
    ensures s.Value() in Tally(states) <==> CountOf(states, s) > 0
    ensures s.Value() in Tally(states) ==> Tally(states)[s.Value()] == CountOf(states, s)
    ensures forall v | v in Tally(states) :: exists x: ConnectionState :: x.Value() == v
  {
    if |states| > 0 {
      var last := states[|states| - 1];
      TallySpec(states[..|states| - 1], s);
      ValueInjective(last, s);
    }
  }

  /** The per-state counts add up to the number of connections. */
  lemma {:induction false} CountsAddUp(states: seq<ConnectionState>)
    ensures CountOf(states, New) + CountOf(states, Handshaking) + CountOf(states, Connected)
          + CountOf(states, Closing) + CountOf(states, Draining) + CountOf(states, Closed) == |states|
  {
    if |states| > 0 {
      CountsAddUp(states[..|states| - 1]);
    }
  }

  datatype Statistics = Statistics(
    totalConnections: nat,
    maxConnections: int,
    connectionCounter: int,
    byState: map<string, nat>)

  class ConnectionManager {
    var connections: ConnectionTable
    var connectionIdMap: map<ByteString, ByteString>
    var maxConnections: int
    /** Successful adds so far. */
    var connectionCounter: int

    ghost function Repr(): set<object>
      reads this
    {
      Footprint(connections)
    }

    ghost predicate Valid()
      reads this, Repr()
    {
      && Registry(connections, connectionIdMap, connectionCounter, maxConnections)
      && AllValid(connections)
      && this !in Repr()
    }

    constructor()
      ensures Valid()
      ensures connections == [] && connectionIdMap == map[]
      ensures maxConnections == DefaultMaxConnections && connectionCounter == 0
    {
      connections := [];
      connectionIdMap := map[];
      maxConnections := DefaultMaxConnections;
      connectionCounter := 0;
    }

    /**
     * Refused when the manager is full; otherwise the connection is stored
     * under its local id, replacing a connection with the same id, and the
     * counter grows by one.
     */
    method AddConnection(c: Connection) returns (r: Outcome<QuicError>)
      requires Valid() && c.Valid()
      requires Lookup(connections, c.localConnectionId) == Some(c) || Owned(c) !! Repr()
      modifies this
      ensures Valid()
      ensures r == if |old(connections)| >= old(maxConnections) then Fail(QuicConnection) else Pass
      ensures connections == if r.Pass? then Put(old(connections), c.localConnectionId, c) else old(connections)
      ensures connectionCounter == old(connectionCounter) + if r.Pass? then 1 else 0
      ensures maxConnections == old(maxConnections)
    {
      if |connections| >= maxConnections {
        return Fail(QuicConnection);
      }
      var connectionId := c.localConnectionId;
      var t := Put(connections, connectionId, c);
      PutRegistry(connections, connectionIdMap, connectionCounter, maxConnections, c);
      assert AllValid(t) && this !in Footprint(t);
      connections, connectionIdMap, connectionCounter :=
        t, connectionIdMap[connectionId := connectionId], connectionCounter + 1;
      r := Pass;
    }

    /** Deletes the connection with that id; an unknown id changes nothing. */
    method RemoveConnection(connectionId: ByteString)
      requires Valid()
      modifies this
      ensures Valid()
      ensures connections == Remove(old(connections), connectionId)
      ensures !HasKey(old(connections), connectionId) ==> connections == old(connections)
      ensures connectionCounter == old(connectionCounter) && maxConnections == old(maxConnections)
    {
      if HasKey(connections, connectionId) {
        var t := Remove(connections, connectionId);
        RemoveRegistry(connections, connectionIdMap, connectionCounter, maxConnections, connectionId);
        connections := t;
        connectionIdMap := connectionIdMap - {connectionId};
      } else {
        RemoveAbsent(connections, connectionId);
      }
    }

    function GetConnection(connectionId: ByteString): Option<Connection>
      reads this
    {
      Lookup(connections, connectionId)
    }

    function GetConnectionCount(): nat
      reads this
    {
      |connections|
    }

    /**
     * Runs every stored connection's idle check and removes exactly the
     * connections whose check fired; those were closed by it.
     */
    method CheckTimeouts(nowMs: int)
      requires Valid()
      modifies this, Repr()
      ensures Valid()
      ensures connections == Select(old(connections), old(NotDue(connections, nowMs)))
      ensures forall i | 0 <= i < |old(connections)| ::
        var c := old(connections)[i].value; c.View() == AfterCheck(old(c.View()), nowMs)
      ensures connectionCounter == old(connectionCounter) && maxConnections == old(maxConnections)
    {
      var cs := connections;
      ghost var keep := NotDue(cs, nowMs);
      ghost var before := Views(cs);
      assert forall j | 0 <= j < |cs| :: before[j] == cs[j].value.View() && keep[j] == !DueView(before[j], nowMs) by {
        ViewsAt(cs);
      }
      assert Prefixed(before, 0, IdleCheck(nowMs)) == before;
      SweepTimeouts(cs, keep, before, nowMs);
    }

    /** The loop of `CheckTimeouts`: every entry of `cs` in turn is checked and, if due, removed. */
    method SweepTimeouts(cs: ConnectionTable, ghost keep: seq<bool>, ghost before: seq<Snapshot>, nowMs: int)
      requires TimeoutSweep(cs, keep, before, 0, nowMs)
      modifies this, Footprint(cs)
      ensures connections == Select(cs, keep)
      ensures Registry(connections, connectionIdMap, connectionCounter, maxConnections) && this !in Repr()
      ensures connectionCounter == old(connectionCounter) && maxConnections == old(maxConnections)
      ensures AllValid(connections)
      ensures forall j | 0 <= j < |cs| :: cs[j].value.View() == AfterCheck(before[j], nowMs)
    {
      var i := 0;
      while i < |cs|
        invariant TimeoutSweep(cs, keep, before, i, nowMs)
        invariant connectionCounter == old(connectionCounter) && maxConnections == old(maxConnections)
      {
        FootprintAt(cs, i);
        TimeoutStep(cs, keep, before, i, nowMs);
        i := i + 1;
      }
      SweptAndChecked(cs, keep, before, connections, nowMs);
    }

    /**
     * The timeout sweep over `cs`, whose connections had the views `before` and
     * time out exactly where `keep` is false, after its first `i` entries: those
     * were checked, the due ones were removed, and the rest are as they were.
     */
    ghost predicate TimeoutSweep(cs: ConnectionTable, keep: seq<bool>, before: seq<Snapshot>, i: nat, nowMs: int)
      reads this, Footprint(cs)
      reads set e | e in cs :: e.value
      reads set e | e in cs :: e.value.stateMachine
      reads set e | e in cs :: e.value.bus
      reads set e | e in cs :: e.value.idleTimeoutManager
      reads set e | e in cs :: e.value.pathManager
    {
      && |keep| == |cs| == |before| && i <= |cs|
      && DistinctKeys(cs) && Separate(cs) && this !in Footprint(cs)
      && (forall j | 0 <= j < |cs| :: keep[j] == !DueView(before[j], nowMs))
      && connections == Swept(cs, keep, i)
      && Registry(connections, connectionIdMap, connectionCounter, maxConnections) && this !in Repr()
      && AllValid(cs)
      && Views(cs) == Prefixed(before, i, IdleCheck(nowMs))
    }

    /** One step of the timeout sweep: entry `i` is checked and, exactly when its check fires, removed. */
    method TimeoutStep(cs: ConnectionTable, ghost keep: seq<bool>, ghost before: seq<Snapshot>, i: nat, nowMs: int)
      requires TimeoutSweep(cs, keep, before, i, nowMs) && i < |cs|
      modifies this, Owned(cs[i].value)
      ensures TimeoutSweep(cs, keep, before, i + 1, nowMs)
      ensures connectionCounter == old(connectionCounter) && maxConnections == old(maxConnections)
    {
      FootprintAt(cs, i);
      ViewsAt(cs);
      assert cs[i].value.View() == before[i];
      var fired := FireAt(cs, i, nowMs);
      SweepStep(cs, keep, i, fired);
      PrefixedStep(before, i, IdleCheck(nowMs));
    }

    /**
     * A sweep over `cs` that keeps the entries where `keep` is true, after its
     * first `i` entries: the registry holds exactly what is left of them.
     */
    ghost predicate Sweeping(cs: ConnectionTable, keep: seq<bool>, i: nat)
      reads this, Footprint(cs)
    {
      && |keep| == |cs| && i <= |cs|
      && connections == Swept(cs, keep, i)
      && Registry(connections, connectionIdMap, connectionCounter, maxConnections) && this !in Repr()
      && AllValid(cs) && this !in Footprint(cs)
    }

    /** One step of a sweep over `cs`: entry `i` is removed exactly when `drop` says so. */
    method SweepStep(cs: ConnectionTable, ghost keep: seq<bool>, i: nat, drop: bool)
      requires Sweeping(cs, keep, i) && i < |cs| && drop == !keep[i]
      modifies this
      ensures Sweeping(cs, keep, i + 1) && Views(cs) == old(Views(cs))
      ensures connectionCounter == old(connectionCounter) && maxConnections == old(maxConnections)
    {
      EachValid(cs);
      SweptElements(cs, keep, i);
      ValidSubTable(cs, connections);
      if drop {
        RemoveConnection(cs[i].key);
      }
      ValidSubTable(cs, cs);
    }

    method ProcessPendingTasks(nowMs: int)
      requires Valid()
      modifies Repr()
      ensures Valid()
      ensures connections == old(connections)
      ensures forall i | 0 <= i < |connections| ::
        connections[i].value.View() == AfterTasks(old(connections[i].value.View()), nowMs)
    {
      var cs := connections;
      EachValid(cs);
      ghost var before := Views(cs);
      ViewsAt(cs);
      var i := 0;
      while i < |cs|
        invariant 0 <= i <= |cs|
        invariant AllValid(cs)
        invariant Views(cs) == Prefixed(before, i, Tick(nowMs))
      {
        FootprintAt(cs, i);
        TickAt(cs, i, nowMs);
        i := i + 1;
      }
      ViewsAt(cs);
    }

    /** Removes exactly the CLOSED connections, keeping the others in order. */
    method Cleanup()
      requires Valid()
      modifies this
      ensures Valid()
      ensures connections == Select(old(connections), old(NotClosed(connections)))
      ensures connectionCounter == old(connectionCounter) && maxConnections == old(maxConnections)
    {
      var cs := connections;
      var keep := NotClosed(cs);
      assert AllValid(cs) && this !in Footprint(cs);
      var i := 0;
      while i < |cs|
        invariant Sweeping(cs, keep, i)
        invariant connectionCounter == old(connectionCounter) && maxConnections == old(maxConnections)
      {
        SweepStep(cs, keep, i, !keep[i]);
        i := i + 1;
      }
      assert AllValid(connections) by {
        SweptElements(cs, keep, i);
        EachValid(cs);
        ValidSubTable(cs, connections);
      }
      SweptAll(cs, keep);
    }

    /** The limit is at least one. */
    method SetMaxConnections(n: int)
      requires Valid()
      modifies this
      ensures Valid()
      ensures maxConnections == if n < 1 then 1 else n
      ensures connections == old(connections) && connectionCounter == old(connectionCounter)
    {
      maxConnections := if n < 1 then 1 else n;
    }

    function GetMaxConnections(): int
      reads this
    {
      maxConnections
    }

    /** The totals and, per state name, how many stored connections are in that state. */
    method GetStatistics() returns (stats: Statistics)
      ensures stats.totalConnections == |connections|
      ensures stats.maxConnections == maxConnections && stats.connectionCounter == connectionCounter
      ensures stats.byState == Tally(StatesOf(connections))
    {
      var byState: map<string, nat> := map[];
      ghost var states := StatesOf(connections);
      var i := 0;
      while i < |connections|
        invariant 0 <= i <= |connections|
        invariant byState == Tally(states[..i])
      {
        assert states[..i + 1][..i] == states[..i];
        var state := connections[i].value.stateMachine.state.Value();
        byState := byState[state := (if state in byState then byState[state] else 0) + 1];
        i := i + 1;
      }
      assert states[..i] == states;
      stats := Statistics(|connections|, maxConnections, connectionCounter, byState);
    }

    /** Closes every stored connection with the same error code and reason. */
    method CloseAllConnections(errorCode: int, reason: ByteString, nowSec: int)
      requires Valid()
      modifies Repr()
      ensures Valid()
      ensures connections == old(connections)
      ensures forall i | 0 <= i < |connections| ::
        connections[i].value.View() == AfterClose(old(connections[i].value.View()), errorCode, reason, nowSec)
    {
      var cs := connections;
      ghost var before := Views(cs);
      ViewsAt(cs);
      var i := 0;
      while i < |cs|
        invariant 0 <= i <= |cs|
        invariant AllValid(cs)
        invariant Views(cs) == Prefixed(before, i, CloseEach(errorCode, reason, nowSec))
      {
        FootprintAt(cs, i);
        CloseAt(cs, i, errorCode, reason, nowSec);
        i := i + 1;
      }
      ViewsAt(cs);
    }
  }

  /** Runs the idle check of entry `i` alone; every other entry keeps its whole state. */
  method FireAt(cs: ConnectionTable, i: nat, nowMs: int) returns (fired: bool)
    requires Separate(cs) && AllValid(cs) && i < |cs|
    modifies Owned(cs[i].value)
    ensures AllValid(cs)
    ensures fired == old(Due(cs[i].value, nowMs))
    ensures Views(cs) == old(Views(cs))[i := AfterCheck(old(Views(cs))[i], nowMs)]
  {
    EachValid(cs);
    IsolatedAt(cs, i);
    ghost var pre := Views(cs);
    ViewsAt(cs);
    fired := cs[i].value.CheckIdle(nowMs);
    forall j | 0 <= j < |cs| && j != i
      ensures cs[j].value.Valid() && cs[j].value.View() == pre[j]
    {
      assert Owned(cs[j].value) !! Owned(cs[i].value);
    }
    ValidSubTable(cs, cs);
    ViewsAt(cs);
    assert Views(cs) == pre[i := AfterCheck(pre[i], nowMs)];
  }

  /** Closes entry `i` alone; every other entry keeps its whole state. */
  method CloseAt(cs: ConnectionTable, i: nat, errorCode: int, reason: ByteString, nowSec: int)
    requires Separate(cs) && AllValid(cs) && i < |cs|
    modifies Owned(cs[i].value)
    ensures AllValid(cs)
    ensures Views(cs) == old(Views(cs))[i := AfterClose(old(Views(cs))[i], errorCode, reason, nowSec)]
  {
    EachValid(cs);
    IsolatedAt(cs, i);
    ghost var pre := Views(cs);
    ViewsAt(cs);
    cs[i].value.Close(errorCode, reason, nowSec);
    forall j | 0 <= j < |cs| && j != i
      ensures cs[j].value.Valid() && cs[j].value.View() == pre[j]
    {
      assert Owned(cs[j].value) !! Owned(cs[i].value);
    }
    ValidSubTable(cs, cs);
    ViewsAt(cs);
    assert Views(cs) == pre[i := AfterClose(pre[i], errorCode, reason, nowSec)];
  }

  /** Runs one tick of entry `i` alone; every other entry keeps its whole state. */
  method TickAt(cs: ConnectionTable, i: nat, nowMs: int)
    requires Separate(cs) && AllValid(cs) && i < |cs|
    modifies Owned(cs[i].value)
    ensures AllValid(cs)
    ensures Views(cs) == old(Views(cs))[i := AfterTasks(old(Views(cs))[i], nowMs)]
  {
    EachValid(cs);
    IsolatedAt(cs, i);
    ghost var pre := Views(cs);
    ViewsAt(cs);
    cs[i].value.ProcessPendingTasks(nowMs);
    forall j | 0 <= j < |cs| && j != i
      ensures cs[j].value.Valid() && cs[j].value.View() == pre[j]
    {
      assert Owned(cs[j].value) !! Owned(cs[i].value);
    }
    ValidSubTable(cs, cs);
    ViewsAt(cs);
    assert Views(cs) == pre[i := AfterTasks(pre[i], nowMs)];
  }

  lemma {:induction false} FootprintAt(t: ConnectionTable, i: nat)
    requires i < |t|
    ensures Owned(t[i].value) <= Footprint(t)
  {
    if i > 0 {
      FootprintAt(t[1..], i - 1);
    }
  }

  /** Entries `i < j` share no object. */
  lemma {:induction false} ApartAt(t: ConnectionTable, i: nat, j: nat)
    requires Separate(t) && i < j < |t|
    ensures Owned(t[i].value) !! Owned(t[j].value)
  {
    if i == 0 {
      FootprintAt(t[1..], j - 1);
    } else {
      ApartAt(t[1..], i - 1, j - 1);
    }
  }

  /** Entry `i` shares no object with any other entry. */
  lemma IsolatedAt(t: ConnectionTable, i: nat)
    requires Separate(t) && i < |t|
    ensures forall j | 0 <= j < |t| && j != i :: Owned(t[j].value) !! Owned(t[i].value)
  {
    forall j | 0 <= j < |t| && j != i
      ensures Owned(t[j].value) !! Owned(t[i].value)
    {
      if j < i { ApartAt(t, j, i); } else { ApartAt(t, i, j); }
    }
  }

  lemma {:induction false} EachValid(t: ConnectionTable)
    requires AllValid(t)
    ensures forall j | 0 <= j < |t| :: t[j].value.Valid()
  {
    if |t| > 0 {
      EachValid(t[1..]);
      assert forall j | 1 <= j < |t| :: t[j] == t[1..][j - 1];
    }
  }

  /** A table made of entries of `t`, whose connections are all well formed, is well formed. */
  lemma {:induction false} ValidSubTable(t: ConnectionTable, t': ConnectionTable)
    requires forall j | 0 <= j < |t| :: t[j].value.Valid()
    requires forall e | e in t' :: e in t
    ensures AllValid(t')
  {
    if |t'| > 0 {
      assert t'[0] in t;
      assert forall e | e in t'[1..] :: e in t';
      ValidSubTable(t, t'[1..]);
    }
  }

  lemma {:induction false} PutStored(t: ConnectionTable, c: Connection)
    requires Filed(t) && Separate(t) && Owned(c) !! Footprint(t)
    ensures var t' := Put(t, c.localConnectionId, c);
      Filed(t') && Separate(t') && Footprint(t') <= Footprint(t) + Owned(c)
    ensures AllValid(t) && c.Valid() ==> AllValid(Put(t, c.localConnectionId, c))
  {
    var k := c.localConnectionId;
    if |t| > 0 {
      if t[0].key != k {
        PutStored(t[1..], c);
        var rest := Put(t[1..], k, c);
        assert Put(t, k, c) == [t[0]] + rest;
        assert ([t[0]] + rest)[1..] == rest;
      } else {
        assert Put(t, k, c)[1..] == t[1..];
      }
    }
  }

  lemma {:induction false} RemoveStored(t: ConnectionTable, k: ByteString)
    requires Filed(t) && Separate(t)
    ensures Filed(Remove(t, k)) && Separate(Remove(t, k)) && Footprint(Remove(t, k)) <= Footprint(t)
    ensures AllValid(t) ==> AllValid(Remove(t, k))
  {
    if |t| > 0 {
      RemoveStored(t[1..], k);
      if t[0].key != k {
        assert ([t[0]] + Remove(t[1..], k))[1..] == Remove(t[1..], k);
      }
    }
  }

  /** Storing `c` under its own id keeps the registry well formed. */
  lemma PutRegistry(t: ConnectionTable, m: map<ByteString, ByteString>, counter: int, max: int, c: Connection)
    requires Registry(t, m, counter, max)
    requires Lookup(t, c.localConnectionId) == Some(c) || Owned(c) !! Footprint(t)
    ensures Registry(Put(t, c.localConnectionId, c), m[c.localConnectionId := c.localConnectionId], counter + 1, max)
    ensures Footprint(Put(t, c.localConnectionId, c)) <= Footprint(t) + Owned(c)
    ensures AllValid(t) && c.Valid() ==> AllValid(Put(t, c.localConnectionId, c))
  {
    var k := c.localConnectionId;
    PutDistinct(t, k, c);
    PutShape(t, k, c);
    IdMapPut(t, k, c);
    if Lookup(t, k) == Some(c) {
      PutSame(t, k, c);
    } else {
      PutStored(t, c);
    }
  }

  lemma RemoveRegistry(t: ConnectionTable, m: map<ByteString, ByteString>, counter: int, max: int, k: ByteString)
    requires Registry(t, m, counter, max)
    ensures Registry(Remove(t, k), m - {k}, counter, max)
    ensures Footprint(Remove(t, k)) <= Footprint(t)
    ensures AllValid(t) ==> AllValid(Remove(t, k))
  {
    RemoveDistinct(t, k);
    RemoveLength(t, k);
    RemoveStored(t, k);
    IdMapRemove(t, k);
  }
}
