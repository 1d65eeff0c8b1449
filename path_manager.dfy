/**
 * Path validation, migration and switching (sections 8 and 9 of RFC 9000).
 * `time()` is the `nowSec` parameter and `random_bytes` the `challenge`
 * parameter.
 */
module PathManagement {
  import opened Wrappers
  import opened Bytes
  import opened Exceptions
  import opened PathStates
  import opened OrderedMaps
  import PathKeys

  /** Seconds a PATH_CHALLENGE may be answered after it was issued. */
  const PathValidationWindow := 5

  /** Seconds after which an unanswered probe is dropped. */
  const ProbeTimeout := 30

  /** The 4-tuple that names a path. */
  datatype PathId = PathId(localAddress: string, localPort: int, remoteAddress: string, remotePort: int)
  {
    /** `getPathKey`: the string the manager files the path under. */
    function Key(): string
    {
      PathKeys.PathKey(localAddress, localPort, remoteAddress, remotePort)
    }
  }

  /**
   * A path record: the initial path carries `validated_at`, a probe carries
   * `probe_start`, and a probe that validated carries both.
   */
  datatype Path = Path(id: PathId, state: PathState, validatedAt: Option<int>, probeStart: Option<int>)

  /** `probingPaths` and `validatedPaths`: path records by path key, in insertion order. */
  type PathTable = Table<string, Path>

  datatype PreferredAddress = PreferredAddress(address: string, port: int)

  /** The three path tables of the manager. */
  datatype Tables = Tables(active: Option<Path>, probing: PathTable, validated: PathTable)

  /** A probe record as every entry of the probing table is. */
  predicate WellFormedProbe(e: Entry<string, Path>)
  {
    e.value.state == Probing && e.value.probeStart.Some? && e.key == e.value.id.Key()
  }

  predicate WellFormedProbes(t: PathTable)
  {
    forall e | e in t :: WellFormedProbe(e)
  }

  /** `switchToPath`: the active path is filed as validated, `path` becomes active and leaves the validated table. */
  function Switched(t: Tables, key: string, path: Path): Tables
  {
    var v := if t.active.Some? then Put(t.validated, t.active.value.id.Key(), t.active.value) else t.validated;
    Tables(Some(path), t.probing, Remove(v, key))
  }

  lemma SwitchedSpec(t: Tables, key: string, path: Path, k: string)
    requires DistinctKeys(t.validated)
    ensures var r := Switched(t, key, path);
      && r.active == Some(path)
      && r.probing == t.probing
      && DistinctKeys(r.validated)
      && Lookup(r.validated, k) ==
           if k == key then None
           else if t.active.Some? && k == t.active.value.id.Key() then t.active
           else Lookup(t.validated, k)
  {
    var v := if t.active.Some? then Put(t.validated, t.active.value.id.Key(), t.active.value) else t.validated;
    if t.active.Some? {
      LookupPut(t.validated, t.active.value.id.Key(), t.active.value, k);
      PutDistinct(t.validated, t.active.value.id.Key(), t.active.value);
    }
    LookupRemove(v, key, k);
    RemoveDistinct(v, key);
  }

  /** `isPreferredAddressPath`: the remote end of the path is the preferred address. */
  predicate IsPreferredPath(preferred: Option<PreferredAddress>, p: Path)
    ensures IsPreferredPath(preferred, p) ==> preferred.Some?
  {
    preferred.Some? && p.id.remoteAddress == preferred.value.address && p.id.remotePort == preferred.value.port
  }

  /** The index of the first entry still in the PROBING state. */
  function FirstProbing(t: PathTable): (r: Option<nat>)
    ensures r.Some? ==> r.value < |t| && t[r.value].value.state == Probing
    ensures r.Some? ==> forall j | 0 <= j < r.value :: t[j].value.state != Probing
    ensures r.None? ==> forall j | 0 <= j < |t| :: t[j].value.state != Probing
  {
    if |t| == 0 then None
    else if t[0].value.state == Probing then Some(0)
    else match FirstProbing(t[1..])
      case None => None
      case Some(j) => Some(j + 1)
  }

  function MarkValidated(p: Path, nowSec: int): Path
  {
    p.(state := Validated, validatedAt := Some(nowSec))
  }

  /**
   * The tables after a PATH_RESPONSE that matched in time: the first probing
   * path moves to the validated table, marked VALIDATED, and becomes active
   * when it leads to the preferred address.
   */
  function Promoted(t: Tables, preferred: Option<PreferredAddress>, nowSec: int): Tables
  {
    match FirstProbing(t.probing)
    case None => t
    case Some(i) =>
      var e := t.probing[i];
      var vp := MarkValidated(e.value, nowSec);
      var moved := Tables(t.active, Remove(t.probing, e.key), Put(t.validated, e.key, vp));
      if IsPreferredPath(preferred, vp) then Switched(moved, e.key, vp) else moved
  }

  /**
   * With a well-formed probing table, a matching response validates the
   * oldest probe: it leaves the probing table, which loses exactly that entry,
   * and is found, VALIDATED, either in the validated table or as the active path.
   */
  lemma PromotedSpec(t: Tables, preferred: Option<PreferredAddress>, nowSec: int)
    requires DistinctKeys(t.probing) && DistinctKeys(t.validated) && WellFormedProbes(t.probing)
    requires |t.probing| > 0
    ensures var e, r := t.probing[0], Promoted(t, preferred, nowSec);
      && r.probing == t.probing[1..]
      && DistinctKeys(r.validated)
      && (if IsPreferredPath(preferred, e.value)
          then r.active == Some(MarkValidated(e.value, nowSec)) && !HasKey(r.validated, e.key)
          else r.active == t.active && Lookup(r.validated, e.key) == Some(MarkValidated(e.value, nowSec)))
  {
    var e := t.probing[0];
    assert WellFormedProbe(e);
    assert FirstProbing(t.probing) == Some(0);
    var vp := MarkValidated(e.value, nowSec);
    DistinctSplit(t.probing, 0);
    RemoveAbsent(t.probing[1..], e.key);
    assert t.probing == [e] + t.probing[1..];
    RemoveConcat([e], t.probing[1..], e.key);
    assert Remove([e], e.key) == [];
    LookupPut(t.validated, e.key, vp, e.key);
    PutDistinct(t.validated, e.key, vp);
    var moved := Tables(t.active, Remove(t.probing, e.key), Put(t.validated, e.key, vp));
    SwitchedSpec(moved, e.key, vp, e.key);
  }

  /** A probe whose start lies more than `ProbeTimeout` seconds back. */
  predicate Expired(e: Entry<string, Path>, nowSec: int)
  {
    e.value.probeStart.Some? && nowSec - e.value.probeStart.value > ProbeTimeout
  }

  /** The probes `cleanupTimeoutPaths` keeps, in their order. */
  function Unexpired(t: PathTable, nowSec: int): PathTable
  {
    if |t| == 0 then []
    else if Expired(t[0], nowSec) then Unexpired(t[1..], nowSec)
    else [t[0]] + Unexpired(t[1..], nowSec)
  }

  /** Cleanup keeps exactly the probes that have not expired. */
  lemma {:induction false} UnexpiredSpec(t: PathTable, nowSec: int)
    ensures forall e | e in Unexpired(t, nowSec) :: e in t && !Expired(e, nowSec)
    ensures forall e | e in t && !Expired(e, nowSec) :: e in Unexpired(t, nowSec)
    ensures DistinctKeys(t) ==> DistinctKeys(Unexpired(t, nowSec))
  {
    if |t| > 0 {
      UnexpiredSpec(t[1..], nowSec);
      UnexpiredKeys(t[1..], nowSec, t[0].key);
      assert t == [t[0]] + t[1..];
    }
  }

  lemma {:induction false} UnexpiredKeys(t: PathTable, nowSec: int, k: string)
    ensures HasKey(Unexpired(t, nowSec), k) ==> HasKey(t, k)
  {
    if |t| > 0 {
      UnexpiredKeys(t[1..], nowSec, k);
    }
  }

  lemma {:induction false} UnexpiredSnoc(t: PathTable, e: Entry<string, Path>, nowSec: int)
    ensures Unexpired(t + [e], nowSec) == Unexpired(t, nowSec) + (if Expired(e, nowSec) then [] else [e])
  {
    if |t| > 0 {
      assert (t + [e])[1..] == t[1..] + [e];
      UnexpiredSnoc(t[1..], e, nowSec);
    } else {
      assert t + [e] == [e];
    }
  }

  /** One turn of the cleanup loop: unsetting an expired probe's key removes that probe only. */
  lemma CleanupStep(entries: PathTable, i: nat, nowSec: int)
    requires DistinctKeys(entries) && i < |entries|
    ensures var e, live := entries[i], Unexpired(entries[..i], nowSec) + entries[i..];
      Unexpired(entries[..i + 1], nowSec) + entries[i + 1..] ==
        if Expired(e, nowSec) then Remove(live, e.key) else live
  {
    var e := entries[i];
    var x := Unexpired(entries[..i], nowSec);
    var y := entries[i + 1..];
    assert entries[..i + 1] == entries[..i] + [e];
    assert entries[i..] == [e] + y;
    assert Unexpired(entries[..i + 1], nowSec) == x + (if Expired(e, nowSec) then [] else [e]) by {
      UnexpiredSnoc(entries[..i], e, nowSec);
    }
    if Expired(e, nowSec) {
      assert !HasKey(x, e.key) && !HasKey(y, e.key) by {
        DistinctSplit(entries, i);
        UnexpiredKeys(entries[..i], nowSec, e.key);
      }
      RemoveMiddle(x, e, y);
      assert x + [] + y == x + y;
    } else {
      assert x + [e] + y == x + ([e] + y);
    }
  }

  /**
   * The `foreach` of `cleanupTimeoutPaths`: every probe whose probe time is
   * older than the probe timeout is unset from the table, one at a time.
   */
  method DropExpired(entries: PathTable, nowSec: int) returns (live: PathTable)
    requires DistinctKeys(entries)
    ensures live == Unexpired(entries, nowSec)
  {
    live := entries;
    var i := 0;
    while i < |entries|
      invariant 0 <= i <= |entries|
      invariant live == Unexpired(entries[..i], nowSec) + entries[i..]
    {
      var e := entries[i];
      CleanupStep(entries, i, nowSec);
      if e.value.probeStart.Some? && nowSec - e.value.probeStart.value > ProbeTimeout {
        // The FAILED mark lands on a copy of the record only.
        live := Remove(live, e.key);
      }
      i := i + 1;
    }
    assert entries[..i] == entries && entries[i..] == [];
  }

  /** `$paths[$k] = $p` for every entry of `es`, in order. */
  function PutAll(t: PathTable, es: PathTable): PathTable
  {
    if |es| == 0 then t else Put(PutAll(t, es[..|es| - 1]), es[|es| - 1].key, es[|es| - 1].value)
  }

  lemma {:induction false} LookupPutAll(t: PathTable, es: PathTable, k: string)
    requires DistinctKeys(es)
    ensures Lookup(PutAll(t, es), k) == if HasKey(es, k) then Lookup(es, k) else Lookup(t, k)
  {
    if |es| > 0 {
      var n := |es| - 1;
      DistinctPrefix(es, n);
      LookupPutAll(t, es[..n], k);
      LookupPut(PutAll(t, es[..n]), es[n].key, es[n].value, k);
      assert es == es[..n] + [es[n]];
      LookupConcat(es[..n], [es[n]], k);
      DistinctSplit(es, n);
    }
  }

  lemma {:induction false} PutAllDistinct(t: PathTable, es: PathTable)
    requires DistinctKeys(t)
    ensures DistinctKeys(PutAll(t, es))
  {
    if |es| > 0 {
      PutAllDistinct(t, es[..|es| - 1]);
      PutDistinct(PutAll(t, es[..|es| - 1]), es[|es| - 1].key, es[|es| - 1].value);
    }
  }

  /** The keyed list `getAllPaths` builds before `array_values`. */
  function MergedPaths(t: Tables): PathTable
  {
    var base := if t.active.Some? then [Entry(t.active.value.id.Key(), t.active.value)] else [];
    PutAll(PutAll(base, t.validated), t.probing)
  }

  /**
   * Every key is listed once; under a key the probing path wins over the
   * validated one, which wins over the active path.
   */
  lemma MergedPathsSpec(t: Tables, k: string)
    requires DistinctKeys(t.probing) && DistinctKeys(t.validated)
    ensures DistinctKeys(MergedPaths(t))
    ensures Lookup(MergedPaths(t), k) ==
      if HasKey(t.probing, k) then Lookup(t.probing, k)
      else if HasKey(t.validated, k) then Lookup(t.validated, k)
      else if t.active.Some? && k == t.active.value.id.Key() then t.active
      else None
  {
    var base := if t.active.Some? then [Entry(t.active.value.id.Key(), t.active.value)] else [];
    assert DistinctKeys(base);
    PutAllDistinct(base, t.validated);
    PutAllDistinct(PutAll(base, t.validated), t.probing);
    LookupPutAll(PutAll(base, t.validated), t.probing, k);
    LookupPutAll(base, t.validated, k);
  }

  class PathManager {
    var validationChallenge: Option<ByteString>
    var validationTimeout: Option<int>
    var activePath: Option<Path>
    var probingPaths: PathTable
    var validatedPaths: PathTable
    var preferredAddress: Option<PreferredAddress>
    const isServer: bool

    function Paths(): Tables
      reads this
    {
      Tables(activePath, probingPaths, validatedPaths)
    }

    /**
     * Keys are unique in both tables, every probing entry is a well-formed
     * probe filed under its own key, and a challenge is outstanding exactly
     * when it has a deadline.
     */
    ghost predicate Valid()
      reads this
    {
      && DistinctKeys(probingPaths)
      && DistinctKeys(validatedPaths)
      && WellFormedProbes(probingPaths)
      && (validationChallenge.Some? <==> validationTimeout.Some?)
    }

    constructor(isServer: bool)
      ensures Valid()
      ensures this.isServer == isServer
      ensures Paths() == Tables(None, [], [])
      ensures validationChallenge == None && validationTimeout == None && preferredAddress == None
    {
      this.isServer := isServer;
      validationChallenge := None;
      validationTimeout := None;
      activePath := None;
      probingPaths := [];
      validatedPaths := [];
      preferredAddress := None;
    }

    /** The first path of a connection is VALIDATED from the start. */
    method InitializePath(localAddress: string, localPort: int, remoteAddress: string, remotePort: int, nowSec: int)
      requires Valid()
      modifies this
      ensures Valid()
      ensures activePath == Some(Path(PathId(localAddress, localPort, remoteAddress, remotePort), Validated, Some(nowSec), None))
      ensures probingPaths == old(probingPaths) && validatedPaths == old(validatedPaths)
      ensures validationChallenge == old(validationChallenge) && validationTimeout == old(validationTimeout)
      ensures preferredAddress == old(preferredAddress)
    {
      activePath := Some(Path(PathId(localAddress, localPort, remoteAddress, remotePort), Validated, Some(nowSec), None));
    }

    /**
     * Starts probing a path unless it is probing already; a new probe is
     * appended and a fresh challenge with a 5-second deadline replaces any
     * outstanding one.
     */
    method ProbePath(localAddress: string, localPort: int, remoteAddress: string, remotePort: int,
                     nowSec: int, challenge: ByteString)
      requires Valid()
      modifies this
      ensures Valid()
      ensures var id := PathId(localAddress, localPort, remoteAddress, remotePort);
        if HasKey(old(probingPaths), id.Key()) then
          probingPaths == old(probingPaths)
          && validationChallenge == old(validationChallenge) && validationTimeout == old(validationTimeout)
        else
          probingPaths == old(probingPaths) + [Entry(id.Key(), Path(id, Probing, None, Some(nowSec)))]
          && validationChallenge == Some(challenge) && validationTimeout == Some(nowSec + PathValidationWindow)
      ensures activePath == old(activePath) && validatedPaths == old(validatedPaths)
      ensures preferredAddress == old(preferredAddress)
    {
      var id := PathId(localAddress, localPort, remoteAddress, remotePort);
      var pathKey := id.Key();
      if HasKey(probingPaths, pathKey) {
        return;
      }
      var path := Path(id, Probing, None, Some(nowSec));
      PutShape(probingPaths, pathKey, path);
      PutElements(probingPaths, pathKey, path);
      PutDistinct(probingPaths, pathKey, path);
      probingPaths := Put(probingPaths, pathKey, path);
      InitiatePathValidation(pathKey, nowSec, challenge);
    }

    /** Issues a challenge that may be answered until `nowSec + 5`. */
    method InitiatePathValidation(pathKey: string, nowSec: int, challenge: ByteString)
      modifies this
      ensures validationChallenge == Some(challenge) && validationTimeout == Some(nowSec + PathValidationWindow)
      ensures Paths() == old(Paths()) && preferredAddress == old(preferredAddress)
    {
      validationChallenge := Some(challenge);
      validationTimeout := Some(nowSec + PathValidationWindow);
    }

    /**
     * A PATH_RESPONSE is accepted when it equals the outstanding challenge and
     * arrives by the deadline; it then promotes the oldest probe and clears the
     * challenge. A rejected response changes nothing.
     */
    method HandlePathResponse(response: ByteString, nowSec: int) returns (accepted: bool)
      requires Valid()
      modifies this
      ensures Valid()
      ensures accepted <==> old(validationChallenge) == Some(response) && nowSec <= old(validationTimeout).value
      ensures accepted ==> Paths() == Promoted(old(Paths()), old(preferredAddress), nowSec)
      ensures accepted ==> validationChallenge == None && validationTimeout == None
      ensures !accepted ==> Paths() == old(Paths())
      ensures !accepted ==> validationChallenge == old(validationChallenge) && validationTimeout == old(validationTimeout)
      ensures preferredAddress == old(preferredAddress)
    {
      if Some(response) != validationChallenge {
        return false;
      }
      if nowSec > validationTimeout.value {
        return false;
      }
      var entries := probingPaths;
      var i := 0;
      while i < |entries|
        invariant 0 <= i <= |entries|
        invariant forall j | 0 <= j < i :: entries[j].value.state != Probing
        invariant Paths() == old(Paths()) && probingPaths == entries
        invariant Valid() && preferredAddress == old(preferredAddress)
      {
        var e := entries[i];
        if e.value.state == Probing {
          var vp := MarkValidated(e.value, nowSec);
          PutDistinct(validatedPaths, e.key, vp);
          validatedPaths := Put(validatedPaths, e.key, vp);
          RemoveDistinct(probingPaths, e.key);
          RemoveElements(probingPaths, e.key);
          probingPaths := Remove(probingPaths, e.key);
          if IsPreferredPath(preferredAddress, vp) {
            SwitchToPath(e.key, vp);
          }
          assert FirstProbing(entries) == Some(i);
          break;
        }
        i := i + 1;
      }
      validationChallenge := None;
      validationTimeout := None;
      accepted := true;
    }

    /**
     * Makes `path` active: the previous active path is filed as validated under
     * its own key and `pathKey` leaves the validated table.
     */
    method SwitchToPath(pathKey: string, path: Path)
      requires Valid()
      modifies this
      ensures Valid()
      ensures Paths() == Switched(old(Paths()), pathKey, path)
      ensures validationChallenge == old(validationChallenge) && validationTimeout == old(validationTimeout)
      ensures preferredAddress == old(preferredAddress)
    {
      if activePath.Some? {
        var oldPathKey := activePath.value.id.Key();
        PutDistinct(validatedPaths, oldPathKey, activePath.value);
        validatedPaths := Put(validatedPaths, oldPathKey, activePath.value);
      }
      activePath := Some(path);
      RemoveDistinct(validatedPaths, pathKey);
      validatedPaths := Remove(validatedPaths, pathKey);
    }

    /** Only a server may advertise a preferred address. */
    method SetPreferredAddress(address: string, port: int) returns (r: Outcome<QuicError>)
      requires Valid()
      modifies this
      ensures Valid()
      ensures r == (if isServer then Pass else Fail(InvalidConnectionState))
      ensures preferredAddress == if isServer then Some(PreferredAddress(address, port)) else old(preferredAddress)
      ensures Paths() == old(Paths())
      ensures validationChallenge == old(validationChallenge) && validationTimeout == old(validationTimeout)
    {
      if !isServer {
        return Fail(InvalidConnectionState);
      }
      preferredAddress := Some(PreferredAddress(address, port));
      r := Pass;
    }

    /**
     * Drops every probe older than 30 seconds, keeping the others in order,
     * and forgets a challenge whose deadline has passed.
     */
    method CleanupTimeoutPaths(nowSec: int)
      requires Valid()
      modifies this
      ensures Valid()
      ensures probingPaths == Unexpired(old(probingPaths), nowSec)
      ensures activePath == old(activePath) && validatedPaths == old(validatedPaths)
      ensures if old(validationTimeout).Some? && nowSec > old(validationTimeout).value
        then validationChallenge == None && validationTimeout == None
        else validationChallenge == old(validationChallenge) && validationTimeout == old(validationTimeout)
      ensures preferredAddress == old(preferredAddress)
    {
      var entries := probingPaths;
      probingPaths := DropExpired(entries, nowSec);
      UnexpiredSpec(entries, nowSec);
      if validationTimeout.Some? && nowSec > validationTimeout.value {
        validationChallenge := None;
        validationTimeout := None;
      }
    }

    /** Every path the manager knows, one per key: active, then validated, then probing. */
    method GetAllPaths() returns (paths: seq<Path>)
      ensures paths == Values(MergedPaths(Paths()))
    {
      var merged: PathTable := if activePath.Some? then [Entry(activePath.value.id.Key(), activePath.value)] else [];
      var base := merged;
      var i := 0;
      while i < |validatedPaths|
        invariant 0 <= i <= |validatedPaths|
        invariant merged == PutAll(base, validatedPaths[..i])
      {
        assert validatedPaths[..i + 1][..i] == validatedPaths[..i];
        merged := Put(merged, validatedPaths[i].key, validatedPaths[i].value);
        i := i + 1;
      }
      assert validatedPaths[..i] == validatedPaths;
      base := merged;
      i := 0;
      while i < |probingPaths|
        invariant 0 <= i <= |probingPaths|
        invariant merged == PutAll(base, probingPaths[..i])
      {
        assert probingPaths[..i + 1][..i] == probingPaths[..i];
        merged := Put(merged, probingPaths[i].key, probingPaths[i].value);
        i := i + 1;
      }
      assert probingPaths[..i] == probingPaths;
      paths := Values(merged);
    }
  }
}
