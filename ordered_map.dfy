/**
 * A PHP array with string keys: an ordered sequence of entries. Assigning to
 * a present key replaces that entry in place, assigning to an absent key
 * appends, `unset` removes.
 */
module OrderedMaps {
  import opened Wrappers

  datatype Entry<K, V> = Entry(key: K, value: V)

  type Table<K, V> = seq<Entry<K, V>>

  function Lookup<K(==), V>(t: Table<K, V>, k: K): Option<V>
  {
    if |t| == 0 then None else if t[0].key == k then Some(t[0].value) else Lookup(t[1..], k)
  }

  predicate HasKey<K(==), V>(t: Table<K, V>, k: K)
  {
    Lookup(t, k).Some?
  }

  predicate DistinctKeys<K(==), V>(t: Table<K, V>)
  {
    |t| == 0 || (!HasKey(t[1..], t[0].key) && DistinctKeys(t[1..]))
  }

  /** `$t[$k] = $v`. */
  function Put<K(==), V>(t: Table<K, V>, k: K, v: V): Table<K, V>
  {
    if |t| == 0 then [Entry(k, v)]
    else if t[0].key == k then [Entry(k, v)] + t[1..]
    else [t[0]] + Put(t[1..], k, v)
  }

  /** `unset($t[$k])`. */
  function Remove<K(==), V>(t: Table<K, V>, k: K): Table<K, V>
  {
    if |t| == 0 then []
    else if t[0].key == k then Remove(t[1..], k)
    else [t[0]] + Remove(t[1..], k)
  }

  /** `array_values`. */
  function Values<K(==), V>(t: Table<K, V>): (r: seq<V>)
    ensures |r| == |t| && forall i | 0 <= i < |t| :: r[i] == t[i].value
  {
    if |t| == 0 then [] else [t[0].value] + Values(t[1..])
  }

  lemma {:induction false} LookupPut<K, V>(t: Table<K, V>, k: K, v: V, k': K)
    ensures Lookup(Put(t, k, v), k') == if k' == k then Some(v) else Lookup(t, k')
  {
    if |t| > 0 && t[0].key != k {
      LookupPut(t[1..], k, v, k');
    }
  }

  /** Assigning to a present key keeps the length and the order; to an absent key appends. */
  lemma {:induction false} PutShape<K, V>(t: Table<K, V>, k: K, v: V)
    ensures HasKey(t, k) ==> |Put(t, k, v)| == |t|
    ensures HasKey(t, k) ==> forall i | 0 <= i < |t| :: Put(t, k, v)[i].key == t[i].key
    ensures !HasKey(t, k) ==> Put(t, k, v) == t + [Entry(k, v)]
  {
    if |t| > 0 && t[0].key != k {
      PutShape(t[1..], k, v);
      assert [t[0]] + (t[1..] + [Entry(k, v)]) == t + [Entry(k, v)];
    }
  }

  lemma {:induction false} PutElements<K, V>(t: Table<K, V>, k: K, v: V)
    ensures forall e | e in Put(t, k, v) :: e in t || e == Entry(k, v)
  {
    if |t| > 0 && t[0].key != k {
      PutElements(t[1..], k, v);
    }
  }

  lemma {:induction false} PutDistinct<K, V>(t: Table<K, V>, k: K, v: V)
    requires DistinctKeys(t)
    ensures DistinctKeys(Put(t, k, v))
  {
    if |t| > 0 {
      if t[0].key == k {
        assert Put(t, k, v)[1..] == t[1..];
      } else {
        PutDistinct(t[1..], k, v);
        LookupPut(t[1..], k, v, t[0].key);
        assert Put(t, k, v)[1..] == Put(t[1..], k, v);
      }
    }
  }

  lemma {:induction false} LookupRemove<K, V>(t: Table<K, V>, k: K, k': K)
    ensures Lookup(Remove(t, k), k') == if k' == k then None else Lookup(t, k')
  {
    if |t| > 0 {
      LookupRemove(t[1..], k, k');
    }
  }

  lemma {:induction false} RemoveElements<K, V>(t: Table<K, V>, k: K)
    ensures forall e | e in Remove(t, k) :: e in t && e.key != k
  {
    if |t| > 0 {
      RemoveElements(t[1..], k);
    }
  }

  lemma {:induction false} RemoveDistinct<K, V>(t: Table<K, V>, k: K)
    requires DistinctKeys(t)
    ensures DistinctKeys(Remove(t, k))
  {
    if |t| > 0 {
      RemoveDistinct(t[1..], k);
      if t[0].key != k {
        LookupRemove(t[1..], k, t[0].key);
        assert Remove(t, k)[1..] == Remove(t[1..], k);
      }
    }
  }

  /** Removing a key the table does not hold changes nothing. */
  lemma {:induction false} RemoveAbsent<K, V>(t: Table<K, V>, k: K)
    requires !HasKey(t, k)
    ensures Remove(t, k) == t
  {
    if |t| > 0 {
      RemoveAbsent(t[1..], k);
    }
  }

  lemma {:induction false} RemoveConcat<K, V>(a: Table<K, V>, b: Table<K, V>, k: K)
    ensures Remove(a + b, k) == Remove(a, k) + Remove(b, k)
  {
    if |a| > 0 {
      assert (a + b)[1..] == a[1..] + b;
      RemoveConcat(a[1..], b, k);
    } else {
      assert a + b == b;
    }
  }

  lemma {:induction false} LookupConcat<K, V>(a: Table<K, V>, b: Table<K, V>, k: K)
    ensures Lookup(a + b, k) == if HasKey(a, k) then Lookup(a, k) else Lookup(b, k)
  {
    if |a| > 0 {
      assert (a + b)[1..] == a[1..] + b;
      LookupConcat(a[1..], b, k);
    } else {
      assert a + b == b;
    }
  }

  lemma {:induction false} HasKeyOfElement<K, V>(t: Table<K, V>, i: nat)
    requires i < |t|
    ensures HasKey(t, t[i].key)
  {
    if i > 0 && t[0].key != t[i].key {
      HasKeyOfElement(t[1..], i - 1);
    }
  }

  /** In a table with distinct keys an entry's key occurs neither before nor after it. */
  lemma {:induction false} DistinctSplit<K, V>(t: Table<K, V>, i: nat)
    requires DistinctKeys(t) && i < |t|
    ensures !HasKey(t[..i], t[i].key) && !HasKey(t[i + 1..], t[i].key)
  {
    if i == 0 {
      assert t[i + 1..] == t[1..];
    } else {
      DistinctSplit(t[1..], i - 1);
      assert t[1..][i..] == t[i + 1..];
      HasKeyOfElement(t[1..], i - 1);
      assert t[..i] == [t[0]] + t[1..][..i - 1];
    }
  }

  lemma {:induction false} DistinctPrefix<K, V>(t: Table<K, V>, n: nat)
    requires DistinctKeys(t) && n <= |t|
    ensures DistinctKeys(t[..n])
  {
    if n > 0 {
      DistinctPrefix(t[1..], n - 1);
      assert t[..n][1..] == t[1..][..n - 1];
      assert t[1..][..n - 1] + t[1..][n - 1..] == t[1..];
      LookupConcat(t[1..][..n - 1], t[1..][n - 1..], t[0].key);
    }
  }

  /** Unsetting the key of an entry whose key occurs nowhere else removes just that entry. */
  lemma RemoveMiddle<K, V>(x: Table<K, V>, e: Entry<K, V>, y: Table<K, V>)
    requires !HasKey(x, e.key) && !HasKey(y, e.key)
    ensures Remove(x + ([e] + y), e.key) == x + y
  {
    RemoveAbsent(x, e.key);
    RemoveAbsent(y, e.key);
    RemoveConcat(x, [e] + y, e.key);
    RemoveConcat([e], y, e.key);
    assert Remove([e], e.key) == [];
  }

  /** Assigning an entry its own value changes nothing. */
  lemma {:induction false} PutSame<K, V>(t: Table<K, V>, k: K, v: V)
    requires Lookup(t, k) == Some(v)
    ensures Put(t, k, v) == t
  {
    if t[0].key != k {
      PutSame(t[1..], k, v);
    }
  }

  lemma DistinctIndices<K, V>(t: Table<K, V>, i: nat, j: nat)
    requires DistinctKeys(t) && i < j < |t|
    ensures t[i].key != t[j].key
  {
    DistinctSplit(t, i);
    HasKeyOfElement(t[i + 1..], j - i - 1);
  }

  /** The entries whose flag is set, in order: what a `foreach` that unsets the others leaves. */
  function Select<K, V>(t: Table<K, V>, keep: seq<bool>): Table<K, V>
    requires |keep| == |t|
  {
    if |t| == 0 then [] else (if keep[0] then [t[0]] else []) + Select(t[1..], keep[1..])
  }

  /**
   * The live table of a `foreach` over a copy of `t` that unsets the key of
   * every entry whose flag is clear, once `i` entries have been visited.
   */
  function Swept<K(==), V>(t: Table<K, V>, keep: seq<bool>, i: nat): Table<K, V>
    requires |keep| == |t| && i <= |t|
  {
    if i == 0 then t
    else
      var live := Swept(t, keep, i - 1);
      if keep[i - 1] then live else Remove(live, t[i - 1].key)
  }

  lemma {:induction false} SelectSnoc<K, V>(t: Table<K, V>, keep: seq<bool>, e: Entry<K, V>, b: bool)
    requires |keep| == |t|
    ensures Select(t + [e], keep + [b]) == Select(t, keep) + (if b then [e] else [])
  {
    if |t| > 0 {
      assert (t + [e])[1..] == t[1..] + [e];
      assert (keep + [b])[1..] == keep[1..] + [b];
      SelectSnoc(t[1..], keep[1..], e, b);
    } else {
      assert t + [e] == [e] && keep + [b] == [b];
    }
  }

  /** An entry survives exactly when its flag is set; nothing else is added and keys stay distinct. */
  lemma {:induction false} SelectSpec<K, V>(t: Table<K, V>, keep: seq<bool>)
    requires |keep| == |t|
    ensures forall e | e in Select(t, keep) :: e in t
    ensures forall i | 0 <= i < |t| && keep[i] :: t[i] in Select(t, keep)
    ensures forall k | HasKey(Select(t, keep), k) :: HasKey(t, k)
    ensures DistinctKeys(t) ==> DistinctKeys(Select(t, keep))
    ensures DistinctKeys(t) ==> forall i | 0 <= i < |t| && !keep[i] :: t[i] !in Select(t, keep)
  {
    if |t| > 0 {
      SelectSpec(t[1..], keep[1..]);
      var rest := Select(t[1..], keep[1..]);
      var head := if keep[0] then [t[0]] else [];
      assert Select(t, keep) == head + rest;
      forall k | HasKey(Select(t, keep), k)
        ensures HasKey(t, k)
      {
        LookupConcat(head, rest, k);
        if !HasKey(head, k) {
          assert HasKey(t[1..], k);
        }
      }
      forall i | 0 <= i < |t| && keep[i]
        ensures t[i] in Select(t, keep)
      {
        if i > 0 {
          assert t[i] == t[1..][i - 1] && keep[i] == keep[1..][i - 1];
        }
      }
      if DistinctKeys(t) {
        forall i | 0 <= i < |t| && !keep[i]
          ensures t[i] !in Select(t, keep)
        {
          if i > 0 {
            assert t[i] == t[1..][i - 1] && keep[i] == keep[1..][i - 1];
            DistinctIndices(t, 0, i);
          } else if t[0] in rest {
            var j :| 0 <= j < |rest| && rest[j] == t[0];
            HasKeyOfElement(rest, j);
          }
        }
        assert DistinctKeys(t[1..]) && !HasKey(t[1..], t[0].key);
        assert DistinctKeys(rest);
        if keep[0] {
          var s := Select(t, keep);
          assert s[0] == t[0] && s[1..] == rest;
          assert !HasKey(rest, t[0].key);
          assert DistinctKeys(s);
        } else {
          assert Select(t, keep) == rest;
        }
      }
    }
  }

  /** Midway, the sweep has kept the flagged part of the visited prefix and left the rest alone. */
  lemma {:induction false} SweptSelect<K, V>(t: Table<K, V>, keep: seq<bool>, i: nat)
    requires DistinctKeys(t) && |keep| == |t| && i <= |t|
    ensures Swept(t, keep, i) == Select(t[..i], keep[..i]) + t[i..]
  {
    if i > 0 {
      SweptSelect(t, keep, i - 1);
      SweptSelectStep(t, keep, i - 1);
    }
  }

  /** One more visited entry: the swept table follows the selection over one more prefix entry. */
  lemma SweptSelectStep<K, V>(t: Table<K, V>, keep: seq<bool>, j: nat)
    requires DistinctKeys(t) && |keep| == |t| && j < |t|
    requires Swept(t, keep, j) == Select(t[..j], keep[..j]) + t[j..]
    ensures Swept(t, keep, j + 1) == Select(t[..j + 1], keep[..j + 1]) + t[j + 1..]
  {
    var e := t[j];
    var x := Select(t[..j], keep[..j]);
    var y := t[j + 1..];
    assert t[j..] == [e] + y;
    SelectPrefixSnoc(t, keep, j);
    if keep[j] {
      assert x + ([e] + y) == x + [e] + y;
    } else {
      assert !HasKey(x, e.key) && !HasKey(y, e.key) by {
        DistinctSplit(t, j);
        SelectSpec(t[..j], keep[..j]);
      }
      RemoveMiddle(x, e, y);
      assert x + [] + y == x + y;
    }
  }

  lemma SelectPrefixSnoc<K, V>(t: Table<K, V>, keep: seq<bool>, j: nat)
    requires |keep| == |t| && j < |t|
    ensures Select(t[..j + 1], keep[..j + 1]) == Select(t[..j], keep[..j]) + (if keep[j] then [t[j]] else [])
  {
    assert t[..j + 1] == t[..j] + [t[j]];
    assert keep[..j + 1] == keep[..j] + [keep[j]];
    SelectSnoc(t[..j], keep[..j], t[j], keep[j]);
  }

  lemma {:induction false} SweptElements<K, V>(t: Table<K, V>, keep: seq<bool>, i: nat)
    requires |keep| == |t| && i <= |t|
    ensures forall e | e in Swept(t, keep, i) :: e in t
  {
    if i > 0 {
      SweptElements(t, keep, i - 1);
      RemoveElements(Swept(t, keep, i - 1), t[i - 1].key);
    }
  }

  /** A completed sweep keeps exactly the flagged entries, in order. */
  lemma SweptAll<K, V>(t: Table<K, V>, keep: seq<bool>)
    requires DistinctKeys(t) && |keep| == |t|
    ensures Swept(t, keep, |t|) == Select(t, keep)
  {
    SweptSelect(t, keep, |t|);
    assert t[..|t|] == t && keep[..|t|] == keep && t[|t|..] == [];
  }

  lemma {:induction false} SelectLength<K, V>(t: Table<K, V>, keep: seq<bool>)
    requires |keep| == |t|
    ensures |Select(t, keep)| <= |t|
  {
    if |t| > 0 {
      SelectLength(t[1..], keep[1..]);
    }
  }

  lemma {:induction false} RemoveLength<K, V>(t: Table<K, V>, k: K)
    ensures |Remove(t, k)| <= |t|
  {
    if |t| > 0 {
      RemoveLength(t[1..], k);
    }
  }
}
