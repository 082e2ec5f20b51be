/** The server's key space: the value of every key, and for some keys the
    instant after which the key no longer exists. Instants and durations
    are nanoseconds on one clock; the caller passes the current instant
    `now` to every operation that consults the clock. */
module Storage {
  import opened Wire

  /** The duration `SetEx` substitutes for a zero ttl: 3600 nanoseconds,
      since a bare integer converted to a `time.Duration` counts
      nanoseconds. */
  const FallbackTtl: int := 3600

  /** The contents of a store at one moment. */
  datatype Snapshot = Snapshot(data: map<Bytes, Bytes>, expiry: map<Bytes, int>)

  /** `Store`: the two maps, updated in place by every operation. */
  class Store {
    var data: map<Bytes, Bytes>
    var expiry: map<Bytes, int>

    /** Only a key that has a value can have a deadline. */
    ghost predicate Valid()
      reads this
    {
      expiry.Keys <= data.Keys
    }

    /** `now.After(exp)`: the key's deadline has passed. */
    predicate Expired(key: Bytes, now: int)
      reads this
    {
      key in expiry && now > expiry[key]
    }

    function State(): Snapshot
      reads this
    {
      Snapshot(data, expiry)
    }

    /** The keys that still exist at `now`. */
    function LiveKeys(now: int): set<Bytes>
      reads this
    {
      Live(data, expiry, now)
    }

    /** `NewStore`, without the reaper goroutine it starts. */
    constructor ()
      ensures Valid()
      ensures data == map[] && expiry == map[]
    {
      data := map[];
      expiry := map[];
    }

    /** `Set`: stores the value and drops any deadline the key had. */
    method Set(key: Bytes, value: Bytes)
      requires Valid()
      modifies this
      ensures Valid()
      ensures data == old(data)[key := value]
      ensures expiry == old(expiry) - {key}
      ensures forall now :: key in LiveKeys(now) && Ttl(key, now) == -1
    {
      data := data[key := value];
      expiry := expiry - {key};
    }

    /** `SetEx`: stores the value with the deadline `now + ttl`; a zero
        ttl is replaced by `FallbackTtl`. */
    method SetEx(key: Bytes, value: Bytes, ttl: int, now: int)
      requires Valid()
      modifies this
      ensures Valid()
      ensures data == old(data)[key := value]
      ensures expiry == old(expiry)[key := now + (if ttl == 0 then FallbackTtl else ttl)]
      ensures ttl > 0 ==> key in LiveKeys(now) && (IsInt64(ttl) ==> Ttl(key, now) == ttl)
    {
      var d := ttl;
      if d == 0 {
        d := FallbackTtl;
      }
      data := data[key := value];
      expiry := expiry[key := now + d];
    }

    /** `Get`: a key whose deadline has passed is deleted on the spot and
        reported missing; otherwise the stored value, if any, is returned
        and nothing changes. */
    method Get(key: Bytes, now: int) returns (r: Option<Bytes>)
      requires Valid()
      modifies this
      ensures Valid()
      ensures r.Some? <==> key in old(LiveKeys(now))
      ensures r.Some? ==> r.value == old(data)[key]
      ensures old(Expired(key, now)) ==> data == old(data) - {key} && expiry == old(expiry) - {key}
      ensures !old(Expired(key, now)) ==> data == old(data) && expiry == old(expiry)
      ensures LiveKeys(now) == old(LiveKeys(now))
    {
      if key in expiry && now > expiry[key] {
        data := data - {key};
        expiry := expiry - {key};
        return None;
      }
      if key in data {
        r := Some(data[key]);
      } else {
        r := None;
      }
    }

    /** `Del`: deletes every listed key that has a value and counts
        them; a key listed twice is counted once. */
    method Del(keys: seq<Bytes>) returns (count: int)
      requires Valid()
      modifies this
      ensures Valid()
      ensures data == old(data) - Elems(keys)
      ensures expiry == old(expiry) - Elems(keys)
      ensures count == |old(data).Keys * Elems(keys)|
      ensures 0 <= count <= |keys|
    {
      count := 0;
      var i := 0;
      while i < |keys|
        invariant 0 <= i <= |keys|
        invariant Valid()
        invariant data == old(data) - Elems(keys[..i])
        invariant expiry == old(expiry) - Elems(keys[..i])
        invariant count == |old(data).Keys * Elems(keys[..i])|
      {
        var key := keys[i];
        ghost var seen := Elems(keys[..i]);
        RemoveOneMore(old(data), data, seen, key);
        RemoveOneMore(old(expiry), expiry, seen, key);
        if key in data {
          CountOneMore(old(data).Keys, seen, key);
          data := data - {key};
          expiry := expiry - {key};
          count := count + 1;
        } else {
          CountNoMore(old(data).Keys, seen, key);
        }
        ghost var previous := i;
        i := i + 1;
        ElemsSnoc(keys, previous, i);
      }
      assert keys[..|keys|] == keys;
      CountBound(old(data).Keys, keys);
    }

    /** `Expire`: gives an existing key the deadline `now + ttl`; a key
        without a value is left alone and reported with `false`. */
    method Expire(key: Bytes, ttl: int, now: int) returns (found: bool)
      requires Valid()
      modifies this
      ensures Valid()
      ensures found <==> key in old(data)
      ensures data == old(data)
      ensures expiry == if found then old(expiry)[key := now + ttl] else old(expiry)
    {
      if key !in data {
        return false;
      }
      expiry := expiry[key := now + ttl];
      found := true;
    }

    /** `TTL`: -1 for a key without a deadline (whether or not it has a
        value), -2 for a key whose deadline has passed, and otherwise the
        time left, saturated to 64 bits as `time.Until` does. */
    function Ttl(key: Bytes, now: int): (d: int)
      reads this
      ensures IsInt64(d)
      ensures d == -1 <==> key !in expiry
      ensures d == -2 <==> Expired(key, now)
      ensures key in expiry && !Expired(key, now) ==>
                d >= 0 && (IsInt64(expiry[key] - now) ==> d == expiry[key] - now)
    {
      Remaining(expiry, key, now)
    }

    /** `Keys`: every key that still exists, once each, in the map's
        iteration order; nothing changes. */
    method Keys(now: int) returns (keys: seq<Bytes>)
      ensures Elems(keys) == LiveKeys(now)
      ensures Distinct(keys)
    {
      keys := [];
      var unseen := data.Keys;
      while unseen != {}
        invariant unseen <= data.Keys
        invariant forall k :: k in keys ==> k in LiveKeys(now) && k !in unseen
        invariant forall k :: k in LiveKeys(now) ==> k in keys || k in unseen
        invariant Distinct(keys)
        decreases |unseen|
      {
        var key :| key in unseen;
        unseen := unseen - {key};
        if key in expiry && now > expiry[key] {
          continue;
        }
        keys := keys + [key];
      }
    }

    /** `FlushDB`: both maps start over empty. */
    method FlushDB()
      modifies this
      ensures Valid()
      ensures data == map[] && expiry == map[]
      ensures forall now :: LiveKeys(now) == {}
    {
      data := map[];
      expiry := map[];
    }

    /** One tick of the reaper: every key whose deadline has passed is
        deleted from both maps. The keys that exist are the same before
        and after, and afterwards no deadline has passed. */
    method Tick(now: int)
      requires Valid()
      modifies this
      ensures Valid()
      ensures data == old(data) - Overdue(old(expiry), now)
      ensures expiry == old(expiry) - Overdue(old(expiry), now)
      ensures Live(data, expiry, now) == Live(old(data), old(expiry), now)
      ensures Overdue(expiry, now) == {}
    {
      ghost var gone := Overdue(expiry, now);
      var unseen := expiry.Keys;
      while unseen != {}
        invariant unseen <= old(expiry).Keys
        invariant data == old(data) - (gone - unseen)
        invariant expiry == old(expiry) - (gone - unseen)
        decreases |unseen|
      {
        var key :| key in unseen;
        assert key in expiry && expiry[key] == old(expiry)[key];
        if now > expiry[key] {
          RemoveOneMore(old(data), data, gone - unseen, key);
          RemoveOneMore(old(expiry), expiry, gone - unseen, key);
          assert (gone - unseen) + {key} == gone - (unseen - {key});
          data := data - {key};
          expiry := expiry - {key};
        } else {
          assert gone - unseen == gone - (unseen - {key});
        }
        unseen := unseen - {key};
      }
      assert gone - {} == gone;
      Sweep(old(data), old(expiry), now);
    }
  }

  /** The keys that still exist at `now`: those with a value whose
      deadline, if any, has not passed. */
  function Live(data: map<Bytes, Bytes>, expiry: map<Bytes, int>, now: int): set<Bytes> {
    set k | k in data && !(k in expiry && now > expiry[k])
  }

  /** The duration `TTL` reports for a key, given the deadlines. */
  function Remaining(expiry: map<Bytes, int>, key: Bytes, now: int): int {
    if key !in expiry then -1
    else if now > expiry[key] then -2
    else Saturate(expiry[key] - now)
  }

  /** The keys whose deadline has passed at `now`. */
  function Overdue(expiry: map<Bytes, int>, now: int): set<Bytes> {
    set k | k in expiry && now > expiry[k]
  }

  /** Deleting the overdue keys deletes no key that still exists and
      leaves no overdue key behind. */
  lemma Sweep(data: map<Bytes, Bytes>, expiry: map<Bytes, int>, now: int)
    requires expiry.Keys <= data.Keys
    ensures var gone := Overdue(expiry, now);
            && (expiry - gone).Keys <= (data - gone).Keys
            && Live(data - gone, expiry - gone, now) == Live(data, expiry, now)
            && Overdue(expiry - gone, now) == {}
  {
  }

  lemma ElemsSnoc(keys: seq<Bytes>, i: nat, j: nat)
    requires i < |keys| && j == i + 1
    ensures Elems(keys[..j]) == Elems(keys[..i]) + {keys[i]}
  {
    assert keys[..j] == keys[..i] + [keys[i]];
  }

  /** Removing one more key from a map with keys already removed. */
  lemma RemoveOneMore<V>(m: map<Bytes, V>, cur: map<Bytes, V>, removed: set<Bytes>, key: Bytes)
    requires cur == m - removed
    ensures cur - {key} == m - (removed + {key})
    ensures key !in cur ==> cur == m - (removed + {key})
  {
  }

  lemma CountOneMore(present: set<Bytes>, seen: set<Bytes>, key: Bytes)
    requires key in present && key !in seen
    ensures |present * (seen + {key})| == |present * seen| + 1
  {
    assert present * (seen + {key}) == (present * seen) + {key};
  }

  lemma CountNoMore(present: set<Bytes>, seen: set<Bytes>, key: Bytes)
    requires key !in present || key in seen
    ensures present * (seen + {key}) == present * seen
  {
  }

  lemma {:induction false} ElemsBound(keys: seq<Bytes>)
    ensures |Elems(keys)| <= |keys|
  {
    if keys != [] {
      var last := |keys| - 1;
      ElemsSnoc(keys, last, last + 1);
      assert keys[..last + 1] == keys;
      ElemsBound(keys[..last]);
    }
  }

  /** No more keys are found than are listed. */
  lemma CountBound(present: set<Bytes>, keys: seq<Bytes>)
    ensures |present * Elems(keys)| <= |keys|
  {
    var found := present * Elems(keys);
    assert Elems(keys) == found + (Elems(keys) - found);
    ElemsBound(keys);
  }
}
