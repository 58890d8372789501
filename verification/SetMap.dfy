/**
 `LocUnorderedSetMap`: a map from keys to sets of values whose entries are trimmed, grown and
 replaced in place. The specification functions say what each loop amounts to on the whole map.
 */
module SetMap {

  /** The values under `k`; none when there is no entry. */
  function ValSet<K, V>(m: map<K, set<V>>, k: K): set<V> {
    if k in m then m[k] else {}
  }

  ghost predicate NoEmptyEntry<K(!new), V>(m: map<K, set<V>>) {
    forall k :: k in m ==> m[k] != {}
  }

  /** Drop `vals` from the entries under `keys`, and drop entries that end up empty. */
  function Trimmed<K, V>(m: map<K, set<V>>, keys: set<K>, vals: set<V>): map<K, set<V>> {
    map k | k in m && !(k in keys && m[k] - vals == {}) :: if k in keys then m[k] - vals else m[k]
  }

  function GoneKeys<K, V>(m: map<K, set<V>>, keys: set<K>, vals: set<V>): set<K> {
    set k | k in keys && k in m && m[k] - vals == {}
  }

  ghost function GoneVals<K, V>(m: map<K, set<V>>, keys: set<K>, vals: set<V>): set<V> {
    set k, v | k in keys && k in m && v in vals && v in m[k] :: v
  }

  /** Add `vals` to every entry under `keys`, creating entries as needed. */
  function Grown<K, V>(m: map<K, set<V>>, keys: set<K>, vals: set<V>): map<K, set<V>> {
    if vals == {} then m
    else map k | k in m.Keys + keys :: if k in keys then ValSet(m, k) + vals else m[k]
  }

  /** `update`: an empty set erases the entry, anything else replaces it. */
  function Replaced<K, V>(m: map<K, set<V>>, k: K, vals: set<V>): map<K, set<V>> {
    if vals == {} then m - {k} else m[k := vals]
  }

  /** Read entry by entry, trimming subtracts and growing adds, whether or not entries exist. */
  lemma TrimmedVal<K, V>(m: map<K, set<V>>, keys: set<K>, vals: set<V>, k: K)
    ensures ValSet(Trimmed(m, keys, vals), k) == if k in keys then ValSet(m, k) - vals else ValSet(m, k)
  {
  }

  lemma GrownVal<K, V>(m: map<K, set<V>>, keys: set<K>, vals: set<V>, k: K)
    ensures ValSet(Grown(m, keys, vals), k) == if k in keys then ValSet(m, k) + vals else ValSet(m, k)
  {
  }

  lemma NothingTrimmed<K, V>(m: map<K, set<V>>, vals: set<V>)
    ensures Trimmed(m, {}, vals) == m && GoneKeys(m, {}, vals) == {} && GoneVals(m, {}, vals) == {}
  {
  }

  /** What trimming one more entry does to what has been trimmed so far. */
  lemma TrimOneMore<K, V>(m: map<K, set<V>>, done: set<K>, key: K, vals: set<V>)
    requires key !in done
    ensures key in Trimmed(m, done, vals) <==> key in m
    ensures key in m ==> Trimmed(m, done, vals)[key] == m[key]
    ensures Trimmed(m, done + {key}, vals) ==
            if key !in m then Trimmed(m, done, vals)
            else if m[key] - vals == {} then Trimmed(m, done, vals) - {key}
            else Trimmed(m, done, vals)[key := m[key] - vals]
  {
  }

  lemma GoneOneMore<K, V>(m: map<K, set<V>>, done: set<K>, key: K, vals: set<V>)
    ensures GoneKeys(m, done + {key}, vals) ==
            GoneKeys(m, done, vals) + if key in m && m[key] - vals == {} then {key} else {}
    ensures GoneVals(m, done + {key}, vals) == GoneVals(m, done, vals) + if key in m then m[key] * vals else {}
  {
  }

  class LocUnorderedSetMap<K(==), V(==)> {
    var mMap: map<K, set<V>>

    constructor ()
      ensures mMap == map[]
    {
      mMap := map[];
    }

    method Empty() returns (r: bool)
      ensures r <==> mMap == map[]
    {
      r := |mMap| == 0;
    }

    method GetKeys() returns (keys: set<K>)
      ensures keys == mMap.Keys
    {
      keys := {};
      var rest := mMap.Keys;
      while rest != {}
        invariant rest <= mMap.Keys && keys == mMap.Keys - rest
      {
        var k :| k in rest;
        rest := rest - {k};
        keys := keys + {k};
      }
    }

    method GetValSet(key: K) returns (vals: set<V>)
      ensures vals == ValSet(mMap, key)
    {
      vals := if key in mMap then mMap[key] else {};
    }

    method Remove(key: K) returns (found: bool)
      modifies this
      ensures found <==> key in old(mMap)
      ensures mMap == old(mMap) - {key}
    {
      found := key in mMap;
      mMap := mMap - {key};
    }

    static method TrimSet(fromSet: set<V>, rVals: set<V>) returns (trimmed: set<V>, goneVals: set<V>)
      ensures trimmed == fromSet - rVals
      ensures goneVals == fromSet * rVals
    {
      trimmed, goneVals := fromSet, {};
      var rest := rVals;
      while rest != {}
        invariant rest <= rVals
        invariant trimmed == fromSet - (rVals - rest)
        invariant goneVals == fromSet * (rVals - rest)
      {
        var v :| v in rest;
        rest := rest - {v};
        if v in trimmed {
          trimmed := trimmed - {v};
          goneVals := goneVals + {v};
        }
      }
    }

    method TrimOrRemove(keys: set<K>, rVals: set<V>) returns (goneKeys: set<K>, goneVals: set<V>)
      modifies this
      ensures mMap == Trimmed(old(mMap), keys, rVals)
      ensures goneKeys == GoneKeys(old(mMap), keys, rVals)
      ensures goneVals == GoneVals(old(mMap), keys, rVals)
    {
      hide Trimmed, GoneKeys, GoneVals;
      goneKeys, goneVals := {}, {};
      var rest := keys;
      NothingTrimmed(mMap, rVals);
      assert keys - rest == {};
      while rest != {}
        invariant rest <= keys
        invariant mMap == Trimmed(old(mMap), keys - rest, rVals)
        invariant goneKeys == GoneKeys(old(mMap), keys - rest, rVals)
        invariant goneVals == GoneVals(old(mMap), keys - rest, rVals)
      {
        var key :| key in rest;
        ghost var done := keys - rest;
        rest := rest - {key};
        assert keys - rest == done + {key};
        TrimOneMore(old(mMap), done, key, rVals);
        GoneOneMore(old(mMap), done, key, rVals);
        if key in mMap {
          var trimmed, gone := TrimSet(mMap[key], rVals);
          goneVals := goneVals + gone;
          if trimmed == {} {
            mMap := mMap - {key};
            goneKeys := goneKeys + {key};
          } else {
            mMap := mMap[key := trimmed];
          }
        }
      }
      assert keys - rest == keys;
    }

    method AddToKey(key: K, newVals: set<V>) returns (newEntryAdded: bool)
      modifies this
      ensures mMap == Grown(old(mMap), {key}, newVals)
      ensures newEntryAdded <==> newVals != {} && key !in old(mMap)
    {
      newEntryAdded := false;
      if newVals != {} {
        if key in mMap {
          mMap := mMap[key := mMap[key] + newVals];
        } else {
          mMap := mMap[key := newVals];
          newEntryAdded := true;
        }
        ghost var grown := Grown(old(mMap), {key}, newVals);
        assert grown.Keys == mMap.Keys;
        assert forall k :: k in grown ==> grown[k] == mMap[k];
      }
    }

    method Add(keys: set<K>, newVals: set<V>) returns (newKeys: set<K>)
      modifies this
      ensures mMap == Grown(old(mMap), keys, newVals)
      ensures newKeys == if newVals == {} then {} else keys - old(mMap).Keys
    {
      newKeys := {};
      var rest := keys;
      while rest != {}
        invariant rest <= keys
        invariant mMap == Grown(old(mMap), keys - rest, newVals)
        invariant newKeys == if newVals == {} then {} else (keys - rest) - old(mMap).Keys
      {
        var key :| key in rest;
        ghost var done := keys - rest;
        rest := rest - {key};
        assert keys - rest == done + {key};
        var added := AddToKey(key, newVals);
        if added {
          newKeys := newKeys + {key};
        }
      }
      assert keys - rest == keys;
    }

    static method RemoveAndReturnInterset(s1: set<V>, s2: set<V>)
      returns (common: set<V>, rest1: set<V>, rest2: set<V>)
      ensures common == s1 * s2 && rest1 == s1 - s2 && rest2 == s2 - s1
    {
      common, rest1, rest2 := {}, s1, s2;
      var rest := s2;
      while rest != {}
        invariant rest <= s2
        invariant common == s1 * (s2 - rest)
        invariant rest1 == s1 - common && rest2 == s2 - common
      {
        var b :| b in rest;
        rest := rest - {b};
        if b in rest1 {
          common := common + {b};
          rest1 := rest1 - {b};
          rest2 := rest2 - {b};
        }
      }
    }

    /**
     Installs `newVals` under `key`. What it RETURNS is the intersection of the old and the new
     values, although its comment in the source promises the values that were removed; `newOnly`
     is what remains of `newVals`.
     */
    method Update(key: K, newVals: set<V>) returns (goneVals: set<V>, newOnly: set<V>)
      modifies this
      ensures mMap == Replaced(old(mMap), key, newVals)
      ensures goneVals == ValSet(old(mMap), key) * newVals
      ensures newOnly == newVals - ValSet(old(mMap), key)
    {
      goneVals, newOnly := {}, newVals;
      if newVals == {} {
        mMap := mMap - {key};
      } else {
        var curVals := if key in mMap then mMap[key] else {};
        mMap := mMap[key := newVals];
        var rest1;
        goneVals, rest1, newOnly := RemoveAndReturnInterset(curVals, newVals);
      }
    }
  }
}
