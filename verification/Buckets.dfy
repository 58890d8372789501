/**
 Chained hash buckets as values, for any hash function, and the map they stand for. Both levels
 of the configuration table, groups and the keys of a group, are instances.
 */
module Buckets {

  datatype Option<V> = None | Some(value: V)

  datatype Entry<V> = Entry(key: string, value: V)

  type Chain<V> = seq<Entry<V>>

  /** The bucket a key belongs to, out of `n`. */
  function Slot(hash: string -> nat, n: nat, k: string): nat
    requires n > 0
  {
    hash(k) % n
  }

  predicate DistinctKeys<V>(c: Chain<V>) {
    forall i, j :: 0 <= i < j < |c| ==> c[i].key != c[j].key
  }

  /** Every key is in its own bucket, and no key twice in one. */
  ghost predicate Hashed<V>(hash: string -> nat, n: nat, bs: seq<Chain<V>>) {
    && 0 < n && |bs| <= n
    && (forall b, i :: 0 <= b < |bs| && 0 <= i < |bs[b]| ==> Slot(hash, n, bs[b][i].key) == b)
    && (forall b :: 0 <= b < |bs| ==> DistinctKeys(bs[b]))
  }

  /** Walking one chain. */
  function Find<V>(c: Chain<V>, k: string): Option<V> {
    if c == [] then None
    else if c[0].key == k then Some(c[0].value)
    else Find(c[1..], k)
  }

  /** All entries, bucket after bucket. */
  function Flat<V>(bs: seq<Chain<V>>): Chain<V> {
    if bs == [] then [] else Flat(bs[..|bs| - 1]) + bs[|bs| - 1]
  }

  function MapOf<V>(c: Chain<V>): map<string, V> {
    if c == [] then map[] else MapOf(c[..|c| - 1])[c[|c| - 1].key := c[|c| - 1].value]
  }

  function ToMap<V>(bs: seq<Chain<V>>): map<string, V> {
    MapOf(Flat(bs))
  }

  lemma {:induction false} MapOfDomain<V>(c: Chain<V>, k: string)
    ensures k in MapOf(c) <==> exists i :: 0 <= i < |c| && c[i].key == k
  {
    if c != [] {
      var init := c[..|c| - 1];
      MapOfDomain(init, k);
      assert forall i :: 0 <= i < |init| ==> init[i] == c[i];
    }
  }

  lemma {:induction false} MapOfDistinct<V>(c: Chain<V>)
    requires DistinctKeys(c)
    ensures |MapOf(c)| == |c|
    ensures forall i :: 0 <= i < |c| ==> c[i].key in MapOf(c) && MapOf(c)[c[i].key] == c[i].value
  {
    if c != [] {
      var init := c[..|c| - 1];
      MapOfDistinct(init);
      MapOfDomain(init, c[|c| - 1].key);
      assert forall i :: 0 <= i < |init| ==> init[i] == c[i];
    }
  }

  lemma {:induction false} FindAt<V>(c: Chain<V>, k: string)
    ensures Find(c, k).None? <==> forall i :: 0 <= i < |c| ==> c[i].key != k
    ensures DistinctKeys(c) ==> forall i :: 0 <= i < |c| && c[i].key == k ==> Find(c, k) == Some(c[i].value)
  {
    if c != [] {
      FindAt(c[1..], k);
      assert forall i :: 1 <= i < |c| ==> c[i] == c[1..][i - 1];
    }
  }

  lemma {:induction false} InFlat<V>(bs: seq<Chain<V>>, e: Entry<V>)
    ensures e in Flat(bs) <==> exists b :: 0 <= b < |bs| && e in bs[b]
  {
    if bs != [] {
      InFlat(bs[..|bs| - 1], e);
      if exists b :: 0 <= b < |bs| && e in bs[b] {
        var b :| 0 <= b < |bs| && e in bs[b];
        if b < |bs| - 1 {
          assert e in bs[..|bs| - 1][b];
        }
      }
    }
  }

  /** Over all buckets together no key occurs twice. */
  lemma {:induction false} FlatDistinct<V>(hash: string -> nat, n: nat, bs: seq<Chain<V>>)
    requires Hashed(hash, n, bs)
    ensures DistinctKeys(Flat(bs))
    ensures forall e :: e in Flat(bs) ==> Slot(hash, n, e.key) < |bs|
  {
    if bs != [] {
      var init, last := bs[..|bs| - 1], bs[|bs| - 1];
      FlatDistinct(hash, n, init);
      assert forall i :: 0 <= i < |last| ==> Slot(hash, n, last[i].key) == |bs| - 1;
      forall i, j | 0 <= i < j < |Flat(bs)|
        ensures Flat(bs)[i].key != Flat(bs)[j].key
      {
        if i < |Flat(init)| {
          assert Flat(bs)[i] in Flat(init);
        }
      }
    }
  }

  /** An entry of any chain is in the map. */
  lemma EntryInMap<V>(hash: string -> nat, bs: seq<Chain<V>>, b: nat, j: nat)
    requires Hashed(hash, |bs|, bs) && b < |bs| && j < |bs[b]|
    ensures bs[b][j].key in ToMap(bs) && ToMap(bs)[bs[b][j].key] == bs[b][j].value
  {
    FlatDistinct(hash, |bs|, bs);
    MapOfDistinct(Flat(bs));
    InFlat(bs, bs[b][j]);
    var i :| 0 <= i < |Flat(bs)| && Flat(bs)[i] == bs[b][j];
  }

  /** A key of the map is in its own chain. */
  lemma KeyInChain<V>(hash: string -> nat, bs: seq<Chain<V>>, k: string) returns (j: nat)
    requires Hashed(hash, |bs|, bs) && k in ToMap(bs)
    ensures j < |bs[Slot(hash, |bs|, k)]| && bs[Slot(hash, |bs|, k)][j].key == k
  {
    MapOfDomain(Flat(bs), k);
    var i :| 0 <= i < |Flat(bs)| && Flat(bs)[i].key == k;
    InFlat(bs, Flat(bs)[i]);
    var b :| 0 <= b < |bs| && Flat(bs)[i] in bs[b];
    j :| 0 <= j < |bs[b]| && bs[b][j] == Flat(bs)[i];
  }

  /** Looking a key up in its own chain is looking it up in the map. */
  lemma LookupIsMap<V>(hash: string -> nat, bs: seq<Chain<V>>, k: string)
    requires Hashed(hash, |bs|, bs)
    ensures Find(bs[Slot(hash, |bs|, k)], k) == if k in ToMap(bs) then Some(ToMap(bs)[k]) else None
  {
    var b := Slot(hash, |bs|, k);
    FindAt(bs[b], k);
    if k in ToMap(bs) {
      var j := KeyInChain(hash, bs, k);
      EntryInMap(hash, bs, b, j);
    } else {
      forall j | 0 <= j < |bs[b]|
        ensures bs[b][j].key != k
      {
        EntryInMap(hash, bs, b, j);
      }
    }
  }

  /** Push a new entry on the front of its chain. */
  function Pushed<V>(hash: string -> nat, bs: seq<Chain<V>>, k: string, v: V): seq<Chain<V>>
    requires |bs| > 0
  {
    bs[Slot(hash, |bs|, k) := [Entry(k, v)] + bs[Slot(hash, |bs|, k)]]
  }

  lemma {:induction false} FlatLength<V>(bs: seq<Chain<V>>, b: nat, c: Chain<V>)
    requires b < |bs|
    ensures |Flat(bs[b := c])| == |Flat(bs)| - |bs[b]| + |c|
  {
    var n := |bs| - 1;
    if b < n {
      assert bs[b := c][..n] == bs[..n][b := c];
      FlatLength(bs[..n], b, c);
    } else {
      assert bs[b := c][..n] == bs[..n];
    }
  }

  lemma {:induction false} HashedPush<V>(hash: string -> nat, bs: seq<Chain<V>>, k: string, v: V)
    requires Hashed(hash, |bs|, bs) && Find(bs[Slot(hash, |bs|, k)], k).None?
    ensures Hashed(hash, |bs|, Pushed(hash, bs, k, v))
  {
    FindAt(bs[Slot(hash, |bs|, k)], k);
  }

  lemma FindPushed<V>(c: Chain<V>, e: Entry<V>, k: string)
    ensures Find([e] + c, k) == if k == e.key then Some(e.value) else Find(c, k)
  {
    assert ([e] + c)[1..] == c;
  }

  /** A push of a new key adds exactly that key to the map, and one to the number of entries. */
  lemma PushRefinesMap<V>(hash: string -> nat, bs: seq<Chain<V>>, k: string, v: V)
    requires Hashed(hash, |bs|, bs) && k !in ToMap(bs)
    ensures var bs' := Pushed(hash, bs, k, v);
            && Hashed(hash, |bs|, bs')
            && ToMap(bs') == ToMap(bs)[k := v]
            && |Flat(bs')| == |Flat(bs)| + 1
  {
    assert |bs| > 0;
    hide Hashed, ToMap, Find;
    var slot, m := Slot(hash, |bs|, k), ToMap(bs)[k := v];
    LookupIsMap(hash, bs, k);
    HashedPush(hash, bs, k, v);
    FlatLength(bs, slot, [Entry(k, v)] + bs[slot]);
    forall k'
      ensures Find(Pushed(hash, bs, k, v)[Slot(hash, |bs|, k')], k') == if k' in m then Some(m[k']) else None
    {
      LookupPushed(hash, bs, k, v, k');
      LookupIsMap(hash, bs, k');
    }
    SameLookups(hash, Pushed(hash, bs, k, v), m);
  }

  lemma LookupPushed<V>(hash: string -> nat, bs: seq<Chain<V>>, k: string, v: V, k': string)
    requires |bs| > 0
    ensures var b := Slot(hash, |bs|, k');
            Find(Pushed(hash, bs, k, v)[b], k') == if k' == k then Some(v) else Find(bs[b], k')
  {
    FindPushed(bs[Slot(hash, |bs|, k)], Entry(k, v), k');
  }

  /** Buckets that answer every lookup like a map stand for that map. */
  lemma SameLookups<V>(hash: string -> nat, bs: seq<Chain<V>>, m: map<string, V>)
    requires Hashed(hash, |bs|, bs)
    requires forall k :: Find(bs[Slot(hash, |bs|, k)], k) == if k in m then Some(m[k]) else None
    ensures ToMap(bs) == m
  {
    forall k: string
      ensures k in ToMap(bs) <==> k in m
      ensures k in m ==> ToMap(bs)[k] == m[k]
    {
      LookupIsMap(hash, bs, k);
    }
  }

  /** Change the value of one entry where it is. */
  function Revalued<V>(bs: seq<Chain<V>>, b: nat, i: nat, v: V): seq<Chain<V>>
    requires b < |bs| && i < |bs[b]|
  {
    bs[b := bs[b][i := Entry(bs[b][i].key, v)]]
  }

  lemma {:induction false} FindRevalued<V>(c: Chain<V>, i: nat, v: V, k: string)
    requires DistinctKeys(c) && i < |c|
    ensures Find(c[i := Entry(c[i].key, v)], k) == if k == c[i].key then Some(v) else Find(c, k)
  {
    var c' := c[i := Entry(c[i].key, v)];
    if i > 0 {
      assert c'[1..] == c[1..][i - 1 := Entry(c[i].key, v)];
      FindRevalued(c[1..], i - 1, v, k);
    } else {
      assert c'[1..] == c[1..];
    }
  }

  lemma LookupRevalued<V>(hash: string -> nat, bs: seq<Chain<V>>, b: nat, i: nat, v: V, k: string)
    requires Hashed(hash, |bs|, bs) && b < |bs| && i < |bs[b]|
    ensures var s := Slot(hash, |bs|, k);
            Find(Revalued(bs, b, i, v)[s], k) == if k == bs[b][i].key then Some(v) else Find(bs[s], k)
  {
    FindRevalued(bs[b], i, v, k);
    assert Slot(hash, |bs|, bs[b][i].key) == b;
  }

  lemma HashedRevalued<V>(hash: string -> nat, bs: seq<Chain<V>>, b: nat, i: nat, v: V)
    requires Hashed(hash, |bs|, bs) && b < |bs| && i < |bs[b]|
    ensures Hashed(hash, |bs|, Revalued(bs, b, i, v))
  {
    var bs': seq<Chain<V>> := Revalued(bs, b, i, v);
    assert forall c :: 0 <= c < |bs| ==> |bs'[c]| == |bs[c]|;
    assert forall c, j :: 0 <= c < |bs| && 0 <= j < |bs[c]| ==> bs'[c][j].key == bs[c][j].key;
  }

  lemma {:induction false} RevalueRefinesMap<V>(hash: string -> nat, bs: seq<Chain<V>>, b: nat, i: nat, v: V)
    requires Hashed(hash, |bs|, bs) && b < |bs| && i < |bs[b]|
    ensures var bs' := Revalued(bs, b, i, v);
            && Hashed(hash, |bs|, bs')
            && ToMap(bs') == ToMap(bs)[bs[b][i].key := v]
            && |Flat(bs')| == |Flat(bs)|
  {
    hide Hashed, ToMap, Find;
    var m := ToMap(bs)[bs[b][i].key := v];
    HashedRevalued(hash, bs, b, i, v);
    FlatLength(bs, b, bs[b][i := Entry(bs[b][i].key, v)]);
    forall k: string
      ensures Find(Revalued(bs, b, i, v)[Slot(hash, |bs|, k)], k) == if k in m then Some(m[k]) else None
    {
      LookupIsMap(hash, bs, k);
      LookupRevalued(hash, bs, b, i, v, k);
    }
    SameLookups(hash, Revalued(bs, b, i, v), m);
  }

  function Keys<V>(c: Chain<V>): seq<string> {
    seq(|c|, i requires 0 <= i < |c| => c[i].key)
  }

  /** Walking all chains lists every key of the map exactly once. */
  lemma FlatListsKeysOnce<V>(hash: string -> nat, bs: seq<Chain<V>>)
    requires Hashed(hash, |bs|, bs)
    ensures var ks := Keys(Flat(bs));
            && |ks| == |ToMap(bs)|
            && (forall k :: k in ks <==> k in ToMap(bs))
            && (forall i, j :: 0 <= i < j < |ks| ==> ks[i] != ks[j])
  {
    FlatDistinct(hash, |bs|, bs);
    MapOfDistinct(Flat(bs));
    var ks := Keys(Flat(bs));
    forall k: string
      ensures k in ks <==> k in ToMap(bs)
    {
      MapOfDomain(Flat(bs), k);
      if k in ToMap(bs) {
        var i :| 0 <= i < |Flat(bs)| && Flat(bs)[i].key == k;
        assert ks[i] == k;
      }
    }
  }
}
