/**
 The configuration table on the heap: an array of chained groups, each with an array of chained
 key/value pairs, for an arbitrary hash function. Every operation is proved against the map of
 maps the table stands for.
 */
module ConfTable {
  import opened Buckets

  const MAX_UNIQ_KEYS: nat := 5
  const MAX_UNIQ_GRPS: nat := 10

  /** A key/value pair; linked once, in front of its chain, and never changed afterwards. */
  class KeyNode {
    const key: string
    const value: string
    const next: KeyNode?
    ghost const chain: seq<KeyNode>  // this node and all after it

    ghost predicate Linked()
      decreases |chain|
    {
      && |chain| > 0 && chain[0] == this
      && if next == null then |chain| == 1 else next.chain == chain[1..] && next.Linked()
    }

    constructor (key: string, value: string, next: KeyNode?)
      requires LinkedKeys(next)
      ensures this.key == key && this.value == value && this.next == next
      ensures Linked() && chain == [this] + KeysFrom(next)
    {
      this.key, this.value, this.next := key, value, next;
      chain := [this] + KeysFrom(next);
    }
  }

  ghost function KeysFrom(n: KeyNode?): seq<KeyNode> {
    if n == null then [] else n.chain
  }

  ghost predicate LinkedKeys(n: KeyNode?) {
    n != null ==> n.Linked()
  }

  /** The chain from `n` on, as entries. */
  ghost function Pairs(n: KeyNode?): Chain<string> {
    seq(|KeysFrom(n)|, i requires 0 <= i < |KeysFrom(n)| => Entry(KeysFrom(n)[i].key, KeysFrom(n)[i].value))
  }

  lemma PairsStep(n: KeyNode)
    requires n.Linked()
    ensures LinkedKeys(n.next) && |KeysFrom(n.next)| < |KeysFrom(n)|
    ensures Pairs(n) == [Entry(n.key, n.value)] + Pairs(n.next) && Pairs(n)[1..] == Pairs(n.next)
  {
  }

  class Group {
    const hash: string -> nat
    const grpName: string
    const grpNext: Group?
    const list: array<KeyNode?>
    var numOfKeys: nat
    ghost const chain: seq<Group>  // this group and all after it

    ghost predicate Linked()
      decreases |chain|
    {
      && |chain| > 0 && chain[0] == this
      && if grpNext == null then |chain| == 1 else grpNext.chain == chain[1..] && grpNext.Linked()
    }

    ghost function KeyBuckets(): seq<Chain<string>>
      reads list
    {
      seq(list.Length, b requires 0 <= b < list.Length reads list => Pairs(list[b]))
    }

    ghost predicate Valid()
      reads this, list
    {
      && list.Length == MAX_UNIQ_KEYS
      && (forall b :: 0 <= b < MAX_UNIQ_KEYS ==> LinkedKeys(list[b]))
      && Hashed(hash, MAX_UNIQ_KEYS, KeyBuckets())
      && numOfKeys == |Flat(KeyBuckets())|
    }

    ghost function Contents(): map<string, string>
      reads list
    {
      ToMap(KeyBuckets())
    }

    constructor (hash: string -> nat, grpName: string, grpNext: Group?)
      requires LinkedGroups(grpNext)
      ensures this.hash == hash && this.grpName == grpName && this.grpNext == grpNext
      ensures Linked() && chain == [this] + GroupsFrom(grpNext)
      ensures Valid() && fresh(list) && Contents() == map[]
    {
      this.hash, this.grpName, this.grpNext := hash, grpName, grpNext;
      numOfKeys := 0;
      list := new KeyNode?[MAX_UNIQ_KEYS](_ => null);
      chain := [this] + GroupsFrom(grpNext);
      new;
      assert KeyBuckets() == [[], [], [], [], []];
      FlatOfEmpty<string>(KeyBuckets());
    }

    /** The walk along one chain that `get_value` and `add_key_value_pair` share. */
    method FindKey(key: string) returns (node: KeyNode?)
      requires Valid()
      ensures node == null <==> key !in Contents()
      ensures node != null ==> Contents()[key] == node.value
    {
      var keyIndex := Slot(hash, list.Length, key);
      LookupIsMap(hash, KeyBuckets(), key);
      node := list[keyIndex];
      while node != null && node.key != key
        invariant LinkedKeys(node)
        invariant Find(Pairs(node), key) == Find(KeyBuckets()[keyIndex], key)
        decreases |KeysFrom(node)|
      {
        PairsStep(node);
        node := node.next;
      }
      if node != null {
        PairsStep(node);
      }
    }

    method AddKey(key: string, val: string) returns (ok: bool)
      requires Valid()
      modifies this`numOfKeys, list
      ensures Valid()
      ensures ok <==> key !in old(Contents())
      ensures Contents() == if ok then old(Contents())[key := val] else old(Contents())
    {
      var keyIndex := Slot(hash, list.Length, key);
      var node := FindKey(key);
      if node != null {
        return false;
      }
      ghost var before := KeyBuckets();
      PushRefinesMap(hash, before, key, val);
      var pair := new KeyNode(key, val, list[keyIndex]);
      PairsStep(pair);
      list[keyIndex] := pair;
      numOfKeys := numOfKeys + 1;
      assert KeyBuckets() == Pushed(hash, before, key, val);
      return true;
    }

    /** The loops of `get_keys`: fill the array it allocates, in bucket order. */
    method CollectKeys() returns (keys: array<Option<string>>)
      requires Valid()
      ensures fresh(keys) && Filled(keys[..], Flat(KeyBuckets())) && keys.Length == |Flat(KeyBuckets())| + 1
    {
      hide Flat, Filled, LinkedKeys;
      keys := new Option<string>[numOfKeys + 1](_ => None);
      ghost var bs := KeyBuckets();
      NothingFilled(keys[..], bs);
      var j := 0;
      for i := 0 to list.Length
        invariant j == |Flat(bs[..i])| && Filled(keys[..], Flat(bs[..i]))
      {
        FlatStep(bs, i);
        assert bs[i] == Pairs(list[i]);
        assert LinkedKeys(list[i]);
        j := CollectChain(list[i], keys, j, Flat(bs[..i]));
      }
      assert bs[..list.Length] == bs;
    }

    method CollectChain(head: KeyNode?, keys: array<Option<string>>, start: nat, ghost before: Chain<string>)
      returns (j: nat)
      requires LinkedKeys(head) && start == |before| && start + |Pairs(head)| <= keys.Length
      requires Filled(keys[..], before)
      modifies keys
      ensures j == start + |Pairs(head)| && Filled(keys[..], before + Pairs(head))
    {
      hide Filled, Pairs;
      var node := head;
      ghost var done, total := before, before + Pairs(head);
      j := start;
      while node != null
        invariant LinkedKeys(node) && j == |done|
        invariant done + Pairs(node) == total && Filled(keys[..], done)
        decreases |KeysFrom(node)|
      {
        PairsStep(node);
        FilledStep(keys[..], done, Entry(node.key, node.value));
        ghost var was := keys[..];
        keys[j] := Some(node.key);
        assert keys[..] == was[j := Some(node.key)];
        done := done + [Entry(node.key, node.value)];
        j := j + 1;
        node := node.next;
      }
      NoPairs(node);
      assert done + [] == done;
    }
  }

  lemma NoPairs(n: KeyNode?)
    requires n == null
    ensures Pairs(n) == []
  {
  }

  /** The listing begins with the keys of the chain; the rest is null. */
  ghost predicate Filled<V>(listing: seq<Option<string>>, c: Chain<V>) {
    && |c| <= |listing|
    && (forall k :: 0 <= k < |c| ==> listing[k] == Some(c[k].key))
    && (forall k :: |c| <= k < |listing| ==> listing[k] == None)
  }

  lemma FilledStep<V>(listing: seq<Option<string>>, c: Chain<V>, e: Entry<V>)
    requires Filled(listing, c) && |c| < |listing|
    ensures Filled(listing[|c| := Some(e.key)], c + [e])
  {
  }

  lemma NothingFilled<V>(listing: seq<Option<string>>, bs: seq<Chain<V>>)
    requires forall k :: 0 <= k < |listing| ==> listing[k] == None
    ensures Flat(bs[..0]) == [] && Filled(listing, Flat(bs[..0]))
  {
  }

  lemma FlatStep<V>(bs: seq<Chain<V>>, i: nat)
    requires i < |bs|
    ensures Flat(bs[..i + 1]) == Flat(bs[..i]) + bs[i]
    ensures |Flat(bs[..i])| + |bs[i]| <= |Flat(bs)|
  {
    assert bs[..i + 1][..i] == bs[..i];
    FlatPrefix(bs, i + 1);
  }

  lemma {:induction false} FlatOfEmpty<V>(bs: seq<Chain<V>>)
    requires forall b :: 0 <= b < |bs| ==> bs[b] == []
    ensures Flat(bs) == []
  {
    if bs != [] {
      FlatOfEmpty(bs[..|bs| - 1]);
    }
  }

  lemma {:induction false} FlatPrefix<V>(bs: seq<Chain<V>>, n: nat)
    requires n <= |bs|
    ensures |Flat(bs[..n])| <= |Flat(bs)|
    decreases |bs|
  {
    if n < |bs| {
      FlatPrefix(bs[..|bs| - 1], n);
      assert bs[..|bs| - 1][..n] == bs[..n];
    } else {
      assert bs[..n] == bs;
    }
  }

  ghost function GroupsFrom(g: Group?): seq<Group> {
    if g == null then [] else g.chain
  }

  ghost predicate LinkedGroups(g: Group?) {
    g != null ==> g.Linked()
  }

  /** What each group stands for, by group. */
  type Snapshot = map<Group, map<string, string>>

  /** A linked chain of groups out of the snapshot. */
  ghost predicate ChainWithin(head: Group?, snap: Snapshot) {
    LinkedGroups(head) && forall g :: g in GroupsFrom(head) ==> g in snap
  }

  /** The chain from `head` on, each group with what it stands for. */
  ghost function GroupEntries(head: Group?, snap: Snapshot): Chain<map<string, string>>
    requires ChainWithin(head, snap)
  {
    seq(|GroupsFrom(head)|, i requires 0 <= i < |GroupsFrom(head)| =>
      Entry(GroupsFrom(head)[i].grpName, snap[GroupsFrom(head)[i]]))
  }

  lemma GroupsStep(g: Group, snap: Snapshot)
    requires ChainWithin(g, snap)
    ensures g in snap && ChainWithin(g.grpNext, snap)
    ensures GroupsFrom(g) == [g] + GroupsFrom(g.grpNext)
    ensures GroupEntries(g, snap) == [Entry(g.grpName, snap[g])] + GroupEntries(g.grpNext, snap)
    ensures GroupEntries(g, snap)[1..] == GroupEntries(g.grpNext, snap)
  {
    assert GroupsFrom(g) == [g] + GroupsFrom(g.grpNext);
  }

  /** The walk along one chain of groups that all lookups share. */
  method WalkGroups(head: Group?, name: string, ghost snap: Snapshot) returns (grp: Group?, ghost i: nat)
    requires ChainWithin(head, snap)
    ensures grp == null ==> Find(GroupEntries(head, snap), name).None?
    ensures grp != null ==> i < |GroupsFrom(head)| && GroupsFrom(head)[i] == grp && grp.grpName == name
                            && Find(GroupEntries(head, snap), name) == Some(snap[grp])
  {
    grp := head;
    i := 0;
    while grp != null && grp.grpName != name
      invariant ChainWithin(grp, snap)
      invariant i <= |GroupsFrom(head)| && GroupsFrom(grp) == GroupsFrom(head)[i..]
      invariant Find(GroupEntries(grp, snap), name) == Find(GroupEntries(head, snap), name)
      decreases |GroupsFrom(grp)|
    {
      GroupsStep(grp, snap);
      grp := grp.grpNext;
      i := i + 1;
    }
    if grp != null {
      GroupsStep(grp, snap);
    }
  }

  /** The chains, what their groups stand for, and the buckets of the specification fit together. */
  ghost predicate Consistent(heads: seq<Group?>, snap: Snapshot, buckets: seq<Chain<map<string, string>>>,
                             hash: string -> nat)
  {
    && |heads| == |buckets| == MAX_UNIQ_GRPS
    && (forall b :: 0 <= b < MAX_UNIQ_GRPS ==>
          ChainWithin(heads[b], snap) && buckets[b] == GroupEntries(heads[b], snap))
    && Hashed(hash, MAX_UNIQ_GRPS, buckets)
  }

  /** The groups of the snapshot are valid, share nothing, and stand for what it says. */
  ghost predicate GroupsAre(snap: Snapshot, hash: string -> nat, table: array<Group?>)
    reads snap.Keys, set g | g in snap :: g.list
  {
    && (forall g :: g in snap ==> g.Valid() && g.hash == hash && g.Contents() == snap[g])
    && (forall g :: g in snap ==> g.list as object != table)
    && (forall g, h :: g in snap && h in snap && g != h ==> g.list != h.list)
  }

  lemma OneMoreGroup(snap: Snapshot, hash: string -> nat, table: array<Group?>, grp: Group)
    requires GroupsAre(snap, hash, table) && grp !in snap
    requires grp.Valid() && grp.hash == hash && grp.Contents() == map[]
    requires grp.list as object != table && forall g :: g in snap ==> g.list != grp.list
    ensures GroupsAre(snap[grp := map[]], hash, table)
  {
  }

  /** Adding a key to one group leaves all others what they were. */
  method AddToGroup(grp: Group, key: string, val: string, ghost snap: Snapshot, ghost hash: string -> nat,
                    ghost table: array<Group?>) returns (ok: bool, ghost after: Snapshot)
    requires GroupsAre(snap, hash, table) && grp in snap
    modifies grp`numOfKeys, grp.list
    ensures ok <==> key !in snap[grp]
    ensures after == snap[grp := if ok then snap[grp][key := val] else snap[grp]]
    ensures GroupsAre(after, hash, table)
  {
    ok := grp.AddKey(key, val);
    after := snap[grp := if ok then snap[grp][key := val] else snap[grp]];
    forall g | g in after
      ensures g.Valid() && g.hash == hash && g.Contents() == after[g]
    {
      if g != grp {
        assert old(g.Valid()) && old(g.Contents()) == snap[g];
      }
    }
  }

  /** A new empty group in front of its chain keeps everything consistent. */
  lemma LinkedConsistent(heads: seq<Group?>, snap: Snapshot, buckets: seq<Chain<map<string, string>>>,
                         hash: string -> nat, grp: Group, index: nat)
    requires Consistent(heads, snap, buckets, hash)
    requires index == Slot(hash, MAX_UNIQ_GRPS, grp.grpName)
    requires grp.Linked() && grp.grpNext == heads[index] && grp !in snap
    requires grp.grpName !in ToMap(buckets)
    ensures |buckets| > 0
    ensures Consistent(heads[index := grp], snap[grp := map[]], Pushed(hash, buckets, grp.grpName, map[]), hash)
    ensures ToMap(Pushed(hash, buckets, grp.grpName, map[])) == ToMap(buckets)[grp.grpName := map[]]
    ensures |Flat(Pushed(hash, buckets, grp.grpName, map[]))| == |Flat(buckets)| + 1
  {
    hide ChainWithin, GroupEntries, ToMap, Flat;
    PushRefinesMap(hash, buckets, grp.grpName, map[]);
    var heads', snap' := heads[index := grp], snap[grp := map[]];
    var buckets' := Pushed(hash, buckets, grp.grpName, map[]);
    forall b | 0 <= b < MAX_UNIQ_GRPS
      ensures ChainWithin(heads'[b], snap') && buckets'[b] == GroupEntries(heads'[b], snap')
    {
      SameEntries(heads[b], snap, grp);
      if b == index {
        FrontEntry(grp, snap');
      }
    }
  }

  lemma SameEntries(head: Group?, snap: Snapshot, grp: Group)
    requires ChainWithin(head, snap) && grp !in snap
    ensures ChainWithin(head, snap[grp := map[]])
    ensures GroupEntries(head, snap[grp := map[]]) == GroupEntries(head, snap)
  {
  }

  lemma FrontEntry(grp: Group, snap: Snapshot)
    requires grp.Linked() && grp in snap && ChainWithin(grp.grpNext, snap)
    ensures ChainWithin(grp, snap)
    ensures GroupEntries(grp, snap) == [Entry(grp.grpName, snap[grp])] + GroupEntries(grp.grpNext, snap)
  {
    assert GroupsFrom(grp) == [grp] + GroupsFrom(grp.grpNext);
  }

  /** A changed group changes one entry of one chain. */
  lemma RevaluedConsistent(heads: seq<Group?>, snap: Snapshot, buckets: seq<Chain<map<string, string>>>,
                           hash: string -> nat, b: nat, i: nat, v: map<string, string>)
    requires Consistent(heads, snap, buckets, hash)
    requires b < MAX_UNIQ_GRPS && i < |GroupsFrom(heads[b])|
    ensures b < |buckets| && i < |buckets[b]|
    ensures Consistent(heads, snap[GroupsFrom(heads[b])[i] := v], Revalued(buckets, b, i, v), hash)
    ensures ToMap(Revalued(buckets, b, i, v)) == ToMap(buckets)[GroupsFrom(heads[b])[i].grpName := v]
    ensures |Flat(Revalued(buckets, b, i, v))| == |Flat(buckets)|
  {
    var grp := GroupsFrom(heads[b])[i];
    var snap', buckets' := snap[grp := v], Revalued(buckets, b, i, v);
    assert buckets[b][i].key == grp.grpName;
    RevalueRefinesMap(hash, buckets, b, i, v);
    forall c | 0 <= c < MAX_UNIQ_GRPS
      ensures ChainWithin(heads[c], snap') && buckets'[c] == GroupEntries(heads[c], snap')
    {
      assert |buckets[c]| == |GroupsFrom(heads[c])|;
      forall k | 0 <= k < |GroupsFrom(heads[c])| && GroupsFrom(heads[c])[k] == grp
        ensures c == b && k == i
      {
        assert buckets[c][k].key == grp.grpName;
        assert c == Slot(hash, MAX_UNIQ_GRPS, grp.grpName) == b;
      }
    }
  }

  /** The inner loop of `get_grps`: one chain into the array being filled. */
  method CollectGroups(head: Group?, names: array<Option<string>>, start: nat, ghost snap: Snapshot,
                       ghost before: Chain<map<string, string>>)
    returns (j: nat)
    requires ChainWithin(head, snap) && start == |before| && start + |GroupEntries(head, snap)| <= names.Length
    requires Filled(names[..], before)
    modifies names
    ensures j == start + |GroupEntries(head, snap)|
    ensures Filled(names[..], before + GroupEntries(head, snap))
  {
    hide Filled, GroupEntries, ChainWithin;
    var grp := head;
    ghost var done, total := before, before + GroupEntries(head, snap);
    j := start;
    while grp != null
      invariant ChainWithin(grp, snap) && j == |done|
      invariant done + GroupEntries(grp, snap) == total && Filled(names[..], done)
      decreases |GroupsFrom(grp)|
    {
      GroupsStep(grp, snap);
      FilledStep(names[..], done, Entry(grp.grpName, snap[grp]));
      ghost var was := names[..];
      names[j] := Some(grp.grpName);
      assert names[..] == was[j := Some(grp.grpName)];
      done := done + [Entry(grp.grpName, snap[grp])];
      j := j + 1;
      grp := grp.grpNext;
    }
    NoGroups(grp, snap);
    assert done + [] == done;
  }

  lemma NoGroups(g: Group?, snap: Snapshot)
    requires g == null
    ensures ChainWithin(g, snap) && GroupEntries(g, snap) == []
  {
  }

  class GroupTable {
    const hash: string -> nat
    const grpsHash: array<Group?>
    var numOfGrps: nat
    ghost var snap: Snapshot
    ghost var buckets: seq<Chain<map<string, string>>>
    ghost var Repr: set<object>

    ghost predicate Valid()
      reads this, Repr
      ensures Valid() ==> this in Repr && grpsHash in Repr
    {
      && this in Repr && grpsHash in Repr
      && (forall g :: g in snap ==> g in Repr && g.list in Repr)
      && grpsHash.Length == MAX_UNIQ_GRPS
      && Consistent(grpsHash[..], snap, buckets, hash)
      && GroupsAre(snap, hash, grpsHash)
      && numOfGrps == |Flat(buckets)|
    }

    /** The map of maps the table stands for. */
    ghost function Contents(): map<string, map<string, string>>
      reads this
    {
      ToMap(buckets)
    }

    constructor (hash: string -> nat)
      ensures Valid() && fresh(Repr)
      ensures this.hash == hash && Contents() == map[]
    {
      this.hash := hash;
      numOfGrps := 0;
      grpsHash := new Group?[MAX_UNIQ_GRPS](_ => null);
      snap := map[];
      Repr := {this, grpsHash};
      buckets := seq(MAX_UNIQ_GRPS, _ => []);
      new;
      FlatOfEmpty(buckets);
    }

    method FindGroup(name: string) returns (grp: Group?, ghost i: nat)
      requires Valid()
      ensures grp == null <==> name !in Contents()
      ensures var chain := GroupsFrom(grpsHash[Slot(hash, MAX_UNIQ_GRPS, name)]);
              grp != null ==> i < |chain| && chain[i] == grp && grp in snap && grp.grpName == name
                              && Contents()[name] == snap[grp]
    {
      var index := Slot(hash, grpsHash.Length, name);
      LookupIsMap(hash, buckets, name);
      grp, i := WalkGroups(grpsHash[index], name, snap);
    }

    method GrpExist(newGrp: string) returns (found: bool)
      requires Valid()
      ensures found <==> newGrp in Contents()
    {
      var grp, i := FindGroup(newGrp);
      found := grp != null;
    }

    method AddGrp(newGrp: string) returns (ok: bool)
      requires Valid()
      modifies this, grpsHash
      ensures Valid() && fresh(Repr - old(Repr))
      ensures ok <==> newGrp !in old(Contents())
      ensures Contents() == if ok then old(Contents())[newGrp := map[]] else old(Contents())
    {
      hide GroupsAre, Hashed, Flat, ToMap;
      var found := GrpExist(newGrp);
      if found {
        return false;
      }
      var index := Slot(hash, grpsHash.Length, newGrp);
      var grp := new Group(hash, newGrp, grpsHash[index]);
      OneMoreGroup(snap, hash, grpsHash, grp);
      Link(grp, index);
      return true;
    }

    /** Put a new empty group in front of its chain. */
    method Link(grp: Group, index: nat)
      requires Valid() && GroupsAre(snap[grp := map[]], hash, grpsHash)
      requires index == Slot(hash, MAX_UNIQ_GRPS, grp.grpName) && grp.Linked() && grp.grpNext == grpsHash[index]
      requires grp !in snap && grp.grpName !in Contents()
      modifies this, grpsHash
      ensures Valid() && Repr == old(Repr) + {grp, grp.list}
      ensures Contents() == old(Contents())[grp.grpName := map[]]
    {
      hide GroupsAre, Consistent, Flat, ToMap, Pushed;
      ghost var heads := grpsHash[..];
      LinkedConsistent(heads, snap, buckets, hash, grp, index);
      grpsHash[index] := grp;
      assert grpsHash[..] == heads[index := grp];
      numOfGrps := numOfGrps + 1;
      buckets := Pushed(hash, buckets, grp.grpName, map[]);
      snap := snap[grp := map[]];
      Repr := Repr + {grp, grp.list};
    }

    method AddKeyValuePair(curGrp: string, key: string, val: string) returns (ok: bool)
      requires Valid()
      modifies Repr
      ensures Valid() && Repr == old(Repr)
      ensures ok <==> key != "" && curGrp in old(Contents()) && key !in old(Contents())[curGrp]
      ensures Contents() == if ok then old(Contents())[curGrp := old(Contents())[curGrp][key := val]]
                            else old(Contents())
    {
      hide GroupsAre, Consistent, Group.Valid;
      if key == "" {
        return false;
      }
      var grp, i := FindGroup(curGrp);
      if grp == null {
        return false;
      }
      ok := StorePair(grp, i, key, val);
    }

    /** The second half of `add_key_value_pair`, once the group is found. */
    method StorePair(grp: Group, ghost i: nat, key: string, val: string) returns (ok: bool)
      requires Valid() && grp in snap && grp.grpName in Contents() && Contents()[grp.grpName] == snap[grp]
      requires var chain := GroupsFrom(grpsHash[Slot(hash, MAX_UNIQ_GRPS, grp.grpName)]);
               i < |chain| && chain[i] == grp
      modifies Repr
      ensures Valid() && Repr == old(Repr)
      ensures ok <==> key !in old(Contents())[grp.grpName]
      ensures Contents() == if ok then old(Contents())[grp.grpName := old(Contents())[grp.grpName][key := val]]
                            else old(Contents())
    {
      hide GroupsAre, Consistent, Group.Valid, Group.Contents, Flat, ToMap, Revalued, LinkedGroups;
      ghost var index := Slot(hash, MAX_UNIQ_GRPS, grp.grpName);
      ghost var v := if key in snap[grp] then snap[grp] else snap[grp][key := val];
      RevaluedConsistent(grpsHash[..], snap, buckets, hash, index, i, v);
      ghost var after;
      ok, after := AddToGroup(grp, key, val, snap, hash, grpsHash);
      buckets := Revalued(buckets, index, i, v);
      snap := after;
    }

    method GetValue(grpName: string, key: string) returns (val: Option<string>)
      requires Valid()
      ensures val == if grpName != "" && key != "" && grpName in Contents() && key in Contents()[grpName]
                     then Some(Contents()[grpName][key]) else None
    {
      if grpName == "" || key == "" {
        return None;
      }
      var grp, i := FindGroup(grpName);
      if grp == null {
        return None;
      }
      var node := grp.FindKey(key);
      val := if node == null then None else Some(node.value);
    }

    /** Null when there is nothing to list; else the keys and a terminating null entry. */
    method GetKeys(grpName: string) returns (keys: array?<Option<string>>)
      requires Valid()
      ensures keys == null <==> grpName == "" || grpName !in Contents() || Contents()[grpName] == map[]
      ensures keys != null ==> ListsOnce(keys[..], Contents()[grpName].Keys)
    {
      if numOfGrps == 0 || grpName == "" {
        return null;
      }
      var grp, i := FindGroup(grpName);
      if grp == null {
        return null;
      }
      FlatListsKeysOnce(hash, grp.KeyBuckets());
      if grp.numOfKeys == 0 {
        return null;
      }
      keys := grp.CollectKeys();
      FilledListsOnce(keys[..], Flat(grp.KeyBuckets()), grp.Contents());
    }

    method GetGrps() returns (grps: array?<Option<string>>)
      requires Valid()
      ensures grps == null <==> Contents() == map[]
      ensures grps != null ==> ListsOnce(grps[..], Contents().Keys)
    {
      FlatListsKeysOnce(hash, buckets);
      if numOfGrps == 0 {
        return null;
      }
      var names := CollectNames();
      FilledListsOnce(names[..], Flat(buckets), Contents());
      grps := names;
    }

    /** The loops of `get_grps`: fill the array it allocates, in bucket order. */
    method CollectNames() returns (names: array<Option<string>>)
      requires Valid()
      ensures fresh(names) && Filled(names[..], Flat(buckets)) && names.Length == |Flat(buckets)| + 1
    {
      hide Flat, Filled, GroupsAre, ChainWithin, Hashed, GroupEntries;
      names := new Option<string>[numOfGrps + 1](_ => None);
      NothingFilled(names[..], buckets);
      var j := 0;
      for i := 0 to grpsHash.Length
        invariant j == |Flat(buckets[..i])| && Filled(names[..], Flat(buckets[..i]))
      {
        FlatStep(buckets, i);
        assert grpsHash[..][i] == grpsHash[i];
        j := CollectGroups(grpsHash[i], names, j, snap, Flat(buckets[..i]));
      }
      assert buckets[..grpsHash.Length] == buckets;
    }
  }

  lemma FilledListsOnce<V>(listing: seq<Option<string>>, c: Chain<V>, m: map<string, V>)
    requires Filled(listing, c) && |listing| == |c| + 1
    requires |Keys(c)| == |m| && (forall k :: k in Keys(c) <==> k in m)
    requires forall i, j :: 0 <= i < j < |Keys(c)| ==> Keys(c)[i] != Keys(c)[j]
    ensures ListsOnce(listing, m.Keys)
  {
    assert forall i :: 0 <= i < |c| ==> Keys(c)[i] == c[i].key;
    forall k | k in m.Keys
      ensures Some(k) in listing
    {
      var i :| 0 <= i < |c| && Keys(c)[i] == k;
      assert listing[i] == Some(k);
    }
    forall i | 0 <= i < |c|
      ensures listing[i].Some? && listing[i].value in m.Keys
    {
      assert Keys(c)[i] in m;
    }
  }

  /** The listing holds each of the keys exactly once, then the terminating null entry. */
  ghost predicate ListsOnce(listing: seq<Option<string>>, keys: set<string>) {
    && |listing| == |keys| + 1 && listing[|listing| - 1].None?
    && (forall i :: 0 <= i < |keys| ==> listing[i].Some? && listing[i].value in keys)
    && (forall k :: k in keys ==> Some(k) in listing)
    && (forall i, j :: 0 <= i < j < |keys| ==> listing[i] != listing[j])
  }
}
