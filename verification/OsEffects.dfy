/**
 What each message of the OS observer does, for whom: the relations it leaves, what the client is
 sent at once from the cache, and what the framework is asked for.
 */
module OsEffects {
  import opened OsObserver
  import opened SetMap

  /** `note` notifies at most `c`: of exactly these items, as cached, if there are any. */
  ghost predicate TellsCached(note: map<Client, Payload>, c: Client, items: set<ItemId>, cache: map<ItemId, Data>) {
    && (forall d :: d in note ==> d == c)
    && (c in note <==> exists i :: i in items && i in cache)
    && (c in note ==> forall i :: (i in note[c] <==> i in items && i in cache)
                                  && (i in note[c] ==> note[c][i] == cache[i]))
  }

  lemma SentTellsCached(cache: map<ItemId, Data>, items: set<ItemId>, c: Client)
    ensures TellsCached(SentTo(cache, items, c), c, items, cache)
  {
    if i :| i in items && i in cache {
      assert i in CachedOf(cache, items);
    }
  }

  /** One message more has been sent, and this is it. */
  ghost predicate SentOneMore(o: Obs, o': Obs, note: map<Client, Payload>) {
    o'.sent == o.sent + [note]
  }

  /** A new subscriber is sent at once what is cached of the items it asked for, and nobody else anything. */
  lemma SubscriberIsToldCached(o: Obs, items: set<ItemId>, c: Client, request: bool)
    returns (note: map<Client, Payload>)
    ensures SentOneMore(o, Subscribed(o, items, c, request), note) && TellsCached(note, c, items, o.cache)
  {
    SentTellsCached(o.cache, items, c);
    note := SentTo(o.cache, items, c);
  }

  /** Updating a subscription sends what is cached of the items the client did not hold before. */
  lemma UpdaterIsToldCached(o: Obs, items: set<ItemId>, c: Client) returns (note: map<Client, Payload>)
    ensures SentOneMore(o, Updated(o, items, c), note)
    ensures TellsCached(note, c, items - ValSet(o.toItems, c), o.cache)
  {
    SentTellsCached(o.cache, items - ValSet(o.toItems, c), c);
    note := SentTo(o.cache, items - ValSet(o.toItems, c), c);
  }

  // --- The relations ---------------------------------------------------------------------------

  /** Only this client's items, and this client under these items, may differ. */
  ghost predicate OnlyFor(o: Obs, o': Obs, c: Client) {
    && o'.framework == o.framework && o'.cache == o.cache
    && (forall d :: d != c ==> ValSet(o'.toItems, d) == ValSet(o.toItems, d))
    && (forall d, i :: d != c ==> (d in ValSet(o'.toClients, i) <==> d in ValSet(o.toClients, i)))
  }

  /** Subscribing adds: the client holds the items it held and those it asks for. */
  lemma SubscribeAdds(o: Obs, items: set<ItemId>, c: Client, request: bool)
    ensures var o' := Subscribed(o, items, c, request);
            && OnlyFor(o, o', c)
            && ValSet(o'.toItems, c) == ValSet(o.toItems, c) + items
            && (forall i :: c in ValSet(o'.toClients, i) <==> c in ValSet(o.toClients, i) || i in items)
  {
    hide Grown;
    forall i
      ensures ValSet(Grown(o.toClients, items, {c}), i) == ValSet(o.toClients, i) + if i in items then {c} else {}
    {
      GrownVal(o.toClients, items, {c}, i);
    }
    forall d
      ensures ValSet(Grown(o.toItems, {c}, items), d) == ValSet(o.toItems, d) + if d == c then items else {}
    {
      GrownVal(o.toItems, {c}, items, d);
    }
    hide ValSet, SentTo;
  }

  /** Unsubscribing takes away the items named, as far as the client holds them. */
  lemma UnsubscribeTakes(o: Obs, items: set<ItemId>, c: Client)
    ensures var o', held := Unsubscribed(o, items, c), ValSet(o.toItems, c);
            && OnlyFor(o, o', c) && o'.sent == o.sent
            && ValSet(o'.toItems, c) == held - items
            && (forall i :: c in ValSet(o'.toClients, i) <==> c in ValSet(o.toClients, i) && !(i in held && i in items))
  {
    var held := ValSet(o.toItems, c);
    forall i
      ensures ValSet(Trimmed(o.toClients, held * items, {c}), i)
           == ValSet(o.toClients, i) - if i in held && i in items then {c} else {}
    {
      TrimmedVal(o.toClients, held * items, {c}, i);
    }
    forall d
      ensures ValSet(Trimmed(o.toItems, {c}, items), d) == ValSet(o.toItems, d) - if d == c then items else {}
    {
      TrimmedVal(o.toItems, {c}, items, d);
    }
    hide Trimmed;
  }

  /** Unsubscribing from everything leaves the client with nothing. */
  lemma UnsubscribeAllTakesAll(o: Obs, c: Client)
    ensures var o', held := UnsubscribedAll(o, c), ValSet(o.toItems, c);
            && OnlyFor(o, o', c) && o'.sent == o.sent
            && ValSet(o'.toItems, c) == {}
            && (forall i :: c in ValSet(o'.toClients, i) <==> c in ValSet(o.toClients, i) && i !in held)
  {
    var held := ValSet(o.toItems, c);
    forall i
      ensures ValSet(Trimmed(o.toClients, held, {c}), i) == ValSet(o.toClients, i) - if i in held then {c} else {}
    {
      TrimmedVal(o.toClients, held, {c}, i);
    }
    hide Trimmed;
  }

  // --- The framework -----------------------------------------------------------------------------

  /** An object that is installed is asked to subscribe to, and then for, all items that clients hold. */
  lemma InstallingAsksForAll(o: Obs, f: Framework)
    ensures var o' := SetSubs(o, f);
            && o'.framework == To(f) && o'.toItems == o.toItems && o'.toClients == o.toClients && o'.sent == o.sent
            && (if exists i :: i in o.toClients then
                  && |o'.calls| == |o.calls| + 2 && o'.calls[..|o.calls|] == o.calls
                  && o'.calls[|o.calls|] == Subscribe(f, o.toClients.Keys)
                  && o'.calls[|o.calls| + 1] == Request(f, o.toClients.Keys)
                else o'.calls == o.calls)
  {
    if i :| i in o.toClients {
      assert o.toClients != map[];
    } else {
      assert o.toClients == map[];
    }
  }

  /** With `toRequestData` the framework is asked for the data once; otherwise for the items new to it. */
  lemma SubscribeAsks(o: Obs, items: set<ItemId>, c: Client, request: bool)
    ensures var o', n := Subscribed(o, items, c, request), |o.calls|;
            if o.framework.Null? then o'.calls == o.calls
            else
              && (request ==> o'.calls == o.calls + [Request(o.framework.v, items)])
              && (!request && items <= o.toClients.Keys ==> o'.calls == o.calls)
              && (!request && !(items <= o.toClients.Keys) ==>
                    && |o'.calls| == n + 1 && o'.calls[..n] == o.calls
                    && o'.calls[n].Subscribe? && o'.calls[n].f == o.framework.v
                    && forall i :: i in o'.calls[n].items <==> i in items && i !in o.toClients)
  {
    hide Grown;
    var newKeys := items - o.toClients.Keys;
    if newKeys == {} {
      forall i | i in items
        ensures i in o.toClients.Keys
      {
        assert i !in newKeys;
      }
    }
  }

  /** Only the last client of an item ends it with the framework. */
  ghost predicate HeldOnlyBy(o: Obs, i: ItemId, c: Client) {
    i in o.toClients && forall d :: d in o.toClients[i] ==> d == c
  }

  lemma GoneMeansHeldOnlyBy(o: Obs, items: set<ItemId>, c: Client)
    ensures forall i :: i in GoneKeys(o.toClients, items, {c}) <==> i in items && HeldOnlyBy(o, i, c)
  {
    forall i | i in items && HeldOnlyBy(o, i, c)
      ensures i in GoneKeys(o.toClients, items, {c})
    {
      assert o.toClients[i] - {c} == {};
    }
    forall i, d | i in GoneKeys(o.toClients, items, {c}) && d in o.toClients[i]
      ensures d == c
    {
      assert d !in o.toClients[i] - {c};
    }
  }

  /** The calls are the old ones and, if there is an object and an item to name, one such call. */
  ghost predicate AskedAtMost(before: seq<Call>, after: seq<Call>, framework: Ptr<Framework>, subscribe: bool,
                              items: set<ItemId>)
  {
    if framework.Null? || items == {} then after == before
    else after == before + [if subscribe then Subscribe(framework.v, items) else Unsubscribe(framework.v, items)]
  }

  /** Unsubscribing ends, with the framework, exactly the items the client was the last to hold. */
  lemma UnsubscribeEnds(o: Obs, items: set<ItemId>, c: Client) returns (ended: set<ItemId>)
    ensures forall i :: i in ended <==> i in ValSet(o.toItems, c) && i in items && HeldOnlyBy(o, i, c)
    ensures AskedAtMost(o.calls, Unsubscribed(o, items, c).calls, o.framework, false, ended)
  {
    hide HeldOnlyBy, Trimmed;
    ended := GoneKeys(o.toClients, ValSet(o.toItems, c) * items, {c});
    assert o.calls + [] == o.calls;
    GoneMeansHeldOnlyBy(o, ValSet(o.toItems, c) * items, c);
  }

  lemma UnsubscribeAllEnds(o: Obs, c: Client) returns (ended: set<ItemId>)
    ensures forall i :: i in ended <==> i in ValSet(o.toItems, c) && HeldOnlyBy(o, i, c)
    ensures AskedAtMost(o.calls, UnsubscribedAll(o, c).calls, o.framework, false, ended)
  {
    hide HeldOnlyBy, Trimmed;
    ended := GoneKeys(o.toClients, ValSet(o.toItems, c), {c});
    assert o.calls + [] == o.calls;
    GoneMeansHeldOnlyBy(o, ValSet(o.toItems, c), c);
  }

  /**
   An update first asks for the items new to the client that nobody held, and then ends those it
   asks for again and is the last to hold: the set map hands out the intersection of old and new.
   */
  lemma UpdateAsks(o: Obs, items: set<ItemId>, c: Client)
    returns (calls: seq<Call>, begun: set<ItemId>, ended: set<ItemId>)
    ensures forall i :: i in begun <==> i in items && i !in ValSet(o.toItems, c) && i !in o.toClients
    ensures forall i :: i in ended <==> i in items && i in ValSet(o.toItems, c) && HeldOnlyBy(o, i, c)
    ensures AskedAtMost(o.calls, calls, o.framework, true, begun)
    ensures AskedAtMost(calls, Updated(o, items, c).calls, o.framework, false, ended)
  {
    hide HeldOnlyBy;
    var common := ValSet(o.toItems, c) * items;
    var trimmed := Trimmed(o.toClients, common, {c});
    begun, ended := items - ValSet(o.toItems, c) - trimmed.Keys, GoneKeys(o.toClients, common, {c});
    calls := o.calls + if o.framework.Null? || begun == {} then [] else [Subscribe(o.framework.v, begun)];
    GoneMeansHeldOnlyBy(o, common, c);
    forall i | i in items && i !in ValSet(o.toItems, c)
      ensures i in trimmed <==> i in o.toClients
    {
      TrimmedVal(o.toClients, common, {c}, i);
    }
    hide GoneKeys, Trimmed, Grown, SentTo;
  }

  // --- The cache ---------------------------------------------------------------------------------

  /** Report `k` is one the system status accepted as a change of the item. */
  predicate Changes(reports: seq<Report>, k: int, i: ItemId) {
    0 <= k < |reports| && reports[k].item == i && reports[k].changed
  }

  /** After some reports the cache holds, of each item, the last accepted one, or what it held before. */
  lemma {:induction false} CacheHoldsLast(cache: map<ItemId, Data>, reports: seq<Report>, i: ItemId)
    ensures var after := CacheAfter(cache, reports);
            && (forall k :: Changes(reports, k, i) && (forall j :: k < j ==> !Changes(reports, j, i)) ==>
                  i in after && after[i] == reports[k].data)
            && ((forall k :: !Changes(reports, k, i)) ==>
                  (i in after <==> i in cache) && (i in after ==> after[i] == cache[i]))
  {
    if reports != [] {
      var init, last := reports[..|reports| - 1], |reports| - 1;
      CacheHoldsLast(cache, init, i);
      ChangesOneMore(reports, i);
      if Changes(reports, last, i) {
        assert i in CacheAfter(cache, reports) && CacheAfter(cache, reports)[i] == reports[last].data;
        hide CacheAfter, Changes;
      } else {
        SameForOthers(cache, reports, i);
        hide CacheAfter, Changes;
        assert forall k :: Changes(init, k, i) <==> Changes(reports, k, i);
      }
    }
  }

  lemma SameForOthers(cache: map<ItemId, Data>, reports: seq<Report>, i: ItemId)
    requires reports != [] && !Changes(reports, |reports| - 1, i)
    ensures var before, after := CacheAfter(cache, reports[..|reports| - 1]), CacheAfter(cache, reports);
            (i in after <==> i in before) && (i in after ==> after[i] == before[i])
  {
  }

  lemma ChangesOneMore(reports: seq<Report>, i: ItemId)
    requires reports != []
    ensures var init, last := reports[..|reports| - 1], |reports| - 1;
            && (forall k :: k != last ==> (Changes(init, k, i) <==> Changes(reports, k, i)))
            && (Changes(reports, last, i) <==> reports[last].item == i && reports[last].changed)
            && (forall k :: Changes(reports, k, i) ==> 0 <= k <= last)
            && (forall k :: Changes(init, k, i) ==> k < last && init[k] == reports[k])
  {
  }
}
