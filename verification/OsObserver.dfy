/**
 The OS observer: two relation maps, the item cache, and what the framework has been asked for.
 Each message body is a method, proved to be one step of the value-level `Obs`.
 */
module OsObserver {
  import opened SetMap

  /** A pointer argument that may be null. */
  datatype Ptr<T> = Null | To(v: T)

  datatype Client = Client(id: nat)
  datatype ItemId = ItemId(id: nat)
  datatype Framework = Framework(id: nat)
  type Data(==, !new) = nat

  /** A data item as reported, and whether the system status accepts it as a change. */
  datatype Report = Report(item: ItemId, data: Data, changed: bool)

  datatype Call =
    | Subscribe(f: Framework, items: set<ItemId>)
    | Request(f: Framework, items: set<ItemId>)
    | Unsubscribe(f: Framework, items: set<ItemId>)

  type Payload = map<ItemId, Data>

  datatype Obs = Obs(
    framework: Ptr<Framework>,
    toItems: map<Client, set<ItemId>>,
    toClients: map<ItemId, set<Client>>,
    cache: map<ItemId, Data>,
    calls: seq<Call>,
    sent: seq<map<Client, Payload>>)  // per message: what each client was notified with

  const EMPTY: Obs := Obs(Null, map[], map[], map[], [], [])

  function ToSet<T>(l: seq<T>): set<T> {
    set x | x in l
  }

  function CachedOf(cache: map<ItemId, Data>, items: set<ItemId>): Payload {
    map i | i in items && i in cache :: cache[i]
  }

  /** `sendCachedDataItems`: nothing is sent when none of the items is cached. */
  function SentTo(cache: map<ItemId, Data>, items: set<ItemId>, client: Client): map<Client, Payload> {
    if CachedOf(cache, items) == map[] then map[] else map[client := CachedOf(cache, items)]
  }

  // --- The message bodies --------------------------------------------------------------------

  function SetSubs(o: Obs, f: Framework): Obs {
    o.(framework := To(f),
       calls := o.calls + if o.toClients == map[] then []
                          else [Subscribe(f, o.toClients.Keys), Request(f, o.toClients.Keys)])
  }

  function Subscribed(o: Obs, items: set<ItemId>, c: Client, request: bool): Obs {
    var newKeys := items - o.toClients.Keys;
    Obs(o.framework,
        Grown(o.toItems, {c}, items),
        Grown(o.toClients, items, {c}),
        o.cache,
        o.calls + if o.framework.Null? then []
                  else if request then [Request(o.framework.v, items)]
                  else if newKeys != {} then [Subscribe(o.framework.v, newKeys)]
                  else [],
        o.sent + [SentTo(o.cache, items, c)])
  }

  function Updated(o: Obs, items: set<ItemId>, c: Client): Obs {
    var common := ValSet(o.toItems, c) * items;
    var newOnly := items - ValSet(o.toItems, c);
    var gone := GoneKeys(o.toClients, common, {c});
    var trimmed := Trimmed(o.toClients, common, {c});
    var newKeys := newOnly - trimmed.Keys;
    Obs(o.framework,
        Replaced(o.toItems, c, items),
        Grown(trimmed, newOnly, {c}),
        o.cache,
        o.calls + (if o.framework.Null? || newKeys == {} then [] else [Subscribe(o.framework.v, newKeys)])
        + (if o.framework.Null? || gone == {} then [] else [Unsubscribe(o.framework.v, gone)]),
        o.sent + [SentTo(o.cache, newOnly, c)])
  }

  function Unsubscribed(o: Obs, items: set<ItemId>, c: Client): Obs {
    var unused := ValSet(o.toItems, c) * items;
    var gone := GoneKeys(o.toClients, unused, {c});
    o.(toItems := Trimmed(o.toItems, {c}, items),
       toClients := Trimmed(o.toClients, unused, {c}),
       calls := o.calls + if o.framework.Null? || gone == {} then [] else [Unsubscribe(o.framework.v, gone)])
  }

  function UnsubscribedAll(o: Obs, c: Client): Obs {
    var items := ValSet(o.toItems, c);
    var gone := GoneKeys(o.toClients, items, {c});
    if items == {} then o
    else
      o.(toItems := o.toItems - {c},
         toClients := Trimmed(o.toClients, items, {c}),
         calls := o.calls + if o.framework.Null? || gone == {} then [] else [Unsubscribe(o.framework.v, gone)])
  }

  function CacheAfter(cache: map<ItemId, Data>, reports: seq<Report>): map<ItemId, Data> {
    if reports == [] then cache
    else
      var before, r := CacheAfter(cache, reports[..|reports| - 1]), reports[|reports| - 1];
      if r.changed then before[r.item := r.data] else before
  }

  function ChangedItems(reports: seq<Report>): set<ItemId> {
    set r | r in reports && r.changed :: r.item
  }

  function Interested(toClients: map<ItemId, set<Client>>, items: set<ItemId>): set<Client> {
    set i, c | i in items && i in toClients && c in toClients[i] :: c
  }

  function NotesFor(o: Obs, cache: map<ItemId, Data>, items: set<ItemId>, clients: set<Client>): map<Client, Payload> {
    map c | c in clients && CachedOf(cache, ValSet(o.toItems, c) * items) != map[]
      :: CachedOf(cache, ValSet(o.toItems, c) * items)
  }

  lemma OneMoreNote(o: Obs, cache: map<ItemId, Data>, items: set<ItemId>, clients: set<Client>, c: Client)
    requires c !in clients
    ensures NotesFor(o, cache, items, clients + {c}) ==
            NotesFor(o, cache, items, clients) + SentTo(cache, ValSet(o.toItems, c) * items, c)
  {
  }

  function Notified(o: Obs, reports: seq<Report>): Obs {
    var cache := CacheAfter(o.cache, reports);
    var items := ChangedItems(reports);
    o.(cache := cache,
       sent := o.sent + [NotesFor(o, cache, items, Interested(o.toClients, items))])
  }

  class SystemStatusOsObserver {
    var mSubscriptionObj: Ptr<Framework>
    const mClientToDataItems: LocUnorderedSetMap<Client, ItemId>
    const mDataItemToClients: LocUnorderedSetMap<ItemId, Client>
    var mDataItemCache: map<ItemId, Data>
    var calls: seq<Call>
    var sent: seq<map<Client, Payload>>

    ghost predicate Valid() {
      mClientToDataItems as object != mDataItemToClients as object
    }

    ghost function Repr(): set<object> {
      {this, mClientToDataItems, mDataItemToClients}
    }

    ghost function View(): Obs
      reads this, mClientToDataItems, mDataItemToClients
    {
      Obs(mSubscriptionObj, mClientToDataItems.mMap, mDataItemToClients.mMap, mDataItemCache, calls, sent)
    }

    constructor ()
      ensures Valid() && fresh(Repr()) && View() == EMPTY
    {
      mSubscriptionObj := Null;
      mClientToDataItems := new LocUnorderedSetMap<Client, ItemId>();
      mDataItemToClients := new LocUnorderedSetMap<ItemId, Client>();
      mDataItemCache, calls, sent := map[], [], [];
    }

    method SetSubscriptionObj(f: Ptr<Framework>)
      requires Valid()
      modifies Repr()
      ensures View() == if f.Null? then old(View()) else SetSubs(old(View()), f.v)
    {
      if f.Null? {
        return;
      }
      mSubscriptionObj := f;
      var empty := mDataItemToClients.Empty();
      if !empty {
        var dis := mDataItemToClients.GetKeys();
        calls := calls + [Call.Subscribe(f.v, dis)];
        calls := calls + [Call.Request(f.v, dis)];
      }
    }

    method SendCachedDataItems(items: set<ItemId>, client: Client) returns (note: map<Client, Payload>)
      ensures note == SentTo(mDataItemCache, items, client)
    {
      var dataItems: Payload := map[];
      var rest := items;
      while rest != {}
        invariant rest <= items
        invariant dataItems == CachedOf(mDataItemCache, items - rest)
      {
        var each :| each in rest;
        ghost var done := items - rest;
        rest := rest - {each};
        assert items - rest == done + {each};
        if each in mDataItemCache {
          dataItems := dataItems[each := mDataItemCache[each]];
        }
      }
      assert items - rest == items;
      note := if dataItems == map[] then map[] else map[client := dataItems];
    }

    method Subscribe(l: seq<ItemId>, client: Ptr<Client>, toRequestData: bool)
      requires Valid()
      modifies Repr()
      ensures View() == if l == [] || client.Null? then old(View())
                        else Subscribed(old(View()), ToSet(l), client.v, toRequestData)
    {
      if l == [] || client.Null? {
        return;
      }
      var items := ToSet(l);
      var dataItemsToSubscribe := mDataItemToClients.Add(items, {client.v});
      var added := mClientToDataItems.AddToKey(client.v, items);
      assert l[0] in items;

      var note := SendCachedDataItems(items, client.v);
      sent := sent + [note];

      if mSubscriptionObj.To? {
        if toRequestData {
          calls := calls + [Call.Request(mSubscriptionObj.v, items)];
        } else if dataItemsToSubscribe != {} {
          calls := calls + [Call.Subscribe(mSubscriptionObj.v, dataItemsToSubscribe)];
        }
      }
    }

    method UpdateSubscription(l: seq<ItemId>, client: Ptr<Client>)
      requires Valid()
      modifies Repr()
      ensures View() == if l == [] || client.Null? then old(View())
                        else Updated(old(View()), ToSet(l), client.v)
    {
      if l == [] || client.Null? {
        return;
      }
      hide Trimmed, Grown, GoneKeys, GoneVals, Replaced, ValSet, SentTo, ToSet;
      ghost var o := View();
      var clients := {client.v};
      var gone, newOnly := mClientToDataItems.Update(client.v, ToSet(l));
      var dataItemsToUnsubscribe, ignored := mDataItemToClients.TrimOrRemove(gone, clients);
      var dataItemsToSubscribe := mDataItemToClients.Add(newOnly, clients);

      var note := SendCachedDataItems(newOnly, client.v);
      sent := sent + [note];

      AskFor(dataItemsToSubscribe, dataItemsToUnsubscribe);
      ghost var u := Updated(o, ToSet(l), client.v);
      assert u.toItems == mClientToDataItems.mMap && u.toClients == mDataItemToClients.mMap;
      assert u.calls == calls && u.sent == sent;
    }

    /** What an update asks of the framework, if there is one. */
    method AskFor(subscribe: set<ItemId>, unsubscribe: set<ItemId>)
      modifies this`calls
      ensures calls == old(calls)
        + (if mSubscriptionObj.Null? || subscribe == {} then [] else [Call.Subscribe(mSubscriptionObj.v, subscribe)])
        + (if mSubscriptionObj.Null? || unsubscribe == {} then []
           else [Call.Unsubscribe(mSubscriptionObj.v, unsubscribe)])
    {
      if mSubscriptionObj.To? {
        if subscribe != {} {
          calls := calls + [Call.Subscribe(mSubscriptionObj.v, subscribe)];
        }
        if unsubscribe != {} {
          calls := calls + [Call.Unsubscribe(mSubscriptionObj.v, unsubscribe)];
        }
      }
    }

    method Unsubscribe(l: seq<ItemId>, client: Ptr<Client>)
      requires Valid()
      modifies Repr()
      ensures View() == if l == [] || client.Null? then old(View())
                        else Unsubscribed(old(View()), ToSet(l), client.v)
    {
      if l == [] || client.Null? {
        return;
      }
      var clientToRemove, dataItemsUnusedByClient := mClientToDataItems.TrimOrRemove({client.v}, ToSet(l));
      assert dataItemsUnusedByClient == ValSet(old(View()).toItems, client.v) * ToSet(l);
      var dataItemsToUnsubscribe, ignored :=
        mDataItemToClients.TrimOrRemove(dataItemsUnusedByClient, {client.v});
      if mSubscriptionObj.To? && dataItemsToUnsubscribe != {} {
        calls := calls + [Call.Unsubscribe(mSubscriptionObj.v, dataItemsToUnsubscribe)];
      }
    }

    method UnsubscribeAll(client: Ptr<Client>)
      requires Valid()
      modifies Repr()
      ensures View() == if client.Null? then old(View()) else UnsubscribedAll(old(View()), client.v)
    {
      if client.Null? {
        return;
      }
      var diByClient := mClientToDataItems.GetValSet(client.v);
      if diByClient != {} {
        var found := mClientToDataItems.Remove(client.v);
        var dataItemsToUnsubscribe, ignored := mDataItemToClients.TrimOrRemove(diByClient, {client.v});
        if dataItemsToUnsubscribe != {} && mSubscriptionObj.To? {
          calls := calls + [Call.Unsubscribe(mSubscriptionObj.v, dataItemsToUnsubscribe)];
        }
      }
    }

    /** `r.changed` is the system status's answer for this report. */
    method UpdateCache(r: Report) returns (updated: bool)
      modifies this`mDataItemCache
      ensures updated == r.changed
      ensures mDataItemCache == if r.changed then old(mDataItemCache)[r.item := r.data] else old(mDataItemCache)
    {
      updated := false;
      if r.changed {
        updated := true;
        mDataItemCache := mDataItemCache[r.item := r.data];
      }
    }

    method Notify(reports: seq<Report>)
      requires Valid()
      modifies Repr()
      ensures View() == if reports == [] then old(View()) else Notified(old(View()), reports)
    {
      if reports == [] {
        return;
      }
      ghost var was := View();
      var toBeSent: set<ItemId> := {};
      for n := 0 to |reports|
        invariant toBeSent == ChangedItems(reports[..n])
        invariant View() == was.(cache := CacheAfter(was.cache, reports[..n]))
      {
        assert reports[..n + 1][..n] == reports[..n];
        var updated := UpdateCache(reports[n]);
        if updated {
          toBeSent := toBeSent + {reports[n].item};
        }
      }
      assert reports[..|reports|] == reports;

      var clientSet := ClientsOf(toBeSent);
      var notes := map[];
      var restClients := clientSet;
      while restClients != {}
        invariant restClients <= clientSet
        invariant View() == was.(cache := CacheAfter(was.cache, reports))
        invariant notes == NotesFor(was, mDataItemCache, toBeSent, clientSet - restClients)
      {
        var client :| client in restClients;
        ghost var done := clientSet - restClients;
        restClients := restClients - {client};
        assert clientSet - restClients == done + {client};
        var mine := mClientToDataItems.GetValSet(client);
        var items := Keep(mine, toBeSent);
        var note := SendCachedDataItems(items, client);
        OneMoreNote(was, mDataItemCache, toBeSent, done, client);
        notes := notes + note;
      }
      assert clientSet - restClients == clientSet;
      sent := sent + [notes];
    }

    method ClientsOf(items: set<ItemId>) returns (clientSet: set<Client>)
      ensures clientSet == Interested(mDataItemToClients.mMap, items)
    {
      clientSet := {};
      var rest := items;
      while rest != {}
        invariant rest <= items
        invariant clientSet == Interested(mDataItemToClients.mMap, items - rest)
      {
        var each :| each in rest;
        ghost var done := items - rest;
        rest := rest - {each};
        assert items - rest == done + {each};
        if each in mDataItemToClients.mMap {
          clientSet := clientSet + mDataItemToClients.mMap[each];
        }
      }
      assert items - rest == items;
    }

    /** The erasing loop of `HandleNotify`: only items about to be sent stay. */
    static method Keep(mine: set<ItemId>, toBeSent: set<ItemId>) returns (items: set<ItemId>)
      ensures items == mine * toBeSent
    {
      items := mine;
      var rest := mine;
      while rest != {}
        invariant rest <= mine && items == mine - ((mine - rest) - toBeSent)
      {
        var each :| each in rest;
        rest := rest - {each};
        if each !in toBeSent {
          items := items - {each};
        }
      }
    }
  }

  // --- Runs ------------------------------------------------------------------------------------

  datatype Msg =
    | MSetSubs(f: Framework)
    | MSubscribe(items: set<ItemId>, c: Client, request: bool)
    | MUpdate(items: set<ItemId>, c: Client)
    | MUnsubscribe(items: set<ItemId>, c: Client)
    | MUnsubscribeAll(c: Client)
    | MNotify(reports: seq<Report>)

  /** The messages that pass the guards in front of the queue: no empty item list. */
  predicate Queued(m: Msg) {
    m.MSubscribe? || m.MUpdate? || m.MUnsubscribe? ==> m.items != {}
  }

  function Step(o: Obs, m: Msg): Obs {
    match m
    case MSetSubs(f) => SetSubs(o, f)
    case MSubscribe(items, c, request) => Subscribed(o, items, c, request)
    case MUpdate(items, c) => Updated(o, items, c)
    case MUnsubscribe(items, c) => Unsubscribed(o, items, c)
    case MUnsubscribeAll(c) => UnsubscribedAll(o, c)
    case MNotify(reports) => Notified(o, reports)
  }

  function Run(ms: seq<Msg>): Obs {
    if ms == [] then EMPTY else Step(Run(ms[..|ms| - 1]), ms[|ms| - 1])
  }

  /** The two maps are converse relations. */
  ghost predicate Converse(o: Obs) {
    forall c, i :: i in ValSet(o.toItems, c) <==> c in ValSet(o.toClients, i)
  }

  ghost predicate NoEmptyEntries(o: Obs) {
    NoEmptyEntry(o.toItems) && NoEmptyEntry(o.toClients)
  }

  lemma StepKeepsEntriesNonEmpty(o: Obs, m: Msg)
    requires NoEmptyEntries(o) && Queued(m)
    ensures NoEmptyEntries(Step(o, m))
  {
  }

  /** Where `updateSubscription` leaves the client: the symmetric difference, not the new items. */
  lemma UpdateLeavesSymmetricDifference(o: Obs, items: set<ItemId>, c: Client)
    requires Converse(o)
    ensures var o', held := Updated(o, items, c), ValSet(o.toItems, c);
            && ValSet(o'.toItems, c) == items
            && (forall i :: c in ValSet(o'.toClients, i) <==> i in (held - items) + (items - held))
            && (forall d, i :: d != c ==> (d in ValSet(o'.toClients, i) <==> d in ValSet(o.toClients, i)))
            && (forall d :: d != c ==> ValSet(o'.toItems, d) == ValSet(o.toItems, d))
  {
    var o', held := Updated(o, items, c), ValSet(o.toItems, c);
    forall d: Client, i: ItemId
      ensures d in ValSet(o'.toClients, i) <==>
              if d == c then i in (held - items) + (items - held) else d in ValSet(o.toClients, i)
    {
      TrimmedVal(o.toClients, held * items, {c}, i);
      GrownVal(Trimmed(o.toClients, held * items, {c}), items - held, {c}, i);
      assert i in held <==> c in ValSet(o.toClients, i);
    }
  }

  /**
   Every message keeps the two maps converse, except `updateSubscription` by a client that
   already holds items: it keeps them converse exactly when the client holds nothing yet.
   */
  lemma StepKeepsConverseIff(o: Obs, m: Msg)
    requires Converse(o) && NoEmptyEntries(o) && Queued(m)
    ensures Converse(Step(o, m)) <==> !(m.MUpdate? && m.c in o.toItems)
  {
    match m
    case MUpdate(items, c) => UpdateConverseIff(o, items, c);
    case MSubscribe(items, c, request) => SubscribeKeepsConverse(o, items, c, request);
    case MUnsubscribe(items, c) => UnsubscribeKeepsConverse(o, items, c);
    case MUnsubscribeAll(c) => UnsubscribeAllKeepsConverse(o, c);
    case _ =>
  }

  lemma UpdateConverseIff(o: Obs, items: set<ItemId>, c: Client)
    requires Converse(o) && NoEmptyEntries(o) && items != {}
    ensures Converse(Updated(o, items, c)) <==> c !in o.toItems
  {
    var o', held := Updated(o, items, c), ValSet(o.toItems, c);
    UpdateLeavesSymmetricDifference(o, items, c);
    if c in o.toItems {
      var i :| i in held;
      assert i in ValSet(o'.toItems, c) <==> c !in ValSet(o'.toClients, i);
    }
  }

  lemma SubscribeKeepsConverse(o: Obs, items: set<ItemId>, c: Client, request: bool)
    requires Converse(o)
    ensures Converse(Subscribed(o, items, c, request))
  {
    var o' := Subscribed(o, items, c, request);
    forall d: Client, i: ItemId
      ensures i in ValSet(o'.toItems, d) <==> d in ValSet(o'.toClients, i)
    {
      GrownVal(o.toItems, {c}, items, d);
      GrownVal(o.toClients, items, {c}, i);
      assert i in ValSet(o.toItems, d) <==> d in ValSet(o.toClients, i);
    }
  }

  lemma UnsubscribeKeepsConverse(o: Obs, items: set<ItemId>, c: Client)
    requires Converse(o)
    ensures Converse(Unsubscribed(o, items, c))
  {
    var o' := Unsubscribed(o, items, c);
    forall d: Client, i: ItemId
      ensures i in ValSet(o'.toItems, d) <==> d in ValSet(o'.toClients, i)
    {
      TrimmedVal(o.toItems, {c}, items, d);
      TrimmedVal(o.toClients, ValSet(o.toItems, c) * items, {c}, i);
      assert i in ValSet(o.toItems, d) <==> d in ValSet(o.toClients, i);
    }
  }

  lemma UnsubscribeAllKeepsConverse(o: Obs, c: Client)
    requires Converse(o)
    ensures Converse(UnsubscribedAll(o, c))
  {
    var o' := UnsubscribedAll(o, c);
    forall d: Client, i: ItemId
      ensures i in ValSet(o'.toItems, d) <==> d in ValSet(o'.toClients, i)
    {
      TrimmedVal(o.toClients, ValSet(o.toItems, c), {c}, i);
      assert i in ValSet(o.toItems, d) <==> d in ValSet(o.toClients, i);
    }
  }

  /** Every `updateSubscription` of the run comes from a client that holds nothing at the time. */
  ghost predicate UpdatesAreFirst(ms: seq<Msg>) {
    forall k :: 0 <= k < |ms| && ms[k].MUpdate? ==> ms[k].c !in Run(ms[..k]).toItems
  }

  lemma {:induction false} ReachableConverse(ms: seq<Msg>)
    requires forall m :: m in ms ==> Queued(m)
    requires UpdatesAreFirst(ms)
    ensures Converse(Run(ms)) && NoEmptyEntries(Run(ms))
  {
    AlwaysConverseIff(ms);
    ReachableEntriesNonEmpty(ms);
    assert ms[..|ms|] == ms;
  }

  lemma UpdatesAreFirstOneMore(ms: seq<Msg>)
    requires ms != []
    ensures UpdatesAreFirst(ms) <==>
            var o, m := Run(ms[..|ms| - 1]), ms[|ms| - 1];
            UpdatesAreFirst(ms[..|ms| - 1]) && (m.MUpdate? ==> m.c !in o.toItems)
  {
    var before := ms[..|ms| - 1];
    assert forall k :: 0 <= k < |before| ==> before[k] == ms[k] && before[..k] == ms[..k];
  }

  ghost predicate AlwaysConverse(ms: seq<Msg>) {
    forall n :: 0 <= n <= |ms| ==> Converse(Run(ms[..n]))
  }

  lemma AlwaysConverseOneMore(ms: seq<Msg>)
    requires ms != []
    ensures AlwaysConverse(ms[..|ms| - 1]) ==> Converse(Run(ms[..|ms| - 1]))
    ensures AlwaysConverse(ms) <==> AlwaysConverse(ms[..|ms| - 1]) && Converse(Run(ms))
  {
    hide Converse, Run;
    var before := ms[..|ms| - 1];
    assert ms[..|ms|] == ms && before[..|before|] == before;
    assert forall n :: 0 <= n <= |before| ==> before[..n] == ms[..n];
  }

  /** The relations are converse after every message exactly when every update comes first. */
  lemma {:induction false} AlwaysConverseIff(ms: seq<Msg>)
    requires forall m :: m in ms ==> Queued(m)
    ensures AlwaysConverse(ms) <==> UpdatesAreFirst(ms)
  {
    if ms == [] {
      assert Converse(Run(ms[..0]));
    } else {
      var before := ms[..|ms| - 1];
      AlwaysConverseIff(before);
      UpdatesAreFirstOneMore(ms);
      AlwaysConverseOneMore(ms);
      hide Converse, UpdatesAreFirst, AlwaysConverse, Step, Asked, NoEmptyEntries;
      if AlwaysConverse(before) {
        ReachableEntriesNonEmpty(before);
        StepKeepsConverseIff(Run(before), ms[|ms| - 1]);
      }
    }
  }

  lemma {:induction false} ReachableEntriesNonEmpty(ms: seq<Msg>)
    requires forall m :: m in ms ==> Queued(m)
    ensures NoEmptyEntries(Run(ms))
  {
    if ms != [] {
      ReachableEntriesNonEmpty(ms[..|ms| - 1]);
      StepKeepsEntriesNonEmpty(Run(ms[..|ms| - 1]), ms[|ms| - 1]);
    }
  }

  // --- The framework's mirror --------------------------------------------------------------------

  /** What `f` has been asked for by now: subscribed or requested, minus unsubscribed. */
  function Asked(calls: seq<Call>, f: Framework): set<ItemId> {
    if calls == [] then {}
    else
      var before, call := Asked(calls[..|calls| - 1], f), calls[|calls| - 1];
      if call.f != f then before
      else if call.Unsubscribe? then before - call.items
      else before + call.items
  }

  lemma AskedOne(calls: seq<Call>, a: Call, f: Framework)
    ensures Asked(calls + [a], f) ==
            if a.f != f then Asked(calls, f)
            else if a.Unsubscribe? then Asked(calls, f) - a.items
            else Asked(calls, f) + a.items
  {
    assert (calls + [a])[..|calls|] == calls;
  }

  /** The current framework object has been asked for exactly the items some client holds. */
  ghost predicate Mirrors(o: Obs) {
    o.framework.To? ==> Asked(o.calls, o.framework.v) == o.toClients.Keys
  }

  /**
   Every message keeps the framework in step with the item map, with one exception: installing
   an object keeps it exactly when that object was not asked before for an item nobody holds now.
   */
  lemma StepKeepsMirrorIff(o: Obs, m: Msg)
    requires Mirrors(o) && NoEmptyEntries(o) && Queued(m)
    ensures Mirrors(Step(o, m)) <==> !(m.MSetSubs? && !(Asked(o.calls, m.f) <= o.toClients.Keys))
  {
    var keys := o.toClients.Keys;
    match m
    case MSetSubs(f) =>
      AskedOne(o.calls, Subscribe(f, keys), f);
      AskedOne(o.calls + [Subscribe(f, keys)], Request(f, keys), f);
      assert o.calls + [Subscribe(f, keys)] + [Request(f, keys)] == o.calls + [Subscribe(f, keys), Request(f, keys)];
      assert o.toClients == map[] ==> keys == {};
      assert o.calls + [] == o.calls;
    case MSubscribe(items, c, request) =>
      SubscribeKeepsMirror(o, items, c, request);
    case MUpdate(items, c) =>
      UpdateKeepsMirror(o, items, c);
    case MUnsubscribe(items, c) =>
      TrimKeepsMirror(o, Unsubscribed(o, items, c), ValSet(o.toItems, c) * items, c);
    case MUnsubscribeAll(c) =>
      if ValSet(o.toItems, c) != {} {
        TrimKeepsMirror(o, UnsubscribedAll(o, c), ValSet(o.toItems, c), c);
      }
    case MNotify(_) =>
  }

  lemma SubscribeKeepsMirror(o: Obs, items: set<ItemId>, c: Client, request: bool)
    requires Mirrors(o)
    ensures Mirrors(Subscribed(o, items, c, request))
  {
    var o', newKeys := Subscribed(o, items, c, request), items - o.toClients.Keys;
    assert o'.toClients.Keys == o.toClients.Keys + items;
    if o.framework.To? {
      var f := o.framework.v;
      AskedOne(o.calls, Request(f, items), f);
      AskedOne(o.calls, Subscribe(f, newKeys), f);
      assert o.calls + [] == o.calls;
    }
  }

  lemma UpdateKeys(o: Obs, items: set<ItemId>, c: Client)
    ensures var common, newOnly := ValSet(o.toItems, c) * items, items - ValSet(o.toItems, c);
            var gone, trimmed := GoneKeys(o.toClients, common, {c}), Trimmed(o.toClients, common, {c});
            && trimmed.Keys == o.toClients.Keys - gone
            && gone !! newOnly
            && Updated(o, items, c).toClients.Keys == trimmed.Keys + newOnly
  {
  }

  lemma UpdateKeepsMirror(o: Obs, items: set<ItemId>, c: Client)
    requires Mirrors(o)
    ensures Mirrors(Updated(o, items, c))
  {
    if o.framework.To? {
      var f := o.framework.v;
      var common, newOnly := ValSet(o.toItems, c) * items, items - ValSet(o.toItems, c);
      var gone := GoneKeys(o.toClients, common, {c});
      var newKeys := newOnly - Trimmed(o.toClients, common, {c}).Keys;
      UpdateKeys(o, items, c);
      AskedTwo(o.calls, f, newKeys, gone);
    }
  }

  lemma AskedTwo(calls: seq<Call>, f: Framework, added: set<ItemId>, gone: set<ItemId>)
    ensures Asked(calls + (if added == {} then [] else [Subscribe(f, added)])
                  + (if gone == {} then [] else [Unsubscribe(f, gone)]), f)
            == Asked(calls, f) + added - gone
  {
    var first := calls + if added == {} then [] else [Subscribe(f, added)];
    assert calls + [] == calls && first + [] == first;
    AskedOne(calls, Subscribe(f, added), f);
    AskedOne(first, Unsubscribe(f, gone), f);
  }

  lemma TrimKeepsMirror(o: Obs, o': Obs, items: set<ItemId>, c: Client)
    requires Mirrors(o)
    requires o'.framework == o.framework && o'.toClients == Trimmed(o.toClients, items, {c})
    requires var gone := GoneKeys(o.toClients, items, {c});
             o'.calls == o.calls + if o.framework.Null? || gone == {} then [] else [Unsubscribe(o.framework.v, gone)]
    ensures Mirrors(o')
  {
    var gone := GoneKeys(o.toClients, items, {c});
    assert o'.toClients.Keys == o.toClients.Keys - gone;
    assert o.calls + [] == o.calls;
    if o.framework.To? {
      AskedOne(o.calls, Unsubscribe(o.framework.v, gone), o.framework.v);
    }
  }

  /** No object is installed while it still has requests standing for items nobody holds. */
  ghost predicate NoStaleInstall(ms: seq<Msg>) {
    forall k :: 0 <= k < |ms| && ms[k].MSetSubs? ==>
      var o := Run(ms[..k]); Asked(o.calls, ms[k].f) <= o.toClients.Keys
  }

  lemma {:induction false} ReachableMirror(ms: seq<Msg>)
    requires forall m :: m in ms ==> Queued(m)
    requires NoStaleInstall(ms)
    ensures Mirrors(Run(ms)) && NoEmptyEntries(Run(ms))
  {
    AlwaysMirroredIff(ms);
    ReachableEntriesNonEmpty(ms);
    assert ms[..|ms|] == ms;
  }

  lemma NoStaleInstallOneMore(ms: seq<Msg>)
    requires ms != []
    ensures NoStaleInstall(ms) <==>
            var o, m := Run(ms[..|ms| - 1]), ms[|ms| - 1];
            NoStaleInstall(ms[..|ms| - 1]) && (m.MSetSubs? ==> Asked(o.calls, m.f) <= o.toClients.Keys)
  {
    var before := ms[..|ms| - 1];
    assert forall k :: 0 <= k < |before| ==> before[k] == ms[k] && before[..k] == ms[..k];
  }

  ghost predicate AlwaysMirrored(ms: seq<Msg>) {
    forall n :: 0 <= n <= |ms| ==> Mirrors(Run(ms[..n]))
  }

  lemma AlwaysMirroredOneMore(ms: seq<Msg>)
    requires ms != []
    ensures AlwaysMirrored(ms[..|ms| - 1]) ==> Mirrors(Run(ms[..|ms| - 1]))
    ensures AlwaysMirrored(ms) <==> AlwaysMirrored(ms[..|ms| - 1]) && Mirrors(Run(ms))
  {
    hide Mirrors, Run;
    var before := ms[..|ms| - 1];
    assert ms[..|ms|] == ms && before[..|before|] == before;
    assert forall n :: 0 <= n <= |before| ==> before[..n] == ms[..n];
  }

  /** The framework is in step after every message exactly when no installation is stale. */
  lemma {:induction false} AlwaysMirroredIff(ms: seq<Msg>)
    requires forall m :: m in ms ==> Queued(m)
    ensures AlwaysMirrored(ms) <==> NoStaleInstall(ms)
  {
    if ms == [] {
      assert Mirrors(Run(ms[..0]));
    } else {
      var before := ms[..|ms| - 1];
      AlwaysMirroredIff(before);
      NoStaleInstallOneMore(ms);
      AlwaysMirroredOneMore(ms);
      hide Mirrors, NoStaleInstall, AlwaysMirrored, Step, Asked, NoEmptyEntries;
      if AlwaysMirrored(before) {
        ReachableEntriesNonEmpty(before);
        StepKeepsMirrorIff(Run(before), ms[|ms| - 1]);
      }
    }
  }

  /**
   A run that gets there: an object replaced by another misses the last unsubscription, and when
   it is installed again it still has a request standing for an item nobody holds.
   */
  lemma ReinstalledObjectIsStale(f1: Framework, f2: Framework, c: Client, i: ItemId)
    requires f1 != f2
    ensures var o := Run([MSetSubs(f1), MSubscribe({i}, c, false), MSetSubs(f2), MUnsubscribe({i}, c), MSetSubs(f1)]);
            o.toClients == map[] && Asked(o.calls, f1) == {i} && !Mirrors(o)
  {
    var ms := [MSetSubs(f1), MSubscribe({i}, c, false), MSetSubs(f2), MUnsubscribe({i}, c), MSetSubs(f1)];
    hide Subscribed, Unsubscribed, Run;
    RunOfFive(ms);
    var o1 := SetSubs(EMPTY, f1);
    FirstSubscribe(o1, c, i, f1);
    var o2 := Subscribed(o1, {i}, c, false);
    var o3 := SetSubs(o2, f2);
    AskedOne(o1.calls, Subscribe(f1, {i}), f1);
    AskedOne(o2.calls, Subscribe(f2, {i}), f1);
    AskedOne(o2.calls + [Subscribe(f2, {i})], Request(f2, {i}), f1);
    assert o2.toClients.Keys == {i};
    assert o3.calls == o2.calls + [Subscribe(f2, {i})] + [Request(f2, {i})];
    LastUnsubscribe(o3, c, i, f2);
    AskedOne(o3.calls, Unsubscribe(f2, {i}), f1);
    var o4 := Unsubscribed(o3, {i}, c);
    assert o4.calls + [] == o4.calls;
  }

  lemma RunOfFive(ms: seq<Msg>)
    requires |ms| == 5
    ensures Run(ms) == Step(Step(Step(Step(Step(EMPTY, ms[0]), ms[1]), ms[2]), ms[3]), ms[4])
  {
    hide Step;
    assert ms[..4][..3] == ms[..3] && ms[..3][..2] == ms[..2] && ms[..2][..1] == ms[..1] && ms[..1][..0] == [];
    assert Run(ms[..1]) == Step(EMPTY, ms[0]);
    assert Run(ms[..2]) == Step(Run(ms[..1]), ms[1]);
    assert Run(ms[..3]) == Step(Run(ms[..2]), ms[2]);
    assert Run(ms[..4]) == Step(Run(ms[..3]), ms[3]);
  }

  lemma FirstSubscribe(o: Obs, c: Client, i: ItemId, f: Framework)
    requires o.framework == To(f) && o.toItems == map[] && o.toClients == map[]
    ensures var o' := Subscribed(o, {i}, c, false);
            && o'.framework == To(f) && o'.toItems == map[c := {i}] && o'.toClients == map[i := {c}]
            && o'.calls == o.calls + [Subscribe(f, {i})]
  {
    assert {i} - o.toClients.Keys == {i};
    assert Grown(o.toItems, {c}, {i}).Keys == {c} && ValSet(o.toItems, c) + {i} == {i};
    assert Grown(o.toClients, {i}, {c}).Keys == {i} && ValSet(o.toClients, i) + {c} == {c};
    assert Grown(o.toItems, {c}, {i}) == map[c := {i}];
    assert Grown(o.toClients, {i}, {c}) == map[i := {c}];
  }

  lemma LastUnsubscribe(o: Obs, c: Client, i: ItemId, f: Framework)
    requires o.framework == To(f) && o.toItems == map[c := {i}] && o.toClients == map[i := {c}]
    ensures var o' := Unsubscribed(o, {i}, c);
            o'.toClients == map[] && o'.calls == o.calls + [Unsubscribe(f, {i})]
  {
    assert ValSet(o.toItems, c) * {i} == {i};
    assert Trimmed(o.toClients, {i}, {c}) == map[] && GoneKeys(o.toClients, {i}, {c}) == {i};
  }

  // --- Delivery --------------------------------------------------------------------------------

  lemma {:induction false} ChangedAreCached(cache: map<ItemId, Data>, reports: seq<Report>)
    ensures ChangedItems(reports) <= CacheAfter(cache, reports).Keys
  {
    if reports != [] {
      ChangedAreCached(cache, reports[..|reports| - 1]);
      assert forall r :: r in reports <==> r in reports[..|reports| - 1] || r == reports[|reports| - 1];
    }
  }

  /** The system status accepted one of the reports as a change of the item. */
  ghost predicate ChangedIn(reports: seq<Report>, i: ItemId) {
    exists r :: r in reports && r.changed && r.item == i
  }

  /**
   While the maps are converse, a notification gives every client exactly the changed items it
   holds, with their newest values, and leaves out exactly the clients that hold none of them.
   */
  lemma NotifyReachesExactlySubscribers(o: Obs, reports: seq<Report>, c: Client)
    requires Converse(o)
    ensures var o' := Notified(o, reports);
            && o' == o.(cache := o'.cache, sent := o'.sent)
            && |o'.sent| == |o.sent| + 1 && o'.sent[..|o.sent|] == o.sent
            && var note, held := o'.sent[|o.sent|], ValSet(o.toItems, c);
               && (c in note <==> exists i :: i in held && ChangedIn(reports, i))
               && (c in note ==> forall i :: (i in note[c] <==> i in held && ChangedIn(reports, i))
                                             && (i in note[c] ==> i in o'.cache && note[c][i] == o'.cache[i]))
  {
    ChangedAreCached(o.cache, reports);
    var cache, mine := CacheAfter(o.cache, reports), ValSet(o.toItems, c) * ChangedItems(reports);
    assert forall i :: i in mine <==> i in ValSet(o.toItems, c) && ChangedIn(reports, i);
    assert CachedOf(cache, mine).Keys == mine;
    if mine != {} {
      var i :| i in mine;
      assert c in ValSet(o.toClients, i);
      assert c in Interested(o.toClients, ChangedItems(reports));
    }
  }

  /**
   The witness that the exception in `StepKeepsConverseIff` matters: a client that updates its
   subscription to the very item it holds is dropped from that item, the framework is told to
   stop, and the next report of the item reaches nobody.
   */
  lemma RepeatedUpdateLosesNotifications(c: Client, i: ItemId, d: Data, f: Framework)
    ensures var o := Run([MSetSubs(f), MUpdate({i}, c), MUpdate({i}, c)]);
            && ValSet(o.toItems, c) == {i} && o.toClients == map[]
            && o.calls == [Subscribe(f, {i}), Unsubscribe(f, {i})]
            && var o' := Notified(o, [Report(i, d, true)]); o'.sent[|o'.sent| - 1] == map[]
  {
    var ms := [MSetSubs(f), MUpdate({i}, c), MUpdate({i}, c)];
    assert ms[..2] == [MSetSubs(f), MUpdate({i}, c)] && ms[..2][..1] == [MSetSubs(f)] && [MSetSubs(f)][..0] == [];
    var o1 := SetSubs(EMPTY, f);
    assert Run(ms[..2][..1]) == o1;
    FirstUpdate(o1, c, i, f);
    var o2 := Updated(o1, {i}, c);
    assert Run(ms[..2]) == o2;
    SecondUpdate(o2, c, i, f);
    var o3 := Updated(o2, {i}, c);
    assert Run(ms) == o3;
    assert Interested(o3.toClients, ChangedItems([Report(i, d, true)])) == {};
  }

  lemma RunTwo(first: Msg, second: Msg)
    ensures Run([first, second]) == Step(Step(EMPTY, first), second)
  {
    hide Step;
    var ms := [first, second];
    assert ms[..|ms| - 1] == [first] && [first][..0] == [];
    assert Run([first]) == Step(EMPTY, first);
  }

  /**
   And without any item in common, so that no loop over an intersection is involved: a client that
   moves its subscription from one item to another stays registered for the first.
   */
  lemma MovedSubscriptionStaysRegistered(c: Client, i: ItemId, j: ItemId)
    requires i != j
    ensures var o := Run([MUpdate({i}, c), MUpdate({j}, c)]);
            ValSet(o.toItems, c) == {j} && c in ValSet(o.toClients, i) && !Converse(o)
  {
    var ms := [MUpdate({i}, c), MUpdate({j}, c)];
    var o1 := Updated(EMPTY, {i}, c);
    RunTwo(ms[0], ms[1]);
    hide Updated, Run;
    UpdateLeavesSymmetricDifference(EMPTY, {i}, c);
    StepKeepsConverseIff(EMPTY, MUpdate({i}, c));
    UpdateLeavesSymmetricDifference(o1, {j}, c);
    assert i in ValSet(o1.toItems, c) - {j};
    assert c in ValSet(Run(ms).toClients, i) && i !in ValSet(Run(ms).toItems, c);
  }

  lemma FirstUpdate(o: Obs, c: Client, i: ItemId, f: Framework)
    requires o.framework == To(f) && o.toItems == map[] && o.toClients == map[]
    ensures var o' := Updated(o, {i}, c);
            && o'.framework == To(f) && o'.toItems == map[c := {i}] && o'.toClients == map[i := {c}]
            && o'.calls == o.calls + [Subscribe(f, {i})]
  {
    var trimmed := Trimmed(o.toClients, {}, {c});
    assert ValSet(o.toItems, c) * {i} == {} && {i} - ValSet(o.toItems, c) == {i};
    assert trimmed == map[] && GoneKeys(o.toClients, {}, {c}) == {};
    assert {i} - trimmed.Keys == {i};
    var grown := Grown(trimmed, {i}, {c});
    GrownVal(trimmed, {i}, {c}, i);
    assert ValSet(trimmed, i) + {c} == {c};
    assert grown.Keys == {i};
    assert grown == map[i := {c}];
  }

  lemma SecondUpdate(o: Obs, c: Client, i: ItemId, f: Framework)
    requires o.framework == To(f) && o.toItems == map[c := {i}] && o.toClients == map[i := {c}]
    ensures var o' := Updated(o, {i}, c);
            && o'.toItems == map[c := {i}] && o'.toClients == map[]
            && o'.calls == o.calls + [Unsubscribe(f, {i})]
  {
    assert ValSet(o.toItems, c) * {i} == {i} && {i} - ValSet(o.toItems, c) == {};
    var trimmed := Trimmed(o.toClients, {i}, {c});
    assert trimmed == map[] && GoneKeys(o.toClients, {i}, {c}) == {i};
    assert {} - trimmed.Keys == {};
    assert Grown(trimmed, {}, {c}) == map[];
  }
}
