/**
 Resetting the network state when the framework dies: one disconnect for every STORED network
 item. The history keeps five items and the table ten handles, so this need not empty the table.
 */
module NetworkReset {
  import opened ChangeHistory
  import opened NetworkInfo

  /** The raw type passes through an `int8_t` parameter. */
  function Int8(x: int): int {
    (x + 128) % 256 - 128
  }

  function ResetEvent(stored: Info, time: int): Event {
    StatusEvent(false, stored.handle, Int8(stored.netType), stored.apn, time)
  }

  function ResetEvents(report: seq<Entry<Info>>, time: int): seq<Event> {
    seq(|report|, i requires 0 <= i < |report| => ResetEvent(report[i].item, time))
  }

  /**
   Each stored item is disconnected under its own handle and APN, at the given time, with its type
   if that fits in eight bits, and otherwise the one a multiple of 256 away that does.
   */
  lemma ResetDisconnectsEach(report: seq<Entry<Info>>, time: int, k: nat)
    requires k < |report|
    ensures var events, item := ResetEvents(report, time), report[k].item;
            && |events| == |report|
            && !events[k].connected && events[k].handle == item.handle
            && events[k].apn == item.apn && events[k].time == time
            && events[k].initialType == events[k].netType
            && -128 <= events[k].netType < 128 && (item.netType - events[k].netType) % 256 == 0
  {
    assert ResetEvents(report, time)[k] == ResetEvent(report[k].item, time);
  }

  /** The loop of `resetNetworkInfo`; the events wait in the queue until it is done. */
  method ResetNetworkInfo(report: seq<Entry<Info>>, time: int) returns (events: seq<Event>)
    ensures events == ResetEvents(report, time)
  {
    events := [];
    for i := 0 to |report|
      invariant events == ResetEvents(report[..i], time)
    {
      var item := report[i].item;
      events := events + [StatusEvent(false, item.handle, Int8(item.netType), item.apn, time)];
    }
    assert report[..|report|] == report;
  }

  function StepAll(m: map<int, int>, events: seq<Event>): map<int, int> {
    if events == [] then m else MapStep(StepAll(m, events[..|events| - 1]), events[|events| - 1])
  }

  lemma {:induction false} MapRunOfSum(events: seq<Event>, more: seq<Event>)
    requires events != []
    ensures MapRun(events + more) == StepAll(MapRun(events), more)
  {
    if more == [] {
      assert events + more == events;
    } else {
      assert (events + more)[..|events + more| - 1] == events + more[..|more| - 1];
      MapRunOfSum(events, more[..|more| - 1]);
    }
  }

  /** The disconnect removes `h` from a table that lists it like this. */
  predicate Hits(m: map<int, int>, h: int, e: Event)
    requires h in m
  {
    e.handle == h && h != UNKNOWN && MaskOf(e.initialType) != {} && m[h] == e.netType
  }

  /** Disconnects remove what one of them hits, whatever their order, and nothing else. */
  lemma {:induction false} DisconnectsRemove(m: map<int, int>, events: seq<Event>, h: int)
    requires forall e :: e in events ==> !e.connected
    ensures h in StepAll(m, events) <==> h in m && forall e :: e in events ==> !Hits(m, h, e)
    ensures h in StepAll(m, events) ==> StepAll(m, events)[h] == m[h]
  {
    if events != [] {
      var init, last := events[..|events| - 1], events[|events| - 1];
      assert forall e :: e in events <==> e in init || e == last;
      DisconnectsRemove(m, init, h);
      if h in m {
        assert (forall e :: e in events ==> !Hits(m, h, e))
          <==> (forall e :: e in init ==> !Hits(m, h, e)) && !Hits(m, h, last);
      }
    }
  }

  /** The type the table has for a listed handle. */
  function ListedType(events: seq<Event>, h: int): int
    requires events != []
  {
    if h in MapRun(events) then MapRun(events)[h] else TYPE_UNKNOWN
  }

  /** The stored item's disconnect, its type cast, has a mask bit and names the listed type. */
  predicate Clears(stored: Info, h: int, listedType: int) {
    stored.handle == h && MaskOf(Int8(stored.netType)) != {} && Int8(stored.netType) == listedType
  }

  lemma {:induction false} ResetCuts(m: map<int, int>, report: seq<Entry<Info>>, time: int, h: int)
    requires UNKNOWN !in m
    ensures h in StepAll(m, ResetEvents(report, time))
            <==> h in m && forall x :: x in report ==> !Clears(x.item, h, m[h])
  {
    var more := ResetEvents(report, time);
    DisconnectsRemove(m, more, h);
    hide StepAll, MaskOf;
    if h in m {
      forall x | x in report
        ensures ResetEvent(x.item, time) in more && (Hits(m, h, ResetEvent(x.item, time)) <==> Clears(x.item, h, m[h]))
      {
        var i :| 0 <= i < |report| && report[i] == x;
        assert more[i] == ResetEvent(x.item, time);
      }
      forall e | e in more && Hits(m, h, e)
        ensures exists x :: x in report && Clears(x.item, h, m[h])
      {
        var i :| 0 <= i < |more| && more[i] == e;
        assert report[i] in report && Clears(report[i].item, h, m[h]);
      }
    }
  }

  lemma {:induction false} ListedHandles(events: seq<Event>)
    requires events != []
    ensures Report(events) != [] && Handles(CachedTable(events)) == MapRun(events).Keys
    ensures UNKNOWN !in MapRun(events)
  {
    hide FirstFree, FirstHandles, Report, MapRun;
    TableRefinesMap(events);
    ListedIsInMap(CachedTable(events), MapRun(events), UNKNOWN);
  }

  /** The run with a reset at its end. */
  function WithReset(events: seq<Event>, time: int): seq<Event> {
    events + ResetEvents(Report(events), time)
  }

  /**
   After a reset the table lists exactly the handles it listed before for which no stored item has
   a disconnect with mask bit and the listed type.
   */
  lemma {:induction false} ResetLeaves(events: seq<Event>, time: int, h: int)
    requires events != []
    ensures Report(WithReset(events, time)) != [] && Report(events) != []
    ensures h in Handles(CachedTable(WithReset(events, time)))
            <==> h in Handles(CachedTable(events))
                 && forall x :: x in Report(events) ==> !Clears(x.item, h, ListedType(events, h))
  {
    ListedHandles(events);
    ListedHandles(WithReset(events, time));
    MapRunOfSum(events, ResetEvents(Report(events), time));
    ResetCuts(MapRun(events), Report(events), time, h);
    hide Handles, Report, MapRun, StepAll, Clears, ResetEvents;
  }

  /** So it empties the table exactly when every listed handle has such a stored item. */
  lemma {:induction false} ResetEmptiesIff(events: seq<Event>, time: int)
    requires events != []
    ensures Report(WithReset(events, time)) != [] && Report(events) != []
    ensures (forall h :: h !in Handles(CachedTable(WithReset(events, time))))
            <==> forall h :: h in Handles(CachedTable(events)) ==>
                   exists x :: x in Report(events) && Clears(x.item, h, ListedType(events, h))
  {
    hide FirstHandles, Report, MapRun, Clears, WithReset;
    ResetLeaves(events, time, 0);
    var left, listed := Handles(CachedTable(WithReset(events, time))), Handles(CachedTable(events));
    forall h
      ensures h in left <==> h in listed && !exists x :: x in Report(events) && Clears(x.item, h, ListedType(events, h))
    {
      ResetLeaves(events, time, h);
    }
  }

  // --- More than five networks -----------------------------------------------------------------------

  function Connects(handles: seq<int>, time: int): seq<Event> {
    seq(|handles|, i requires 0 <= i < |handles| => StatusEvent(true, handles[i], 1, "", time))
  }

  ghost predicate DistinctKnown(handles: seq<int>) {
    && (forall i, j :: 0 <= i < j < |handles| ==> handles[i] != handles[j])
    && (forall i :: 0 <= i < |handles| ==> handles[i] != UNKNOWN)
  }

  /** The stored items carry exactly the last few of these handles, all of type 1. */
  ghost predicate StoresLast(report: seq<Entry<Info>>, handles: seq<int>) {
    && |report| == |LastFew(handles)|
    && forall i :: 0 <= i < |report| ==> report[i].item.handle == LastFew(handles)[i] && report[i].item.netType == 1
  }

  lemma {:induction false} ConnectsListed(handles: seq<int>, time: int)
    requires 0 < |handles| <= MAX_NETWORK_HANDLES && DistinctKnown(handles)
    ensures var m := MapRun(Connects(handles, time));
            |m| == |handles| && forall h :: h in m <==> h in handles
    ensures forall h :: h in handles ==> MapRun(Connects(handles, time))[h] == 1
  {
    var n := |handles| - 1;
    var before, events := handles[..n], Connects(handles, time);
    assert events[..n] == Connects(before, time);
    assert forall h :: h in handles <==> h in before || h == handles[n];
    if n > 0 {
      ConnectsListed(before, time);
      assert handles[n] !in before;
    }
  }

  /** The last of several connects lists a handle that was not listed. */
  lemma LastConnectIsNew(handles: seq<int>, time: int)
    requires 1 < |handles| <= MAX_NETWORK_HANDLES && DistinctKnown(handles)
    ensures var events, n := Connects(handles, time), |handles| - 1;
            && |events| == n + 1 && DistinctKnown(handles[..n])
            && events[..n] == Connects(handles[..n], time)
            && events[n] == StatusEvent(true, handles[n], 1, "", time)
            && handles[n] in MapRun(events) && handles[n] !in MapRun(events[..n])
  {
    hide MapRun;
    var n := |handles| - 1;
    assert Connects(handles, time)[..n] == Connects(handles[..n], time);
    ConnectsListed(handles[..n], time);
    ConnectsListed(handles, time);
    assert handles[n] !in handles[..n];
  }

  /** Each of these connects changes the table, so each is stored. */
  lemma {:induction false} ConnectsStored(handles: seq<int>, time: int)
    requires 0 < |handles| <= MAX_NETWORK_HANDLES && DistinctKnown(handles)
    ensures StoresLast(Report(Connects(handles, time)), handles)
  {
    var n, events := |handles| - 1, Connects(handles, time);
    if n == 0 {
      FirstIsStored(events);
    } else {
      hide Report, MapRun, StoresLast, Connects, DistinctKnown;
      LastConnectIsNew(handles, time);
      ConnectsStored(handles[..n], time);
      NewHandleIsStored(events, handles[n]);
      StoreOneMore(Report(events[..n]), Report(events), handles[..n], handles);
    }
  }

  lemma {:induction false} FirstIsStored(events: seq<Event>)
    requires |events| == 1
    ensures Report(events) == [ToEntry(events[0])]
  {
    var k, s := NETWORK, ToEntry(events[0]);
    assert ToEntries(events)[..0] == [] && ToEntries(events)[0] == s;
    assert Appended(k, [], s) == [s];
    assert Stored(k, ToEntries(events)) == Trim(Appended(k, Stored(k, []), s));
  }

  lemma TableKeys(events: seq<Event>)
    requires events != []
    ensures Report(events) != [] && Handles(CachedTable(events)) == MapRun(events).Keys
  {
    TableRefinesMap(events);
  }

  lemma {:induction false} NewHandleIsStored(events: seq<Event>, h: int)
    requires |events| > 1 && events[|events| - 1].handle == h
    requires h in MapRun(events) && h !in MapRun(events[..|events| - 1])
    ensures var report, e := Report(events[..|events| - 1]), events[|events| - 1];
            exists item: Info :: Report(events) == Trim(report + [Entry(item, e.time)])
                                 && item.handle == h && item.netType == e.netType
  {
    hide Lists, MapRun;
    var n := |events| - 1;
    var report, s := Report(events[..n]), ToEntry(events[n]);
    TableKeys(events[..n]);
    TableKeys(events);
    TableFollowsEvent(events);
    assert h in Handles(CachedTable(events)) && h !in Handles(CachedTable(events[..n]));
    var item := Merged(NETWORK, report, s.item);
    MergedIsCollated(report, s.item);
    assert item.handle == h && item.netType == events[n].netType;
    hide Collated;
    assert item.handles != report[|report| - 1].item.handles;
    assert ToEntries(events)[..n] == ToEntries(events[..n]);
    hide Handles;
    assert Report(events) == Trim(report + [Entry(item, s.reported)]);
  }

  lemma {:induction false} StoreOneMore(report: seq<Entry<Info>>, after: seq<Entry<Info>>,
                                        before: seq<int>, handles: seq<int>)
    requires handles != [] && before == handles[..|handles| - 1] && StoresLast(report, before)
    requires exists item: Info, time :: after == Trim(report + [Entry(item, time)])
                                        && item.handle == handles[|handles| - 1] && item.netType == 1
    ensures StoresLast(after, handles)
  {
  }

  /**
   With six to ten networks connected one after another, a reset leaves exactly all but the last
   five of them listed.
   */
  lemma {:induction false} ResetLeavesEarliest(handles: seq<int>, time: int, h: int)
    requires MAX_ITEM < |handles| <= MAX_NETWORK_HANDLES && DistinctKnown(handles)
    ensures var all := WithReset(Connects(handles, time), time);
            && Report(all) != []
            && (h in Handles(CachedTable(all)) <==> h in handles[..|handles| - MAX_ITEM])
  {
    var events, k := Connects(handles, time), |handles| - MAX_ITEM;
    ConnectsListed(handles, time);
    ConnectsStored(handles, time);
    ListedHandles(events);
    ResetLeaves(events, time, h);
    hide Report, MapRun, Handles, WithReset, Clears, Connects;
    LastFewClear(Report(events), handles, h);
    assert h in handles[..k] ==> h in handles;
  }

  lemma {:induction false} LastFewClear(report: seq<Entry<Info>>, handles: seq<int>, h: int)
    requires MAX_ITEM < |handles| && DistinctKnown(handles) && StoresLast(report, handles)
    ensures h in handles ==>
              ((forall x :: x in report ==> !Clears(x.item, h, 1)) <==> h in handles[..|handles| - MAX_ITEM])
  {
    var k := |handles| - MAX_ITEM;
    if h in handles {
      var i :| 0 <= i < |handles| && handles[i] == h;
      if i < k {
        assert handles[..k][i] == h;
      } else {
        assert report[i - k] in report && Clears(report[i - k].item, h, 1);
      }
    }
  }
}
