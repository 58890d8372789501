/**
 What the newest stored network item says besides its table: whether the last event was a
 connect, the APN, and the mask of connected types, which one disconnect can leave too small.
 */
module NetworkStatus {
  import opened ChangeHistory
  import opened NetworkInfo

  /** The item clients are told about. */
  function Newest(events: seq<Event>): Info
    requires Report(events) != []
  {
    Report(events)[|Report(events)| - 1].item
  }

  /** The newest item has the status of the last event, merged with the item before, and its time. */
  lemma NewestFollows(events: seq<Event>)
    requires events != []
    ensures Report(events) != []
    ensures SameStatus(Newest(events),
                       Merged(NETWORK, Report(events[..|events| - 1]), ToEntry(events[|events| - 1]).item))
    ensures Report(events)[|Report(events)| - 1].reported == events[|events| - 1].time
  {
    hide Collated, Reported;
    var n := |events| - 1;
    assert ToEntries(events)[..n] == ToEntries(events[..n]);
    var after := Appended(NETWORK, Report(events[..n]), ToEntry(events[n]));
    assert Report(events) == Trim(after);
    assert Trim(after)[|Trim(after)| - 1] == after[|after| - 1];
  }

  lemma NewestIsCollated(events: seq<Event>)
    requires |events| > 1
    ensures Report(events) != [] && Report(events[..|events| - 1]) != []
    ensures SameStatus(Newest(events),
                       Collated(ToEntry(events[|events| - 1]).item, Newest(events[..|events| - 1])))
  {
    hide Collated, Reported, Report;
    var before := events[..|events| - 1];
    NewestFollows(events);
    NewestFollows(before);
    MergedIsCollated(Report(before), ToEntry(events[|events| - 1]).item);
  }

  lemma FirstNewest(e: Event)
    ensures Report([e]) != [] && SameStatus(Newest([e]), ToEntry(e).item)
  {
    hide Collated, Reported;
    NewestFollows([e]);
    assert [e][..0] == [];
    FirstIsUnmerged(e);
  }

  /** The newest item says whether the last event was a connect, and carries its time. */
  lemma NewestIsLastEvent(events: seq<Event>)
    requires events != []
    ensures Report(events) != []
    ensures Newest(events).connected == events[|events| - 1].connected
    ensures Report(events)[|Report(events)| - 1].reported == events[|events| - 1].time
  {
    hide Inserted, Deleted;
    NewestFollows(events);
    hide Report;
  }

  // --- The APN ---------------------------------------------------------------------------------

  lemma ApnStep(events: seq<Event>)
    requires |events| > 1
    ensures Report(events) != [] && Report(events[..|events| - 1]) != []
    ensures var last, before := events[|events| - 1], Newest(events[..|events| - 1]);
            Newest(events).apn == if last.netType == 0 || before.apn == "" then last.apn else before.apn
  {
    NewestIsCollated(events);
    hide Inserted, Deleted, Report, OthersOfType;
  }

  lemma ApnStart(e: Event)
    ensures Report([e]) != [] && Newest([e]).apn == e.apn
  {
    FirstNewest(e);
    hide Report;
  }

  /** No mobile event (type 0) comes after event `m`, and `m` is one unless it is the first event. */
  predicate LastMobile(events: seq<Event>, m: nat) {
    && m < |events| && (m == 0 || events[m].netType == 0)
    && forall k :: m < k < |events| ==> events[k].netType != 0
  }

  lemma LastMobileBefore(events: seq<Event>, m: nat)
    requires LastMobile(events, m) && m < |events| - 1
    ensures LastMobile(events[..|events| - 1], m) && events[|events| - 1].netType != 0
  {
  }

  /** Without any APN since the last mobile event the newest item has none. */
  lemma {:induction false} NoApnSinceMobile(events: seq<Event>, m: nat)
    requires LastMobile(events, m) && forall k :: m <= k < |events| ==> events[k].apn == ""
    ensures Report(events) != [] && Newest(events).apn == ""
  {
    hide Report, Newest;
    var n := |events| - 1;
    if n == 0 {
      assert events == [events[0]];
      ApnStart(events[0]);
    } else {
      ApnStep(events);
      if m < n {
        LastMobileBefore(events, m);
        NoApnSinceMobile(events[..n], m);
      }
    }
  }

  /**
   A mobile event brings its own APN; any other brings one only while there is none. So the newest
   item has the first APN that is not empty, `j`'s, reported since the last mobile event, or since
   the first event if there is no mobile one.
   */
  lemma {:induction false} ApnIsFirstSinceMobile(events: seq<Event>, m: nat, j: nat)
    requires LastMobile(events, m) && m <= j < |events| && events[j].apn != ""
    requires forall k :: m <= k < j ==> events[k].apn == ""
    ensures Report(events) != [] && Newest(events).apn == events[j].apn
  {
    hide Report, Newest;
    var n := |events| - 1;
    if n == 0 {
      assert events == [events[0]];
      ApnStart(events[0]);
    } else {
      ApnStep(events);
      if m < n {
        LastMobileBefore(events, m);
        if j < n {
          ApnIsFirstSinceMobile(events[..n], m, j);
        } else {
          NoApnSinceMobile(events[..n], m);
        }
      }
    }
  }

  // --- The mask --------------------------------------------------------------------------------

  /** The types of the listed handles that have a mask bit. */
  ghost function TypesOf(m: map<int, int>): Mask {
    set h | h in m && 0 <= m[h] < 10 :: m[h]
  }

  lemma TypeOfListed(m: map<int, int>, h: int)
    requires h in m && 0 <= m[h] < 10
    ensures m[h] in TypesOf(m)
  {
  }

  /** Another handle is listed with this type. */
  ghost predicate Shared(m: map<int, int>, handle: int, netType: int) {
    exists h :: h in m && h != handle && m[h] == netType
  }

  lemma {:induction false} OthersCounted(t: Table, handle: int, netType: int, n: nat)
    requires n <= MAX_NETWORK_HANDLES
    ensures OthersOfType(t, handle, netType, n) > 0 <==>
            exists k :: 0 <= k < n && t[k].handle != handle && t[k].netType == netType
  {
    if n > 0 {
      OthersCounted(t, handle, netType, n - 1);
    }
  }

  lemma OthersAreShared(t: Table, m: map<int, int>, handle: int, netType: int)
    requires Lists(t, m)
    ensures OthersOfType(t, handle, netType, FirstFree(t, 0)) > 0 <==> Shared(m, handle, netType)
  {
    hide OthersOfType, FirstFree, WellFormed;
    OthersCounted(t, handle, netType, FirstFree(t, 0));
    if h :| h in m && h != handle && m[h] == netType {
      assert h in Handles(t);
    }
  }

  /**
   The mask after an event: a connect adds its type; a disconnect takes it away, unless another
   listed handle has the type, when it is all that stays; and one without a mask bit leaves none.
   */
  lemma MaskAfter(cur: Info, m: map<int, int>, e: Event)
    requires Lists(cur.handles, m) && e.initialType == e.netType
    ensures Collated(ToEntry(e).item, cur).allTypes ==
            var bit: Mask := if 0 <= e.netType < 10 then {e.netType} else {};
            if e.connected then cur.allTypes + bit
            else if bit == {} then {}
            else if Shared(m, e.handle, e.netType) then bit
            else cur.allTypes - bit
  {
    hide Lists, Inserted, Deleted, Shared;
    OthersAreShared(cur.handles, m, e.handle, e.netType);
  }

  /** A connect leaves its type unlisted, or a disconnect leaves other types listed than its own. */
  ghost predicate MaskGoesWrong(m: map<int, int>, e: Event) {
    if e.connected then 0 <= e.netType < 10 && e.netType !in TypesOf(MapStep(m, e))
    else if !(0 <= e.netType < 10) then TypesOf(m) != {}
    else Shared(m, e.handle, e.netType) && TypesOf(m) != {e.netType}
  }

  /** One event keeps the mask equal to the types listed exactly when it does not go wrong. */
  lemma MaskStaysRightIff(cur: Info, m: map<int, int>, e: Event)
    requires Lists(cur.handles, m) && cur.allTypes == TypesOf(m) && e.initialType == e.netType
    ensures Collated(ToEntry(e).item, cur).allTypes == TypesOf(MapStep(m, e)) <==> !MaskGoesWrong(m, e)
  {
    hide Lists, Collated, Reported;
    MaskAfter(cur, m, e);
    ListedIsInMap(cur.handles, m, e.handle);
    hide MapStep, TypesOf, Shared;
    if e.connected {
      ConnectTypes(m, e);
    } else {
      DisconnectTypes(m, e);
    }
  }

  lemma ConnectTypes(m: map<int, int>, e: Event)
    requires e.connected
    ensures TypesOf(m) <= TypesOf(MapStep(m, e))
    ensures forall ty :: ty in TypesOf(MapStep(m, e)) ==> ty in TypesOf(m) || (ty == e.netType && 0 <= ty < 10)
  {
    forall ty | ty in TypesOf(m)
      ensures ty in TypesOf(MapStep(m, e))
    {
      var h :| h in m && m[h] == ty;
      TypeOfListed(MapStep(m, e), h);
    }
  }

  lemma DisconnectTypes(m: map<int, int>, e: Event)
    requires !e.connected && e.initialType == e.netType
    ensures Shared(m, e.handle, e.netType) ==> TypesOf(MapStep(m, e)) == TypesOf(m)
    ensures !(0 <= e.netType < 10) ==> TypesOf(MapStep(m, e)) == TypesOf(m)
    ensures 0 <= e.netType < 10 && !Shared(m, e.handle, e.netType) && (e.handle != UNKNOWN || UNKNOWN !in m) ==>
              TypesOf(MapStep(m, e)) == TypesOf(m) - {e.netType}
  {
    var m' := MapStep(m, e);
    forall h | h in m && h != e.handle
      ensures h in m' && m'[h] == m[h]
    {
    }
    forall ty | ty in TypesOf(m) && (ty != e.netType || Shared(m, e.handle, e.netType))
      ensures ty in TypesOf(m')
    {
      var h :| h in m && m[h] == ty && (h != e.handle || h in m');
      TypeOfListed(m', h);
    }
  }

  ghost predicate MaskRight(events: seq<Event>)
    requires events != []
  {
    Report(events) != [] && Newest(events).allTypes == TypesOf(MapRun(events))
  }

  ghost predicate AlwaysMaskRight(events: seq<Event>) {
    forall n :: 1 <= n <= |events| ==> MaskRight(events[..n])
  }

  /** No event of the run goes wrong; the first does when its handle is unknown but not its type. */
  ghost predicate NoMaskGoesWrong(events: seq<Event>) {
    && (events != [] ==> events[0].handle != UNKNOWN || !(0 <= events[0].netType < 10))
    && forall n :: 1 <= n < |events| ==> !MaskGoesWrong(MapRun(events[..n]), events[n])
  }

  lemma FirstMaskRightIff(e: Event)
    requires e.initialType == e.netType
    ensures MaskRight([e]) <==> e.handle != UNKNOWN || !(0 <= e.netType < 10)
  {
    FirstNewest(e);
    hide Report;
    if e.handle != UNKNOWN && 0 <= e.netType < 10 {
      TypeOfListed(MapRun([e]), e.handle);
    }
  }

  lemma LastMaskRightIff(events: seq<Event>)
    requires |events| > 1 && MaskRight(events[..|events| - 1])
    requires events[|events| - 1].initialType == events[|events| - 1].netType
    ensures MaskRight(events) <==> !MaskGoesWrong(MapRun(events[..|events| - 1]), events[|events| - 1])
  {
    var before := events[..|events| - 1];
    hide Report, Lists, Collated, Reported, MapStep, MaskGoesWrong, TypesOf;
    NewestIsCollated(events);
    TableRefinesMap(before);
    MaskStaysRightIff(Newest(before), MapRun(before), events[|events| - 1]);
  }

  lemma MaskOneMore(events: seq<Event>)
    requires |events| > 1
    ensures var init, last := events[..|events| - 1], events[|events| - 1];
            && (AlwaysMaskRight(events) <==> AlwaysMaskRight(init) && MaskRight(events))
            && (AlwaysMaskRight(init) ==> MaskRight(init))
            && (NoMaskGoesWrong(events) <==> NoMaskGoesWrong(init) && !MaskGoesWrong(MapRun(init), last))
  {
    hide MaskRight, MaskGoesWrong, MapRun;
    var init := events[..|events| - 1];
    assert events[..|events|] == events && init[..|init|] == init;
    assert forall n :: 0 <= n <= |init| ==> init[..n] == events[..n];
    assert forall n :: 0 <= n < |init| ==> init[n] == events[n];
  }

  /**
   Over any run of events as `eventConnectionStatus` builds them: the mask is that of the types
   listed, after every event, if and only if the first names its handle when it has a mask bit, no
   connect leaves its type unlisted, and no disconnect comes while another handle of its type and
   one of a different type are listed (or, without a mask bit, while any are).
   */
  lemma {:induction false} AlwaysMaskRightIff(events: seq<Event>)
    requires forall e :: e in events ==> e.initialType == e.netType
    ensures AlwaysMaskRight(events) <==> NoMaskGoesWrong(events)
  {
    if |events| == 1 {
      assert events[0] in events && events == [events[0]] && events[..1] == events;
      FirstMaskRightIff(events[0]);
      hide MaskRight;
    } else if |events| > 1 {
      var init, last := events[..|events| - 1], events[|events| - 1];
      assert forall e :: e in init ==> e in events;
      assert last in events;
      AlwaysMaskRightIff(init);
      MaskOneMore(events);
      hide MaskRight, MaskGoesWrong, AlwaysMaskRight, NoMaskGoesWrong, MapRun;
      if AlwaysMaskRight(init) {
        LastMaskRightIff(events);
      }
    }
  }

  /**
   A run that gets there: two Wi-Fi networks (type 1) and a mobile one (type 0) connect, and one
   Wi-Fi disconnects. The mobile network stays listed, but its bit is gone from the mask.
   */
  lemma DisconnectDropsMobileBit(time: int)
    ensures var events := [StatusEvent(true, 11, 1, "", time), StatusEvent(true, 12, 1, "", time),
                           StatusEvent(true, 13, 0, "", time), StatusEvent(false, 11, 1, "", time)];
            && MapRun(events) == map[12 := 1, 13 := 0]
            && Report(events) != [] && Newest(events).allTypes == {1}
  {
    var events := [StatusEvent(true, 11, 1, "", time), StatusEvent(true, 12, 1, "", time),
                   StatusEvent(true, 13, 0, "", time), StatusEvent(false, 11, 1, "", time)];
    var before := events[..3];
    assert before[..2][..1] == [events[0]] && before[..2] == events[..2];
    assert MapRun(before[..2][..1]) == map[11 := 1];
    assert MapRun(before[..2]) == map[11 := 1, 12 := 1];
    assert MapRun(before) == map[11 := 1, 12 := 1, 13 := 0];
    assert MapRun(events) == map[12 := 1, 13 := 0];
    hide Lists, Report, MapRun, Collated, Reported;
    NewestIsCollated(events);
    TableRefinesMap(before);
    assert Shared(map[11 := 1, 12 := 1, 13 := 0], 11, 1) by {
      assert 12 in map[11 := 1, 12 := 1, 13 := 0];
    }
    MaskAfter(Newest(before), map[11 := 1, 12 := 1, 13 := 0], events[3]);
  }
}
