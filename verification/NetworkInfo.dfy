/**
 The table of connected networks carried inside the network status item: filled at the first
 free slot, emptied by moving the last entry into the gap, and copied forward from the newest
 stored item on every event.
 */
module NetworkInfo {
  import opened ChangeHistory

  const MAX_NETWORK_HANDLES: nat := 10
  const UNKNOWN: int := 0xFFFF_FFFF_FFFF_FFFF
  const TYPE_MOBILE: int := 0
  const TYPE_UNKNOWN: int := 10

  datatype Slot = Slot(handle: int, netType: int)

  type Table = t: seq<Slot> | |t| == MAX_NETWORK_HANDLES
    witness seq(MAX_NETWORK_HANDLES, _ => Slot(UNKNOWN, TYPE_UNKNOWN))

  const FREE: Slot := Slot(UNKNOWN, TYPE_UNKNOWN)

  /** The `mAllTypes` bit mask, as the set of its bit positions. */
  type Mask = set<nat>

  datatype Info = Info(
    connected: bool,
    netType: int,
    handle: int,
    apn: string,
    allTypes: Mask,
    handles: Table)

  /** `typeToAllTypes` */
  function MaskOf(netType: int): Mask {
    if 0 <= netType < TYPE_UNKNOWN then {netType} else {}
  }

  /**
   A freshly constructed item. Its mask and the only entry of its table carry the initial type,
   while `mType`, which `collate` compares table entries with, is the raw one.
   */
  function Reported(connected: bool, initialType: int, netType: int, handle: int, apn: string): Info {
    Info(connected, netType, handle, apn, MaskOf(initialType),
         seq(MAX_NETWORK_HANDLES, i => if i == 0 then Slot(handle, initialType) else FREE))
  }

  /** `getNormalizedType` */
  function Normalized(raw: int): int {
    match raw
    case 100 => 1  // TYPE_WIFI
    case 101 => 2  // TYPE_ETHERNET
    case 102 => 3  // TYPE_BLUETOOTH
    case 201 => TYPE_MOBILE
    case 202 => 6  // TYPE_DUN
    case 203 => 7  // TYPE_HIPRI
    case 204 => 4  // TYPE_MMS
    case 205 => 5  // TYPE_SUPL
    case 220 => 8  // TYPE_WIMAX
    case _ => TYPE_UNKNOWN
  }

  /** The first free slot at or after `i`. */
  function FirstFree(t: Table, i: nat): (n: nat)
    requires i <= MAX_NETWORK_HANDLES
    ensures i <= n <= MAX_NETWORK_HANDLES
    ensures n < MAX_NETWORK_HANDLES ==> t[n].handle == UNKNOWN
    ensures forall k :: i <= k < n ==> t[k].handle != UNKNOWN
    decreases MAX_NETWORK_HANDLES - i
  {
    if i == MAX_NETWORK_HANDLES || t[i].handle == UNKNOWN then i else FirstFree(t, i + 1)
  }

  predicate Listed(t: Table, handle: int) {
    exists k :: 0 <= k < FirstFree(t, 0) && t[k].handle == handle
  }

  function Inserted(t: Table, handle: int, netType: int): Table {
    var n := FirstFree(t, 0);
    if handle == UNKNOWN || Listed(t, handle) || n == MAX_NETWORK_HANDLES then t
    else t[n := Slot(handle, netType)]
  }

  /** The slot to delete among the first `n`: the last one of this handle and type. */
  function DeletedIndex(t: Table, handle: int, netType: int, n: nat): (d: nat)
    requires n <= MAX_NETWORK_HANDLES
    ensures d < n || d == MAX_NETWORK_HANDLES
    ensures d < n ==> t[d] == Slot(handle, netType)
    ensures d == MAX_NETWORK_HANDLES ==> Slot(handle, netType) !in t[..n]
  {
    if n == 0 then MAX_NETWORK_HANDLES
    else if t[n - 1] == Slot(handle, netType) then n - 1
    else
      assert t[..n] == t[..n - 1] + [t[n - 1]];
      DeletedIndex(t, handle, netType, n - 1)
  }

  function OthersOfType(t: Table, handle: int, netType: int, n: nat): nat
    requires n <= MAX_NETWORK_HANDLES
  {
    if n == 0 then 0
    else
      var others := OthersOfType(t, handle, netType, n - 1);
      if t[n - 1].netType == netType && t[n - 1].handle != handle then others + 1 else others
  }

  function Deleted(t: Table, handle: int, netType: int): Table {
    var n := FirstFree(t, 0);
    var d := DeletedIndex(t, handle, netType, n);
    if d == MAX_NETWORK_HANDLES then t else t[d := t[n - 1]][n - 1 := FREE]
  }

  function Collated(s: Info, cur: Info): Info {
    var apn := if s.netType != TYPE_MOBILE && cur.apn != "" then cur.apn else s.apn;
    if s.connected then
      s.(apn := apn,
         allTypes := s.allTypes + cur.allTypes,
         handles := Inserted(cur.handles, s.handle, s.netType))
    else if s.allTypes != {} then
      s.(apn := apn,
         allTypes := if OthersOfType(cur.handles, s.handle, s.netType, FirstFree(cur.handles, 0)) == 0
                     then cur.allTypes - s.allTypes else s.allTypes,
         handles := Deleted(cur.handles, s.handle, s.netType))
    else
      s.(apn := apn, handles := cur.handles)
  }

  predicate SameStatus(a: Info, b: Info) {
    a.allTypes == b.allTypes && a.connected == b.connected && a.handles == b.handles && a.apn == b.apn
  }

  class NetworkInfoItem {
    const mConnected: bool
    const mType: int
    const mNetworkHandle: int
    var mApn: string
    var mAllTypes: Mask
    const mAllNetworkHandles: array<Slot>

    ghost predicate Valid()
      reads this, mAllNetworkHandles
    {
      mAllNetworkHandles.Length == MAX_NETWORK_HANDLES
    }

    ghost function View(): Info
      requires Valid()
      reads this, mAllNetworkHandles
    {
      Info(mConnected, mType, mNetworkHandle, mApn, mAllTypes, mAllNetworkHandles[..])
    }

    constructor (info: Info)
      ensures Valid() && fresh(mAllNetworkHandles) && View() == info
    {
      mConnected, mType, mNetworkHandle := info.connected, info.netType, info.handle;
      mApn, mAllTypes := info.apn, info.allTypes;
      mAllNetworkHandles := new Slot[MAX_NETWORK_HANDLES](i requires 0 <= i < MAX_NETWORK_HANDLES => info.handles[i]);
    }

    method Collate(cur: Info)
      requires Valid()
      modifies this, mAllNetworkHandles
      ensures Valid() && View() == Collated(old(View()), cur)
    {
      var allTypes, apn := cur.allTypes, cur.apn;
      forall i | 0 <= i < MAX_NETWORK_HANDLES {
        mAllNetworkHandles[i] := cur.handles[i];
      }
      assert mAllNetworkHandles[..] == cur.handles;
      if mType != TYPE_MOBILE && apn != "" {
        mApn := apn;
      }
      if mConnected {
        mAllTypes := mAllTypes + allTypes;
        InsertHandle(cur.handles);
      } else if mAllTypes != {} {
        var typeCount := DeleteHandle(cur.handles);
        if typeCount == 0 {
          mAllTypes := allTypes - mAllTypes;
        }
      }
    }

    method InsertHandle(t: Table)
      requires Valid() && mAllNetworkHandles[..] == t
      modifies mAllNetworkHandles
      ensures mAllNetworkHandles[..] == Inserted(t, mNetworkHandle, mType)
    {
      var i := 0;
      while i < MAX_NETWORK_HANDLES
        invariant 0 <= i <= MAX_NETWORK_HANDLES && mAllNetworkHandles[..] == t
        invariant FirstFree(t, 0) == FirstFree(t, i)
        invariant forall k :: 0 <= k < i ==> t[k].handle != mNetworkHandle
      {
        assert mAllNetworkHandles[i] == t[i];
        if mNetworkHandle == mAllNetworkHandles[i].handle {
          assert i < FirstFree(t, 0) || mNetworkHandle == UNKNOWN;
          return;
        }
        if UNKNOWN == mAllNetworkHandles[i].handle {
          assert i == FirstFree(t, 0);
          mAllNetworkHandles[i] := Slot(mNetworkHandle, mType);
          return;
        }
        i := i + 1;
      }
    }

    method DeleteHandle(t: Table) returns (typeCount: nat)
      requires Valid() && mAllNetworkHandles[..] == t
      modifies mAllNetworkHandles
      ensures mAllNetworkHandles[..] == Deleted(t, mNetworkHandle, mType)
      ensures typeCount == OthersOfType(t, mNetworkHandle, mType, FirstFree(t, 0))
    {
      var deletedIndex := MAX_NETWORK_HANDLES;
      var lastValidIndex := 0;
      typeCount := 0;
      while lastValidIndex < MAX_NETWORK_HANDLES && UNKNOWN != mAllNetworkHandles[lastValidIndex].handle
        invariant 0 <= lastValidIndex <= MAX_NETWORK_HANDLES && mAllNetworkHandles[..] == t
        invariant FirstFree(t, 0) == FirstFree(t, lastValidIndex)
        invariant deletedIndex == DeletedIndex(t, mNetworkHandle, mType, lastValidIndex)
        invariant typeCount == OthersOfType(t, mNetworkHandle, mType, lastValidIndex)
      {
        assert mAllNetworkHandles[lastValidIndex] == t[lastValidIndex];
        if mType == mAllNetworkHandles[lastValidIndex].netType {
          if mNetworkHandle == mAllNetworkHandles[lastValidIndex].handle {
            deletedIndex := lastValidIndex;
          } else {
            typeCount := typeCount + 1;
          }
        }
        lastValidIndex := lastValidIndex + 1;
      }
      assert lastValidIndex < MAX_NETWORK_HANDLES ==> mAllNetworkHandles[lastValidIndex] == t[lastValidIndex];
      assert lastValidIndex == FirstFree(t, 0);
      if lastValidIndex > 0 {
        lastValidIndex := lastValidIndex - 1;
      }
      if MAX_NETWORK_HANDLES != deletedIndex {
        mAllNetworkHandles[deletedIndex] := mAllNetworkHandles[lastValidIndex];
        mAllNetworkHandles[lastValidIndex] := FREE;
      }
    }

    method Equals(peer: Info) returns (rtv: bool)
      requires Valid()
      ensures rtv == SameStatus(View(), peer)
    {
      rtv := mAllTypes == peer.allTypes && mConnected == peer.connected;
      ghost var same := rtv;
      var i := 0;
      while rtv && i < MAX_NETWORK_HANDLES
        invariant 0 <= i <= MAX_NETWORK_HANDLES
        invariant rtv <==> same && mAllNetworkHandles[..i] == peer.handles[..i]
      {
        rtv := rtv && mAllNetworkHandles[i] == peer.handles[i];
        i := i + 1;
      }
      assert rtv ==> mAllNetworkHandles[..] == peer.handles;
      return rtv && peer.apn == mApn;
    }
  }

  // --- The table as a map ----------------------------------------------------------------------

  /** The handles listed in the table. */
  ghost function Handles(t: Table): set<int> {
    FirstHandles(t, FirstFree(t, 0))
  }

  /** No holes before the last entry, no handle twice. */
  ghost predicate WellFormed(t: Table) {
    var n := FirstFree(t, 0);
    && (forall k :: n <= k < MAX_NETWORK_HANDLES ==> t[k].handle == UNKNOWN)
    && (forall i, j :: 0 <= i < j < n ==> t[i].handle != t[j].handle)
  }

  /** The table lists exactly these handles, each with its type. */
  ghost predicate Lists(t: Table, m: map<int, int>) {
    && WellFormed(t)
    && Handles(t) == m.Keys
    && forall k :: 0 <= k < FirstFree(t, 0) ==> t[k].handle in m && t[k].netType == m[t[k].handle]
  }

  ghost function FirstHandles(t: seq<Slot>, n: nat): set<int>
    requires n <= |t|
  {
    set k | 0 <= k < n :: t[k].handle
  }

  lemma OneMoreHandle(t: seq<Slot>, n: nat)
    requires n < |t|
    ensures FirstHandles(t, n + 1) == FirstHandles(t, n) + {t[n].handle}
  {
    forall h | h in FirstHandles(t, n) + {t[n].handle}
      ensures h in FirstHandles(t, n + 1)
    {
      if h != t[n].handle {
        var k :| 0 <= k < n && t[k].handle == h;
      }
    }
  }

  lemma {:induction false} CountHandles(t: seq<Slot>, n: nat)
    requires n <= |t| && forall i, j :: 0 <= i < j < n ==> t[i].handle != t[j].handle
    ensures |FirstHandles(t, n)| == n
  {
    if n > 0 {
      CountHandles(t, n - 1);
      OneMoreHandle(t, n - 1);
    }
  }

  lemma FirstFreeIs(t: Table, n: nat, i: nat)
    requires i <= n <= MAX_NETWORK_HANDLES
    requires forall k :: i <= k < n ==> t[k].handle != UNKNOWN
    requires n < MAX_NETWORK_HANDLES ==> t[n].handle == UNKNOWN
    ensures FirstFree(t, i) == n
    decreases n - i
  {
  }

  /** Filling the first free slot with a new handle adds it. */
  lemma FillFreeSlot(t: Table, m: map<int, int>, handle: int, netType: int, n: nat, t': Table)
    requires Lists(t, m) && n == FirstFree(t, 0) < MAX_NETWORK_HANDLES
    requires handle != UNKNOWN && handle !in m
    requires t' == t[n := Slot(handle, netType)]
    ensures FirstFree(t', 0) == n + 1 && Lists(t', m[handle := netType])
  {
    hide FirstFree, FirstHandles;
    assert forall k :: 0 <= k < n ==> t'[k] == t[k] && t[k].handle != handle;
    assert forall k :: n < k < MAX_NETWORK_HANDLES ==> t'[k] == t[k];
    FirstFreeIs(t', n + 1, 0);
    OneMoreHandle(t', n);
    SameHandles(t, t', n);
  }

  lemma SameHandles(t: seq<Slot>, t': seq<Slot>, n: nat)
    requires n <= |t| && n <= |t'| && forall k :: 0 <= k < n ==> t[k].handle == t'[k].handle
    ensures FirstHandles(t, n) == FirstHandles(t', n)
  {
  }

  lemma ListedIsInMap(t: Table, m: map<int, int>, handle: int)
    requires Lists(t, m)
    ensures Listed(t, handle) <==> handle in m
    ensures UNKNOWN !in m && FirstFree(t, 0) == |m|
  {
    CountHandles(t, FirstFree(t, 0));
    assert Listed(t, handle) <==> handle in Handles(t);
    assert UNKNOWN !in Handles(t);
    assert |m.Keys| == |m|;
  }

  /** A connect lists its handle with its type, unless the handle is unknown, listed, or does not fit. */
  lemma InsertRefinesMap(t: Table, m: map<int, int>, handle: int, netType: int)
    requires Lists(t, m)
    ensures Lists(Inserted(t, handle, netType),
                  if handle == UNKNOWN || handle in m || |m| == MAX_NETWORK_HANDLES then m else m[handle := netType])
  {
    hide Lists;
    ListedIsInMap(t, m, handle);
    if handle != UNKNOWN && handle !in m && |m| < MAX_NETWORK_HANDLES {
      FillFreeSlot(t, m, handle, netType, FirstFree(t, 0), Inserted(t, handle, netType));
    }
  }

  /**
   A connect adds exactly its handle. It is lost exactly when the handle is the unknown one or
   the table is full of others.
   */
  lemma {:induction false} InsertAddsHandle(t: Table, m: map<int, int>, handle: int, netType: int)
    requires Lists(t, m)
    ensures var t' := Inserted(t, handle, netType);
            && (Handles(t') == Handles(t) + {handle}
                <==> handle != UNKNOWN && (handle in Handles(t) || |Handles(t)| < MAX_NETWORK_HANDLES))
            && (handle == UNKNOWN || |Handles(t)| == MAX_NETWORK_HANDLES ==> t' == t)
  {
    hide FirstFree, FirstHandles, WellFormed;
    ListedIsInMap(t, m, handle);
    InsertRefinesMap(t, m, handle, netType);
    assert |m.Keys| == |m|;
  }

  /** Moving the last entry into the gap keeps the table well formed. */
  lemma MoveLastIntoGap(t: Table, d: nat, n: nat, t': Table)
    requires WellFormed(t) && d < n == FirstFree(t, 0)
    requires t' == t[d := t[n - 1]][n - 1 := FREE]
    ensures FirstFree(t', 0) == n - 1 && WellFormed(t')
    ensures forall k :: 0 <= k < n - 1 ==> t'[k] == if k == d then t[n - 1] else t[k]
  {
    hide FirstFree;
    assert forall k :: 0 <= k < n - 1 ==> t'[k] == if k == d then t[n - 1] else t[k];
    assert forall k :: n - 1 <= k < MAX_NETWORK_HANDLES ==> t'[k].handle == UNKNOWN;
    FirstFreeIs(t', n - 1, 0);
  }

  lemma GapHandles(t: Table, d: nat, n: nat, t': Table)
    requires WellFormed(t) && d < n == FirstFree(t, 0) && FirstFree(t', 0) == n - 1
    requires forall k :: 0 <= k < n - 1 ==> t'[k] == if k == d then t[n - 1] else t[k]
    ensures Handles(t') == Handles(t) - {t[d].handle}
  {
    hide FirstFree;
    forall h | h in Handles(t) && h != t[d].handle
      ensures h in Handles(t')
    {
      var k :| 0 <= k < n && t[k].handle == h;
      assert t'[if k == n - 1 then d else k].handle == h;
    }
    forall h | h in Handles(t')
      ensures h in Handles(t) && h != t[d].handle
    {
      var k :| 0 <= k < n - 1 && t'[k].handle == h;
      assert t[if k == d then n - 1 else k].handle == h;
    }
  }

  /** The deletion finds its entry exactly when the handle is listed with this very type. */
  lemma DeletionFinds(t: Table, m: map<int, int>, handle: int, netType: int)
    requires Lists(t, m)
    ensures DeletedIndex(t, handle, netType, FirstFree(t, 0)) < FirstFree(t, 0)
            <==> handle in m && m[handle] == netType
  {
    var n := FirstFree(t, 0);
    var d := DeletedIndex(t, handle, netType, n);
    if handle in m && m[handle] == netType {
      assert handle in Handles(t);
      var k :| 0 <= k < n && t[k].handle == handle;
      assert t[..n][k] == Slot(handle, netType);
    }
  }

  /** The moved entries keep their types. */
  lemma GapTypes(t: Table, m: map<int, int>, d: nat, n: nat, t': Table)
    requires Lists(t, m) && d < n == FirstFree(t, 0) && FirstFree(t', 0) == n - 1 && WellFormed(t')
    requires forall k :: 0 <= k < n - 1 ==> t'[k] == if k == d then t[n - 1] else t[k]
    requires Handles(t') == Handles(t) - {t[d].handle}
    ensures Lists(t', m - {t[d].handle})
  {
    hide FirstFree, FirstHandles;
    var h := t[d].handle;
    assert forall k :: 0 <= k < n && k != d ==> t[k].handle != h;
    forall k | 0 <= k < n - 1
      ensures t'[k].handle in m - {h} && t'[k].netType == (m - {h})[t'[k].handle]
    {
      var j := if k == d then n - 1 else k;
      assert t'[k] == t[j] && j != d;
    }
  }

  /** A disconnect removes its handle exactly when the handle is listed with this very type. */
  lemma {:induction false} DeleteRefinesMap(t: Table, m: map<int, int>, handle: int, netType: int)
    requires Lists(t, m)
    ensures Lists(Deleted(t, handle, netType), if handle in m && m[handle] == netType then m - {handle} else m)
  {
    hide FirstFree, Handles, DeletedIndex;
    var n, t' := FirstFree(t, 0), Deleted(t, handle, netType);
    var d := DeletedIndex(t, handle, netType, n);
    DeletionFinds(t, m, handle, netType);
    if d < n {
      hide Lists;
      assert WellFormed(t) by { assert Lists(t, m); }
      MoveLastIntoGap(t, d, n, t');
      GapHandles(t, d, n, t');
      GapTypes(t, m, d, n, t');
    }
  }

  /** So a listed handle survives a disconnect exactly when it names another type. */
  lemma DeleteNeedsTheType(t: Table, m: map<int, int>, handle: int, netType: int)
    requires Lists(t, m) && handle in m
    ensures handle in Handles(Deleted(t, handle, netType)) <==> netType != m[handle]
  {
    hide FirstFree, FirstHandles, WellFormed;
    DeleteRefinesMap(t, m, handle, netType);
  }

  // --- Runs --------------------------------------------------------------------------------------

  datatype Event = Event(connected: bool, handle: int, initialType: int, netType: int, apn: string, time: int)

  /** What `eventConnectionStatus` reports: the type it is given serves as both. */
  function StatusEvent(connected: bool, handle: int, netType: int, apn: string, time: int): Event {
    Event(connected, handle, netType, netType, apn, time)
  }

  /** What the data item's public constructor makes of a raw type; it passes no APN on. */
  function DataItemEvent(connected: bool, handle: int, raw: int, time: int): Event {
    Event(connected, handle, Normalized(raw), raw, "", time)
  }

  function ToEntry(e: Event): Entry<Info> {
    Entry(Reported(e.connected, e.initialType, e.netType, e.handle, e.apn), e.time)
  }

  function ToEntries(events: seq<Event>): seq<Entry<Info>> {
    seq(|events|, i requires 0 <= i < |events| => ToEntry(events[i]))
  }

  const NETWORK: Kind<Info> := Kind((s, cur) => Collated(s, cur), (a, b) => SameStatus(a, b), _ => false)

  /** The known handles connected and not yet disconnected. */
  function Live(events: seq<Event>): set<int> {
    if events == [] then {}
    else
      var before, e := Live(events[..|events| - 1]), events[|events| - 1];
      if e.handle == UNKNOWN then before
      else if e.connected then before + {e.handle}
      else before - {e.handle}
  }

  /** The stored network items after these events. */
  function Report(events: seq<Event>): seq<Entry<Info>> {
    Stored(NETWORK, ToEntries(events))
  }

  /** The table the next event will be merged with. */
  function CachedTable(events: seq<Event>): Table
    requires Report(events) != []
  {
    Report(events)[|Report(events)| - 1].item.handles
  }

  /** Whether or not the event was stored, the newest stored table is the merged one. */
  lemma TableFollowsEvent(events: seq<Event>)
    requires events != []
    ensures Report(events) != []
    ensures CachedTable(events) ==
            Merged(NETWORK, Report(events[..|events| - 1]), ToEntry(events[|events| - 1]).item).handles
  {
    var n := |events| - 1;
    assert ToEntries(events)[..n] == ToEntries(events[..n]);
    var report, s := Report(events[..n]), ToEntry(events[n]);
    var after := Appended(NETWORK, report, s);
    assert Report(events) == Trim(after);
    assert after[|after| - 1].item.handles == Merged(NETWORK, report, s.item).handles;
  }

  lemma MergedIsCollated(report: seq<Entry<Info>>, s: Info)
    requires report != []
    ensures Merged(NETWORK, report, s) == Collated(s, report[|report| - 1].item)
  {
  }

  /** What an event does to the listed handles and their types. */
  function MapStep(m: map<int, int>, e: Event): map<int, int> {
    if e.handle == UNKNOWN then m
    else if e.connected then
      if e.handle in m || |m| == 10 then m else m[e.handle := e.netType]
    else if MaskOf(e.initialType) != {} && e.handle in m && m[e.handle] == e.netType then m - {e.handle}
    else m
  }

  /** The very first event is stored as it is, a disconnect too, with its initial type. */
  function FirstMap(e: Event): map<int, int> {
    if e.handle == UNKNOWN then map[] else map[e.handle := e.initialType]
  }

  function MapRun(events: seq<Event>): map<int, int>
    requires events != []
  {
    if |events| == 1 then FirstMap(events[0])
    else MapStep(MapRun(events[..|events| - 1]), events[|events| - 1])
  }

  lemma FirstTable(e: Event)
    ensures Lists(ToEntry(e).item.handles, FirstMap(e))
  {
    var t := ToEntry(e).item.handles;
    if e.handle == UNKNOWN {
      FirstFreeIs(t, 0, 0);
    } else {
      FirstFreeIs(t, 1, 0);
      OneMoreHandle(t, 0);
    }
  }

  /** One event does to a well-formed table what `MapStep` says. */
  lemma {:induction false} EventRefinesMap(cur: Info, m: map<int, int>, e: Event)
    requires Lists(cur.handles, m)
    ensures Lists(Collated(ToEntry(e).item, cur).handles, MapStep(m, e))
  {
    hide Lists, Inserted, Deleted;
    ListedIsInMap(cur.handles, m, e.handle) by { assert Lists(cur.handles, m); }
    if e.connected {
      InsertRefinesMap(cur.handles, m, e.handle, e.netType);
    } else {
      DeleteRefinesMap(cur.handles, m, e.handle, e.netType);
    }
  }

  /**
   After any run of events whatsoever, stored or not, the cached table has no holes and no
   duplicates and lists exactly what the run means as a map.
   */
  lemma {:induction false} TableRefinesMap(events: seq<Event>)
    requires events != []
    ensures Report(events) != []
    ensures Lists(CachedTable(events), MapRun(events))
  {
    hide Lists, Report, Collated, Merged, Reported, MapStep, FirstMap;
    var before, e := events[..|events| - 1], events[|events| - 1];
    TableFollowsEvent(events);
    if before == [] {
      FirstIsUnmerged(e);
      FirstTable(e);
    } else {
      TableRefinesMap(before);
      MergedIsCollated(Report(before), ToEntry(e).item);
      EventRefinesMap(Report(before)[|Report(before)| - 1].item, MapRun(before), e);
    }
  }

  lemma FirstIsUnmerged(e: Event)
    ensures Merged(NETWORK, Report([]), ToEntry(e).item) == ToEntry(e).item
  {
  }

  // --- When the table is right ---------------------------------------------------------------------

  /** The table lists exactly the live handles. */
  ghost predicate Right(events: seq<Event>)
    requires events != []
  {
    Report(events) != [] && Handles(CachedTable(events)) == Live(events)
  }

  lemma RightMeans(events: seq<Event>)
    requires events != []
    ensures Right(events) <==> MapRun(events).Keys == Live(events)
  {
    hide FirstFree, FirstHandles, WellFormed, Report, MapRun, Live;
    TableRefinesMap(events);
  }

  /**
   The event goes wrong on a table that was right: a connect that does not fit, or a disconnect
   that has no mask bit or names another type than the table has for the handle.
   */
  predicate GoesWrong(m: map<int, int>, e: Event) {
    && e.handle != UNKNOWN
    && if e.connected then e.handle !in m && |m| == MAX_NETWORK_HANDLES
       else e.handle in m && (MaskOf(e.initialType) == {} || m[e.handle] != e.netType)
  }

  lemma StepRightIff(m: map<int, int>, live: set<int>, e: Event)
    requires m.Keys == live
    ensures (MapStep(m, e).Keys == if e.handle == UNKNOWN then live
                                   else if e.connected then live + {e.handle} else live - {e.handle})
            <==> !GoesWrong(m, e)
  {
    assert (m - {e.handle}).Keys == live - {e.handle};
    assert e.connected && e.handle !in m ==> e.handle !in live;
  }

  /** The very first event leaves the right table exactly when it is no disconnect of a known handle. */
  lemma FirstEventRightIffConnect(e: Event)
    ensures Right([e]) <==> (e.connected || e.handle == UNKNOWN)
  {
    RightMeans([e]);
    assert [e][..0] == [];
    assert Live([e][..0]) == {};
    if e.handle != UNKNOWN {
      assert e.handle in FirstMap(e);
    }
  }

  /**
   Over any run, the table is right after every event exactly when the first event is not the
   disconnect of a known handle and no later one goes wrong.
   */
  lemma {:induction false} AlwaysRightIff(events: seq<Event>)
    requires events != []
    ensures (forall n :: 0 < n <= |events| ==> Right(events[..n]))
            <==> && (events[0].connected || events[0].handle == UNKNOWN)
                 && (forall n :: 0 < n < |events| ==> !GoesWrong(MapRun(events[..n]), events[n]))
  {
    hide Right, GoesWrong, MapRun;
    var last := |events| - 1;
    assert events[..last + 1] == events;
    if last == 0 {
      FirstEventRightIffConnect(events[0]);
      assert events == [events[0]];
    } else {
      var before := events[..last];
      AlwaysRightIff(before);
      assert forall n :: 0 <= n <= last ==> before[..n] == events[..n];
      assert forall n :: 0 <= n < last ==> before[n] == events[n];
      if Right(before) {
        LastRightIff(events);
      }
    }
  }

  lemma LastRightIff(events: seq<Event>)
    requires |events| > 1 && Right(events[..|events| - 1])
    ensures Right(events) <==> !GoesWrong(MapRun(events[..|events| - 1]), events[|events| - 1])
  {
    hide Right, GoesWrong, MapStep;
    var before, e := events[..|events| - 1], events[|events| - 1];
    RightMeans(before);
    RightMeans(events);
    StepRightIff(MapRun(before), Live(before), e);
  }

  // --- Runs that keep handles to their types ---------------------------------------------------------

  /** Every handle always comes with the same raw type, and every event has a mask bit. */
  ghost predicate TypedBy(events: seq<Event>, typeOf: int -> int) {
    forall e :: e in events ==> e.netType == typeOf(e.handle) && MaskOf(e.initialType) != {}
  }

  /**
   The first event's handle, listed though it may not be live: for ever when its initial type
   is not its raw one, and after a first disconnect until an event names the handle again.
   */
  function Phantom(events: seq<Event>): set<int>
    requires events != []
  {
    var first := events[0];
    if first.handle == UNKNOWN then {}
    else if first.initialType != first.netType then {first.handle}
    else if !first.connected && forall n :: 0 < n < |events| ==> events[n].handle != first.handle then {first.handle}
    else {}
  }

  /** Whatever is live or phantom fits the table, after every event. */
  ghost predicate FitsTable(events: seq<Event>) {
    forall n :: 0 < n <= |events| ==> |Live(events[..n]) + Phantom(events[..n])| <= MAX_NETWORK_HANDLES
  }

  lemma PhantomStep(events: seq<Event>)
    requires |events| > 1
    ensures var before, e, first := events[..|events| - 1], events[|events| - 1], events[0];
            Phantom(events) == if e.handle == first.handle && first.initialType == first.netType then {}
                               else Phantom(before)
  {
    var before := events[..|events| - 1];
    assert forall n :: 0 <= n < |before| ==> before[n] == events[n];
  }

  lemma MapStepKeys(m: map<int, int>, e: Event)
    requires e.handle != UNKNOWN && MaskOf(e.initialType) != {}
    requires e.connected ==> e.handle in m || |m| < MAX_NETWORK_HANDLES
    ensures MapStep(m, e).Keys ==
            if e.connected then m.Keys + {e.handle}
            else if e.handle in m && m[e.handle] == e.netType then m.Keys - {e.handle}
            else m.Keys
  {
    assert (m - {e.handle}).Keys == m.Keys - {e.handle};
  }

  /** One more event, as far as the listed handles go. */
  lemma StepKeys(m: map<int, int>, live: set<int>, phantom: set<int>, e: Event, live': set<int>, phantom': set<int>)
    requires m.Keys == live + phantom && (phantom' == phantom || phantom' == phantom - {e.handle})
    requires e.handle != UNKNOWN && MaskOf(e.initialType) != {}
    requires live' == (if e.connected then live + {e.handle} else live - {e.handle})
    requires |live' + phantom'| <= MAX_NETWORK_HANDLES
    requires e.handle in m ==> (m[e.handle] == e.netType <==> e.handle !in phantom')
    ensures MapStep(m, e).Keys == live' + phantom'
  {
    hide MapStep;
    if e.connected {
      ConnectedKeys(m.Keys, live, phantom, e.handle, phantom');
      if e.handle !in m {
        FitsOneMore(m, e.handle, live' + phantom');
      }
    } else {
      DisconnectedKeys(m.Keys, live, phantom, e.handle, phantom');
    }
    MapStepKeys(m, e);
  }

  lemma ConnectedKeys(keys: set<int>, live: set<int>, phantom: set<int>, h: int, phantom': set<int>)
    requires keys == live + phantom && (phantom' == phantom || phantom' == phantom - {h})
    ensures live + {h} + phantom' == keys + {h}
  {
  }

  lemma DisconnectedKeys(keys: set<int>, live: set<int>, phantom: set<int>, h: int, phantom': set<int>)
    requires keys == live + phantom && (phantom' == phantom || phantom' == phantom - {h})
    ensures live - {h} + phantom' == if h in phantom' then keys else keys - {h}
  {
  }

  /** The type the table has for a handle: the initial one for a first handle never removed. */
  function TypeKept(first: Event, typeOf: int -> int, h: int): int {
    if h == first.handle && first.initialType != first.netType then first.initialType else typeOf(h)
  }

  ghost predicate TypesAre(m: map<int, int>, first: Event, typeOf: int -> int) {
    && (forall h :: h in m ==> m[h] == TypeKept(first, typeOf, h))
    && (first.handle != UNKNOWN && first.initialType != first.netType ==> first.handle in m)
  }

  lemma TypesStay(m: map<int, int>, first: Event, typeOf: int -> int, e: Event)
    requires TypesAre(m, first, typeOf)
    requires e.netType == typeOf(e.handle) && first.netType == typeOf(first.handle)
    ensures TypesAre(MapStep(m, e), first, typeOf)
  {
  }

  lemma LiveStep(events: seq<Event>)
    requires events != []
    ensures var live, e := Live(events[..|events| - 1]), events[|events| - 1];
            Live(events) == if e.handle == UNKNOWN then live
                            else if e.connected then live + {e.handle} else live - {e.handle}
  {
  }

  lemma ListedStep(events: seq<Event>, typeOf: int -> int, before: seq<Event>)
    requires |events| > 1 && before == events[..|events| - 1] && TypedBy(events, typeOf)
    requires |Live(events) + Phantom(events)| <= MAX_NETWORK_HANDLES
    requires MapRun(before).Keys == Live(before) + Phantom(before) && TypesAre(MapRun(before), events[0], typeOf)
    ensures MapRun(events).Keys == Live(events) + Phantom(events) && TypesAre(MapRun(events), events[0], typeOf)
  {
    var e, first := events[|events| - 1], events[0];
    assert e in events && first in events && before[0] == first;
    PhantomStep(events);
    PhantomIsFirst(before);
    MapRunStep(events);
    LiveStep(events);
    TypesStay(MapRun(before), first, typeOf, e);
    hide Phantom, MapRun, Live, MapStep;
    if e.handle == UNKNOWN {
      UnknownChangesNothing(MapRun(before), e);
    } else {
      StepKeys(MapRun(before), Live(before), Phantom(before), e, Live(events), Phantom(events));
    }
  }

  lemma UnknownChangesNothing(m: map<int, int>, e: Event)
    requires e.handle == UNKNOWN
    ensures MapStep(m, e) == m
  {
  }

  lemma PhantomIsFirst(events: seq<Event>)
    requires events != []
    ensures var first := events[0];
            && Phantom(events) <= {first.handle}
            && (first.handle == UNKNOWN ==> Phantom(events) == {})
            && (first.handle != UNKNOWN && first.initialType != first.netType ==> Phantom(events) == {first.handle})
  {
  }

  lemma MapRunStep(events: seq<Event>)
    requires |events| > 1
    ensures MapRun(events) == MapStep(MapRun(events[..|events| - 1]), events[|events| - 1])
  {
  }

  /** A new handle that is within a small enough set together with the old ones does fit. */
  lemma FitsOneMore(m: map<int, int>, h: int, all: set<int>)
    requires h !in m && m.Keys + {h} == all && |all| <= MAX_NETWORK_HANDLES
    ensures |m| < MAX_NETWORK_HANDLES
  {
    assert |m.Keys + {h}| == |m.Keys| + 1;
    assert |m.Keys| == |m|;
  }

  lemma {:induction false} ListedAre(events: seq<Event>, typeOf: int -> int)
    requires events != [] && TypedBy(events, typeOf) && FitsTable(events)
    ensures MapRun(events).Keys == Live(events) + Phantom(events) && TypesAre(MapRun(events), events[0], typeOf)
  {
    var before := events[..|events| - 1];
    assert events[..|events|] == events;
    if before == [] {
      assert events[0] in events && Live(events[..0]) == {};
    } else {
      assert forall x :: x in before ==> x in events;
      assert forall n :: 0 <= n <= |before| ==> before[..n] == events[..n];
      hide Phantom, MapRun, Live;
      ListedAre(before, typeOf);
      ListedStep(events, typeOf, before);
    }
  }

  /**
   After any run that keeps each handle to one raw type, always has a mask bit and fits, the
   cached table has no holes and no duplicates and lists exactly the live handles and the
   phantom; it is right exactly when the phantom, if any, happens to be live.
   */
  lemma {:induction false} TableIsLiveSetAndPhantom(events: seq<Event>, typeOf: int -> int)
    requires events != [] && TypedBy(events, typeOf) && FitsTable(events)
    ensures Report(events) != [] && WellFormed(CachedTable(events))
    ensures Handles(CachedTable(events)) == Live(events) + Phantom(events)
    ensures Right(events) <==> Phantom(events) <= Live(events)
  {
    hide FirstFree, FirstHandles, WellFormed, Report, MapRun, Live, Phantom;
    TableRefinesMap(events);
    ListedAre(events, typeOf);
  }

  /**
   So it lists exactly the handles connected and not yet disconnected, however few of the events
   are stored, when the first event connects and its item carries its raw type (or names no known
   handle), as those of `eventConnectionStatus` do.
   */
  lemma {:induction false} TableIsLiveSet(events: seq<Event>, typeOf: int -> int)
    requires events != [] && TypedBy(events, typeOf)
    requires forall n :: 0 <= n <= |events| ==> |Live(events[..n])| <= MAX_NETWORK_HANDLES
    requires var e := events[0];
             e.handle == UNKNOWN || e == StatusEvent(true, e.handle, e.netType, e.apn, e.time)
    ensures Report(events) != [] && WellFormed(CachedTable(events))
    ensures Handles(CachedTable(events)) == Live(events)
  {
    forall n | 0 < n <= |events|
      ensures |Live(events[..n]) + Phantom(events[..n])| <= MAX_NETWORK_HANDLES
    {
      assert Phantom(events[..n]) == {};
      assert Live(events[..n]) + {} == Live(events[..n]);
    }
    assert events[..|events|] == events;
    TableIsLiveSetAndPhantom(events, typeOf);
  }

  /**
   And a first handle reported through the data item's public constructor, with any raw type that
   has a mask bit, is listed for ever, whatever is disconnected later.
   */
  lemma {:induction false} FirstDataItemStaysListed(events: seq<Event>, typeOf: int -> int)
    requires events != [] && TypedBy(events, typeOf) && FitsTable(events)
    requires var e := events[0]; e.handle != UNKNOWN && e == DataItemEvent(e.connected, e.handle, e.netType, e.time)
    ensures Report(events) != [] && events[0].handle in Handles(CachedTable(events))
    ensures Right(events) <==> events[0].handle in Live(events)
  {
    var e := events[0];
    assert e in events && Normalized(e.netType) != e.netType;
    assert Phantom(events) == {e.handle};
    hide FirstFree, FirstHandles, WellFormed, Report, Live;
    TableIsLiveSetAndPhantom(events, typeOf);
  }

  /** Two events suffice: a network connected and disconnected with raw type 100 stays listed. */
  lemma RawTypeIsNeverRemoved(h: int, time: int)
    requires h != UNKNOWN
    ensures var events := [DataItemEvent(true, h, 100, time), DataItemEvent(false, h, 100, time)];
            && Live(events) == {} && Report(events) != []
            && CachedTable(events)[0] == Slot(h, 1) && !Right(events)
  {
    var events := [DataItemEvent(true, h, 100, time), DataItemEvent(false, h, 100, time)];
    assert events[..1] == [DataItemEvent(true, h, 100, time)] && events[..1][..0] == [];
    assert Live(events[..1]) == {h};
    assert MapRun(events) == map[h := 1];
    RightMeans(events);
    TableRefinesMap(events);
    OnlyEntry(CachedTable(events), h, 1);
  }

  lemma OnlyEntry(t: Table, h: int, netType: int)
    requires Lists(t, map[h := netType])
    ensures t[0] == Slot(h, netType)
  {
    ListedIsInMap(t, map[h := netType], h);
  }
}
