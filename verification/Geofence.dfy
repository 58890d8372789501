/**
 The geofence adapter's two maps, hardware id to fence and (client, session id) to hardware id,
 under commands, modem responses in any order, and engine restarts.
 */
module Geofence {

  datatype Key = Key(client: nat, id: nat)
  datatype Option = Option(breachMask: nat, responsiveness: nat, dwellTime: nat)
  datatype Area = Area(latitude: real, longitude: real, radius: real)
  datatype Fence = Fence(key: Key, option: Option, area: Area, paused: bool)

  type HwId = nat

  /** Requests sent to the modem and not answered yet. */
  datatype Request =
    | Add(key: Key, option: Option, area: Area, pauseAfter: bool)
    | Remove(hwId: HwId)          // by removeGeofencesCommand
    | StopRemove(hwId: HwId)      // by stopClientSessions
    | Pause(hwId: HwId)           // after re-adding a paused fence; its answer is ignored

  datatype State = State(
    fences: map<HwId, Fence>,
    ids: map<Key, HwId>,
    requests: multiset<Request>)

  // --- The adapter's operations --------------------------------------------------------------

  function Saved(s: State, key: Key, hwId: HwId, option: Option, area: Area): State {
    s.(fences := s.fences[hwId := Fence(key, option, area, false)],
       ids := s.ids[key := hwId])
  }

  function ItemRemoved(s: State, hwId: HwId): State {
    if hwId in s.fences && s.fences[hwId].key in s.ids
    then s.(fences := s.fences - {hwId}, ids := s.ids - {s.fences[hwId].key})
    else s
  }

  function KeysOf(s: State, client: nat): set<Key> {
    set k | k in s.ids && k.client == client
  }

  /** One removal request for each of these keys. */
  function Removals(ids: map<Key, HwId>, keys: set<Key>): multiset<Request>
    requires keys <= ids.Keys
  {
    if keys == {} then multiset{}
    else
      var k := Least(keys);
      multiset{StopRemove(ids[k])} + Removals(ids, keys - {k})
  }

  predicate Before(a: Key, b: Key) {
    a.id < b.id || (a.id == b.id && a.client <= b.client)
  }

  /** The first key in the map's own order. */
  function Least(keys: set<Key>): (k: Key)
    requires keys != {}
    ensures k in keys && forall k' :: k' in keys ==> Before(k, k')
  {
    HasLeast(keys);
    var k :| k in keys && forall k' :: k' in keys ==> Before(k, k');
    k
  }

  lemma HasLeast(keys: set<Key>)
    requires keys != {}
    ensures exists k :: k in keys && forall k' :: k' in keys ==> Before(k, k')
  {
    var x :| x in keys;
    var rest := keys - {x};
    if rest != {} {
      HasLeast(rest);
      var y :| y in rest && forall k' :: k' in rest ==> Before(y, k');
      var k := if Before(x, y) then x else y;
      assert keys == rest + {x};
      assert k in keys && forall k' :: k' in keys ==> Before(k, k');
    } else {
      assert keys == rest + {x};
      assert x in keys && forall k' :: k' in keys ==> Before(x, k');
    }
  }

  function Stopped(s: State, client: nat): State {
    s.(ids := s.ids - KeysOf(s, client),
       requests := s.requests + Removals(s.ids, KeysOf(s, client)))
  }

  /** The command that adds this fence again. */
  function Readd(f: Fence): Request {
    Add(f.key, f.option, f.area, f.paused)
  }

  function Readds(fences: map<HwId, Fence>, hwIds: set<HwId>): multiset<Request>
    requires hwIds <= fences.Keys
  {
    if hwIds == {} then multiset{}
    else
      var h := LeastId(hwIds);
      multiset{Readd(fences[h])} + Readds(fences, hwIds - {h})
  }

  function LeastId(hwIds: set<HwId>): (h: HwId)
    requires hwIds != {}
    ensures h in hwIds && forall h' :: h' in hwIds ==> h <= h'
  {
    HasLeastId(hwIds);
    var h :| h in hwIds && forall h' :: h' in hwIds ==> h <= h';
    h
  }

  lemma HasLeastId(hwIds: set<HwId>)
    requires hwIds != {}
    ensures exists h :: h in hwIds && forall h' :: h' in hwIds ==> h <= h'
  {
    var x :| x in hwIds;
    var rest := hwIds - {x};
    if rest != {} {
      HasLeastId(rest);
      var y :| y in rest && forall h' :: h' in rest ==> y <= h';
      var h := if x <= y then x else y;
      forall h' | h' in hwIds
        ensures h <= h'
      {
        assert h' == x || h' in rest;
      }
      assert h in hwIds;
    } else {
      forall h' | h' in hwIds
        ensures x <= h'
      {
        assert h' == x || h' in rest;
      }
    }
  }

  function Restarted(s: State): State {
    if s.fences == map[] then s
    else State(map[], map[], s.requests + Readds(s.fences, s.fences.Keys))
  }

  function WithPaused(s: State, hwId: HwId, paused: bool): State {
    if hwId in s.fences then s.(fences := s.fences[hwId := s.fences[hwId].(paused := paused)]) else s
  }

  function Modified(s: State, hwId: HwId, option: Option): State {
    if hwId in s.fences then s.(fences := s.fences[hwId := s.fences[hwId].(option := option)]) else s
  }

  /** The session ids of `client` among the reported hardware ids, in report order. */
  function BreachIds(fences: map<HwId, Fence>, hwIds: seq<HwId>, client: nat): seq<nat> {
    if hwIds == [] then []
    else
      var before, h := BreachIds(fences, hwIds[..|hwIds| - 1], client), hwIds[|hwIds| - 1];
      if h in fences && fences[h].key.client == client then before + [fences[h].key.id] else before
  }

  datatype Notice = Notice(client: nat, ids: seq<nat>)

  /** The clients to notify, in order; a client without a callback or without a fence gets none. */
  function Notices(fences: map<HwId, Fence>, hwIds: seq<HwId>, clients: seq<(nat, bool)>): seq<Notice> {
    if clients == [] then []
    else
      var before, c := Notices(fences, hwIds, clients[..|clients| - 1]), clients[|clients| - 1];
      var ids := BreachIds(fences, hwIds, c.0);
      if ids != [] && c.1 then before + [Notice(c.0, ids)] else before
  }

  class GeofenceAdapter {
    var mGeofences: map<HwId, Fence>
    var mGeofenceIds: map<Key, HwId>
    var requests: multiset<Request>

    ghost function View(): State
      reads this
    {
      State(mGeofences, mGeofenceIds, requests)
    }

    constructor ()
      ensures View() == State(map[], map[], multiset{})
    {
      mGeofences, mGeofenceIds, requests := map[], map[], multiset{};
    }

    method StopClientSessions(client: nat)
      modifies this
      ensures View() == Stopped(old(View()), client)
    {
      hide Removals, Least;
      ghost var was, left := View(), KeysOf(View(), client);
      var rest := mGeofenceIds.Keys;
      while rest != {}
        invariant rest <= mGeofenceIds.Keys <= was.ids.Keys && left == KeysOf(was, client) * rest
        invariant mGeofences == was.fences
        invariant mGeofenceIds == was.ids - (KeysOf(was, client) - left)
        invariant requests + Removals(was.ids, left) == was.requests + Removals(was.ids, KeysOf(was, client))
      {
        var key := Least(rest);
        if client == key.client {
          StopOne(key);
          RemovalsStep(was.ids, left, key);
          left := left - {key};
        }
        rest := rest - {key};
      }
      assert left == {} && KeysOf(was, client) - left == KeysOf(was, client);
      NoRemovals(was.ids);
    }

    /** One round of the loop: erase the entry and ask the modem to remove the fence. */
    method StopOne(key: Key)
      requires key in mGeofenceIds
      modifies this
      ensures mGeofences == old(mGeofences) && mGeofenceIds == old(mGeofenceIds) - {key}
      ensures requests == old(requests) + multiset{StopRemove(old(mGeofenceIds)[key])}
    {
      var hwId := mGeofenceIds[key];
      mGeofenceIds := mGeofenceIds - {key};
      requests := requests + multiset{StopRemove(hwId)};
    }

    method OnStopResponse(hwId: HwId, ok: bool)
      modifies this
      ensures View() == if ok then old(View()).(fences := old(View()).fences - {hwId}) else old(View())
    {
      if ok {
        if hwId in mGeofences {
          mGeofences := mGeofences - {hwId};
        }
      }
    }

    method GetHwIdFromClient(key: Key) returns (known: bool, hwId: HwId)
      ensures known <==> key in mGeofenceIds
      ensures known ==> hwId == mGeofenceIds[key]
    {
      known := key in mGeofenceIds;
      hwId := if known then mGeofenceIds[key] else 0;
    }

    method GetGeofenceKeyFromHwId(hwId: HwId) returns (known: bool, key: Key)
      ensures known <==> hwId in mGeofences
      ensures known ==> key == mGeofences[hwId].key
    {
      known := hwId in mGeofences;
      key := if known then mGeofences[hwId].key else Key(0, 0);
    }

    method RestartGeofences()
      modifies this
      ensures View() == Restarted(old(View()))
    {
      if mGeofences == map[] {
        return;
      }
      ghost var was := View();
      var oldGeofences := mGeofences;
      mGeofences := map[];
      mGeofenceIds := map[];
      var rest := oldGeofences.Keys;
      while rest != {}
        invariant rest <= oldGeofences.Keys && mGeofences == map[] && mGeofenceIds == map[]
        invariant requests + Readds(oldGeofences, rest) == was.requests + Readds(oldGeofences, oldGeofences.Keys)
      {
        var h := LeastId(rest);
        var fence := oldGeofences[h];
        requests := requests + multiset{Add(fence.key, fence.option, fence.area, fence.paused)};
        rest := rest - {h};
      }
    }

    method SaveGeofenceItem(client: nat, clientId: nat, hwId: HwId, option: Option, area: Area)
      modifies this
      ensures View() == Saved(old(View()), Key(client, clientId), hwId, option, area)
    {
      var key := Key(client, clientId);
      mGeofences := mGeofences[hwId := Fence(key, option, area, false)];
      mGeofenceIds := mGeofenceIds[key := hwId];
    }

    method RemoveGeofenceItem(hwId: HwId)
      modifies this
      ensures View() == ItemRemoved(old(View()), hwId)
    {
      var known, key := GetGeofenceKeyFromHwId(hwId);
      if known {
        if key in mGeofenceIds {
          mGeofenceIds := mGeofenceIds - {key};
          if hwId in mGeofences {
            mGeofences := mGeofences - {hwId};
          }
        }
      }
    }

    method PauseGeofenceItem(hwId: HwId)
      modifies this
      ensures View() == WithPaused(old(View()), hwId, true)
    {
      if hwId in mGeofences {
        mGeofences := mGeofences[hwId := mGeofences[hwId].(paused := true)];
      }
    }

    method ResumeGeofenceItem(hwId: HwId)
      modifies this
      ensures View() == WithPaused(old(View()), hwId, false)
    {
      if hwId in mGeofences {
        mGeofences := mGeofences[hwId := mGeofences[hwId].(paused := false)];
      }
    }

    method ModifyGeofenceItem(hwId: HwId, option: Option)
      modifies this
      ensures View() == Modified(old(View()), hwId, option)
    {
      if hwId in mGeofences {
        mGeofences := mGeofences[hwId := mGeofences[hwId].(option := option)];
      }
    }

    /** `clients` lists the registered clients with whether they have a breach callback. */
    method GeofenceBreach(hwIds: seq<HwId>, clients: seq<(nat, bool)>) returns (notices: seq<Notice>)
      ensures notices == Notices(mGeofences, hwIds, clients)
    {
      notices := [];
      for n := 0 to |clients|
        invariant notices == Notices(mGeofences, hwIds, clients[..n])
      {
        var client := clients[n].0;
        assert clients[..n + 1][..n] == clients[..n];
        var clientIds := [];
        for i := 0 to |hwIds|
          invariant clientIds == BreachIds(mGeofences, hwIds[..i], client)
        {
          assert hwIds[..i + 1][..i] == hwIds[..i];
          var known, key := GetGeofenceKeyFromHwId(hwIds[i]);
          if known {
            if key.client == client {
              clientIds := clientIds + [key.id];
            }
          }
        }
        assert hwIds[..|hwIds|] == hwIds;
        if |clientIds| > 0 && clients[n].1 {
          notices := notices + [Notice(client, clientIds)];
        }
      }
      assert clients[..|clients|] == clients;
    }
  }

  lemma NoRemovals(ids: map<Key, HwId>)
    ensures Removals(ids, {}) == multiset{}
  {
  }

  lemma RemovalsStep(ids: map<Key, HwId>, keys: set<Key>, k: Key)
    requires keys <= ids.Keys && k in keys && forall k' :: k' in keys ==> Before(k, k')
    ensures Removals(ids, keys) == multiset{StopRemove(ids[k])} + Removals(ids, keys - {k})
  {
    assert Least(keys) == k;
  }

  // --- Runs ------------------------------------------------------------------------------------

  /**
   The adapter with its environment: the next session id, and the hardware ids whose removal on
   behalf of a stopped client the modem has refused.
   */
  datatype System = System(s: State, nextId: nat, refused: set<HwId>)

  const START: System := System(State(map[], map[], multiset{}), 0, {})

  datatype Action =
    | AddCommand(client: nat, option: Option, area: Area)
    | AddResponse(request: Request, ok: bool, hwId: HwId)
    | RemoveCommand(key: Key)
    | RemoveResponse(hwId: HwId, ok: bool)
    | StopClient(client: nat)
    | StopResponse(hwId: HwId, ok: bool)
    | PauseResponse(hwId: HwId)
    | EngineUp
    | SetPaused(hwId: HwId, paused: bool)
    | Modify(hwId: HwId, option: Option)

  /** The modem hands out `h`: not while it is live, nor while a request about it is outstanding. */
  predicate FreeHwId(s: State, h: HwId) {
    h !in s.fences && Remove(h) !in s.requests && StopRemove(h) !in s.requests && Pause(h) !in s.requests
  }

  function Answered(s: State, r: Request): State {
    s.(requests := s.requests - multiset{r})
  }

  /** One step; an action that is not possible leaves everything unchanged. */
  function Next(y: System, a: Action): System {
    match a
    case AddCommand(client, option, area) =>
      var r := Add(Key(client, y.nextId), option, area, false);
      y.(s := y.s.(requests := y.s.requests + multiset{r}), nextId := y.nextId + 1)
    case AddResponse(r, ok, h) =>
      if r in y.s.requests && r.Add? && (ok ==> FreeHwId(y.s, h)) then
        var s := Answered(y.s, r);
        if !ok then y.(s := s)
        else
          var saved := Saved(s, r.key, h, r.option, r.area);
          y.(s := if r.pauseAfter then saved.(requests := saved.requests + multiset{Pause(h)}) else saved,
             refused := y.refused - {h})
      else y
    case RemoveCommand(key) =>
      if key in y.s.ids
      then y.(s := y.s.(requests := y.s.requests + multiset{Remove(y.s.ids[key])}))
      else y
    case RemoveResponse(h, ok) =>
      if Remove(h) in y.s.requests
      then y.(s := if ok then ItemRemoved(Answered(y.s, Remove(h)), h) else Answered(y.s, Remove(h)))
      else y
    case StopClient(client) => y.(s := Stopped(y.s, client))
    case StopResponse(h, ok) =>
      if StopRemove(h) in y.s.requests then
        var s := Answered(y.s, StopRemove(h));
        if ok then y.(s := s.(fences := s.fences - {h})) else y.(s := s, refused := y.refused + {h})
      else y
    case EngineUp => y.(s := Restarted(y.s))
    case PauseResponse(h) => y.(s := Answered(y.s, Pause(h)))
    case SetPaused(h, paused) => y.(s := WithPaused(y.s, h, paused))
    case Modify(h, option) => y.(s := Modified(y.s, h, option))
  }

  function Run(acts: seq<Action>): System {
    if acts == [] then START else Next(Run(acts[..|acts| - 1]), acts[|acts| - 1])
  }

  /** Every id entry points at a fence that carries that key. */
  ghost predicate PointsBack(s: State) {
    forall k :: k in s.ids ==> s.ids[k] in s.fences && s.fences[s.ids[k]].key == k
  }

  ghost predicate UniqueKeys(y: System) {
    && (forall h, h' :: h in y.s.fences && h' in y.s.fences && y.s.fences[h].key == y.s.fences[h'].key ==> h == h')
    && (forall h :: h in y.s.fences ==> y.s.fences[h].key.id < y.nextId)
  }

  /** A key whose fence is still being added appears nowhere else. */
  ghost predicate AddsAreNew(y: System) {
    && (forall r :: r in y.s.requests && r.Add? ==> r.key.id < y.nextId && y.s.requests[r] == 1)
    && (forall r, r' :: r in y.s.requests && r' in y.s.requests && r.Add? && r'.Add? && r.key == r'.key ==> r == r')
    && (forall r, h :: r in y.s.requests && r.Add? && h in y.s.fences ==> r.key != y.s.fences[h].key)
  }

  /** The fence's removal for a stopped client is outstanding or was refused. */
  predicate Orphaned(y: System, h: HwId) {
    StopRemove(h) in y.s.requests || h in y.refused
  }

  ghost predicate PointedAt(y: System) {
    && (forall h :: h in y.s.fences ==>
          (y.s.fences[h].key in y.s.ids && y.s.ids[y.s.fences[h].key] == h) || Orphaned(y, h))
    && (forall h, k :: StopRemove(h) in y.s.requests && k in y.s.ids ==> y.s.ids[k] != h)
    && (forall k :: k in y.s.ids ==> y.s.ids[k] !in y.refused)
  }

  ghost predicate Inv(y: System) {
    PointsBack(y.s) && UniqueKeys(y) && AddsAreNew(y) && PointedAt(y)
  }

  lemma RemovalsOnly(ids: map<Key, HwId>, keys: set<Key>)
    requires keys <= ids.Keys
    ensures forall r :: r in Removals(ids, keys) <==> r.StopRemove? && exists k :: k in keys && ids[k] == r.hwId
  {
    if keys != {} {
      var k := Least(keys);
      RemovalsOnly(ids, keys - {k});
      forall r
        ensures r in Removals(ids, keys) <==> r.StopRemove? && exists k :: k in keys && ids[k] == r.hwId
      {
        if r.StopRemove? && exists k' :: k' in keys && ids[k'] == r.hwId {
          var k' :| k' in keys && ids[k'] == r.hwId;
          assert k' == k || k' in keys - {k};
        }
      }
    }
  }

  /** A restart sends a request for each fence and no others. */
  lemma {:induction false} ReaddsOnly(fences: map<HwId, Fence>, hwIds: set<HwId>)
    requires hwIds <= fences.Keys
    ensures forall r :: r in Readds(fences, hwIds) <==> exists h :: h in hwIds && r == Readd(fences[h])
  {
    if hwIds != {} {
      var h := LeastId(hwIds);
      var rest := hwIds - {h};
      ReaddsOnly(fences, rest);
      hide Readds, LeastId, Readd;
      forall r
        ensures r in multiset{Readd(fences[h])} + Readds(fences, rest)
                <==> exists h' :: h' in hwIds && r == Readd(fences[h'])
      {
        if h' :| h' in hwIds && r == Readd(fences[h']) {
          assert h' == h || h' in rest;
        }
      }
      ReaddsStep(fences, hwIds);
    }
  }

  lemma ReaddsStep(fences: map<HwId, Fence>, hwIds: set<HwId>)
    requires hwIds <= fences.Keys && hwIds != {}
    ensures Readds(fences, hwIds) == multiset{Readd(fences[LeastId(hwIds)])} + Readds(fences, hwIds - {LeastId(hwIds)})
  {
  }

  /** And each of them once, when no two fences carry the same key. */
  lemma {:induction false} ReaddsOnce(fences: map<HwId, Fence>, hwIds: set<HwId>)
    requires hwIds <= fences.Keys
    requires forall h, h' :: h in hwIds && h' in hwIds && fences[h].key == fences[h'].key ==> h == h'
    ensures forall r :: r in Readds(fences, hwIds) ==> Readds(fences, hwIds)[r] == 1
  {
    if hwIds != {} {
      var h := LeastId(hwIds);
      var rest := hwIds - {h};
      ReaddsOnce(fences, rest);
      ReaddsOnly(fences, rest);
      ReaddsStep(fences, hwIds);
      hide Readds;
      assert Readd(fences[h]) !in Readds(fences, rest);
    }
  }

  lemma AddCommandKeeps(y: System, client: nat, option: Option, area: Area)
    requires Inv(y)
    ensures Inv(Next(y, AddCommand(client, option, area)))
  {
  }

  lemma AddResponseKeeps(y: System, r: Request, ok: bool, h: HwId)
    requires Inv(y)
    ensures Inv(Next(y, AddResponse(r, ok, h)))
  {
    var y' := Next(y, AddResponse(r, ok, h));
    if r in y.s.requests && r.Add? {
      if !ok {
        SameKeysKeep(y, y');
      } else if FreeHwId(y.s, h) {
        SavedPointsBack(y, r, h, y');
        SavedStaysPointedAt(y, r, h, y');
      }
    }
  }

  lemma SavedPointsBack(y: System, r: Request, h: HwId, y': System)
    requires Inv(y) && r in y.s.requests && r.Add? && FreeHwId(y.s, h)
    requires y'.s.fences == y.s.fences[h := Fence(r.key, r.option, r.area, false)]
    requires y'.s.ids == y.s.ids[r.key := h] && y'.nextId == y.nextId
    requires forall q :: q in y'.s.requests && q != Pause(h) ==>
               q in y.s.requests && q != r && y'.s.requests[q] == y.s.requests[q]
    ensures PointsBack(y'.s) && UniqueKeys(y') && AddsAreNew(y')
  {
  }

  lemma SavedStaysPointedAt(y: System, r: Request, h: HwId, y': System)
    requires Inv(y) && r in y.s.requests && r.Add? && FreeHwId(y.s, h)
    requires y'.s.fences == y.s.fences[h := Fence(r.key, r.option, r.area, false)]
    requires y'.s.ids == y.s.ids[r.key := h] && y'.refused == y.refused - {h}
    requires forall q :: StopRemove(q) in y'.s.requests <==> StopRemove(q) in y.s.requests
    ensures PointedAt(y')
  {
  }

  /** Changes that leave keys and id entries alone, add no fence and stop none, keep it all. */
  lemma SameKeysKeep(y: System, y': System)
    requires Inv(y) && y'.s.ids == y.s.ids && y'.nextId == y.nextId && y'.refused == y.refused
    requires y'.s.fences.Keys == y.s.fences.Keys
    requires forall h :: h in y'.s.fences ==> y'.s.fences[h].key == y.s.fences[h].key
    requires forall r :: r in y'.s.requests && r.Add? ==> r in y.s.requests && y'.s.requests[r] <= y.s.requests[r]
    requires forall h :: StopRemove(h) in y'.s.requests <==> StopRemove(h) in y.s.requests
    ensures Inv(y')
  {
  }

  lemma FlagChangeKeeps(y: System, a: Action)
    requires Inv(y) && (a.PauseResponse? || a.SetPaused? || a.Modify?)
    ensures Inv(Next(y, a))
  {
    hide Inv;
    SameKeysKeep(y, Next(y, a));
  }

  lemma RemoveCommandKeeps(y: System, key: Key)
    requires Inv(y)
    ensures Inv(Next(y, RemoveCommand(key)))
  {
    hide Inv;
    SameKeysKeep(y, Next(y, RemoveCommand(key)));
  }

  lemma RemoveResponseKeeps(y: System, h: HwId, ok: bool)
    requires Inv(y)
    ensures Inv(Next(y, RemoveResponse(h, ok)))
  {
    hide Inv, ItemRemoved;
    var y1 := y.(s := Answered(y.s, Remove(h)));
    SameKeysKeep(y, y1);
    if ok {
      ItemRemovedKeeps(y1, h);
    }
  }

  lemma ItemRemovedKeeps(y: System, h: HwId)
    requires Inv(y)
    ensures Inv(y.(s := ItemRemoved(y.s, h)))
  {
    if h in y.s.fences && y.s.fences[h].key in y.s.ids {
      var y' := y.(s := ItemRemoved(y.s, h));
      assert y'.s.requests == y.s.requests;
      var key := y.s.fences[h].key;
      assert forall k :: k in y'.s.ids <==> k in y.s.ids && k != key;
      assert forall k :: k in y'.s.ids ==> y'.s.ids[k] == y.s.ids[k];
      assert forall g :: g in y'.s.fences <==> g in y.s.fences && g != h;
      assert forall g :: g in y'.s.fences ==> y'.s.fences[g] == y.s.fences[g];
      FewerOfBothKeep(y, h, y');
    }
  }

  lemma FewerOfBothKeep(y: System, h: HwId, y': System)
    requires Inv(y) && h in y.s.fences && y.s.fences[h].key in y.s.ids
    requires y'.nextId == y.nextId && y'.refused == y.refused && y'.s.requests == y.s.requests
    requires forall k :: k in y'.s.ids <==> k in y.s.ids && k != y.s.fences[h].key
    requires forall k :: k in y'.s.ids ==> y'.s.ids[k] == y.s.ids[k]
    requires forall g :: g in y'.s.fences <==> g in y.s.fences && g != h
    requires forall g :: g in y'.s.fences ==> y'.s.fences[g] == y.s.fences[g]
    ensures Inv(y')
  {
    assert y.s.ids[y.s.fences[h].key] == h;
  }

  lemma StopClientKeeps(y: System, client: nat)
    requires Inv(y)
    ensures Inv(Next(y, StopClient(client)))
  {
    hide Inv, Removals;
    var keys, y' := KeysOf(y.s, client), Next(y, StopClient(client));
    RemovalsOnly(y.s.ids, keys);
    assert y'.s.requests == y.s.requests + Removals(y.s.ids, keys);
    forall r: Request | r.Add?
      ensures y'.s.requests[r] == y.s.requests[r]
    {
      assert r !in Removals(y.s.ids, keys);
    }
    FewerIdsKeep(y, keys, y');
  }

  /** Dropping id entries keeps it all, when a removal is requested for each of their fences. */
  lemma FewerIdsKeep(y: System, keys: set<Key>, y': System)
    requires Inv(y) && y'.s.ids == y.s.ids - keys && keys <= y.s.ids.Keys
    requires y'.s.fences == y.s.fences && y'.nextId == y.nextId && y'.refused == y.refused
    requires forall r: Request :: r.Add? ==> y'.s.requests[r] == y.s.requests[r]
    requires forall h :: StopRemove(h) in y'.s.requests <==>
               StopRemove(h) in y.s.requests || exists k :: k in keys && y.s.ids[k] == h
    ensures Inv(y')
  {
    forall h | h in y.s.fences && y.s.fences[h].key in keys && y.s.ids[y.s.fences[h].key] == h
      ensures StopRemove(h) in y'.s.requests
    {
    }
    forall h, k | StopRemove(h) in y'.s.requests && k in y'.s.ids
      ensures y'.s.ids[k] != h
    {
      if k' :| k' in keys && y.s.ids[k'] == h {
        assert y.s.fences[h].key == k';
      }
    }
    assert forall r :: r in y'.s.requests && r.Add? ==> r in y.s.requests;
  }

  lemma StopResponseKeeps(y: System, h: HwId, ok: bool)
    requires Inv(y)
    ensures Inv(Next(y, StopResponse(h, ok)))
  {
    if StopRemove(h) in y.s.requests {
      var y' := Next(y, StopResponse(h, ok));
      assert y'.s.ids == y.s.ids && forall k :: k in y.s.ids ==> y.s.ids[k] != h;
      StopAnsweredKeeps(y, h, ok, y');
    }
  }

  /** A fence about to be removed for a stopped client is pointed at by nobody. */
  lemma StopAnsweredKeeps(y: System, h: HwId, ok: bool, y': System)
    requires Inv(y) && StopRemove(h) in y.s.requests && forall k :: k in y.s.ids ==> y.s.ids[k] != h
    requires y'.s.ids == y.s.ids && y'.nextId == y.nextId
    requires y'.s.fences == if ok then y.s.fences - {h} else y.s.fences
    requires y'.refused == if ok then y.refused else y.refused + {h}
    requires y'.s.requests == y.s.requests - multiset{StopRemove(h)}
    ensures Inv(y')
  {
    assert forall r :: r != StopRemove(h) ==> y'.s.requests[r] == y.s.requests[r];
    StopAnsweredPointsBack(y, h, y');
    StopAnsweredPointedAt(y, h, ok, y');
  }

  lemma StopAnsweredPointsBack(y: System, h: HwId, y': System)
    requires Inv(y) && forall k :: k in y.s.ids ==> y.s.ids[k] != h
    requires y'.s.ids == y.s.ids && y'.nextId == y.nextId
    requires y'.s.fences == y.s.fences - {h} || y'.s.fences == y.s.fences
    requires forall r :: r != StopRemove(h) ==> y'.s.requests[r] == y.s.requests[r]
    ensures PointsBack(y'.s) && UniqueKeys(y') && AddsAreNew(y')
  {
    hide PointedAt;
    assert forall r :: r in y'.s.requests && r.Add? ==> r in y.s.requests;
  }

  lemma StopAnsweredPointedAt(y: System, h: HwId, ok: bool, y': System)
    requires Inv(y) && forall k :: k in y.s.ids ==> y.s.ids[k] != h
    requires y'.s.ids == y.s.ids
    requires y'.s.fences == if ok then y.s.fences - {h} else y.s.fences
    requires y'.refused == if ok then y.refused else y.refused + {h}
    requires forall r :: r != StopRemove(h) ==> y'.s.requests[r] == y.s.requests[r]
    ensures PointedAt(y')
  {
    hide PointsBack, UniqueKeys, AddsAreNew;
    assert forall g :: StopRemove(g) in y'.s.requests && g != h ==> StopRemove(g) in y.s.requests;
    forall g | g in y'.s.fences && g != h && Orphaned(y, g)
      ensures Orphaned(y', g)
    {
      assert y'.s.requests[StopRemove(g)] == y.s.requests[StopRemove(g)];
    }
  }

  lemma EngineUpKeeps(y: System)
    requires Inv(y)
    ensures Inv(Next(y, EngineUp))
  {
    if y.s.fences != map[] {
      ReaddsOnly(y.s.fences, y.s.fences.Keys);
      ReaddsOnce(y.s.fences, y.s.fences.Keys);
      hide Readds, PointedAt, PointsBack;
      RestartKeeps(y, Readds(y.s.fences, y.s.fences.Keys), Next(y, EngineUp));
    }
  }

  /** The keys of the fences being added again are those of no other request. */
  lemma RestartKeeps(y: System, adds: multiset<Request>, y': System)
    requires Inv(y) && y'.s == State(map[], map[], y.s.requests + adds) && y'.nextId == y.nextId
    requires forall r :: r in adds ==> adds[r] == 1 && exists h :: h in y.s.fences && r == Readd(y.s.fences[h])
    ensures Inv(y')
  {
    forall r | r in adds
      ensures r.Add? && r.key.id < y.nextId && r !in y.s.requests
      ensures forall q :: q in y.s.requests && q.Add? ==> q.key != r.key
      ensures forall q :: q in adds && q.key == r.key ==> q == r
    {
      var h :| h in y.s.fences && r == Readd(y.s.fences[h]);
      forall q | q in adds && q.Add? && q.key == r.key
        ensures q == r
      {
        var g :| g in y.s.fences && q == Readd(y.s.fences[g]);
        assert g == h;
      }
    }
  }

  lemma NextKeepsInv(y: System, a: Action)
    requires Inv(y)
    ensures Inv(Next(y, a))
  {
    match a
    case AddCommand(client, option, area) => AddCommandKeeps(y, client, option, area);
    case AddResponse(r, ok, h) => AddResponseKeeps(y, r, ok, h);
    case RemoveCommand(key) => RemoveCommandKeeps(y, key);
    case RemoveResponse(h, ok) => RemoveResponseKeeps(y, h, ok);
    case StopClient(client) => StopClientKeeps(y, client);
    case StopResponse(h, ok) => StopResponseKeeps(y, h, ok);
    case EngineUp => EngineUpKeeps(y);
    case _ => FlagChangeKeeps(y, a);
  }

  lemma {:induction false} ReachableInv(acts: seq<Action>)
    ensures Inv(Run(acts))
  {
    if acts != [] {
      ReachableInv(acts[..|acts| - 1]);
      NextKeepsInv(Run(acts[..|acts| - 1]), acts[|acts| - 1]);
    }
  }

  /** The two maps are each other's inverse. */
  ghost predicate Inverse(s: State) {
    && PointsBack(s)
    && forall h :: h in s.fences ==> s.fences[h].key in s.ids && s.ids[s.fences[h].key] == h
  }

  /**
   In every run every id entry points at a fence carrying its key, and a fence nobody points at
   is one whose removal for a stopped client is outstanding or refused. The maps are full
   inverses exactly when there is no such fence.
   */
  lemma {:induction false} MapsAreInverses(acts: seq<Action>)
    ensures var y := Run(acts);
            && PointsBack(y.s)
            && ((forall h :: h in y.s.fences ==> !Orphaned(y, h)) <==> Inverse(y.s))
  {
    ReachableInv(acts);
  }

  // --- Stopped clients -----------------------------------------------------------------------

  function RunFrom(y: System, acts: seq<Action>): System {
    if acts == [] then y else Next(RunFrom(y, acts[..|acts| - 1]), acts[|acts| - 1])
  }

  /** An add for the client is outstanding. */
  ghost predicate AddPending(s: State, client: nat) {
    exists r :: r in s.requests && r.Add? && r.key.client == client
  }

  ghost predicate HasFence(s: State, client: nat) {
    exists h :: h in s.fences && s.fences[h].key.client == client
  }

  predicate NoNewAdds(acts: seq<Action>, client: nat) {
    forall a :: a in acts ==> !(a.AddCommand? && a.client == client)
  }

  /** Some engine restart of the run finds a fence of the client whose removal was never done. */
  ghost predicate RestartFindsOrphan(y: System, acts: seq<Action>, client: nat) {
    exists n, h :: 0 <= n < |acts| && acts[n].EngineUp? && IsOrphan(RunFrom(y, acts[..n]), h, client)
  }

  ghost predicate IsOrphan(y: System, h: HwId, client: nat) {
    h in y.s.fences && y.s.fences[h].key.client == client && Orphaned(y, h)
  }

  lemma OrphanFoundEarlier(y: System, acts: seq<Action>, client: nat, m: nat)
    requires m <= |acts| && RestartFindsOrphan(y, acts[..m], client)
    ensures RestartFindsOrphan(y, acts, client)
  {
    var n, h :| 0 <= n < m && acts[..m][n].EngineUp? && IsOrphan(RunFrom(y, acts[..m][..n]), h, client);
    assert acts[n].EngineUp? && acts[..m][..n] == acts[..n];
  }

  /** The client has neither an entry nor the prospect of one. */
  ghost predicate Gone(s: State, client: nat) {
    && (forall k :: k in s.ids ==> k.client != client)
    && (forall r :: r in s.requests && r.Add? ==> r.key.client != client)
  }

  lemma GoneMeans(s: State, client: nat)
    ensures Gone(s, client) <==> KeysOf(s, client) == {} && !AddPending(s, client)
  {
    assert forall k :: k in s.ids && k.client == client <==> k in KeysOf(s, client);
  }

  /** Only a restart can bring a client back that is gone. */
  lemma GoneStep(y: System, a: Action, client: nat)
    requires Inv(y) && Gone(y.s, client)
    requires !(a.AddCommand? && a.client == client)
    requires !(a.EngineUp? && exists h :: IsOrphan(y, h, client))
    ensures Gone(Next(y, a).s, client)
  {
    match a
    case EngineUp => GoneAcrossRestart(y, client);
    case StopClient(c) => GoneAcrossStop(y.s, c, client);
    case AddResponse(r, ok, h) => GoneAcrossResponse(y, r, ok, h, client);
    case _ => GoneOtherwise(y, a, client);
  }

  lemma GoneAcrossRestart(y: System, client: nat)
    requires Inv(y) && Gone(y.s, client) && forall h :: !IsOrphan(y, h, client)
    ensures Gone(Restarted(y.s), client)
  {
    NoEntryMeansOrphan(y, client);
    ReaddsOnly(y.s.fences, y.s.fences.Keys);
    hide Readds, Inv;
  }

  lemma GoneAcrossStop(s: State, c: nat, client: nat)
    requires Gone(s, client)
    ensures Gone(Stopped(s, c), client)
  {
    RemovalsOnly(s.ids, KeysOf(s, c));
    hide Removals;
  }

  lemma GoneAcrossResponse(y: System, r: Request, ok: bool, h: HwId, client: nat)
    requires Gone(y.s, client)
    ensures Gone(Next(y, AddResponse(r, ok, h)).s, client)
  {
    hide FreeHwId;
    var s' := Next(y, AddResponse(r, ok, h)).s;
    assert forall q :: q in s'.requests && q.Add? ==> q in y.s.requests;
    assert forall k :: k in s'.ids ==> k in y.s.ids || (r in y.s.requests && r.Add? && k == r.key);
  }

  lemma GoneOtherwise(y: System, a: Action, client: nat)
    requires Gone(y.s, client) && !a.EngineUp? && !a.StopClient? && !a.AddResponse?
    requires !(a.AddCommand? && a.client == client)
    ensures Gone(Next(y, a).s, client)
  {
    OthersGiveNoEntry(y, a);
    OthersAddNothing(y, a, client);
    hide Next;
  }

  lemma OthersGiveNoEntry(y: System, a: Action)
    requires !a.EngineUp? && !a.StopClient? && !a.AddResponse?
    ensures forall k :: k in Next(y, a).s.ids ==> k in y.s.ids
  {
  }

  lemma OthersAddNothing(y: System, a: Action, client: nat)
    requires !a.EngineUp? && !a.StopClient? && !a.AddResponse? && !(a.AddCommand? && a.client == client)
    ensures forall r :: r in Next(y, a).s.requests && r.Add? ==> r in y.s.requests || r.key.client != client
  {
  }

  lemma NoEntryMeansOrphan(y: System, client: nat)
    requires Inv(y) && Gone(y.s, client)
    ensures forall h :: h in y.s.fences && y.s.fences[h].key.client == client ==> IsOrphan(y, h, client)
  {
    forall h | h in y.s.fences && y.s.fences[h].key.client == client
      ensures IsOrphan(y, h, client)
    {
      assert y.s.fences[h].key !in y.s.ids;
    }
  }

  lemma {:induction false} StaysGone(y: System, acts: seq<Action>, client: nat)
    requires Inv(y) && Gone(y.s, client) && NoNewAdds(acts, client) && !RestartFindsOrphan(y, acts, client)
    ensures Inv(RunFrom(y, acts)) && Gone(RunFrom(y, acts).s, client)
  {
    if acts != [] {
      var before, a := acts[..|acts| - 1], acts[|acts| - 1];
      if RestartFindsOrphan(y, before, client) {
        OrphanFoundEarlier(y, acts, client, |before|);
      }
      assert forall x :: x in before ==> x in acts;
      StaysGone(y, before, client);
      assert a in acts;
      hide Inv, Gone;
      GoneStep(RunFrom(y, before), a, client);
      NextKeepsInv(RunFrom(y, before), a);
    }
  }

  /**
   However the run goes on after a client has been stopped, as long as it adds nothing itself: at
   some point it has an entry again, or an add outstanding, exactly when it had one outstanding
   when it was stopped, or a restart comes while the removal of one of its fences is outstanding
   or refused.
   */
  lemma ComesBackIff(y: System, acts: seq<Action>, client: nat)
    requires Inv(y) && KeysOf(y.s, client) == {} && NoNewAdds(acts, client)
    ensures (exists n :: 0 <= n <= |acts| && !Gone(RunFrom(y, acts[..n]).s, client))
            <==> AddPending(y.s, client) || RestartFindsOrphan(y, acts, client)
  {
    GoneMeans(y.s, client);
    assert RunFrom(y, acts[..0]) == y;
    hide Inv, Gone, AddPending;
    if RestartFindsOrphan(y, acts, client) {
      var n := BackByRestart(y, acts, client);
    } else if !AddPending(y.s, client) {
      hide RestartFindsOrphan;
      forall n | 0 <= n <= |acts|
        ensures Gone(RunFrom(y, acts[..n]).s, client)
      {
        if RestartFindsOrphan(y, acts[..n], client) {
          OrphanFoundEarlier(y, acts, client, n);
        }
        StaysGone(y, acts[..n], client);
      }
    }
  }

  lemma BackByRestart(y: System, acts: seq<Action>, client: nat) returns (n: nat)
    requires RestartFindsOrphan(y, acts, client)
    ensures n <= |acts| && !Gone(RunFrom(y, acts[..n]).s, client)
  {
    hide Gone, Orphaned, Next, Restarted, Readd;
    var m, h :| 0 <= m < |acts| && acts[m].EngineUp? && IsOrphan(RunFrom(y, acts[..m]), h, client);
    n := m + 1;
    assert acts[..n][..m] == acts[..m];
    RestartReadds(RunFrom(y, acts[..m]).s, h, client);
    EngineUpRestarts(RunFrom(y, acts[..m]));
  }

  lemma EngineUpRestarts(y: System)
    ensures Next(y, EngineUp).s == Restarted(y.s)
  {
  }

  lemma RestartReadds(s: State, h: HwId, client: nat)
    requires h in s.fences && s.fences[h].key.client == client
    ensures Readd(s.fences[h]) in Restarted(s).requests && !Gone(Restarted(s), client)
  {
    ReaddsOnly(s.fences, s.fences.Keys);
    hide Readds;
    assert Readd(s.fences[h]) in Restarted(s).requests;
  }

  function HwIdOf(r: Request): HwId {
    if r.Add? then 0 else r.hwId
  }

  lemma FreeIdExists(s: State) returns (h: HwId)
    ensures FreeHwId(s, h)
  {
    var used := s.fences.Keys + set r | r in s.requests :: HwIdOf(r);
    h := Above(used);
    forall r | r in s.requests
      ensures HwIdOf(r) in used
    {
    }
    assert HwIdOf(Remove(h)) == HwIdOf(StopRemove(h)) == HwIdOf(Pause(h)) == h;
  }

  lemma Above(used: set<nat>) returns (h: nat)
    ensures h !in used
    ensures forall u :: u in used ==> u < h
  {
    if u :| u in used {
      var rest := Above(used - {u});
      h := if u < rest then rest else u + 1;
      assert forall x :: x in used ==> x == u || x in used - {u};
    } else {
      h := 0;
    }
  }

  /** The modem grants an outstanding add. */
  lemma {:induction false} GrantedAddReturns(y: System, r: Request) returns (a: Action)
    requires r in y.s.requests && r.Add?
    ensures a.AddResponse? && r.key in Next(y, a).s.ids
  {
    var h := FreeIdExists(y.s);
    a := AddResponse(r, true, h);
  }

  lemma TwoSteps(y: System, a: Action, b: Action)
    ensures RunFrom(y, [a]) == Next(y, a) && RunFrom(y, [a, b]) == Next(Next(y, a), b)
  {
    assert [a, b][..1] == [a] && [a][..0] == [];
  }

  /** The state a client is left in when it is stopped after this run. */
  function StoppedAfter(before: seq<Action>, client: nat): System {
    Next(Run(before), StopClient(client))
  }

  lemma {:induction false} StopLeaves(before: seq<Action>, client: nat)
    ensures var y, y' := Run(before), StoppedAfter(before, client);
            && Inv(y') && KeysOf(y'.s, client) == {}
            && (AddPending(y'.s, client) <==> AddPending(y.s, client))
            && (HasFence(y'.s, client) <==> HasFence(y.s, client))
  {
    var y := Run(before);
    ReachableInv(before);
    NextKeepsInv(y, StopClient(client));
    hide Inv, Run;
    StoppedLeaves(y.s, client);
  }

  lemma StoppedLeaves(s: State, client: nat)
    ensures KeysOf(Stopped(s, client), client) == {}
    ensures forall r: Request :: r.Add? ==> (r in Stopped(s, client).requests <==> r in s.requests)
  {
    RemovalsOnly(s.ids, KeysOf(s, client));
    hide Removals;
  }

  /**
   Stopping a client takes all its entries away, but for good exactly when it had no fence and no
   add outstanding: otherwise some continuation gives it an entry without any command of its own.
   */
  lemma {:induction false} StoppedClientReturnsIff(before: seq<Action>, client: nat)
    ensures KeysOf(StoppedAfter(before, client).s, client) == {}
    ensures (exists acts :: NoNewAdds(acts, client)
                            && KeysOf(RunFrom(StoppedAfter(before, client), acts).s, client) != {})
            <==> HasFence(Run(before).s, client) || AddPending(Run(before).s, client)
  {
    var y := StoppedAfter(before, client);
    StopLeaves(before, client);
    if AddPending(y.s, client) {
      var acts := PendingReturns(y, client);
    } else if HasFence(y.s, client) {
      var acts := FencedReturns(y, client);
    } else {
      GoneMeans(y.s, client);
      forall acts | NoNewAdds(acts, client)
        ensures KeysOf(RunFrom(y, acts).s, client) == {}
      {
        NoFenceStays(y, acts, client);
        GoneMeans(RunFrom(y, acts).s, client);
      }
    }
  }

  /** A run that gets there: one fence added and granted, its client stopped, and it comes back. */
  lemma StoppedClientReturns(client: nat, option: Option, area: Area, h: HwId)
    ensures var before := [AddCommand(client, option, area),
                           AddResponse(Add(Key(client, 0), option, area, false), true, h)];
            && HasFence(Run(before).s, client)
            && exists acts :: NoNewAdds(acts, client)
                              && KeysOf(RunFrom(StoppedAfter(before, client), acts).s, client) != {}
  {
    var r := Add(Key(client, 0), option, area, false);
    var before := [AddCommand(client, option, area), AddResponse(r, true, h)];
    assert before[..1] == [AddCommand(client, option, area)] && before[..1][..0] == [];
    var y1 := Next(START, AddCommand(client, option, area));
    assert Run(before[..1]) == y1 && r in y1.s.requests && FreeHwId(y1.s, h);
    assert h in Run(before).s.fences && Run(before).s.fences[h].key.client == client;
    StoppedClientReturnsIff(before, client);
  }

  lemma PendingReturns(y: System, client: nat) returns (acts: seq<Action>)
    requires AddPending(y.s, client)
    ensures NoNewAdds(acts, client) && KeysOf(RunFrom(y, acts).s, client) != {}
  {
    var r :| r in y.s.requests && r.Add? && r.key.client == client;
    var a := GrantedAddReturns(y, r);
    acts := [a];
    TwoSteps(y, a, a);
    assert r.key in KeysOf(RunFrom(y, acts).s, client);
  }

  lemma FencedReturns(y: System, client: nat) returns (acts: seq<Action>)
    requires HasFence(y.s, client)
    ensures NoNewAdds(acts, client) && KeysOf(RunFrom(y, acts).s, client) != {}
  {
    var h :| h in y.s.fences && y.s.fences[h].key.client == client;
    var r := Readd(y.s.fences[h]);
    RestartReadds(y.s, h, client);
    hide Restarted, FreeHwId;
    var a := GrantedAddReturns(Next(y, EngineUp), r);
    acts := [EngineUp, a];
    TwoSteps(y, EngineUp, a);
    assert r.key in KeysOf(RunFrom(y, acts).s, client);
  }

  /** Without fences and outstanding adds of the client none ever appear. */
  lemma {:induction false} NoFenceStays(y: System, acts: seq<Action>, client: nat)
    requires Inv(y) && Gone(y.s, client) && !HasFence(y.s, client) && NoNewAdds(acts, client)
    ensures var y' := RunFrom(y, acts); Inv(y') && Gone(y'.s, client) && !HasFence(y'.s, client)
  {
    if acts != [] {
      var before, a := acts[..|acts| - 1], acts[|acts| - 1];
      assert forall x :: x in before ==> x in acts;
      NoFenceStays(y, before, client);
      assert a in acts;
      var prev := RunFrom(y, before);
      assert forall h :: !IsOrphan(prev, h, client);
      hide Inv, Gone, HasFence;
      NoFenceStep(prev, a, client);
      NextKeepsInv(prev, a);
      GoneStep(prev, a, client);
    }
  }

  lemma NoFenceStep(y: System, a: Action, client: nat)
    requires Gone(y.s, client) && !HasFence(y.s, client)
    ensures !HasFence(Next(y, a).s, client)
  {
    if a.AddResponse? {
      hide FreeHwId;
    } else {
      FencesKeepKeys(y, a);
      hide Next;
    }
  }

  lemma FencesKeepKeys(y: System, a: Action)
    requires !a.AddResponse?
    ensures forall h :: h in Next(y, a).s.fences ==> h in y.s.fences && Next(y, a).s.fences[h].key == y.s.fences[h].key
  {
    hide Removals, Readds;
  }

  // --- Breach reports ------------------------------------------------------------------------

  /** The reported hardware ids that `client` owns, in report order. */
  function OwnedIds(fences: map<HwId, Fence>, hwIds: seq<HwId>, client: nat): seq<HwId> {
    if hwIds == [] then []
    else
      var before, h := OwnedIds(fences, hwIds[..|hwIds| - 1], client), hwIds[|hwIds| - 1];
      if h in fences && fences[h].key.client == client then before + [h] else before
  }

  /**
   In any state a run can reach: what a client is told are its own session ids, one per reported
   fence of its own and in report order. Each leads back through the id map to the very hardware
   id that was reported, exactly when that fence is not orphaned.
   */
  lemma {:induction false} BreachLeadsBack(y: System, hwIds: seq<HwId>, client: nat)
    requires Inv(y)
    ensures var own, ids := OwnedIds(y.s.fences, hwIds, client), BreachIds(y.s.fences, hwIds, client);
            && |ids| == |own|
            && forall j :: 0 <= j < |ids| ==>
                 && own[j] in y.s.fences && y.s.fences[own[j]].key == Key(client, ids[j])
                 && (LeadsTo(y.s, Key(client, ids[j]), own[j]) <==> !Orphaned(y, own[j]))
  {
    if hwIds != [] {
      BreachLeadsBack(y, hwIds[..|hwIds| - 1], client);
      var h := hwIds[|hwIds| - 1];
      if h in y.s.fences && y.s.fences[h].key.client == client {
        LeadsToIff(y, h);
      }
    }
  }

  predicate LeadsTo(s: State, key: Key, h: HwId) {
    key in s.ids && s.ids[key] == h
  }

  lemma LeadsToIff(y: System, h: HwId)
    requires Inv(y) && h in y.s.fences
    ensures LeadsTo(y.s, y.s.fences[h].key, h) <==> !Orphaned(y, h)
  {
  }

  function Known(fences: map<HwId, Fence>, hwIds: seq<HwId>): nat {
    if hwIds == [] then 0
    else Known(fences, hwIds[..|hwIds| - 1]) + if hwIds[|hwIds| - 1] in fences then 1 else 0
  }

  function TotalOwned(fences: map<HwId, Fence>, hwIds: seq<HwId>, clients: seq<nat>): nat {
    if clients == [] then 0
    else TotalOwned(fences, hwIds, clients[..|clients| - 1]) + |OwnedIds(fences, hwIds, clients[|clients| - 1])|
  }

  /** Among distinct clients, one report goes to one client at most. */
  lemma {:induction false} OneMoreReport(fences: map<HwId, Fence>, hwIds: seq<HwId>, clients: seq<nat>)
    requires hwIds != []
    requires forall i, j :: 0 <= i < j < |clients| ==> clients[i] != clients[j]
    ensures var h := hwIds[|hwIds| - 1];
            TotalOwned(fences, hwIds, clients) == TotalOwned(fences, hwIds[..|hwIds| - 1], clients)
              + if h in fences && fences[h].key.client in clients then 1 else 0
  {
    if clients != [] {
      OneMoreReport(fences, hwIds, clients[..|clients| - 1]);
      var last := clients[|clients| - 1];
      assert forall c :: c in clients <==> c in clients[..|clients| - 1] || c == last;
    }
  }

  /** Every known reported id goes to exactly one of the owners; unknown ids go to nobody. */
  lemma {:induction false} EveryKnownReportDelivered(fences: map<HwId, Fence>, hwIds: seq<HwId>, clients: seq<nat>)
    requires forall i, j :: 0 <= i < j < |clients| ==> clients[i] != clients[j]
    requires forall h :: h in fences ==> fences[h].key.client in clients
    ensures TotalOwned(fences, hwIds, clients) == Known(fences, hwIds)
  {
    if hwIds == [] {
      NothingOwned(fences, clients);
    } else {
      EveryKnownReportDelivered(fences, hwIds[..|hwIds| - 1], clients);
      OneMoreReport(fences, hwIds, clients);
    }
  }

  lemma {:induction false} NothingOwned(fences: map<HwId, Fence>, clients: seq<nat>)
    ensures TotalOwned(fences, [], clients) == 0
  {
    if clients != [] {
      NothingOwned(fences, clients[..|clients| - 1]);
    }
  }

  /** A notice goes to each client that has a callback and owns a reported fence, and says what it owns. */
  lemma {:induction false} NoticesGoToOwners(fences: map<HwId, Fence>, hwIds: seq<HwId>, clients: seq<(nat, bool)>)
    ensures forall n :: n in Notices(fences, hwIds, clients) <==>
              (n.client, true) in clients && n.ids == BreachIds(fences, hwIds, n.client) && n.ids != []
  {
    if clients != [] {
      var init, last := clients[..|clients| - 1], clients[|clients| - 1];
      NoticesGoToOwners(fences, hwIds, init);
      assert forall c :: c in clients <==> c in init || c == last;
    }
  }

  /** Of any two notices the first goes to a client listed before the other's. */
  ghost predicate InOrderOf(notices: seq<Notice>, clients: seq<(nat, bool)>) {
    forall i, j :: 0 <= i < j < |notices| ==> ListedBefore(clients, notices[i].client, notices[j].client)
  }

  ghost predicate ListedBefore(clients: seq<(nat, bool)>, a: nat, b: nat) {
    exists p, q :: 0 <= p < q < |clients| && clients[p].0 == a && clients[q].0 == b
  }

  /** Notices go out in the order of the clients, and so none is told twice unless listed twice. */
  lemma {:induction false} NoticesAreInOrder(fences: map<HwId, Fence>, hwIds: seq<HwId>, clients: seq<(nat, bool)>)
    ensures InOrderOf(Notices(fences, hwIds, clients), clients)
  {
    if clients != [] {
      var init, last := clients[..|clients| - 1], clients[|clients| - 1];
      var before, all := Notices(fences, hwIds, init), Notices(fences, hwIds, clients);
      NoticesAreInOrder(fences, hwIds, init);
      NoticesGoToOwners(fences, hwIds, init);
      assert all == before || all == before + [Notice(last.0, BreachIds(fences, hwIds, last.0))];
      hide Notices;
      forall i, j | 0 <= i < j < |all|
        ensures ListedBefore(clients, all[i].client, all[j].client)
      {
        assert all[i] == before[i] && before[i] in before;
        if j < |before| {
          assert all[j] == before[j] && ListedBefore(init, before[i].client, before[j].client);
          var p, q :| 0 <= p < q < |init| && init[p].0 == all[i].client && init[q].0 == all[j].client;
          assert clients[p] == init[p] && clients[q] == init[q];
        } else {
          var p :| 0 <= p < |init| && init[p] == (all[i].client, true);
          assert clients[p] == init[p] && clients[|init|] == last;
        }
      }
    }
  }
}
