/**
 What clients want of their geofences, and that restarts of the engine ask for exactly that: the
 option last set, the area first given, and a pause where one is remembered.
 */
module GeofenceIntent {
  import opened Geofence

  datatype Intent = Intent(option: Option, area: Area, paused: bool)

  /** What is wanted after an action, key by key: only clients' own commands change it. */
  function Wanted(want: map<Key, Intent>, y: System, a: Action): map<Key, Intent> {
    match a
    case AddCommand(client, option, area) => want[Key(client, y.nextId) := Intent(option, area, false)]
    case Modify(h, option) =>
      if h in y.s.fences && y.s.fences[h].key in want
      then want[y.s.fences[h].key := want[y.s.fences[h].key].(option := option)] else want
    case SetPaused(h, paused) =>
      if h in y.s.fences && y.s.fences[h].key in want
      then want[y.s.fences[h].key := want[y.s.fences[h].key].(paused := paused)] else want
    case _ => want
  }

  function Intended(acts: seq<Action>): map<Key, Intent> {
    if acts == [] then map[]
    else Wanted(Intended(acts[..|acts| - 1]), Run(acts[..|acts| - 1]), acts[|acts| - 1])
  }

  predicate Is(want: map<Key, Intent>, key: Key, option: Option, area: Area) {
    key in want && want[key].option == option && want[key].area == area
  }

  /** Every fence, and every add outstanding, has the option and the area wanted under its key. */
  ghost predicate Carries(y: System, want: map<Key, Intent>) {
    && (forall h :: h in y.s.fences ==> Is(want, y.s.fences[h].key, y.s.fences[h].option, y.s.fences[h].area))
    && (forall r :: r in y.s.requests && r.Add? ==> Is(want, r.key, r.option, r.area))
  }

  lemma {:induction false} ReaddsCount(fences: map<HwId, Fence>, hwIds: set<HwId>)
    requires hwIds <= fences.Keys
    ensures |Readds(fences, hwIds)| == |hwIds|
  {
    if hwIds != {} {
      ReaddsCount(fences, hwIds - {LeastId(hwIds)});
      ReaddsStep(fences, hwIds);
    }
  }

  lemma {:induction false} RemovalsCount(ids: map<Key, HwId>, keys: set<Key>)
    requires keys <= ids.Keys
    ensures |Removals(ids, keys)| == |keys|
  {
    if keys == {} {
      NoRemovals(ids);
    } else {
      RemovalsCount(ids, keys - {Least(keys)});
      RemovalsStep(ids, keys, Least(keys));
    }
  }

  /** Removing a fence removes it and its entry, if the entry is still there; everything else stays. */
  lemma RemovalTakesBoth(s: State, h: HwId)
    ensures var s', removed := ItemRemoved(s, h), h in s.fences && s.fences[h].key in s.ids;
            && s'.requests == s.requests
            && (forall g :: g in s'.fences <==> g in s.fences && !(removed && g == h))
            && (forall g :: g in s'.fences ==> s'.fences[g] == s.fences[g])
            && (forall k :: k in s'.ids <==> k in s.ids && !(removed && k == s.fences[h].key))
            && (forall k :: k in s'.ids ==> s'.ids[k] == s.ids[k])
  {
  }

  /** Stopping a client takes away its entries, and asks for one removal for each of them. */
  lemma StopAsksForEach(s: State, client: nat)
    ensures var s' := Stopped(s, client);
            && s'.fences == s.fences
            && (forall k :: k in s'.ids <==> k in s.ids && k.client != client)
            && (forall k :: k in s'.ids ==> s'.ids[k] == s.ids[k])
            && s.requests <= s'.requests && |s'.requests| == |s.requests| + |s.ids| - |s'.ids|
            && (forall k :: k in s.ids && k.client == client ==> StopRemove(s.ids[k]) in s'.requests)
  {
    var keys, s' := KeysOf(s, client), Stopped(s, client);
    RemovalsOnly(s.ids, keys);
    RemovalsCount(s.ids, keys);
    hide Removals;
    assert s'.ids.Keys == s.ids.Keys - keys && keys <= s.ids.Keys;
    assert |s'.ids.Keys| == |s.ids.Keys| - |keys|;
    assert |s'.ids.Keys| == |s'.ids| && |s.ids.Keys| == |s.ids|;
  }

  /** The request is to add this very fence. */
  predicate Asks(r: Request, f: Fence) {
    && r.Add? && r.key == f.key && r.pauseAfter == f.paused
    && r.option.breachMask == f.option.breachMask && r.option.responsiveness == f.option.responsiveness
    && r.option.dwellTime == f.option.dwellTime
    && r.area.latitude == f.area.latitude && r.area.longitude == f.area.longitude && r.area.radius == f.area.radius
  }

  lemma ReaddAsks(f: Fence)
    ensures Asks(Readd(f), f)
  {
  }

  /**
   A restart forgets all fences and asks for each of them once, exactly as it was, with the pause
   to follow if it was paused; it asks for nothing else and takes back no request.
   */
  lemma RestartAsksForEach(s: State)
    ensures var s' := Restarted(s);
            && s'.fences == map[] && s'.ids == (if s.fences == map[] then s.ids else map[])
            && s.requests <= s'.requests && |s'.requests| == |s.requests| + |s.fences|
            && (forall h :: h in s.fences ==> exists r :: r in s'.requests && Asks(r, s.fences[h]))
            && (forall r :: r in s'.requests ==> r in s.requests || exists h :: h in s.fences && Asks(r, s.fences[h]))
  {
    ReaddsOnly(s.fences, s.fences.Keys);
    ReaddsCount(s.fences, s.fences.Keys);
    hide Readds, Readd, Asks;
    assert |s.fences.Keys| == |s.fences|;
    forall h | h in s.fences
      ensures Readd(s.fences[h]) in Restarted(s).requests && Asks(Readd(s.fences[h]), s.fences[h])
    {
      ReaddAsks(s.fences[h]);
    }
  }

  /** Once granted it is kept under its key, and the modem is asked to pause it if that was to follow. */
  lemma GrantKeepsAndPauses(y: System, r: Request, h: HwId)
    requires r in y.s.requests && r.Add? && FreeHwId(y.s, h)
    ensures var s' := Next(y, AddResponse(r, true, h)).s;
            && s'.fences == y.s.fences[h := Fence(r.key, r.option, r.area, false)]
            && s'.ids == y.s.ids[r.key := h]
            && (Pause(h) in s'.requests <==> r.pauseAfter)
            && s'.requests + multiset{r} == y.s.requests + if r.pauseAfter then multiset{Pause(h)} else multiset{}
  {
    assert y.s.requests - multiset{r} + multiset{r} == y.s.requests;
  }

  /** What is paused, or will be once granted, is what is wanted paused. */
  ghost predicate PausesKept(y: System, want: map<Key, Intent>) {
    && (forall h :: h in y.s.fences ==>
          y.s.fences[h].key in want && want[y.s.fences[h].key].paused == y.s.fences[h].paused)
    && (forall r :: r in y.s.requests && r.Add? ==> r.key in want && want[r.key].paused == r.pauseAfter)
  }

  // --- Runs ------------------------------------------------------------------------------------

  lemma FewerCarry(y: System, y': System, want: map<Key, Intent>)
    requires Carries(y, want)
    requires forall h :: h in y'.s.fences ==> h in y.s.fences && y'.s.fences[h] == y.s.fences[h]
    requires forall r :: r in y'.s.requests && r.Add? ==> r in y.s.requests
    ensures Carries(y', want)
  {
  }

  lemma AddCommandCarries(y: System, client: nat, option: Option, area: Area, want: map<Key, Intent>)
    requires Inv(y) && Carries(y, want)
    ensures var a := AddCommand(client, option, area); Carries(Next(y, a), Wanted(want, y, a))
  {
    hide PointsBack, PointedAt;
  }

  lemma AddResponseCarries(y: System, r: Request, ok: bool, h: HwId, want: map<Key, Intent>)
    requires Carries(y, want)
    ensures Carries(Next(y, AddResponse(r, ok, h)), want)
  {
    hide FreeHwId;
  }

  lemma StopClientCarries(y: System, client: nat, want: map<Key, Intent>)
    requires Carries(y, want)
    ensures Carries(Next(y, StopClient(client)), want)
  {
    RemovalsOnly(y.s.ids, KeysOf(y.s, client));
    hide Removals;
    FewerCarry(y, Next(y, StopClient(client)), want);
  }

  lemma EngineUpCarries(y: System, want: map<Key, Intent>)
    requires Carries(y, want)
    ensures Carries(Next(y, EngineUp), want)
  {
    RestartAsksForEach(y.s);
    hide Restarted;
  }

  function Change(f: Fence, a: Action): Fence
    requires a.Modify? || a.SetPaused?
  {
    if a.Modify? then f.(option := a.option) else f.(paused := a.paused)
  }

  function Wish(i: Intent, a: Action): Intent
    requires a.Modify? || a.SetPaused?
  {
    if a.Modify? then i.(option := a.option) else i.(paused := a.paused)
  }

  /** What a change of one fence does, to the fences and to what is wanted. */
  lemma ChangeIs(y: System, a: Action, want: map<Key, Intent>)
    requires a.Modify? || a.SetPaused?
    ensures a.hwId !in y.s.fences ==> Next(y, a) == y && Wanted(want, y, a) == want
    ensures a.hwId in y.s.fences ==>
              var f := y.s.fences[a.hwId];
              && Next(y, a) == y.(s := y.s.(fences := y.s.fences[a.hwId := Change(f, a)]))
              && (f.key in want ==> Wanted(want, y, a) == want[f.key := Wish(want[f.key], a)])
  {
  }

  lemma OneFenceChanged(y: System, h: HwId, f: Fence, want: map<Key, Intent>, i: Intent)
    requires Inv(y) && h in y.s.fences && f.key == y.s.fences[h].key
    ensures var y' := y.(s := y.s.(fences := y.s.fences[h := f]));
            && (Carries(y, want) && i.option == f.option && i.area == f.area ==> Carries(y', want[f.key := i]))
            && (PausesKept(y, want) && i.paused == f.paused ==> PausesKept(y', want[f.key := i]))
  {
    OthersHaveOtherKeys(y, h);
    hide Inv;
  }

  /** Changing one fence changes what is wanted of it; no other fence and no add has its key. */
  lemma ChangeCarries(y: System, a: Action, want: map<Key, Intent>)
    requires Inv(y) && Carries(y, want) && (a.Modify? || a.SetPaused?)
    ensures Carries(Next(y, a), Wanted(want, y, a))
  {
    ChangeIs(y, a, want);
    hide Next, Wanted, Inv;
    if a.hwId in y.s.fences {
      var f := y.s.fences[a.hwId];
      assert Is(want, f.key, f.option, f.area);
      hide Carries;
      OneFenceChanged(y, a.hwId, Change(f, a), want, Wish(want[f.key], a));
    }
  }

  lemma OthersHaveOtherKeys(y: System, h: HwId)
    requires Inv(y) && h in y.s.fences
    ensures forall g :: g in y.s.fences && g != h ==> y.s.fences[g].key != y.s.fences[h].key
    ensures forall r :: r in y.s.requests && r.Add? ==> r.key != y.s.fences[h].key
  {
    hide PointsBack, PointedAt;
  }

  /** Answers other than to an add, and commands to remove, add nothing. */
  lemma OthersAddNothing(y: System, a: Action)
    requires a.RemoveCommand? || a.RemoveResponse? || a.StopResponse? || a.PauseResponse?
    ensures var s' := Next(y, a).s;
            && (forall h :: h in s'.fences ==> h in y.s.fences && s'.fences[h] == y.s.fences[h])
            && (forall r :: r in s'.requests && r.Add? ==> r in y.s.requests)
  {
    hide Stopped, Restarted, Saved, FreeHwId, WithPaused, Modified;
    if a.RemoveResponse? {
      RemovalTakesBoth(Answered(y.s, Remove(a.hwId)), a.hwId);
      hide ItemRemoved;
    }
  }

  lemma StepCarries(y: System, a: Action, want: map<Key, Intent>)
    requires Inv(y) && Carries(y, want)
    ensures Carries(Next(y, a), Wanted(want, y, a))
  {
    hide Carries, Next, Inv;
    match a
    case AddCommand(client, option, area) => AddCommandCarries(y, client, option, area, want);
    case AddResponse(r, ok, h) => AddResponseCarries(y, r, ok, h, want);
    case StopClient(client) => StopClientCarries(y, client, want);
    case EngineUp => EngineUpCarries(y, want);
    case Modify(_, _) => ChangeCarries(y, a, want);
    case SetPaused(_, _) => ChangeCarries(y, a, want);
    case _ =>
      OthersAddNothing(y, a);
      FewerCarry(y, Next(y, a), want);
  }

  /**
   In every run, whatever the modem answers and however often its engine restarts: each fence, and
   each add outstanding, has the area of the command that first added it and the option last set.
   */
  lemma {:induction false} RestartsKeepIntent(acts: seq<Action>)
    ensures Carries(Run(acts), Intended(acts))
  {
    if acts != [] {
      var before := acts[..|acts| - 1];
      RestartsKeepIntent(before);
      ReachableInv(before);
      hide Carries, Next, Inv, Wanted;
      StepCarries(Run(before), acts[|acts| - 1], Intended(before));
    }
  }

  // --- Pauses ----------------------------------------------------------------------------------

  predicate GrantsPaused(y: System, a: Action) {
    && a.AddResponse? && a.ok && FreeHwId(y.s, a.hwId)
    && a.request in y.s.requests && a.request.Add? && a.request.pauseAfter
  }

  lemma AddResponsePauses(y: System, r: Request, ok: bool, h: HwId, want: map<Key, Intent>)
    requires PausesKept(y, want)
    ensures PausesKept(Next(y, AddResponse(r, ok, h)), want) <==> !GrantsPaused(y, AddResponse(r, ok, h))
  {
    hide FreeHwId;
    var y' := Next(y, AddResponse(r, ok, h));
    if GrantsPaused(y, AddResponse(r, ok, h)) {
      assert y'.s.fences[h] == Fence(r.key, r.option, r.area, false);
    }
  }

  lemma EngineUpPauses(y: System, want: map<Key, Intent>)
    requires PausesKept(y, want)
    ensures PausesKept(Next(y, EngineUp), want)
  {
    RestartAsksForEach(y.s);
    hide Restarted;
  }

  lemma StopClientPauses(y: System, client: nat, want: map<Key, Intent>)
    requires PausesKept(y, want)
    ensures PausesKept(Next(y, StopClient(client)), want)
  {
    RemovalsOnly(y.s.ids, KeysOf(y.s, client));
    hide Removals;
  }

  lemma ChangePauses(y: System, a: Action, want: map<Key, Intent>)
    requires Inv(y) && PausesKept(y, want) && (a.Modify? || a.SetPaused?)
    ensures PausesKept(Next(y, a), Wanted(want, y, a))
  {
    ChangeIs(y, a, want);
    hide Next, Wanted, Inv;
    if a.hwId in y.s.fences {
      var f := y.s.fences[a.hwId];
      assert f.key in want && want[f.key].paused == f.paused;
      hide PausesKept;
      OneFenceChanged(y, a.hwId, Change(f, a), want, Wish(want[f.key], a));
    }
  }

  lemma AddCommandPauses(y: System, client: nat, option: Option, area: Area, want: map<Key, Intent>)
    requires Inv(y) && PausesKept(y, want)
    ensures var a := AddCommand(client, option, area); PausesKept(Next(y, a), Wanted(want, y, a))
  {
    hide PointsBack, PointedAt;
  }

  lemma FewerPauses(y: System, y': System, want: map<Key, Intent>)
    requires PausesKept(y, want)
    requires forall h :: h in y'.s.fences ==> h in y.s.fences && y'.s.fences[h] == y.s.fences[h]
    requires forall r :: r in y'.s.requests && r.Add? ==> r in y.s.requests
    ensures PausesKept(y', want)
  {
  }

  /**
   Every step keeps the adapter's idea of what is paused in line with what clients asked for,
   except one: granting a paused fence again, which is saved as running.
   */
  lemma StepKeepsPausesIff(y: System, a: Action, want: map<Key, Intent>)
    requires Inv(y) && PausesKept(y, want)
    ensures PausesKept(Next(y, a), Wanted(want, y, a)) <==> !GrantsPaused(y, a)
  {
    hide PausesKept, Next, Inv;
    match a
    case AddCommand(client, option, area) => AddCommandPauses(y, client, option, area, want);
    case AddResponse(r, ok, h) => AddResponsePauses(y, r, ok, h, want);
    case StopClient(client) => StopClientPauses(y, client, want);
    case EngineUp => EngineUpPauses(y, want);
    case Modify(_, _) => ChangePauses(y, a, want);
    case SetPaused(_, _) => ChangePauses(y, a, want);
    case _ =>
      OthersAddNothing(y, a);
      FewerPauses(y, Next(y, a), want);
  }

  ghost predicate AlwaysPausesKept(acts: seq<Action>) {
    forall n :: 0 <= n <= |acts| ==> PausesKept(Run(acts[..n]), Intended(acts[..n]))
  }

  /** No step of the run grants again a fence that was paused when the engine restarted. */
  ghost predicate NeverGrantsPaused(acts: seq<Action>) {
    forall n :: 0 <= n < |acts| ==> !GrantsPaused(Run(acts[..n]), acts[n])
  }

  lemma AlwaysPausesKeptOneMore(acts: seq<Action>)
    requires acts != []
    ensures var init, last := acts[..|acts| - 1], acts[|acts| - 1];
            && (AlwaysPausesKept(acts) <==> AlwaysPausesKept(init) && PausesKept(Run(acts), Intended(acts)))
            && (AlwaysPausesKept(init) ==> PausesKept(Run(init), Intended(init)))
            && (NeverGrantsPaused(acts) <==> NeverGrantsPaused(init) && !GrantsPaused(Run(init), last))
  {
    hide PausesKept, GrantsPaused, Run, Intended;
    var init := acts[..|acts| - 1];
    assert acts[..|acts|] == acts && init[..|init|] == init;
    assert forall n :: 0 <= n <= |init| ==> init[..n] == acts[..n];
    assert forall n :: 0 <= n < |init| ==> init[n] == acts[n];
  }

  /** Over any run: pauses are kept throughout if and only if no paused fence is ever granted again. */
  lemma {:induction false} PausesSurviveIff(acts: seq<Action>)
    ensures AlwaysPausesKept(acts) <==> NeverGrantsPaused(acts)
  {
    if acts == [] {
      assert forall n :: 0 <= n <= 0 ==> acts[..n] == [];
      assert PausesKept(Run([]), Intended([]));
    } else {
      var init := acts[..|acts| - 1];
      PausesSurviveIff(init);
      ReachableInv(init);
      AlwaysPausesKeptOneMore(acts);
      hide PausesKept, AlwaysPausesKept, NeverGrantsPaused, Inv, Next, Wanted, GrantsPaused;
      if AlwaysPausesKept(init) {
        StepKeepsPausesIff(Run(init), acts[|acts| - 1], Intended(init));
      }
    }
  }

  /** A run that gets there: the second restart asks for a paused fence without a pause. */
  lemma SecondRestartResumes(client: nat, option: Option, area: Area)
    ensures var k := Key(client, 0);
            var y := Run([AddCommand(client, option, area), AddResponse(Add(k, option, area, false), true, 1),
                          SetPaused(1, true), EngineUp, AddResponse(Add(k, option, area, true), true, 2), EngineUp]);
            Add(k, option, area, false) in y.s.requests && Pause(2) in y.s.requests
  {
    var k := Key(client, 0);
    var y1 := Next(START, AddCommand(client, option, area));
    assert y1.s.requests == multiset{Add(k, option, area, false)};
    var y2 := Next(y1, AddResponse(Add(k, option, area, false), true, 1));
    assert y2.s == State(map[1 := Fence(k, option, area, false)], map[k := 1], multiset{});
    var y3 := Next(y2, SetPaused(1, true));
    assert y3.s == State(map[1 := Fence(k, option, area, true)], map[k := 1], multiset{});
    var y4 := Next(y3, EngineUp);
    OneFenceRestarts(y3.s, 1);
    assert y4.s == State(map[], map[], multiset{Add(k, option, area, true)});
    var y5 := Next(y4, AddResponse(Add(k, option, area, true), true, 2));
    assert y5.s == State(map[2 := Fence(k, option, area, false)], map[k := 2], multiset{Pause(2)});
    OneFenceRestarts(y5.s, 2);
    RunOfSix([AddCommand(client, option, area), AddResponse(Add(k, option, area, false), true, 1),
              SetPaused(1, true), EngineUp, AddResponse(Add(k, option, area, true), true, 2), EngineUp]);
  }

  lemma OneFenceRestarts(s: State, h: HwId)
    requires s.fences.Keys == {h}
    ensures Restarted(s) == State(map[], map[], s.requests + multiset{Readd(s.fences[h])})
  {
    assert s.fences.Keys - {h} == {};
    assert h in s.fences;
    assert LeastId({h}) == h;
    assert Readds(s.fences, {h}) == multiset{Readd(s.fences[h])} + Readds(s.fences, {h} - {h});
  }

  lemma RunOfSix(a: seq<Action>)
    requires |a| == 6
    ensures Run(a) == Next(Next(Next(Next(Next(Next(START, a[0]), a[1]), a[2]), a[3]), a[4]), a[5])
  {
    hide Next;
    assert a[..5][..4] == a[..4] && a[..4][..3] == a[..3] && a[..3][..2] == a[..2] && a[..2][..1] == a[..1];
    assert a[..1][..0] == [] && Run([]) == START;
    assert Run(a[..1]) == Next(START, a[0]);
    assert Run(a[..2]) == Next(Run(a[..1]), a[1]);
    assert Run(a[..3]) == Next(Run(a[..2]), a[2]);
    assert Run(a[..4]) == Next(Run(a[..3]), a[3]);
    assert Run(a[..5]) == Next(Run(a[..4]), a[4]);
  }
}
