/**
 The session manager's reverse index from thread ids to the sessions that list them, and the
 task profile switched on a thread's first session and off again on its last.
 */
module SessionIndex {
  import opened ToggleLog

  /** Calls of `SetTaskProfiles`. */
  datatype ProfileCall = ResetUclampGrp(tid: int) | NoResetUclampGrp(tid: int)

  datatype Index<S> = Index(sessions: map<int, set<S>>, profiles: seq<ProfileCall>)

  /** The sessions indexed under `t`; the map may or may not hold an entry for it. */
  function Under<S>(m: map<int, set<S>>, t: int): set<S> {
    if t in m then m[t] else {}
  }

  function AddThread<S>(x: Index<S>, s: S, t: int): Index<S> {
    Index(x.sessions[t := Under(x.sessions, t) + {s}],
          if Under(x.sessions, t) == {} then x.profiles + [ResetUclampGrp(t)] else x.profiles)
  }

  function RemoveThread<S>(x: Index<S>, s: S, t: int): Index<S> {
    Index(x.sessions[t := Under(x.sessions, t) - {s}],
          if Under(x.sessions, t) == {s} then x.profiles + [NoResetUclampGrp(t)] else x.profiles)
  }

  function AddThreads<S>(x: Index<S>, s: S, tids: seq<int>): Index<S> {
    if tids == [] then x else AddThread(AddThreads(x, s, tids[..|tids| - 1]), s, tids[|tids| - 1])
  }

  function RemoveThreads<S>(x: Index<S>, s: S, tids: seq<int>): Index<S> {
    if tids == [] then x else RemoveThread(RemoveThreads(x, s, tids[..|tids| - 1]), s, tids[|tids| - 1])
  }

  /** Adding a session's threads puts it under exactly those threads, and removing takes it out. */
  lemma {:induction false} AddThreadsUnder<S>(x: Index<S>, s: S, tids: seq<int>)
    ensures forall t :: Under(AddThreads(x, s, tids).sessions, t) ==
              Under(x.sessions, t) + if t in tids then {s} else {}
  {
    if tids != [] {
      AddThreadsUnder(x, s, tids[..|tids| - 1]);
    }
  }

  lemma {:induction false} RemoveThreadsUnder<S>(x: Index<S>, s: S, tids: seq<int>)
    ensures forall t :: Under(RemoveThreads(x, s, tids).sessions, t) ==
              Under(x.sessions, t) - if t in tids then {s} else {}
  {
    if tids != [] {
      RemoveThreadsUnder(x, s, tids[..|tids| - 1]);
    }
  }

  // --- Task profiles -----------------------------------------------------------------------------

  function ProfileMeans(c: ProfileCall): Toggle<int> {
    if c.ResetUclampGrp? then On(c.tid) else Off(c.tid)
  }

  /** Whether `t` has been switched to ResetUclampGrp by the calls so far. */
  function IsReset(calls: seq<ProfileCall>, t: int): bool {
    IsOn(ProfileMeans, calls, t)
  }

  /** Every call is a real change, and a thread is reset exactly while some session lists it. */
  ghost predicate ProfilesMatch<S>(x: Index<S>) {
    && Alternates(ProfileMeans, x.profiles)
    && forall t :: IsReset(x.profiles, t) <==> Under(x.sessions, t) != {}
  }

  lemma {:induction false} AddThreadsKeepsProfiles<S>(x: Index<S>, s: S, tids: seq<int>)
    requires ProfilesMatch(x)
    ensures ProfilesMatch(AddThreads(x, s, tids))
  {
    if tids != [] {
      AddThreadsKeepsProfiles(x, s, tids[..|tids| - 1]);
      var y, last := AddThreads(x, s, tids[..|tids| - 1]), tids[|tids| - 1];
      var y' := AddThread(y, s, last);
      OneCall(ProfileMeans, y.profiles, ResetUclampGrp(last), last);
      forall t
        ensures IsReset(y'.profiles, t) <==> Under(y'.sessions, t) != {}
      {
        OneCall(ProfileMeans, y.profiles, ResetUclampGrp(last), t);
        assert IsReset(y.profiles, t) <==> Under(y.sessions, t) != {};
      }
    }
  }

  lemma {:induction false} RemoveThreadsKeepsProfiles<S>(x: Index<S>, s: S, tids: seq<int>)
    requires ProfilesMatch(x)
    ensures ProfilesMatch(RemoveThreads(x, s, tids))
  {
    if tids != [] {
      RemoveThreadsKeepsProfiles(x, s, tids[..|tids| - 1]);
      var y, last := RemoveThreads(x, s, tids[..|tids| - 1]), tids[|tids| - 1];
      var y' := RemoveThread(y, s, last);
      OneCall(ProfileMeans, y.profiles, NoResetUclampGrp(last), last);
      assert IsReset(y.profiles, last) <==> Under(y.sessions, last) != {};
      forall t
        ensures IsReset(y'.profiles, t) <==> Under(y'.sessions, t) != {}
      {
        OneCall(ProfileMeans, y.profiles, NoResetUclampGrp(last), t);
        assert IsReset(y.profiles, t) <==> Under(y.sessions, t) != {};
      }
    }
  }

  // --- Runs of sessions ----------------------------------------------------------------------

  type Id = nat

  datatype Session = Session(tids: seq<int>, active: bool, closed: bool)

  datatype Manager = Manager(all: map<Id, Session>, registered: set<Id>, index: Index<Id>)

  const NOBODY: Manager := Manager(map[], {}, Index(map[], []))

  datatype Action =
    | Create(id: Id, tids: seq<int>)
    | Pause(id: Id)
    | Resume(id: Id)
    | SetThreads(id: Id, tids: seq<int>)
    | Close(id: Id)

  /** `resize` to the new length, then append: the old list, cut or padded with 0, stays in front. */
  function Resized(tids: seq<int>, n: nat): seq<int> {
    if n <= |tids| then tids[..n] else tids + seq(n - |tids|, _ => 0)
  }

  function NewThreads(tids: seq<int>, given: seq<int>): seq<int> {
    Resized(tids, |given|) + given
  }

  /** One call; the calls the source rejects leave everything unchanged. */
  function Next(m: Manager, a: Action): Manager {
    if a.Create? then
      if a.id in m.all then m
      else Manager(m.all[a.id := Session(a.tids, true, false)], m.registered + {a.id},
                   AddThreads(m.index, a.id, a.tids))
    else if a.id !in m.all || m.all[a.id].closed then m
    else
      var s := m.all[a.id];
      match a
      case Pause(id) =>
        if !s.active then m
        else m.(all := m.all[id := s.(active := false)], index := RemoveThreads(m.index, id, s.tids))
      case Resume(id) =>
        if s.active then m
        else m.(all := m.all[id := s.(active := true)], index := AddThreads(m.index, id, s.tids))
      case SetThreads(id, given) =>
        var tids := NewThreads(s.tids, given);
        if given == [] then m
        else m.(all := m.all[id := s.(tids := tids)],
                index := AddThreads(RemoveThreads(m.index, id, s.tids), id, tids))
      case Close(id) =>
        Manager(m.all[id := s.(active := false, closed := true)], m.registered - {id},
                RemoveThreads(m.index, id, s.tids))
  }

  function Run(acts: seq<Action>): Manager {
    if acts == [] then NOBODY else Next(Run(acts[..|acts| - 1]), acts[|acts| - 1])
  }

  ghost predicate Coherent(m: Manager) {
    && (forall id :: id in m.registered <==> id in m.all && !m.all[id].closed)
       // An indexed session is registered and lists that thread.
    && (forall id, t :: id in Under(m.index.sessions, t) ==> id in m.registered && t in m.all[id].tids)
       // An open active session is indexed under all its threads.
    && (forall id, t :: id in m.registered && m.all[id].active && t in m.all[id].tids ==>
          id in Under(m.index.sessions, t))
  }

  lemma NextKeepsCoherent(m: Manager, a: Action)
    requires Coherent(m)
    ensures Coherent(Next(m, a))
  {
    hide AddThreads, RemoveThreads, NewThreads;
    if a.Create? {
      AddThreadsUnder(m.index, a.id, a.tids);
    } else if a.id in m.all {
      var s := m.all[a.id];
      RemoveThreadsUnder(m.index, a.id, s.tids);
      AddThreadsUnder(m.index, a.id, s.tids);
      if a.SetThreads? {
        AddThreadsUnder(RemoveThreads(m.index, a.id, s.tids), a.id, NewThreads(s.tids, a.tids));
      }
    }
  }

  lemma NextKeepsProfiles(m: Manager, a: Action)
    requires ProfilesMatch(m.index)
    ensures ProfilesMatch(Next(m, a).index)
  {
    if a.Create? {
      AddThreadsKeepsProfiles(m.index, a.id, a.tids);
    } else if a.id in m.all {
      var s := m.all[a.id];
      RemoveThreadsKeepsProfiles(m.index, a.id, s.tids);
      AddThreadsKeepsProfiles(m.index, a.id, s.tids);
      if a.SetThreads? {
        AddThreadsKeepsProfiles(RemoveThreads(m.index, a.id, s.tids), a.id, NewThreads(s.tids, a.tids));
      }
    }
  }

  /**
   Over any run: a session indexed under a thread is registered and lists it, an open active
   session is indexed under all its threads, a closed one under none, and a thread's profile is
   ResetUclampGrp exactly while its session set is not empty, even with repeated thread ids.
   */
  lemma {:induction false} IndexIsCoherent(acts: seq<Action>)
    ensures var m := Run(acts);
            && Coherent(m) && ProfilesMatch(m.index)
            && forall id, t :: id in m.all && m.all[id].closed ==> id !in Under(m.index.sessions, t)
  {
    if acts != [] {
      IndexIsCoherent(acts[..|acts| - 1]);
      NextKeepsCoherent(Run(acts[..|acts| - 1]), acts[|acts| - 1]);
      NextKeepsProfiles(Run(acts[..|acts| - 1]), acts[|acts| - 1]);
    }
  }

  /**
   `setThreads` leaves the session listing exactly the threads it was given exactly when the
   old ones that survive the resize, and the padding, are among them.
   */
  lemma SetThreadsListsGivenIff(tids: seq<int>, given: seq<int>)
    ensures (forall t :: t in NewThreads(tids, given) <==> t in given)
            <==> (forall k :: 0 <= k < |tids| && k < |given| ==> tids[k] in given) && (|given| > |tids| ==> 0 in given)
  {
    var kept := Resized(tids, |given|);
    assert forall t :: t in NewThreads(tids, given) <==> t in kept || t in given;
    if forall t :: t in NewThreads(tids, given) <==> t in given {
      forall k | 0 <= k < |tids| && k < |given|
        ensures tids[k] in given
      {
        assert kept[k] == tids[k];
        assert kept[k] in kept;
      }
      if |given| > |tids| {
        assert kept[|tids|] == 0;
        assert kept[|tids|] in kept;
      }
    }
  }

  /** Two calls suffice: a session of thread 1 given thread 2 stays indexed under thread 1. */
  lemma OldThreadStaysIndexed(id: Id)
    ensures var m := Run([Create(id, [1]), SetThreads(id, [2])]);
            id in m.all && m.all[id].tids == [1, 2] && id in Under(m.index.sessions, 1)
  {
    var acts := [Create(id, [1]), SetThreads(id, [2])];
    assert acts[..1] == [Create(id, [1])] && acts[..1][..0] == [];
    assert Run(acts[..1]) == Next(NOBODY, Create(id, [1]));
    assert NewThreads([1], [2]) == [1, 2];
    IndexIsCoherent(acts);
  }
}
