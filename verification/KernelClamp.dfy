/**
 What the kernel holds for each thread over runs of session calls: it is told a thread's minimum
 only by the call of some session that lists the thread, so it can be left with an old one.
 */
module KernelClamp {
  import opened CppInt
  import opened HintSession
  import T = TrueMin
  import X = SessionIndex

  type Id = X.Id

  datatype World = World(
    m: X.Manager,              // the sessions and the index
    mins: map<Id, T.Boost>,    // their minima
    stale: set<Id>,            // those that have timed out
    kernel: map<int, int>)     // what the kernel was last told, per thread

  datatype Action =
    | Create(id: Id, tids: seq<int>)
    | Pause(id: Id)
    | Resume(id: Id)
    | SetThreads(id: Id, tids: seq<int>)
    | Close(id: Id)
    | SendHint(id: Id, h: T.Hint)
    | Report(id: Id, output: int)        // of durations, with the controller's output
    | BoostTimeout(id: Id)
    | StaleTimeout(id: Id, timedOut: bool)  // the stale timer's handler, and what the clock says
    | TimesOut(id: Id)                   // time passes, before that handler

  /** An active session that has not timed out. */
  predicate Counts(w: World, id: Id) {
    id in w.m.all && id in w.mins && w.m.all[id].active && id !in w.stale
  }

  predicate CountsUnder(w: World, id: Id, t: int) {
    id in X.Under(w.m.index.sessions, t) && Counts(w, id)
  }

  /** The minima that count for a thread. */
  ghost function Counting(w: World, t: int): set<int> {
    set id | id in X.Under(w.m.index.sessions, t) && Counts(w, id) :: w.mins[id].currentMin
  }

  /** Those of the other sessions. */
  ghost function Others(w: World, id: Id, t: int): set<int> {
    set k | k in X.Under(w.m.index.sessions, t) && k != id && Counts(w, k) :: w.mins[k].currentMin
  }

  function Kernel(w: World, t: int): int {
    if t in w.kernel then w.kernel[t] else 0
  }

  /** `setUclampMin` for these threads. */
  ghost function Told(w: World, tids: seq<int>, val: int): World {
    w.(kernel := map t | t in w.kernel.Keys + (set x | x in tids) ::
         if t in tids then Uclamp(Max(val, T.Peak(Counting(w, t)))) else w.kernel[t])
  }

  predicate Open(w: World, id: Id) {
    id in w.m.all && id in w.mins && !w.m.all[id].closed
  }

  /** One call or timeout; what the source rejects changes nothing. */
  ghost function Next(w: World, c: T.Levels, a: Action): World {
    if a.Create? then
      if a.id in w.m.all then w
      else
        var b := T.Constructed(c);
        Told(World(X.Next(w.m, X.Create(a.id, a.tids)), w.mins[a.id := b], w.stale - {a.id}, w.kernel),
             a.tids, b.currentMin)
    else if !Open(w, a.id) then w
    else
      var s, b := w.m.all[a.id], w.mins[a.id];
      match a
      case Pause(id) =>
        if !s.active then w
        else
          var silent := w.(m := w.m.(all := w.m.all[id := s.(active := false)]), mins := w.mins[id := T.Restored(b)]);
          Told(silent, s.tids, 0).(m := X.Next(w.m, X.Pause(id)))
      case Resume(id) =>
        if s.active then w
        else Told(w.(m := X.Next(w.m, X.Resume(id))), s.tids, b.currentMin)
      case SetThreads(id, given) =>
        if given == [] then w
        else Told(w.(m := X.Next(w.m, X.SetThreads(id, given)), mins := w.mins[id := b.(currentMin := c.init)]),
                  X.NewThreads(s.tids, given), c.init)
      case Close(id) =>
        Told(w.(m := X.Next(w.m, X.Close(id)), mins := w.mins[id := b.(currentMin := 0)]), s.tids, 0)
      case SendHint(id, h) =>
        var b' := T.Hinted(b, h, c);
        if h.Invalid? then w.(mins := w.mins[id := b'])
        else Told(w.(mins := w.mins[id := b']), s.tids, b'.currentMin).(stale := w.stale - {id})
      case Report(id, output) =>
        var b' := T.Reported(b, output, c);
        if !s.active then w
        else Told(w.(mins := w.mins[id := b'], stale := w.stale - {id}), s.tids, b'.currentMin)
      case BoostTimeout(id) =>
        if b.saved.Nothing? then w
        else Told(w.(mins := w.mins[id := T.Restored(b)]), s.tids, b.saved.v)
      case StaleTimeout(id, timedOut) =>
        Told(w.(mins := w.mins[id := T.Restored(b)], stale := if timedOut then w.stale + {id} else w.stale), s.tids, 0)
      case TimesOut(id) => w.(stale := w.stale + {id})
  }

  ghost function Run(c: T.Levels, acts: seq<Action>): World {
    if acts == [] then World(X.NOBODY, map[], {}, map[])
    else Next(Run(c, acts[..|acts| - 1]), c, acts[|acts| - 1])
  }

  /** The kernel holds, for every thread, the clamped maximum over the sessions that count for it. */
  ghost predicate Right(w: World) {
    forall t :: RightAt(w, t)
  }

  ghost predicate RightAt(w: World, t: int) {
    Kernel(w, t) == Uclamp(T.Peak(Counting(w, t)))
  }

  /** `v` is more than the other sessions ask for the thread, as far as the kernel can tell. */
  ghost predicate Outweighs(w: World, id: Id, t: int, v: int) {
    Uclamp(v) > Uclamp(T.Peak(Others(w, id, t)))
  }

  ghost predicate OutweighsSome(w: World, id: Id, tids: seq<int>, v: int) {
    exists t :: t in tids && Outweighs(w, id, t, v)
  }

  /**
   The action leaves the kernel with a wrong minimum for some thread: by telling it one that does
   not count (of a session that is paused or stale), or by not telling it that one no longer does
   (on threads cut off, after a hint that is not supported, or when time passes).
   */
  ghost predicate GoesWrong(w: World, c: T.Levels, a: Action) {
    && Open(w, a.id)
    && var s, b, counts := w.m.all[a.id], w.mins[a.id], Counts(w, a.id);
       match a
       case Resume(id) => !s.active && id in w.stale && OutweighsSome(w, id, s.tids, b.currentMin)
       case SetThreads(id, given) =>
         && given != []
         && var tids := X.NewThreads(s.tids, given);
            if counts then exists t :: t in s.tids && t !in tids && Outweighs(w, id, t, b.currentMin)
            else OutweighsSome(w, id, tids, c.init)
       case SendHint(id, h) =>
         if h.Invalid? then
           counts && b.saved.Just? && exists t :: t in s.tids && Lags(w, id, t, b)
         else !s.active && OutweighsSome(w, id, s.tids, T.Hinted(b, h, c).currentMin)
       case BoostTimeout(id) => !counts && b.saved.Just? && OutweighsSome(w, id, s.tids, b.saved.v)
       case TimesOut(id) => counts && OutweighsSome(w, id, s.tids, b.currentMin)
       case _ => false
  }

  /** With and without the boost the thread's minimum is not the same. */
  ghost predicate Lags(w: World, id: Id, t: int, b: T.Boost) {
    var p := T.Peak(Others(w, id, t));
    Uclamp(Max(p, b.currentMin)) != Uclamp(Max(p, T.Restored(b).currentMin))
  }

  // --- One session at a time -------------------------------------------------------------------------

  ghost predicate Sound(w: World) {
    X.Coherent(w.m) && w.mins.Keys == w.m.all.Keys
  }

  function Share(w: World, id: Id, t: int): int {
    if CountsUnder(w, id, t) then w.mins[id].currentMin else 0
  }

  lemma {:induction false} PeakOfOneMore(mins: set<int>, v: int)
    ensures T.Peak(mins + {v}) == Max(T.Peak(mins), v)
  {
    T.PeakIsUnique(mins + {v}, Max(T.Peak(mins), v));
  }

  lemma {:induction false} SplitPeak(w: World, id: Id, t: int)
    ensures T.Peak(Counting(w, t)) == Max(T.Peak(Others(w, id, t)), Share(w, id, t))
  {
    if CountsUnder(w, id, t) {
      assert Counting(w, t) == Others(w, id, t) + {w.mins[id].currentMin};
      PeakOfOneMore(Others(w, id, t), w.mins[id].currentMin);
    } else {
      assert Counting(w, t) == Others(w, id, t);
    }
  }

  /** All but one session are the same in both worlds. */
  ghost predicate SameOthers(w: World, w': World, id: Id) {
    forall k, t :: k != id ==>
      && (CountsUnder(w, k, t) <==> CountsUnder(w', k, t))
      && (CountsUnder(w, k, t) ==> w.mins[k].currentMin == w'.mins[k].currentMin)
  }

  lemma {:induction false} OthersSame(w: World, w': World, id: Id, t: int)
    requires SameOthers(w, w', id)
    ensures Others(w, id, t) == Others(w', id, t)
  {
    forall v
      ensures v in Others(w, id, t) <==> v in Others(w', id, t)
    {
      if v in Others(w, id, t) {
        var k :| CountsUnder(w, k, t) && k != id && w.mins[k].currentMin == v;
        assert CountsUnder(w', k, t);
      }
      if v in Others(w', id, t) {
        var k :| CountsUnder(w', k, t) && k != id && w'.mins[k].currentMin == v;
        assert CountsUnder(w, k, t);
      }
    }
  }

  lemma {:induction false} UclampOfMax(a: int, b: int)
    ensures Uclamp(Max(a, b)) == Max(Uclamp(a), Uclamp(b))
  {
  }

  lemma ToldKernel(w: World, tids: seq<int>, val: int, t: int)
    ensures Kernel(Told(w, tids, val), t) ==
            if t in tids then Uclamp(Max(val, T.Peak(Counting(w, t)))) else Kernel(w, t)
  {
  }

  /** What one told call of `id` does at one thread, in terms of what the others ask for it. */
  lemma {:induction false} AtThread(w: World, told: World, w': World, id: Id, tids: seq<int>, val: int, t: int)
    requires RightAt(w, t) && SameOthers(w, told, id) && SameOthers(w, w', id)
    requires told.kernel == w.kernel && w'.kernel == Told(told, tids, val).kernel
    ensures var p := Uclamp(T.Peak(Others(w, id, t)));
            RightAt(w', t) <==>
              Max(p, Uclamp(Share(w', id, t))) ==
              if t in tids then Max(Uclamp(val), Max(p, Uclamp(Share(told, id, t))))
              else Max(p, Uclamp(Share(w, id, t)))
  {
    hide Counting, Others, Share, Uclamp, SameOthers, Told;
    OthersSame(w, told, id, t);
    OthersSame(w, w', id, t);
    SplitPeak(w, id, t);
    SplitPeak(told, id, t);
    SplitPeak(w', id, t);
    ToldKernel(told, tids, val, t);
    var p := T.Peak(Others(w, id, t));
    UclampOfMax(p, Share(w, id, t));
    UclampOfMax(p, Share(told, id, t));
    UclampOfMax(p, Share(w', id, t));
    UclampOfMax(val, Max(p, Share(told, id, t)));
    assert Kernel(w', t) == Kernel(Told(told, tids, val), t);
  }

  // --- What a call does to the index -----------------------------------------------------------------

  /** Only `id` moves in the index, and ends up under exactly these threads. */
  ghost predicate MovesTo(m: X.Manager, m': X.Manager, id: Id, tids: seq<int>) {
    && (forall k, t :: k != id ==>
          (k in X.Under(m'.index.sessions, t) <==> k in X.Under(m.index.sessions, t)))
    && (forall t :: id in X.Under(m'.index.sessions, t) <==> t in tids)
    && (forall k :: k != id ==> (k in m'.all <==> k in m.all) && (k in m.all ==> m'.all[k] == m.all[k]))
  }

  lemma {:induction false} CreateMoves(m: X.Manager, id: Id, tids: seq<int>)
    requires X.Coherent(m) && id !in m.all
    ensures MovesTo(m, X.Next(m, X.Create(id, tids)), id, tids)
  {
    X.AddThreadsUnder(m.index, id, tids);
  }

  lemma {:induction false} PauseMoves(m: X.Manager, id: Id)
    requires X.Coherent(m) && id in m.all && !m.all[id].closed && m.all[id].active
    ensures MovesTo(m, X.Next(m, X.Pause(id)), id, [])
  {
    X.RemoveThreadsUnder(m.index, id, m.all[id].tids);
  }

  lemma {:induction false} ResumeMoves(m: X.Manager, id: Id)
    requires X.Coherent(m) && id in m.all && !m.all[id].closed && !m.all[id].active
    ensures MovesTo(m, X.Next(m, X.Resume(id)), id, m.all[id].tids)
  {
    X.AddThreadsUnder(m.index, id, m.all[id].tids);
  }

  lemma {:induction false} SetThreadsMoves(m: X.Manager, id: Id, given: seq<int>)
    requires X.Coherent(m) && id in m.all && !m.all[id].closed && given != []
    ensures MovesTo(m, X.Next(m, X.SetThreads(id, given)), id, X.NewThreads(m.all[id].tids, given))
  {
    var tids := X.NewThreads(m.all[id].tids, given);
    X.RemoveThreadsUnder(m.index, id, m.all[id].tids);
    X.AddThreadsUnder(X.RemoveThreads(m.index, id, m.all[id].tids), id, tids);
  }

  lemma {:induction false} CloseMoves(m: X.Manager, id: Id)
    requires X.Coherent(m) && id in m.all && !m.all[id].closed
    ensures MovesTo(m, X.Next(m, X.Close(id)), id, [])
  {
    X.RemoveThreadsUnder(m.index, id, m.all[id].tids);
  }

  /** An open session's share of a thread: its minimum while it counts and lists the thread. */
  lemma {:induction false} OpenShare(w: World, id: Id, t: int)
    requires Sound(w) && Open(w, id)
    ensures Share(w, id, t) == if Counts(w, id) && t in w.m.all[id].tids then w.mins[id].currentMin else 0
  {
  }

  /** Right again exactly when that holds of each thread the call may have changed. */
  lemma {:induction false} AllThreads(w: World, told: World, w': World, id: Id, tids: seq<int>, val: int)
    requires Right(w) && SameOthers(w, told, id) && SameOthers(w, w', id)
    requires told.kernel == w.kernel && w'.kernel == Told(told, tids, val).kernel
    ensures Right(w') <==> forall t :: Agrees(w, told, w', id, tids, val, t)
  {
    hide SameOthers, Told, RightAt, Agrees;
    forall t
      ensures RightAt(w', t) <==> Agrees(w, told, w', id, tids, val, t)
    {
      assert RightAt(w, t);
      AgreesAt(w, told, w', id, tids, val, t);
    }
  }

  ghost predicate Agrees(w: World, told: World, w': World, id: Id, tids: seq<int>, val: int, t: int) {
    var p := Uclamp(T.Peak(Others(w, id, t)));
    Max(p, Uclamp(Share(w', id, t))) ==
    if t in tids then Max(Uclamp(val), Max(p, Uclamp(Share(told, id, t)))) else Max(p, Uclamp(Share(w, id, t)))
  }

  lemma {:induction false} AgreesAt(w: World, told: World, w': World, id: Id, tids: seq<int>, val: int, t: int)
    requires RightAt(w, t) && SameOthers(w, told, id) && SameOthers(w, w', id)
    requires told.kernel == w.kernel && w'.kernel == Told(told, tids, val).kernel
    ensures RightAt(w', t) <==> Agrees(w, told, w', id, tids, val, t)
  {
    AtThread(w, told, w', id, tids, val, t);
  }

  lemma {:induction false} PeakNotNegative(w: World, id: Id, t: int)
    ensures T.Peak(Others(w, id, t)) >= 0 && Uclamp(T.Peak(Others(w, id, t))) >= 0 == Uclamp(0)
  {
  }

  // At one thread, by what the session's share was and is, and what was told.

  lemma {:induction false} AgreesTold(w: World, told: World, w': World, id: Id, tids: seq<int>, val: int, t: int)
    requires t in tids && Share(told, id, t) == 0 == Share(w', id, t)
    ensures Agrees(w, told, w', id, tids, val, t) <==> !Outweighs(w, id, t, val)
  {
    PeakNotNegative(w, id, t);
  }

  lemma {:induction false} AgreesCounted(w: World, told: World, w': World, id: Id, tids: seq<int>, val: int, t: int)
    requires t in tids && Share(w', id, t) == val && (Share(told, id, t) == val || Share(told, id, t) == 0)
    ensures Agrees(w, told, w', id, tids, val, t)
  {
    PeakNotNegative(w, id, t);
  }

  lemma {:induction false} AgreesSilent(w: World, told: World, w': World, id: Id, tids: seq<int>, t: int)
    requires t in tids && Share(told, id, t) == Share(w', id, t)
    ensures Agrees(w, told, w', id, tids, 0, t)
  {
    PeakNotNegative(w, id, t);
  }

  lemma {:induction false} NothingOutweighs(w: World, id: Id, t: int)
    ensures !Outweighs(w, id, t, 0)
  {
    PeakNotNegative(w, id, t);
  }

  lemma {:induction false} AgreesUntold(w: World, told: World, w': World, id: Id, tids: seq<int>, val: int, t: int)
    requires t !in tids && Share(w', id, t) == Share(w, id, t)
    ensures Agrees(w, told, w', id, tids, val, t)
  {
  }

  lemma {:induction false} AgreesCutOff(w: World, told: World, w': World, id: Id, tids: seq<int>, val: int, t: int)
    requires t !in tids && Share(w', id, t) == 0
    ensures Agrees(w, told, w', id, tids, val, t) <==> !Outweighs(w, id, t, Share(w, id, t))
  {
    PeakNotNegative(w, id, t);
  }

  // --- Worlds that differ in one session -------------------------------------------------------------

  /** The minima and the timeouts of all but `id` are the same. */
  ghost predicate SameValues(w: World, w': World, id: Id) {
    forall k :: k != id ==>
      && (k in w'.mins <==> k in w.mins) && (k in w.mins ==> w'.mins[k] == w.mins[k])
      && (k in w'.stale <==> k in w.stale)
  }

  lemma {:induction false} MovedOthers(w: World, w': World, id: Id, tids: seq<int>)
    requires MovesTo(w.m, w'.m, id, tids) && SameValues(w, w', id)
    ensures SameOthers(w, w', id)
    ensures forall t :: Share(w', id, t) == if Counts(w', id) && t in tids then w'.mins[id].currentMin else 0
  {
  }

  lemma {:induction false} KeptOthers(w: World, w': World, id: Id)
    requires w'.m.index == w.m.index && SameValues(w, w', id)
    requires forall k :: k != id ==> (k in w'.m.all <==> k in w.m.all) && (k in w.m.all ==> w'.m.all[k] == w.m.all[k])
    ensures SameOthers(w, w', id)
  {
  }

  lemma {:induction false} KeptShares(w: World, w': World, id: Id)
    requires Sound(w) && Open(w, id) && w'.m == w.m && id in w'.mins
    ensures forall t :: Share(w', id, t) ==
              if Counts(w', id) && t in w.m.all[id].tids then w'.mins[id].currentMin else 0
  {
  }

  lemma ToldNobody(w: World)
    ensures Told(w, [], 0).kernel == w.kernel
  {
  }

  // --- Every call ------------------------------------------------------------------------------------

  lemma {:induction false} CreateStaysRight(w: World, c: T.Levels, id: Id, tids: seq<int>)
    requires Sound(w) && Right(w) && id !in w.m.all
    ensures Right(Next(w, c, Create(id, tids)))
  {
    var b := T.Constructed(c);
    var told := World(X.Next(w.m, X.Create(id, tids)), w.mins[id := b], w.stale - {id}, w.kernel);
    var w' := Told(told, tids, b.currentMin);
    assert Counts(w', id) && Counts(told, id);
    assert !Counts(w, id);
    CreateMoves(w.m, id, tids);
    hide MovesTo, SameValues, X.Next, Right, Agrees, Told, T.Constructed, Counting;
    assert SameValues(w, told, id) && SameValues(w, w', id) by { ValuesSame(w, told, id); ValuesSame(w, w', id); }
    MovedOthers(w, told, id, tids);
    MovedOthers(w, w', id, tids);
    AllThreads(w, told, w', id, tids, b.currentMin);
    forall t
      ensures Agrees(w, told, w', id, tids, b.currentMin, t)
    {
      if t in tids {
        AgreesCounted(w, told, w', id, tids, b.currentMin, t);
      } else {
        AgreesUntold(w, told, w', id, tids, b.currentMin, t);
      }
    }
  }

  lemma ValuesSame(w: World, w': World, id: Id)
    requires forall k :: k != id ==> (k in w'.mins <==> k in w.mins) && (k in w.mins ==> w'.mins[k] == w.mins[k])
    requires w'.stale == w.stale || w'.stale == w.stale - {id} || w'.stale == w.stale + {id}
    ensures SameValues(w, w', id)
  {
  }

  lemma {:induction false} PauseStaysRight(w: World, c: T.Levels, id: Id)
    requires Sound(w) && Right(w) && Open(w, id) && w.m.all[id].active
    ensures Right(Next(w, c, Pause(id)))
  {
    var s, b := w.m.all[id], w.mins[id];
    var told := w.(m := w.m.(all := w.m.all[id := s.(active := false)]), mins := w.mins[id := T.Restored(b)]);
    var w' := Told(told, s.tids, 0).(m := X.Next(w.m, X.Pause(id)));
    PauseMoves(w.m, id);
    hide MovesTo, SameValues, X.Next, Right, Agrees, Told, Counting, Others, Outweighs, Uclamp;
    ValuesSame(w, told, id);
    ValuesSame(w, w', id);
    KeptOthers(w, told, id);
    MovedOthers(w, w', id, []);
    AllThreads(w, told, w', id, s.tids, 0);
    forall t
      ensures Agrees(w, told, w', id, s.tids, 0, t)
    {
      OpenShare(w, id, t);
      if t in s.tids {
        AgreesSilent(w, told, w', id, s.tids, t);
      } else {
        AgreesUntold(w, told, w', id, s.tids, 0, t);
      }
    }
  }

  lemma {:induction false} CloseStaysRight(w: World, c: T.Levels, id: Id)
    requires Sound(w) && Right(w) && Open(w, id)
    ensures Right(Next(w, c, Close(id)))
  {
    var s, b := w.m.all[id], w.mins[id];
    var told := w.(m := X.Next(w.m, X.Close(id)), mins := w.mins[id := b.(currentMin := 0)]);
    var w' := Told(told, s.tids, 0);
    CloseMoves(w.m, id);
    hide MovesTo, SameValues, X.Next, Right, Agrees, Told, Counting, Others, Outweighs, Uclamp;
    ValuesSame(w, told, id);
    ValuesSame(w, w', id);
    MovedOthers(w, told, id, []);
    MovedOthers(w, w', id, []);
    AllThreads(w, told, w', id, s.tids, 0);
    forall t
      ensures Agrees(w, told, w', id, s.tids, 0, t)
    {
      OpenShare(w, id, t);
      if t in s.tids {
        AgreesSilent(w, told, w', id, s.tids, t);
      } else {
        AgreesUntold(w, told, w', id, s.tids, 0, t);
      }
    }
  }

  lemma {:induction false} ResumeStaysRightIff(w: World, c: T.Levels, id: Id)
    requires Sound(w) && Right(w) && Open(w, id) && !w.m.all[id].active
    ensures Right(Next(w, c, Resume(id))) <==> !GoesWrong(w, c, Resume(id))
  {
    var s, b := w.m.all[id], w.mins[id];
    var told := w.(m := X.Next(w.m, X.Resume(id)));
    var w' := Told(told, s.tids, b.currentMin);
    assert Counts(told, id) == Counts(w', id) == (id !in w.stale);
    ResumeMoves(w.m, id);
    hide MovesTo, SameValues, X.Next, Right, Agrees, Told, Counting, Others, Outweighs, Uclamp;
    ValuesSame(w, told, id);
    ValuesSame(w, w', id);
    MovedOthers(w, told, id, s.tids);
    MovedOthers(w, w', id, s.tids);
    AllThreads(w, told, w', id, s.tids, b.currentMin);
    forall t
      ensures Agrees(w, told, w', id, s.tids, b.currentMin, t) <==>
              !(id in w.stale && t in s.tids && Outweighs(w, id, t, b.currentMin))
    {
      OpenShare(w, id, t);
      if t !in s.tids {
        AgreesUntold(w, told, w', id, s.tids, b.currentMin, t);
      } else if id in w.stale {
        AgreesTold(w, told, w', id, s.tids, b.currentMin, t);
      } else {
        AgreesCounted(w, told, w', id, s.tids, b.currentMin, t);
      }
    }
  }

  lemma {:induction false} SetThreadsStaysRightIff(w: World, c: T.Levels, id: Id, given: seq<int>)
    requires Sound(w) && Right(w) && Open(w, id) && given != []
    ensures Right(Next(w, c, SetThreads(id, given))) <==> !GoesWrong(w, c, SetThreads(id, given))
  {
    var s, b := w.m.all[id], w.mins[id];
    var tids, counts := X.NewThreads(s.tids, given), Counts(w, id);
    var told := w.(m := X.Next(w.m, X.SetThreads(id, given)), mins := w.mins[id := b.(currentMin := c.init)]);
    var w' := Told(told, tids, c.init);
    assert Counts(told, id) == Counts(w', id) == counts;
    SetThreadsMoves(w.m, id, given);
    hide MovesTo, SameValues, X.Next, Right, Agrees, Told, Counting, Others, Outweighs, Uclamp;
    ValuesSame(w, told, id);
    ValuesSame(w, w', id);
    MovedOthers(w, told, id, tids);
    MovedOthers(w, w', id, tids);
    AllThreads(w, told, w', id, tids, c.init);
    forall t
      ensures Agrees(w, told, w', id, tids, c.init, t) <==>
              if t in tids then counts || !Outweighs(w, id, t, c.init)
              else !(counts && t in s.tids && Outweighs(w, id, t, b.currentMin))
    {
      OpenShare(w, id, t);
      if t !in tids {
        AgreesCutOff(w, told, w', id, tids, c.init, t);
        NothingOutweighs(w, id, t);
      } else if counts {
        AgreesCounted(w, told, w', id, tids, c.init, t);
      } else {
        AgreesTold(w, told, w', id, tids, c.init, t);
      }
    }
  }

  lemma {:induction false} HintStaysRightIff(w: World, c: T.Levels, id: Id, h: T.Hint)
    requires Sound(w) && Right(w) && Open(w, id) && !h.Invalid?
    ensures Right(Next(w, c, SendHint(id, h))) <==> !GoesWrong(w, c, SendHint(id, h))
  {
    var s, b := w.m.all[id], w.mins[id];
    var b' := T.Hinted(b, h, c);
    var val := b'.currentMin;
    var told := w.(mins := w.mins[id := b']);
    var w' := Told(told, s.tids, val).(stale := w.stale - {id});
    assert Counts(w', id) == s.active && (Counts(told, id) ==> s.active);
    hide MovesTo, SameValues, X.Next, Right, Agrees, Told, Counting, Others, Outweighs, Uclamp;
    ValuesSame(w, told, id);
    ValuesSame(w, w', id);
    KeptOthers(w, told, id);
    KeptShares(w, told, id);
    KeptOthers(w, w', id);
    KeptShares(w, w', id);
    hide Share, Sound;
    hide T.Hinted;
    AllThreads(w, told, w', id, s.tids, val);
    forall t
      ensures Agrees(w, told, w', id, s.tids, val, t) <==>
              !(!s.active && t in s.tids && Outweighs(w, id, t, val))
    {
      OpenShare(w, id, t);
      if t !in s.tids {
        AgreesUntold(w, told, w', id, s.tids, val, t);
      } else if s.active {
        AgreesCounted(w, told, w', id, s.tids, val, t);
      } else {
        AgreesTold(w, told, w', id, s.tids, val, t);
      }
    }
  }

  lemma {:induction false} ReportStaysRight(w: World, c: T.Levels, id: Id, output: int)
    requires Sound(w) && Right(w) && Open(w, id) && w.m.all[id].active
    ensures Right(Next(w, c, Report(id, output)))
  {
    var s, b := w.m.all[id], w.mins[id];
    var b' := T.Reported(b, output, c);
    var val := b'.currentMin;
    var told := w.(mins := w.mins[id := b'], stale := w.stale - {id});
    var w' := Told(told, s.tids, val);
    hide MovesTo, SameValues, X.Next, Right, Agrees, Told, Counting, Others, Outweighs, Uclamp;
    ValuesSame(w, told, id);
    ValuesSame(w, w', id);
    KeptOthers(w, told, id);
    KeptShares(w, told, id);
    KeptOthers(w, w', id);
    KeptShares(w, w', id);
    hide Share, Sound;
    hide T.Reported;
    AllThreads(w, told, w', id, s.tids, val);
    forall t
      ensures Agrees(w, told, w', id, s.tids, val, t)
    {
      OpenShare(w, id, t);
      if t in s.tids {
        AgreesCounted(w, told, w', id, s.tids, val, t);
      } else {
        AgreesUntold(w, told, w', id, s.tids, val, t);
      }
    }
  }

  lemma {:induction false} BoostTimeoutStaysRightIff(w: World, c: T.Levels, id: Id)
    requires Sound(w) && Right(w) && Open(w, id) && w.mins[id].saved.Just?
    ensures Right(Next(w, c, BoostTimeout(id))) <==> !GoesWrong(w, c, BoostTimeout(id))
  {
    var s, b := w.m.all[id], w.mins[id];
    var val := b.saved.v;
    var told := w.(mins := w.mins[id := T.Restored(b)]);
    var w' := Told(told, s.tids, val);
    assert Counts(told, id) == Counts(w', id) == Counts(w, id);
    hide MovesTo, SameValues, X.Next, Right, Agrees, Told, Counting, Others, Outweighs, Uclamp;
    ValuesSame(w, told, id);
    ValuesSame(w, w', id);
    KeptOthers(w, told, id);
    KeptShares(w, told, id);
    KeptOthers(w, w', id);
    KeptShares(w, w', id);
    hide Share, Sound;
    AllThreads(w, told, w', id, s.tids, val);
    forall t
      ensures Agrees(w, told, w', id, s.tids, val, t) <==>
              !(!Counts(w, id) && t in s.tids && Outweighs(w, id, t, val))
    {
      OpenShare(w, id, t);
      if t !in s.tids {
        AgreesUntold(w, told, w', id, s.tids, val, t);
      } else if Counts(w, id) {
        AgreesCounted(w, told, w', id, s.tids, val, t);
      } else {
        AgreesTold(w, told, w', id, s.tids, val, t);
      }
    }
  }

  lemma {:induction false} StaleTimeoutStaysRight(w: World, c: T.Levels, id: Id, timedOut: bool)
    requires Sound(w) && Right(w) && Open(w, id)
    ensures Right(Next(w, c, StaleTimeout(id, timedOut)))
  {
    var s, b := w.m.all[id], w.mins[id];
    var told := w.(mins := w.mins[id := T.Restored(b)], stale := if timedOut then w.stale + {id} else w.stale);
    var w' := Told(told, s.tids, 0);
    assert Counts(told, id) == Counts(w', id);
    hide MovesTo, SameValues, X.Next, Right, Agrees, Told, Counting, Others, Outweighs, Uclamp;
    ValuesSame(w, told, id);
    ValuesSame(w, w', id);
    KeptOthers(w, told, id);
    KeptShares(w, told, id);
    KeptOthers(w, w', id);
    KeptShares(w, w', id);
    hide Share, Sound;
    AllThreads(w, told, w', id, s.tids, 0);
    forall t
      ensures Agrees(w, told, w', id, s.tids, 0, t)
    {
      OpenShare(w, id, t);
      if t in s.tids {
        AgreesSilent(w, told, w', id, s.tids, t);
      } else {
        AgreesUntold(w, told, w', id, s.tids, 0, t);
      }
    }
  }

  lemma {:induction false} TimesOutStaysRightIff(w: World, c: T.Levels, id: Id)
    requires Sound(w) && Right(w) && Open(w, id)
    ensures Right(Next(w, c, TimesOut(id))) <==> !GoesWrong(w, c, TimesOut(id))
  {
    var s, b := w.m.all[id], w.mins[id];
    var told, w' := w.(stale := w.stale + {id}), w.(stale := w.stale + {id});
    assert !Counts(w', id);
    ToldNobody(told);
    hide MovesTo, SameValues, X.Next, Right, Agrees, Told, Counting, Others, Outweighs, Uclamp;
    ValuesSame(w, told, id);
    ValuesSame(w, w', id);
    KeptOthers(w, w', id);
    AllThreads(w, told, w', id, [], 0);
    forall t
      ensures Agrees(w, told, w', id, [], 0, t) <==>
              !(Counts(w, id) && t in s.tids && Outweighs(w, id, t, b.currentMin))
    {
      OpenShare(w, id, t);
      AgreesCutOff(w, told, w', id, [], 0, t);
      NothingOutweighs(w, id, t);
    }
  }

  lemma {:induction false} UnsupportedStaysRightIff(w: World, c: T.Levels, id: Id)
    requires Sound(w) && Right(w) && Open(w, id)
    ensures Right(Next(w, c, SendHint(id, T.Invalid))) <==> !GoesWrong(w, c, SendHint(id, T.Invalid))
  {
    var s, b := w.m.all[id], w.mins[id];
    var b' := T.Hinted(b, T.Invalid, c);
    var told, w' := w.(mins := w.mins[id := b']), w.(mins := w.mins[id := b']);
    assert Counts(w', id) == Counts(w, id) && b' == T.Restored(b);
    ToldNobody(told);
    hide MovesTo, SameValues, X.Next, Right, Agrees, Told, Counting, Others, Outweighs, Uclamp;
    ValuesSame(w, told, id);
    ValuesSame(w, w', id);
    KeptOthers(w, w', id);
    KeptShares(w, w', id);
    hide Share, Sound;
    AllThreads(w, told, w', id, [], 0);
    forall t
      ensures Agrees(w, told, w', id, [], 0, t) <==>
              !(Counts(w, id) && b.saved.Just? && t in s.tids && Lags(w, id, t, b))
    {
      OpenShare(w, id, t);
      if Counts(w, id) && b.saved.Just? && t in s.tids {
        AgreesUnlessLagging(w, told, w', id, t, b);
      } else {
        AgreesUntold(w, told, w', id, [], 0, t);
      }
    }
  }

  lemma {:induction false} AgreesUnlessLagging(w: World, told: World, w': World, id: Id, t: int, b: T.Boost)
    requires Share(w, id, t) == b.currentMin && Share(w', id, t) == T.Restored(b).currentMin
    ensures Agrees(w, told, w', id, [], 0, t) <==> !Lags(w, id, t, b)
  {
    var p := T.Peak(Others(w, id, t));
    UclampOfMax(p, b.currentMin);
    UclampOfMax(p, T.Restored(b).currentMin);
  }

  // --- Runs ------------------------------------------------------------------------------------------

  lemma {:induction false} NextKeepsSound(w: World, c: T.Levels, a: Action)
    requires Sound(w)
    ensures Sound(Next(w, c, a))
  {
    match a
    case Create(id, tids) => X.NextKeepsCoherent(w.m, X.Create(id, tids));
    case Pause(id) => X.NextKeepsCoherent(w.m, X.Pause(id));
    case Resume(id) => X.NextKeepsCoherent(w.m, X.Resume(id));
    case SetThreads(id, given) => X.NextKeepsCoherent(w.m, X.SetThreads(id, given));
    case Close(id) => X.NextKeepsCoherent(w.m, X.Close(id));
    case _ =>
    hide X.Coherent, Told, T.Hinted, T.Reported;
    KeysStay(w, c, a);
  }

  /** The kernel's side of a step aside, only the session calls move sessions and the index. */
  lemma {:induction false} KeysStay(w: World, c: T.Levels, a: Action)
    requires w.mins.Keys == w.m.all.Keys
    ensures Next(w, c, a).mins.Keys == Next(w, c, a).m.all.Keys
    ensures Next(w, c, a).m == w.m
            || (a.Create? && Next(w, c, a).m == X.Next(w.m, X.Create(a.id, a.tids)))
            || (a.Pause? && Next(w, c, a).m == X.Next(w.m, X.Pause(a.id)))
            || (a.Resume? && Next(w, c, a).m == X.Next(w.m, X.Resume(a.id)))
            || (a.SetThreads? && Next(w, c, a).m == X.Next(w.m, X.SetThreads(a.id, a.tids)))
            || (a.Close? && Next(w, c, a).m == X.Next(w.m, X.Close(a.id)))
  {
    hide T.Hinted, T.Reported, X.AddThreads, X.RemoveThreads;
  }

  /** A call on a right kernel leaves it right exactly when it does not go wrong. */
  lemma {:induction false} StepStaysRightIff(w: World, c: T.Levels, a: Action)
    requires Sound(w) && Right(w)
    ensures Right(Next(w, c, a)) <==> !GoesWrong(w, c, a)
  {
    if a.Create? {
      if a.id !in w.m.all {
        CreateStaysRight(w, c, a.id, a.tids);
      }
      hide Right, X.Coherent, Outweighs, Lags, Told, X.Next;
    } else if Open(w, a.id) {
      var s, b := w.m.all[a.id], w.mins[a.id];
      match a
      case Pause(id) => if s.active { PauseStaysRight(w, c, id); }
      case Resume(id) => if !s.active { ResumeStaysRightIff(w, c, id); }
      case SetThreads(id, given) => if given != [] { SetThreadsStaysRightIff(w, c, id, given); }
      case Close(id) => CloseStaysRight(w, c, id);
      case SendHint(id, h) =>
        if h.Invalid? { UnsupportedStaysRightIff(w, c, id); } else { HintStaysRightIff(w, c, id, h); }
      case Report(id, output) => if s.active { ReportStaysRight(w, c, id, output); }
      case BoostTimeout(id) => if b.saved.Just? { BoostTimeoutStaysRightIff(w, c, id); }
      case StaleTimeout(id, timedOut) => StaleTimeoutStaysRight(w, c, id, timedOut);
      case TimesOut(id) => TimesOutStaysRightIff(w, c, id);
    }
  }

  lemma {:induction false} StartIsRight(c: T.Levels)
    ensures Sound(Run(c, [])) && Right(Run(c, []))
  {
    forall t
      ensures RightAt(Run(c, []), t)
    {
      assert Counting(Run(c, []), t) == {};
    }
  }

  lemma {:induction false} ReachableSound(c: T.Levels, acts: seq<Action>)
    ensures Sound(Run(c, acts))
  {
    if acts == [] {
      StartIsRight(c);
    } else {
      ReachableSound(c, acts[..|acts| - 1]);
      NextKeepsSound(Run(c, acts[..|acts| - 1]), c, acts[|acts| - 1]);
    }
  }

  ghost predicate AlwaysRight(c: T.Levels, acts: seq<Action>) {
    forall n :: 0 <= n <= |acts| ==> Right(Run(c, acts[..n]))
  }

  ghost predicate NeverWrong(c: T.Levels, acts: seq<Action>) {
    forall n :: 0 <= n < |acts| ==> !GoesWrong(Run(c, acts[..n]), c, acts[n])
  }

  lemma {:induction false} OneMoreAction(c: T.Levels, acts: seq<Action>)
    requires acts != []
    ensures var before := acts[..|acts| - 1];
            && (AlwaysRight(c, acts) <==> AlwaysRight(c, before) && Right(Run(c, acts)))
            && (NeverWrong(c, acts) <==> NeverWrong(c, before) && !GoesWrong(Run(c, before), c, acts[|acts| - 1]))
            && (AlwaysRight(c, before) ==> Right(Run(c, before)))
  {
    hide Right, GoesWrong, Run;
    var before := acts[..|acts| - 1];
    assert acts[..|acts|] == acts && before[..|before|] == before;
    assert forall n :: 0 <= n <= |before| ==> before[..n] == acts[..n];
    assert forall n :: 0 <= n < |before| ==> before[n] == acts[n];
  }

  /**
   Over any run of calls and timeouts the kernel holds, after every one of them and for every
   thread, the clamped maximum over the sessions that count for it, exactly when none goes wrong.
   */
  lemma {:induction false} AlwaysRightIff(c: T.Levels, acts: seq<Action>)
    ensures AlwaysRight(c, acts) <==> NeverWrong(c, acts)
  {
    if acts == [] {
      StartIsRight(c);
      assert acts[..0] == [];
    } else {
      var before := acts[..|acts| - 1];
      AlwaysRightIff(c, before);
      OneMoreAction(c, acts);
      ReachableSound(c, before);
      hide Right, GoesWrong, AlwaysRight, NeverWrong, Next, Sound;
      if AlwaysRight(c, before) {
        StepStaysRightIff(Run(c, before), c, acts[|acts| - 1]);
      }
    }
  }

  lemma {:induction false} TwoActions(c: T.Levels, a: Action, b: Action)
    ensures Run(c, [a]) == Next(Run(c, []), c, a) && Run(c, [a, b]) == Next(Run(c, [a]), c, b)
  {
    hide Next;
    assert [a, b][..1] == [a] && [a][..0] == [];
  }

  /** A new session is alone under its threads, boosted, and the kernel knows. */
  lemma {:induction false} AfterCreate(c: T.Levels, id: Id, tids: seq<int>)
    requires T.ValidLevels(c)
    ensures var w := Run(c, [Create(id, tids)]);
            && Sound(w) && Right(w) && Open(w, id) && Counts(w, id)
            && w.m.all[id] == X.Session(tids, true, false) && w.mins[id] == T.Boost(c.high, T.Just(c.init))
            && forall t :: Others(w, id, t) == {} && (t in tids ==> Kernel(w, t) == Uclamp(c.high))
  {
    var w0, w := Run(c, []), Run(c, [Create(id, tids)]);
    TwoActions(c, Create(id, tids), Create(id, tids));
    StartIsRight(c);
    CreateMoves(w0.m, id, tids);
    CreateStaysRight(w0, c, id, tids);
    NextKeepsSound(w0, c, Create(id, tids));
    T.ResetRaisesToInit(T.Boost(c.low, T.Nothing), c);
    assert T.Constructed(c) == T.Boost(c.high, T.Just(c.init));
    forall t
      ensures Others(w, id, t) == {} && (t in tids ==> Kernel(w, t) == Uclamp(c.high))
    {
      assert RightAt(w, t);
      SplitPeak(w, id, t);
      OpenShare(w, id, t);
    }
  }

  /** A thread cut off is not told, and nobody counts for it who did not before. */
  lemma {:induction false} CutOff(w: World, c: T.Levels, id: Id, given: seq<int>, t: int)
    requires Sound(w) && Open(w, id) && given != [] && t !in X.NewThreads(w.m.all[id].tids, given)
    ensures var w' := Next(w, c, SetThreads(id, given));
            Kernel(w', t) == Kernel(w, t) && Counting(w', t) == Others(w, id, t)
  {
    var s, b := w.m.all[id], w.mins[id];
    var tids := X.NewThreads(s.tids, given);
    var told := w.(m := X.Next(w.m, X.SetThreads(id, given)), mins := w.mins[id := b.(currentMin := c.init)]);
    var w' := Told(told, tids, c.init);
    SetThreadsMoves(w.m, id, given);
    ToldKernel(told, tids, c.init, t);
    assert !CountsUnder(w', id, t) && Counting(w', t) == Others(w', id, t);
    hide MovesTo, SameValues, Told, Others, Counting, X.Next;
    ValuesSame(w, w', id);
    MovedOthers(w, w', id, tids);
    OthersSame(w, w', id, t);
  }

  /** A thread that `setThreads` cuts off keeps the boosted minimum, though nobody asks for any. */
  lemma {:induction false} CutOffThreadKeepsMinimum(c: T.Levels, id: Id)
    requires T.ValidLevels(c) && c.high > 0
    ensures var w := Run(c, [Create(id, [1, 2]), SetThreads(id, [3])]);
            Counting(w, 2) == {} && Kernel(w, 2) == Uclamp(c.high) > 0 && !Right(w)
  {
    var w1, w := Run(c, [Create(id, [1, 2])]), Run(c, [Create(id, [1, 2]), SetThreads(id, [3])]);
    assert X.NewThreads([1, 2], [3]) == [1, 3] && 2 in [1, 2] && 2 !in [1, 3];
    hide Counting, Others, Next, Run, Sound, Counts, Kernel, X.NewThreads;
    TwoActions(c, Create(id, [1, 2]), SetThreads(id, [3]));
    AfterCreate(c, id, [1, 2]);
    CutOff(w1, c, id, [3], 2);
    assert !RightAt(w, 2);
  }

  /** A hint that is not supported ends the boost behind the kernel's back. */
  lemma {:induction false} UnsupportedHintLags(c: T.Levels, id: Id)
    requires T.ValidLevels(c) && c.init < c.high <= UCLAMP_MAX
    ensures var w := Run(c, [Create(id, [1]), SendHint(id, T.Invalid)]);
            && id in w.mins && w.mins[id] == T.Boost(c.init, T.Nothing)
            && Kernel(w, 1) == c.high && !Right(w)
  {
    var w1 := Run(c, [Create(id, [1])]);
    TwoActions(c, Create(id, [1]), SendHint(id, T.Invalid));
    AfterCreate(c, id, [1]);
    assert 1 in [1] && Others(w1, id, 1) == {};
    assert Lags(w1, id, 1, w1.mins[id]);
    UnsupportedStaysRightIff(w1, c, id);
  }
}
