/**
 The location API's fixed array of adapters: filled at the first hole, compacted in place by
 moving the last entry into the gap, and announced to the modem by open and close messages.
 */
module AdapterArray {

  const MAX_ADAPTERS: nat := 10

  class Adapter {
  }

  /** Messages posted to the API's own task. */
  datatype Msg = Open(adapter: Adapter?) | Close

  predicate Distinct(s: seq<Adapter?>) {
    forall i, j :: 0 <= i < j < |s| ==> s[i] != s[j]
  }

  ghost predicate ValidList(s: seq<Adapter?>) {
    |s| <= MAX_ADAPTERS && Distinct(s) && null !in s
  }

  function IndexOf(s: seq<Adapter?>, a: Adapter?): (i: nat)
    requires a in s
    ensures i < |s| && s[i] == a && a !in s[..i]
  {
    if s[0] == a then 0 else 1 + IndexOf(s[1..], a)
  }

  function Added(s: seq<Adapter?>, a: Adapter?): seq<Adapter?> {
    if a == null || a in s || |s| == MAX_ADAPTERS then s else s + [a]
  }

  function Removed(s: seq<Adapter?>, a: Adapter?): seq<Adapter?> {
    if a in s then s[IndexOf(s, a) := s[|s| - 1]][..|s| - 1] else s
  }

  class LocApiBase {
    const mLocAdapters: array<Adapter?>
    var msgs: seq<Msg>
    ghost var used: nat

    ghost predicate Valid()
      reads this, mLocAdapters
    {
      && mLocAdapters.Length == MAX_ADAPTERS
      && used <= MAX_ADAPTERS
      && (forall i :: used <= i < MAX_ADAPTERS ==> mLocAdapters[i] == null)
      && ValidList(mLocAdapters[..used])
    }

    /** The registered adapters: everything before the first null. */
    ghost function Adapters(): (s: seq<Adapter?>)
      requires Valid()
      reads this, mLocAdapters
      ensures ValidList(s)
    {
      mLocAdapters[..used]
    }

    constructor ()
      ensures Valid() && fresh(mLocAdapters)
      ensures Adapters() == [] && msgs == []
    {
      mLocAdapters := new Adapter?[MAX_ADAPTERS](_ => null);
      msgs, used := [], 0;
    }

    method AddAdapter(adapter: Adapter?)
      requires Valid()
      modifies this, mLocAdapters
      ensures Valid()
      ensures Adapters() == Added(old(Adapters()), adapter)
      ensures msgs == old(msgs) + if Adapters() == old(Adapters()) then [] else [Open(adapter)]
    {
      ghost var before := Adapters();
      var i := 0;
      while i < MAX_ADAPTERS && mLocAdapters[i] != adapter
        invariant i <= MAX_ADAPTERS && i <= used && Valid() && Adapters() == before
        invariant used == old(used) && msgs == old(msgs)
        invariant adapter !in mLocAdapters[..i]
      {
        if mLocAdapters[i] == null {
          assert i == used;
          mLocAdapters[i] := adapter;
          used := used + 1;
          assert mLocAdapters[..used] == before + [adapter];
          msgs := msgs + [Open(adapter)];
          return;
        }
        i := i + 1;
      }
      if i < used {
        assert before[i] == adapter;
      }
    }

    /** The body of the removal loop once the adapter is found at `j`; `i` is the last entry's index. */
    method CloseGap(j: nat) returns (i: nat)
      requires Valid() && j < used
      modifies this, mLocAdapters
      ensures Valid() && i == used == old(used) - 1
      ensures Adapters() == old(Adapters())[j := old(Adapters())[i]][..i]
      ensures msgs == old(msgs) + if used == 0 then [Close] else [Open(null)]
    {
      ghost var before := Adapters();
      mLocAdapters[j] := null;
      i := j + 1;
      while i < MAX_ADAPTERS && mLocAdapters[i] != null
        invariant j < i <= used
        invariant mLocAdapters[..used] == before[j := null]
      {
        i := i + 1;
      }
      i := i - 1;
      mLocAdapters[j] := mLocAdapters[i];
      mLocAdapters[i] := null;
      used := used - 1;
      LastMoved(before, j);
      assert mLocAdapters[..used] == before[j := before[i]][..i];
      if 0 == i {
        msgs := msgs + [Close];
      } else {
        msgs := msgs + [Open(null)];
      }
    }

    method RemoveAdapter(adapter: Adapter?)
      requires Valid()
      modifies this, mLocAdapters
      ensures Valid()
      ensures Adapters() == Removed(old(Adapters()), adapter)
      ensures msgs == old(msgs) +
                      if adapter !in old(Adapters()) then []
                      else if Adapters() == [] then [Close] else [Open(null)]
    {
      ghost var before := Adapters();
      ghost var removed := false;
      var i := 0;
      while i < MAX_ADAPTERS && mLocAdapters[i] != null
        invariant i <= MAX_ADAPTERS && Valid()
        invariant !removed ==> i <= used && Adapters() == before && msgs == old(msgs) && adapter !in before[..i]
        invariant removed ==> i == used + 1 && adapter in before
                              && Adapters() == Removed(before, adapter)
                              && msgs == old(msgs) + if used == 0 then [Close] else [Open(null)]
      {
        if mLocAdapters[i] == adapter {
          assert before[i] == adapter;
          FirstIndex(before, adapter, i);
          i := CloseGap(i);
          removed := true;
        }
        i := i + 1;
      }
      if !removed {
        assert i == used && before[..i] == before;
      }
    }
  }

  lemma FirstIndex(s: seq<Adapter?>, a: Adapter?, i: nat)
    requires Distinct(s) && i < |s| && s[i] == a
    ensures a in s && IndexOf(s, a) == i
  {
    assert a !in s[..IndexOf(s, a)];
  }

  /** Moving the last entry into a gap keeps the rest, and loses only what was in the gap. */
  lemma LastMoved(s: seq<Adapter?>, j: nat)
    requires ValidList(s) && j < |s|
    ensures var s' := s[j := s[|s| - 1]][..|s| - 1];
            ValidList(s') && (forall x :: x in s' <==> x in s && x != s[j])
  {
    var n := |s| - 1;
    var s' := s[j := s[n]][..n];
    forall x | x in s && x != s[j]
      ensures x in s'
    {
      var k :| 0 <= k < |s| && s[k] == x;
      assert s'[if k == n then j else k] == x;
    }
  }

  // --- Runs ----------------------------------------------------------------------------------

  datatype Op = Add(a: Adapter?) | Remove(a: Adapter?)

  function Step(s: seq<Adapter?>, op: Op): seq<Adapter?> {
    match op
    case Add(a) => Added(s, a)
    case Remove(a) => Removed(s, a)
  }

  /** The same operations on a set that holds at most ten adapters. */
  function SetStep(s: set<Adapter?>, op: Op): set<Adapter?> {
    match op
    case Add(a) => if a == null || |s| >= 10 then s else s + {a}
    case Remove(a) => s - {a}
  }

  function Run(ops: seq<Op>): seq<Adapter?> {
    if ops == [] then [] else Step(Run(ops[..|ops| - 1]), ops[|ops| - 1])
  }

  function SetRun(ops: seq<Op>): set<Adapter?> {
    if ops == [] then {} else SetStep(SetRun(ops[..|ops| - 1]), ops[|ops| - 1])
  }

  ghost function ToSet(s: seq<Adapter?>): set<Adapter?> {
    set x | x in s
  }

  lemma {:induction false} DistinctSize(s: seq<Adapter?>)
    requires Distinct(s)
    ensures |ToSet(s)| == |s|
  {
    if s != [] {
      var rest := s[..|s| - 1];
      DistinctSize(rest);
      assert ToSet(s) == ToSet(rest) + {s[|s| - 1]};
    }
  }

  lemma AddRefinesSet(s: seq<Adapter?>, a: Adapter?)
    requires ValidList(s)
    ensures ValidList(Added(s, a))
    ensures ToSet(Added(s, a)) == SetStep(ToSet(s), Add(a))
  {
    DistinctSize(s);
  }

  lemma RemoveRefinesSet(s: seq<Adapter?>, a: Adapter?)
    requires ValidList(s)
    ensures ValidList(Removed(s, a))
    ensures ToSet(Removed(s, a)) == SetStep(ToSet(s), Remove(a))
  {
    if a in s {
      var i := IndexOf(s, a);
      LastMoved(s, i);
    }
  }

  lemma StepRefinesSet(s: seq<Adapter?>, op: Op)
    requires ValidList(s)
    ensures ValidList(Step(s, op))
    ensures ToSet(Step(s, op)) == SetStep(ToSet(s), op)
  {
    match op
    case Add(a) => AddRefinesSet(s, a);
    case Remove(a) => RemoveRefinesSet(s, a);
  }

  /**
   Over any run of adds and removes the array is a hole-free, duplicate-free list of exactly
   the adapters a bounded set would hold, so it becomes empty (which is when a close message is
   sent) exactly when that set does.
   */
  lemma {:induction false} ArrayIsABoundedSet(ops: seq<Op>)
    ensures ValidList(Run(ops)) && ToSet(Run(ops)) == SetRun(ops)
    ensures Run(ops) == [] <==> SetRun(ops) == {}
  {
    if ops != [] {
      ArrayIsABoundedSet(ops[..|ops| - 1]);
      StepRefinesSet(Run(ops[..|ops| - 1]), ops[|ops| - 1]);
    }
    if Run(ops) != [] {
      assert Run(ops)[0] in ToSet(Run(ops));
    }
  }
}
