/**
 Reference counting of "turn on" requests per data item: the framework is asked to switch an
 item on by the first holder and off by the last one.
 */
module ActionRequests {
  import opened ToggleLog

  datatype ItemId = ItemId(id: nat)

  /** Messages sent to the framework. */
  datatype Call = AskOn(item: ItemId, timeOut: int) | AskOff(item: ItemId)

  datatype Requests = Requests(hasFramework: bool, counts: map<ItemId, nat>, calls: seq<Call>)

  datatype Op = SetFramework(present: bool) | TurnOn(item: ItemId, timeOut: int) | TurnOff(item: ItemId)

  function Count(r: Requests, item: ItemId): nat {
    if item in r.counts then r.counts[item] else 0
  }

  function Step(r: Requests, op: Op): Requests {
    match op
    case SetFramework(present) => r.(hasFramework := present)
    case TurnOn(item, timeOut) =>
      if !r.hasFramework then r
      else r.(counts := r.counts[item := Count(r, item) + 1],
              calls := if item in r.counts then r.calls else r.calls + [AskOn(item, timeOut)])
    case TurnOff(item) =>
      if !r.hasFramework || item !in r.counts then r
      else if r.counts[item] == 1 then r.(counts := r.counts - {item}, calls := r.calls + [AskOff(item)])
      else r.(counts := r.counts[item := if r.counts[item] > 0 then r.counts[item] - 1 else 0])
  }

  class RequestCounter {
    var mFrameworkActionReqObj: bool
    var mActiveRequestCount: map<ItemId, nat>
    var calls: seq<Call>

    /** Entries are only kept while somebody holds them. */
    ghost predicate Valid()
      reads this
    {
      forall i :: i in mActiveRequestCount ==> mActiveRequestCount[i] > 0
    }

    ghost function View(): Requests
      reads this
    {
      Requests(mFrameworkActionReqObj, mActiveRequestCount, calls)
    }

    constructor ()
      ensures Valid() && View() == Requests(false, map[], [])
    {
      mFrameworkActionReqObj, mActiveRequestCount, calls := false, map[], [];
    }

    method SetFrameworkActionReqObj(present: bool)
      requires Valid()
      modifies this
      ensures Valid() && View() == Step(old(View()), SetFramework(present))
    {
      mFrameworkActionReqObj := present;
    }

    method TurnOn(dit: ItemId, timeOut: int)
      requires Valid()
      modifies this
      ensures Valid() && View() == Step(old(View()), Op.TurnOn(dit, timeOut))
    {
      if !mFrameworkActionReqObj {
        return;
      }
      if dit !in mActiveRequestCount {
        mActiveRequestCount := mActiveRequestCount[dit := 1];
        calls := calls + [AskOn(dit, timeOut)];
      } else {
        mActiveRequestCount := mActiveRequestCount[dit := mActiveRequestCount[dit] + 1];
      }
    }

    method TurnOff(dit: ItemId)
      requires Valid()
      modifies this
      ensures Valid() && View() == Step(old(View()), Op.TurnOff(dit))
    {
      if !mFrameworkActionReqObj {
        return;
      }
      if dit in mActiveRequestCount {
        mActiveRequestCount := mActiveRequestCount[dit := mActiveRequestCount[dit] - 1];
        if mActiveRequestCount[dit] == 0 {
          mActiveRequestCount := mActiveRequestCount - {dit};
          calls := calls + [AskOff(dit)];
        }
      }
      assert dit in old(mActiveRequestCount) ==>
          old(mActiveRequestCount)[dit := old(mActiveRequestCount)[dit] - 1] - {dit}
          == old(mActiveRequestCount) - {dit};
    }
  }

  // --- Runs ------------------------------------------------------------------------------------

  function Run(ops: seq<Op>): Requests {
    if ops == [] then Requests(false, map[], [])
    else Step(Run(ops[..|ops| - 1]), ops[|ops| - 1])
  }

  predicate HasFramework(ops: seq<Op>) {
    if ops == [] then false
    else if ops[|ops| - 1].SetFramework? then ops[|ops| - 1].present
    else HasFramework(ops[..|ops| - 1])
  }

  /** Who still holds the item: requests made while there was a framework, less their releases. */
  function Holders(ops: seq<Op>, item: ItemId): nat {
    if ops == [] then 0
    else
      var n, op := Holders(ops[..|ops| - 1], item), ops[|ops| - 1];
      if op.SetFramework? || op.item != item || !HasFramework(ops) then n
      else if op.TurnOn? then n + 1
      else if n > 0 then n - 1 else 0
  }

  function CallMeans(c: Call): Toggle<ItemId> {
    if c.AskOn? then On(c.item) else Off(c.item)
  }

  /**
   Over any run, an item is counted as often as it is held, the framework has it switched on
   exactly while somebody holds it, and is never asked for what it already does.
   */
  lemma {:induction false} OnExactlyWhileHeld(ops: seq<Op>, item: ItemId)
    ensures var r := Run(ops);
            && r.hasFramework == HasFramework(ops)
            && (item in r.counts <==> Holders(ops, item) > 0)
            && Count(r, item) == Holders(ops, item)
            && (IsOn(CallMeans, r.calls, item) <==> Holders(ops, item) > 0)
            && Alternates(CallMeans, r.calls)
  {
    if ops != [] {
      var before, op := ops[..|ops| - 1], ops[|ops| - 1];
      OnExactlyWhileHeld(before, item);
      if !op.SetFramework? {
        OnExactlyWhileHeld(before, op.item);
        var call := if op.TurnOn? then AskOn(op.item, op.timeOut) else AskOff(op.item);
        OneCall(CallMeans, Run(before).calls, call, item);
        OneCall(CallMeans, Run(before).calls, call, op.item);
      }
    }
  }

  /**
   Over any run the framework is called only by the first holder of an item, with that holder's
   time-out, and by the last one.
   */
  lemma {:induction false} CalledByFirstAndLast(ops: seq<Op>)
    requires ops != []
    ensures var init, op := ops[..|ops| - 1], ops[|ops| - 1];
            Run(ops).calls == Run(init).calls +
              if op.SetFramework? || !HasFramework(init) then []
              else if op.TurnOn? && Holders(init, op.item) == 0 then [AskOn(op.item, op.timeOut)]
              else if op.TurnOff? && Holders(init, op.item) == 1 then [AskOff(op.item)] else []
  {
    var init, op := ops[..|ops| - 1], ops[|ops| - 1];
    assert Run(init).calls + [] == Run(init).calls;
    if !op.SetFramework? {
      OnExactlyWhileHeld(init, op.item);
    }
  }
}
