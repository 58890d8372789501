/**
 Which call of `updateTimer` a session timer's deadlines, firings and messages belong to, over
 any interleaving of the threads.
 */
module TimerUpdates {
  import opened SessionTimer

  /** A call of `updateTimer`: the time it read first, and its delay. */
  datatype Call = Call(clock: int, delay: int)

  /** The calls begun along a run. */
  function Calls(s: System, acts: seq<Action>): seq<Call>
    decreases |acts|
  {
    if acts == [] then []
    else (if acts[0].Update? && s.caller.Idle? then [Call(s.now, acts[0].delay)] else [])
         + Calls(Next(s, acts[0]), acts[1..])
  }

  /** The deadline is that of the call with this number, counting from 1. */
  predicate Of(calls: seq<Call>, number: nat, deadline: int) {
    1 <= number <= |calls| && deadline == calls[number - 1].clock + calls[number - 1].delay
  }

  /** Everything in the state that stems from some call names that call. */
  ghost predicate Named(s: System, calls: seq<Call>) {
    && s.t.update == (if s.caller.MustStore? then |calls| - 1 else |calls|)
    && (s.caller.MustStore? ==> calls[|calls| - 1] == Call(s.caller.clock, s.caller.delay))
    && (s.caller.MustSend? ==> calls != [] && calls[|calls| - 1].delay == s.caller.delay)
    && (s.t.update > 0 ==> Of(calls, s.t.update, s.t.timeout))
    && (s.t.queue != [] || !s.looper.Polling? ==> s.t.update > 0)
    && (s.looper.Decided? ==> Of(calls, s.looper.update, s.looper.deadline))
    && (forall f :: f in s.t.fired ==> Of(calls, f.update, f.deadline))
  }

  lemma StepKeepsNamed(s: System, a: Action, calls: seq<Call>)
    requires Named(s, calls)
    ensures Named(Next(s, a), calls + if a.Update? && s.caller.Idle? then [Call(s.now, a.delay)] else [])
  {
    if a.Finish? && s.looper.Decided? && s.looper.deadline - s.looper.clock <= 0 {
      var f := Firing(s.looper.deadline, s.looper.update, s.looper.clock);
      assert forall g :: g in s.t.fired + [f] <==> g in s.t.fired || g == f;
      assert calls + [] == calls;
    }
  }

  lemma {:induction false} RunKeepsNamed(s: System, acts: seq<Action>, calls: seq<Call>)
    requires Named(s, calls)
    ensures Named(Run(s, acts), calls + Calls(s, acts))
    decreases |acts|
  {
    if acts == [] {
      assert calls + [] == calls;
    } else {
      hide Named, Next;
      StepKeepsNamed(s, acts[0], calls);
      var more := if acts[0].Update? && s.caller.Idle? then [Call(s.now, acts[0].delay)] else [];
      RunKeepsNamed(Next(s, acts[0]), acts[1..], calls + more);
      assert calls + (more + Calls(Next(s, acts[0]), acts[1..])) == calls + more + Calls(Next(s, acts[0]), acts[1..]);
    }
  }

  /**
   In every interleaving the deadline in force is that of the last call that has stored one, a
   firing's is that of the call it names, and `onTimeout` never runs before the time that call
   read plus its delay.
   */
  lemma FiringsKeepTheirDelay(unset: int, now: int, acts: seq<Action>)
    ensures var s, calls := Run(Start(unset, now), acts), Calls(Start(unset, now), acts);
            && |calls| - 1 <= s.t.update <= |calls|
            && (s.t.update > 0 ==>
                  s.t.timeout == calls[s.t.update - 1].clock + calls[s.t.update - 1].delay)
            && (forall f :: f in s.t.fired ==>
                  && 1 <= f.update <= s.t.update
                  && calls[f.update - 1].clock + calls[f.update - 1].delay == f.deadline <= f.clock)
  {
    var start := Start(unset, now);
    RunKeepsNamed(start, acts, []);
    RunKeepsInv(start, acts);
    assert [] + Calls(start, acts) == Calls(start, acts);
  }

  /**
   A message is due when its deadline is, later only by the time that has passed since the clock
   was read: by the caller for a new deadline, by the looper for one that has not been reached.
   */
  lemma MessagesAreDueAtDeadline(unset: int, now: int, acts: seq<Action>)
    ensures var s, calls := Run(Start(unset, now), acts), Calls(Start(unset, now), acts);
            && (s.caller.MustSend? ==>
                  calls != [] && Next(s, Send).t.queue == [s.t.timeout + (s.now - calls[|calls| - 1].clock)])
            && (s.looper.Decided? && s.looper.clock < s.looper.deadline ==>
                  Next(s, Finish).t.queue == [s.looper.deadline + (s.now - s.looper.clock)])
  {
    var start := Start(unset, now);
    RunKeepsNamed(start, acts, []);
    assert [] + Calls(start, acts) == Calls(start, acts);
  }
}
