/**
 Logs of calls that switch things on and off, each thing known by its key. `means` says what a
 call of the particular log does.
 */
module ToggleLog {

  datatype Toggle<K> = On(key: K) | Off(key: K) | Neither

  /** Whether the calls so far have left `key` switched on. */
  function IsOn<C, K(==)>(means: C -> Toggle<K>, calls: seq<C>, key: K): bool {
    if calls == [] then false
    else
      var last := means(calls[|calls| - 1]);
      if last.Neither? || last.key != key then IsOn(means, calls[..|calls| - 1], key) else last.On?
  }

  /** The toggle is a real change after these calls. */
  predicate IsChange<C, K(==)>(means: C -> Toggle<K>, calls: seq<C>, t: Toggle<K>) {
    match t
    case On(key) => !IsOn(means, calls, key)
    case Off(key) => IsOn(means, calls, key)
    case Neither => true
  }

  /** No call asks for what its key already is: on and off strictly alternate, starting with on. */
  predicate Alternates<C, K(==)>(means: C -> Toggle<K>, calls: seq<C>) {
    calls == [] ||
    (Alternates(means, calls[..|calls| - 1]) && IsChange(means, calls[..|calls| - 1], means(calls[|calls| - 1])))
  }

  lemma OneCall<C, K>(means: C -> Toggle<K>, calls: seq<C>, c: C, key: K)
    ensures IsOn(means, calls + [c], key) ==
            if means(c).Neither? || means(c).key != key then IsOn(means, calls, key) else means(c).On?
    ensures Alternates(means, calls + [c]) <==> Alternates(means, calls) && IsChange(means, calls, means(c))
  {
    assert (calls + [c])[..|calls|] == calls;
  }
}
