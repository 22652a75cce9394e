/** The decorator itself: one Memo object per decorated function, owning its
    own table, updated in place by each call. */
module CacheDecorator {
  import opened CacheKeys
  import opened CacheSpec

  /** A decorated function: the timeout fixed when the decorator was applied
      and the table of stored results. The ghost fields record every call
      made so far, every result handed back and how many times the wrapped
      function ran; Valid() ties the table to a Run of that history. */
  class Memo<A(==), V, E> {
    const timeout: int
    var cache: map<Key<A>, Entry<V>>

    ghost var history: seq<Request<Key<A>, V, E>>
    ghost var returned: seq<Result<V, E>>
    ghost var invocations: nat

    ghost predicate Valid()
      reads this
    {
      var t := Run(map[], timeout, history);
      cache == t.cache && returned == t.results && invocations == t.invocations
    }

    /** Applies the decorator: the timeout is taken as given, unchecked, and
        the table starts empty and belongs to this object alone. */
    constructor (timeout: int)
      ensures Valid()
      ensures this.timeout == timeout && cache == map[]
      ensures history == [] && returned == [] && invocations == 0
    {
      this.timeout := timeout;
      cache := map[];
      history := [];
      returned := [];
      invocations := 0;
    }

    /** One call of the decorated function with positional arguments args
        and named arguments kwargs. The freshness test reads the clock as
        now1; a new result is stored with the later reading now2. f is what
        the wrapped function returns or raises at this call. */
    method Call(args: seq<A>, kwargs: seq<NamedArg<A>>, now1: int, now2: int, f: Key<A> -> Result<V, E>)
      returns (r: Result<V, E>)
      requires Valid()
      modifies this
      ensures Valid()
      ensures var o := Step(old(cache), timeout, KeyOf(args, kwargs), now1, now2, f);
              && r == o.result && cache == o.cache
              && invocations == old(invocations) + (if o.invoked then 1 else 0)
      ensures history == old(history) + [Request(KeyOf(args, kwargs), now1, now2, f)]
      ensures returned == old(returned) + [r]
    {
      var key := KeyOf(args, kwargs);
      ghost var q := Request(key, now1, now2, f);
      RunAppend(map[], timeout, history, q);
      if key in cache {
        var Entry(result, timestamp) := cache[key];
        if now1 - timestamp < timeout {
          r := Ok(result);
          history, returned := history + [q], returned + [r];
          return;
        }
      }
      r := f(key);
      invocations := invocations + 1;
      if r.Ok? {
        cache := cache[key := Entry(r.value, now2)];
      }
      history, returned := history + [q], returned + [r];
    }
  }

  /** Doubling the single positional argument, or raising when there is not
      exactly one. */
  function Double(k: Key<int>): (r: Result<int, string>)
  {
    if |k.args| == 1 then Ok(2 * k.args[0]) else Err("expected one argument")
  }

  /** A timeout of 60: calling with 3 twice in a row runs the function once
      and returns 6 both times. */
  method RepeatWithinTimeout() returns (r1: Result<int, string>, r2: Result<int, string>, ghost runs: nat)
    ensures r1 == Ok(6) && r2 == Ok(6)
    ensures runs == 1
  {
    var m := new Memo<int, int, string>(60);
    r1 := m.Call([3], [], 100, 100, Double);
    r2 := m.Call([3], [], 100, 100, Double);
    runs := m.invocations;
  }

  /** A timeout of 60: calling with 3 again 61 seconds later runs the
      function a second time. */
  method RepeatAfterTimeout() returns (r1: Result<int, string>, r2: Result<int, string>, ghost runs: nat)
    ensures r1 == Ok(6) && r2 == Ok(6)
    ensures runs == 2
  {
    var m := new Memo<int, int, string>(60);
    r1 := m.Call([3], [], 100, 100, Double);
    r2 := m.Call([3], [], 161, 161, Double);
    runs := m.invocations;
  }

  /** A refresh that raises keeps the expired entry it failed to replace:
      the table still holds the result stored at time 0. */
  method FailureKeepsEntry(f: Key<int> -> Result<int, string>) returns (r1: Result<int, string>, kept: Entry<int>)
    requires f(KeyOf([3], [])).Err?
    ensures r1 == f(KeyOf([3], [])) && kept == Entry(6, 0)
  {
    var m := new Memo<int, int, string>(60);
    var r0 := m.Call([3], [], 0, 0, Double);
    r1 := m.Call([3], [], 70, 70, f);
    kept := m.cache[KeyOf([3], [])];
  }
}
