/** The behaviour of a time-to-live memoising wrapper, as values: one call is
    a Step from the table before it to the table after it, and a sequence of
    calls is a Run. The wrapper class in module CacheDecorator is proved to
    behave as Step and to keep its history equal to a Run. */
module CacheSpec {

  /** What the wrapped function does at one call: it returns a value or it
      raises an exception. */
  datatype Result<V, E> = Ok(value: V) | Err(error: E)

  /** A table entry: the stored result and the clock reading taken when it
      was stored. */
  datatype Entry<V> = Entry(value: V, storedAt: int)

  /** One call of the wrapper: its key, the clock reading used for the
      freshness test (now1), the clock reading stored with a new result
      (now2), and what the wrapped function yields at this call. */
  datatype Request<!K, V, E> = Request(key: K, now1: int, now2: int, f: K -> Result<V, E>)

  /** What one call leaves behind: the new table, the result handed to the
      caller, and whether the wrapped function was invoked. */
  datatype Outcome<K, V, E> = Outcome(cache: map<K, Entry<V>>, result: Result<V, E>, invoked: bool)

  /** What a sequence of calls leaves behind: the final table, the result of
      each call in order, and how many times the wrapped function ran. */
  datatype Trace<K, V, E> = Trace(cache: map<K, Entry<V>>, results: seq<Result<V, E>>, invocations: nat)

  /** The key has an entry younger than the timeout at time now. The test is
      strict, so an entry exactly timeout old is stale. */
  predicate Fresh<K, V>(cache: map<K, Entry<V>>, timeout: int, key: K, now: int)
  {
    key in cache && now - cache[key].storedAt < timeout
  }

  /** One call of the wrapper. A fresh entry is returned as it is; otherwise
      the wrapped function runs, and only a value it returns is stored. */
  function Step<K, V, E>(cache: map<K, Entry<V>>, timeout: int, key: K, now1: int, now2: int,
                         f: K -> Result<V, E>): (o: Outcome<K, V, E>)
    // no entry is ever removed
    ensures cache.Keys <= o.cache.Keys
    // only the entry of the call's own key may change
    ensures forall k :: k in cache && k != key ==> o.cache[k] == cache[k]
    ensures o.cache.Keys <= cache.Keys + {key}
    // a raised exception leaves the table exactly as it was
    ensures o.result.Err? ==> o.cache == cache
    // a value handed back is the value the table now holds for the key
    ensures o.result.Ok? ==> key in o.cache && o.cache[key].value == o.result.value
  {
    if Fresh(cache, timeout, key, now1) then
      Outcome(cache, Ok(cache[key].value), false)
    else
      var r := f(key);
      Outcome(if r.Ok? then cache[key := Entry(r.value, now2)] else cache, r, true)
  }

  /** A sequence of calls on one table, in order. */
  function Run<K, V, E>(cache: map<K, Entry<V>>, timeout: int, reqs: seq<Request<K, V, E>>): (t: Trace<K, V, E>)
    ensures |t.results| == |reqs|
    ensures t.invocations <= |reqs|
    ensures cache.Keys <= t.cache.Keys
    decreases |reqs|
  {
    if reqs == [] then
      Trace(cache, [], 0)
    else
      var q := reqs[0];
      var o := Step(cache, timeout, q.key, q.now1, q.now2, q.f);
      var t := Run(o.cache, timeout, reqs[1..]);
      Trace(t.cache, [o.result] + t.results, t.invocations + (if o.invoked then 1 else 0))
  }

  /** Clock readings that never go backwards: each call's lookup is not
      before the previous store, and each store is not before its lookup. */
  ghost predicate Chronological<K, V, E>(reqs: seq<Request<K, V, E>>, since: int)
    decreases |reqs|
  {
    reqs == [] ||
    (since <= reqs[0].now1 <= reqs[0].now2 && Chronological(reqs[1..], reqs[0].now2))
  }

  /** Every entry was stored no later than time t. */
  ghost predicate StoredBy<K, V>(cache: map<K, Entry<V>>, t: int)
  {
    forall k :: k in cache ==> cache[k].storedAt <= t
  }

  /** Every entry holds what g returns for its key. */
  ghost predicate Agrees<K, V, E>(cache: map<K, Entry<V>>, g: K -> Result<V, E>)
  {
    forall k :: k in cache ==> g(k) == Ok(cache[k].value)
  }

  // ---------------------------------------------------------------------
  // One call

  /** A fresh hit returns the stored value, does not run the function and
      leaves the table alone. */
  lemma FreshHit<K, V, E>(cache: map<K, Entry<V>>, timeout: int, key: K, now1: int, now2: int,
                          f: K -> Result<V, E>)
    requires key in cache && now1 - cache[key].storedAt < timeout
    ensures var o := Step(cache, timeout, key, now1, now2, f);
            o.result == Ok(cache[key].value) && !o.invoked && o.cache == cache
  {
  }

  /** A key with no entry runs the function once, returns what it returns,
      and, when it returns a value, stores that value stamped with now2. */
  lemma MissOnAbsent<K, V, E>(cache: map<K, Entry<V>>, timeout: int, key: K, now1: int, now2: int,
                              f: K -> Result<V, E>)
    requires key !in cache
    ensures var o := Step(cache, timeout, key, now1, now2, f);
            && o.invoked && o.result == f(key)
            && o.cache == (if f(key).Ok? then cache[key := Entry(f(key).value, now2)] else cache)
  {
  }

  /** An entry at least timeout old is ignored: the function runs and, when it
      returns a value, that value and now2 replace the old entry. */
  lemma ExpiredRefreshes<K, V, E>(cache: map<K, Entry<V>>, timeout: int, key: K, now1: int, now2: int,
                                  f: K -> Result<V, E>)
    requires key in cache && now1 - cache[key].storedAt >= timeout
    ensures var o := Step(cache, timeout, key, now1, now2, f);
            && o.invoked && o.result == f(key)
            && o.cache == (if f(key).Ok? then cache[key := Entry(f(key).value, now2)] else cache)
  {
  }

  /** A call runs the function exactly when the key has no fresh entry. */
  lemma InvokedIffNotFresh<K, V, E>(cache: map<K, Entry<V>>, timeout: int, key: K, now1: int, now2: int,
                                    f: K -> Result<V, E>)
    ensures Step(cache, timeout, key, now1, now2, f).invoked <==> !Fresh(cache, timeout, key, now1)
  {
  }

  /** With a timeout of zero or less and no entry stamped after now1, every
      call runs the function: the elapsed time is never negative and the
      freshness test is strict. */
  lemma NonPositiveTimeoutMisses<K, V, E>(cache: map<K, Entry<V>>, timeout: int, key: K, now1: int, now2: int,
                                          f: K -> Result<V, E>)
    requires timeout <= 0 && StoredBy(cache, now1)
    ensures Step(cache, timeout, key, now1, now2, f).invoked
  {
  }

  /** Looking up one key never consults another key's entry: a call on k1
      does not change what a following call on k2 returns or whether it runs
      the function, nor the entry k2 ends up with. */
  lemma DistinctKeysIndependent<K, V, E>(cache: map<K, Entry<V>>, timeout: int,
                                         k1: K, a1: int, b1: int, f1: K -> Result<V, E>,
                                         k2: K, a2: int, b2: int, f2: K -> Result<V, E>)
    requires k1 != k2
    ensures var direct := Step(cache, timeout, k2, a2, b2, f2);
            var after := Step(Step(cache, timeout, k1, a1, b1, f1).cache, timeout, k2, a2, b2, f2);
            && after.result == direct.result && after.invoked == direct.invoked
            && (k2 in after.cache <==> k2 in direct.cache)
            && (k2 in direct.cache ==> after.cache[k2] == direct.cache[k2])
  {
  }

  /** Wrapping a deterministic function is invisible: if every entry holds
      what f returns for its key, the call returns f(key) and the table still
      agrees with f. */
  lemma TransparentStep<K, V, E>(cache: map<K, Entry<V>>, timeout: int, key: K, now1: int, now2: int,
                                 f: K -> Result<V, E>)
    requires Agrees(cache, f)
    ensures var o := Step(cache, timeout, key, now1, now2, f);
            o.result == f(key) && Agrees(o.cache, f)
  {
  }

  // ---------------------------------------------------------------------
  // Sequences of calls

  /** Running one more call after a sequence is a Step on the table the
      sequence left. */
  lemma {:induction false} RunAppend<K, V, E>(cache: map<K, Entry<V>>, timeout: int,
                                              reqs: seq<Request<K, V, E>>, q: Request<K, V, E>)
    ensures var t := Run(cache, timeout, reqs);
            var o := Step(t.cache, timeout, q.key, q.now1, q.now2, q.f);
            var t' := Run(cache, timeout, reqs + [q]);
            && t'.cache == o.cache
            && t'.results == t.results + [o.result]
            && t'.invocations == t.invocations + (if o.invoked then 1 else 0)
    decreases |reqs|
  {
    if reqs == [] {
      assert [] + [q] == [q];
      assert [q][1..] == [];
    } else {
      var q0 := reqs[0];
      var o0 := Step(cache, timeout, q0.key, q0.now1, q0.now2, q0.f);
      assert (reqs + [q])[0] == q0;
      assert (reqs + [q])[1..] == reqs[1..] + [q];
      RunAppend(o0.cache, timeout, reqs[1..], q);
    }
  }

  /** With a timeout of zero or less and a clock that never goes backwards,
      every call of a sequence runs the function. */
  lemma {:induction false} NonPositiveTimeoutAlwaysInvokes<K, V, E>(cache: map<K, Entry<V>>, timeout: int,
                                                                    reqs: seq<Request<K, V, E>>, since: int)
    requires timeout <= 0
    requires StoredBy(cache, since) && Chronological(reqs, since)
    ensures Run(cache, timeout, reqs).invocations == |reqs|
    decreases |reqs|
  {
    if reqs != [] {
      var q := reqs[0];
      var o := Step(cache, timeout, q.key, q.now1, q.now2, q.f);
      assert StoredBy(cache, q.now1);
      assert o.invoked;
      assert StoredBy(o.cache, q.now2);
      NonPositiveTimeoutAlwaysInvokes(o.cache, timeout, reqs[1..], q.now2);
    }
  }

  /** Wrapping a deterministic function g is invisible over any sequence of
      calls: every call returns g of its key (a raised exception included),
      and every stored value is what g returns for its key. */
  lemma {:induction false} TransparentRun<K, V, E>(cache: map<K, Entry<V>>, timeout: int,
                                                   reqs: seq<Request<K, V, E>>, g: K -> Result<V, E>)
    requires Agrees(cache, g)
    requires forall i :: 0 <= i < |reqs| ==> reqs[i].f == g
    ensures var t := Run(cache, timeout, reqs);
            && Agrees(t.cache, g)
            && forall i :: 0 <= i < |reqs| ==> t.results[i] == g(reqs[i].key)
    decreases |reqs|
  {
    if reqs != [] {
      var q := reqs[0];
      TransparentStep(cache, timeout, q.key, q.now1, q.now2, g);
      var o := Step(cache, timeout, q.key, q.now1, q.now2, g);
      TransparentRun(o.cache, timeout, reqs[1..], g);
      var t := Run(o.cache, timeout, reqs[1..]);
      assert Run(cache, timeout, reqs).results == [o.result] + t.results;
      forall i | 1 <= i < |reqs|
        ensures Run(cache, timeout, reqs).results[i] == g(reqs[i].key)
      {
        assert reqs[1..][i - 1] == reqs[i];
      }
    }
  }

  /** A call that raises leaves no trace: the calls after it see the table
      they would have seen had it not happened. */
  lemma FailureLeavesNoTrace<K, V, E>(cache: map<K, Entry<V>>, timeout: int,
                                       q: Request<K, V, E>, rest: seq<Request<K, V, E>>)
    requires !Fresh(cache, timeout, q.key, q.now1) && q.f(q.key).Err?
    ensures var t := Run(cache, timeout, [q] + rest);
            var t' := Run(cache, timeout, rest);
            && t.cache == t'.cache
            && t.results == [q.f(q.key)] + t'.results
            && t.invocations == t'.invocations + 1
  {
  }

  /** Two calls with the same key where the second comes less than timeout
      after the first stored its value: the function runs once and both calls
      return its value. */
  lemma HitWithinTimeout<K, V, E>(cache: map<K, Entry<V>>, timeout: int, key: K,
                                   t1: int, t2: int, f: K -> Result<V, E>,
                                   t3: int, t4: int, g: K -> Result<V, E>)
    requires key !in cache && f(key).Ok? && t3 - t2 < timeout
    ensures var t := Run(cache, timeout, [Request(key, t1, t2, f), Request(key, t3, t4, g)]);
            t.invocations == 1 && t.results == [f(key), f(key)]
  {
  }

  /** Two calls with the same key where the second comes timeout or more
      after the first stored its value: the function runs twice and the
      second call returns the second run's result. */
  lemma ExpiryReinvokes<K, V, E>(cache: map<K, Entry<V>>, timeout: int, key: K,
                                  t1: int, t2: int, f: K -> Result<V, E>,
                                  t3: int, t4: int, g: K -> Result<V, E>)
    requires key !in cache && f(key).Ok? && t3 - t2 >= timeout
    ensures var t := Run(cache, timeout, [Request(key, t1, t2, f), Request(key, t3, t4, g)]);
            t.invocations == 2 && t.results == [f(key), g(key)]
  {
  }
}
