# cache_data: a time-to-live memoising decorator, modelled in Dafny

`cache_data(timeout)` is a decorator. Applied to a function, it gives that
function its own dictionary from call keys to pairs (result, timestamp). A call
builds its key from the positional-argument tuple and the named-argument
items in call order. If the key is present and the time elapsed since its
timestamp is strictly below `timeout`, the call returns the stored result.
Otherwise it runs the function, stores the result with a clock reading taken
after the function returned, and returns the result. An exception from the
function propagates and nothing is stored.

The project has three modules:

- `CacheKeys` (CacheKeys.dfy): the call key, `KeyOf(args, kwargs)`.
- `CacheSpec` (CacheSpec.dfy): the behaviour as values. `Step` is one call:
  it maps the table before the call to the new table, the result handed back,
  and whether the wrapped function ran. `Run` is a sequence of calls. The
  lemmas state the hit, miss, expiry, failure and frame properties.
- `CacheDecorator` (CacheDecorator.dfy): the class `Memo`, one object per
  decorated function. Its `cache` map is updated in place by `Call`. Ghost
  fields record the calls made, the results returned and how often the wrapped
  function ran. `Valid()` ties the table and these fields to a `Run` of the
  history, so every lemma about `Run` applies to the object. Three client
  methods replay the usual scenarios: a repeat within the timeout, a repeat
  after it, and a refresh that raises.

Modelling choices:

- Time is an integer. `now1` is the reading used by the freshness test
  (chache_decorator.py:13). `now2` is the reading stored with a new result
  (chache_decorator.py:16). `Call` does not require `now1 <= now2` or
  a clock that never goes backwards, because the source uses the wall clock
  and guarantees neither. The lemmas that need ordered readings say so
  (`Chronological`).
- The wrapped function is a parameter `f: Key -> Result<V, E>` of each call.
  `Err` stands for a raised exception. Because `f` may differ from call to
  call, the model covers a wrapped function whose result depends on the world
  or on time. Decorating one deterministic function is the special case where
  every call passes the same `f`; `TransparentRun` is stated for that case.
- Argument values are an abstract type with equality. Named arguments are a
  sequence of (name, value) pairs in call order.
- The timeout is taken as given, negative values included. The code does not
  check it, reads the wall clock and takes no lock, and the model does the
  same.

## Model

| member | source | states |
|---|---|---|
| CacheKeys.KeyOfInjective | chache_decorator.py:10 | two calls get the same key if and only if their positional arguments are equal and their named arguments are equal in the same order |
| CacheKeys.NamedOrderMatters | chache_decorator.py:10 | the same two named arguments given in the other order make a different key |
| CacheKeys.PositionalIsNotNamed | chache_decorator.py:10 | a value passed by position and the same value passed by name make different keys |
| CacheSpec.Step | chache_decorator.py:11-17 | one call never removes an entry; it changes at most the entry of its own key; a raised exception leaves the table exactly as it was; a value handed back is the value the table holds for the key afterwards |
| CacheSpec.Run | chache_decorator.py:7-17 | a sequence of calls yields one result per call, runs the wrapped function at most once per call, and never shrinks the key set |
| CacheSpec.FreshHit | chache_decorator.py:11-14 | a key whose entry is younger than the timeout gets the stored value back, the function does not run and the table is unchanged |
| CacheSpec.MissOnAbsent | chache_decorator.py:11-17 | a key with no entry runs the function once and returns its result; a value is stored as (value, now2), an exception stores nothing |
| CacheSpec.ExpiredRefreshes | chache_decorator.py:13-17 | an entry at least timeout old is ignored; the function runs and a returned value overwrites the entry with the new value and now2 |
| CacheSpec.InvokedIffNotFresh | chache_decorator.py:11-15 | a call runs the wrapped function if and only if its key has no entry younger than the timeout |
| CacheSpec.NonPositiveTimeoutMisses | chache_decorator.py:13 | with timeout at most 0 and no entry stamped after the lookup time, the call runs the function |
| CacheSpec.NonPositiveTimeoutAlwaysInvokes | chache_decorator.py:13 | with timeout at most 0 and a clock that never goes backwards, every call of a sequence runs the function |
| CacheSpec.DistinctKeysIndependent | chache_decorator.py:10-16 | a call on one key does not change what a call on another key returns, whether it runs the function, or the entry it leaves |
| CacheSpec.TransparentStep | chache_decorator.py:12-17 | if every entry holds what f returns for its key, the call returns f(key) and the table keeps that property |
| CacheSpec.TransparentRun | chache_decorator.py:12-17 | wrapping one deterministic function with immutable results is invisible: every call of a sequence returns that function's result for its key, exceptions included |
| CacheSpec.RunAppend | chache_decorator.py:7-17 | one more call after a sequence is a Step on the table the sequence left |
| CacheSpec.FailureLeavesNoTrace | chache_decorator.py:15-16 | a call that raises leaves no trace: later calls behave as if it had not happened, and it counts one run of the function |
| CacheSpec.HitWithinTimeout | chache_decorator.py:11-17 | two calls on a new key, the second less than timeout after the first store: the function runs once and both calls return its value |
| CacheSpec.ExpiryReinvokes | chache_decorator.py:13-17 | two calls on a new key, the second timeout or more after the first store: the function runs twice and the second call returns the second result |
| CacheDecorator.Memo.constructor | chache_decorator.py:4-7 | applying the decorator keeps the timeout as given and starts from an empty table owned by the new object |
| CacheDecorator.Memo.Call | chache_decorator.py:9-17 | the call builds the key from args and kwargs; its result, new table and run count are those of Step on the old table; the history grows by this call and the object stays a Run of its history |
| CacheDecorator.RepeatWithinTimeout | chache_decorator.py:11-14 | with timeout 60, calling the doubling function with 3 twice at once returns 6 both times and the function runs once |
| CacheDecorator.RepeatAfterTimeout | chache_decorator.py:13-16 | with timeout 60, a second call 61 seconds later returns 6 again and the function runs twice |
| CacheDecorator.FailureKeepsEntry | chache_decorator.py:15-16 | a refresh that raises returns the exception and keeps the expired entry (6, 0) in place |

## Left out

- `functools.wraps` (chache_decorator.py:8) copies the wrapped function's metadata onto the wrapper; nothing about it can be stated in this model.
- Real clock reads: `time.time()` returns a float from the wall clock; the model takes integer readings as parameters and does not model float rounding.
- Python hashing of the key and the `TypeError` raised for unhashable arguments at the dictionary lookup (chache_decorator.py:10-11); argument values are an abstract type with equality, so every key can be stored.
- Python equality between values of different types (for example `1 == 1.0`), which makes such keys share an entry; the model has one argument type.
- Concurrency: the source's dictionary is unsynchronised and has no per-key locking; the model is sequential.
- Side effects of the wrapped function other than its result or exception, re-entrant calls included: a decorated recursive function writes other keys' entries during its own call, and those stay if it then raises. Step's "changes at most the entry of its own key" and "a raised exception leaves the table exactly as it was" describe a call with no re-entry.
- TransparentRun: results are values; Python hands the stored object itself back on every hit, so a caller that mutates a returned list or dict changes what later hits return, and a hit returns the same object where two direct calls would not. Sharing the stored object with callers is not modelled, so the lemma's "invisible" holds for immutable results only.
- Memo.Call: does not state that the decorated function's identity is fixed when the decorator is applied; the wrapped function is a parameter of each call, which also covers a function whose result changes between calls.
