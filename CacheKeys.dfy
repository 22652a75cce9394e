/** The cache key of one call of a decorated function: the positional
    arguments together with the named arguments, each kept in the order the
    caller wrote them. Two calls share a cache entry exactly when their keys
    are equal. */
module CacheKeys {

  /** A named argument: its name and its value. */
  type NamedArg<A> = (string, A)

  /** The pair (positional tuple, tuple of named-argument items). */
  datatype Key<A> = Key(args: seq<A>, kwargs: seq<NamedArg<A>>)

  /** Builds the key of a call from its positional and named arguments. */
  function KeyOf<A>(args: seq<A>, kwargs: seq<NamedArg<A>>): (k: Key<A>)
  {
    Key(args, kwargs)
  }

  /** Two calls share an entry if and only if they pass the same positional
      arguments and the same named arguments in the same order. */
  lemma KeyOfInjective<A>(args1: seq<A>, kwargs1: seq<NamedArg<A>>,
                              args2: seq<A>, kwargs2: seq<NamedArg<A>>)
    ensures KeyOf(args1, kwargs1) == KeyOf(args2, kwargs2)
            <==> args1 == args2 && kwargs1 == kwargs2
  {
  }

  /** The same two named arguments given in the other order make another key,
      so such calls do not share an entry. */
  lemma NamedOrderMatters<A>(args: seq<A>, n1: string, v1: A, n2: string, v2: A)
    requires n1 != n2
    ensures KeyOf(args, [(n1, v1), (n2, v2)]) != KeyOf(args, [(n2, v2), (n1, v1)])
  {
  }

  /** A value passed by position and the same value passed by name make
      different keys. */
  lemma PositionalIsNotNamed<A>(v: A, n: string)
    ensures KeyOf([v], []) != KeyOf([], [(n, v)])
  {
  }
}
