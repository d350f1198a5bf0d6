/** The optional value used for nullable columns and lookups. */
module Options {
  datatype Option<+T> = None | Some(value: T)
}

/**
 A finite run of a system, as the list of the steps taken so far, newest last.
 Every protocol of the project gives its own step type and its own function from
 runs to states; a property of "every reachable state" is a property of every `History`.
 */
module Histories {
  datatype History<E> = Start | Then(past: History<E>, last: E)

  /** `later` continues `earlier` by zero or more steps. */
  ghost predicate Extends<E>(later: History<E>, earlier: History<E>) {
    later == earlier || (later.Then? && Extends(later.past, earlier))
  }

  lemma {:induction false} ExtendsTransitive<E>(latest: History<E>, later: History<E>, earlier: History<E>)
    requires Extends(latest, later) && Extends(later, earlier)
    ensures Extends(latest, earlier)
  {
    if latest != later { ExtendsTransitive(latest.past, later, earlier); }
  }
}

/** Rows picked by `order by created_at limit 1`. */
module Queues {
  lemma {:induction false} OldestExists(createdAt: map<nat, int>, ids: set<nat>) returns (oldest: nat)
    requires ids != {} && ids <= createdAt.Keys
    ensures oldest in ids && forall id :: id in ids ==> createdAt[oldest] <= createdAt[id]
  {
    var some :| some in ids;
    oldest := some;
    if ids != {some} {
      assert ids == {some} + (ids - {some});
      var rest := OldestExists(createdAt, ids - {some});
      if createdAt[rest] < createdAt[some] { oldest := rest; }
    }
  }
}
