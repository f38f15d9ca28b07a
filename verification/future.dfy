/**
 * The part of `CompletableFuture` the generators rely on: a future is
 * pending or completed, and `complete` only takes effect on a pending one.
 */
module Futures {

  datatype Future<T> = Pending | Completed(value: T)

  /** `complete(v)`: the first completion sticks; later ones are ignored. */
  function Complete<T>(f: Future<T>, v: T): (r: Future<T>)
    ensures r.Completed?
    ensures f.Completed? ==> r == f
    ensures f.Pending? ==> r.value == v
  {
    match f
    case Pending => Completed(v)
    case Completed(_) => f
  }

  /** The future after a sequence of completion attempts, in the order they happen. */
  function CompleteAll<T>(f: Future<T>, attempts: seq<T>): (r: Future<T>)
    ensures attempts == [] ==> r == f
  {
    if attempts == [] then f
    else Complete(CompleteAll(f, attempts[..|attempts| - 1]), attempts[|attempts| - 1])
  }

  /**
   * First completion wins: a pending future that is offered several values
   * holds the first of them, and a completed one is never changed.
   */
  lemma {:induction false} FirstCompletionWins<T>(f: Future<T>, attempts: seq<T>)
    ensures f.Completed? ==> CompleteAll(f, attempts) == f
    ensures f.Pending? && attempts != [] ==> CompleteAll(f, attempts) == Completed(attempts[0])
  {
    if attempts != [] {
      var prefix := attempts[..|attempts| - 1];
      FirstCompletionWins(f, prefix);
      if prefix != [] {
        assert prefix[0] == attempts[0];
      }
    }
  }

  /** Offering the same attempts twice changes nothing the second time. */
  lemma CompleteAllIdempotent<T>(f: Future<T>, attempts: seq<T>)
    requires attempts != []
    ensures CompleteAll(CompleteAll(f, attempts), attempts) == CompleteAll(f, attempts)
  {
    FirstCompletionWins(f, attempts);
    if f.Pending? {
      FirstCompletionWins(Completed(attempts[0]), attempts);
    }
  }
}
