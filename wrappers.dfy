/** Failure-carrying values shared by every module of the model.

    The modelled code signals failure by raising Python exceptions; here an
    operation that can raise returns `Err(kind)` naming the exception class,
    and the success value otherwise. */
module Wrappers {

  datatype Option<T> = None | Some(value: T)

  /** The exception classes the modelled functions raise. `SolveError`
      stands for a failure reported by the LP/MILP solver, `SyntaxError`
      for text that the expression parser rejects. */
  datatype Error =
    | AssertionError
    | AttributeError
    | KeyError
    | IndexError
    | ValueError
    | TypeError
    | SyntaxError
    | SolveError

  datatype Result<T> = Ok(value: T) | Err(error: Error)

  /** A Python dictionary whose iteration order the code relies on is a
      sequence of entries in insertion order. */
  datatype Entry<V> = Entry(key: string, value: V)

  function Keys<V>(d: seq<Entry<V>>): (ks: seq<string>)
    ensures |ks| == |d|
    ensures forall i :: 0 <= i < |d| ==> ks[i] == d[i].key
  {
    seq(|d|, i requires 0 <= i < |d| => d[i].key)
  }

  /** Python's `key in d` for an insertion-ordered dictionary. */
  predicate HasKey<V>(d: seq<Entry<V>>, k: string) {
    exists i :: 0 <= i < |d| && d[i].key == k
  }

  /** A key is in a one-entry extension when it is in the front or is the
      new entry's. */
  lemma HasKeySnoc<V>(d: seq<Entry<V>>, e: Entry<V>, k: string)
    ensures HasKey(d + [e], k) <==> HasKey(d, k) || e.key == k
  {
    if HasKey(d + [e], k) && e.key != k {
      var j :| 0 <= j < |d + [e]| && (d + [e])[j].key == k;
      assert j < |d| && d[j].key == k;
    }
    if e.key == k {
      assert (d + [e])[|d|].key == k;
    }
    if HasKey(d, k) {
      var j :| 0 <= j < |d| && d[j].key == k;
      assert (d + [e])[j].key == k;
    }
  }
}
