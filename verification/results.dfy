/** Failure-compatible wrappers used by the byte readers and the ELF parser. */
module Results {

  /** An optional value; `None` marks a read that would leave the image. */
  datatype Option<+T> = None | Some(value: T) {

    predicate IsFailure() {
      None?
    }

    function PropagateFailure<U>(): Option<U>
      requires None?
    {
      None
    }

    function Extract(): T
      requires Some?
    {
      value
    }

    /** Turns a missing value into the given error. */
    function ToResult<E>(error: E): Result<T, E> {
      match this
      case Some(v) => Ok(v)
      case None => Err(error)
    }
  }

  /** A value or an error. */
  datatype Result<+T, +E> = Ok(value: T) | Err(error: E) {

    predicate IsFailure() {
      Err?
    }

    function PropagateFailure<U>(): Result<U, E>
      requires Err?
    {
      Err(error)
    }

    function Extract(): T
      requires Ok?
    {
      value
    }
  }

  /**
   The values of `rs` in order, stopping at the first error: the shape of a
   loop that gives up at the first step it cannot take.
   */
  function Collect<T, E>(rs: seq<Result<T, E>>): (r: Result<seq<T>, E>)
    ensures r.Ok? ==> |r.value| == |rs| && forall k | 0 <= k < |rs| :: rs[k] == Ok(r.value[k])
    decreases |rs|
  {
    if |rs| == 0 then Ok([])
    else
      var prev :- Collect(rs[..|rs| - 1]);
      var last :- rs[|rs| - 1];
      Ok(prev + [last])
  }

  /**
   Collecting succeeds when every step does, and otherwise gives the error
   of the first step that fails.
   */
  lemma {:induction false} CollectFirstError<T, E>(rs: seq<Result<T, E>>)
    ensures (forall k | 0 <= k < |rs| :: rs[k].Ok?) ==> Collect(rs).Ok?
    ensures forall k | 0 <= k < |rs| && rs[k].Err? && (forall i | 0 <= i < k :: rs[i].Ok?) ::
      Collect(rs) == Err(rs[k].error)
    decreases |rs|
  {
    if |rs| > 0 {
      var init := rs[..|rs| - 1];
      CollectFirstError(init);
      assert forall i | 0 <= i < |init| :: init[i] == rs[i];
      forall k | 0 <= k < |rs| && rs[k].Err? && (forall i | 0 <= i < k :: rs[i].Ok?)
        ensures Collect(rs) == Err(rs[k].error)
      {
        if k == |rs| - 1 {
          assert Collect(init).Ok?;
        } else {
          assert init[k] == rs[k];
          assert forall i | 0 <= i < k :: init[i].Ok?;
          assert Collect(init) == Err(rs[k].error);
        }
      }
    }
  }
}
