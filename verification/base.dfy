/** Optional values and results with an error, usable with `:-`. */
module Base {

  datatype Option<+T> = None | Some(value: T)

  datatype Result<+T, +E> = Ok(value: T) | Err(error: E) {

    predicate IsFailure() {
      Err?
    }

    function PropagateFailure<U>(): Result<U, E>
      requires Err?
    {
      Err(error)
    }

    function Extract(): T
      requires Ok?
    {
      value
    }
  }

  /** The values of results that all succeeded, or the error of the first one that
      failed. */
  function Collect<T, E(==)>(rs: seq<Result<T, E>>): (r: Result<seq<T>, E>)
    ensures r.Ok? <==> forall i | 0 <= i < |rs| :: rs[i].Ok?
    ensures r.Ok? ==> |r.value| == |rs| && forall i | 0 <= i < |rs| :: r.value[i] == rs[i].value
    ensures r.Err? ==> exists i | 0 <= i < |rs| :: FirstErr(rs, i) && rs[i].error == r.error
    decreases |rs|
  {
    if rs == [] then Ok([])
    else if rs[0].Err? then
      assert FirstErr(rs, 0);
      Err(rs[0].error)
    else
      var rest := Collect(rs[1..]);
      if rest.Err? then
        FirstErrShift(rs, rest.error);
        Err(rest.error)
      else
        var r := [rs[0].value] + rest.value;
        assert forall i | 1 <= i < |rs| :: r[i] == rest.value[i - 1] && rs[i] == rs[1..][i - 1];
        Ok(r)
  }

  /** A first failure after a success is the first failure of the longer sequence. */
  lemma FirstErrShift<T, E>(rs: seq<Result<T, E>>, error: E)
    requires rs != [] && rs[0].Ok?
    requires exists k | 0 <= k < |rs[1..]| :: FirstErr(rs[1..], k) && rs[1..][k].error == error
    ensures exists i | 0 <= i < |rs| :: FirstErr(rs, i) && rs[i].error == error
  {
    var k :| 0 <= k < |rs[1..]| && FirstErr(rs[1..], k) && rs[1..][k].error == error;
    assert rs[k + 1] == rs[1..][k];
    forall j | 0 <= j < k + 1 ensures rs[j].Ok? {
      if j > 0 {
        assert rs[j] == rs[1..][j - 1];
      }
    }
    assert FirstErr(rs, k + 1);
  }

  /** Result `i` is the first that failed. */
  predicate FirstErr<T, E>(rs: seq<Result<T, E>>, i: int) {
    0 <= i < |rs| && rs[i].Err? && forall j | 0 <= j < i :: rs[j].Ok?
  }
}
