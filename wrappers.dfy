/** Option and Result, and the "first exception aborts the loop" reading of a
    sequence of results. */
module Wrappers {

  datatype Option<+T> = None | Some(value: T)

  datatype Result<+T, +E> = Success(value: T) | Failure(error: E)

  /** The outcome of running several steps in order when the first step that fails
      aborts the rest: all values when every step succeeds, else the first error. */
  function Collect<T, E>(rs: seq<Result<T, E>>): (r: Result<seq<T>, E>)
    ensures r.Success? <==> forall i :: 0 <= i < |rs| ==> rs[i].Success?
    ensures r.Success? ==> |r.value| == |rs| && forall i :: 0 <= i < |rs| ==> rs[i] == Success(r.value[i])
    ensures r.Failure? ==>
      exists i :: 0 <= i < |rs| && rs[i] == Failure(r.error) && forall j :: 0 <= j < i ==> rs[j].Success?
  {
    if |rs| == 0 then Success([])
    else match rs[0]
      case Failure(e) => Failure(e)
      case Success(v) =>
        match Collect(rs[1..])
        case Failure(e) =>
          assert exists i :: 1 <= i < |rs| && rs[i] == Failure(e) && forall j :: 1 <= j < i ==> rs[j].Success? by {
            var i :| 0 <= i < |rs[1..]| && rs[1..][i] == Failure(e) && forall j :: 0 <= j < i ==> rs[1..][j].Success?;
            assert forall j :: 1 <= j < i + 1 ==> rs[j] == rs[1..][j - 1];
          }
          Failure(e)
        case Success(vs) =>
          assert forall i :: 1 <= i < |rs| ==> rs[i] == rs[1..][i - 1];
          Success([v] + vs)
  }

  /** When the steps before position n all succeed and step n fails, the whole run
      fails with step n's error. */
  lemma {:induction false} CollectFirstFailure<T, E>(rs: seq<Result<T, E>>, n: nat)
    requires n < |rs| && rs[n].Failure?
    requires forall j :: 0 <= j < n ==> rs[j].Success?
    ensures Collect(rs) == Failure(rs[n].error)
  {
    if n > 0 {
      assert rs[1..][n - 1] == rs[n];
      CollectFirstFailure(rs[1..], n - 1);
    }
  }

  /** When every step succeeds, the run gives their values in order. */
  lemma CollectAllSuccess<T, E>(rs: seq<Result<T, E>>, vs: seq<T>)
    requires |vs| == |rs| && forall i :: 0 <= i < |rs| ==> rs[i] == Success(vs[i])
    ensures Collect(rs) == Success(vs)
  {
    assert Collect(rs).Success?;
    assert Collect(rs).value == vs;
  }
}
