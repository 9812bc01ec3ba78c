/** Option and Result values used for the source's `None` returns and raised errors. */
module Wrappers {

  datatype Option<+T> = None | Some(value: T)

  datatype Result<+T, +E> = Success(value: T) | Failure(error: E)

  /**
   * Runs the steps rs in order: the values of all of them when every one
   * succeeds, otherwise the error of the first that fails (the later ones are
   * never reached, as when a loop stops at the first exception).
   */
  function Collect<T, E>(rs: seq<Result<T, E>>): (r: Result<seq<T>, E>)
    ensures r.Success? <==> forall i :: 0 <= i < |rs| ==> rs[i].Success?
    ensures r.Success? ==> |r.value| == |rs| && forall i :: 0 <= i < |rs| ==> rs[i] == Success(r.value[i])
  {
    if rs == [] then
      Success([])
    else
      match Collect(rs[..|rs| - 1])
      case Failure(e) => Failure(e)
      case Success(vs) =>
        match rs[|rs| - 1]
        case Failure(e) => Failure(e)
        case Success(v) => Success(vs + [v])
  }

  /** Running one more step after a prefix. */
  lemma CollectStep<T, E>(rs: seq<Result<T, E>>, i: nat)
    requires i < |rs|
    ensures Collect(rs[..i + 1]) == match Collect(rs[..i])
                                   case Failure(e) => Failure(e)
                                   case Success(vs) =>
                                     match rs[i]
                                     case Failure(e) => Failure(e)
                                     case Success(v) => Success(vs + [v])
  {
    assert rs[..i + 1][..i] == rs[..i];
  }

  /** Once a prefix of the steps has failed, the whole run fails with the same error. */
  lemma {:induction false} CollectStaysFailed<T, E>(rs: seq<Result<T, E>>, i: nat)
    requires i <= |rs|
    requires Collect(rs[..i]).Failure?
    ensures Collect(rs) == Collect(rs[..i])
    decreases |rs| - i
  {
    if i < |rs| {
      CollectStep(rs, i);
      CollectStaysFailed(rs, i + 1);
      assert rs[..|rs|] == rs;
    } else {
      assert rs[..i] == rs;
    }
  }

  /** A step that succeeds after a successful prefix extends the prefix's values by its own. */
  lemma CollectExtends<T, E>(rs: seq<Result<T, E>>, i: nat, vs: seq<T>)
    requires i < |rs| && Collect(rs[..i]) == Success(vs) && rs[i].Success?
    ensures Collect(rs[..i + 1]) == Success(vs + [rs[i].value])
  {
    CollectStep(rs, i);
  }

  /** The first step that fails decides the whole run: it fails with that step's error. */
  lemma CollectFailsAt<T, E>(rs: seq<Result<T, E>>, i: nat)
    requires i < |rs| && Collect(rs[..i]).Success? && rs[i].Failure?
    ensures Collect(rs) == Failure(rs[i].error)
  {
    CollectStep(rs, i);
    CollectStaysFailed(rs, i + 1);
  }

  /** When every step succeeds the run returns their values. */
  lemma {:induction false} CollectSucceeds<T, E>(rs: seq<Result<T, E>>, vs: seq<T>)
    requires |rs| == |vs|
    requires forall i :: 0 <= i < |rs| ==> rs[i] == Success(vs[i])
    ensures Collect(rs) == Success(vs)
  {
    if rs != [] {
      var n := |rs| - 1;
      CollectSucceeds(rs[..n], vs[..n]);
      assert vs == vs[..n] + [vs[n]];
    }
  }
}
