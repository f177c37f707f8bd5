/** Optional values and results: a Python lookup, parse or load that may fail. */
module Wrappers {

  datatype Option<+T> = None | Some(value: T)

  datatype Result<+T, +E> = Success(value: T) | Failure(error: E)

  /** `f` applied to every element in turn, or None as soon as it fails on one (a comprehension that raises). */
  function MapAll<A, B>(f: A -> Option<B>, xs: seq<A>): (r: Option<seq<B>>)
    ensures r.Some? ==> |r.value| == |xs|
  {
    if xs == [] then Some([])
    else
      match MapAll(f, xs[..|xs| - 1])
      case None => None
      case Some(ys) =>
        match f(xs[|xs| - 1])
        case None => None
        case Some(y) => Some(ys + [y])
  }

  /** The result is `f` of each element, and there is one exactly when `f` succeeds on every element. */
  lemma {:induction false} MapAllEach<A, B>(f: A -> Option<B>, xs: seq<A>)
    ensures MapAll(f, xs).Some? <==> forall i :: 0 <= i < |xs| ==> f(xs[i]).Some?
    ensures MapAll(f, xs).Some? ==> forall i :: 0 <= i < |xs| ==> MapAll(f, xs).value[i] == f(xs[i]).value
    decreases |xs|
  {
    if xs != [] {
      var n := |xs| - 1;
      var init := xs[..n];
      MapAllEach(f, init);
      assert forall i :: 0 <= i < n ==> init[i] == xs[i];
      if MapAll(f, init).None? {
        var i :| 0 <= i < n && f(init[i]).None?;
        assert f(xs[i]).None?;
      } else if f(xs[n]).Some? {
        var ys := MapAll(f, init).value;
        assert MapAll(f, xs) == Some(ys + [f(xs[n]).value]);
      }
    }
  }
}
