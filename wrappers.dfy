/** Optional values: the model's stand-in for Python's `None` returns and raised exceptions. */
module Wrappers {

  datatype Option<+T> = None | Some(value: T) {

    /** The wrapped value, or `default` when there is none. */
    function GetOr(default: T): T {
      match this
      case Some(v) => v
      case None => default
    }
  }

  /**
   * A loop that applies `f` to each element in turn and stops at the first
   * failure: all the results, in order, or None.
   */
  function MapAll<A, B>(f: A -> Option<B>, xs: seq<A>): Option<seq<B>> {
    if xs == [] then Some([])
    else
      match MapAll(f, xs[..|xs| - 1])
      case None => None
      case Some(ys) =>
        match f(xs[|xs| - 1])
        case None => None
        case Some(y) => Some(ys + [y])
  }

  /** MapAll succeeds exactly when every element succeeds, and then holds each element's result at its index. */
  lemma {:induction false} MapAllEach<A, B>(f: A -> Option<B>, xs: seq<A>)
    ensures MapAll(f, xs).Some? <==> forall i :: 0 <= i < |xs| ==> f(xs[i]).Some?
    ensures MapAll(f, xs).Some? ==> (|MapAll(f, xs).value| == |xs|
      && forall i :: 0 <= i < |xs| ==> MapAll(f, xs).value[i] == f(xs[i]).value)
  {
    if xs != [] {
      var init := xs[..|xs| - 1];
      MapAllEach(f, init);
      assert forall i :: 0 <= i < |init| ==> init[i] == xs[i];
    }
  }
}
