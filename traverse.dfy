/** Applying a fallible step to every element of a list, as a Python loop
    does when any iteration may raise: the results in order, or the error
    of the first element that fails. */
module Traverse {
  import opened Wrappers

  function Collect<X, T>(f: X -> Result<T>, xs: seq<X>): (r: Result<seq<T>>)
    ensures r.Ok? ==> (|r.value| == |xs|
      && forall i :: 0 <= i < |xs| ==> f(xs[i]) == Ok(r.value[i]))
  {
    if xs == [] then Ok([])
    else
      match Collect(f, xs[..|xs| - 1])
      case Err(e) => Err(e)
      case Ok(ys) =>
        match f(xs[|xs| - 1])
        case Err(e) => Err(e)
        case Ok(y) => Ok(ys + [y])
  }

  /** The traversal fails exactly when some element fails, and with the
      error of the first such element. */
  lemma {:induction false} CollectError<X, T>(f: X -> Result<T>, xs: seq<X>)
    ensures Collect(f, xs).Err? <==> exists i :: 0 <= i < |xs| && f(xs[i]).Err?
    ensures Collect(f, xs).Err? ==> exists i :: (0 <= i < |xs| && f(xs[i]) == Err(Collect(f, xs).error)
      && forall j :: 0 <= j < i ==> f(xs[j]).Ok?)
  {
    if xs != [] {
      var init := xs[..|xs| - 1];
      CollectError(f, init);
      var last := |xs| - 1;
      if Collect(f, init).Err? {
        var i :| 0 <= i < |init| && f(init[i]) == Err(Collect(f, init).error)
          && forall j :: 0 <= j < i ==> f(init[j]).Ok?;
        assert xs[i] == init[i];
        forall j | 0 <= j < i
          ensures f(xs[j]).Ok?
        {
          assert xs[j] == init[j];
        }
      } else {
        forall j | 0 <= j < last
          ensures f(xs[j]).Ok?
        {
          assert xs[j] == init[j];
        }
        if f(xs[last]).Err? {
          assert f(xs[last]) == Err(Collect(f, xs).error);
        }
      }
    }
  }

  /** An error in a prefix is the error of the whole traversal. */
  lemma {:induction false} CollectPrefixError<X, T>(f: X -> Result<T>, xs: seq<X>, n: nat)
    requires n <= |xs| && Collect(f, xs[..n]).Err?
    ensures Collect(f, xs) == Collect(f, xs[..n])
    decreases |xs| - n
  {
    if n == |xs| {
      assert xs[..n] == xs;
    } else {
      assert xs[..n + 1][..n] == xs[..n];
      CollectPrefixError(f, xs, n + 1);
    }
  }
}
