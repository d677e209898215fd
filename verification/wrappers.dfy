/** The optional-value datatype used across the model: a request body or a headers
    object that may be `null`, a query string `param` may fail to produce, a
    decoder that may reject its input. */
module Wrappers {

  datatype Option<+T> = None | Some(value: T)

  /** Prepends `xs` to an optional sequence, keeping a failure a failure. */
  function Prepend<T>(xs: seq<T>, o: Option<seq<T>>): (r: Option<seq<T>>)
    ensures r.Some? <==> o.Some?
    ensures r.Some? ==> r.value == xs + o.value
  {
    match o
    case None => None
    case Some(ys) => Some(xs + ys)
  }

  lemma PrependTwice<T>(xs: seq<T>, ys: seq<T>, o: Option<seq<T>>)
    ensures Prepend(xs, Prepend(ys, o)) == Prepend(xs + ys, o)
  {
    if o.Some? { assert xs + (ys + o.value) == (xs + ys) + o.value; }
  }
}
