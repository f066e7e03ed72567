/**
 * The value-level half of `Stream.apply`: what the action that `apply`
 * installs sends on to the child stage for each item it receives, and what
 * that amounts to over a whole run of items (a filter or a map).
 */
module Routing {

  datatype Option<T> = None | Some(value: T)

  /**
   * The result of the user function handed to `apply`. Python tells the two
   * roles apart at run time with `isinstance(result, bool)`: a `bool` makes
   * the function a predicate, anything else is a produced value.
   */
  datatype FuncResult<T> = BoolResult(b: bool) | ValueResult(v: T)

  /** What the installed action sends to the child for one input item `x`. */
  function Route<T>(r: FuncResult<T>, x: T): (o: Option<T>)
    ensures o == None <==> r == BoolResult(false)
    ensures r.BoolResult? && o.Some? ==> o.value == x
    ensures r.ValueResult? ==> o == Some(r.v)
  {
    match r
    case BoolResult(b) => if b then Some(x) else None
    case ValueResult(v) => Some(v)
  }

  /** The items an optional value stands for: none or exactly one. */
  function Items<T>(o: Option<T>): seq<T>
  {
    match o
    case None => []
    case Some(v) => [v]
  }

  /**
   * Everything the action installed by `apply(f)` sends to the child while
   * it processes `xs` in order: at most one item per input item.
   */
  function Forwarded<T>(f: T -> FuncResult<T>, xs: seq<T>): (ys: seq<T>)
    ensures |ys| <= |xs|
    ensures forall y :: y in ys ==> exists x :: x in xs && Route(f(x), x) == Some(y)
  {
    if xs == [] then []
    else Items(Route(f(xs[0]), xs[0])) + Forwarded(f, xs[1..])
  }

  /** Processing two runs of items one after the other forwards their outputs one after the other. */
  lemma {:induction false} ForwardedAppend<T>(f: T -> FuncResult<T>, xs: seq<T>, ys: seq<T>)
    ensures Forwarded(f, xs + ys) == Forwarded(f, xs) + Forwarded(f, ys)
  {
    if xs == [] {
      assert xs + ys == ys;
    } else {
      assert (xs + ys)[1..] == xs[1..] + ys;
      ForwardedAppend(f, xs[1..], ys);
    }
  }

  /** Processing one more item forwards exactly what that item routes to. */
  lemma ForwardedSnoc<T>(f: T -> FuncResult<T>, xs: seq<T>, x: T)
    ensures Forwarded(f, xs + [x]) == Forwarded(f, xs) + Items(Route(f(x), x))
  {
    ForwardedAppend(f, xs, [x]);
  }

  /** Reference definition of an order-preserving filter. */
  function Filter<T>(p: T -> bool, xs: seq<T>): (ys: seq<T>)
    ensures |ys| <= |xs|
    ensures forall y :: y in ys ==> y in xs && p(y)
    ensures forall x :: x in xs && p(x) ==> x in ys
  {
    if xs == [] then []
    else (if p(xs[0]) then [xs[0]] else []) + Filter(p, xs[1..])
  }

  /**
   * A function that answers with booleans forwards exactly the items it
   * accepts, unchanged and in their original order.
   */
  lemma {:induction false} ForwardedFilters<T>(f: T -> FuncResult<T>, xs: seq<T>)
    requires forall x :: x in xs ==> f(x).BoolResult?
    ensures Forwarded(f, xs) == Filter(x => f(x).BoolResult? && f(x).b, xs)
  {
    if xs != [] {
      ForwardedFilters(f, xs[1..]);
    }
  }

  /**
   * A function that never answers with a boolean forwards one produced value
   * per input item, position by position.
   */
  lemma {:induction false} ForwardedMaps<T>(f: T -> FuncResult<T>, xs: seq<T>)
    requires forall x :: x in xs ==> f(x).ValueResult?
    ensures Forwarded(f, xs) == seq(|xs|, i requires 0 <= i < |xs| => f(xs[i]).v)
  {
    if xs != [] {
      ForwardedMaps(f, xs[1..]);
      var tail := seq(|xs| - 1, i requires 0 <= i < |xs| - 1 => f(xs[1..][i]).v);
      var whole := seq(|xs|, i requires 0 <= i < |xs| => f(xs[i]).v);
      assert whole == [f(xs[0]).v] + tail;
    }
  }
}
