/** Option and Result, the two failure-carrying wrappers the model uses, and `map` with a callback that can throw. */
module Results {

  datatype Option<+T> = None | Some(value: T)

  /** `Failure` stands for an exception thrown by the modelled code. */
  datatype Result<+T, +E> = Success(value: T) | Failure(error: E)

  /** `xs.map(f)` with a callback that can throw: `f` is applied in order
      and the first throw ends the whole call. */
  function MapOrThrow<A, B, E>(f: A -> Result<B, E>, xs: seq<A>): Result<seq<B>, E> {
    if xs == [] then Success([])
    else
      match f(xs[0])
      case Failure(e) => Failure(e)
      case Success(y) =>
        match MapOrThrow(f, xs[1..])
        case Failure(e) => Failure(e)
        case Success(ys) => Success([y] + ys)
  }

  /** The call succeeds exactly when the callback succeeds on every element. */
  lemma {:induction false} MapSucceeds<A, B, E>(f: A -> Result<B, E>, xs: seq<A>)
    ensures MapOrThrow(f, xs).Success? <==> forall k :: 0 <= k < |xs| ==> f(xs[k]).Success?
  {
    if xs != [] {
      MapSucceeds(f, xs[1..]);
      assert forall k :: 0 < k < |xs| ==> xs[k] == xs[1..][k - 1];
    }
  }

  /** A successful call gives one value per element, in order. */
  lemma {:induction false} MapValues<A, B, E>(f: A -> Result<B, E>, xs: seq<A>)
    requires MapOrThrow(f, xs).Success?
    ensures var ys := MapOrThrow(f, xs).value;
      |ys| == |xs| && forall k :: 0 <= k < |xs| ==> f(xs[k]) == Success(ys[k])
  {
    if xs != [] {
      MapValues(f, xs[1..]);
      var ys := MapOrThrow(f, xs).value;
      assert ys == [f(xs[0]).value] + MapOrThrow(f, xs[1..]).value;
      assert forall k :: 0 < k < |xs| ==> xs[k] == xs[1..][k - 1] && ys[k] == ys[1..][k - 1];
    }
  }

  /** The call on one element gives that element's value or its error. */
  lemma MapOne<A, B, E>(f: A -> Result<B, E>, x: A)
    ensures f(x).Success? ==> MapOrThrow(f, [x]) == Success([f(x).value])
    ensures f(x).Failure? ==> MapOrThrow(f, [x]) == Failure(f(x).error)
  {
    assert [x][0] == x && [x][1..] == [];
    if f(x).Success? {
      assert [f(x).value] + [] == [f(x).value];
    }
  }

  /** The call on two elements whose callbacks succeed gives both values, in order. */
  lemma MapTwo<A, B, E>(f: A -> Result<B, E>, x: A, y: A)
    requires f(x).Success? && f(y).Success?
    ensures MapOrThrow(f, [x, y]) == Success([f(x).value, f(y).value])
  {
    assert [x, y][0] == x && [x, y][1..] == [y];
    MapOne(f, y);
    assert [f(x).value] + [f(y).value] == [f(x).value, f(y).value];
  }

  /** A failed call carries the error of the first element whose callback throws. */
  lemma {:induction false} MapFirstError<A, B, E>(f: A -> Result<B, E>, xs: seq<A>)
    requires MapOrThrow(f, xs).Failure?
    ensures exists k :: && 0 <= k < |xs|
                        && f(xs[k]) == Failure(MapOrThrow(f, xs).error)
                        && forall q :: 0 <= q < k ==> f(xs[q]).Success?
  {
    var e := MapOrThrow(f, xs).error;
    if f(xs[0]).Failure? {
      assert f(xs[0]) == Failure(e);
    } else {
      var tail := xs[1..];
      MapFirstError(f, tail);
      var k :| && 0 <= k < |tail|
               && f(tail[k]) == Failure(e)
               && forall q :: 0 <= q < k ==> f(tail[q]).Success?;
      assert xs[k + 1] == tail[k];
      assert forall q :: 0 < q < k + 1 ==> xs[q] == tail[q - 1];
    }
  }
}
