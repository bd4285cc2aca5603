/** Flattening of sequences, used for everything that is sent or played in order. */
module Sequences {
  /** The results of `f` on the elements, joined in order. */
  function FlatMap<A, B>(f: A -> seq<B>, xs: seq<A>): seq<B> {
    if xs == [] then [] else FlatMap(f, xs[..|xs| - 1]) + f(xs[|xs| - 1])
  }

  lemma FlatMapSnoc<A, B>(f: A -> seq<B>, xs: seq<A>, x: A)
    ensures FlatMap(f, xs + [x]) == FlatMap(f, xs) + f(x)
  {
    assert (xs + [x])[..|xs|] == xs;
  }

  lemma Associative<A>(x: seq<A>, y: seq<A>, z: seq<A>)
    ensures (x + y) + z == x + (y + z)
  {}

  lemma {:induction false} FlatMapConcat<A, B>(f: A -> seq<B>, xs: seq<A>, ys: seq<A>)
    ensures FlatMap(f, xs + ys) == FlatMap(f, xs) + FlatMap(f, ys)
    decreases |ys|
  {
    if ys == [] {
      assert xs + ys == xs;
    } else {
      var front, y := ys[..|ys| - 1], ys[|ys| - 1];
      assert (xs + front) + [y] == xs + ys;
      FlatMapConcat(f, xs, front);
      FlatMapSnoc(f, xs + front, y);
      Associative(FlatMap(f, xs), FlatMap(f, front), f(y));
    }
  }

  lemma FlatMapOne<A, B>(f: A -> seq<B>, x: A)
    ensures FlatMap(f, [x]) == f(x)
  {
    var none: seq<A> := [x][..0];
    assert none == [];
  }

  function Identity<A>(): seq<A> -> seq<A> {
    xs => xs
  }

  function Flatten<A>(xss: seq<seq<A>>): seq<A> {
    FlatMap(Identity<A>(), xss)
  }

  lemma FlattenConcat<A>(xss: seq<seq<A>>, yss: seq<seq<A>>)
    ensures Flatten(xss + yss) == Flatten(xss) + Flatten(yss)
  {
    FlatMapConcat(Identity<A>(), xss, yss);
  }

  lemma FlattenOne<A>(xs: seq<A>)
    ensures Flatten([xs]) == xs
  {
    FlatMapOne(Identity<A>(), xs);
  }
}
