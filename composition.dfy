/**
 * compose(...fns) from session1/example2.js: a left-to-right pipeline of
 * unary functions, built as a reduce over the list of functions.
 */
module Composition {

  /** Reference reading of a pipeline: fn(...f2(f1(x))), the last function outermost. */
  function Nested<T>(fns: seq<T -> T>, x: T): T
  {
    if fns == [] then x else fns[|fns| - 1](Nested(fns[..|fns| - 1], x))
  }

  /** Applying the first function, then nesting the rest, is nesting them all. */
  lemma {:induction false} NestedFirst<T>(fns: seq<T -> T>, x: T)
    requires fns != []
    ensures Nested(fns[1..], fns[0](x)) == Nested(fns, x)
  {
    if |fns| > 1 {
      var init := fns[..|fns| - 1];
      assert fns[1..][..|fns[1..]| - 1] == init[1..];
      assert init[0] == fns[0];
      NestedFirst(init, x);
    } else {
      assert fns[..|fns| - 1] == [];
    }
  }

  /** fns.reduce((composed, f) => f(composed), arg): the left fold that compose runs.
      Its result is the nested application, first function innermost. */
  function Reduce<T>(fns: seq<T -> T>, arg: T): (r: T)
    ensures r == Nested(fns, arg)
  {
    if fns == [] then arg
    else
      NestedFirst(fns, arg);
      Reduce(fns[1..], fns[0](arg))
  }

  /** compose(...fns): the function that threads its argument through fns in order. */
  function Compose<T(!new)>(fns: seq<T -> T>): (g: T -> T)
    ensures forall x :: g(x) == Nested(fns, x)
  {
    arg => Reduce(fns, arg)
  }

  /** Running a + b is running a, then running b on its output. */
  lemma {:induction false} ComposeSplit<T(!new)>(a: seq<T -> T>, b: seq<T -> T>, x: T)
    ensures Compose(a + b)(x) == Compose(b)(Compose(a)(x))
  {
    if a != [] {
      assert (a + b)[0] == a[0] && (a + b)[1..] == a[1..] + b;
      ComposeSplit(a[1..], b, a[0](x));
    } else {
      assert a + b == b;
    }
  }

  /** The function listed last is applied last. */
  lemma ComposeAppliesLast<T(!new)>(fns: seq<T -> T>, f: T -> T, x: T)
    ensures Compose(fns + [f])(x) == f(Compose(fns)(x))
  {
    ComposeSplit(fns, [f], x);
    var y := Compose(fns)(x);
    assert [f][1..] == [];
    assert Compose([f])(y) == Reduce([], f(y));
  }

  /** A two-step pipeline: f, then g. */
  lemma ComposeTwo<T(!new)>(f: T -> T, g: T -> T, x: T)
    ensures Compose([f, g])(x) == g(f(x))
  {
    assert [f, g][1..] == [g];
    assert [g][1..] == [];
    assert Reduce([g], f(x)) == Reduce([], g(f(x)));
    assert Compose([f, g])(x) == Reduce([f, g], x) == Reduce([g], f(x));
  }

  /** A three-step pipeline: f, then g, then h. */
  lemma ComposeThree<T(!new)>(f: T -> T, g: T -> T, h: T -> T, x: T)
    ensures Compose([f, g, h])(x) == h(g(f(x)))
  {
    assert [f, g, h][1..] == [g, h];
    ComposeTwo(g, h, f(x));
  }

  /** compose(add1, double)(3): add1 first gives 4, then double gives 8. */
  lemma ComposeAddOneThenDouble()
    ensures Compose([(n: int) => n + 1, (n: int) => n * 2])(3) == 8
  {
    ComposeTwo((n: int) => n + 1, (n: int) => n * 2, 3);
  }
}
