/** Iterating a function a given number of times, and the facts about
    iteration the mixing loop needs: peeling off the first application,
    undoing by an inverse, and fixed points. */
module Iteration {

  /** `f` applied `n` times to `x`; the last application is outermost. */
  function Iterate<T>(f: T -> T, x: T, n: nat): T
  {
    if n == 0 then x else f(Iterate(f, x, n - 1))
  }

  /** One more application goes on the outside. */
  lemma IterateStep<T>(f: T -> T, x: T, n: nat)
    ensures Iterate(f, x, n + 1) == f(Iterate(f, x, n))
  {
  }

  /** The first of `n` applications can be taken off the inside instead. */
  lemma {:induction false} IterateFirst<T>(f: T -> T, x: T, n: nat)
    requires n > 0
    ensures Iterate(f, x, n) == Iterate(f, f(x), n - 1)
  {
    if n > 1 {
      IterateFirst(f, x, n - 1);
    }
  }

  /** When `g` undoes `f`, `n` applications of `g` undo `n` of `f`. */
  lemma {:induction false} IterateInverse<T>(f: T -> T, g: T -> T, x: T, n: nat)
    requires forall y :: g(f(y)) == y
    ensures Iterate(g, Iterate(f, x, n), n) == x
  {
    if n > 0 {
      IterateFirst(g, Iterate(f, x, n), n);
      IterateInverse(f, g, x, n - 1);
    }
  }

  /** A fixed point of `f` is a fixed point of every iterate of `f`. */
  lemma {:induction false} IterateFixedPoint<T>(f: T -> T, x: T, n: nat)
    requires f(x) == x
    ensures Iterate(f, x, n) == x
  {
    if n > 0 {
      IterateFixedPoint(f, x, n - 1);
    }
  }
}
