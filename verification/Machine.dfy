/** Running a machine: a step function applied over and over. */
module Machine {

  function Iterate<S>(step: S -> S, s: S, n: nat): S {
    if n == 0 then s else step(Iterate(step, s, n - 1))
  }

  lemma {:induction false} IterateAdd<S>(step: S -> S, s: S, m: nat, n: nat)
    ensures Iterate(step, s, m + n) == Iterate(step, Iterate(step, s, m), n)
  {
    if n > 0 { IterateAdd(step, s, m, n - 1); }
  }

  lemma IterateFirst<S>(step: S -> S, s: S, n: nat)
    ensures Iterate(step, s, n + 1) == Iterate(step, step(s), n)
    ensures Iterate(step, s, 1) == step(s)
  {
    assert Iterate(step, s, 0) == s;
    assert Iterate(step, s, 1) == step(s);
    IterateAdd(step, s, 1, n);
  }

  /** Two machines whose steps keep a relation keep it for ever. */
  lemma {:induction false} LockStep<S(!new), T(!new)>(f: S -> S, g: T -> T, related: (S, T) -> bool, s: S, t: T, n: nat)
    requires related(s, t)
    requires forall s', t' {:trigger related(s', t')} :: related(s', t') ==> related(f(s'), g(t'))
    ensures related(Iterate(f, s, n), Iterate(g, t, n))
  {
    if n > 0 { LockStep(f, g, related, s, t, n - 1); }
  }
}
