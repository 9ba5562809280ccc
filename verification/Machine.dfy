/** Runs of a state machine given by its step function. */
module Machine {

  function Run<S, T>(apply: (S, T) -> S, s: S, steps: seq<T>): S
    decreases |steps|
  {
    if steps == [] then s else Run(apply, apply(s, steps[0]), steps[1..])
  }

  lemma {:induction false} Append<S, T>(apply: (S, T) -> S, s: S, a: seq<T>, b: seq<T>)
    ensures Run(apply, s, a + b) == Run(apply, Run(apply, s, a), b)
    decreases |a|
  {
    if a == [] {
      assert a + b == b;
    } else {
      assert (a + b)[1..] == a[1..] + b;
      Append(apply, apply(s, a[0]), a[1..], b);
    }
  }

  lemma Nothing<S, T>(apply: (S, T) -> S, s: S)
    ensures Run(apply, s, []) == s
  {
  }

  lemma One<S, T>(apply: (S, T) -> S, s: S, step: T)
    ensures Run(apply, s, [step]) == apply(s, step)
  {
    Nothing(apply, apply(s, step));
  }

  lemma Snoc<S, T>(apply: (S, T) -> S, s: S, a: seq<T>, step: T)
    ensures Run(apply, s, a + [step]) == apply(Run(apply, s, a), step)
  {
    Append(apply, s, a, [step]);
    One(apply, Run(apply, s, a), step);
  }

  lemma Cons<S, T>(apply: (S, T) -> S, s: S, step: T, rest: seq<T>)
    ensures Run(apply, s, [step] + rest) == Run(apply, apply(s, step), rest)
  {
    assert ([step] + rest)[1..] == rest;
  }

  lemma Three<S, T>(apply: (S, T) -> S, s: S, a: T, b: T, c: T)
    ensures Run(apply, s, [a, b, c]) == apply(apply(apply(s, a), b), c)
  {
    hide Run;
    assert [a, b, c] == [a] + ([b] + [c]);
    Cons(apply, s, a, [b] + [c]);
    Cons(apply, apply(s, a), b, [c]);
    One(apply, apply(apply(s, a), b), c);
  }

  lemma Four<S, T>(apply: (S, T) -> S, s: S, a: T, b: T, c: T, d: T)
    ensures Run(apply, s, [a, b, c, d]) == apply(apply(apply(apply(s, a), b), c), d)
  {
    hide Run;
    assert [a, b, c, d] == [a] + [b, c, d];
    Cons(apply, s, a, [b, c, d]);
    Three(apply, apply(s, a), b, c, d);
  }

  /** As much of a list of steps as n allows. */
  function Upto<T>(steps: seq<T>, n: nat): seq<T> { if n < |steps| then steps[..n] else steps }

  /** Where four steps have got to when only n of them are taken. */
  lemma Stages<S, T>(apply: (S, T) -> S, s: S, a: T, b: T, c: T, d: T, n: nat)
    ensures Run(apply, s, Upto([a, b, c, d], n)) ==
              if n == 0 then s
              else if n == 1 then apply(s, a)
              else if n == 2 then apply(apply(s, a), b)
              else if n == 3 then apply(apply(apply(s, a), b), c)
              else apply(apply(apply(apply(s, a), b), c), d)
  {
    hide Run;
    var all := [a, b, c, d];
    assert all[..0] == [] && all[..1] == [a] && all[..2] == [a] + [b] && all[..3] == [a, b, c];
    Nothing(apply, s);
    One(apply, s, a);
    Snoc(apply, s, [a], b);
    Three(apply, s, a, b, c);
    Four(apply, s, a, b, c, d);
  }

  /** What every step keeps, every run keeps. */
  lemma {:induction false} Keeps<S(!new), T(!new)>(apply: (S, T) -> S, inv: S -> bool, s: S, steps: seq<T>)
    requires inv(s) && forall x, t :: inv(x) ==> inv(apply(x, t))
    ensures inv(Run(apply, s, steps))
    decreases |steps|
  {
    if steps != [] { Keeps(apply, inv, apply(s, steps[0]), steps[1..]); }
  }
}
