/** Small vocabulary shared by the models. */
module Basics {
  datatype Option<+T> = None | Some(value: T)

  /** The C type uint8_t. */
  type byte = x: int | 0 <= x < 256

  /** A (u8) cast of a two's-complement int. */
  function ToByte(v: int): (b: byte)
    ensures (v - b) % 256 == 0
  {
    v % 256
  }

  function Pow2(n: nat): (p: nat)
    ensures p > n
  {
    if n == 0 then 1 else 2 * Pow2(n - 1)
  }

  lemma {:induction false} Pow2Increases(a: nat, b: nat)
    requires a < b
    ensures Pow2(a) < Pow2(b)
    decreases b
  {
    if a < b - 1 {
      Pow2Increases(a, b - 1);
    }
  }

  function Last<T>(s: seq<T>): T
    requires s != []
  {
    s[|s| - 1]
  }

  function DropLast<T>(s: seq<T>): seq<T>
    requires s != []
  {
    s[..|s| - 1]
  }

  lemma Associative<T>(a: seq<T>, b: seq<T>, c: seq<T>)
    ensures (a + b) + c == a + (b + c)
  {
  }

  predicate Distinct<T(==)>(s: seq<T>) {
    forall p, q | 0 <= p < q < |s| :: s[p] != s[q]
  }

  lemma {:induction false} DistinctBelow(xs: seq<int>, n: nat)
    requires Distinct(xs) && forall x <- xs :: 0 <= x < n
    ensures |xs| <= n
    decreases n
  {
    if i :| 0 <= i < |xs| && xs[i] == n - 1 {
      assert xs[i] in xs;
      var ys := xs[..i] + xs[i + 1..];
      assert forall y <- ys :: y in xs && y != n - 1;
      DistinctBelow(ys, n - 1);
    } else if xs != [] {
      assert xs[0] in xs;
      DistinctBelow(xs, n - 1);
    }
  }

  lemma DivMod(v: int, m: int, q: int, r: int)
    requires 0 <= r < m && v == q * m + r
    ensures v % m == r && v / m == q
  {
    var d := v / m - q;
    assert v == (v / m) * m + v % m;
    assert d * m == (v / m) * m - q * m;
    SmallMultiple(d, m);
  }

  lemma SmallMultiple(d: int, m: int)
    requires -m < d * m < m
    ensures d == 0
  {
    assert d >= 1 ==> d * m >= m;
    assert d <= -1 ==> d * m <= -m;
  }

  // ----- runs of events

  /** The state after a run of events. */
  function Fold<S, E>(step: (S, E) -> S, s: S, es: seq<E>): S {
    if es == [] then s else step(Fold(step, s, DropLast(es)), Last(es))
  }

  /** Each event of a run is fine in the state it meets. */
  predicate Along<S, E>(step: (S, E) -> S, fine: (S, E) -> bool, s: S, es: seq<E>) {
    es == [] || (Along(step, fine, s, DropLast(es)) && fine(Fold(step, s, DropLast(es)), Last(es)))
  }

  lemma FoldOne<S, E>(step: (S, E) -> S, s: S, es: seq<E>, e: E)
    ensures Fold(step, s, es + [e]) == step(Fold(step, s, es), e)
  {
    assert DropLast(es + [e]) == es;
  }

  lemma AlongOne<S, E>(step: (S, E) -> S, fine: (S, E) -> bool, s: S, es: seq<E>, e: E)
    ensures Along(step, fine, s, es + [e]) == (Along(step, fine, s, es) && fine(Fold(step, s, es), e))
  {
    assert DropLast(es + [e]) == es;
  }

  lemma {:induction false} FoldAppend<S, E>(step: (S, E) -> S, s: S, a: seq<E>, b: seq<E>)
    ensures Fold(step, s, a + b) == Fold(step, Fold(step, s, a), b)
  {
    if b == [] {
      assert a + b == a;
    } else {
      FoldAppend(step, s, a, DropLast(b));
      assert DropLast(a + b) == a + DropLast(b);
    }
  }

  lemma {:induction false} AlongAppend<S, E>(step: (S, E) -> S, fine: (S, E) -> bool, s: S, a: seq<E>, b: seq<E>)
    ensures Along(step, fine, s, a + b) == (Along(step, fine, s, a) && Along(step, fine, Fold(step, s, a), b))
  {
    if b == [] {
      assert a + b == a;
    } else {
      AlongAppend(step, fine, s, a, DropLast(b));
      FoldAppend(step, s, a, DropLast(b));
      assert DropLast(a + b) == a + DropLast(b);
    }
  }
}
