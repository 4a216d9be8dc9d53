/** Machine words as bits, least significant first, and what the bit operations mean for the
    numbers they stand for. */
module GcBits {
  import opened Basics

  type Bits = seq<bool>

  function And(a: Bits, b: Bits): (r: Bits)
    requires |a| == |b|
    ensures |r| == |a| && forall i | 0 <= i < |a| :: r[i] == (a[i] && b[i])
  {
    seq(|a|, i requires 0 <= i < |a| => a[i] && b[i])
  }

  function Or(a: Bits, b: Bits): (r: Bits)
    requires |a| == |b|
    ensures |r| == |a| && forall i | 0 <= i < |a| :: r[i] == (a[i] || b[i])
  {
    seq(|a|, i requires 0 <= i < |a| => a[i] || b[i])
  }

  function Not(a: Bits): (r: Bits)
    ensures |r| == |a| && forall i | 0 <= i < |a| :: r[i] == !a[i]
  {
    seq(|a|, i requires 0 <= i < |a| => !a[i])
  }

  function Shl(a: Bits, s: nat): (r: Bits)
    ensures |r| == |a| && forall i | 0 <= i < |a| :: r[i] == (s <= i && a[i - s])
  {
    seq(|a|, i requires 0 <= i < |a| => s <= i && a[i - s])
  }

  function Shr(a: Bits, s: nat): (r: Bits)
    ensures |r| == |a| && forall i | 0 <= i < |a| :: r[i] == (i + s < |a| && a[i + s])
  {
    seq(|a|, i requires 0 <= i < |a| => i + s < |a| && a[i + s])
  }

  function Ones(n: nat): (r: Bits)
    ensures |r| == n && forall i | 0 <= i < n :: r[i]
  {
    seq(n, _ => true)
  }

  // ----- numbers

  function Bit(b: bool): nat {
    if b then 1 else 0
  }

  function ToNat(a: Bits): nat {
    if a == [] then 0 else Bit(a[0]) + 2 * ToNat(a[1..])
  }

  function FromNat(n: nat, v: nat): (a: Bits)
    ensures |a| == n
  {
    if n == 0 then [] else [v % 2 == 1] + FromNat(n - 1, v / 2)
  }

  lemma {:induction false} FromNatValue(n: nat, v: nat)
    requires v < Pow2(n)
    ensures ToNat(FromNat(n, v)) == v
  {
    if n > 0 {
      FromNatValue(n - 1, v / 2);
      assert FromNat(n, v)[1..] == FromNat(n - 1, v / 2);
    }
  }

  lemma {:induction false} Bounded(a: Bits)
    ensures ToNat(a) < Pow2(|a|)
  {
    if a != [] {
      Bounded(a[1..]);
    }
  }

  lemma Twice(q: int, p: int)
    ensures 2 * (q * p) == q * (2 * p)
  {
  }

  lemma {:induction false} SplitSum(a: Bits, k: nat)
    requires k <= |a|
    ensures ToNat(a) == ToNat(a[k..]) * Pow2(k) + ToNat(a[..k])
  {
    if k == 0 {
      assert a[..0] == [] && a[0..] == a;
    } else {
      SplitSum(a[1..], k - 1);
      assert a[..k][1..] == a[1..][..k - 1] && a[k..] == a[1..][k - 1..];
      var q, p := ToNat(a[k..]), Pow2(k - 1);
      var r := ToNat(a[1..][..k - 1]);
      assert ToNat(a[1..]) == q * p + r;
      assert ToNat(a) == Bit(a[0]) + 2 * (q * p + r) && ToNat(a[..k]) == Bit(a[0]) + 2 * r;
      Twice(q, p);
    }
  }

  /** A word splits at bit k into a quotient and a remainder. */
  lemma Split(a: Bits, k: nat)
    requires k <= |a|
    ensures ToNat(a[..k]) == ToNat(a) % Pow2(k) && ToNat(a[k..]) == ToNat(a) / Pow2(k)
    ensures ToNat(a) == ToNat(a[k..]) * Pow2(k) + ToNat(a[..k])
  {
    SplitSum(a, k);
    Bounded(a[..k]);
    DivMod(ToNat(a), Pow2(k), ToNat(a[k..]), ToNat(a[..k]));
  }

  lemma {:induction false} Zeros(a: Bits)
    requires forall i | 0 <= i < |a| :: !a[i]
    ensures ToNat(a) == 0
  {
    if a != [] {
      Zeros(a[1..]);
    }
  }

  lemma Padded(a: Bits, k: nat)
    requires k <= |a| && forall i | k <= i < |a| :: !a[i]
    ensures ToNat(a) == ToNat(a[..k])
  {
    Zeros(a[k..]);
    Split(a, k);
  }

  lemma Cleared(a: Bits, k: nat)
    requires k <= |a| && forall i | 0 <= i < k :: !a[i]
    ensures ToNat(a) == ToNat(a[k..]) * Pow2(k)
  {
    Zeros(a[..k]);
    Split(a, k);
  }

  /** The bits of 2^k - 1 are the k lowest. */
  lemma {:induction false} LowMask(n: nat, k: nat)
    requires k <= n
    ensures FromNat(n, Pow2(k) - 1) == seq(n, i => i < k)
  {
    if n > 0 {
      if k == 0 {
        LowMask(n - 1, 0);
      } else {
        assert (Pow2(k) - 1) / 2 == Pow2(k - 1) - 1;
        LowMask(n - 1, k - 1);
      }
    }
  }
}
