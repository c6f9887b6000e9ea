/** The square root the Rust code takes with `f32::sqrt`, as a parameter.

    The model never computes a square root. Every member that needs one takes
    `sqrt: nat -> real` and requires `RootLaw(sqrt)`: comparing the root of a
    natural number with a natural threshold agrees with comparing the number
    with the threshold's square. The real square root satisfies the law, and
    for natural arguments and thresholds that is all the code relies on. */
module Roots {

  function Sq(k: int): int { k * k }

  ghost predicate RootLaw(sqrt: nat -> real)
  {
    forall n: nat, k: nat {:trigger sqrt(n), Sq(k)} ::
      (sqrt(n) <= k as real <==> n <= Sq(k)) && (sqrt(n) < k as real <==> n < Sq(k))
  }

  lemma RootAtMost(sqrt: nat -> real, n: nat, k: nat)
    requires RootLaw(sqrt)
    ensures sqrt(n) <= k as real <==> n <= k * k
  {
    assert sqrt(n) <= k as real <==> n <= Sq(k);
  }

  lemma RootBelow(sqrt: nat -> real, n: nat, k: nat)
    requires RootLaw(sqrt)
    ensures sqrt(n) < k as real <==> n < k * k
  {
    assert sqrt(n) < k as real <==> n < Sq(k);
  }

  /** The smallest c with n <= c*c. */
  function CeilRoot(n: nat): (c: nat)
    ensures n <= c * c
    ensures c == 0 || (c - 1) * (c - 1) < n
  {
    CeilRootFrom(n, 0)
  }

  function CeilRootFrom(n: nat, c: nat): (r: nat)
    requires c == 0 || (c - 1) * (c - 1) < n
    ensures c <= r && n <= r * r
    ensures r == 0 || (r - 1) * (r - 1) < n
    decreases n - c
  {
    if n <= c * c then c
    else
      assert c <= c * c;
      CeilRootFrom(n, c + 1)
  }

  /** The ceiling root, lowered by a half off the perfect squares: a function
      Dafny can compute that obeys RootLaw, so the law can be met. */
  function HalfStepRoot(n: nat): real
  {
    var c := CeilRoot(n);
    if c * c == n then c as real else c as real - 0.5
  }

  lemma HalfStepRootObeysLaw()
    ensures RootLaw(HalfStepRoot)
  {
    forall n: nat, k: nat
      ensures (HalfStepRoot(n) <= k as real <==> n <= Sq(k))
           && (HalfStepRoot(n) < k as real <==> n < Sq(k))
    {
      var c := CeilRoot(n);
      SquareMonotone(c, k);
      if c > 0 { SquareMonotone(k, c - 1); }
    }
  }

  lemma SquareMonotone(a: nat, b: nat)
    ensures a <= b <==> a * a <= b * b
    ensures a < b <==> a * a < b * b
  {
    if a <= b {
      assert a * a <= a * b <= b * b;
    } else {
      assert b * b <= b * a <= a * a;
      assert b * b < a * a by {
        assert b * b <= b * a;
        assert b * a < a * a;
      }
    }
    if a < b {
      assert a * a <= a * b < b * b;
    }
  }
}
