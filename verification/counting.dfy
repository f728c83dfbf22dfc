/**
 Binomial coefficients, the number of teams the search has to score.
 */
module Counting {

  /** The number of k-element subsets of an n-element set, by Pascal's rule. */
  function Choose(n: nat, k: nat): nat
  {
    if k == 0 then 1
    else if n == 0 then 0
    else Choose(n - 1, k - 1) + Choose(n - 1, k)
  }

  /** Asking for more elements than there are gives no subset at all. */
  lemma {:induction false} ChooseBeyond(n: nat, k: nat)
    requires n < k
    ensures Choose(n, k) == 0
  {
    if n > 0 {
      ChooseBeyond(n - 1, k - 1);
      ChooseBeyond(n - 1, k);
    }
  }

  lemma {:induction false} ChooseOne(n: nat)
    ensures Choose(n, 1) == n
  {
    if n > 0 {
      ChooseOne(n - 1);
    }
  }

  lemma {:induction false} ChooseTwo(n: nat)
    ensures 2 * Choose(n, 2) == n * (n - 1)
  {
    if n > 0 {
      var m := n - 1;
      ChooseOne(m);
      ChooseTwo(m);
      assert 2 * Choose(n, 2) == 2 * m + m * (m - 1);
      MulAddRight(m, m - 1, 2);
    }
  }

  /** Closed form for triples: C(n, 3) = n (n - 1) (n - 2) / 6. */
  lemma {:induction false} ChooseThree(n: nat)
    ensures 6 * Choose(n, 3) == n * (n - 1) * (n - 2)
  {
    if n > 0 {
      var m := n - 1;
      var p := m * (m - 1);
      ChooseTwo(m);
      ChooseThree(m);
      assert 6 * Choose(n, 3) == 3 * p + p * (m - 2);
      MulAddRight(p, m - 2, 3);
      assert n * (n - 1) == (m + 1) * m;
      MulRotate(m + 1, m, m - 1);
    }
  }

  lemma MulAddRight(a: int, b: int, c: int)
    ensures a * b + c * a == a * (b + c)
  {
  }

  lemma MulRotate(a: int, b: int, c: int)
    ensures a * b * c == b * c * a
  {
  }
}
