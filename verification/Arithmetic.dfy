/** Multiplication by repeated addition, for bounds whose factors are both variables. */
module Arithmetic {

  /** `a * e`, and 0 when `e` is negative. */
  function Times(a: nat, e: int): (r: nat) {
    if e <= 0 then 0 else a + Times(a, e - 1)
  }

  lemma {:induction false} TimesIsProduct(a: nat, e: nat)
    ensures Times(a, e) == a * e
  {
    if e > 0 {
      TimesIsProduct(a, e - 1);
      assert a * e == a * (e - 1) + a;
    }
  }

  lemma {:induction false} TimesMonotone(a: nat, e: int, f: int)
    requires e <= f
    ensures Times(a, e) <= Times(a, f)
    ensures e < f && 0 <= e ==> Times(a, e) + a <= Times(a, f)
    decreases f - e
  {
    if e < f { TimesMonotone(a, e, f - 1); }
  }
}
