/** Products and quotients of reals by name, so that proofs use a few laws and not nonlinear search. */
module RealArithmetic {

  function Times(a: real, b: real): real {
    a * b
  }

  function Over(a: real, b: real): real
    requires b != 0.0
  {
    a / b
  }

  lemma TimesMonotone(a: real, b: real, k: real)
    requires a <= b && k >= 0.0
    ensures Times(a, k) <= Times(b, k)
  {
  }

  lemma TimesLaws(a: real, b: real, c: real)
    ensures Times(a, b) == Times(b, a)
    ensures Times(Times(a, b), c) == Times(a, Times(b, c))
    ensures Times(a + b, c) == Times(a, c) + Times(b, c)
    ensures Times(1.0, a) == a && Times(0.0, a) == 0.0 && Times(-1.0, a) == -a
  {
  }

  lemma OverTimes(a: real, b: real)
    requires b != 0.0
    ensures Times(Over(a, b), b) == a
    ensures Over(Times(a, b), b) == a
  {
  }

  lemma CancelTimes(a: real, b: real, k: real)
    requires k > 0.0 && Times(a, k) <= Times(b, k)
    ensures a <= b
  {
    assert b < a ==> (a - b) * k > 0.0;
  }

  lemma OverMonotone(a: real, b: real, k: real)
    requires k > 0.0 && a <= b
    ensures Over(a, k) <= Over(b, k)
  {
    OverTimes(a, k);
    OverTimes(b, k);
    CancelTimes(Over(a, k), Over(b, k), k);
  }

  lemma OverUnit(k: real)
    requires k != 0.0
    ensures Over(k, k) == 1.0 && Over(0.0, k) == 0.0
  {
  }

  lemma CancelEqual(a: real, b: real, k: real)
    requires k != 0.0 && Times(a, k) == Times(b, k)
    ensures a == b
  {
    assert (a - b) * k == 0.0;
  }

  lemma Shuffle(a: real, b: real, c: real)
    ensures Times(Times(a, b), c) == Times(Times(a, c), b)
  {
  }

  lemma NotNegative(a: real, b: real)
    requires a >= 0.0 && b >= 0.0
    ensures Times(a, b) >= 0.0
  {
  }
}
