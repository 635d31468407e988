/**
 * The `double` arithmetic the transforms perform, over the reals. A Java `double` that is
 * NaN or an infinity is folded into one value, NonFinite, which every operation below
 * propagates; that is how each case that Java turns into NaN or an infinity behaves here.
 * The logarithms (`Math.log`, `Statistics.log2`) are parameters that obey `LogLaws`.
 */
module Weights {

  datatype Weight = Finite(value: real) | NonFinite

  /** A transformed record: the term's row, the document's column and the new value. */
  datatype WeightedCell = WeightedCell(term: int, doc: int, weight: Weight)

  /** What the proofs assume of a logarithm of any base greater than 1. */
  ghost predicate LogLaws(log: real -> real) {
    && log(1.0) == 0.0
    && (forall x :: 0.0 < x <= 1.0 ==> log(x) <= 0.0)
    && (forall x :: 1.0 < x ==> 0.0 < log(x))
  }

  function Add(a: Weight, b: Weight): Weight {
    if a.Finite? && b.Finite? then Finite(a.value + b.value) else NonFinite
  }

  function Mul(a: Weight, b: Weight): Weight {
    if a.Finite? && b.Finite? then Finite(a.value * b.value) else NonFinite
  }

  /** `x / y` in `double`: dividing by zero gives an infinity or NaN. */
  function Ratio(x: real, y: real): Weight {
    if y == 0.0 then NonFinite else Finite(x / y)
  }

  /** A logarithm in `double`: -Infinity at 0, NaN below it. */
  function Log(log: real -> real, x: real): Weight {
    if x <= 0.0 then NonFinite else Finite(log(x))
  }

  function LogOf(log: real -> real, w: Weight): Weight {
    if w.Finite? then Log(log, w.value) else NonFinite
  }

  /** A probability's contribution to an entropy is never positive. */
  lemma EntropyTermNonPositive(log: real -> real, p: real)
    requires LogLaws(log) && 0.0 < p <= 1.0
    ensures Mul(Finite(p), Log(log, p)) == Finite(p * log(p))
    ensures p * log(p) <= 0.0
  {
    assert log(p) <= 0.0;
  }

  /** A positive count over a total at least as large is a probability in (0, 1]. */
  lemma RatioInUnitInterval(a: int, b: int)
    requires 0 < a <= b
    ensures Ratio(a as real, b as real).Finite? && 0.0 < Ratio(a as real, b as real).value <= 1.0
  {
    assert (a as real) / (b as real) * (b as real) == a as real;
  }

  /** A non-zero count over itself is exactly 1. */
  lemma RatioSelf(a: int)
    requires a != 0
    ensures Ratio(a as real, a as real) == Finite(1.0)
  {
    assert (a as real) / (a as real) == 1.0;
  }

  /** The number of documents over a document frequency that does not exceed it is at least 1. */
  lemma RatioAtLeastOne(a: int, b: int)
    requires 0 < b <= a
    ensures Ratio(a as real, b as real).Finite? && Ratio(a as real, b as real).value >= 1.0
  {
    var r := (a as real) / (b as real);
    assert r * (b as real) == a as real;
    if r < 1.0 {
      assert r * (b as real) < 1.0 * (b as real);
    }
  }

  /** A positive weight scaled by at most 1 does not grow. */
  lemma ScaledAtMost(l: Weight, m: Weight)
    requires l.Finite? && l.value > 0.0 && m.Finite? && m.value <= 1.0
    ensures Mul(l, m).Finite? && Mul(l, m).value <= l.value
  {
    assert l.value * m.value <= l.value * 1.0;
  }
}
