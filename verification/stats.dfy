/** Sums and means of sample lists: `avg` (a loop in decode/decode.py, `reduce` in decode.py) and
    the mean tests the decoders apply to them. */
module Stats {

  /** The sum of a list of samples, accumulated from the front as decode.py's
      `reduce(lambda x, y: x + y, l)` does. */
  function Sum(s: seq<int>): int {
    if s == [] then 0 else Sum(s[..|s| - 1]) + s[|s| - 1]
  }

  /** The accumulator loop of `avg`: `t = 0; for e in l: t += e`. */
  method Total(l: seq<int>) returns (t: int)
    ensures t == Sum(l)
  {
    t := 0;
    var i := 0;
    while i < |l|
      invariant 0 <= i <= |l|
      invariant t == Sum(l[..i])
    {
      assert l[..i + 1][..i] == l[..i];
      t := t + l[i];
      i := i + 1;
    }
    assert l[..i] == l;
  }

  /** When every sample lies in [lo, hi], so does the mean: the sum lies between `lo` and `hi`
      times the number of samples. */
  lemma {:induction false} SumBetween(s: seq<int>, lo: int, hi: int)
    requires forall i :: 0 <= i < |s| ==> lo <= s[i] <= hi
    ensures lo * |s| <= Sum(s) <= hi * |s|
  {
    if s != [] {
      SumBetween(s[..|s| - 1], lo, hi);
      assert lo * |s| == lo * (|s| - 1) + lo;
      assert hi * |s| == hi * (|s| - 1) + hi;
    }
  }

  /** The rational `num / den`. */
  datatype Ratio = Ratio(num: nat, den: nat) {
    predicate Valid() { den >= 1 }
    function Value(): real requires Valid() { num as real / den as real }
  }

  /** A comparison of a mean sample value with a fixed bound: `mean > bound` or `mean < bound`. */
  datatype Test = Exceeds(bound: Ratio) | Below(bound: Ratio)

  /** Whether the mean `sum / n` passes `t`, decided by cross-multiplying: `mean > 25` is
      `sum > 25 * n`, `mean > 0.95` is `20 * sum > 19 * n`. */
  predicate Passes(t: Test, sum: int, n: nat) {
    match t
    case Exceeds(b) => b.den * sum > b.num * n
    case Below(b) => b.den * sum < b.num * n
  }

  /** The mean `avg` computes, as an exact rational. */
  function Mean(sum: int, n: nat): real
    requires n >= 1
  {
    sum as real / n as real
  }

  /** The cross-multiplied test agrees with the comparison of the exact mean. */
  lemma PassesIsMeanTest(t: Test, sum: int, n: nat)
    requires n >= 1 && t.bound.Valid()
    ensures Passes(t, sum, n) <==> match t
      case Exceeds(b) => Mean(sum, n) > b.Value()
      case Below(b) => Mean(sum, n) < b.Value()
  {
    var b := t.bound;
    var m, v := Mean(sum, n), b.Value();
    assert m * n as real == sum as real;
    assert v * b.den as real == b.num as real;
    var d := (m - v) * (n as real * b.den as real);
    assert d == (b.den * sum - b.num * n) as real;
    PositiveProduct(m - v, n as real * b.den as real);
    PositiveProduct(v - m, n as real * b.den as real);
  }

  lemma PositiveProduct(x: real, y: real)
    requires y > 0.0
    ensures x > 0.0 <==> x * y > 0.0
  {
  }
}
