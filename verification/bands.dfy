/** The band boundaries that `rows` and `cols` share: the `bound(i)` helper of both decoders. */
module Bands {

  /** `bound(i) = (i * len) / n + (1 if i < len % n else 0)`, Python 2 integer division on
      non-negative operands. Band `i` is the half-open interval [Bound(i), Bound(i + 1)). */
  function Bound(i: nat, len: nat, n: nat): (b: nat)
    requires n >= 1 && i <= n
    ensures b <= len
  {
    BelowLength(i, len, n);
    (i * len) / n + (if i < len % n then 1 else 0)
  }

  /** Division facts used below, proved from the defining equation of `/` and `%`. */
  lemma DivUnique(a: int, n: int, d: int, m: int)
    requires n >= 1 && 0 <= m < n && a == d * n + m
    ensures a / n == d && a % n == m
  {
    var k := d - a / n;
    assert d * n == (a / n) * n + k * n;
    assert k * n == a % n - m;
    if k >= 1 {
      AtLeastOnce(k, n);
    } else if k <= -1 {
      AtLeastOnce(-k, n);
    }
  }

  lemma AtLeastOnce(k: int, n: int)
    requires k >= 1 && n >= 1
    ensures k * n >= n
  {
  }

  lemma DivAddMultiple(a: int, q: int, n: int)
    requires n >= 1
    ensures (a + q * n) / n == a / n + q
  {
    DivUnique(a + q * n, n, a / n + q, a % n);
  }

  /** Adding less than `n` moves the quotient up by at most one. */
  lemma DivAddSmall(a: int, m: int, n: int)
    requires n >= 1 && 0 <= m < n
    ensures a / n <= (a + m) / n <= a / n + 1
  {
    var r := a % n;
    if r + m < n {
      DivUnique(a + m, n, a / n, r + m);
    } else {
      DivUnique(a + m, n, a / n + 1, r + m - n);
    }
  }

  lemma MulLe(x: int, y: int, n: int)
    requires x <= y && n >= 0
    ensures x * n <= y * n
  {
    assert y * n - x * n == (y - x) * n;
  }

  lemma DivBelow(a: int, c: int, n: int)
    requires n >= 1 && a < c * n
    ensures a / n < c
  {
    if a / n >= c {
      MulLe(c, a / n, n);
    }
  }

  /** For i < n the first term of `bound` stays below `len`, leaving room for the added one. */
  lemma BelowLength(i: nat, len: nat, n: nat)
    requires n >= 1 && i <= n
    ensures (i * len) / n + (if i < len % n then 1 else 0) <= len
  {
    if i == n {
      DivUnique(n * len, n, len, 0);
    } else if len == 0 {
      DivUnique(0, n, 0, 0);
    } else {
      MulLe(i, n - 1, len);
      assert (n - 1) * len == len * n - len;
      DivBelow(i * len, len, n);
    }
  }

  /** The step from one bound to the next without the correction term: the quotient `len / n`
      or one more. */
  lemma QuotientStep(i: nat, len: nat, n: nat)
    requires n >= 1
    ensures len / n <= ((i + 1) * len) / n - (i * len) / n <= len / n + 1
  {
    var q, m := len / n, len % n;
    assert (i + 1) * len == (i * len + m) + q * n;
    DivAddMultiple(i * len + m, q, n);
    DivAddSmall(i * len, m, n);
  }

  /** The last bound is the full length. */
  lemma BoundLast(len: nat, n: nat)
    requires n >= 1
    ensures Bound(n, len, n) == len
  {
    DivUnique(n * len, n, len, 0);
  }

  /** The first bound is 1, not 0, exactly when `n` does not divide `len`: the first pixel line
      then belongs to no band. */
  lemma BoundFirst(len: nat, n: nat)
    requires n >= 1
    ensures Bound(0, len, n) == (if len % n != 0 then 1 else 0)
  {
    DivUnique(0, n, 0, 0);
  }

  /** Every band has `len / n - 1`, `len / n` or `len / n + 1` lines, counting an inverted band
      as negative: the partition is not balanced. */
  lemma BandSize(i: nat, len: nat, n: nat)
    requires n >= 1 && i < n
    ensures len / n - 1 <= Bound(i + 1, len, n) - Bound(i, len, n) <= len / n + 1
  {
    QuotientStep(i, len, n);
  }

  /** One step of `BoundMonotone`. */
  lemma StepUp(i: nat, len: nat, n: nat)
    requires n >= 1 && i < n
    requires len >= n || len % n == 0
    ensures Bound(i, len, n) <= Bound(i + 1, len, n)
  {
    QuotientStep(i, len, n);
    if len >= n {
      DivAddMultiple(len - n, 1, n);
      assert (len - n) / n >= 0;
    }
  }

  /** Once the length reaches the band count, or the band count divides it, the bounds never go
      backwards. */
  lemma {:induction false} BoundMonotone(i: nat, j: nat, len: nat, n: nat)
    requires n >= 1 && i <= j <= n
    requires len >= n || len % n == 0
    ensures Bound(i, len, n) <= Bound(j, len, n)
  {
    if i < j {
      BoundMonotone(i, j - 1, len, n);
      StepUp(j - 1, len, n);
    }
  }

  /** When `n` divides `len` the bands are the exact partition of [0, len) into equal parts. */
  lemma BandsDivisible(i: nat, len: nat, n: nat)
    requires n >= 1 && i <= n && len % n == 0
    ensures Bound(i, len, n) == i * (len / n)
  {
    var q := len / n;
    assert len == q * n;
    assert i * len == (i * q) * n;
    DivUnique(i * len, n, i * q, 0);
  }

  /** When `n` does not divide `len` (and the bounds rise), no band starts before line 1: line 0
      is never part of the card. */
  lemma FirstLineInNoBand(i: nat, len: nat, n: nat)
    requires n >= 1 && i <= n && len >= n && len % n != 0
    ensures Bound(i, len, n) >= 1
  {
    BoundFirst(len, n);
    BoundMonotone(0, i, len, n);
  }

  /** When the bounds rise, the bands partition [Bound(0), len): every line there lies in exactly
      one band. */
  lemma BandOf(y: nat, len: nat, n: nat) returns (i: nat)
    requires n >= 1 && (len >= n || len % n == 0)
    requires Bound(0, len, n) <= y < len
    ensures i < n && Bound(i, len, n) <= y < Bound(i + 1, len, n)
    ensures forall k :: 0 <= k < n && Bound(k, len, n) <= y < Bound(k + 1, len, n) ==> k == i
  {
    BoundLast(len, n);
    i := BandFrom(0, y, len, n);
    forall k | 0 <= k < n && Bound(k, len, n) <= y < Bound(k + 1, len, n)
      ensures k == i
    {
      if k < i {
        BoundMonotone(k + 1, i, len, n);
      } else if k > i {
        BoundMonotone(i + 1, k, len, n);
      }
    }
  }

  lemma {:induction false} BandFrom(k: nat, y: nat, len: nat, n: nat) returns (i: nat)
    requires n >= 1 && k < n && Bound(k, len, n) <= y < len == Bound(n, len, n)
    ensures k <= i < n && Bound(i, len, n) <= y < Bound(i + 1, len, n)
    decreases n - k
  {
    if y < Bound(k + 1, len, n) {
      i := k;
    } else {
      i := BandFrom(k + 1, y, len, n);
    }
  }

  /** Shorter than the band count: some band is empty or inverted, since the bands would
      otherwise need more lines than [1, len) has. */
  lemma ShortLengthHasEmptyBand(len: nat, n: nat) returns (i: nat)
    requires n >= 1 && len < n
    ensures i < n && Bound(i + 1, len, n) <= Bound(i, len, n)
  {
    DivUnique(len, n, 0, len);
    BoundFirst(len, n);
    if len == 0 {
      DivUnique(0, n, 0, 0);
      i := 0;
    } else {
      i := EmptyBandFrom(0, len, n);
    }
  }

  /** The search behind `ShortLengthHasEmptyBand`: bounds that have risen by at least one per
      band since Bound(0) = 1 must stop rising before they pass `len`. */
  lemma {:induction false} EmptyBandFrom(k: nat, len: nat, n: nat) returns (i: nat)
    requires n >= 1 && len < n && k <= n && Bound(k, len, n) >= k + 1
    ensures k <= i < n && Bound(i + 1, len, n) <= Bound(i, len, n)
    decreases n - k
  {
    if Bound(k + 1, len, n) <= Bound(k, len, n) {
      i := k;
    } else {
      i := EmptyBandFrom(k + 1, len, n);
    }
  }

  /** The two quirks at the decoders' eight rows: a 10-line image has an empty second band and a
      two-line fourth band, and a 1-line image has an inverted first band. */
  lemma EightBandQuirks()
    ensures Bound(1, 10, 8) == 2 == Bound(2, 10, 8)
    ensures Bound(4, 10, 8) - Bound(3, 10, 8) == 2
    ensures Bound(0, 1, 8) == 1 && Bound(1, 1, 8) == 0
  {
  }
}
