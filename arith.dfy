/** Facts about Euclidean remainder that the cursor arithmetic of the two
    round-robin selections needs. */
module Arith {

  lemma {:induction false} MulAtLeast(d: nat, n: nat)
    requires d >= 1
    ensures d * n >= n
    decreases d
  {
    if d > 1 {
      MulAtLeast(d - 1, n);
      assert d * n == (d - 1) * n + n;
    }
  }

  /** Euclidean division has one remainder: `x == q * n + r` with
      `0 <= r < n` pins down `x % n`. */
  lemma ModUnique(x: int, q: int, r: int, n: int)
    requires n > 0 && 0 <= r < n && x == q * n + r
    ensures x % n == r
  {
    var q', r' := x / n, x % n;
    assert x == q' * n + r';
    assert (q - q') * n == r' - r;
    if q > q' {
      MulAtLeast(q - q', n);
    } else if q < q' {
      MulAtLeast(q' - q, n);
    }
  }

  /** Reducing the cursor modulo `n` before stepping on does not change
      where the steps land. */
  lemma ModShift(a: nat, j: nat, n: nat)
    requires n > 0
    ensures ((a + 1) % n + j) % n == (a + 1 + j) % n
  {
    var q, r := (a + 1) / n, (a + 1) % n;
    var p, t := (r + j) / n, (r + j) % n;
    assert a + 1 == q * n + r;
    assert r + j == p * n + t;
    assert a + 1 + j == (q + p) * n + t;
    ModUnique(a + 1 + j, q + p, t, n);
  }

  /** Stepping from the reduced cursor lands where stepping from the
      unreduced one does. */
  lemma StepMod(a: nat, n: nat)
    requires n > 0
    ensures (a % n + 1) % n == (a + 1) % n
  {
    if a > 0 {
      ModShift(a - 1, 1, n);
    }
  }
}
