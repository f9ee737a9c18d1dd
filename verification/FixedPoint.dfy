/** Fixed-point arithmetic shared by the resamplers: 16-bit truncation, the
    multiply-accumulate sum, and the few facts about integer division they need.
    Shifts are written as division: Dafny's `/` by a positive number floors, as
    the arithmetic right shift does. */
module FixedPoint {

  /** The low 16 bits of `v`, read as a two's-complement number. */
  function ToInt16(v: int): (r: int)
    ensures -0x8000 <= r < 0x8000
    ensures -0x8000 <= v < 0x8000 ==> r == v
  {
    var w := v % 0x10000;
    if w >= 0x8000 then w - 0x10000 else w
  }

  /** It is congruent to `v`, and no other number of the 16-bit range is. */
  lemma ToInt16Congruent(v: int, r: int)
    requires -0x8000 <= r < 0x8000
    ensures (r - v) % 0x1_0000 == 0 <==> r == ToInt16(v)
  {}

  function Words(xs: seq<int>): (r: seq<int>)
    ensures |r| == |xs|
  {
    seq(|xs|, i requires 0 <= i < |xs| => ToInt16(xs[i]))
  }

  /** The sum of c[base + i] * x[off + i] over i < n. */
  function Mac(c: seq<int>, base: nat, x: seq<int>, off: nat, n: nat): int
    requires base + n <= |c| && off + n <= |x|
  {
    if n == 0 then 0 else Mac(c, base, x, off, n - 1) + c[base + n - 1] * x[off + n - 1]
  }

  function Zeros(n: nat): (r: seq<int>)
    ensures |r| == n && forall i :: 0 <= i < n ==> r[i] == 0
  {
    seq(n, _ => 0)
  }

  lemma {:induction false} MacEqual(c: seq<int>, base: nat, x: seq<int>, off: nat, y: seq<int>, off': nat, n: nat)
    requires base + n <= |c| && off + n <= |x| && off' + n <= |y|
    requires x[off..off + n] == y[off'..off' + n]
    ensures Mac(c, base, x, off, n) == Mac(c, base, y, off', n)
  {
    if n > 0 {
      var u, v := x[off..off + n], y[off'..off' + n];
      assert x[off + n - 1] == u[n - 1] == v[n - 1] == y[off' + n - 1];
      assert x[off..off + (n - 1)] == u[..n - 1];
      assert y[off'..off' + (n - 1)] == v[..n - 1];
      MacEqual(c, base, x, off, y, off', n - 1);
    }
  }

  lemma Quotient(a: int, d: int, q: int, r: int)
    requires d > 0 && a == q * d + r && 0 <= r < d
    ensures a / d == q && a % d == r
  {
    var q' := a / d;
    assert (q + 1) * d == q * d + d && (q' + 1) * d == q' * d + d;
    if q' > q {
      MulMonotone(q + 1, q', d);
    } else if q' < q {
      MulMonotone(q' + 1, q, d);
    }
  }

  lemma MulMonotone(a: int, b: int, k: int)
    requires a <= b && 0 <= k
    ensures a * k <= b * k
  {}

  lemma QuotientBelow(a: int, d: int, n: int)
    requires d > 0 && a < n * d + d
    ensures a / d <= n
  {
    assert (n + 1) * d == n * d + d;
    if a / d > n {
      MulMonotone(n + 1, a / d, d);
    }
  }

  lemma {:induction false} MacFromFront(c: seq<int>, base: nat, x: seq<int>, off: nat, n: nat)
    requires 1 <= n && base + n <= |c| && off + n <= |x|
    ensures Mac(c, base, x, off, n) == c[base] * x[off] + Mac(c, base + 1, x, off + 1, n - 1)
  {
    if n > 1 {
      MacFromFront(c, base, x, off, n - 1);
    }
  }

  /** Where only one product is not zero, it is the sum. */
  lemma {:induction false} MacSingle(c: seq<int>, w: seq<int>, n: nat, m: nat)
    requires n <= |c| && n <= |w|
    requires forall i {:trigger c[i]} {:trigger w[i]} :: 0 <= i < n && i != m ==> c[i] == 0 || w[i] == 0
    ensures Mac(c, 0, w, 0, n) == if m < n then c[m] * w[m] else 0
  {
    if n > 0 {
      MacSingle(c, w, n - 1, m);
      assert n - 1 != m ==> c[n - 1] * w[n - 1] == 0;
    }
  }

  lemma Distribute(a: int, b: int, k: int)
    ensures (a + b) * k == a * k + b * k && (a - b) * k == a * k - b * k
  {}
}
