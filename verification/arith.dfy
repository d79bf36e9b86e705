/**
  Small facts of integer arithmetic, each stated on its own so that the
  solver only ever sees a handful of products at a time.
 */
module Arith {

  lemma MulSign(d: int, t: int)
    requires d > 0
    ensures t >= 1 ==> d * t >= d
    ensures t <= -1 ==> d * t <= -d
  {}

  lemma MulUnit(m: int, k: int)
    ensures m != 0 && (k >= 2 || k <= -2) ==> m * k >= 2 || m * k <= -2
  {}

  lemma Factor(g: int, p: int, s: int, q: int)
    ensures g * p * s + g * q == g * (p * s + q)
  {}

  lemma Regroup(m: int, k: int, a: int)
    ensures m * (k * a) == (m * k) * a
  {}

  lemma CombineMultiple(x: int, y: int, a: int, b: int, c: int, d: int)
    requires a * d == b * c
    ensures (x * c + y * d) * a == (x * a + y * b) * c
    ensures (x * c + y * d) * b == (x * a + y * b) * d
  {}

  lemma SquareMono(g: nat, h: nat)
    ensures g < h ==> g * g < h * h
  {}

  lemma CancelFactor(n: int, a: int, b: int)
    requires n > 0 && a * n == b * n
    ensures a == b
  {
    assert (a - b) * n == 0;
    MulSign(n, a - b);
  }

  lemma DivModUnique(n: int, d: int, q: int, r: int)
    requires d > 0 && n == d * q + r && 0 <= r < d
    ensures n / d == q && n % d == r
  {
    var q' := n / d;
    assert d * (q - q') == n % d - r;
    MulSign(d, q - q');
  }

  lemma MulStep(a: int, b: int)
    ensures (a + 1) * b == a * b + b
  {}

  lemma MulMono(a: int, b: int, c: nat)
    requires a <= b
    ensures a * c <= b * c
  {}

  lemma BezoutStep(x: int, y: int, a: int, b: int, s: int)
    ensures x * b + y * (a - b * s) == y * a + (x - y * s) * b
  {}

  lemma Interchange(p: int, q: int, r: int, t: int)
    ensures (p * q) * (r * t) == (p * r) * (q * t)
  {}

  lemma Distribute(s: int, x: int, y: int)
    ensures s * x + s * y == s * (x + y)
  {}

  lemma ScaleIff(s: int, x: int, y: int)
    requires s > 0
    ensures s * x == s * y <==> x == y
  {
    if s * x == s * y {
      assert x * s == y * s;
      CancelFactor(s, x, y);
    }
  }

  lemma ScaleSign(s: int, x: int)
    requires s > 0
    ensures s * x > 0 <==> x > 0
  {
    MulSign(s, x);
  }
}
