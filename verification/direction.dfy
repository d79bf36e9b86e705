/**
  Exact direction keys for integer offsets.

  The enumerator groups candidate nodes by the angle of the offset from the
  current node (a two-argument arctangent in floating point). For integer
  offsets, two non-zero vectors have the same angle exactly when one is a
  positive multiple of the other, so the model keys a direction by the
  offset divided by the gcd of its coordinates' magnitudes. This module
  defines that key and proves that equal keys mean "same ray" and nothing else.
 */
module Direction {

  import opened Arith

  datatype Dir = Dir(dx: int, dy: int)

  function Abs(a: int): (m: nat)
  {
    if a < 0 then -a else a
  }

  /** Euclid's algorithm on naturals. */
  function Gcd(a: nat, b: nat): (d: nat)
    decreases b
  {
    if b == 0 then a else Gcd(b, a % b)
  }

  /** The key of an offset: the offset divided by the gcd of its magnitudes.
      The zero offset shares the key of (1, 0), as atan2(0, 0) == atan2(0, k) == 0
      for every k > 0. */
  function Key(dx: int, dy: int): (k: Dir)
    ensures k != Dir(0, 0)
  {
    if dx == 0 && dy == 0 then Dir(1, 0)
    else
      var g := Gcd(Abs(dx), Abs(dy));
      KeyFacts(dx, dy);
      Dir(dx / g, dy / g)
  }

  /** A non-zero offset is a positive multiple of its key, and the key is primitive. */
  lemma KeyScale(dx: int, dy: int) returns (g: nat)
    requires (dx, dy) != (0, 0)
    ensures g > 0 && dx == g * Key(dx, dy).dx && dy == g * Key(dx, dy).dy
    ensures Gcd(Abs(Key(dx, dy).dx), Abs(Key(dx, dy).dy)) == 1
  {
    KeyFacts(dx, dy);
    g := Gcd(Abs(dx), Abs(dy));
  }

  /** Same ray: `v` is a positive rational multiple of `u` (parallel, not opposite). */
  predicate SameRay(ux: int, uy: int, vx: int, vy: int)
  {
    ux * vy == uy * vx && ux * vx + uy * vy > 0
  }

  // ---------------------------------------------------------------------------
  // Division and gcd facts

  lemma ModScale(g: nat, p: nat, q: nat)
    requires g > 0 && q > 0
    ensures (g * p) % (g * q) == g * (p % q)
  {
    var s := p / q;
    var r := p % q;
    assert g * p == (g * q) * s + g * r;
    MulSign(g, q - r);
    DivModUnique(g * p, g * q, s, g * r);
  }

  /** Gcd(a, b) divides both arguments; the quotients are returned. */
  lemma {:induction false} GcdDivides(a: nat, b: nat) returns (p: nat, q: nat)
    ensures a == Gcd(a, b) * p && b == Gcd(a, b) * q
    decreases b
  {
    if b == 0 {
      p, q := 1, 0;
    } else {
      var p', q' := GcdDivides(b, a % b);
      var g := Gcd(a, b);
      var s := a / b;
      assert a == b * s + a % b;
      Factor(g, p', s, q');
      p, q := p' * s + q', p';
    }
  }

  lemma {:induction false} GcdScale(g: nat, p: nat, q: nat)
    requires g > 0
    ensures Gcd(g * p, g * q) == g * Gcd(p, q)
    decreases q
  {
    if q != 0 {
      ModScale(g, p, q);
      GcdScale(g, q, p % q);
    }
  }

  lemma {:induction false} GcdPositive(a: nat, b: nat)
    requires a > 0 || b > 0
    ensures Gcd(a, b) > 0
    decreases b
  {
    if b != 0 {
      GcdPositive(b, a % b);
    }
  }

  /** Bezout's identity, by the extended Euclidean algorithm. */
  lemma {:induction false} Bezout(a: nat, b: nat) returns (x: int, y: int)
    ensures x * a + y * b == Gcd(a, b)
    decreases b
  {
    if b == 0 {
      x, y := 1, 0;
    } else {
      var x', y' := Bezout(b, a % b);
      var s := a / b;
      assert a % b == a - b * s;
      BezoutStep(x', y', a, b, s);
      x, y := y', x' - y' * s;
    }
  }

  /** The key's defining facts: it scales back to the offset and is primitive. */
  lemma KeyFacts(dx: int, dy: int)
    requires dx != 0 || dy != 0
    ensures Gcd(Abs(dx), Abs(dy)) > 0
    ensures dx == Gcd(Abs(dx), Abs(dy)) * (dx / Gcd(Abs(dx), Abs(dy)))
    ensures dy == Gcd(Abs(dx), Abs(dy)) * (dy / Gcd(Abs(dx), Abs(dy)))
    ensures Gcd(Abs(dx / Gcd(Abs(dx), Abs(dy))), Abs(dy / Gcd(Abs(dx), Abs(dy)))) == 1
  {
    var g := Gcd(Abs(dx), Abs(dy));
    GcdPositive(Abs(dx), Abs(dy));
    var p, q := GcdDivides(Abs(dx), Abs(dy));
    SignedQuotient(dx, g, p);
    SignedQuotient(dy, g, q);
    GcdScale(g, p, q);
    MulSign(g, Gcd(p, q) - 1);
  }

  lemma SignedQuotient(n: int, g: nat, p: nat)
    requires g > 0 && Abs(n) == g * p
    ensures n == g * (n / g) && Abs(n / g) == p
  {
    var s: int := if n < 0 then 0 - p else p;
    assert n == g * s;
    DivModUnique(n, g, s, 0);
  }

  // ---------------------------------------------------------------------------
  // Keys and rays

  /** For coprime (a, b) some integer combination equals 1. */
  lemma SignedBezout(a: int, b: int) returns (x: int, y: int)
    requires Gcd(Abs(a), Abs(b)) == 1
    ensures x * a + y * b == 1
  {
    var x', y' := Bezout(Abs(a), Abs(b));
    x := if a < 0 then -x' else x';
    y := if b < 0 then -y' else y';
  }

  /** A vector parallel to a primitive vector is an integer multiple of it. */
  lemma ParallelIsMultiple(a: int, b: int, c: int, d: int) returns (k: int)
    requires Gcd(Abs(a), Abs(b)) == 1
    requires a * d == b * c
    ensures c == k * a && d == k * b
  {
    var x, y := SignedBezout(a, b);
    k := x * c + y * d;
    CombineMultiple(x, y, a, b, c, d);
  }

  /** Two primitive vectors on the same ray are equal. */
  lemma PrimitiveSameRay(a: int, b: int, c: int, d: int)
    requires Gcd(Abs(a), Abs(b)) == 1 && Gcd(Abs(c), Abs(d)) == 1
    requires SameRay(a, b, c, d)
    ensures a == c && b == d
  {
    assert (a, b) != (0, 0);
    assert a * d == b * c && c * b == d * a;
    var k := ParallelIsMultiple(a, b, c, d);
    var m := ParallelIsMultiple(c, d, a, b);
    MutualMultiples(a, b, k, m);
    PositiveUnit(k, a, b);
  }

  /** Vectors that are integer multiples of each other differ by a unit. */
  lemma MutualMultiples(a: int, b: int, k: int, m: int)
    requires (a, b) != (0, 0)
    requires a == m * (k * a) && b == m * (k * b)
    ensures k == 1 || k == -1
  {
    Regroup(m, k, a);
    Regroup(m, k, b);
    UnitFactor(m * k, a, b);
    MulUnit(m, k);
  }

  /** Of the two unit multiples only the positive one stays on the ray. */
  lemma PositiveUnit(k: int, a: int, b: int)
    requires (a, b) != (0, 0) && (k == 1 || k == -1)
    requires a * (k * a) + b * (k * b) > 0
    ensures k == 1
  {
    DotOfMultiple(k, a, b);
  }

  lemma UnitFactor(t: int, a: int, b: int)
    requires (a, b) != (0, 0) && a == t * a && b == t * b
    ensures t == 1
  {
    if a != 0 {
      assert a * (t - 1) == 0;
    } else {
      assert b * (t - 1) == 0;
    }
  }

  lemma DotOfMultiple(k: int, a: int, b: int)
    requires (a, b) != (0, 0)
    ensures a * (k * a) + b * (k * b) > 0 ==> k > 0
  {
    assert a * (k * a) + b * (k * b) == k * (a * a + b * b);
    assert a * a + b * b > 0;
  }

  lemma ScaledSameRay(g: int, h: int, a: int, b: int, c: int, d: int)
    requires g > 0 && h > 0
    ensures SameRay(g * a, g * b, h * c, h * d) <==> SameRay(a, b, c, d)
  {
    var s := g * h;
    MulSign(g, h);
    Interchange(g, a, h, d);
    Interchange(g, b, h, c);
    Interchange(g, a, h, c);
    Interchange(g, b, h, d);
    Distribute(s, a * c, b * d);
    ScaleIff(s, a * d, b * c);
    ScaleSign(s, a * c + b * d);
  }

  /** Equal keys are exactly the same ray: the exact meaning of equal atan2 values. */
  lemma KeyIffSameRay(ux: int, uy: int, vx: int, vy: int)
    requires (ux, uy) != (0, 0) && (vx, vy) != (0, 0)
    ensures Key(ux, uy) == Key(vx, vy) <==> SameRay(ux, uy, vx, vy)
  {
    var k := Key(ux, uy);
    var l := Key(vx, vy);
    var g := KeyScale(ux, uy);
    var h := KeyScale(vx, vy);
    ScaledSameRay(g, h, k.dx, k.dy, l.dx, l.dy);
    if k == l {
      assert (k.dx, k.dy) != (0, 0);
      assert k.dx * k.dx + k.dy * k.dy > 0;
    }
    if SameRay(k.dx, k.dy, l.dx, l.dy) {
      PrimitiveSameRay(k.dx, k.dy, l.dx, l.dy);
    }
  }

  /** On one ray, squared length determines the point. */
  lemma SameKeySameLength(ux: int, uy: int, vx: int, vy: int)
    requires (ux, uy) != (0, 0) && (vx, vy) != (0, 0)
    requires Key(ux, uy) == Key(vx, vy)
    requires ux * ux + uy * uy == vx * vx + vy * vy
    ensures ux == vx && uy == vy
  {
    var k := Key(ux, uy);
    var g := KeyScale(ux, uy);
    var h := KeyScale(vx, vy);
    var n := k.dx * k.dx + k.dy * k.dy;
    SquaredScale(g, k.dx, k.dy);
    SquaredScale(h, k.dx, k.dy);
    CancelFactor(n, g * g, h * h);
    SquareMono(g, h);
    SquareMono(h, g);
    assert g == h;
  }

  lemma SquaredScale(g: int, a: int, b: int)
    requires (a, b) != (0, 0)
    ensures (g * a) * (g * a) + (g * b) * (g * b) == (g * g) * (a * a + b * b)
    ensures a * a + b * b > 0
  {}
}
