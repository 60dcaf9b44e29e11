/** The integer primitives of isl that the elimination steps rely on:
    greatest common divisor, least common multiple and exact division. */
module IntArith {

  function Abs(x: int): nat {
    if x < 0 then -x else x
  }

  /** `isl_int_gcd`: non-negative, and zero only for two zeros. */
  function Gcd(a: int, b: int): (g: nat)
    ensures g > 0 <==> a != 0 || b != 0
    decreases Abs(b)
  {
    if b == 0 then Abs(a) else Gcd(b, a % b)
  }

  /** `isl_int_divexact`, meaningful when d divides x. */
  function DivExact(x: int, d: int): int
    requires d != 0
  {
    x / d
  }

  predicate Divides(d: int, x: int)
    requires d != 0
  {
    x % d == 0
  }

  lemma MulAtLeast(k: int, d: int)
    requires k != 0
    ensures Abs(k * d) >= Abs(d)
  {
    if k > 0 && d >= 0 { assert k * d >= d; }
    if k > 0 && d < 0 { assert k * d <= d; }
    if k < 0 && d >= 0 { assert k * d <= -d; }
    if k < 0 && d < 0 { assert k * d >= -d; }
  }

  lemma ExactQuotient(q: int, d: int)
    requires d != 0
    ensures (q * d) % d == 0 && (q * d) / d == q
  {
    var x := q * d;
    assert x == d * (x / d) + x % d;
    var k := q - x / d;
    assert k * d == x % d by { assert k * d == q * d - d * (x / d); }
    if k != 0 { MulAtLeast(k, d); }
  }

  /** Both quotients by the gcd are exact. */
  lemma {:induction false} GcdDivides(a: int, b: int) returns (x: int, y: int)
    requires a != 0 || b != 0
    ensures a == x * Gcd(a, b) && b == y * Gcd(a, b)
    ensures DivExact(a, Gcd(a, b)) == x && DivExact(b, Gcd(a, b)) == y
    decreases Abs(b)
  {
    var g := Gcd(a, b);
    if b == 0 {
      x, y := if a < 0 then -1 else 1, 0;
    } else {
      var u, v := GcdDivides(b, a % b);
      x := LinearQuotient(a, b, a / b, u, v, g);
      y := u;
    }
    ExactQuotient(x, g);
    ExactQuotient(y, g);
  }

  lemma LinearQuotient(a: int, b: int, q: int, u: int, v: int, g: int) returns (x: int)
    requires b != 0 && q == a / b && b == u * g && a % b == v * g
    ensures a == x * g
  {
    x := q * u + v;
    var c, r := a / b, a % b;
    assert a == c * b + r;
    assert c * (u * g) + v * g == (c * u + v) * g;
  }

  /** The gcd is greatest: every common divisor divides it. */
  lemma {:induction false} GcdGreatest(a: int, b: int, d: int, x: int, y: int) returns (z: int)
    requires a == x * d && b == y * d
    ensures Gcd(a, b) == z * d
    decreases Abs(b)
  {
    if b == 0 {
      z := if a < 0 then -x else x;
    } else {
      var q := a / b;
      assert a % b == (x - q * y) * d by {
        assert a % b == a - q * b;
        assert q * b == (q * y) * d;
      }
      z := GcdGreatest(b, a % b, d, y, x - q * y);
    }
  }

  /** The gcd is a combination of the two numbers. */
  lemma {:induction false} Bezout(a: int, b: int) returns (u: int, v: int)
    ensures u * a + v * b == Gcd(a, b)
    decreases Abs(b)
  {
    if b == 0 {
      u, v := if a < 0 then -1 else 1, 0;
    } else {
      var s, t := Bezout(b, a % b);
      BezoutStep(a, b, a / b, a % b, s, t);
      u, v := t, s - (a / b) * t;
    }
  }

  lemma BezoutStep(a: int, b: int, q: int, r: int, s: int, t: int)
    requires a == q * b + r
    ensures t * a + (s - q * t) * b == s * b + t * r
  {
    assert t * (q * b + r) == (q * t) * b + t * r;
    assert (s - q * t) * b == s * b - (q * t) * b;
  }

  /** `isl_int_lcm` of two non-zero integers. */
  function Lcm(a: int, b: int): int
    requires a != 0 && b != 0
  {
    Abs(a * DivExact(b, Gcd(a, b)))
  }

  lemma LcmMultiple(a: int, b: int) returns (x: int, y: int)
    requires a != 0 && b != 0
    ensures Lcm(a, b) == x * a == y * b
    ensures x != 0 && y != 0
    ensures DivExact(Lcm(a, b), a) == x && DivExact(Lcm(a, b), b) == y
  {
    var u, v := GcdDivides(a, b);
    var g := Gcd(a, b);
    hide Gcd;
    CrossMultiple(a, b, u, v, g);
    x, y := if a * v < 0 then -v else v, if a * v < 0 then -u else u;
    SignedMultiple(a, b, u, v);
    ExactQuotient(x, a);
    ExactQuotient(y, b);
  }

  lemma SignedMultiple(a: int, b: int, u: int, v: int)
    requires a * v == b * u
    ensures Abs(a * v) == (if a * v < 0 then -v else v) * a == (if a * v < 0 then -u else u) * b
  {
    assert (-v) * a == -(a * v) && (-u) * b == -(b * u);
  }

  lemma MultipleOfMultiple(z: int, q: int, h: int, x: int, g: int)
    requires z == q * h && h == x * g
    ensures z == (q * x) * g
  {
    assert q * (x * g) == (q * x) * g;
  }

  lemma ExactDivision(x: int, q: int, g: int)
    requires g != 0 && x == q * g
    ensures DivExact(x, g) == q && x == g * DivExact(x, g)
  {
    ExactQuotient(q, g);
  }

  lemma CrossMultiple(a: int, b: int, u: int, v: int, g: int)
    requires a == u * g && b == v * g
    ensures a * v == u * b
  {
    assert (u * g) * v == u * (v * g);
  }

  /** The least integer not below y. */
  function Ceiling(y: real): (c: int)
    ensures (c as real) - 1.0 < y <= (c as real)
  {
    -((-y).Floor)
  }

  lemma MultipleAtLeast(z: int, g: int)
    requires g > 0
    ensures z * g > 0 ==> z * g >= g
  {
    if z >= 1 { assert (z - 1) * g >= 0; } else { assert z * g <= 0; }
  }
}
