/** Remainders, greatest common divisors and what being coprime buys. */
module Modular {

  lemma Distribute(m: int, a: int, b: int)
    ensures m * (a + b) == m * a + m * b
    ensures m * (a - b) == m * a - m * b
  {
  }

  lemma AtLeast(m: int, k: int)
    requires m > 0 && k >= 1
    ensures m * k >= m
  {
  }

  lemma DivUnique(x: int, m: int, q: int, r: int)
    requires m > 0 && x == m * q + r && 0 <= r < m
    ensures x / m == q && x % m == r
  {
    var q', r' := x / m, x % m;
    assert x == m * q' + r';
    Distribute(m, q, q');
    Distribute(m, q', q);
    if q > q' {
      AtLeast(m, q - q');
    } else if q < q' {
      AtLeast(m, q' - q);
    }
  }

  lemma Split(x: int, m: int)
    requires m > 0
    ensures x == m * (x / m) + x % m && 0 <= x % m < m
  {
  }

  lemma SameRemainder(a: int, b: int, m: int)
    requires m > 0
    ensures a % m == b % m <==> (a - b) % m == 0
  {
    Split(a, m);
    Split(b, m);
    Split(a - b, m);
    Distribute(m, a / m, b / m);
    Distribute(m, b / m, (a - b) / m);
    if a % m == b % m {
      DivUnique(a - b, m, a / m - b / m, 0);
    }
    if (a - b) % m == 0 {
      DivUnique(a, m, b / m + (a - b) / m, b % m);
    }
  }

  /** Adding a multiple of the modulus changes nothing. */
  lemma AddMultiple(a: int, k: int, m: int)
    requires m > 0
    ensures (a + m * k) % m == a % m
  {
    Split(a, m);
    Distribute(m, a / m, k);
    DivUnique(a + m * k, m, a / m + k, a % m);
  }

  lemma SmallMultiple(x: int, m: int)
    requires m > 0 && x % m == 0 && -m < x < m
    ensures x == 0
  {
    Split(x, m);
    if x > 0 {
      DivUnique(x, m, 0, x);
    } else if x < 0 {
      DivUnique(x, m, -1, x + m);
    }
  }

  // ------------------------------------------------------------------------
  // Greatest common divisors

  function Gcd(a: nat, b: nat): nat
    decreases b
  {
    if b == 0 then a else Gcd(b, a % b)
  }

  lemma DividesSum(a: int, b: int, k: int, g: int)
    requires g > 0 && a % g == 0 && b % g == 0
    ensures (a * k + b) % g == 0
  {
    Split(a, g);
    Split(b, g);
    var p, q := a / g, b / g;
    assert a * k == g * (p * k);
    Distribute(g, p * k, q);
    DivUnique(a * k + b, g, p * k + q, 0);
  }

  lemma DividesThrough(x: int, m: int, g: int)
    requires m > 0 && g > 0 && x % m == 0 && m % g == 0
    ensures x % g == 0
  {
    Split(x, m);
    Split(m, g);
    var k, q := m / g, x / m;
    assert (g * k) * q == g * (k * q);
    DivUnique(x, g, k * q, 0);
  }

  lemma {:induction false} GcdDivides(a: nat, b: nat)
    requires a > 0 || b > 0
    ensures Gcd(a, b) > 0 && a % Gcd(a, b) == 0 && b % Gcd(a, b) == 0
    decreases b
  {
    if b == 0 {
      DivUnique(a, a, 1, 0);
    } else {
      GcdDivides(b, a % b);
      Split(a, b);
      DividesSum(b, a % b, a / b, Gcd(b, a % b));
    }
  }

  lemma {:induction false} Bezout(a: nat, b: nat) returns (x: int, y: int)
    ensures a * x + b * y == Gcd(a, b)
    decreases b
  {
    if b == 0 {
      x, y := 1, 0;
    } else {
      var u, v := Bezout(b, a % b);
      x, y := v, u - (a / b) * v;
      BezoutStep(a, b, a / b, a % b, u, v);
    }
  }

  lemma BezoutStep(a: int, b: int, q: int, r: int, u: int, v: int)
    requires a == b * q + r
    ensures a * v + b * (u - q * v) == b * u + r * v
  {
    Distribute(b, u, q * v);
    assert b * (q * v) == (b * q) * v;
    assert (b * q + r) * v == (b * q) * v + r * v;
  }

  /** A factor coprime to the modulus can be cancelled. */
  lemma Cancel(a: nat, x: int, m: nat)
    requires m > 0 && Gcd(a, m) == 1 && (a * x) % m == 0
    ensures x % m == 0
  {
    var s, t := Bezout(a, m);
    Split(a * x, m);
    var k := (a * x) / m;
    Rearrange(a, m, s, t, x, k);
    DivUnique(x, m, k * s + t * x, 0);
  }

  lemma Rearrange(a: int, m: int, s: int, t: int, x: int, k: int)
    requires a * s + m * t == 1 && a * x == m * k
    ensures x == m * (k * s + t * x)
  {
    assert (a * s + m * t) * x == (a * s) * x + (m * t) * x;
    assert (a * s) * x == (a * x) * s;
    assert (m * k) * s == m * (k * s);
    assert (m * t) * x == m * (t * x);
    Distribute(m, k * s, t * x);
  }

  /** Every remainder is reached by a factor coprime to the modulus. */
  lemma Solve(a: nat, c: int, m: nat) returns (q: nat)
    requires m > 0 && Gcd(a, m) == 1
    ensures q < m && (a * q - c) % m == 0
  {
    var s, t := Bezout(a, m);
    q := (c * s) % m;
    Split(c * s, m);
    var k := (c * s) / m;
    SolveStep(a, m, s, t, c, q, k);
    DivUnique(a * q - c, m, -(c * t) - a * k, 0);
  }

  lemma SolveStep(a: int, m: int, s: int, t: int, c: int, q: int, k: int)
    requires a * s + m * t == 1 && c * s == m * k + q
    ensures a * q - c == m * (-(c * t) - a * k)
  {
    assert a * q == a * (c * s) - a * (m * k) by {
      Distribute(a, c * s, m * k);
    }
    assert a * (c * s) == c * (a * s);
    assert c * (a * s) == c * (1 - m * t) == c - c * (m * t) by {
      Distribute(c, 1, m * t);
    }
    assert c * (m * t) == m * (c * t) && a * (m * k) == m * (a * k);
    Distribute(m, -(c * t), a * k);
    assert m * -(c * t) == -(m * (c * t));
  }

  /** A modulus that shares a factor sends a smaller positive number to zero. */
  lemma SharedFactor(a: nat, m: nat) returns (q: nat)
    requires m > 0 && Gcd(a, m) > 1
    ensures 0 < q < m && (a * q) % m == 0
    ensures q == m / Gcd(a, m)
  {
    var g := Gcd(a, m);
    GcdDivides(a, m);
    Split(a, g);
    Split(m, g);
    q := m / g;
    Cofactors(a, m, g, a / g, q);
    DivUnique(a * q, m, a / g, 0);
  }

  lemma Cofactors(a: int, m: int, g: int, p: int, q: int)
    requires a == g * p && m == g * q && g > 1 && m > 0
    ensures 0 < q < m && a * q == m * p
  {
    assert (g * p) * q == (g * q) * p;
    if q > 0 {
      AtLeast(q, g - 1);
      Distribute(q, g, 1);
    }
  }
}
