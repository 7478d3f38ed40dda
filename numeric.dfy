/** Greatest common divisors, as `num::Integer::gcd` computes them on the step sizes. */
module Numeric {

  /** d is a positive divisor of a. */
  predicate Dvd(d: int, a: int) {
    d > 0 && a % d == 0
  }

  /** Euclid's algorithm; `Gcd(a, 0) == a`. */
  function Gcd(a: nat, b: nat): nat
    decreases b
  {
    if b == 0 then a else Gcd(b, a % b)
  }

  /** `gcd = first; for x in s { gcd = gcd.gcd(x) }` */
  function GcdFold(g: nat, s: seq<nat>): nat
    decreases |s|
  {
    if s == [] then g else GcdFold(Gcd(g, s[0]), s[1..])
  }

  lemma DvdMultiple(d: int, k: int)
    requires d > 0
    ensures Dvd(d, d * k)
  {
    var q, r := (d * k) / d, (d * k) % d;
    assert d * k == d * q + r && 0 <= r < d;
    assert d * (k - q) == r;
    if k - q >= 1 {
      assert false;
    } else if k - q <= -1 {
      assert false;
    }
  }

  lemma DvdCombine(d: int, x: int, y: int, c: int)
    requires Dvd(d, x) && Dvd(d, y)
    ensures Dvd(d, x + c * y)
  {
    var kx, ky := x / d, y / d;
    assert x == d * kx;
    assert y == d * ky;
    assert x + c * y == d * (kx + c * ky);
    DvdMultiple(d, kx + c * ky);
  }

  lemma DvdTrans(a: int, b: int, c: int)
    requires Dvd(a, b) && Dvd(b, c)
    ensures Dvd(a, c)
  {
    assert c == b * (c / b);
    DvdCombine(a, 0, b, c / b);
  }

  lemma DvdBound(d: int, a: int)
    requires Dvd(d, a) && a > 0
    ensures d <= a
  {
    var k := a / d;
    assert a == d * k;
    assert d * k == d + d * (k - 1);
    assert d * (k - 1) >= 0;
  }

  lemma {:induction false} GcdDivides(a: nat, b: nat)
    requires a > 0 || b > 0
    ensures Gcd(a, b) > 0 && Dvd(Gcd(a, b), a) && Dvd(Gcd(a, b), b)
    decreases b
  {
    if b != 0 {
      var g := Gcd(b, a % b);
      GcdDivides(b, a % b);
      assert a == a % b + (a / b) * b;
      DvdCombine(g, a % b, b, a / b);
    }
  }

  lemma {:induction false} GcdGreatest(a: nat, b: nat, d: int)
    requires Dvd(d, a) && Dvd(d, b)
    ensures Dvd(d, Gcd(a, b))
    decreases b
  {
    if b != 0 {
      assert a % b == a + (-(a / b)) * b;
      DvdCombine(d, a, b, -(a / b));
      GcdGreatest(b, a % b, d);
    }
  }

  lemma {:induction false} GcdFoldDivides(g: nat, s: seq<nat>)
    requires g > 0
    ensures GcdFold(g, s) > 0 && Dvd(GcdFold(g, s), g)
    ensures forall x :: x in s ==> Dvd(GcdFold(g, s), x)
    decreases |s|
  {
    if s != [] {
      var g' := Gcd(g, s[0]);
      GcdDivides(g, s[0]);
      GcdFoldDivides(g', s[1..]);
      var r := GcdFold(g, s);
      DvdTrans(r, g', g);
      DvdTrans(r, g', s[0]);
      forall x | x in s ensures Dvd(r, x) {
        if x != s[0] {
          assert x in s[1..];
        }
      }
    }
  }

  lemma {:induction false} GcdFoldGreatest(g: nat, s: seq<nat>, d: int)
    requires Dvd(d, g)
    requires forall x :: x in s ==> Dvd(d, x)
    ensures Dvd(d, GcdFold(g, s))
    decreases |s|
  {
    if s != [] {
      GcdGreatest(g, s[0], d);
      GcdFoldGreatest(Gcd(g, s[0]), s[1..], d);
    }
  }

  lemma DvdOfQuotient(x: int, g: int, m: int)
    requires Dvd(g, x) && Dvd(m, x / g)
    ensures Dvd(m * g, x)
  {
    var k := (x / g) / m;
    assert x == g * (x / g);
    assert x / g == m * k;
    assert x == (m * g) * k;
    DvdMultiple(m * g, k);
  }

  /**
   * Dividing every element of s by the gcd of s leaves numbers whose only
   * common positive divisor is 1.
   */
  lemma QuotientsCoprime(s: seq<nat>, g: nat, m: int)
    requires |s| > 0 && forall x :: x in s ==> x > 0
    requires g == GcdFold(s[0], s) && g > 0
    requires m >= 1
    requires forall x :: x in s ==> Dvd(m, x / g)
    ensures m == 1
  {
    assert s[0] in s;
    GcdFoldDivides(s[0], s);
    forall x | x in s ensures Dvd(m * g, x) {
      DvdOfQuotient(x, g, m);
    }
    GcdFoldGreatest(s[0], s, m * g);
    DvdBound(m * g, g);
    assert m * g <= 1 * g;
  }
}
