/** The `gcd` helper of pizza.py: Euclid's algorithm written as plain
    recursion over Python's integer `%`, which floors (its remainder takes
    the sign of the divisor), unlike Dafny's Euclidean `%`. */
module Euclid {

  /** `d` divides `n` (every integer divides 0; only 0 is divisible by 0). */
  ghost predicate Divides(d: int, n: int) {
    exists k :: n == d * k
  }

  /** Python's floor division `a // b`. For a positive divisor Dafny's `/`
      already rounds down; for a negative one, floor(a / b) == floor(-a / -b). */
  function FloorDiv(a: int, b: int): int
    requires b != 0
  {
    if b > 0 then a / b else (-a) / (-b)
  }

  /** Python's `a % b`, defined as the language defines it:
      `a == (a // b) * b + a % b`. The result is the unique remainder that
      lies between 0 and `b` (0 included, `b` excluded). */
  function FloorMod(a: int, b: int): (r: int)
    requires b != 0
    ensures b > 0 ==> 0 <= r < b
    ensures b < 0 ==> b < r <= 0
    ensures Divides(b, a - r)
  {
    var q := FloorDiv(a, b);
    assert a - (a - b * q) == b * q;
    NegativeDivisor(a, b);
    a - b * q
  }

  /** For a negative divisor the floored remainder is the negated Euclidean
      remainder of the negated operands. */
  lemma NegativeDivisor(a: int, b: int)
    requires b != 0
    ensures b < 0 ==> a - b * FloorDiv(a, b) == -((-a) % (-b))
  {
    if b < 0 {
      var q := (-a) / (-b);
      assert (-a) == (-b) * q + (-a) % (-b);
    }
  }

  /** gcd(a, b): 0 when b is 0 gives a; otherwise gcd(b, a % b). Termination:
      |a % b| < |b|. The result divides both arguments. */
  function Gcd(a: int, b: int): (g: int)
    ensures Divides(g, a) && Divides(g, b)
    decreases if b < 0 then -b else b
  {
    if b == 0 then
      assert a == a * 1 && 0 == a * 0;
      a
    else
      var r := FloorMod(a, b);
      var g := Gcd(b, r);
      DividesSum(g, b, r, a);
      g
  }

  /** If `g` divides `b` and `r`, and `b` divides `a - r`, then `g` divides `a`. */
  lemma DividesSum(g: int, b: int, r: int, a: int)
    requires Divides(g, b) && Divides(g, r) && Divides(b, a - r)
    ensures Divides(g, a)
  {
    var kb :| b == g * kb;
    var kr :| r == g * kr;
    var q :| a - r == b * q;
    assert a == g * (kb * q + kr) by {
      calc {
        a;
        b * q + r;
        (g * kb) * q + g * kr;
        { assert (g * kb) * q == g * (kb * q); }
        g * (kb * q) + g * kr;
        g * (kb * q + kr);
      }
    }
  }

  /** If `d` divides `b` and `a`, and `b` divides `a - r`, then `d` divides `r`. */
  lemma DividesDifference(d: int, a: int, b: int, r: int)
    requires Divides(d, a) && Divides(d, b) && Divides(b, a - r)
    ensures Divides(d, r)
  {
    var ka :| a == d * ka;
    var kb :| b == d * kb;
    var q :| a - r == b * q;
    assert r == d * (ka - kb * q) by {
      calc {
        r;
        a - b * q;
        d * ka - (d * kb) * q;
        { assert (d * kb) * q == d * (kb * q); }
        d * ka - d * (kb * q);
        d * (ka - kb * q);
      }
    }
  }

  /** Every common divisor of `a` and `b` divides gcd(a, b), so the result
      is a greatest common divisor (up to sign). */
  lemma {:induction false} GcdIsGreatest(a: int, b: int, d: int)
    requires Divides(d, a) && Divides(d, b)
    ensures Divides(d, Gcd(a, b))
    decreases if b < 0 then -b else b
  {
    if b != 0 {
      var r := FloorMod(a, b);
      DividesDifference(d, a, b, r);
      GcdIsGreatest(b, r, d);
    }
  }

  /** On natural numbers the result is a natural number, gcd(a, 0) == a,
      and the result is 0 only when both arguments are 0. */
  lemma {:induction false} GcdOfNaturals(a: nat, b: nat)
    ensures Gcd(a, b) >= 0
    ensures b == 0 ==> Gcd(a, b) == a
    ensures Gcd(a, b) == 0 <==> a == 0 && b == 0
    decreases b
  {
    if b != 0 {
      GcdOfNaturals(b, FloorMod(a, b));
    }
  }
}
