/** Powers of two and the division facts the tree-index arithmetic of the
    Tiger tree hash relies on. Levels of tree nodes are powers of two, and
    the bit operations of the source become division and remainder by them. */
module Pow2Arith {

  /** x is 1, 2, 4, 8, ... */
  ghost predicate IsPow2(x: nat)
    decreases x
  {
    x == 1 || (x >= 2 && x % 2 == 0 && IsPow2(x / 2))
  }

  lemma Pow2Facts(x: nat)
    requires IsPow2(x)
    ensures x >= 1
    ensures x > 1 ==> x % 2 == 0 && IsPow2(x / 2) && x == 2 * (x / 2)
    ensures IsPow2(2 * x)
  {
    assert (2 * x) / 2 == x;
  }

  lemma DivMod(a: int, d: int)
    requires d > 0
    ensures a == d * (a / d) + a % d && 0 <= a % d < d
  {
  }

  /** The products of the form a * (2p + 1) and 2 * a * p that the tree
      arithmetic keeps rewriting into each other. */
  lemma MulOdd(a: int, p: int)
    ensures a * (2 * p + 1) == 2 * a * p + a
    ensures a * (2 * p) == 2 * a * p
    ensures 2 * a * p == 2 * (a * p) == a * (2 * p) == (2 * p) * a
  {
  }

  lemma MulAssoc(a: int, b: int, c: int)
    ensures a * (b * c) == (a * b) * c
  {
  }

  /** Euclidean division is determined by its quotient and remainder. */
  lemma DivModUnique(a: int, d: int, q: int, r: int)
    requires d > 0 && 0 <= r < d && a == d * q + r
    ensures a / d == q && a % d == r
  {
    var q0, r0 := a / d, a % d;
    assert d * q0 + r0 == d * q + r;
    var k := q - q0;
    assert d * k == r0 - r by {
      assert d * q == d * q0 + d * k;
    }
    if k >= 1 {
      MulAtLeast(d, k);
      assert false;
    } else if k <= -1 {
      MulAtLeast(d, -k);
      assert false;
    }
  }

  lemma MulShift(a: int, u: int)
    ensures a * (2 * u) == (2 * a) * u
  {
  }

  lemma MulAtLeast(d: int, k: int)
    requires d > 0 && k >= 1
    ensures d * k >= d
  {
  }

  /** A smaller power of two divides a larger one, with a power-of-two ratio. */
  lemma {:induction false} Pow2Ratio(a: nat, b: nat) returns (t: nat)
    requires IsPow2(a) && IsPow2(b) && a <= b
    ensures IsPow2(t) && b == a * t
    decreases a
  {
    Pow2Facts(a);
    Pow2Facts(b);
    if a == 1 {
      t := b;
    } else {
      t := Pow2Ratio(a / 2, b / 2);
      calc {
        b;
        2 * (b / 2);
        2 * ((a / 2) * t);
        (2 * (a / 2)) * t;
        a * t;
      }
    }
  }

  /** Between two powers of two a < b there is a factor of at least two. */
  lemma Pow2Less(a: nat, b: nat)
    requires IsPow2(a) && IsPow2(b) && a < b
    ensures 2 * a <= b && b % (2 * a) == 0
  {
    var t := Pow2Ratio(a, b);
    Pow2Facts(t);
    assert t != 1;
    var u := t / 2;
    assert t == 2 * u;
    assert b == (2 * a) * u by {
      MulShift(a, u);
    }
    MulAtLeast(2 * a, u);
    DivModUnique(b, 2 * a, u, 0);
  }

  /** No power of two lies strictly between b and 2b. */
  lemma Pow2Below(a: nat, b: nat)
    requires IsPow2(a) && IsPow2(b) && a < 2 * b
    ensures a <= b
  {
    if a > b {
      Pow2Less(b, a);
    }
  }
}
