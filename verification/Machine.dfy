/** Machine arithmetic: 64-bit unsigned wrap-around, bitwise AND, and remainders.

    `size_t` is 64 bits wide and wraps (section 6.2.5 paragraph 9 of ISO/IEC 9899:2011). */
module Machine {

  const TWO_64: nat := 0x1_0000_0000_0000_0000

  type Size = x: nat | x < TWO_64

  type Byte = x: nat | x < 256

  function Wrap(x: int): Size {
    x % TWO_64
  }

  lemma WrapAdd(x: int, y: int)
    ensures Wrap(Wrap(x) + y) == Wrap(x + y)
  {
  }

  lemma WrapSize(x: Size)
    ensures Wrap(x) == x == Wrap(x + 0)
  {
  }

  function Min(a: nat, b: nat): nat {
    if a <= b then a else b
  }

  function Max(a: nat, b: nat): nat {
    if a <= b then b else a
  }

  /** The C operator `a & b` on unsigned operands, bit by bit. */
  function And(a: nat, b: nat): nat {
    if a == 0 || b == 0 then 0
    else (if a % 2 == 1 && b % 2 == 1 then 1 else 0) + 2 * And(a / 2, b / 2)
  }

  function Pow2(k: nat): (p: nat)
    ensures p >= 1
  {
    if k == 0 then 1 else 2 * Pow2(k - 1)
  }

  ghost predicate IsPow2(n: nat) {
    exists k: nat :: n == Pow2(k)
  }

  /** The single-bit test on a buffer size. */
  predicate CheckSize(size: nat) {
    size != 0 && And(size, size - 1) == 0
  }

  // ---- Remainders by a variable divisor ----

  lemma DivModUnique(x: int, n: int, q: int, r: int)
    requires 0 <= r < n && x == q * n + r
    ensures x / n == q && x % n == r
  {
    var d := q - x / n;
    assert d * n == x % n - r by {
      assert x == (x / n) * n + x % n;
    }
    assert d >= 1 ==> d * n >= n;
    assert d <= -1 ==> d * n <= -n;
  }

  lemma ModAddMultiple(x: int, n: int, q: int)
    requires n > 0
    ensures (x + q * n) % n == x % n
  {
    assert x + q * n == (x / n + q) * n + x % n;
    DivModUnique(x + q * n, n, x / n + q, x % n);
  }

  /** A remainder may be taken before or after adding. */
  lemma ModAdd(x: int, y: int, n: int)
    requires n > 0
    ensures (x % n + y) % n == (x + y) % n
  {
    ModAddMultiple(x % n + y, n, x / n);
    assert x + y == x % n + y + (x / n) * n;
  }

  /** Congruence is preserved by adding the same amount. */
  lemma ModCongruentAdd(x: int, x': int, y: int, n: int)
    requires n > 0 && x % n == x' % n
    ensures (x + y) % n == (x' + y) % n
  {
    ModAdd(x, y, n);
    ModAdd(x', y, n);
  }

  lemma ModSmall(x: int, n: int)
    requires 0 <= x < n
    ensures x % n == x
  {
    DivModUnique(x, n, 0, x);
  }

  /** `n` consecutive counters fall on `n` different slots. */
  lemma ModInjective(x: int, i: int, j: int, n: int)
    requires n > 0 && 0 <= i < n && 0 <= j < n
    requires (x + i) % n == (x + j) % n
    ensures i == j
  {
    ModCongruentAdd(x + i, x + j, -x, n);
    ModSmall(i, n);
    ModSmall(j, n);
  }

  // ---- Masks ----

  lemma HalfFacts(x: nat, m: nat)
    requires m >= 1
    ensures x % (2 * m) == x % 2 + 2 * (x / 2 % m)
  {
    var h := x / 2;
    assert x == (h / m) * (2 * m) + (x % 2 + 2 * (h % m)) by {
      assert h == (h / m) * m + h % m;
    }
    DivModUnique(x, 2 * m, h / m, x % 2 + 2 * (h % m));
  }

  lemma AndOdd(x: nat, m: nat)
    requires m >= 1
    ensures And(x, 2 * m - 1) == x % 2 + 2 * And(x / 2, m - 1)
  {
    assert (2 * m - 1) % 2 == 1 && (2 * m - 1) / 2 == m - 1;
  }

  /** Masking with 2^k - 1 is remainder by 2^k. */
  lemma {:induction false} AndMask(x: nat, k: nat)
    ensures And(x, Pow2(k) - 1) == x % Pow2(k)
  {
    if k > 0 {
      hide And;
      AndMask(x / 2, k - 1);
      HalfFacts(x, Pow2(k - 1));
      AndOdd(x, Pow2(k - 1));
    }
  }

  lemma {:induction false} AndSelf(a: nat)
    ensures And(a, a) == a
  {
    if a != 0 {
      AndSelf(a / 2);
      assert a % 2 == 0 || a % 2 == 1;
    }
  }

  /** The size test accepts exactly the powers of two. */
  lemma {:induction false} CheckSizeExact(size: nat)
    ensures CheckSize(size) <==> IsPow2(size)
  {
    if IsPow2(size) {
      var k: nat :| size == Pow2(k);
      AndMask(size, k);
      ModAddMultiple(0, size, 1);
    }
    if CheckSize(size) {
      CheckSizeOnlyPowers(size);
    }
  }

  lemma {:induction false} CheckSizeOnlyPowers(size: nat)
    requires CheckSize(size)
    ensures IsPow2(size)
  {
    if size == 1 {
      assert size == Pow2(0);
    } else if size % 2 == 0 {
      var h := size / 2;
      assert (size - 1) / 2 == h - 1 && (size - 1) % 2 == 1;
      CheckSizeOnlyPowers(h);
      var k: nat :| h == Pow2(k);
      assert size == Pow2(k + 1);
    } else {
      assert (size - 1) / 2 == size / 2;
      AndSelf(size / 2);
      assert false;
    }
  }

  lemma {:induction false} Pow2Add(j: nat, k: nat)
    ensures Pow2(j + k) == Pow2(j) * Pow2(k)
  {
    if j > 0 {
      Pow2Add(j - 1, k);
    }
  }

  lemma {:induction false} Pow2Monotone(j: nat, k: nat)
    ensures j < k ==> Pow2(j) < Pow2(k)
  {
    if j < k {
      Pow2Add(j, k - j);
      assert Pow2(k - j) >= 2;
      assert Pow2(j) * Pow2(k - j) >= Pow2(j) * 2;
    }
  }

  lemma Pow2Of16()
    ensures Pow2(16) == 0x1_0000
  {
    assert Pow2(4) == 16;
    Pow2Add(4, 4);
    Pow2Add(8, 8);
  }

  lemma Pow2Of64()
    ensures Pow2(64) == TWO_64
  {
    hide Pow2;
    Pow2Of16();
    Pow2Add(16, 16);
    Pow2Add(32, 32);
  }

  /** A power of two below 2^64 divides it. */
  lemma Pow2Divides(size: nat)
    requires IsPow2(size) && size < TWO_64
    ensures exists c: nat :: c * size == TWO_64
  {
    var k: nat :| size == Pow2(k);
    Pow2Of64();
    if k >= 64 {
      Pow2Monotone(64, k);
      assert false;
    }
    Pow2Add(64 - k, k);
    assert Pow2(64 - k) * size == TWO_64;
  }

  /** Counter wrap-around is invisible behind an accepted size: masking the wrapped 64-bit counter
      gives the slot of the unbounded one. */
  lemma WrapInvisible(x: int, size: nat)
    requires CheckSize(size) && size < TWO_64
    ensures And(Wrap(x), size - 1) == x % size
  {
    CheckSizeExact(size);
    hide And, CheckSize;
    var k: nat :| size == Pow2(k);
    AndMask(Wrap(x), k);
    Pow2Divides(size);
    var c: nat :| c * size == TWO_64;
    assert x == Wrap(x) + (x / TWO_64) * TWO_64;
    assert (x / TWO_64) * TWO_64 == (x / TWO_64 * c) * size;
    ModAddMultiple(Wrap(x), size, x / TWO_64 * c);
  }

  /** Only there: for a size that does not divide 2^64 the counter 2^64 falls on the wrong slot. */
  lemma WrapInvisibleOnlyFor(size: nat)
    requires 0 < size < TWO_64
    ensures (forall x: nat :: Wrap(x) % size == x % size) <==> TWO_64 % size == 0
  {
    if TWO_64 % size == 0 {
      forall x: nat
        ensures Wrap(x) % size == x % size
      {
        var c := TWO_64 / size;
        assert (x / TWO_64) * TWO_64 == (x / TWO_64 * c) * size by {
          assert TWO_64 == c * size;
        }
        ModAddMultiple(Wrap(x), size, x / TWO_64 * c);
      }
    } else {
      assert Wrap(TWO_64) % size == 0 by {
        ModSmall(0, size);
      }
    }
  }
}
