/** Powers of two and the bit mask of a power-of-two capacity. */
module Bits {
  const WORD: nat := 0x1_0000_0000_0000_0000

  function Pow2(n: nat): (r: nat)
    ensures r > 0
  {
    if n == 0 then 1 else 2 * Pow2(n - 1)
  }

  /** Bitwise and of two naturals. */
  function And(x: nat, y: nat): nat {
    if x == 0 || y == 0 then 0 else (x % 2) * (y % 2) + 2 * And(x / 2, y / 2)
  }

  lemma Pow2Double(n: nat)
    requires n > 0
    ensures Pow2(n) == 2 * Pow2(n - 1)
  {
  }

  lemma {:induction false} Pow2Add(a: nat, b: nat)
    ensures Pow2(a + b) == Pow2(a) * Pow2(b)
  {
    if a > 0 {
      Pow2Add(a - 1, b);
      hide Pow2;
      Pow2Double(a);
      Pow2Double(a + b);
      TwiceTimes(Pow2(a - 1), Pow2(b));
    }
  }

  lemma TwiceTimes(x: nat, y: nat)
    ensures 2 * (x * y) == (2 * x) * y
  {
  }

  lemma Pow2Word()
    ensures Pow2(64) == WORD
  {
    assert Pow2(4) == 16;
    hide Pow2;
    Pow2Add(4, 4);
    Pow2Add(8, 8);
    Pow2Add(16, 16);
    Pow2Add(32, 32);
  }

  lemma HalfMod(x: nat, m: nat)
    requires m > 0
    ensures x % (2 * m) == x % 2 + 2 * ((x / 2) % m)
  {
    var q, r := (x / 2) / m, (x / 2) % m;
    assert x / 2 == m * q + r;
    assert x == 2 * (x / 2) + x % 2;
    assert x == (2 * m) * q + (2 * r + x % 2);
    ModUnique(x, 2 * m, q, 2 * r + x % 2);
  }

  lemma ModUnique(x: nat, m: nat, q: nat, r: nat)
    requires m > 0 && r < m && x == m * q + r
    ensures x % m == r && x / m == q
  {
    SameQuotient(m, q, r, x / m, x % m);
  }

  lemma SameQuotient(m: nat, q: nat, r: nat, q2: nat, r2: nat)
    requires m > 0 && r < m && r2 < m && m * q + r == m * q2 + r2
    ensures q == q2 && r == r2
  {
    if q > q2 {
      MulAtLeast(m, q2 + 1, q);
    } else if q < q2 {
      MulAtLeast(m, q + 1, q2);
    }
  }

  lemma MulAtLeast(m: nat, a: nat, b: nat)
    requires a <= b
    ensures m * a <= m * b
  {
    assert m * b == m * a + m * (b - a);
  }

  /** Masking with capacity - 1 is reduction modulo the capacity. */
  lemma {:induction false} MaskIsMod(x: nat, n: nat)
    ensures And(x, Pow2(n) - 1) == x % Pow2(n)
    decreases n
  {
    hide Pow2, And;
    if n == 0 {
      AndZero(x);
    } else {
      var m := Pow2(n - 1);
      Pow2Double(n);
      HalfMod(x, m);
      MaskIsMod(x / 2, n - 1);
      AndOdd(x, m - 1);
      assert 2 * (m - 1) + 1 == Pow2(n) - 1;
    }
  }

  lemma AndZero(x: nat)
    ensures And(x, Pow2(0) - 1) == 0 && x % Pow2(0) == 0
  {
  }

  /** The lowest bit of an odd mask keeps the lowest bit. */
  lemma AndOdd(x: nat, y: nat)
    ensures And(x, 2 * y + 1) == x % 2 + 2 * And(x / 2, y)
  {
    assert (2 * y + 1) % 2 == 1 && (2 * y + 1) / 2 == y;
  }

  /** The next index of a ring: one further, or back to the start. */
  lemma MaskedSuccessor(i: nat, n: nat)
    requires i < Pow2(n)
    ensures And(i + 1, Pow2(n) - 1) == if i + 1 == Pow2(n) then 0 else i + 1
  {
    MaskIsMod(i + 1, n);
    if i + 1 < Pow2(n) {
      ModUnique(i + 1, Pow2(n), 0, i + 1);
    } else {
      ModUnique(i + 1, Pow2(n), 1, 0);
    }
  }
}
