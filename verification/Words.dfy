/** Unsigned machine words: wrap-around, bitwise and, powers of two.

    A `size_t` is a natural number below `WORD`.  `And` is the bitwise and of
    two unsigned values, so the masking expressions of the engine are written
    here exactly as they are coded and then shown to be remainders.
  */
module Words {

  const WORD: nat := 0x1_0000_0000_0000_0000
  const UINT32: nat := 0x1_0000_0000

  type Byte = b: int | 0 <= b < 256

  function WrapAdd(x: nat, y: nat): nat {
    (x + y) % WORD
  }

  function WrapSub(x: nat, y: nat): nat
    requires y < WORD
  {
    (x + WORD - y) % WORD
  }

  lemma WrapAddIs(x: nat, y: nat)
    requires x < WORD && y <= WORD
    ensures WrapAdd(x, y) == if x + y < WORD then x + y else x + y - WORD
  {
  }

  lemma WrapSubIs(x: nat, y: nat)
    requires x < WORD && y < WORD
    ensures WrapSub(x, y) == if y <= x then x - y else x + WORD - y
  {
  }

  function And(x: nat, y: nat): (r: nat)
    ensures r <= x && r <= y
    decreases x
  {
    if x == 0 || y == 0 then 0
    else 2 * And(x / 2, y / 2) + (if x % 2 == 1 && y % 2 == 1 then 1 else 0)
  }

  predicate IsPow2(n: nat) {
    n == 1 || (n >= 2 && n % 2 == 0 && IsPow2(n / 2))
  }

  // std::bit_ceil: the least power of two that is not below n
  function BitCeil(n: nat): (c: nat)
    requires n >= 1
    ensures IsPow2(c) && n <= c < 2 * n
  {
    if n == 1 then 1 else 2 * BitCeil((n + 1) / 2)
  }

  // std::bit_floor: the greatest power of two that is not above n, or 0
  function BitFloor(n: nat): (c: nat)
    ensures n == 0 ==> c == 0
    ensures n >= 1 ==> IsPow2(c) && c <= n < 2 * c
  {
    if n <= 1 then n
    else
      var half := BitFloor(n / 2);
      assert n / 2 >= 1 && (2 * half) / 2 == half && (2 * half) % 2 == 0;
      2 * half
  }

  // The largest power of two that divides n
  function LowPow2(n: nat): (p: nat)
    requires n >= 1
    ensures IsPow2(p) && p <= n
  {
    if n % 2 == 1 then 1 else 2 * LowPow2(n / 2)
  }

  lemma MulSign(m: int, d: int)
    requires m > 0
    ensures d >= 1 ==> m * d >= m
    ensures d <= -1 ==> m * d <= -m
    ensures d == 0 ==> m * d == 0
  {
  }

  lemma MulDist(m: int, a: int, b: int)
    ensures m * (a + b) == m * a + m * b
    ensures m * (a - b) == m * a - m * b
  {
  }

  // Quotient and remainder are the only k and r with x == m * k + r, 0 <= r < m.
  lemma DivModUnique(x: int, m: int, k: int, r: int)
    requires 0 <= r < m && x == m * k + r
    ensures x % m == r && x / m == k
  {
    MulDist(m, x / m, k);
    MulSign(m, x / m - k);
  }

  lemma SmallMod(x: nat, m: nat)
    requires x < m
    ensures x % m == x
  {
  }

  lemma ModShift(x: int, m: int, k: int)
    requires m > 0
    ensures (x + m * k) % m == x % m
  {
    MulDist(m, x / m, k);
    DivModUnique(x + m * k, m, x / m + k, x % m);
  }

  // Adding a multiple of m changes no remainder modulo m.
  lemma ModMultiple(x: int, w: nat, m: nat)
    requires m > 0 && w % m == 0
    ensures (x + w) % m == x % m
  {
    assert w == m * (w / m) + w % m;
    ModShift(x, m, w / m);
  }

  // The difference of two remainders agrees with the difference of the values.
  lemma ModSub(x: int, y: int, m: int)
    requires m > 0
    ensures (x % m - y % m) % m == (x - y) % m
  {
    var a, b := x / m, y / m;
    MulDist(m, b, a);
    assert x % m - y % m == x - y + m * (b - a);
    ModShift(x - y, m, b - a);
  }

  // Two values less than m apart leave different remainders.
  lemma ModDistinct(a: int, b: int, m: int)
    requires a < b < a + m
    ensures a % m != b % m
  {
    MulDist(m, b / m, a / m);
    MulSign(m, b / m - a / m);
  }

  lemma ModHalf(x: nat, q: nat)
    requires q >= 1
    ensures x % (2 * q) == 2 * ((x / 2) % q) + x % 2
    ensures x / (2 * q) == (x / 2) / q
  {
    var k, r := (x / 2) / q, (x / 2) % q;
    assert x / 2 == q * k + r;
    assert 2 * (q * k) == 2 * q * k;
    DivModUnique(x, 2 * q, k, 2 * r + x % 2);
  }

  // One unfolding of And for a mask p - 1 with p even
  ghost function TwoTo(k: nat): nat {
    if k == 0 then 1 else 2 * TwoTo(k - 1)
  }

  lemma {:induction false} TwoToIsPow2(k: nat)
    ensures TwoTo(k) >= 1 && IsPow2(TwoTo(k))
  {
    if k > 0 {
      TwoToIsPow2(k - 1);
      assert TwoTo(k) / 2 == TwoTo(k - 1) && TwoTo(k) % 2 == 0;
    }
  }

  lemma {:induction false} Pow2IsExact(n: nat)
    ensures IsPow2(n) <==> exists k :: n == TwoTo(k)
  {
    if IsPow2(n) {
      var k := Exponent(n);
    }
    forall k | n == TwoTo(k) ensures IsPow2(n) {
      TwoToIsPow2(k);
    }
  }

  lemma {:induction false} Exponent(n: nat) returns (k: nat)
    requires IsPow2(n)
    ensures n == TwoTo(k)
  {
    if n == 1 {
      k := 0;
    } else {
      var j := Exponent(n / 2);
      k := j + 1;
    }
  }

  lemma {:induction false} MaskStep(x: nat, p: nat)
    requires p >= 2 && p % 2 == 0
    ensures And(x, p - 1) == 2 * And(x / 2, p / 2 - 1) + x % 2
  {
    assert (p - 1) / 2 == p / 2 - 1 && (p - 1) % 2 == 1;
  }

  // Masking with p - 1 is the remainder modulo p.
  lemma {:induction false} MaskIsMod(x: nat, p: nat)
    requires IsPow2(p)
    ensures And(x, p - 1) == x % p
  {
    if p > 1 {
      MaskStep(x, p);
      MaskIsMod(x / 2, p / 2);
      ModHalf(x, p / 2);
    }
  }

  lemma {:induction false} Pow2Divides(p: nat, q: nat)
    requires IsPow2(p) && IsPow2(q) && p <= q
    ensures q % p == 0
  {
    if p > 1 {
      Pow2Divides(p / 2, q / 2);
      ModHalf(q, p / 2);
    }
  }

  lemma {:induction false} Pow2Product(p: nat, q: nat)
    requires IsPow2(p) && IsPow2(q)
    ensures IsPow2(p * q)
  {
    if p > 1 {
      Pow2Product(p / 2, q);
      assert p * q == 2 * (p / 2 * q) by { MulAssoc(2, p / 2, q); }
    }
  }

  lemma WordIsPow2()
    ensures IsPow2(WORD) && IsPow2(UINT32)
  {
    Pow2Product(2, 2);
    Pow2Product(4, 4);
    Pow2Product(16, 16);
    Pow2Product(256, 256);
    Pow2Product(0x1_0000, 0x1_0000);
    Pow2Product(UINT32, UINT32);
  }

  lemma ModMod(x: nat, w: nat, p: nat)
    requires p > 0 && w > 0 && w % p == 0
    ensures (x % w) % p == x % p
  {
    var k, j := w / p, x / w;
    assert w == p * k;
    assert w * j == p * (k * j) by { assert w * j == (p * k) * j; MulAssoc(p, k, j); }
    assert x == x % w + p * (k * j);
    ModShift(x % w, p, k * j);
  }

  lemma MulAssoc(x: int, y: int, z: int)
    ensures (x * y) * z == x * (y * z)
  {
  }

  // A 64-bit wrap is invisible modulo a power of two.
  lemma {:induction false} WrapMod(x: nat, p: nat)
    requires IsPow2(p) && p <= WORD
    ensures (x % WORD) % p == x % p
  {
    WordIsPow2();
    Pow2Divides(p, WORD);
    ModMod(x, WORD, p);
  }

  // Subtraction with 64-bit wrap, seen through a mask, is subtraction modulo the mask.
  lemma {:induction false} MaskedSub(x: nat, y: nat, p: nat)
    requires IsPow2(p) && p <= WORD && y < WORD
    ensures And(WrapSub(x, y), p - 1) == (x - y) % p
  {
    hide And, IsPow2;
    var d: nat := x + WORD - y;
    MaskIsMod(d % WORD, p);
    WrapMod(d, p);
    assert d % p == (x - y) % p by {
      WordIsPow2();
      Pow2Divides(p, WORD);
      ModMultiple(x - y, WORD, p);
    }
  }

  // (a mod m + b) and (a + b) agree modulo m.
  lemma ModAddLeft(a: nat, b: nat, m: nat)
    requires m >= 1
    ensures (a % m + b) % m == (a + b) % m
  {
    assert a == m * (a / m) + a % m;
    ModShift(a % m + b, m, a / m);
  }

  lemma {:induction false} AndSame(x: nat)
    ensures And(x, x) == x
  {
    if x > 0 { AndSame(x / 2); }
  }

  lemma {:induction false} AndAbsorb(x: nat, y: nat)
    ensures And(And(x, y), y) == And(x, y)
  {
    if x > 0 && y > 0 {
      AndAbsorb(x / 2, y / 2);
      var a := And(x, y);
      assert a / 2 == And(x / 2, y / 2);
      assert a % 2 == (if x % 2 == 1 && y % 2 == 1 then 1 else 0);
    }
  }

  // Dividing by the largest power of two leaves an odd number.
  lemma {:induction false} LowPow2Odd(n: nat)
    requires n >= 1
    ensures n % LowPow2(n) == 0 && (n / LowPow2(n)) % 2 == 1
  {
    if n % 2 == 0 {
      LowPow2Odd(n / 2);
      ModHalf(n, LowPow2(n / 2));
    }
  }

  lemma MaskOfOdd(x: nat, n: nat)
    requires n % 2 == 1 && x <= 1
    ensures And(x, n - 1) == 0
  {
    assert And(x / 2, (n - 1) / 2) == 0;
  }

  // For 0 <= x <= P, masking x with n - 1 keeps x below P and sends P to 0.
  lemma {:induction false} MaskLowPart(x: nat, n: nat)
    requires n >= 1 && x <= LowPow2(n)
    ensures And(x, n - 1) == x % LowPow2(n)
  {
    hide And;
    if n % 2 == 0 {
      MaskStep(x, n);
      MaskLowPart(x / 2, n / 2);
      ModHalf(x, LowPow2(n / 2));
    } else {
      MaskOfOdd(x, n);
    }
  }

  lemma {:induction false} LowPow2IsAll(n: nat)
    requires n >= 1
    ensures LowPow2(n) == n <==> IsPow2(n)
  {
    if n % 2 == 0 { LowPow2IsAll(n / 2); }
  }
}
