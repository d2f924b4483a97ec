/** Modular and bitwise arithmetic on 64-bit words, built up from the integers. */
module Words {
  import opened Wrappers

  function Pow2(k: nat): (p: nat)
    ensures p > 0
  {
    if k == 0 then 1 else 2 * Pow2(k - 1)
  }

  function XorBit(x: nat, y: nat): (bit: nat)
    ensures bit < 2
  {
    if x == y then 0 else 1
  }

  /** Bitwise exclusive or. */
  function Xor(a: nat, b: nat): nat
    decreases a + b
  {
    if a == 0 && b == 0 then 0 else XorBit(a % 2, b % 2) + 2 * Xor(a / 2, b / 2)
  }

  /** Logical right shift. */
  function Shr(a: nat, k: nat): nat
    decreases k
  {
    if k == 0 then a else Shr(a / 2, k - 1)
  }

  lemma {:induction false} XorBound(a: nat, b: nat, k: nat)
    requires a < Pow2(k) && b < Pow2(k)
    ensures Xor(a, b) < Pow2(k)
    decreases k
  {
    if k == 0 {
    } else {
      XorBound(a / 2, b / 2, k - 1);
    }
  }

  lemma XorHalf(a: nat, b: nat)
    ensures Xor(a, b) / 2 == Xor(a / 2, b / 2) && Xor(a, b) % 2 == XorBit(a % 2, b % 2)
  {
  }

  lemma {:induction false} XorComm(a: nat, b: nat)
    ensures Xor(a, b) == Xor(b, a)
    decreases a + b
  {
    if a + b == 0 {
    } else {
      XorComm(a / 2, b / 2);
    }
  }

  lemma BitAssoc(x: nat, y: nat, z: nat)
    requires x < 2 && y < 2 && z < 2
    ensures XorBit(XorBit(x, y), z) == XorBit(x, XorBit(y, z))
  {
  }

  lemma HalvesAgree(l: nat, r: nat)
    requires l / 2 == r / 2 && l % 2 == r % 2
    ensures l == r
  {
  }

  lemma {:induction false} XorAssoc(a: nat, b: nat, c: nat)
    ensures Xor(Xor(a, b), c) == Xor(a, Xor(b, c))
    decreases a + b + c
  {
    if a + b + c == 0 {
    } else {
      hide Xor, XorBit;
      XorHalf(a, b);
      XorHalf(b, c);
      XorHalf(Xor(a, b), c);
      XorHalf(a, Xor(b, c));
      XorAssoc(a / 2, b / 2, c / 2);
      BitAssoc(a % 2, b % 2, c % 2);
      HalvesAgree(Xor(Xor(a, b), c), Xor(a, Xor(b, c)));
    }
  }

  lemma {:induction false} XorZero(a: nat)
    ensures Xor(a, 0) == a
  {
    if a == 0 {
    } else {
      XorZero(a / 2);
    }
  }

  lemma {:induction false} XorSelf(a: nat)
    ensures Xor(a, a) == 0
  {
    if a == 0 {
    } else {
      XorSelf(a / 2);
    }
  }

  lemma MulAtLeast(d: int, n: int)
    requires d >= 1 && n > 0
    ensures d * n >= n
  {
    assert (d - 1) * n >= 0;
  }

  lemma DivUnique(a: int, n: int, q: int, r: int)
    requires 0 <= r < n && a == q * n + r
    ensures a / n == q && a % n == r
  {
    var d := a / n - q;
    assert a == (a / n) * n + a % n;
    assert d * n == r - a % n;
    if d != 0 {
      MulAtLeast(if d > 0 then d else -d, n);
      assert false;
    }
  }

  lemma {:induction false} ShrXor(a: nat, b: nat, k: nat)
    ensures Shr(Xor(a, b), k) == Xor(Shr(a, k), Shr(b, k))
    decreases k
  {
    if k == 0 {
    } else {
      XorHalf(a, b);
      ShrXor(a / 2, b / 2, k - 1);
    }
  }

  lemma {:induction false} Pow2Add(j: nat, k: nat)
    ensures Pow2(j + k) == Pow2(j) * Pow2(k)
  {
    if j == 0 {
    } else {
      Pow2Add(j - 1, k);
      assert Pow2(j) * Pow2(k) == 2 * (Pow2(j - 1) * Pow2(k));
    }
  }

  lemma {:induction false} ShrShr(a: nat, j: nat, k: nat)
    ensures Shr(Shr(a, j), k) == Shr(a, j + k)
    decreases j
  {
    if j == 0 {
    } else {
      ShrShr(a / 2, j - 1, k);
    }
  }

  lemma Pow2Of8()
    ensures Pow2(8) == 256
  {
  }

  lemma WordIsPow2()
    ensures Pow2(64) == TWO64
  {
    hide Pow2;
    Pow2Of8();
    Pow2Add(8, 8);
    Pow2Add(16, 16);
    Pow2Add(32, 32);
  }

  lemma {:induction false} ShrBound(a: nat, k: nat, n: nat)
    requires a < Pow2(n)
    ensures Shr(a, k) <= a
    ensures k >= n ==> Shr(a, k) == 0
    decreases k
  {
    if k == 0 {
    } else {
      ShrBound(a / 2, k - 1, if n == 0 then 0 else n - 1);
    }
  }

  lemma ShrWord(a: u64, k: nat)
    ensures Shr(a, k) <= a
    ensures k >= 64 ==> Shr(a, k) == 0
  {
    WordIsPow2();
    ShrBound(a, k, 64);
  }

  lemma XorWord(a: u64, b: u64)
    ensures Xor(a, b) < TWO64
  {
    WordIsPow2();
    XorBound(a, b, 64);
  }

  /** The xor-shift z ^ (z >> k) of the mixer. */
  function XorShift(z: u64, k: nat): u64
  {
    ShrWord(z, k);
    XorWord(z, Shr(z, k));
    Xor(z, Shr(z, k))
  }

  /** Undoes a xor-shift by at least 22 bits. */
  function UnXorShift(y: u64, k: nat): u64
  {
    ShrWord(y, k);
    ShrWord(y, 2 * k);
    XorWord(y, Shr(y, k));
    XorWord(Xor(y, Shr(y, k)), Shr(y, 2 * k));
    Xor(Xor(y, Shr(y, k)), Shr(y, 2 * k))
  }

  /** A middle term cancels. */
  lemma XorCancel(a: nat, b: nat, c: nat)
    ensures Xor(Xor(a, b), Xor(b, c)) == Xor(a, c)
  {
    hide Xor;
    calc {
      Xor(Xor(a, b), Xor(b, c));
      { XorAssoc(a, b, Xor(b, c)); }
      Xor(a, Xor(b, Xor(b, c)));
      { XorAssoc(b, b, c); }
      Xor(a, Xor(Xor(b, b), c));
      { XorSelf(b); XorComm(0, c); XorZero(c); }
      Xor(a, c);
    }
  }

  /** The shifts of a word, 22 bits or more at a time: the third one is 0. */
  lemma Shifts(z: u64, k: nat)
    requires 22 <= k
    ensures Shr(Shr(z, k), k) == Shr(z, 2 * k) && Shr(Shr(z, 2 * k), k) == Shr(Shr(z, k), 2 * k) == 0
  {
    hide Shr;
    ShrWord(z, 3 * k);
    ShrShr(z, k, k);
    ShrShr(z, 2 * k, k);
    ShrShr(z, k, 2 * k);
  }

  lemma UnXorShiftXorShift(z: u64, k: nat)
    requires 22 <= k
    ensures UnXorShift(XorShift(z, k), k) == z
  {
    hide Xor, Shr;
    var z1, z2 := Shr(z, k), Shr(z, 2 * k);
    Shifts(z, k);
    calc {
      UnXorShift(XorShift(z, k), k);
      { ShrXor(z, z1, k); ShrXor(z, z1, 2 * k); XorZero(z2); }
      Xor(Xor(Xor(z, z1), Xor(z1, z2)), z2);
      { XorCancel(z, z1, z2); }
      Xor(Xor(z, z2), z2);
      { XorAssoc(z, z2, z2); XorSelf(z2); XorZero(z); }
      z;
    }
  }

  lemma XorShiftUnXorShift(z: u64, k: nat)
    requires 22 <= k
    ensures XorShift(UnXorShift(z, k), k) == z
  {
    hide Xor, Shr;
    var z1, z2 := Shr(z, k), Shr(z, 2 * k);
    Shifts(z, k);
    calc {
      XorShift(UnXorShift(z, k), k);
      { ShrXor(Xor(z, z1), z2, k); ShrXor(z, z1, k); XorZero(Xor(z1, z2)); }
      Xor(Xor(Xor(z, z1), z2), Xor(z1, z2));
      { XorAssoc(z, z1, z2); }
      Xor(Xor(z, Xor(z1, z2)), Xor(z1, z2));
      { XorAssoc(z, Xor(z1, z2), Xor(z1, z2)); XorSelf(Xor(z1, z2)); XorZero(z); }
      z;
    }
  }

  /** A xor-shift by at least 22 bits is a bijection of the words. */
  lemma XorShiftBijective(z: u64, k: nat)
    requires 22 <= k
    ensures UnXorShift(XorShift(z, k), k) == z
    ensures XorShift(UnXorShift(z, k), k) == z
  {
    hide XorShift, UnXorShift;
    UnXorShiftXorShift(z, k);
    XorShiftUnXorShift(z, k);
  }

  lemma ModOfMultiple(z: int, t: int, n: int)
    requires 0 <= z < n
    ensures (z + t * n) % n == z
  {
    DivUnique(z + t * n, n, t, z);
  }

  lemma InverseArith(z: int, c: int, d: int, k: int, r: int, q: int, n: int)
    requires z * c == k * n + r && c * d == q * n + 1
    ensures r * d == z + (z * q - k * d) * n
  {
    assert z * c * d == z * (c * d);
    assert (k * n + r) * d == (k * d) * n + r * d;
    assert z * (q * n + 1) == (z * q) * n + z;
    assert (z * q - k * d) * n == (z * q) * n - (k * d) * n;
  }

  /** Multiplying by `c` and then by its inverse `d` modulo `n` gives back the word. */
  lemma ModInverse(z: int, c: int, d: int, n: int)
    requires 0 <= z < n && (c * d) % n == 1
    ensures (((z * c) % n) * d) % n == z
  {
    var k, q := (z * c) / n, (c * d) / n;
    InverseArith(z, c, d, k, (z * c) % n, q, n);
    ModOfMultiple(z, z * q - k * d, n);
  }

  lemma ReturnArith(d: int, c: int, inv: int, g: int, q: int, n: int)
    requires c * inv == g * n + 1 && d * c == q * n
    ensures d == (q * inv - d * g) * n
  {
    assert d * c * inv == d * (c * inv);
    assert d * (g * n + 1) == (d * g) * n + d;
    assert q * n * inv == (q * inv) * n;
    assert (q * inv - d * g) * n == (q * inv) * n - (d * g) * n;
  }

  /** Stepping by `c`, invertible modulo `n`, does not return within fewer than `n` steps. */
  lemma StepsDiffer(s: int, d: int, c: int, inv: int, n: int)
    requires 0 <= s < n && 0 < d < n && (c * inv) % n == 1
    ensures (s + d * c) % n != s
  {
    if (s + d * c) % n == s {
      var q, g := (s + d * c) / n, (c * inv) / n;
      ReturnArith(d, c, inv, g, q, n);
      DivUnique(d, n, q * inv - d * g, 0);
      assert false;
    }
  }

  lemma StepsArith(e: int, c: int, inv: int, g: int, q: int, k: int, n: int)
    requires c * inv == g * n + 1 && e * inv == q * n + k
    ensures k * c == e + (e * g - q * c) * n
  {
    assert e * inv * c == e * (c * inv);
    assert e * (g * n + 1) == (e * g) * n + e;
    assert (q * n + k) * c == (q * c) * n + k * c;
    assert (e * g - q * c) * n == (e * g) * n - (q * c) * n;
  }

  lemma DivMod(x: int, n: int) returns (q: int, r: int)
    requires n > 0
    ensures x == q * n + r && 0 <= r < n && q == x / n && r == x % n
  {
    q, r := x / n, x % n;
  }

  /** The number of steps of size `c` that leads `e` further, modulo `n`. */
  lemma StepsFor(e: int, c: int, inv: int, n: int) returns (k: int, m: int)
    requires n > 0 && (c * inv) % n == 1
    ensures 0 <= k < n && k * c == e + m * n
  {
    var g, one := DivMod(c * inv, n);
    var q, r := DivMod(e * inv, n);
    k, m := r, e * g - q * c;
    StepsArith(e, c, inv, g, q, k, n);
  }

  /** The number of steps of size `c` that leads from `s` to `target`. */
  lemma StepsBetween(s: int, target: int, c: int, inv: int, n: int) returns (k: int)
    requires 0 <= s < n && 0 <= target < n && (c * inv) % n == 1
    ensures 0 <= k < n && (s + k * c) % n == target
  {
    var m;
    k, m := StepsFor(target - s, c, inv, n);
    ModOfMultiple(target, m, n);
  }

  lemma MulOrder(x: int, y: int, n: int)
    requires x <= y && n >= 0
    ensures x * n <= y * n
  {
    assert (y - x) * n >= 0;
  }

  lemma DivBelow(a: int, n: int, b: int)
    requires n > 0 && 0 <= a < n * b
    ensures 0 <= a / n < b
  {
    assert a == (a / n) * n + a % n;
    if a / n >= b {
      MulOrder(b, a / n, n);
      assert false;
    }
  }

  lemma DivNonNegative(a: int, n: int)
    requires 0 <= a && 0 < n
    ensures a / n >= 0
  {
  }

  lemma CeilIff(c: int, b: int, x: int)
    requires b > 0
    ensures x * b >= c <==> x >= (c + b - 1) / b
  {
    var m := (c + b - 1) / b;
    assert c + b - 1 == m * b + (c + b - 1) % b;
    if x >= m {
      MulOrder(m, x, b);
    } else {
      MulOrder(x, m - 1, b);
    }
  }

  lemma QuotientBlock(m: int, n: int, r: int, t: int)
    requires 0 <= t < n
    ensures m / n == r && m % n >= t <==> r * n + t <= m < (r + 1) * n
  {
    assert m == (m / n) * n + m % n;
    if r * n + t <= m < (r + 1) * n {
      DivUnique(m, n, r, m - r * n);
    }
  }

  lemma MultipleBelow(n: int, b: int, r: int, x: int)
    requires 0 < b <= n && 0 <= r < b && r * n <= x * b < (r + 1) * n
    ensures 0 <= x < n
  {
    if x < 0 {
      MulOrder(x, -1, b);
      MulOrder(0, r, n);
      assert false;
    }
    if x >= n {
      MulOrder(n, x, b);
      MulOrder(r + 1, b, n);
      assert false;
    }
  }

  lemma NextMultiple(r: int, n: int)
    ensures (r + 1) * n == r * n + n
  {
  }

  lemma MultiplesFrom(c: int, q: int, b: int, x: int)
    requires b > 0
    ensures c <= x * b < c + q * b <==> (c + b - 1) / b <= x < (c + b - 1) / b + q
  {
    CeilIff(c, b, x);
    CeilIff(c, b, x - q);
    assert (x - q) * b == x * b - q * b;
  }

  /** The multiples x * b whose quotient by `n` is `r` and whose remainder is at least n mod b
      are those of floor(n / b) consecutive numbers, all of them below `n`. */
  lemma BlockOfMultiples(n: int, b: int, r: int, x: int)
    requires 0 < b <= n && 0 <= r < b
    ensures (x * b) / n == r && (x * b) % n >= n % b
       <==> (r * n + n % b + b - 1) / b <= x < (r * n + n % b + b - 1) / b + n / b
    ensures (x * b) / n == r ==> 0 <= x < n
  {
    var q, t := DivMod(n, b);
    NextMultiple(r, n);
    QuotientBlock(x * b, n, r, t);
    QuotientBlock(x * b, n, r, 0);
    MultiplesFrom(r * n + t, q, b, x);
    if (x * b) / n == r {
      MultipleBelow(n, b, r, x);
    }
  }
}
