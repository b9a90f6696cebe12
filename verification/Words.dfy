/** Machine-word arithmetic behind the hash table: the string hash, the
    power-of-two table sizes and the masks computed from them. */
module Words {
  import opened Common

  const WORD32: nat := 0x1_0000_0000
  const WORD64: nat := 0x1_0000_0000_0000_0000
  const LONG_MAX: nat := 0x7FFF_FFFF_FFFF_FFFF
  const INITIAL_SIZE: nat := 4

  /** The bytes of a C string in front of its terminating NUL. */
  type Text = seq<Byte>

  // ---- the hash ----

  function Pow33(n: nat): (p: nat) {
    if n == 0 then 1 else 33 * Pow33(n - 1)
  }

  /** sum of s[k] * 33^(|s|-1-k) over k < i */
  function Weighted(s: Text, i: nat): nat
    requires i <= |s|
  {
    if i == 0 then 0 else Weighted(s, i - 1) + s[i - 1] * Pow33(|s| - i)
  }

  /** The hash as an unbounded polynomial in 33. */
  function Poly(s: Text): nat {
    5381 * Pow33(|s|) + Weighted(s, |s|)
  }

  /** The hash byte by byte, in 32-bit arithmetic. */
  function Hash(s: Text): nat {
    if s == [] then 5381 else (33 * Hash(s[..|s| - 1]) + s[|s| - 1]) % WORD32
  }

  lemma {:induction false} WeightedStep(s: Text, c: Byte, i: nat)
    requires i <= |s|
    ensures Weighted(s + [c], i) == 33 * Weighted(s, i)
  {
    if i > 0 {
      WeightedStep(s, c, i - 1);
      var x, p := s[i - 1], Pow33(|s| - i);
      assert (s + [c])[i - 1] == x;
      assert Pow33(|s| + 1 - i) == 33 * p;
      assert x * (33 * p) == 33 * (x * p);
    }
  }

  /** Horner's rule: appending a byte multiplies by 33 and adds. */
  lemma Horner(s: Text, c: Byte)
    ensures Poly(s + [c]) == 33 * Poly(s) + c
  {
    WeightedStep(s, c, |s|);
    assert (s + [c])[|s|] == c;
    assert Weighted(s + [c], |s| + 1) == Weighted(s + [c], |s|) + c * Pow33(0);
  }

  /** The wrapped hash is the polynomial reduced once, at the end. */
  lemma {:induction false} HashIsPoly(s: Text)
    ensures Hash(s) == Poly(s) % WORD32
  {
    if s != [] {
      var t, c := s[..|s| - 1], s[|s| - 1];
      HashIsPoly(t);
      Horner(t, c);
      assert t + [c] == s;
      HashStep(Poly(t), c);
    }
  }

  lemma HashStep(p: nat, c: Byte)
    ensures (33 * (p % WORD32) + c) % WORD32 == (33 * p + c) % WORD32
  {
    var q, r := p / WORD32, p % WORD32;
    var x := 33 * r + c;
    ModUnique(33 * p + c, WORD32, 33 * q + x / WORD32, x % WORD32);
  }

  /** `((hash << 5) + hash) + c`, each operation wrapping, is 33 * hash + c wrapped once. */
  lemma ShiftAdd(r: nat, c: Byte)
    ensures ((r * 32 % WORD32 + r) % WORD32 + c) % WORD32 == (33 * r + c) % WORD32
  {
    var x := r * 32 % WORD32 + r;
    var y := x % WORD32 + c;
    ModUnique(33 * r + c, WORD32, r * 32 / WORD32 + x / WORD32 + y / WORD32, y % WORD32);
  }

  /** _dictGenHash: 32-bit shifts and additions, wrapping at every operation. */
  method GenHash(buff: Text) returns (hash: nat)
    ensures hash == Hash(buff)
  {
    hash := 5381;
    for i := 0 to |buff|
      invariant hash == Hash(buff[..i])
    {
      assert buff[..i + 1][..i] == buff[..i];
      ShiftAdd(hash, buff[i]);
      hash := ((hash * 32 % WORD32 + hash) % WORD32 + buff[i]) % WORD32;
    }
    assert buff[..|buff|] == buff;
  }

  // ---- powers of two ----

  function Pow2(k: nat): (p: nat)
    ensures p >= 1
  {
    if k == 0 then 1 else 2 * Pow2(k - 1)
  }

  ghost predicate IsPow2(n: nat) {
    exists k: nat :: n == Pow2(k)
  }

  lemma Pow2Twice(n: nat)
    requires IsPow2(n)
    ensures IsPow2(2 * n)
  {
    var k: nat :| n == Pow2(k);
    assert Pow2(k + 1) == 2 * n;
  }

  lemma {:induction false} Pow2Monotone(j: nat, k: nat)
    requires j <= k
    ensures Pow2(j) <= Pow2(k)
    decreases k
  {
    if j < k { Pow2Monotone(j, k - 1); }
  }

  /** No power of two lies strictly between n and 2n. */
  lemma Pow2Gap(m: nat, n: nat)
    requires IsPow2(m) && IsPow2(n) && m < n
    ensures 2 * m <= n
  {
    var j: nat :| m == Pow2(j);
    var k: nat :| n == Pow2(k);
    if k <= j { Pow2Monotone(k, j); }
    Pow2Monotone(j + 1, k);
  }

  /** A power of two divides every power of two that is not smaller. */
  lemma {:induction false} Pow2Divides(j: nat, k: nat) returns (q: nat)
    requires Pow2(j) <= Pow2(k)
    ensures q > 0 && Pow2(k) == Pow2(j) * q
    decreases k
  {
    if j >= k {
      Pow2Monotone(k, j);
      q := 1;
    } else {
      Pow2Monotone(j, k - 1);
      q := Pow2Divides(j, k - 1);
      q := 2 * q;
    }
  }

  lemma Pow2Up7(k: nat)
    ensures Pow2(k + 7) == 0x80 * Pow2(k)
  {
    assert Pow2(k + 2) == 2 * Pow2(k + 1);
    assert Pow2(k + 4) == 2 * Pow2(k + 3);
    assert Pow2(k + 6) == 2 * Pow2(k + 5);
  }

  lemma Pow2Of63()
    ensures Pow2(63) == LONG_MAX + 1 && Pow2(2) == INITIAL_SIZE
  {
    Pow2Up7(0);
    Pow2Up7(7);
    Pow2Up7(14);
    Pow2Up7(21);
    Pow2Up7(28);
    Pow2Up7(35);
    Pow2Up7(42);
    Pow2Up7(49);
    Pow2Up7(56);
  }

  /** Doubling from i until size is reached. */
  function Grow(i: nat, size: nat): (r: nat)
    requires i > 0
    decreases size - i
  {
    if i >= size then i else Grow(2 * i, size)
  }

  function NextPower(size: nat): nat {
    if size >= LONG_MAX then LONG_MAX + 1 else Grow(INITIAL_SIZE, size)
  }

  lemma {:induction false} GrowLeast(i: nat, size: nat)
    requires IsPow2(i) && i > 0
    requires i == INITIAL_SIZE || i < 2 * size
    ensures IsPow2(Grow(i, size)) && Grow(i, size) >= size && Grow(i, size) >= i
    ensures Grow(i, size) == i || Grow(i, size) < 2 * size
    decreases size - i
  {
    if i < size {
      Pow2Twice(i);
      GrowLeast(2 * i, size);
    }
  }

  ghost predicate IsLeastPow2(r: nat, size: nat) {
    && IsPow2(r) && r >= INITIAL_SIZE && r >= size
    && forall p: nat :: IsPow2(p) && p >= INITIAL_SIZE && p >= size ==> r <= p
  }

  /** The next power is the least one that fits exactly for the sizes that a
      64-bit word can round up. */
  lemma NextPowerLeast(size: nat)
    ensures IsLeastPow2(NextPower(size), size) <==> size <= LONG_MAX + 1
    ensures IsPow2(NextPower(size)) && INITIAL_SIZE <= NextPower(size) <= LONG_MAX + 1
  {
    Pow2Of63();
    if size < LONG_MAX { GrowLeast(INITIAL_SIZE, size); }
    var r := NextPower(size);
    if size < LONG_MAX && r > LONG_MAX + 1 { Pow2Gap(LONG_MAX + 1, r); }
    if size <= LONG_MAX + 1 {
      forall p: nat | IsPow2(p) && p >= INITIAL_SIZE && p >= size ensures r <= p {
        if p < r { Pow2Gap(p, r); }
      }
    }
  }

  /** _dictNextPower, with the 64-bit wrap of `i *= 2` written out. */
  method ComputeNextPower(size: nat) returns (i: nat)
    requires size < WORD64
    ensures i == NextPower(size)
    ensures size <= LONG_MAX + 1 ==> IsLeastPow2(i, size)
  {
    NextPowerLeast(size);
    i := INITIAL_SIZE;
    if size >= LONG_MAX { return LONG_MAX + 1; }
    while i < size
      invariant i > 0 && Grow(i, size) == NextPower(size)
      decreases size - i
    {
      i := i * 2 % WORD64;
    }
  }

  /** Doubling an exact power of two is what the next power of 2n gives. */
  lemma NextPowerOfDouble(n: nat)
    requires IsPow2(n) && INITIAL_SIZE <= n <= LONG_MAX
    ensures NextPower(2 * n) == 2 * n
  {
    Pow2Of63();
    Pow2Gap(n, LONG_MAX + 1);
    Pow2Twice(n);
    NextPowerLeast(2 * n);
  }

  // ---- masks ----

  /** Bitwise conjunction of two unsigned words. */
  function BitAnd(x: nat, y: nat): nat
    decreases x
  {
    if x == 0 || y == 0 then 0 else (x % 2) * (y % 2) + 2 * BitAnd(x / 2, y / 2)
  }

  lemma {:induction false} MaskIsMod(x: nat, k: nat)
    ensures BitAnd(x, Pow2(k) - 1) == x % Pow2(k)
    decreases k
  {
    if k > 0 {
      var p := Pow2(k - 1);
      MaskIsMod(x / 2, k - 1);
      assert (2 * p - 1) / 2 == p - 1 && (2 * p - 1) % 2 == 1;
      ModOfDouble(x, p);
      if x > 0 && p == 1 { assert BitAnd(x / 2, 0) == 0; }
    }
  }

  lemma ModOfDouble(x: nat, p: nat)
    requires p > 0
    ensures x % (2 * p) == x % 2 + 2 * ((x / 2) % p)
  {
    var q, r := (x / 2) / p, (x / 2) % p;
    assert x / 2 == q * p + r;
    assert x == 2 * (x / 2) + x % 2;
    assert x == q * (2 * p) + (x % 2 + 2 * r) by { assert 2 * (q * p) == q * (2 * p); }
    ModUnique(x, 2 * p, q, x % 2 + 2 * r);
  }

  /** A word masked by size-1 is the word modulo size, for every table size. */
  lemma MaskOfPow2(x: nat, n: nat)
    requires IsPow2(n)
    ensures n > 0 && BitAnd(x, n - 1) == x % n
  {
    var k: nat :| n == Pow2(k);
    MaskIsMod(x, k);
  }

  /** When a table of size n becomes one of size n*q, the new slot of a hash is
      congruent to its old one. */
  lemma SlotCongruent(h: nat, n: nat, q: nat)
    requires n > 0 && q > 0
    ensures n * q > 0 && (h % (n * q)) % n == h % n
  {
    var d := n * q;
    MulPositive(n, q);
    var a, b, t := h / d, h % d / n, h % d % n;
    assert h == a * d + b * n + t;
    Regroup(a, n, q, b);
    ModUnique(h, n, a * q + b, t);
  }

  lemma MulPositive(n: nat, q: nat)
    requires n > 0 && q > 0
    ensures n * q > 0
  {
  }

  lemma Regroup(a: nat, n: nat, q: nat, b: nat)
    ensures a * (n * q) + b * n == (a * q + b) * n
  {
    assert a * (n * q) == (a * q) * n;
  }
}
