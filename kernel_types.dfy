/**
 * Fixed-width kernel types, the unsigned shift and OR operators on them, and
 * the two C string routines the ciphertext index relies on: `strncmp`
 * (lib/string.c: compares unsigned chars and stops at the first NUL) and
 * `strncpy` (copies up to the first NUL and pads with NULs).
 */
module KernelTypes {

  /** A C `char` / `u8`, by its unsigned value. */
  type Byte = b: int | 0 <= b < 256

  const TWO_TO_THE_32: int := 0x1_0000_0000
  const TWO_TO_THE_64: int := 0x1_0000_0000_0000_0000

  /** The kernel's `u64` (and `unsigned long`, `pgoff_t` on a 64-bit build). */
  type u64 = x: int | 0 <= x < TWO_TO_THE_64

  /** The kernel's `u32` (and `unsigned int`). */
  type u32 = x: int | 0 <= x < TWO_TO_THE_32

  /** Length of a ciphertext fingerprint, `char fingerprint_crypt[16]`. */
  const FINGERPRINT_SIZE: nat := 16

  /** A 16-byte digest, as produced by `hash_page_data`. */
  type Fingerprint = s: seq<Byte> | |s| == FINGERPRINT_SIZE
    witness seq(FINGERPRINT_SIZE, _ => 0)

  /** The value of a byte read through a signed `char`. */
  function SignedChar(b: Byte): (v: int)
    ensures -128 <= v < 128
    ensures v % 256 == b
  {
    if b < 128 then b else b - 256
  }

  /**
   * `strncmp(a, b, |a|)` as in lib/string.c: the first differing unsigned
   * char decides the sign (-1 or 1); a common NUL or the end of the count
   * gives 0.
   */
  function StrnCmp(a: seq<Byte>, b: seq<Byte>): (r: int)
    requires |a| == |b|
    ensures -1 <= r <= 1
    decreases |a|
  {
    if a == [] then 0
    else if a[0] != b[0] then (if a[0] < b[0] then -1 else 1)
    else if a[0] == 0 then 0
    else StrnCmp(a[1..], b[1..])
  }

  /** No NUL byte occurs in `a` before index `i`. */
  ghost predicate NoNulBefore(a: seq<Byte>, i: nat)
    requires i <= |a|
  {
    forall j :: 0 <= j < i ==> a[j] != 0
  }

  /**
   * `a` and `b` agree on every byte up to and including the first NUL of
   * `a` (or on all bytes if `a` has none): what `strncmp` treats as equal.
   */
  ghost predicate AgreeToNul(a: seq<Byte>, b: seq<Byte>)
    requires |a| == |b|
  {
    forall i :: 0 <= i < |a| && NoNulBefore(a, i) ==> a[i] == b[i]
  }

  /** `strncmp` reports equality exactly when the strings agree up to the first NUL. */
  lemma {:induction false} StrnCmpZeroIff(a: seq<Byte>, b: seq<Byte>)
    requires |a| == |b|
    ensures StrnCmp(a, b) == 0 <==> AgreeToNul(a, b)
    decreases |a|
  {
    if a != [] {
      if a[0] != b[0] {
        assert NoNulBefore(a, 0);
      } else if a[0] == 0 {
        forall i | 0 <= i < |a| && NoNulBefore(a, i) ensures a[i] == b[i] {
          assert i == 0;
        }
      } else {
        StrnCmpZeroIff(a[1..], b[1..]);
        if AgreeToNul(a[1..], b[1..]) {
          forall i | 0 <= i < |a| && NoNulBefore(a, i) ensures a[i] == b[i] {
            if i > 0 {
              assert NoNulBefore(a[1..], i - 1) by {
                forall j | 0 <= j < i - 1 ensures a[1..][j] != 0 { assert a[j + 1] != 0; }
              }
            }
          }
        }
        if AgreeToNul(a, b) {
          forall i | 0 <= i < |a| - 1 && NoNulBefore(a[1..], i) ensures a[1..][i] == b[1..][i] {
            assert NoNulBefore(a, i + 1) by {
              forall j | 0 <= j < i + 1 ensures a[j] != 0 {
                if j > 0 { assert a[1..][j - 1] != 0; }
              }
            }
          }
        }
      }
    }
  }

  /** `strncmp` is antisymmetric: swapping the arguments flips the sign. */
  lemma {:induction false} StrnCmpAntisymmetric(a: seq<Byte>, b: seq<Byte>)
    requires |a| == |b|
    ensures StrnCmp(a, b) == -StrnCmp(b, a)
    decreases |a|
  {
    if a != [] && a[0] == b[0] && a[0] != 0 {
      StrnCmpAntisymmetric(a[1..], b[1..]);
    }
  }

  /** Equality under `strncmp` is transitive. */
  lemma {:induction false} StrnCmpTransitive(a: seq<Byte>, b: seq<Byte>, c: seq<Byte>)
    requires |a| == |b| == |c|
    requires StrnCmp(a, b) == 0 && StrnCmp(b, c) == 0
    ensures StrnCmp(a, c) == 0
    decreases |a|
  {
    if a != [] && a[0] != 0 {
      StrnCmpTransitive(a[1..], b[1..], c[1..]);
    }
  }

  /** `n` NUL bytes. */
  function Zeros(n: nat): (z: seq<Byte>)
    ensures |z| == n && forall i :: 0 <= i < n ==> z[i] == 0
  {
    seq(n, _ => 0)
  }

  /**
   * `strncpy(dest, s, |s|)` as in lib/string.c: the bytes of `s` up to its
   * first NUL, then NUL padding to the full count.
   */
  function StrnCpy(s: seq<Byte>): (d: seq<Byte>)
    ensures |d| == |s|
    decreases |s|
  {
    if s == [] then []
    else if s[0] == 0 then Zeros(|s|)
    else [s[0]] + StrnCpy(s[1..])
  }

  /** The `strncpy` copy compares equal to its source under `strncmp`. */
  lemma {:induction false} StrnCpyMatchesSource(s: seq<Byte>)
    ensures StrnCmp(StrnCpy(s), s) == 0
    decreases |s|
  {
    if s != [] && s[0] != 0 {
      StrnCpyMatchesSource(s[1..]);
      assert StrnCpy(s)[1..] == StrnCpy(s[1..]);
    }
  }

  /**
   * `strncpy` maps each `strncmp` class to one canonical representative:
   * two strings have the same copy exactly when they compare equal.
   */
  lemma {:induction false} StrnCpyCanonical(a: seq<Byte>, b: seq<Byte>)
    requires |a| == |b|
    ensures StrnCpy(a) == StrnCpy(b) <==> StrnCmp(a, b) == 0
    decreases |a|
  {
    if a != [] {
      if a[0] == b[0] && a[0] != 0 {
        StrnCpyCanonical(a[1..], b[1..]);
        assert StrnCpy(a) == [a[0]] + StrnCpy(a[1..]);
        assert StrnCpy(b) == [b[0]] + StrnCpy(b[1..]);
        if StrnCpy(a) == StrnCpy(b) {
          assert StrnCpy(a)[1..] == StrnCpy(a[1..]);
          assert StrnCpy(b)[1..] == StrnCpy(b[1..]);
        }
      } else if a[0] != b[0] {
        assert StrnCpy(a)[0] == a[0] && StrnCpy(b)[0] == b[0];
      }
    }
  }

  /** Two different digests that `strncmp` nevertheless reports as equal. */
  lemma StrnCmpConflatesDigests()
    ensures exists a: Fingerprint, b: Fingerprint :: a != b && StrnCmp(a, b) == 0
  {
    var a: Fingerprint := Zeros(FINGERPRINT_SIZE);
    var b: Fingerprint := [0] + seq(FINGERPRINT_SIZE - 1, _ => 1);
    assert a[1] != b[1];
    assert StrnCmp(a, b) == 0;
  }

  // ---------------------------------------------------------------------
  // Unsigned shifts and bitwise OR on fixed widths.

  function Pow2(n: nat): (p: nat)
    ensures p >= 1
  {
    if n == 0 then 1 else 2 * Pow2(n - 1)
  }

  lemma {:induction false} Pow2Add(a: nat, b: nat)
    ensures Pow2(a + b) == Pow2(a) * Pow2(b)
  {
    if a > 0 {
      Pow2Add(a - 1, b);
      MulAssociates(2, Pow2(a - 1), Pow2(b));
    }
  }

  lemma Pow2Byte()
    ensures Pow2(8) == 256
  {
  }

  lemma Pow2Half()
    ensures Pow2(16) == 0x1_0000
  {
    Pow2Byte();
    Pow2Add(8, 8);
  }

  lemma Pow2Word()
    ensures Pow2(32) == TWO_TO_THE_32
  {
    Pow2Half();
    Pow2Add(16, 16);
  }

  lemma Pow2Double()
    ensures Pow2(64) == TWO_TO_THE_64
  {
    Pow2Word();
    Pow2Add(32, 32);
  }

  /** Unsigned 64-bit wrap-around: the value an unsigned `u64` computation keeps. */
  function Wrap64(x: int): u64
  {
    x % TWO_TO_THE_64
  }

  /** A value that fits in 64 bits is kept as it is. */
  lemma WrapSmall(x: int)
    requires 0 <= x < TWO_TO_THE_64
    ensures Wrap64(x) == x
  {
  }

  /** Reducing the left operand first does not change a wrapping sum. */
  lemma WrapAddLeft(a: int, b: int)
    ensures Wrap64(Wrap64(a) + b) == Wrap64(a + b)
  {
    DivOfSum(a + b, TWO_TO_THE_64, a / TWO_TO_THE_64 + (a % TWO_TO_THE_64 + b) / TWO_TO_THE_64, (a % TWO_TO_THE_64 + b) % TWO_TO_THE_64);
  }

  /** `x << s` on a `u64`: the bits shifted past bit 63 are lost. */
  function Shl64(x: u64, s: nat): u64
  {
    Wrap64(x * Pow2(s))
  }

  /** `x >> s` on an unsigned value, one bit at a time. */
  function Shr(x: nat, s: nat): (r: nat)
    ensures r <= x
  {
    if s == 0 then x else Shr(x / 2, s - 1)
  }

  /** Shifting right by `s` is division by 2^s. */
  lemma {:induction false} ShrDivides(x: nat, s: nat)
    ensures Shr(x, s) == x / Pow2(s)
  {
    if s > 0 {
      ShrDivides(x / 2, s - 1);
      HalveThenDivide(x, Pow2(s - 1));
    }
  }

  /** Halving and then dividing by `q` is dividing by `2 * q`. */
  lemma HalveThenDivide(x: nat, q: nat)
    requires q > 0
    ensures x / 2 / q == x / (2 * q)
  {
    var h := x / 2;
    var a, r := h / q, h % q;
    assert h == q * a + r;
    assert x == 2 * h + x % 2;
    assert 2 * (q * a) == (2 * q) * a by {
      MulAssociates(2, q, a);
    }
    DivOfSum(x, 2 * q, a, 2 * r + x % 2);
  }

  /** Halving `x` plus `k` units of `2 * p` adds `k` units of `p` to the half. */
  lemma HalveSum(x: nat, k: nat, p: nat)
    ensures (x + k * (2 * p)) / 2 == x / 2 + k * p
  {
    var t := k * p;
    assert k * (2 * p) == 2 * t by {
      MulAssociates(k, 2, p);
    }
    DivOfSum(x + 2 * t, 2, x / 2 + t, x % 2);
  }

  /** Adding `k` units of 2^s to the shifted value adds `k` to the result. */
  lemma {:induction false} ShrAddMultiple(x: nat, k: nat, s: nat)
    ensures Shr(x + k * Pow2(s), s) == Shr(x, s) + k
  {
    if s == 0 {
      assert k * Pow2(s) == k;
    } else {
      var p := Pow2(s - 1);
      assert k * Pow2(s) == k * (2 * p);
      HalveSum(x, k, p);
      assert Shr(x + k * Pow2(s), s) == Shr(x / 2 + k * p, s - 1);
      ShrAddMultiple(x / 2, k, s - 1);
    }
  }

  /** Adding 2^s to the shifted value adds one to the result. */
  lemma ShrAddPow2(x: nat, s: nat)
    ensures Shr(x + Pow2(s), s) == Shr(x, s) + 1
  {
    assert 1 * Pow2(s) == Pow2(s);
    ShrAddMultiple(x, 1, s);
  }

  /** Euclidean division has a unique quotient. */
  lemma DivOfSum(n: int, d: int, q: int, r: int)
    requires d > 0 && 0 <= r < d && n == d * q + r
    ensures n / d == q && n % d == r
  {
    var q', r' := n / d, n % d;
    if q' > q {
      MulMonotone(q + 1, q', d);
      assert false;
    } else if q' < q {
      MulMonotone(q' + 1, q, d);
      assert false;
    }
  }

  /** Adding the divisor keeps the remainder. */
  lemma ModAddDivisor(x: nat, d: nat)
    requires d > 0
    ensures (x + d) % d == x % d
  {
    DivOfSum(x + d, d, x / d + 1, x % d);
  }

  /** `x` is a whole number of steps of `d` (IS_ALIGNED for a power-of-two `d`). */
  predicate MultipleOf(x: nat, d: nat)
    decreases x
  {
    x == 0 || (d > 0 && x >= d && MultipleOf(x - d, d))
  }

  lemma {:induction false} MultipleOfMod(x: nat, d: nat)
    requires d > 0
    ensures MultipleOf(x, d) <==> x % d == 0
    decreases x
  {
    if x >= d {
      MultipleOfMod(x - d, d);
      ModAddDivisor(x - d, d);
    } else if x > 0 {
      DivOfSum(x, d, 0, x);
    }
  }

  /** A value below `d * p` has a quotient by `d` below `p`. */
  lemma DivBelow(x: nat, d: nat, p: nat)
    requires d > 0 && x < d * p
    ensures x / d < p
  {
    assert x == d * (x / d) + x % d;
    if x / d >= p {
      MulMonotone(p, x / d, d);
      assert false;
    }
  }

  lemma MulAssociates(a: int, b: int, c: int)
    ensures (a * b) * c == a * (b * c)
  {
  }

  lemma MulMonotone(a: int, b: int, d: nat)
    requires a <= b
    ensures d * a <= d * b
  {
    var e := b - a;
    assert d * b == d * a + d * e;
  }

  /** Bitwise OR of the low `n` bits of `a` and `b`, bit by bit from the least significant. */
  function BitOr(a: nat, b: nat, n: nat): nat
  {
    if n == 0 then 0
    else (if a % 2 == 1 || b % 2 == 1 then 1 else 0) + 2 * BitOr(a / 2, b / 2, n - 1)
  }

  lemma {:induction false} BitOrBound(a: nat, b: nat, n: nat)
    ensures BitOr(a, b, n) < Pow2(n)
  {
    if n > 0 {
      BitOrBound(a / 2, b / 2, n - 1);
    }
  }

  /** `a | b` on `u64`. */
  function Or64(a: u64, b: u64): (r: u64)
  {
    BitOrBound(a, b, 64);
    Pow2Double();
    BitOr(a, b, 64)
  }

  /**
   * OR of a value below 2^k with a multiple of 2^k is their sum: the set
   * bits do not overlap.
   */
  lemma {:induction false} BitOrDisjoint(a: nat, c: nat, k: nat, n: nat)
    requires a < Pow2(k) && k <= n && a + c * Pow2(k) < Pow2(n)
    ensures BitOr(a, c * Pow2(k), n) == a + c * Pow2(k)
    decreases n
  {
    if n == 0 {
    } else if k == 0 {
      assert a == 0 && c * Pow2(k) == c && (c / 2) * Pow2(k) == c / 2;
      BitOrDisjoint(0, c / 2, 0, n - 1);
      assert BitOr(a, c, n) == c % 2 + 2 * (c / 2);
    } else {
      var h := c * Pow2(k - 1);
      HalveShifted(a, c, k, n);
      BitOrDisjoint(a / 2, c, k - 1, n - 1);
      assert BitOr(a, 2 * h, n) == a % 2 + 2 * BitOr(a / 2, h, n - 1);
    }
  }

  /** Halving `a + c * 2^k` for `k > 0` halves `a` and takes one factor 2 out of `2^k`. */
  lemma HalveShifted(a: nat, c: nat, k: nat, n: nat)
    requires 0 < k <= n && a < Pow2(k) && a + c * Pow2(k) < Pow2(n)
    ensures var h := c * Pow2(k - 1);
      && c * Pow2(k) == 2 * h && a / 2 < Pow2(k - 1) && a / 2 + h < Pow2(n - 1)
      && (2 * h) % 2 == 0 && (2 * h) / 2 == h
  {
    var p := Pow2(k - 1);
    var h := c * p;
    MulMonotone(0, c, p);
    assert c * Pow2(k) == 2 * h by {
      assert Pow2(k) == 2 * p;
      MulAssociates(c, 2, p);
    }
    assert a / 2 + h < Pow2(n - 1) by {
      assert Pow2(n) == 2 * Pow2(n - 1);
      assert a == 2 * (a / 2) + a % 2;
    }
    DivOfSum(2 * h, 2, h, 0);
  }

  /** Two 32-bit halves OR together into one 64-bit value without overlap. */
  lemma Or64Halves(lo: u64, hi: u64)
    requires lo < TWO_TO_THE_32 && hi < TWO_TO_THE_32
    ensures hi * TWO_TO_THE_32 < TWO_TO_THE_64
    ensures Or64(lo, hi * TWO_TO_THE_32) == lo + hi * TWO_TO_THE_32
  {
    MulMonotone(hi, TWO_TO_THE_32 - 1, TWO_TO_THE_32);
    Pow2Word();
    Pow2Double();
    BitOrDisjoint(lo, hi, 32, 64);
  }

  /** OR with zero leaves a 64-bit value as it is. */
  lemma Or64Zero(a: u64)
    ensures Or64(a, 0) == a
  {
    Pow2Double();
    assert 0 == 0 * Pow2(64);
    BitOrDisjoint(a, 0, 64, 64);
  }

  /** A value is a multiple of 2^k exactly when it is even and its half is a multiple of 2^(k-1). */
  lemma ModPow2Split(x: nat, k: nat)
    requires k > 0
    ensures x % Pow2(k) == 0 <==> x % 2 == 0 && (x / 2) % Pow2(k - 1) == 0
  {
    var p := Pow2(k - 1);
    var q, r := (x / 2) / p, (x / 2) % p;
    assert x == 2 * p * q + (2 * r + x % 2);
    DivOfSum(x, 2 * p, q, 2 * r + x % 2);
  }

  /** The low `k` bits of `x` are all zero. */
  predicate LowBitsZero(x: nat, k: nat)
  {
    k == 0 || (x % 2 == 0 && LowBitsZero(x / 2, k - 1))
  }

  lemma {:induction false} LowBitsZeroMod(x: nat, k: nat)
    ensures LowBitsZero(x, k) <==> x % Pow2(k) == 0
  {
    if k > 0 {
      LowBitsZeroMod(x / 2, k - 1);
      ModPow2Split(x, k);
    }
  }

  /** The OR of two values has zero low bits exactly when both have. */
  lemma {:induction false} BitOrLowBits(a: nat, b: nat, k: nat, n: nat)
    requires k <= n
    ensures LowBitsZero(BitOr(a, b, n), k) <==> LowBitsZero(a, k) && LowBitsZero(b, k)
  {
    if k > 0 {
      var h := BitOr(a / 2, b / 2, n - 1);
      var bit := if a % 2 == 1 || b % 2 == 1 then 1 else 0;
      assert BitOr(a, b, n) == bit + 2 * h;
      assert (bit + 2 * h) % 2 == bit && (bit + 2 * h) / 2 == h;
      BitOrLowBits(a / 2, b / 2, k - 1, n - 1);
    }
  }

  /**
   * `IS_ALIGNED(a | b, 2^k)`: the OR of two values is a multiple of a power
   * of two exactly when both are.
   */
  lemma BitOrAligned(a: nat, b: nat, k: nat, n: nat)
    requires k <= n
    ensures BitOr(a, b, n) % Pow2(k) == 0 <==> a % Pow2(k) == 0 && b % Pow2(k) == 0
  {
    BitOrLowBits(a, b, k, n);
    LowBitsZeroMod(BitOr(a, b, n), k);
    LowBitsZeroMod(a, k);
    LowBitsZeroMod(b, k);
  }
}
