/** The arithmetic helpers, the digest comparison and the sizing constants that the
    ThreadSanitizer runtime defines in its common header (lib/tsan/rtl/tsan_defs.h).
    Machine integers are modelled as bounded subsets of `int`; every place where the C code
    relies on a width (a conversion to unsigned, a wrapping sum, a bit mask) is written out. */
module TsanDefs {

  // ---------------------------------------------------------------------------------------
  // Machine integers
  // ---------------------------------------------------------------------------------------

  const U32_MODULUS: int := 0x1_0000_0000
  const U64_MODULUS: int := 0x1_0000_0000_0000_0000
  const INT32_MIN: int := -0x8000_0000
  const INT32_MAX: int := 0x7FFF_FFFF

  /** `unsigned` */
  type U32 = x: int | 0 <= x < 0x1_0000_0000
  /** `u64`, that is `unsigned long long` (also `uptr` on the 64-bit targets) */
  type U64 = x: int | 0 <= x < 0x1_0000_0000_0000_0000
  /** `int`, 32-bit two's complement */
  type Int32 = x: int | -0x8000_0000 <= x < 0x8000_0000

  /** C's conversion of any integer value to `unsigned`: reduction modulo 2^32. */
  function ToU32(x: int): U32 { x % U32_MODULUS }

  /** C's conversion of any integer value to `u64`, and `u64` arithmetic: reduction modulo 2^64. */
  function ToU64(x: int): U64 { x % U64_MODULUS }

  /** `~x` on a two's-complement `int`: flipping every bit of x gives -x - 1. */
  function Complement(x: Int32): Int32 { -1 - x }

  /** 2^k */
  function Pow2(k: nat): (r: nat)
    ensures r >= 1
  {
    if k == 0 then 1 else 2 * Pow2(k - 1)
  }

  /** n is one of 1, 2, 4, 8, ... */
  predicate IsPowerOfTwo(n: int)
    decreases if n < 0 then 0 else n
  {
    n >= 1 && (n == 1 || (n % 2 == 0 && IsPowerOfTwo(n / 2)))
  }

  /** The exponent of a power of two. */
  function Log2(n: int): (k: nat)
    requires IsPowerOfTwo(n)
    ensures Pow2(k) == n
    decreases n
  {
    if n == 1 then 0 else 1 + Log2(n / 2)
  }

  /** Bitwise AND (`&`) of two naturals, one bit at a time from the least significant one. */
  function BitAnd(x: nat, y: nat): nat
    decreases x
  {
    if x == 0 || y == 0 then 0
    else 2 * BitAnd(x / 2, y / 2) + (if x % 2 == 1 && y % 2 == 1 then 1 else 0)
  }

  // ---------------------------------------------------------------------------------------
  // min, max
  // ---------------------------------------------------------------------------------------

  /** `min(a, b)`: `a < b ? a : b` over an integer type. */
  function Min(a: int, b: int): (r: int)
    ensures r <= a && r <= b
    ensures r == a || r == b
  {
    if a < b then a else b
  }

  /** `max(a, b)`: `a > b ? a : b` over an integer type. */
  function Max(a: int, b: int): (r: int)
    ensures r >= a && r >= b
    ensures r == a || r == b
  {
    if a > b then a else b
  }

  /** The two helpers split any pair into its smaller and its larger member. */
  lemma MinMaxPartition(a: int, b: int)
    ensures Min(a, b) <= Max(a, b)
    ensures Min(a, b) + Max(a, b) == a + b
    ensures Min(a, b) == Min(b, a) && Max(a, b) == Max(b, a)
  {
  }

  // ---------------------------------------------------------------------------------------
  // RoundUp
  // ---------------------------------------------------------------------------------------

  /** `align & (align - 1)` on the two's-complement bits of the 32-bit `int`, read as unsigned. */
  function CheckedBits(align: Int32): nat {
    BitAnd(ToU32(align), ToU32(align - 1))
  }

  /** What the caller of `RoundUp` must guarantee: the debug check `align & (align - 1) == 0`,
      and that `align - 1` does not overflow (signed overflow is undefined in C). The check
      accepts exactly 0 and the powers of two that fit in an `int`, 1, 2, 4, ..., 2^30. */
  predicate AlignmentAccepted(align: Int32): (b: bool)
    ensures b <==> align == 0 || (align > 0 && IsPowerOfTwo(align))
  {
    CheckedBitsIff(align);
    align != INT32_MIN && CheckedBits(align) == 0
  }

  /** `RoundUp(p, align)` instantiated at `T = u64`: `((u64)p + align - 1) & ~(align - 1)`,
      under its debug check. With align == 0 the mask is 0. Otherwise, when the sum does not
      wrap, the result is the multiple of align in [p, p + align); when it wraps, it is 0. */
  function RoundUp(p: U64, align: Int32): (r: U64)
    requires AlignmentAccepted(align)
    ensures align == 0 ==> r == 0
    ensures align != 0 && RoundUpFits(p, align) ==> r % align == 0 && p <= r < p + align
    ensures align != 0 && !RoundUpFits(p, align) ==> r == 0 < p
  {
    if align != 0 then RoundedSumBounds(p, align); MaskedSum(p, align) else MaskedSum(p, align)
  }

  /** The expression of `RoundUp`, as a release build evaluates it for any alignment: the
      wrapped sum masked with `~(align - 1)`. For a power-of-two alignment this rounds the
      wrapped sum down to a multiple of align. */
  function MaskedSum(p: U64, align: Int32): (r: U64)
    requires align != INT32_MIN
    ensures align > 0 && IsPowerOfTwo(align) ==> r == WrappedSum(p, align) - WrappedSum(p, align) % align
  {
    var sum, mask := WrappedSum(p, align), ComplementMask(align);
    BitAndBelow(sum, mask);
    MaskRoundsSumDown(p, align);
    BitAnd(sum, mask)
  }

  /** `(u64)p + align - 1`: align is converted to `u64` and the sum wraps modulo 2^64. */
  function WrappedSum(p: U64, align: Int32): U64 {
    ToU64(p + ToU64(align) - 1)
  }

  /** `~(align - 1)`, an `int`, converted (sign-extended) to `u64`. */
  function ComplementMask(align: Int32): U64
    requires align != INT32_MIN
  {
    ToU64(Complement(align - 1))
  }

  /** `x & y` never exceeds x, so masking a `u64` gives a `u64`. */
  lemma {:induction false} BitAndBelow(x: nat, y: nat)
    ensures BitAnd(x, y) <= x
  {
    if x != 0 && y != 0 {
      BitAndBelow(x / 2, y / 2);
    }
  }

  /** The sum inside `RoundUp` does not wrap around. */
  predicate RoundUpFits(p: U64, align: Int32) {
    p + align - 1 < U64_MODULUS
  }

  /** s % 2P in terms of the bits of s: the lowest bit, then the rest modulo P. */
  lemma ModDouble(s: nat, d: nat)
    requires d >= 1
    ensures s % (2 * d) == 2 * ((s / 2) % d) + s % 2
  {
    var q, b := s / 2, s % 2;
    var t, u := q / d, q % d;
    assert s == (2 * d) * t + (2 * u + b) by {
      assert q == d * t + u;
      assert s == 2 * q + b;
    }
    ModUnique(s, 2 * d, t, 2 * u + b);
  }

  /** The remainder is determined by any decomposition s == d * t + r with 0 <= r < d. */
  lemma ModUnique(s: int, d: nat, t: int, r: int)
    requires d >= 1 && 0 <= r < d && s == d * t + r
    ensures s % d == r && s / d == t
  {
    var t', r' := s / d, s % d;
    assert d * t' + r' == d * t + r;
    if t' > t {
      assert d * t' >= d * (t + 1) by { MulMonotone(d, t + 1, t'); }
    } else if t' < t {
      assert d * t >= d * (t' + 1) by { MulMonotone(d, t' + 1, t); }
    }
  }

  lemma MulMonotone(d: nat, a: int, b: int)
    requires a <= b
    ensures d * a <= d * b
  {
  }

  /** The value of the n lowest bits of s. */
  function LowBits(s: nat, n: nat): nat {
    if n == 0 || s == 0 then 0 else 2 * LowBits(s / 2, n - 1) + s % 2
  }

  /** The n lowest bits of s are s modulo 2^n. */
  lemma {:induction false} LowBitsIsMod(s: nat, n: nat)
    ensures LowBits(s, n) == s % Pow2(n)
  {
    if n == 0 {
      ModUnique(s, 1, s, 0);
    } else if s == 0 {
      ModUnique(0, Pow2(n), 0, 0);
    } else {
      LowBitsIsMod(s / 2, n - 1);
      ModDouble(s, Pow2(n - 1));
    }
  }

  /** The mask whose bits k .. n-1 are set and whose other bits are clear. */
  function Mask(n: nat, k: nat): nat {
    if n == 0 then 0
    else if k == 0 then 2 * Mask(n - 1, 0) + 1
    else 2 * Mask(n - 1, k - 1)
  }

  /** Bits k .. n-1 add up to 2^n - 2^k. */
  lemma {:induction false} MaskValue(n: nat, k: nat)
    requires k <= n
    ensures Mask(n, k) == Pow2(n) - Pow2(k)
  {
    if n > 0 {
      MaskValue(n - 1, if k == 0 then 0 else k - 1);
    }
  }

  /** Masking an n-bit value with bits k .. n-1 clears its k lowest bits. */
  lemma {:induction false} HighMask(s: nat, n: nat, k: nat)
    requires k <= n && s < Pow2(n)
    ensures BitAnd(s, Mask(n, k)) == s - LowBits(s, k)
  {
    if n > 0 {
      HalfBelow(s, Pow2(n - 1));
      if k == 0 {
        HighMask(s / 2, n - 1, 0);
        KeepLowest(s, Mask(n - 1, 0));
      } else {
        HighMask(s / 2, n - 1, k - 1);
        ClearLowest(s, Mask(n - 1, k - 1), LowBits(s / 2, k - 1));
        LowBitsStep(s, k);
      }
    }
  }

  lemma HalfBelow(s: nat, d: nat)
    requires s < 2 * d
    ensures s / 2 < d
  {
  }

  /** An odd mask keeps the lowest bit and masks the others with its upper part. */
  lemma OddMaskStep(s: nat, half: nat)
    ensures BitAnd(s, 2 * half + 1) == 2 * BitAnd(s / 2, half) + s % 2
  {
    var m := 2 * half + 1;
    assert m % 2 == 1 && m / 2 == half;
  }

  /** An even mask clears the lowest bit and masks the others with its upper part. */
  lemma EvenMaskStep(s: nat, half: nat)
    ensures BitAnd(s, 2 * half) == 2 * BitAnd(s / 2, half)
  {
    var m := 2 * half;
    assert m % 2 == 0 && m / 2 == half;
  }

  lemma KeepLowest(s: nat, m: nat)
    requires BitAnd(s / 2, m) == s / 2
    ensures BitAnd(s, 2 * m + 1) == s
  {
    OddMaskStep(s, m);
  }

  lemma ClearLowest(s: nat, m: nat, lo: nat)
    requires BitAnd(s / 2, m) == s / 2 - lo
    ensures BitAnd(s, 2 * m) == s - (2 * lo + s % 2)
  {
    EvenMaskStep(s, m);
  }

  lemma LowBitsStep(s: nat, k: nat)
    requires k > 0
    ensures LowBits(s, k) == 2 * LowBits(s / 2, k - 1) + s % 2
  {
  }

  lemma {:induction false} Pow2Monotone(j: nat, k: nat)
    requires j <= k
    ensures Pow2(j) <= Pow2(k)
  {
    if j < k {
      Pow2Monotone(j, k - 1);
    }
  }

  lemma Pow2Small()
    ensures Pow2(12) == 4096 && Pow2(15) == 32768 && Pow2(16) == 65536
  {
  }

  lemma Pow2Wide()
    ensures Pow2(31) == 0x8000_0000 && Pow2(32) == U32_MODULUS && Pow2(64) == U64_MODULUS
  {
    Pow2Of32();
    Pow2Product(32, 32);
  }

  lemma Pow2Of32()
    ensures Pow2(31) == 0x8000_0000 && Pow2(32) == U32_MODULUS
  {
    Pow2Small();
    Pow2Product(16, 15);
    Pow2Product(16, 16);
  }

  lemma {:induction false} Pow2IsPowerOfTwo(k: nat)
    ensures IsPowerOfTwo(Pow2(k))
  {
    if k > 0 {
      Pow2IsPowerOfTwo(k - 1);
      assert Pow2(k) / 2 == Pow2(k - 1);
    }
  }

  /** A non-zero accepted alignment is 2^k for some k <= 30. */
  lemma AcceptedExponent(align: Int32)
    requires align > 0 && IsPowerOfTwo(align)
    ensures Log2(align) <= 30
  {
    var k := Log2(align);
    if k > 30 {
      Pow2Monotone(31, k);
      Pow2Of32();
    }
  }

  /** For a power-of-two alignment, masking the wrapped sum rounds it down to a multiple of
      align. */
  lemma MaskRoundsSumDown(p: U64, align: Int32)
    requires align != INT32_MIN
    ensures align > 0 && IsPowerOfTwo(align) ==>
      BitAnd(WrappedSum(p, align), ComplementMask(align)) == WrappedSum(p, align) - WrappedSum(p, align) % align
  {
    if align > 0 && IsPowerOfTwo(align) {
      AcceptedExponent(align);
      ConvertPositive(align);
      ConvertComplement(align);
      MaskRoundsDown(WrappedSum(p, align), Log2(align));
    }
  }

  /** Masking a `u64` value with 2^64 - 2^k rounds it down to a multiple of 2^k. */
  lemma MaskRoundsDown(s: nat, k: nat)
    requires s < U64_MODULUS && k <= 64 && Pow2(k) <= U64_MODULUS
    ensures BitAnd(s, U64_MODULUS - Pow2(k)) == s - s % Pow2(k)
  {
    Pow2Wide();
    MaskValue(64, k);
    HighMask(s, 64, k);
    LowBitsIsMod(s, k);
  }

  lemma ConvertPositive(align: Int32)
    requires align > 0
    ensures ToU64(align) == align
  {
    ModUnique(align, U64_MODULUS, 0, align);
  }

  /** For positive align, `~(align - 1)` converted to `u64` is 2^64 - align. */
  lemma ConvertComplement(align: Int32)
    requires align > 0
    ensures ComplementMask(align) == U64_MODULUS - align
  {
    assert Complement(align - 1) == -align;
    ModUnique(-align, U64_MODULUS, -1, U64_MODULUS - align);
  }

  /** The wrapped sum rounded down: when the sum does not wrap, the multiple of align in
      [p, p + align); when it wraps, the wrapped sum is below align and rounds down to 0. */
  lemma RoundedSumBounds(p: U64, align: Int32)
    requires align > 0
    ensures var s := WrappedSum(p, align); var r := s - s % align;
      (RoundUpFits(p, align) ==> r % align == 0 && p <= r < p + align) &&
      (!RoundUpFits(p, align) ==> r == 0 < p)
  {
    ConvertPositive(align);
    var sum := p + align - 1;
    if RoundUpFits(p, align) {
      ModUnique(sum, U64_MODULUS, 0, sum);
      RoundDown(sum, align);
    } else {
      var s := sum - U64_MODULUS;
      ModUnique(sum, U64_MODULUS, 1, s);
      ModUnique(s, align, 0, s);
    }
  }

  /** s - s % d is the largest multiple of d that is at most s. */
  lemma RoundDown(s: nat, d: nat)
    requires d >= 1
    ensures (s - s % d) % d == 0
    ensures s - d < s - s % d <= s
  {
    var q, r := s / d, s % d;
    assert s == d * q + r && 0 <= r < d;
    ModUnique(s - r, d, q, 0);
  }

  /** Two multiples of d that are less than d apart are equal. */
  lemma MultiplesApart(x: int, y: int, d: nat)
    requires d >= 1 && x >= 0 && y >= 0 && x % d == 0 && y % d == 0
    requires y <= x < y + d
    ensures x == y
  {
    var qx, qy := x / d, y / d;
    assert x == d * qx && y == d * qy;
    if qx > qy {
      MulMonotone(d, qy + 1, qx);
    } else if qx < qy {
      MulMonotone(d, qx + 1, qy);
    }
  }

  /** `RoundUp` never exceeds a multiple of align that is at least p: when the sum does not
      wrap it is the least such multiple, and when it wraps it is 0. */
  lemma RoundUpSmallest(p: U64, align: Int32, m: int)
    requires AlignmentAccepted(align) && align != 0
    requires p <= m && m % align == 0
    ensures RoundUp(p, align) <= m
  {
    var r := RoundUp(p, align);
    if RoundUpFits(p, align) && r > m {
      // m lies in [p, r), so it is a multiple of align less than align below r
      MultiplesApart(r, m, align);
    }
  }

  /** An already aligned value is left unchanged; no overflow hypothesis is needed, since a
      multiple of align below 2^64 is at most 2^64 - align. */
  lemma RoundUpAligned(p: U64, align: Int32)
    requires AlignmentAccepted(align) && align != 0
    requires p % align == 0
    ensures RoundUp(p, align) == p
  {
    AlignedFits(p, align);
    MultiplesApart(RoundUp(p, align), p, align);
  }

  /** A multiple of an accepted alignment leaves room for align - 1 more below 2^64. */
  lemma AlignedFits(p: U64, align: Int32)
    requires AlignmentAccepted(align) && align != 0
    requires p % align == 0
    ensures align > 0 && RoundUpFits(p, align)
  {
    AcceptedExponent(align);
    var k := Log2(align);
    // 2^64 is itself a multiple of align
    Pow2Product(k, 64 - k);
    Pow2Wide();
    assert U64_MODULUS == align * Pow2(64 - k);
    ModUnique(U64_MODULUS, align, Pow2(64 - k), 0);
    if p + align > U64_MODULUS {
      MultiplesApart(U64_MODULUS, p, align);
    }
  }

  lemma {:induction false} Pow2Product(j: nat, k: nat)
    ensures Pow2(j) * Pow2(k) == Pow2(j + k)
  {
    if j > 0 {
      Pow2Product(j - 1, k);
    }
  }

  /** Rounding up twice is rounding up once, for every accepted alignment and every p: when
      the sum wraps or align is 0 both sides are 0. */
  lemma RoundUpIdempotent(p: U64, align: Int32)
    requires AlignmentAccepted(align)
    ensures RoundUp(RoundUp(p, align), align) == RoundUp(p, align)
  {
    if align != 0 {
      var r := RoundUp(p, align);
      assert r % align == 0 by {
        if !RoundUpFits(p, align) {
          assert r == 0;
        }
      }
      RoundUpAligned(r, align);
    }
  }

  /** The debug check in terms of the bits of align. */
  lemma CheckedBitsIff(align: Int32)
    ensures align != INT32_MIN && CheckedBits(align) == 0 <==> align == 0 || (align > 0 && IsPowerOfTwo(align))
  {
    if align > 0 {
      PositiveAlignment(align);
    } else if INT32_MIN < align < 0 {
      NegativeAlignment(align);
    }
  }

  lemma PositiveAlignment(align: Int32)
    requires align > 0
    ensures CheckedBits(align) == 0 <==> IsPowerOfTwo(align)
  {
    assert ToU32(align) == align && ToU32(align - 1) == align - 1;
    PowerOfTwoIff(align);
  }

  /** A negative `int` has its sign bit set, and so has its predecessor unless it is INT_MIN. */
  lemma NegativeAlignment(align: Int32)
    requires INT32_MIN < align < 0
    ensures CheckedBits(align) != 0
  {
    var u, v := ToU32(align), ToU32(align - 1);
    assert u == align + U32_MODULUS && v == align - 1 + U32_MODULUS;
    Pow2Of32();
    TopBitKept(u, v, 31);
  }

  /** For x >= 1, `x & (x - 1)` is zero exactly when x is a power of two. */
  lemma {:induction false} PowerOfTwoIff(x: nat)
    requires x >= 1
    ensures BitAnd(x, x - 1) == 0 <==> IsPowerOfTwo(x)
    decreases x
  {
    if x > 1 {
      if x % 2 == 0 {
        assert (x - 1) / 2 == x / 2 - 1 && (x - 1) % 2 == 1;
        PowerOfTwoIff(x / 2);
      } else {
        assert (x - 1) / 2 == x / 2 && (x - 1) % 2 == 0;
        BitAndSelf(x / 2);
      }
    }
  }

  lemma {:induction false} BitAndSelf(x: nat)
    ensures BitAnd(x, x) == x
    decreases x
  {
    if x != 0 {
      BitAndSelf(x / 2);
    }
  }

  /** Two values whose bit n is their highest set bit keep that bit in their AND. */
  lemma {:induction false} TopBitKept(u: nat, v: nat, n: nat)
    requires Pow2(n) <= u < 2 * Pow2(n) && Pow2(n) <= v < 2 * Pow2(n)
    ensures BitAnd(u, v) >= Pow2(n)
  {
    if n > 0 {
      TopBitKept(u / 2, v / 2, n - 1);
    }
  }

  // ---------------------------------------------------------------------------------------
  // MD5Hash
  // ---------------------------------------------------------------------------------------

  /** The two 64-bit halves of a digest (`u64 hash[2]`). */
  type HashWords = s: seq<U64> | |s| == 2 witness [0, 0]

  datatype MD5Hash = MD5Hash(hash: HashWords)

  /** `MD5Hash::operator==`: both halves agree. It coincides with equality of digests. */
  function Equals(a: MD5Hash, b: MD5Hash): (r: bool)
    ensures r <==> a == b
  {
    a.hash[0] == b.hash[0] && a.hash[1] == b.hash[1]
  }

  /** `operator==` is an equivalence relation on digests. */
  lemma EqualsIsEquivalence(a: MD5Hash, b: MD5Hash, c: MD5Hash)
    ensures Equals(a, a)
    ensures Equals(a, b) == Equals(b, a)
    ensures Equals(a, b) && Equals(b, c) ==> Equals(a, c)
  {
  }

  // ---------------------------------------------------------------------------------------
  // Sizing constants
  // ---------------------------------------------------------------------------------------

  /** `kPageSize` */
  const PAGE_SIZE: U64 := 4096
  /** `kTidBits` */
  const TID_BITS: nat := 15
  /** `kMaxTid`, defined as `1 << kTidBits` */
  const MAX_TID: nat := Pow2(TID_BITS)
  /** `kMaxTidInClock`: one more, most significant, 'freed' bit above the thread id */
  const MAX_TID_IN_CLOCK: nat := MAX_TID * 2
  /** `kClkBits` */
  const CLK_BITS: nat := 40
  /** `kShadowCnt` in the default build */
  const SHADOW_CNT: nat := 8
  /** `kShadowCell`: user bytes mapped onto one shadow cell */
  const SHADOW_CELL: nat := 8
  /** `kShadowSize`: bytes of one shadow value (a `u64`) */
  const SHADOW_SIZE: nat := 8

  /** Whether a preprocessor macro is defined, and to what. */
  datatype Macro = Undefined | Defined(value: int)

  /** A compile-time value, or the `#error` that stops the build. */
  datatype Build<T> = Built(value: T) | CompileError(message: string)

  /** `kShadowCnt` as selected by the `TSAN_SHADOW_COUNT` macro. */
  function ShadowCount(config: Macro): (r: Build<nat>)
    ensures r.Built? <==> config.Undefined? || config.value in {2, 4, 8}
    ensures r.Built? ==> r.value in {2, 4, 8}
    ensures config.Defined? && r.Built? ==> r.value == config.value
  {
    match config
    case Undefined => Built(8)
    case Defined(n) =>
      if n == 2 || n == 4 || n == 8 then Built(n)
      else CompileError("must be one of 2,4,8")
  }

  /** `kMaxTid == 1 << kTidBits == 32768`, and the clock is indexed by one more bit. */
  lemma ThreadIdConstants()
    ensures MAX_TID == 32768 && MAX_TID_IN_CLOCK == 2 * MAX_TID == Pow2(TID_BITS + 1)
  {
    Pow2Small();
  }

  /** The default build has 8 shadow values per cell of 8 user bytes, each value 8 bytes wide. */
  lemma ShadowConstants()
    ensures ShadowCount(Undefined) == Built(SHADOW_CNT)
    ensures SHADOW_CNT == SHADOW_CELL == SHADOW_SIZE == 8
    ensures forall n :: ShadowCount(Defined(n)).Built? ==> IsPowerOfTwo(n) && n <= SHADOW_CNT
  {
  }

  /** `kPageSize` is an alignment that `RoundUp` accepts. */
  lemma PageSizeAccepted()
    ensures IsPowerOfTwo(PAGE_SIZE) && AlignmentAccepted(PAGE_SIZE as Int32)
  {
    Pow2Small();
    Pow2IsPowerOfTwo(12);
  }
}
