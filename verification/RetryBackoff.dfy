/** Retry delays (`retry.rs`): capped doubling plus a jitter derived from key and attempt. */
module RetryBackoff {
  import opened Prelude

  const NANOS: nat := 1_000_000_000
  /** The longest `Duration`, in nanoseconds. */
  const DURATION_MAX: nat := U64_MAX * NANOS + 999_999_999
  const MAXIMUM_BACKOFF_EXPONENT: nat := 5
  const WORD: nat := U64_MAX + 1

  datatype Policy = Policy(initial: nat, maximum: nat, jitterSeconds: nat, maximumAttempts: Option<nat>)

  predicate Representable(p: Policy) {
    p.initial <= DURATION_MAX && p.maximum <= DURATION_MAX && p.jitterSeconds <= U64_MAX
  }

  function Exponent(attempt: nat): nat {
    if attempt == 0 then 0 else Min(attempt - 1, MAXIMUM_BACKOFF_EXPONENT)
  }

  function Pow2(e: nat): nat {
    if e == 0 then 1 else 2 * Pow2(e - 1)
  }

  function SaturatingSub(a: nat, b: nat): nat { if a < b then 0 else a - b }

  function Window(p: Policy): nat { p.jitterSeconds * NANOS }

  /** The delay before jitter: doubled, saturated, and kept below the cap by the jitter window. */
  function Base(p: Policy, attempt: nat): nat {
    Min(Min(p.initial * Pow2(Exponent(attempt)), DURATION_MAX), SaturatingSub(p.maximum, Window(p)))
  }

  function Mix(state: nat, byte: Byte): nat {
    (state * 31 % WORD + byte) % WORD
  }

  function Fold(state: nat, bytes: Bytes): nat {
    if bytes == [] then state else Mix(Fold(state, bytes[..|bytes| - 1]), bytes[|bytes| - 1])
  }

  /** `to_be_bytes` of a 32-bit attempt count. */
  function AttemptBytes(n: nat): Bytes
    requires n <= U32_MAX
  {
    [n / 256 / 256 / 256, n / 256 / 256 % 256, n / 256 % 256, n % 256]
  }

  function Jitter(p: Policy, key: Bytes, attempt: nat): nat
    requires attempt <= U32_MAX
    requires p.jitterSeconds <= U64_MAX
  {
    Fold(0, key + AttemptBytes(attempt)) % Min(p.jitterSeconds + 1, U64_MAX)
  }

  /** `delay`; the sum is the only operation that could overflow. */
  function Delay(p: Policy, key: Bytes, attempt: nat): nat
    requires Representable(p) && attempt <= U32_MAX
  {
    Base(p, attempt) + Jitter(p, key, attempt) * NANOS
  }

  /** No delay overflows, and none exceeds the larger of the cap and the jitter window. */
  lemma DelayBounded(p: Policy, key: Bytes, attempt: nat)
    requires Representable(p) && attempt <= U32_MAX
    ensures Delay(p, key, attempt) <= Max(p.maximum, Window(p)) <= DURATION_MAX
    ensures Jitter(p, key, attempt) <= p.jitterSeconds
  {
    var j := Jitter(p, key, attempt);
    assert j <= p.jitterSeconds;
    assert j * NANOS <= p.jitterSeconds * NANOS;
  }

  lemma {:induction false} Pow2Monotone(a: nat, b: nat)
    requires a <= b
    ensures 1 <= Pow2(a) <= Pow2(b)
    decreases b
  {
    if a < b {
      Pow2Monotone(a, b - 1);
    } else if a > 0 {
      Pow2Monotone(a - 1, a - 1);
    }
  }

  /** The base never shrinks from one attempt to a later one, and settles at attempt 6. */
  lemma BaseSettles(p: Policy, a: nat, b: nat)
    requires a <= b
    ensures Base(p, a) <= Base(p, b)
    ensures a >= 6 ==> Base(p, a) == Base(p, b) == Base(p, 6)
  {
    Pow2Monotone(Exponent(a), Exponent(b));
    var x, y := Pow2(Exponent(a)), Pow2(Exponent(b));
    assert p.initial * (y - x) >= 0;
    assert p.initial * y == p.initial * x + p.initial * (y - x);
  }

  /** From the first attempt on the base doubles five times, up to the cap less the jitter window. */
  lemma BaseDoubles(p: Policy, attempt: nat)
    requires Representable(p)
    ensures var cap := SaturatingSub(p.maximum, p.jitterSeconds * 1_000_000_000);
      && Base(p, 0) == Base(p, 1) == Min(p.initial, cap)
      && (1 <= attempt <= 5 ==> Base(p, attempt + 1) == Min(2 * Base(p, attempt), cap))
  {
    var x, cap := p.initial * Pow2(Exponent(attempt)), SaturatingSub(p.maximum, p.jitterSeconds * 1_000_000_000);
    assert forall y: nat :: Min(Min(y, DURATION_MAX), cap) == Min(y, cap);
    if 1 <= attempt <= 5 {
      assert Pow2(Exponent(attempt + 1)) == 2 * Pow2(Exponent(attempt));
      assert p.initial * Pow2(Exponent(attempt + 1)) == 2 * x;
    }
    assert Pow2(0) == 1;
  }

  // ---- the shipped jitter window of three seconds ------------------------------

  lemma WrapModulo4(x: nat)
    ensures x % WORD % 4 == x % 4
  {
    var q := x / WORD;
    assert x == 4 * (0x4000_0000_0000_0000 * q) + x % WORD;
    ShiftBy4(x % WORD, 0x4000_0000_0000_0000 * q);
  }

  lemma ShiftBy4(x: int, k: int)
    ensures (4 * k + x) % 4 == x % 4
  {
  }

  /** Modulo 4 the wrap at 2^64 is invisible and multiplying by 31 flips the sign. */
  lemma MixModulo4(state: nat, byte: Byte)
    ensures Mix(state, byte) % 4 == (byte - state) % 4
  {
    WrapModulo4(state * 31);
    WrapModulo4(state * 31 % WORD + byte);
    ShiftBy4(byte - state, 8 * state);
    SameModulo4(state * 31 % WORD, state * 31, byte);
    assert 4 * (8 * state) + (byte - state) == state * 31 + byte;
  }

  lemma SameModulo4(x: int, y: int, d: int)
    requires x % 4 == y % 4
    ensures (x + d) % 4 == (y + d) % 4
  {
  }

  /** The alternating byte sum that the seed depends on, modulo 4. */
  function Alternating(n: nat): int {
    n % 256 - n / 256 % 256 + n / 256 / 256 % 256 - n / 256 / 256 / 256
  }

  lemma Flip(g: int, b: int, f: int, s: int)
    requires g % 4 == (b - f) % 4 && f % 4 == s % 4
    ensures g % 4 == (b - s) % 4
  {
    assert (b - f) - (b - s) == s - f;
  }

  /** Four sign flips. */
  lemma Unwind(f0: int, f1: int, f2: int, f3: int, f4: int, b0: int, b1: int, b2: int, b3: int)
    requires f1 % 4 == (b0 - f0) % 4 && f2 % 4 == (b1 - f1) % 4 && f3 % 4 == (b2 - f2) % 4 && f4 % 4 == (b3 - f3) % 4
    ensures f4 % 4 == (f0 + (b3 - b2 + b1 - b0)) % 4
  {
    Flip(f2, b1, f1, b0 - f0);
    Flip(f3, b2, f2, b1 - (b0 - f0));
    Flip(f4, b3, f3, b2 - (b1 - (b0 - f0)));
    assert b3 - (b2 - (b1 - (b0 - f0))) == f0 + (b3 - b2 + b1 - b0);
  }

  lemma SeedModulo4(key: Bytes, n: nat)
    requires n <= U32_MAX
    ensures Fold(0, key + AttemptBytes(n)) % 4 == (Fold(0, key) + Alternating(n)) % 4
  {
    var b := AttemptBytes(n);
    var k1, k2, k3, k4 := key + [b[0]], key + [b[0], b[1]], key + [b[0], b[1], b[2]], key + b;
    FoldLast(key, k1, b[0]);
    FoldLast(k1, k2, b[1]);
    FoldLast(k2, k3, b[2]);
    FoldLast(k3, k4, b[3]);
    Unwind(Fold(0, key), Fold(0, k1), Fold(0, k2), Fold(0, k3), Fold(0, k4), b[0], b[1], b[2], b[3]);
  }

  lemma FoldLast(front: Bytes, all: Bytes, byte: Byte)
    requires all == front + [byte]
    ensures Fold(0, all) % 4 == (byte - Fold(0, front)) % 4
  {
    assert all[..|front|] == front;
    MixModulo4(Fold(0, front), byte);
  }

  /** A carry out of an odd number of low bytes: of the lowest only, or of the lowest three. */
  predicate OddCarry(k: nat) {
    k % 256 == 0 && (k / 256 % 256 != 0 || k / 256 / 256 % 256 == 0)
  }

  /** Counting up by one moves the seed by one, except across an odd carry, where it stays. */
  lemma AlternatingStep(n: nat)
    requires n < U32_MAX
    ensures (Alternating(n + 1) - Alternating(n)) % 4 == if OddCarry(n + 1) then 0 else 1
  {
    var q1, q2 := n / 256, n / 256 / 256;
    if n % 256 < 255 {
      assert (n + 1) / 256 == q1;
    } else {
      assert (n + 1) / 256 == q1 + 1;
      if q1 % 256 < 255 {
        assert (q1 + 1) / 256 == q2;
      } else {
        assert (q1 + 1) / 256 == q2 + 1;
        if q2 % 256 < 255 {
          assert (q2 + 1) / 256 == q2 / 256;
        } else {
          assert (q2 + 1) / 256 == q2 / 256 + 1;
        }
      }
    }
  }

  lemma JitterModulo4(p: Policy, key: Bytes, n: nat)
    requires p.jitterSeconds == 3 && n <= U32_MAX
    ensures Jitter(p, key, n) == (Fold(0, key) + Alternating(n)) % 4
  {
    SeedModulo4(key, n);
  }

  lemma Advance(f: int, a: int, b: int, stays: bool)
    requires (b - a) % 4 == if stays then 0 else 1
    ensures (f + b) % 4 == if stays then (f + a) % 4 else ((f + a) % 4 + 1) % 4
  {
  }

  /** Successive offsets under the shipped policies, which jitter by 0 to 3 seconds. */
  lemma OffsetStep(p: Policy, key: Bytes, n: nat, now: nat, next: nat)
    requires p.jitterSeconds == 3 && n < U32_MAX
    requires now == Jitter(p, key, n) && next == Jitter(p, key, n + 1)
    ensures now < 4
    ensures next == if OddCarry(n + 1) then now else (now + 1) % 4
  {
    var f, a, b, stays := Fold(0, key), Alternating(n), Alternating(n + 1), OddCarry(n + 1);
    assert now == (f + a) % 4 by { JitterModulo4(p, key, n); }
    assert next == (f + b) % 4 by { JitterModulo4(p, key, n + 1); }
    assert (b - a) % 4 == if stays then 0 else 1 by { AlternatingStep(n); }
    Advance(f, a, b, stays);
  }

  /** Four consecutive attempts take all four offsets exactly when counting through them makes
      no odd carry. */
  lemma FourOffsets(p: Policy, key: Bytes, n: nat)
    requires p.jitterSeconds == 3 && n + 3 <= U32_MAX
    ensures {Jitter(p, key, n), Jitter(p, key, n + 1), Jitter(p, key, n + 2), Jitter(p, key, n + 3)} == {0, 1, 2, 3}
      <==> !OddCarry(n + 1) && !OddCarry(n + 2) && !OddCarry(n + 3)
  {
    var o0, o1, o2, o3 := Jitter(p, key, n), Jitter(p, key, n + 1), Jitter(p, key, n + 2), Jitter(p, key, n + 3);
    OffsetStep(p, key, n, o0, o1);
    OffsetStep(p, key, n + 1, o1, o2);
    OffsetStep(p, key, n + 2, o2, o3);
    FourSteps(o0, o1, o2, o3, OddCarry(n + 1), OddCarry(n + 2), OddCarry(n + 3));
  }

  /** Attempts that do not cross a multiple of 256 make no carry at all. */
  lemma WithinBlock(n: nat)
    requires n / 256 == (n + 3) / 256
    ensures !OddCarry(n + 1) && !OddCarry(n + 2) && !OddCarry(n + 3)
  {
    assert n % 256 + 3 < 256;
    WithinOne(n, 1);
    WithinOne(n, 2);
    WithinOne(n, 3);
  }

  lemma WithinOne(n: nat, k: nat)
    requires 0 < k && n % 256 + k < 256
    ensures (n + k) % 256 == n % 256 + k
  {
    assert n == n / 256 * 256 + n % 256;
  }

  lemma FourSteps(o0: nat, o1: nat, o2: nat, o3: nat, c1: bool, c2: bool, c3: bool)
    requires o0 < 4
    requires o1 == if c1 then o0 else (o0 + 1) % 4
    requires o2 == if c2 then o1 else (o1 + 1) % 4
    requires o3 == if c3 then o2 else (o2 + 1) % 4
    ensures {o0, o1, o2, o3} == {0, 1, 2, 3} <==> !c1 && !c2 && !c3
  {
    var s := {o0, o1, o2, o3};
    if s == {0, 1, 2, 3} {
      assert 0 in s && 1 in s && 2 in s && 3 in s;
    }
  }

  /** The first block boundary repeats an offset: attempts 255 and 256 wait equally long. */
  lemma BlockBoundaryRepeats(p: Policy, key: Bytes)
    requires p.jitterSeconds == 3
    ensures Jitter(p, key, 255) == Jitter(p, key, 256)
  {
    OffsetStep(p, key, 255, Jitter(p, key, 255), Jitter(p, key, 256));
  }
}
