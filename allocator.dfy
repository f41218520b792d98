/**
 * The free-space histogram of the BlueStore allocator
 * (os/bluestore/Allocator.cc): every free extent is counted in a bucket by
 * its length, and its part after rounding its offset up to the allocation
 * unit is counted in a bucket by the aligned length, together with the
 * number of whole allocation units it holds. The admin command that asks
 * for the histogram validates its two parameters first.
 *
 * The bucket geometry of free_state_hist_bucket (os/bluestore/Allocator.h,
 * not part of this model) enters as parameters: bucket 0 holds lengths up
 * to base = 2^baseBits, each further bucket spans `mux` powers of two, and
 * the last one holds everything longer than the bucket before it.
 */
module Allocator {
  import opened MachineInt
  import opened Wrappers

  function Pow2(k: nat): (r: nat)
    ensures r >= 1
  {
    if k == 0 then 1 else 2 * Pow2(k - 1)
  }

  lemma {:induction false} Pow2Monotone(a: nat, b: nat)
    requires a <= b
    ensures Pow2(a) <= Pow2(b)
    decreases b
  {
    if a < b {
      Pow2Monotone(a, b - 1);
    }
  }

  /** cbits (include/intarith.h): the number of significant bits of `v`. */
  function BitLength(v: nat): nat
  {
    if v == 0 then 0 else 1 + BitLength(v / 2)
  }

  /** A non-zero value lies between the powers of two around its bit length. */
  lemma {:induction false} BitLengthBounds(v: nat)
    requires v > 0
    ensures BitLength(v) >= 1
    ensures Pow2(BitLength(v) - 1) <= v < Pow2(BitLength(v))
  {
    if v > 1 {
      BitLengthBounds(v / 2);
    }
  }

  /** The bucket geometry: base = 2^baseBits, `mux` powers of two per bucket. */
  datatype BucketParams = BucketParams(baseBits: nat, mux: nat)

  function Base(p: BucketParams): nat
  {
    Pow2(p.baseBits)
  }

  /**
   * m * b spelled out as repeated addition and d / m as repeated
   * subtraction, so that the bucket proofs stay in linear arithmetic;
   * TimesIsMul and QuotIsDiv tie both to the operators the code uses.
   */
  function Times(m: nat, b: nat): nat
  {
    if b == 0 then 0 else Times(m, b - 1) + m
  }

  function Quot(d: nat, m: nat): nat
    requires m >= 1
    decreases d
  {
    if d < m then 0 else 1 + Quot(d - m, m)
  }

  lemma {:induction false} TimesIsMul(m: nat, b: nat)
    ensures Times(m, b) == m * b
  {
    if b > 0 {
      TimesIsMul(m, b - 1);
      assert m * b == m * (b - 1) + m;
    }
  }

  lemma {:induction false} TimesMonotone(m: nat, a: nat, b: nat)
    requires a <= b
    ensures Times(m, a) <= Times(m, b)
    decreases b
  {
    if a < b {
      TimesMonotone(m, a, b - 1);
    }
  }

  /** The multiples of m are ordered as their factors. */
  lemma TimesOrder(m: nat, a: nat, b: nat)
    requires Times(m, a) < Times(m, b)
    ensures a < b
  {
    if a >= b {
      TimesMonotone(m, b, a);
      assert false;
    }
  }

  /** The quotient is the q with m * q <= d < m * (q + 1). */
  lemma {:induction false} QuotBounds(d: nat, m: nat)
    requires m >= 1
    ensures Times(m, Quot(d, m)) <= d < Times(m, Quot(d, m) + 1)
    decreases d
  {
    if d >= m {
      QuotBounds(d - m, m);
      var q := Quot(d - m, m);
      assert Times(m, q + 2) == Times(m, q + 1) + m;
    }
  }

  lemma QuotUnique(d: nat, m: nat, q: nat)
    requires m >= 1 && Times(m, q) <= d < Times(m, q + 1)
    ensures Quot(d, m) == q
  {
    QuotBounds(d, m);
    TimesOrder(m, q, Quot(d, m) + 1);
    TimesOrder(m, Quot(d, m), q + 1);
  }

  lemma QuotIsDiv(d: nat, m: nat)
    requires m >= 1
    ensures Quot(d, m) == d / m
  {
    var q := Quot(d, m);
    QuotBounds(d, m);
    TimesIsMul(m, q);
    TimesIsMul(m, q + 1);
    assert m * (q + 1) == m * q + m;
    DivModUnique(d, m, q, d - m * q);
  }

  /** The exponent of get_max(b): base << (mux * b) is 2^(baseBits + mux * b). */
  function Exponent(p: BucketParams, b: nat): nat
  {
    p.baseBits + Times(p.mux, b)
  }

  /** A histogram shape the code handles: at least one bucket (asserted) and a positive `mux`. */
  predicate ShapeOk(p: BucketParams, n: nat)
  {
    n >= 1 && p.mux >= 1
  }

  /**
   * get_max(b, n): the largest length bucket `b` holds; the last one holds
   * any. A bound beyond the uint64_t range saturates at its maximum, which
   * is the intended reading (see BucketIndexAsWrittenLumpsAboveBase).
   */
  function GetMax(p: BucketParams, b: nat, n: nat): (r: nat)
    ensures r <= U64_MAX
    ensures b + 1 < n ==> r <= Pow2(Exponent(p, b))
  {
    if b + 1 < n && Pow2(Exponent(p, b)) <= U64_MAX then Pow2(Exponent(p, b)) else U64_MAX
  }

  /** The largest length tracked below the last bucket, get_max(n - 2, n). */
  function MaxTracked(p: BucketParams, n: nat): nat
    requires n >= 1
  {
    if n >= 2 then GetMax(p, n - 2, n) else U64_MAX
  }

  /** The powers of two grow strictly, so their order is the exponents' order. */
  lemma Pow2Order(a: nat, b: nat)
    requires Pow2(a) < Pow2(b)
    ensures a < b
  {
    if a >= b {
      Pow2Monotone(b, a);
      assert false;
    }
  }

  lemma MulLe(a: int, b: int, m: nat)
    requires a <= b
    ensures a * m <= b * m
  {
    assert b * m - a * m == (b - a) * m;
  }

  /** Quotient and remainder are the unique q, rm with a == q * m + rm and 0 <= rm < m. */
  lemma DivModUnique(a: int, m: int, q: int, rm: int)
    requires m > 0 && 0 <= rm < m && a == q * m + rm
    ensures a / m == q && a % m == rm
  {
    var q0 := a / m;
    if q0 < q {
      MulLe(q0 + 1, q, m);
      assert false;
    }
    if q0 > q {
      MulLe(q + 1, q0, m);
      assert false;
    }
  }

  /**
   * The bucket of a length above base and up to the tracked maximum:
   * 1 + (msb(len - 1) - baseBits) / mux.
   */
  function InnerBucket(p: BucketParams, len: nat): (idx: nat)
    requires p.mux >= 1 && len > Base(p)
    ensures idx >= 1
  {
    BitLengthBounds(len - 1);
    var mostBit := BitLength(len - 1) - 1;
    Pow2Order(p.baseBits, mostBit + 1);
    1 + Quot(mostBit - p.baseBits, p.mux)
  }

  /**
   * The bucket of a length: bucket 0 up to base, the last bucket above the
   * tracked maximum, otherwise InnerBucket. With one bucket a length above
   * base would fail the idx < num_buckets assert.
   */
  function BucketIndex(p: BucketParams, n: nat, len: nat): (idx: nat)
    requires ShapeOk(p, n) && len < U64_MOD
    requires n == 1 ==> len <= Base(p)
    ensures idx < n
    ensures len <= Base(p) ==> idx == 0
    ensures len > Base(p) && len > MaxTracked(p, n) ==> idx == n - 1
  {
    if len <= Base(p) then 0
    else if len > MaxTracked(p, n) then n - 1
    else
      BitLengthBounds(len - 1);
      var mostBit := BitLength(len - 1) - 1;
      Pow2Order(p.baseBits, mostBit + 1);
      Pow2Order(mostBit, Exponent(p, n - 2));
      QuotBounds(mostBit - p.baseBits, p.mux);
      TimesOrder(p.mux, Quot(mostBit - p.baseBits, p.mux), n - 2);
      InnerBucket(p, len)
  }

  /**
   * An inner bucket k holds exactly the lengths above get_max(k - 1) and up
   * to get_max(k): every such length lands in k ...
   */
  lemma BucketRangeComplete(p: BucketParams, n: nat, len: nat, k: nat)
    requires ShapeOk(p, n) && len < U64_MOD && n >= 2
    requires 1 <= k && k + 2 <= n
    requires GetMax(p, k - 1, n) < len <= GetMax(p, k, n)
    ensures BucketIndex(p, n, len) == k
  {
    assert GetMax(p, k - 1, n) == Pow2(Exponent(p, k - 1));
    TimesMonotone(p.mux, 0, k - 1);
    Pow2Monotone(p.baseBits, Exponent(p, k - 1));
    GetMaxMonotone(p, k, n - 2, n);
    InnerBucketOf(p, len, k);
  }

  /** The bounds grow with the bucket. */
  lemma GetMaxMonotone(p: BucketParams, a: nat, b: nat, n: nat)
    requires a <= b && b + 1 < n
    ensures GetMax(p, a, n) <= GetMax(p, b, n)
  {
    TimesMonotone(p.mux, a, b);
    Pow2Monotone(Exponent(p, a), Exponent(p, b));
  }

  /** A length above 2^Exponent(k - 1) and up to 2^Exponent(k) has inner bucket k. */
  lemma InnerBucketOf(p: BucketParams, len: nat, k: nat)
    requires p.mux >= 1 && k >= 1 && len > Base(p)
    requires Pow2(Exponent(p, k - 1)) < len <= Pow2(Exponent(p, k))
    ensures InnerBucket(p, len) == k
  {
    MostBitBetween(p, len, k);
    var d := BitLength(len - 1) - 1 - p.baseBits;
    assert Times(p.mux, k - 1) <= d < Times(p.mux, (k - 1) + 1);
    QuotUnique(d, p.mux, k - 1);
  }

  /** The top bit of len - 1 for such a length lies in [Exponent(k - 1), Exponent(k)). */
  lemma MostBitBetween(p: BucketParams, len: nat, k: nat)
    requires k >= 1 && len > 1
    requires Pow2(Exponent(p, k - 1)) < len <= Pow2(Exponent(p, k))
    ensures BitLength(len - 1) >= 1
    ensures Exponent(p, k - 1) <= BitLength(len - 1) - 1 < Exponent(p, k)
  {
    BitLengthBounds(len - 1);
    var mostBit := BitLength(len - 1) - 1;
    Pow2Order(Exponent(p, k - 1), mostBit + 1);
    Pow2Order(mostBit, Exponent(p, k));
  }

  /** ... and every length in k lies in that range. */
  lemma BucketRangeSound(p: BucketParams, n: nat, len: nat, k: nat)
    requires ShapeOk(p, n) && len < U64_MOD && n >= 2
    requires 1 <= k && k + 2 <= n
    requires BucketIndex(p, n, len) == k
    ensures GetMax(p, k - 1, n) < len <= GetMax(p, k, n)
  {
    assert Base(p) < len <= MaxTracked(p, n);
    BitLengthBounds(len - 1);
    var mostBit := BitLength(len - 1) - 1;
    Pow2Order(p.baseBits, mostBit + 1);
    var d := mostBit - p.baseBits;
    assert Quot(d, p.mux) == k - 1;
    QuotBounds(d, p.mux);
    Pow2Monotone(Exponent(p, k - 1), mostBit);
    Pow2Monotone(mostBit + 1, Exponent(p, k));
  }

  /**
   * get_max(n - 2, n) as written: base << (mux * (n - 2)) in 64 bits, which
   * drops the bits shifted out and is undefined (None) for a shift of 64 or
   * more.
   */
  function MaxTrackedAsWritten(p: BucketParams, n: nat): (r: Option<nat>)
    requires n >= 2
    ensures r.Some? ==> r.value <= U64_MAX
    ensures Times(p.mux, n - 2) >= 64 ==> r.None?
  {
    var shift := Times(p.mux, n - 2);
    if p.baseBits < 64 && shift < 64 then Some((((1 as bv64) << p.baseBits) << shift) as nat)
    else None
  }

  /** The bucket of a length as written, None where the shift is undefined. */
  function BucketIndexAsWritten(p: BucketParams, n: nat, len: nat): (r: Option<nat>)
    requires ShapeOk(p, n) && n >= 2
    ensures r.None? ==> len > Base(p)
    ensures r.Some? && r.value == 0 ==> len <= Base(p)
  {
    if len <= Base(p) then Some(0)
    else
      match MaxTrackedAsWritten(p, n)
      case None => None
      case Some(max) => if len > max then Some(n - 1) else Some(InnerBucket(p, len))
  }

  /**
   * With 12 base bits and 2 powers of two per bucket, 28 buckets make the
   * tracked maximum 4096 << 52, which leaves 64 bits and is 0: an 8192-byte
   * extent, which belongs in bucket 1, is counted in the last bucket. From
   * 34 buckets on the shift itself is undefined.
   */
  lemma BucketIndexAsWrittenLumpsAboveBase()
    ensures MaxTrackedAsWritten(BucketParams(12, 2), 28) == Some(0)
    ensures BucketIndexAsWritten(BucketParams(12, 2), 28, 8192) == Some(27)
    ensures BucketIndex(BucketParams(12, 2), 28, 8192) == 1
    ensures MaxTrackedAsWritten(BucketParams(12, 2), 34).None?
  {
    MaxTrackedAsWrittenWraps();
    BucketOf8192();
  }

  lemma MaxTrackedAsWrittenWraps()
    ensures MaxTrackedAsWritten(BucketParams(12, 2), 28) == Some(0)
    ensures MaxTrackedAsWritten(BucketParams(12, 2), 34).None?
  {
    TimesIsMul(2, 26);
    TimesIsMul(2, 32);
    assert MaxTrackedAsWritten(BucketParams(12, 2), 28) == Some((((1 as bv64) << 12) << 52) as nat);
    assert (((1 as bv64) << 12) << 52) as nat == 0;
  }

  /** 8192 lies between get_max(0) = 4096 and get_max(1) = 16384, so in bucket 1. */
  lemma BucketOf8192()
    ensures BucketIndex(BucketParams(12, 2), 28, 8192) == 1
  {
    var p := BucketParams(12, 2);
    assert Exponent(p, 0) == 12 && Exponent(p, 1) == 14;
    assert Pow2(12) == 4096;
    assert Pow2(14) == 16384;
    BucketRangeComplete(p, 28, 8192, 1);
  }

  lemma DivAtLeast(a: nat, m: nat, k: nat)
    requires m >= 1 && m * k <= a
    ensures k <= a / m
  {
    var q := a / m;
    if q < k {
      MulLe(q + 1, k, m);
      assert false;
    }
  }

  /** p2roundup as written, -(-x & -align) in uint64_t; exact only for powers of two. */
  function P2RoundupAsWritten(x: bv64, align: bv64): bv64
  {
    0 - ((0 - x) & (0 - align))
  }

  /**
   * For a power-of-two unit, the one p2roundup is written for, the result
   * as written does land on a multiple of the unit: its low bits are clear.
   */
  lemma P2RoundupAsWrittenAlignedForPowerOfTwo(x: bv64, align: bv64)
    requires align != 0 && align & (align - 1) == 0
    ensures P2RoundupAsWritten(x, align) & (align - 1) == 0
  {
  }

  /** Rounding up to the next multiple of `align`, which p2roundup means. */
  function RoundUp(x: nat, align: nat): (r: nat)
    requires align > 0
    ensures r % align == 0 && x <= r < x + align
  {
    var q := (x + align - 1) / align;
    DivModUnique(q * align, align, q, 0);
    q * align
  }

  /** RoundUp gives the least multiple of `align` at or above `x`. */
  lemma RoundUpIsLeast(x: nat, align: nat, m: nat)
    requires align > 0 && m % align == 0 && x <= m
    ensures RoundUp(x, align) <= m
  {
    var r := RoundUp(x, align);
    var q := (x + align - 1) / align;
    var a := m / align;
    assert m == a * align;
    if m < r {
      if q <= a {
        MulLe(q, a, align);
        assert false;
      } else {
        MulLe(a + 1, q, align);
        assert false;
      }
    }
  }

  /**
   * With the 3 * 4 KiB allocation unit the command accepts, the rounding as
   * written leaves offset 16384 where it is, though it is no multiple of
   * 12288, and moves 8192 past the next multiple.
   */
  lemma P2RoundupAsWrittenMisrounds()
    ensures P2RoundupAsWritten(16384, 12288) == 16384 && 16384 % 12288 != 0
    ensures RoundUp(16384, 12288) == 24576
    ensures P2RoundupAsWritten(8192, 12288) == 16384 && RoundUp(8192, 12288) == 12288
  {
  }

  /**
   * The part of a free extent the aligned count considers, as written: the
   * length after the offset is rounded up, when at least one unit remains.
   */
  function AlignedRemainderAsWritten(off: bv64, len: bv64, allocUnit: bv64): (r: Option<nat>)
    ensures r.Some? ==> allocUnit as int <= r.value <= len as int
  {
    var delta := (P2RoundupAsWritten(off, allocUnit) - off) as int;
    if len as int >= delta + allocUnit as int then Some(len as int - delta) else None
  }

  /**
   * The same with the offset rounded up to a true multiple of the unit, the
   * corrected rounding the histogram below is built on.
   */
  function AlignedRemainder(off: nat, len: nat, allocUnit: nat): (r: Option<nat>)
    requires allocUnit > 0
    ensures r.Some? ==> RoundUp(off, allocUnit) + r.value == off + len
  {
    var delta := RoundUp(off, allocUnit) - off;
    if len >= delta + allocUnit then Some(len - delta) else None
  }

  /**
   * The free extent [16384, 28672) holds no 12288-aligned unit, yet the
   * code as written counts one.
   */
  lemma AlignedCountAsWrittenCountsMisalignedUnit()
    ensures AlignedRemainderAsWritten(16384, 12288, 12288) == Some(12288)
    ensures AlignedRemainder(16384, 12288, 12288) == None
  {
    P2RoundupAsWrittenMisrounds();
  }

  /**
   * The allocation units counted for an extent are exactly the whole
   * aligned units inside it: they fit, and one more would not.
   */
  lemma AlignedUnitsAreWholeUnits(off: nat, len: nat, allocUnit: nat)
    requires allocUnit > 0
    ensures AlignedRemainder(off, len, allocUnit).Some? ==>
              (var units := AlignedRemainder(off, len, allocUnit).value / allocUnit;
               units >= 1
               && RoundUp(off, allocUnit) + units * allocUnit <= off + len
               && RoundUp(off, allocUnit) + (units + 1) * allocUnit > off + len)
    ensures AlignedRemainder(off, len, allocUnit).None? ==> RoundUp(off, allocUnit) + allocUnit > off + len
  {
    var r := AlignedRemainder(off, len, allocUnit);
    if r.Some? {
      var q := r.value / allocUnit;
      assert r.value == q * allocUnit + r.value % allocUnit;
      DivAtLeast(r.value, allocUnit, 1);
    }
  }

  /** One bucket of the histogram (free_state_hist_bucket's counters). */
  datatype HistBucket = HistBucket(total: nat, aligned: nat, allocUnits: nat)

  datatype FreeExtent = FreeExtent(off: nat, len: nat)

  /** The extents a histogram with this shape can take without tripping the bucket assert. */
  predicate Countable(p: BucketParams, n: nat, e: FreeExtent)
  {
    e.len < U64_MOD && (n == 1 ==> e.len <= Base(p))
  }

  function AddTotal(h: seq<HistBucket>, i: nat): seq<HistBucket>
    requires i < |h|
  {
    h[i := HistBucket(h[i].total + 1, h[i].aligned, h[i].allocUnits)]
  }

  function AddAligned(h: seq<HistBucket>, i: nat, units: nat): seq<HistBucket>
    requires i < |h|
  {
    h[i := HistBucket(h[i].total, h[i].aligned + 1, h[i].allocUnits + units)]
  }

  /**
   * Where the aligned part of an extent is counted: its bucket and the
   * allocation units it holds, or None when it holds none.
   */
  function AlignedBucket(p: BucketParams, allocUnit: nat, n: nat, e: FreeExtent): (r: Option<(nat, nat)>)
    requires ShapeOk(p, n) && allocUnit > 0 && Countable(p, n, e)
    ensures r.Some? ==> r.value.0 < n
  {
    var rest := AlignedRemainder(e.off, e.len, allocUnit);
    if rest.None? then None
    else Some((BucketIndex(p, n, rest.value), rest.value / allocUnit))
  }

  /** The total of bucket i goes up, and the aligned counters of `aligned`'s bucket. */
  function CountAt(h: seq<HistBucket>, i: nat, aligned: Option<(nat, nat)>): (r: seq<HistBucket>)
    requires i < |h| && (aligned.Some? ==> aligned.value.0 < |h|)
    ensures |r| == |h|
  {
    var h1 := AddTotal(h, i);
    if aligned.None? then h1 else AddAligned(h1, aligned.value.0, aligned.value.1)
  }

  /** The histogram after one more free extent is counted. */
  function CountExtent(p: BucketParams, allocUnit: nat, h: seq<HistBucket>, e: FreeExtent): (r: seq<HistBucket>)
    requires ShapeOk(p, |h|) && allocUnit > 0 && Countable(p, |h|, e)
    ensures |r| == |h|
  {
    CountAt(h, BucketIndex(p, |h|, e.len), AlignedBucket(p, allocUnit, |h|, e))
  }

  /** The histogram after every extent of `es` is counted, in order. */
  function CountAll(p: BucketParams, allocUnit: nat, h: seq<HistBucket>, es: seq<FreeExtent>): (r: seq<HistBucket>)
    requires ShapeOk(p, |h|) && allocUnit > 0
    requires forall i :: 0 <= i < |es| ==> Countable(p, |h|, es[i])
    ensures |r| == |h|
    decreases |es|
  {
    if |es| == 0 then h
    else CountAll(p, allocUnit, CountExtent(p, allocUnit, h, es[0]), es[1..])
  }

  function SumTotals(h: seq<HistBucket>): nat
  {
    if |h| == 0 then 0 else SumTotals(h[..|h| - 1]) + h[|h| - 1].total
  }

  lemma {:induction false} SumTotalsBump(h: seq<HistBucket>, i: nat, b: HistBucket)
    requires i < |h| && b.total == h[i].total + 1
    ensures SumTotals(h[i := b]) == SumTotals(h) + 1
    decreases |h|
  {
    var h' := h[i := b];
    assert h'[..|h| - 1] == if i < |h| - 1 then h[..|h| - 1][i := b] else h[..|h| - 1];
    if i < |h| - 1 {
      SumTotalsBump(h[..|h| - 1], i, b);
    }
  }

  lemma {:induction false} SumTotalsSame(h: seq<HistBucket>, i: nat, b: HistBucket)
    requires i < |h| && b.total == h[i].total
    ensures SumTotals(h[i := b]) == SumTotals(h)
    decreases |h|
  {
    var h' := h[i := b];
    assert h'[..|h| - 1] == if i < |h| - 1 then h[..|h| - 1][i := b] else h[..|h| - 1];
    if i < |h| - 1 {
      SumTotalsSame(h[..|h| - 1], i, b);
    }
  }

  lemma AddTotalCounts(h: seq<HistBucket>, i: nat)
    requires i < |h|
    ensures SumTotals(AddTotal(h, i)) == SumTotals(h) + 1
  {
    SumTotalsBump(h, i, HistBucket(h[i].total + 1, h[i].aligned, h[i].allocUnits));
  }

  lemma AddAlignedKeepsTotals(h: seq<HistBucket>, i: nat, units: nat)
    requires i < |h|
    ensures SumTotals(AddAligned(h, i, units)) == SumTotals(h)
  {
    SumTotalsSame(h, i, HistBucket(h[i].total, h[i].aligned + 1, h[i].allocUnits + units));
  }

  /** Every free extent adds one to the total of exactly one bucket. */
  lemma CountAtAddsOneTotal(h: seq<HistBucket>, i: nat, aligned: Option<(nat, nat)>)
    requires i < |h| && (aligned.Some? ==> aligned.value.0 < |h|)
    ensures SumTotals(CountAt(h, i, aligned)) == SumTotals(h) + 1
  {
    AddTotalCounts(h, i);
    if aligned.Some? {
      AddAlignedKeepsTotals(AddTotal(h, i), aligned.value.0, aligned.value.1);
    }
  }

  /** The totals of a histogram built over `es` count the extents. */
  lemma {:induction false} CountAllCountsExtents(p: BucketParams, allocUnit: nat, h: seq<HistBucket>, es: seq<FreeExtent>)
    requires ShapeOk(p, |h|) && allocUnit > 0
    requires forall i :: 0 <= i < |es| ==> Countable(p, |h|, es[i])
    ensures SumTotals(CountAll(p, allocUnit, h, es)) == SumTotals(h) + |es|
    decreases |es|
  {
    if |es| > 0 {
      CountAtAddsOneTotal(h, BucketIndex(p, |h|, es[0].len), AlignedBucket(p, allocUnit, |h|, es[0]));
      CountAllCountsExtents(p, allocUnit, CountExtent(p, allocUnit, h, es[0]), es[1..]);
    }
  }

  /**
   * The body of the foreach: the extent's length is counted in its bucket,
   * then, when the part after the rounded-up offset holds an allocation
   * unit, that part in the bucket of its length with its whole units.
   */
  method CountExtentInPlace(p: BucketParams, allocUnit: nat, hist: array<HistBucket>, e: FreeExtent)
    requires ShapeOk(p, hist.Length) && allocUnit > 0 && Countable(p, hist.Length, e)
    modifies hist
    ensures hist[..] == CountExtent(p, allocUnit, old(hist[..]), e)
  {
    var idx := BucketIndex(p, hist.Length, e.len);
    hist[idx] := HistBucket(hist[idx].total + 1, hist[idx].aligned, hist[idx].allocUnits);
    assert hist[..] == AddTotal(old(hist[..]), idx);
    // the offset rounded up to the unit (RoundUp, the intended p2roundup), the test against len, then the bucket of the rest
    var aligned := AlignedBucket(p, allocUnit, hist.Length, e);
    if aligned.Some? {
      ghost var mid := hist[..];
      var (i, units) := aligned.value;
      hist[i] := HistBucket(hist[i].total, hist[i].aligned + 1, hist[i].allocUnits + units);
      assert hist[..] == AddAligned(mid, i, units);
    }
  }

  /**
   * build_free_state_histogram: counts every free extent the allocator
   * reports (given here as `extents`, in the order foreach visits them)
   * into `hist`, in place.
   */
  method BuildFreeStateHistogram(p: BucketParams, allocUnit: nat, hist: array<HistBucket>,
                                 extents: seq<FreeExtent>)
    requires ShapeOk(p, hist.Length) && allocUnit > 0
    requires forall i :: 0 <= i < |extents| ==> Countable(p, hist.Length, extents[i])
    modifies hist
    ensures hist[..] == CountAll(p, allocUnit, old(hist[..]), extents)
    ensures SumTotals(hist[..]) == SumTotals(old(hist[..])) + |extents|
  {
    var k := 0;
    while k < |extents|
      invariant 0 <= k <= |extents|
      invariant CountAll(p, allocUnit, hist[..], extents[k..]) == CountAll(p, allocUnit, old(hist[..]), extents)
    {
      CountExtentInPlace(p, allocUnit, hist, extents[k]);
      assert extents[k..][1..] == extents[k + 1..];
      k := k + 1;
    }
    assert hist[..] == CountAll(p, allocUnit, hist[..], extents[k..]);
    CountAllCountsExtents(p, allocUnit, old(hist[..]), extents);
  }

  const EINVAL: int := 22

  /** The parameters the histogram command goes on with. */
  datatype HistogramRequest = HistogramRequest(allocUnit: int, numBuckets: int)

  /**
   * The parameter check of "bluestore allocator fragmentation histogram":
   * alloc_unit (default 4096) must be non-zero and a multiple of the
   * block size, num_buckets (default 8) at least 2; otherwise -EINVAL.
   */
  function ValidateHistogramCommand(allocUnit: Option<int>, numBuckets: Option<int>, blockSize: nat)
    : (r: Result<HistogramRequest, int>)
    requires blockSize > 0
    ensures r.Err? ==> r.error == -EINVAL
    ensures r.Ok? <==> (var au := if allocUnit.Some? then allocUnit.value else 4096;
                        var nb := if numBuckets.Some? then numBuckets.value else 8;
                        au != 0 && au % blockSize == 0 && nb >= 2)
    ensures r.Ok? ==> r.value.numBuckets >= 2 && r.value.allocUnit != 0
    ensures r.Ok? ==> r.value == HistogramRequest(if allocUnit.Some? then allocUnit.value else 4096,
                                                  if numBuckets.Some? then numBuckets.value else 8)
  {
    var au := if allocUnit.Some? then allocUnit.value else 4096;
    if au == 0 || au % blockSize != 0 then Err(-EINVAL)
    else
      var nb := if numBuckets.Some? then numBuckets.value else 8;
      if nb < 2 then Err(-EINVAL)
      else Ok(HistogramRequest(au, nb))
  }
}
