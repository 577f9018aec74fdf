/**
 The adaptive part sizes of a multipart upload, and the one way a stream of bytes is cut into
 parts: full parts of the scheduled sizes and a last one with what remains.
 */
module PartSchedule {
  import opened ByteStrings

  const INITIAL_PART_SIZE: nat := 8 * 1024 * 1024
  const PARTS_PER_DOUBLING: nat := 1000
  const MAX_DOUBLINGS: nat := 24

  function Pow2(n: nat): (p: nat)
    ensures p > 0
  {
    if n == 0 then 1 else 2 * Pow2(n - 1)
  }

  function Doublings(partsSent: nat): (n: nat)
    ensures n <= MAX_DOUBLINGS
  {
    if partsSent / PARTS_PER_DOUBLING < MAX_DOUBLINGS then partsSent / PARTS_PER_DOUBLING else MAX_DOUBLINGS
  }

  /** `INITIAL_PART_SIZE << doublings`. */
  function PartSize(partsSent: nat): (size: nat)
    ensures size >= INITIAL_PART_SIZE
  {
    Pow2(Doublings(partsSent)) * INITIAL_PART_SIZE
  }

  lemma {:induction false} Pow2Monotone(m: nat, n: nat)
    requires m <= n
    ensures Pow2(m) <= Pow2(n)
    decreases n
  {
    if m < n {
      Pow2Monotone(m, n - 1);
    }
  }

  /** The shift never leaves a 64-bit word: no part is larger than 2^47 bytes. */
  lemma PartSizeFits(partsSent: nat)
    ensures PartSize(partsSent) <= 0x8000_0000_0000
  {
    Pow2Monotone(Doublings(partsSent), MAX_DOUBLINGS);
    assert Pow2(8) == 256;
    assert Pow2(16) == 0x1_0000;
    assert Pow2(24) == 0x100_0000;
  }

  /** The schedule in numbers: 8 MiB, doubled every thousand parts, 24 times at most. */
  lemma ScheduleIs(n: nat)
    ensures n < 1_000 ==> PartSize(n) == 8_388_608
    ensures n < 24_000 ==> PartSize(n + 1_000) == 2 * PartSize(n)
    ensures n >= 24_000 ==> PartSize(n) == PartSize(24_000)
  {
    assert (n + 1_000) / PARTS_PER_DOUBLING == n / PARTS_PER_DOUBLING + 1;
  }

  /** The bytes in the first `n` full parts. */
  function SumSizes(n: nat): nat {
    if n == 0 then 0 else SumSizes(n - 1) + PartSize(n - 1)
  }

  /** The size of the parts in the k-th band of a thousand. */
  function BandSize(k: nat): nat {
    Pow2(k) * INITIAL_PART_SIZE
  }

  lemma SizeInBand(k: nat, j: nat)
    requires k <= MAX_DOUBLINGS && j < PARTS_PER_DOUBLING
    ensures PartSize(k * PARTS_PER_DOUBLING + j) == BandSize(k)
  {
    assert (k * PARTS_PER_DOUBLING + j) / PARTS_PER_DOUBLING == k;
  }

  lemma {:induction false} SumInBand(k: nat, j: nat)
    requires k <= MAX_DOUBLINGS && j <= PARTS_PER_DOUBLING
    ensures SumSizes(k * PARTS_PER_DOUBLING + j) == SumSizes(k * PARTS_PER_DOUBLING) + j * BandSize(k)
    decreases j
  {
    hide PartSize, BandSize;
    if j > 0 {
      SumInBand(k, j - 1);
      SizeInBand(k, j - 1);
      var i := k * PARTS_PER_DOUBLING + (j - 1);
      assert SumSizes(i + 1) == SumSizes(i) + PartSize(i);
      assert j * BandSize(k) == (j - 1) * BandSize(k) + BandSize(k);
    }
  }

  /** The first thousand-part bands carry 1000 * 8 MiB * (2^k - 1) bytes, up to the 25 that differ in size. */
  lemma {:induction false} SumOfBands(k: nat)
    requires k <= MAX_DOUBLINGS + 1
    ensures SumSizes(k * PARTS_PER_DOUBLING) == PARTS_PER_DOUBLING * INITIAL_PART_SIZE * (Pow2(k) - 1)
  {
    hide PartSize;
    if k > 0 {
      SumOfBands(k - 1);
      SumInBand(k - 1, PARTS_PER_DOUBLING);
      assert (k - 1) * PARTS_PER_DOUBLING + PARTS_PER_DOUBLING == k * PARTS_PER_DOUBLING;
      assert Pow2(k) == 2 * Pow2(k - 1);
    }
  }

  lemma {:induction false} SumMonotone(m: nat, n: nat)
    requires m < n
    ensures SumSizes(m) + INITIAL_PART_SIZE <= SumSizes(n)
    decreases n
  {
    if m < n - 1 {
      SumMonotone(m, n - 1);
    }
  }

  // Cutting.

  function FullParts(data: Bytes, k: nat): seq<Bytes>
    decreases |data|
  {
    if |data| < PartSize(k) then [] else [data[..PartSize(k)]] + FullParts(data[PartSize(k)..], k + 1)
  }

  function Rest(data: Bytes, k: nat): Bytes
    decreases |data|
  {
    if |data| < PartSize(k) then data else Rest(data[PartSize(k)..], k + 1)
  }

  /** At least one part is sent, even an empty one. */
  function PartsOf(data: Bytes): (parts: seq<Bytes>)
    ensures |parts| > 0
  {
    var full, rest := FullParts(data, 0), Rest(data, 0);
    if rest != [] || full == [] then full + [rest] else full
  }

  function Concat(parts: seq<Bytes>): Bytes {
    if parts == [] then [] else parts[0] + Concat(parts[1..])
  }

  lemma {:induction false} ConcatAppend(parts: seq<Bytes>, last: Bytes)
    ensures Concat(parts + [last]) == Concat(parts) + last
  {
    if parts == [] {
      assert Concat([last]) == last + Concat([]);
    } else {
      assert (parts + [last])[1..] == parts[1..] + [last];
      ConcatAppend(parts[1..], last);
    }
  }

  lemma {:induction false} CutIsLossless(data: Bytes, k: nat)
    ensures Concat(FullParts(data, k)) + Rest(data, k) == data
    ensures |Rest(data, k)| < PartSize(k + |FullParts(data, k)|)
    ensures forall i | 0 <= i < |FullParts(data, k)| :: |FullParts(data, k)[i]| == PartSize(k + i)
    decreases |data|
  {
    hide PartSize;
    var size := PartSize(k);
    if |data| >= size {
      var later := FullParts(data[size..], k + 1);
      CutIsLossless(data[size..], k + 1);
      assert ([data[..size]] + later)[1..] == later;
      assert data == data[..size] + data[size..];
      assert forall i | 0 < i < |later| + 1 :: FullParts(data, k)[i] == later[i - 1];
    }
  }

  /** The parts hold exactly the bytes, in order. */
  lemma PartsHoldTheBytes(data: Bytes)
    ensures Concat(PartsOf(data)) == data
  {
    CutIsLossless(data, 0);
    ConcatAppend(FullParts(data, 0), Rest(data, 0));
  }

  /** Every part but the last has its scheduled size; the last is no larger, and empty only when nothing was written. */
  lemma PartsHaveSizes(data: Bytes)
    ensures var parts := PartsOf(data);
            (forall i | 0 <= i < |parts| - 1 :: |parts[i]| == PartSize(i)) &&
            |parts[|parts| - 1]| <= PartSize(|parts| - 1) && (parts[|parts| - 1] == [] <==> data == [])
  {
    hide PartSize, FullParts, Rest;
    CutIsLossless(data, 0);
    PartsHoldTheBytes(data);
    var full := FullParts(data, 0);
    if full != [] {
      assert |full[|full| - 1]| == PartSize(0 + |full| - 1);
    }
    SizesArePositive();
  }

  lemma SizesArePositive()
    ensures forall n: nat :: PartSize(n) > 0
  {
  }

  /** There is no other way to cut: sizes and order determine the parts, so they depend on the bytes alone. */
  lemma {:induction false} CutIsUnique(parts: seq<Bytes>, rest: Bytes, k: nat)
    requires forall i | 0 <= i < |parts| :: |parts[i]| == PartSize(k + i)
    requires |rest| < PartSize(k + |parts|)
    ensures FullParts(Concat(parts) + rest, k) == parts && Rest(Concat(parts) + rest, k) == rest
    decreases |parts|
  {
    hide PartSize, FullParts, Rest;
    var data := Concat(parts) + rest;
    if parts == [] {
      assert data == rest;
      CutNothing(data, k);
    } else {
      var later := parts[1..];
      assert forall i | 0 <= i < |later| :: later[i] == parts[i + 1];
      CutIsUnique(later, rest, k + 1);
      var tail := Concat(later) + rest;
      assert data == parts[0] + tail;
      assert data[..PartSize(k)] == parts[0] && data[PartSize(k)..] == tail;
      CutStep(data, k);
    }
  }

  lemma CutStep(a: Bytes, k: nat)
    requires |a| >= PartSize(k)
    ensures FullParts(a, k) == [a[..PartSize(k)]] + FullParts(a[PartSize(k)..], k + 1)
    ensures Rest(a, k) == Rest(a[PartSize(k)..], k + 1)
  {
  }

  lemma CutNothing(a: Bytes, k: nat)
    requires |a| < PartSize(k)
    ensures FullParts(a, k) == [] && Rest(a, k) == a
  {
  }

  /** Cutting can be resumed: what was cut before more bytes arrived stays as it was. */
  lemma {:induction false} CutResumes(a: Bytes, b: Bytes, k: nat)
    ensures var n := |FullParts(a, k)|;
            FullParts(a + b, k) == FullParts(a, k) + FullParts(Rest(a, k) + b, k + n) &&
            Rest(a + b, k) == Rest(Rest(a, k) + b, k + n)
    decreases |a|
  {
    hide PartSize, FullParts, Rest;
    var size := PartSize(k);
    if |a| < size {
      CutNothing(a, k);
    } else {
      CutResumes(a[size..], b, k + 1);
      CutStep(a, k);
      CutStep(a + b, k);
      assert (a + b)[..size] == a[..size] && (a + b)[size..] == a[size..] + b;
    }
  }

  lemma {:induction false} FullPartsWeigh(data: Bytes, k: nat)
    ensures |data| == SumSizes(k + |FullParts(data, k)|) - SumSizes(k) + |Rest(data, k)|
    decreases |data|
  {
    hide PartSize;
    if |data| >= PartSize(k) {
      FullPartsWeigh(data[PartSize(k)..], k + 1);
      assert SumSizes(k + 1) == SumSizes(k) + PartSize(k);
    }
  }

  lemma TenBands()
    ensures SumSizes(10_000) == PARTS_PER_DOUBLING * INITIAL_PART_SIZE * 1023
  {
    SumOfBands(10);
    assert Pow2(5) == 32;
    assert Pow2(10) == 1024;
  }

  /** The service's 10,000-part ceiling is met exactly up to 1000 * 8 MiB * 1023 bytes, 7.8 TiB. */
  lemma PartCountLimit(data: Bytes)
    ensures |PartsOf(data)| <= 10_000 <==> |data| <= 8_581_545_984_000
  {
    hide PartSize, FullParts, Rest, SumSizes;
    var full, rest := FullParts(data, 0), Rest(data, 0);
    TenBands();
    FullPartsWeigh(data, 0);
    CutIsLossless(data, 0);
    SumFromZero();
    SumNext(|full|);
    if |full| + 1 < 10_000 {
      SumMonotone(|full| + 1, 10_000);
    } else if |full| > 10_000 {
      SumMonotone(10_000, |full|);
    }
  }

  lemma SumFromZero()
    ensures SumSizes(0) == 0
  {
  }

  lemma SumNext(n: nat)
    ensures SumSizes(n + 1) == SumSizes(n) + PartSize(n)
  {
  }
}
