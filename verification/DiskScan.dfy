/** The sequential scan of `diskscan.c`, when nobody interrupts it and no read is fatal: reads in strides, one bucket
    of the latency graph a stride. */
module DiskScan {
  import opened Bits
  import opened ScanPlan
  import opened ScanCoverage
  import Median

  const UINT32_MAX: nat := 0xFFFF_FFFF

  type uint32 = x: nat | x <= 0xFFFF_FFFF

  /** `latency_t` */
  datatype Latency = Latency(startSector: nat, endSector: nat, minMsec: nat, maxMsec: nat, medianMsec: nat)

  // ----- what a bucket says about the latencies of its stride

  /** The least value; the largest number of 32 bits when there is none. */
  predicate IsLeast(times: seq<nat>, v: nat) {
    && (if |times| == 0 then v == UINT32_MAX else v in times)
    && forall k :: 0 <= k < |times| ==> v <= times[k]
  }

  /** The greatest value, counting in what the bucket held before. */
  predicate IsGreatest(times: seq<nat>, before: nat, v: nat) {
    && (v == before || v in times) && before <= v
    && forall k :: 0 <= k < |times| ==> times[k] <= v
  }

  predicate Summarises(l: Latency, times: seq<nat>, before: nat, from: nat, to: nat, sectorSize: nat)
    requires sectorSize > 0
  {
    && l.startSector == from / sectorSize && l.endSector == to / sectorSize
    && IsLeast(times, l.minMsec) && IsGreatest(times, before, l.maxMsec) && Median.IsMedian(times, l.medianMsec)
  }

  /** How long `n` reads take from read number `from` on. */
  function Times(device: nat -> uint32, from: nat, n: nat): (t: seq<nat>)
    ensures |t| == n
  {
    seq(n, k requires 0 <= k => device(from + k))
  }

  function Flat(buckets: seq<seq<nat>>): seq<nat> {
    if |buckets| == 0 then [] else Flat(buckets[..|buckets| - 1]) + buckets[|buckets| - 1]
  }

  lemma TimesConcat(device: nat -> uint32, from: nat, m: nat, n: nat)
    ensures Times(device, from, m) + Times(device, from + m, n) == Times(device, from, m + n)
  {
  }

  lemma OneMoreTime(device: nat -> uint32, from: nat, n: nat)
    ensures Times(device, from, n) + [device(from + n)] == Times(device, from, n + 1)
    ensures Times(device, from, 0) == []
  {
  }

  lemma FlatNext(buckets: seq<seq<nat>>, b: seq<nat>)
    ensures Flat(buckets + [b]) == Flat(buckets) + b
  {
    assert (buckets + [b])[..|buckets|] == buckets;
  }

  // ----- the table of offsets

  predicate Table(p: Plan, order: seq<uint32>)
    requires Sane(p)
  {
    && |order| == LastEntry(p) + 2
    && (forall i :: 0 <= i <= LastEntry(p) ==> order[i] == Entry(p, i))
    && order[LastEntry(p) + 1] == UINT32_MAX
  }

  lemma EntryStored(p: Plan, i: nat)
    requires Sane(p)
    ensures Entry(p, i) < UINT32_MAX
  {
    var k := p.sectorSize / 512;
    assert p.sectorSize == 512 * k;
    var m := i * (p.readSectors * k);
    Regroup(p.readSectors, k, 512);
    Regroup(i, p.readSectors * k, 512);
    assert i * ReadBytes(p) == 512 * m;
    hide Sane, ReadBytes;
    var q := m / 0x80_0000;
    DivModUnique(512 * m, TWO_32, q, 512 * (m % 0x80_0000));
  }

  lemma EntryStoredAll(p: Plan)
    requires Sane(p)
    ensures forall i :: 0 <= i <= LastEntry(p) ==> Entry(p, i) < UINT32_MAX
  {
    hide Entry, LastEntry;
    forall i | 0 <= i <= LastEntry(p)
      ensures Entry(p, i) < UINT32_MAX
    {
      EntryStored(p, i);
    }
  }

  /** `calc_scan_order_seq` */
  method CalcScanOrderSeq(p: Plan) returns (order: array<uint32>)
    requires Sane(p)
    ensures fresh(order) && Table(p, order[..])
  {
    hide Sane, Stride, ReadBytes, Entry;
    var count := LastEntry(p) + 2;
    order := new uint32[count];
    var i := 0;
    while i < count - 1
      invariant i <= count - 1
      invariant forall k :: 0 <= k < i ==> order[k] == Entry(p, k)
    {
      EntryStored(p, i);
      order[i] := Entry(p, i);
      i := i + 1;
    }
    order[i] := UINT32_MAX;
  }

  // ----- the scan

  /** The fields of `disk_t` and of `struct scan_state` that the scan works on. `device` tells how many milliseconds
      each read takes; `log` records the reads. */
  class Scan {
    const numBytes: nat
    const sectorSize: nat
    const latencyGraph: array<Latency>
    const device: nat -> uint32
    var log: seq<Extent>
    var latencyBucket: nat
    var latencyCount: nat
    var latency: array<nat>
    /** Latencies of the bucket being filled, what it held as maximum, and latencies of the buckets before. */
    ghost var current: seq<nat>
    ghost var previousMax: nat
    ghost var finished: seq<seq<nat>>

    constructor (numBytes: nat, sectorSize: nat, latencyGraphLen: nat, device: nat -> uint32)
      ensures this.numBytes == numBytes && this.sectorSize == sectorSize && this.device == device
      ensures fresh(latencyGraph) && latencyGraph.Length == latencyGraphLen
      ensures forall b :: 0 <= b < latencyGraphLen ==> latencyGraph[b] == Latency(0, 0, 0, 0, 0)
      ensures log == []
    {
      this.numBytes, this.sectorSize, this.device := numBytes, sectorSize, device;
      latencyGraph := new Latency[latencyGraphLen](_ => Latency(0, 0, 0, 0, 0));
      log := [];
      latency := new nat[0];
    }

    function PlanOf(dataSize: nat): Plan
      requires sectorSize > 0
      reads this
    {
      Plan(numBytes, sectorSize, latencyGraph.Length, dataSize / sectorSize)
    }

    /** A bucket is open: its minimum and maximum, and the array, are those of the latencies seen so far. */
    ghost predicate Collecting()
      reads this, latency, latencyGraph
    {
      && latencyBucket < latencyGraph.Length
      && latencyCount == |current| <= latency.Length && latency[..latencyCount] == current
      && IsLeast(current, latencyGraph[latencyBucket].minMsec)
      && IsGreatest(current, previousMax, latencyGraph[latencyBucket].maxMsec)
    }

    /** `latency_bucket_prepare` */
    method LatencyBucketPrepare(offset: nat)
      requires sectorSize > 0 && latencyBucket < latencyGraph.Length
      modifies this`latencyCount, this`current, this`previousMax, latencyGraph
      ensures Collecting() && current == [] && previousMax == old(latencyGraph[latencyBucket].maxMsec)
      ensures latencyGraph[latencyBucket].startSector == offset / sectorSize
      ensures forall b :: 0 <= b < latencyGraph.Length && b != latencyBucket ==> latencyGraph[b] == old(latencyGraph[b])
    {
      previousMax := latencyGraph[latencyBucket].maxMsec;
      latencyGraph[latencyBucket] :=
        latencyGraph[latencyBucket].(startSector := offset / sectorSize, minMsec := UINT32_MAX);
      latencyCount, current := 0, [];
    }

    /** `latency_bucket_add` */
    method LatencyBucketAdd(time: uint32)
      requires Collecting() && latencyCount < latency.Length
      modifies this`latencyCount, this`current, latency, latencyGraph
      ensures Collecting() && current == old(current) + [time]
      ensures latencyGraph[latencyBucket].startSector == old(latencyGraph[latencyBucket].startSector)
      ensures forall b :: 0 <= b < latencyGraph.Length && b != latencyBucket ==> latencyGraph[b] == old(latencyGraph[b])
    {
      if time < latencyGraph[latencyBucket].minMsec {
        latencyGraph[latencyBucket] := latencyGraph[latencyBucket].(minMsec := time);
      }
      if latencyGraph[latencyBucket].maxMsec < time {
        latencyGraph[latencyBucket] := latencyGraph[latencyBucket].(maxMsec := time);
      }
      latency[latencyCount] := time;
      latencyCount, current := latencyCount + 1, current + [time];
    }

    /** `latency_bucket_finish`: the median of the latencies of the bucket, whose order is lost. */
    method LatencyBucketFinish(offset: nat)
      requires sectorSize > 0 && Collecting() && |current| > 0
      modifies this`latencyCount, this`latencyBucket, this`finished, latency, latencyGraph
      ensures latencyBucket == old(latencyBucket) + 1 && latencyCount == 0
      ensures finished == old(finished) + [current]
      ensures latencyGraph[old(latencyBucket)].startSector == old(latencyGraph[latencyBucket].startSector)
      ensures Summarises(latencyGraph[old(latencyBucket)], current, previousMax,
                         latencyGraph[old(latencyBucket)].startSector * sectorSize, offset, sectorSize)
      ensures forall b :: 0 <= b < latencyGraph.Length && b != old(latencyBucket) ==>
        latencyGraph[b] == old(latencyGraph[b])
    {
      latencyGraph[latencyBucket] := latencyGraph[latencyBucket].(endSector := offset / sectorSize);
      var median := Median.Median(latency, latencyCount);
      latencyGraph[latencyBucket] := latencyGraph[latencyBucket].(medianMsec := median);
      DivModUnique(latencyGraph[latencyBucket].startSector * sectorSize, sectorSize,
                   latencyGraph[latencyBucket].startSector, 0);
      latencyCount, latencyBucket, finished := 0, latencyBucket + 1, finished + [current];
    }

    /** `disk_scan_part`, as far as the scan depends on it. */
    method ScanPart(offset: nat, size: int)
      requires Collecting() && latencyCount < latency.Length
      modifies this`log, this`latencyCount, this`current, latency, latencyGraph
      ensures log == old(log) + [Extent(offset, size)]
      ensures Collecting() && current == old(current) + [device(old(|log|))]
      ensures latencyGraph[latencyBucket].startSector == old(latencyGraph[latencyBucket].startSector)
      ensures forall b :: 0 <= b < latencyGraph.Length && b != latencyBucket ==> latencyGraph[b] == old(latencyGraph[b])
    {
      var time := device(|log|);
      log := log + [Extent(offset, size)];
      LatencyBucketAdd(time);
    }

    /** `disk_scan_latency_stride`; `dataSize` shrinks and stays shrunk. */
    method ScanLatencyStride(p: Plan, base: nat, dataSize: int, order: array<uint32>)
      requires Sane(p) && p.numBytes == numBytes && Table(p, order[..]) && order.Length <= TWO_32
      requires Collecting() && current == [] && base < numBytes
      requires |StrideReads(p, base, dataSize, 0)| <= latency.Length
      modifies this`log, this`latencyCount, this`current, latency, latencyGraph
      ensures log == old(log) + StrideReads(p, base, dataSize, 0)
      ensures Collecting() && current == Times(device, old(|log|), |StrideReads(p, base, dataSize, 0)|)
      ensures latencyGraph[latencyBucket].startSector == old(latencyGraph[latencyBucket].startSector)
      ensures forall b :: 0 <= b < latencyGraph.Length && b != latencyBucket ==> latencyGraph[b] == old(latencyGraph[b])
    {
      hide Sane, StrideReads, StrideBytes, Entry, Times, LastEntry, ToInt, IsLeast, IsGreatest;
      ghost var before, all := log, StrideReads(p, base, dataSize, 0);
      var size := dataSize;
      var strideEnd := Min(base + StrideBytes(p), numBytes);
      var i: uint32 := 0;
      OneMoreTime(device, |before|, 0);
      assert [] + all == all && before + [] == before;
      while order[i] != UINT32_MAX
        invariant i <= LastEntry(p) + 1
        invariant log + StrideReads(p, base, size, i) == before + all
        invariant |log| >= |before| && current == Times(device, |before|, |log| - |before|)
        invariant Collecting()
        invariant latencyGraph[latencyBucket].startSector == old(latencyGraph[latencyBucket].startSector)
        invariant forall b :: 0 <= b < latencyGraph.Length && b != latencyBucket ==>
          latencyGraph[b] == old(latencyGraph[b])
        decreases LastEntry(p) + 1 - i
      {
        var offset := base + order[i];
        var remainder := strideEnd - offset;
        ghost var next := Min(remainder, size);
        StrideReadsStep(p, base, size, i, offset, next);
        if remainder < size {
          size := remainder;
        }
        if !(offset > numBytes || offset + remainder > numBytes) {
          OneMoreTime(device, |before|, |log| - |before|);
          assert log + ([Extent(offset, ToInt(size))] + StrideReads(p, base, size, i + 1))
            == log + [Extent(offset, ToInt(size))] + StrideReads(p, base, size, i + 1);
          ScanPart(offset, ToInt(size));
        }
        i := i + 1;
      }
      EntryStoredAll(p);
      assert StrideReads(p, base, size, LastEntry(p) + 1) == [] by { PastTheTable(p, base, size); }
    }

    /** What the finished buckets say, and that the others are as they were. */
    ghost predicate Graph(p: Plan, before: seq<Latency>)
      requires Sane(p)
      reads this, latencyGraph
    {
      && |before| == latencyGraph.Length && latencyBucket == |finished| <= latencyGraph.Length
      && (forall b :: 0 <= b < latencyBucket ==>
            && |finished[b]| == |StrideReads(p, b * StrideBytes(p), ReadBytes(p), 0)|
            && Summarises(latencyGraph[b], finished[b], before[b].maxMsec, b * StrideBytes(p), (b + 1) * StrideBytes(p),
                          p.sectorSize))
      && (forall b :: latencyBucket <= b < latencyGraph.Length ==> latencyGraph[b] == before[b])
    }

    /** One turn of the loop of `disk_scan`. */
    method ScanStride(p: Plan, offset: nat, order: array<uint32>, ghost before: seq<Latency>)
      requires Sane(p) && p.numBytes == numBytes && p.sectorSize == sectorSize && sectorSize > 0
      requires Table(p, order[..]) && order.Length <= TWO_32
      requires Graph(p, before) && latencyBucket < latencyGraph.Length
      requires offset == latencyBucket * StrideBytes(p) < numBytes
      requires |StrideReads(p, offset, ReadBytes(p), 0)| <= latency.Length
      modifies this`log, this`latencyCount, this`latencyBucket, this`current, this`previousMax, this`finished
      modifies latency, latencyGraph
      ensures log == old(log) + StrideReads(p, offset, ReadBytes(p), 0)
      ensures latencyBucket == old(latencyBucket) + 1 && Graph(p, before)
      ensures finished == old(finished) + [Times(device, old(|log|), |StrideReads(p, offset, ReadBytes(p), 0)|)]
    {
      hide Sane, StrideReads, StrideBytes, ReadBytes, Times, LastEntry, Table, IsLeast, IsGreatest, Median.IsMedian;
      ghost var b := latencyBucket;
      LatenciesBounds(p, offset, ReadBytes(p), 0);
      LatencyBucketPrepare(offset);
      ScanLatencyStride(p, offset, ReadBytes(p), order);
      MulNext(b, StrideBytes(p));
      LatencyBucketFinish(offset + StrideBytes(p));
      assert Summarises(latencyGraph[b], finished[b], before[b].maxMsec, b * StrideBytes(p), (b + 1) * StrideBytes(p),
                        p.sectorSize);
      hide Summarises;
    }

    /** The loop of `disk_scan`. */
    method ScanStrides(p: Plan, order: array<uint32>)
      requires Sane(p) && p.numBytes == numBytes && p.sectorSize == sectorSize && sectorSize > 0
      requires p.graphLen == latencyGraph.Length && AllFit(p, 0) && latency.Length == Stride(p)
      requires Table(p, order[..]) && order.Length <= TWO_32
      requires latencyBucket == 0 && finished == []
      modifies this`log, this`latencyCount, this`latencyBucket, this`current, this`previousMax, this`finished
      modifies latency, latencyGraph
      ensures log == old(log) + ScanReads(p, 0)
      ensures latencyBucket == Strides(p, 0) <= latencyGraph.Length
      ensures Graph(p, old(latencyGraph[..]))
      ensures Flat(finished) == Times(device, old(|log|), |ScanReads(p, 0)|)
    {
      hide Sane, StrideReads, ScanReads, StrideBytes, ReadBytes, Times, LastEntry, Stride, Table, Summarises, Flat;
      ghost var before, first := latencyGraph[..], log;
      BucketsSuffice(p);
      var offset := 0;
      NothingRead(device, |first|, StrideBytes(p));
      assert Graph(p, before);
      while offset < numBytes
        invariant offset == latencyBucket * StrideBytes(p)
        invariant Graph(p, before) && AllFit(p, offset)
        invariant latencyBucket + Strides(p, offset) == Strides(p, 0)
        invariant log + ScanReads(p, offset) == first + ScanReads(p, 0)
        invariant |log| >= |first| && Flat(finished) == Times(device, |first|, |log| - |first|)
        decreases numBytes - offset
      {
        ScanReadsStep(p, offset);
        ghost var n := |StrideReads(p, offset, ReadBytes(p), 0)|;
        FlatNext(finished, Times(device, |log|, n));
        TimesConcat(device, |first|, |log| - |first|, n);
        MulNext(latencyBucket, StrideBytes(p));
        hide Graph;
        ScanStride(p, offset, order, before);
        offset := offset + StrideBytes(p);
      }
      ScanReadsEnd(p, offset);
    }

    /** `disk_scan`: every stride has a bucket that summarises its latencies, each latency is in one bucket. The
        reads cover the disk once and in order exactly when the offsets of the table fit, and cover it at all exactly
        when a read from some entry gets to the end of a stride. */
    method DiskScan(dataSize: nat)
      requires sectorSize > 0 && dataSize > 0
      requires var p := PlanOf(AdjustedSize(dataSize, sectorSize));
        Sane(p) && RoomForLatencies(p) && LastEntry(p) + 2 <= TWO_32
      modifies this, latencyGraph
      ensures var p := PlanOf(AdjustedSize(dataSize, sectorSize));
        && log == old(log) + ScanReads(p, 0)
        && (Tiles(log[|old(log)|..], 0, numBytes) <==> TableFits(p))
        && ((forall b :: 0 <= b < numBytes ==> Reads(log[|old(log)|..], b)) <==> TableReaches(p))
        && latencyBucket == Strides(p, 0) <= latencyGraph.Length
        && Graph(p, old(latencyGraph[..]))
        && Flat(finished) == Times(device, old(|log|), |ScanReads(p, 0)|)
    {
      var p := PlanOf(AdjustedSize(dataSize, sectorSize));
      hide Sane, ScanReads, StrideBytes, LastEntry, Stride, Table, AdjustedSize, Graph, Strides, Flat, AllFit, Tiles,
        TableFits, Reads, TableReaches;
      LatenciesFit(p);
      ScanTiles(p);
      DiskCovered(p);
      ghost var first := log;
      latencyBucket, latencyCount, finished := 0, 0, [];
      latency := new nat[Stride(p)];
      var order := CalcScanOrderSeq(p);
      TableLength(p, order[..]);
      ScanStrides(p, order);
      assert log[|first|..] == ScanReads(p, 0);
    }
  }

  lemma TableLength(p: Plan, order: seq<uint32>)
    requires Sane(p) && Table(p, order)
    ensures |order| == LastEntry(p) + 2
  {
  }

  lemma NothingRead(device: nat -> uint32, from: nat, d: nat)
    ensures Times(device, from, 0) == [] && Flat([]) == [] && 0 * d == 0
  {
  }
}
