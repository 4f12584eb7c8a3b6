/** Where a sequential scan reads: the strides of `disk_scan` and the table of offsets inside one, with the widths
    the source gives them. */
module ScanPlan {
  import opened Bits

  /** A disk, the length of its latency graph, and the number of sectors of one read. */
  datatype Plan = Plan(numBytes: nat, sectorSize: nat, graphLen: nat, readSectors: nat)

  /** What `disk_open` and `disk_scan` make sure of, and sizes that keep 64-bit arithmetic exact. */
  predicate Sane(p: Plan) {
    && 0 < p.numBytes < 0x4000_0000_0000_0000
    && 0 < p.sectorSize && p.sectorSize % 512 == 0
    && 0 < p.graphLen && 0 < p.readSectors
    && ReadBytes(p) < 0x8000_0000
  }

  /** The size of a read as `disk_scan` adjusts it. */
  function AdjustedSize(dataSize: nat, sectorSize: nat): nat
    requires sectorSize > 0
  {
    if dataSize % sectorSize != 0 then
      var smaller := dataSize - dataSize % sectorSize;
      if smaller == 0 then sectorSize else smaller
    else dataSize
  }

  lemma AdjustedIsWhole(dataSize: nat, sectorSize: nat)
    requires 0 < sectorSize && 0 < dataSize
    ensures AdjustedSize(dataSize, sectorSize) % sectorSize == 0
    ensures 0 < AdjustedSize(dataSize, sectorSize) <= Max(dataSize, sectorSize)
    ensures dataSize - sectorSize < AdjustedSize(dataSize, sectorSize)
    ensures AdjustedSize(dataSize, sectorSize) / sectorSize * sectorSize == AdjustedSize(dataSize, sectorSize)
  {
    var q, r := dataSize / sectorSize, dataSize % sectorSize;
    assert dataSize == q * sectorSize + r;
    DivModUnique(q * sectorSize, sectorSize, q, 0);
  }

  /** `calc_latency_stride`, in sectors */
  function Stride(p: Plan): nat
    requires Sane(p)
  {
    DivBounds(p.numBytes, p.sectorSize);
    DivBounds(p.numBytes / p.sectorSize, p.graphLen);
    p.numBytes / p.sectorSize / p.graphLen + 1
  }

  function StrideBytes(p: Plan): nat
    requires Sane(p)
  {
    Stride(p) * p.sectorSize
  }

  function ReadBytes(p: Plan): nat {
    p.readSectors * p.sectorSize
  }

  /** Number of the last entry in front of the sentinel of the table of offsets. */
  function LastEntry(p: Plan): nat
    requires Sane(p)
  {
    Stride(p) / p.readSectors
  }

  /** An entry of the table: it is stored in 32 bits. */
  function Entry(p: Plan, i: nat): nat {
    i * ReadBytes(p) % TWO_32
  }

  lemma Regroup(a: nat, b: nat, c: nat)
    ensures a * b * c == a * (b * c)
  {
  }

  lemma ReadsInStride(l: nat, r: nat, s: nat, q: nat)
    requires 0 < r && 0 < s && q == l / r
    ensures q * (r * s) <= l * s < (q + 1) * (r * s) && s <= r * s
  {
    DivBounds(l, r);
    MulNext(q, r);
    MulMono(q * r, l, s);
    MulMono(l + 1, (q + 1) * r, s);
    MulMono(1, r, s);
    Regroup(q, r, s);
    Regroup(q + 1, r, s);
    MulNext(l, s);
  }

  lemma StrideAtMost(n: nat, s: nat, len: nat, k: nat, sectors: nat)
    requires 0 < len && sectors * s <= n && k * len <= sectors
    ensures s <= (k + 1) * s <= n + s
  {
    MulMono(1, len, k);
    MulMono(k, sectors, s);
    MulMono(0, k, s);
    MulNext(k, s);
  }

  lemma StridesCover(n: nat, s: nat, len: nat, k: nat, sectors: nat)
    requires n < sectors * s + s && sectors < k * len + len
    ensures n < len * ((k + 1) * s)
  {
    MulNext(k, len);
    MulMono(sectors + 1, (k + 1) * len, s);
    MulNext(sectors, s);
    Regroup(len, k + 1, s);
  }

  /** The stride is the least number of sectors of which one for every bucket of the graph is more than the disk has. */
  lemma StrideIsLeast(p: Plan, l: int)
    requires Sane(p)
    ensures l == Stride(p) <==> (l - 1) * p.graphLen <= p.numBytes / p.sectorSize < l * p.graphLen
  {
    hide ReadBytes, Stride;
    StrideOf(p);
    LeastAbove(p.numBytes / p.sectorSize, p.graphLen, l);
  }

  lemma StrideOf(p: Plan)
    requires Sane(p)
    ensures Stride(p) == p.numBytes / p.sectorSize / p.graphLen + 1
  {
    hide ReadBytes;
  }

  lemma LeastAbove(x: int, d: int, l: int)
    requires d > 0
    ensures l == x / d + 1 <==> (l - 1) * d <= x < l * d
  {
    MulNext(l - 1, d);
    if (l - 1) * d <= x < l * d {
      DivModUnique(x, d, l - 1, x - (l - 1) * d);
    }
  }

  /** How strides, reads and the disk fit together. */
  lemma Facts(p: Plan)
    requires Sane(p)
    ensures 0 < p.sectorSize <= ReadBytes(p) < 0x8000_0000 && 0 < StrideBytes(p)
    ensures LastEntry(p) * ReadBytes(p) <= StrideBytes(p) < (LastEntry(p) + 1) * ReadBytes(p)
    ensures StrideBytes(p) <= p.numBytes + p.sectorSize
    ensures p.numBytes < p.graphLen * StrideBytes(p)
  {
    ReadsInStride(Stride(p), p.readSectors, p.sectorSize, LastEntry(p));
    var sectors := p.numBytes / p.sectorSize;
    DivBounds(p.numBytes, p.sectorSize);
    DivBounds(sectors, p.graphLen);
    StrideAtMost(p.numBytes, p.sectorSize, p.graphLen, sectors / p.graphLen, sectors);
    StridesCover(p.numBytes, p.sectorSize, p.graphLen, sectors / p.graphLen, sectors);
    hide Stride, LastEntry;
  }

  // ----- the reads

  datatype Extent = Extent(offset: nat, size: int)

  /** The conversion of `data_size` to the `int` that `disk_scan_part` takes. */
  function ToInt(x: int): (r: int)
    ensures -0x8000_0000 <= r < 0x8000_0000 && (x - r) % TWO_32 == 0
  {
    DivModUnique(x + 0x8000_0000, TWO_32, (x + 0x8000_0000) / TWO_32, (x + 0x8000_0000) % TWO_32);
    (x + 0x8000_0000) % TWO_32 - 0x8000_0000
  }

  function StrideEnd(p: Plan, base: nat): nat
    requires Sane(p)
  {
    Min(base + StrideBytes(p), p.numBytes)
  }

  /** The reads of one stride from entry `i` on; `size` is what earlier entries have left of the read size. */
  function StrideReads(p: Plan, base: nat, size: int, i: nat): seq<Extent>
    requires Sane(p) && i <= LastEntry(p) + 1
    decreases LastEntry(p) + 1 - i
  {
    if i == LastEntry(p) + 1 then []
    else
      var offset := base + Entry(p, i);
      var remaining := StrideEnd(p, base) - offset;
      var size' := Min(remaining, size);
      (if offset > p.numBytes then [] else [Extent(offset, ToInt(size'))]) + StrideReads(p, base, size', i + 1)
  }

  /** The reads of the scan from a stride on. */
  function ScanReads(p: Plan, base: nat): seq<Extent>
    requires Sane(p)
    decreases p.numBytes - base
  {
    Facts(p);
    if base >= p.numBytes then []
    else StrideReads(p, base, ReadBytes(p), 0) + ScanReads(p, base + StrideBytes(p))
  }

  /** One extent after the other, from `from` up to `to`; extents may be empty. */
  predicate Tiles(s: seq<Extent>, from: nat, to: nat) {
    if |s| == 0 then from == to
    else s[0].offset == from && 0 <= s[0].size && Tiles(s[1..], from + s[0].size, to)
  }

  predicate WithinReadSize(p: Plan, s: seq<Extent>) {
    forall k :: 0 <= k < |s| ==> 0 <= s[k].size <= ReadBytes(p)
  }

  lemma {:induction false} TilesConcat(s: seq<Extent>, t: seq<Extent>, a: nat, b: nat, c: nat)
    requires Tiles(s, a, b) && Tiles(t, b, c)
    ensures Tiles(s + t, a, c)
  {
    if |s| == 0 {
      assert s + t == t;
    } else {
      assert (s + t)[1..] == s[1..] + t;
      TilesConcat(s[1..], t, a + s[0].size, b, c);
    }
  }

  /** No entry of the table lost its upper bits. */
  predicate TableFits(p: Plan)
    requires Sane(p)
  {
    LastEntry(p) * ReadBytes(p) < TWO_32
  }

  lemma StrideReadsStep(p: Plan, base: nat, size: int, i: nat, offset: nat, size': int)
    requires Sane(p) && i <= LastEntry(p) && offset == base + Entry(p, i)
    requires size' == Min(StrideEnd(p, base) - offset, size)
    ensures StrideReads(p, base, size, i) ==
      (if offset > p.numBytes then [] else [Extent(offset, ToInt(size'))]) + StrideReads(p, base, size', i + 1)
  {
  }

  lemma EntryIs(p: Plan, i: nat)
    requires Sane(p) && i <= LastEntry(p)
    ensures i * ReadBytes(p) + (LastEntry(p) - i) * ReadBytes(p) == LastEntry(p) * ReadBytes(p)
    ensures i * ReadBytes(p) <= LastEntry(p) * ReadBytes(p)
    ensures i * ReadBytes(p) < TWO_32 ==> Entry(p, i) == i * ReadBytes(p)
    ensures Entry(p, i) <= i * ReadBytes(p)
  {
    var d := ReadBytes(p);
    MulMono(i, LastEntry(p), d);
  }

  lemma ToIntSame(x: int)
    requires 0 <= x < 0x8000_0000
    ensures ToInt(x) == x
  {
  }

  /** One read of a stride whose table fits: it ends where the next one begins, or the stride ends. */
  lemma ReadStep(p: Plan, base: nat, size: int, i: nat, offset: nat, size': int)
    requires Sane(p) && i <= LastEntry(p) && i * ReadBytes(p) < TWO_32
    requires offset == base + i * ReadBytes(p) && size' == Min(StrideEnd(p, base) - offset, size)
    requires offset <= StrideEnd(p, base) ==> size == ReadBytes(p)
    ensures offset == base + Entry(p, i)
    ensures offset > StrideEnd(p, base) ==> offset > p.numBytes
    ensures offset <= StrideEnd(p, base) ==>
      && offset <= p.numBytes && 0 <= size' <= ReadBytes(p) && ToInt(size') == size'
      && Min(offset + ReadBytes(p), StrideEnd(p, base)) == offset + size'
    ensures base + (i + 1) * ReadBytes(p) <= StrideEnd(p, base) ==> size' == ReadBytes(p)
    ensures base + (i + 1) * ReadBytes(p) == offset + ReadBytes(p)
  {
    Facts(p);
    EntryIs(p, i);
    MulNext(i, ReadBytes(p));
    hide Sane, Stride, LastEntry, Entry, ReadBytes, StrideBytes, ToInt;
    if offset <= StrideEnd(p, base) { ToIntSame(size'); }
  }

  lemma TilesCons(x: Extent, rest: seq<Extent>, to: nat)
    requires 0 <= x.size && Tiles(rest, x.offset + x.size, to)
    ensures Tiles([x] + rest, x.offset, to)
  {
    assert ([x] + rest)[1..] == rest;
  }

  /** Where entry `i` finds the stride covered up to. */
  function Reached(p: Plan, base: nat, i: nat): nat
    requires Sane(p)
  {
    hide ReadBytes, StrideEnd;
    MulMono(0, i, ReadBytes(p));
    Min(base + i * ReadBytes(p), StrideEnd(p, base))
  }

  /** One stride covers its part of the disk when the table fits. */
  lemma {:induction false} StrideTiles(p: Plan, base: nat, size: int, i: nat)
    requires Sane(p) && TableFits(p) && base < p.numBytes && i <= LastEntry(p) + 1
    requires base + i * ReadBytes(p) <= StrideEnd(p, base) ==> size == ReadBytes(p)
    ensures Tiles(StrideReads(p, base, size, i), Reached(p, base, i), StrideEnd(p, base))
    ensures WithinReadSize(p, StrideReads(p, base, size, i))
    decreases LastEntry(p) + 1 - i
  {
    hide Sane, Stride, LastEntry, StrideReads, Entry, ReadBytes, StrideBytes, StrideEnd, ToInt;
    var e := StrideEnd(p, base);
    if i == LastEntry(p) + 1 {
      PastTheTable(p, base, size);
    } else {
      EntryIs(p, i);
      var offset := base + i * ReadBytes(p);
      var size' := Min(e - offset, size);
      ReadStep(p, base, size, i, offset, size');
      StrideReadsStep(p, base, size, i, offset, size');
      StrideTiles(p, base, size', i + 1);
      var rest := StrideReads(p, base, size', i + 1);
      if offset <= e {
        assert Reached(p, base, i + 1) == offset + size';
        TilesCons(Extent(offset, size'), rest, e);
      } else {
        assert [] + rest == rest;
      }
    }
  }

  lemma PastTheTable(p: Plan, base: nat, size: int)
    requires Sane(p)
    ensures StrideReads(p, base, size, LastEntry(p) + 1) == []
    ensures base + (LastEntry(p) + 1) * ReadBytes(p) >= StrideEnd(p, base)
  {
    Facts(p);
    hide Stride, LastEntry, Entry, ReadBytes, StrideBytes;
  }

  lemma ScanReadsStep(p: Plan, base: nat)
    requires Sane(p) && base < p.numBytes
    ensures ScanReads(p, base) == StrideReads(p, base, ReadBytes(p), 0) + ScanReads(p, base + StrideBytes(p))
    ensures StrideBytes(p) > 0
  {
    Facts(p);
    hide StrideReads, ReadBytes, StrideBytes;
  }

  lemma ScanReadsEnd(p: Plan, base: nat)
    requires Sane(p) && base >= p.numBytes
    ensures ScanReads(p, base) == []
  {
  }

  /** With a table that fits, the reads cover the rest of the disk, each byte once and in order. */
  lemma {:induction false} ScanTilesFrom(p: Plan, base: nat)
    requires Sane(p) && TableFits(p)
    ensures Tiles(ScanReads(p, base), Min(base, p.numBytes), p.numBytes)
    ensures WithinReadSize(p, ScanReads(p, base))
    decreases p.numBytes - base
  {
    hide Sane, TableFits, StrideReads, ScanReads, ReadBytes, StrideBytes, Tiles;
    if base >= p.numBytes {
      ScanReadsEnd(p, base);
      TilesNothing(p.numBytes);
    } else {
      ScanReadsStep(p, base);
      StrideTiles(p, base, ReadBytes(p), 0);
      ScanTilesFrom(p, base + StrideBytes(p));
      TilesConcat(StrideReads(p, base, ReadBytes(p), 0), ScanReads(p, base + StrideBytes(p)),
                  base, StrideEnd(p, base), p.numBytes);
    }
  }

  lemma TilesNothing(at: nat)
    ensures Tiles([], at, at)
  {
  }

  /** The first entry that does not fit in 32 bits. */
  lemma FirstWrapped(p: Plan) returns (w: nat)
    requires Sane(p) && !TableFits(p)
    ensures 2 <= w <= LastEntry(p)
    ensures (w - 1) * ReadBytes(p) < TWO_32 <= w * ReadBytes(p)
  {
    Facts(p);
    hide Sane, Stride, LastEntry, ReadBytes, StrideBytes;
    var d := ReadBytes(p);
    w := LastEntry(p);
    while (w - 1) * d >= TWO_32
      invariant 1 <= w <= LastEntry(p) && w * d >= TWO_32
      decreases w
    {
      w := w - 1;
    }
  }

  lemma TilesHead(s: seq<Extent>, rest: seq<Extent>, from: nat, to: nat)
    requires |s| > 0 && Tiles(s + rest, from, to)
    ensures s[0].offset == from && 0 <= s[0].size && Tiles(s[1..] + rest, from + s[0].size, to)
  {
    assert (s + rest)[1..] == s[1..] + rest;
  }

  /** The wrapped entry points back behind the end of the first read, while the reads in front of it have gone on. */
  lemma Wrapped(p: Plan, w: nat)
    requires Sane(p) && 2 <= w <= LastEntry(p)
    requires (w - 1) * ReadBytes(p) < TWO_32 <= w * ReadBytes(p)
    ensures Entry(p, w) < ReadBytes(p) <= (w - 1) * ReadBytes(p) <= StrideEnd(p, 0) <= p.numBytes
    ensures w * ReadBytes(p) == (w - 1) * ReadBytes(p) + ReadBytes(p)
  {
    Facts(p);
    var d := ReadBytes(p);
    MulNext(w - 1, d);
    MulMono(w, LastEntry(p), d);
    MulMono(1, w - 1, d);
    DivModUnique(w * d, TWO_32, 1, w * d - TWO_32);
    hide Sane, Stride, LastEntry, ReadBytes, StrideBytes;
  }

  lemma {:induction false} WrapBreaks(p: Plan, w: nat, i: nat, size: int, at: nat, rest: seq<Extent>)
    requires Sane(p) && 2 <= w <= LastEntry(p) && i <= w
    requires (w - 1) * ReadBytes(p) < TWO_32 <= w * ReadBytes(p)
    requires i < w ==> size == ReadBytes(p) && at == i * ReadBytes(p)
    requires i == w ==> at >= (w - 1) * ReadBytes(p)
    ensures !Tiles(StrideReads(p, 0, size, i) + rest, at, p.numBytes)
    decreases w - i
  {
    hide Sane, Stride, LastEntry, StrideReads, Entry, ReadBytes, StrideBytes, StrideEnd, ToInt, Tiles;
    Wrapped(p, w);
    var offset := Entry(p, i);
    var d := ReadBytes(p);
    if i < w {
      MulMono(i, w - 1, d);
      EntryIs(p, i);
      var size' := Min(StrideEnd(p, 0) - offset, size);
      ReadStep(p, 0, size, i, offset, size');
      StrideReadsStep(p, 0, size, i, offset, size');
      var tail := StrideReads(p, 0, size', i + 1);
      if i + 1 < w { MulMono(i + 1, w - 1, d); }
      WrapBreaks(p, w, i + 1, size', offset + size', rest);
      assert ([Extent(offset, size')] + tail)[1..] == tail;
      if Tiles(StrideReads(p, 0, size, i) + rest, at, p.numBytes) {
        TilesHead([Extent(offset, size')] + tail, rest, at, p.numBytes);
      }
    } else {
      StrideReadsStep(p, 0, size, i, offset, Min(StrideEnd(p, 0) - offset, size));
      if Tiles(StrideReads(p, 0, size, i) + rest, at, p.numBytes) {
        TilesHead(StrideReads(p, 0, size, i), rest, at, p.numBytes);
      }
    }
  }

  /** The reads tile the disk, that is, cover every byte once and in order, exactly when the last offset of the table
      fits in its 32 bits. */
  lemma ScanTiles(p: Plan)
    requires Sane(p)
    ensures Tiles(ScanReads(p, 0), 0, p.numBytes) <==> TableFits(p)
    ensures TableFits(p) ==> WithinReadSize(p, ScanReads(p, 0))
  {
    hide TableFits, StrideReads, ScanReads, ReadBytes, StrideBytes, Tiles, LastEntry, Stride;
    if TableFits(p) {
      ScanTilesFrom(p, 0);
    } else {
      var w := FirstWrapped(p);
      ScanReadsStep(p, 0);
      WrapBreaks(p, w, 0, ReadBytes(p), 0, ScanReads(p, StrideBytes(p)));
    }
  }

  // ----- buckets and latencies

  /** Number of strides from an offset on. */
  function Strides(p: Plan, base: nat): nat
    requires Sane(p)
    decreases p.numBytes - base
  {
    Facts(p);
    if base >= p.numBytes then 0 else 1 + Strides(p, base + StrideBytes(p))
  }

  lemma {:induction false} StridesAtMost(p: Plan, base: nat, k: nat)
    requires Sane(p) && p.numBytes <= base + k * StrideBytes(p)
    ensures Strides(p, base) <= k
    decreases k
  {
    hide Sane, StrideBytes;
    if base < p.numBytes {
      if k > 0 {
        MulNext(k - 1, StrideBytes(p));
        StridesAtMost(p, base + StrideBytes(p), k - 1);
      }
    }
  }

  /** As many strides as cover the rest of the disk, and no more. */
  lemma {:induction false} StridesAre(p: Plan, base: nat)
    requires Sane(p)
    ensures base + Strides(p, base) * StrideBytes(p) >= p.numBytes
    ensures base < p.numBytes ==> base + Strides(p, base) * StrideBytes(p) < p.numBytes + StrideBytes(p)
    decreases p.numBytes - base
  {
    Facts(p);
    hide Sane, StrideBytes, Stride, ReadBytes, LastEntry;
    if base < p.numBytes {
      var next := base + StrideBytes(p);
      StridesAre(p, next);
      MulNext(Strides(p, next), StrideBytes(p));
      if next >= p.numBytes { NoStrides(p, next); }
    }
  }

  lemma NoStrides(p: Plan, base: nat)
    requires Sane(p) && base >= p.numBytes
    ensures Strides(p, base) == 0 && Strides(p, base) * StrideBytes(p) == 0
  {
    hide StrideBytes;
  }

  /** One bucket of the latency graph a stride, and there are enough of them. */
  lemma BucketsSuffice(p: Plan)
    requires Sane(p)
    ensures Strides(p, 0) <= p.graphLen
  {
    Facts(p);
    hide StrideBytes, Stride, LastEntry, ReadBytes;
    StridesAtMost(p, 0, p.graphLen);
  }

  /** Every stride yields at least one latency, and at most one an entry of the table. */
  lemma {:induction false} LatenciesBounds(p: Plan, base: nat, size: int, i: nat)
    requires Sane(p) && i <= LastEntry(p) + 1
    ensures |StrideReads(p, base, size, i)| <= LastEntry(p) + 1 - i
    ensures base < p.numBytes && i == 0 ==> |StrideReads(p, base, size, i)| > 0
    decreases LastEntry(p) + 1 - i
  {
    hide Sane, Stride, LastEntry, Entry, ReadBytes, StrideBytes, StrideEnd, ToInt;
    if i <= LastEntry(p) {
      var offset := base + Entry(p, i);
      var size' := Min(StrideEnd(p, base) - offset, size);
      LatenciesBounds(p, base, size', i + 1);
      if i == 0 { EntryIs(p, 0); }
    }
  }

  /** The reads of a stride start inside it. */
  lemma {:induction false} ReadsStartInside(p: Plan, base: nat, size: int, i: nat)
    requires Sane(p) && i <= LastEntry(p) + 1
    ensures forall k | 0 <= k < |StrideReads(p, base, size, i)| ::
      base <= StrideReads(p, base, size, i)[k].offset <= base + StrideBytes(p)
    decreases LastEntry(p) + 1 - i
  {
    Facts(p);
    hide Sane, Stride, LastEntry, Entry, ReadBytes, StrideBytes, StrideEnd, ToInt;
    if i <= LastEntry(p) {
      var offset := base + Entry(p, i);
      var size' := Min(StrideEnd(p, base) - offset, size);
      EntryIs(p, i);
      ReadsStartInside(p, base, size', i + 1);
    }
  }

  /** Exactly one an entry when all entries stay on the disk. */
  lemma {:induction false} LatenciesAre(p: Plan, base: nat, size: int, i: nat)
    requires Sane(p) && i <= LastEntry(p) + 1
    requires forall k :: i <= k <= LastEntry(p) ==> base + Entry(p, k) <= p.numBytes
    ensures |StrideReads(p, base, size, i)| == LastEntry(p) + 1 - i
    decreases LastEntry(p) + 1 - i
  {
    hide Sane, Stride, LastEntry, Entry, ReadBytes, StrideBytes, StrideEnd, ToInt;
    if i <= LastEntry(p) {
      var offset := base + Entry(p, i);
      var size' := Min(StrideEnd(p, base) - offset, size);
      LatenciesAre(p, base, size', i + 1);
    }
  }

  /** Fewer when the last one does not. */
  lemma {:induction false} LatenciesFewer(p: Plan, base: nat, size: int, i: nat)
    requires Sane(p) && i <= LastEntry(p)
    requires base + Entry(p, LastEntry(p)) > p.numBytes
    ensures |StrideReads(p, base, size, i)| <= LastEntry(p) - i
    decreases LastEntry(p) - i
  {
    hide Sane, Stride, LastEntry, Entry, ReadBytes, StrideBytes, StrideEnd, ToInt;
    var offset := base + Entry(p, i);
    var size' := Min(StrideEnd(p, base) - offset, size);
    if i < LastEntry(p) {
      LatenciesFewer(p, base, size', i + 1);
    } else {
      LatenciesBounds(p, base, size', i + 1);
    }
  }

  /** From an offset on, no stride yields more latencies than the array for them has places. */
  predicate AllFit(p: Plan, base: nat)
    requires Sane(p)
    decreases p.numBytes - base
  {
    Facts(p);
    base >= p.numBytes
    || (|StrideReads(p, base, ReadBytes(p), 0)| <= Stride(p) && AllFit(p, base + StrideBytes(p)))
  }

  /** Reads of two sectors or more, or a single incomplete stride whose table fits. */
  predicate RoomForLatencies(p: Plan)
    requires Sane(p)
  {
    p.readSectors >= 2 || (p.numBytes < StrideBytes(p) && StrideBytes(p) < TWO_32)
  }

  lemma TableOfLargeReads(p: Plan)
    requires Sane(p) && p.readSectors >= 2
    ensures LastEntry(p) + 1 <= Stride(p)
  {
    var l, r, q := Stride(p), p.readSectors, LastEntry(p);
    hide Sane, Stride;
    DivBounds(l, r);
    MulMono(2, r, q);
  }

  lemma TableOfSingleSectors(p: Plan)
    requires Sane(p) && p.readSectors == 1
    ensures LastEntry(p) == Stride(p) && LastEntry(p) * ReadBytes(p) == StrideBytes(p)
    ensures ReadBytes(p) == p.sectorSize
  {
    DivModUnique(Stride(p), 1, Stride(p), 0);
    hide Stride;
  }

  lemma {:induction false} LargeReadsFit(p: Plan, base: nat)
    requires Sane(p) && p.readSectors >= 2
    ensures AllFit(p, base)
    decreases p.numBytes - base
  {
    hide Sane, Stride, StrideBytes, ReadBytes, LastEntry, StrideReads;
    Facts(p);
    if base < p.numBytes {
      TableOfLargeReads(p);
      LatenciesBounds(p, base, ReadBytes(p), 0);
      LargeReadsFit(p, base + StrideBytes(p));
    }
  }

  lemma SmallEntries(p: Plan)
    requires Sane(p) && !RoomForLatencies(p)
    ensures forall k :: 0 <= k <= LastEntry(p) ==> Entry(p, k) <= p.numBytes
  {
    Facts(p);
    TableOfSingleSectors(p);
    var d, s := ReadBytes(p), StrideBytes(p);
    hide Sane, Stride, StrideBytes, ReadBytes, LastEntry;
    forall k | 0 <= k <= LastEntry(p)
      ensures Entry(p, k) <= p.numBytes
    {
      EntryIs(p, k);
      if s > p.numBytes {
        if k < LastEntry(p) {
          MulNext(k, d);
          EntryIs(p, k + 1);
        } else {
          DivBounds(s, TWO_32);
        }
      }
      hide Entry;
    }
  }

  /** The array of latencies is large enough for every stride exactly when the condition holds. */
  lemma LatenciesFit(p: Plan)
    requires Sane(p)
    ensures AllFit(p, 0) <==> RoomForLatencies(p)
  {
    Facts(p);
    hide Sane, Stride, StrideBytes, ReadBytes, LastEntry, StrideReads;
    if p.readSectors >= 2 {
      LargeReadsFit(p, 0);
    } else {
      OneSectorReads(p);
      TableOfSingleSectors(p);
      if RoomForLatencies(p) {
        EntryIs(p, LastEntry(p));
        LatenciesFewer(p, 0, ReadBytes(p), 0);
      } else {
        SmallEntries(p);
        hide Entry;
        LatenciesAre(p, 0, ReadBytes(p), 0);
      }
    }
  }

  /** A disk of 1 MB read sector by sector for a graph of 70 buckets: some stride has more latencies than places. */
  lemma SingleSectorsOverflow(p: Plan)
    requires p == Plan(1_048_576, 512, 70, AdjustedSize(512, 512) / 512)
    ensures Sane(p) && !AllFit(p, 0)
  {
    hide AllFit, StrideReads;
    LatenciesFit(p);
  }

  lemma OneSectorReads(p: Plan)
    requires Sane(p) && p.readSectors < 2
    ensures p.readSectors == 1
  {
  }
}
