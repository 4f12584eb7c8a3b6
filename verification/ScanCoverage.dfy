/** Which bytes of the disk a scan reads at all, in whatever order and how often. */
module ScanCoverage {
  import opened Bits
  import opened ScanPlan

  predicate Within(x: Extent, b: nat) {
    x.offset <= b < x.offset + x.size
  }

  /** Some read contains the byte. */
  ghost predicate Reads(s: seq<Extent>, b: nat) {
    exists k :: 0 <= k < |s| && Within(s[k], b)
  }

  ghost predicate Covered(p: Plan)
    requires Sane(p)
  {
    forall b :: 0 <= b < p.numBytes ==> Reads(ScanReads(p, 0), b)
  }

  /** Length of the first stride, the longest. */
  function Reach(p: Plan): nat
    requires Sane(p)
  {
    Min(StrideBytes(p), p.numBytes)
  }

  /** From some entry of the table a read gets to the end of a stride. */
  ghost predicate TableReaches(p: Plan)
    requires Sane(p)
  {
    exists i :: 0 <= i <= LastEntry(p) && Reach(p) <= Entry(p, i) + ReadBytes(p)
  }

  lemma ReadsConcat(s: seq<Extent>, t: seq<Extent>, b: nat)
    ensures Reads(s + t, b) <==> Reads(s, b) || Reads(t, b)
  {
    if Reads(s, b) {
      var k :| 0 <= k < |s| && Within(s[k], b);
      assert (s + t)[k] == s[k];
    }
    if Reads(t, b) {
      var k :| 0 <= k < |t| && Within(t[k], b);
      assert (s + t)[|s| + k] == t[k];
    }
    if Reads(s + t, b) {
      var k :| 0 <= k < |s + t| && Within((s + t)[k], b);
      if k < |s| { assert Within(s[k], b); } else { assert Within(t[k - |s|], b); }
    }
  }

  lemma ReadsOne(x: Extent, b: nat)
    ensures Reads([x], b) <==> Within(x, b)
    ensures !Reads([], b)
  {
    if Within(x, b) { assert Within([x][0], b); }
  }

  // ----- bytes that are read

  /** The first entry that comes closer to the end of the stride than a read is still read up to that end. */
  lemma {:induction false} Performed(p: Plan, base: nat, from: nat, i: nat, b: nat)
    requires Sane(p) && base < p.numBytes && from <= i <= LastEntry(p)
    requires forall j :: from <= j < i ==> base + Entry(p, j) + ReadBytes(p) <= StrideEnd(p, base)
    requires base + Entry(p, i) <= b < StrideEnd(p, base) && b < base + Entry(p, i) + ReadBytes(p)
    ensures Reads(StrideReads(p, base, ReadBytes(p), from), b)
    decreases i - from
  {
    Facts(p);
    hide Sane, LastEntry, StrideReads, Entry, ReadBytes, StrideBytes, ToInt, Reads;
    var d, e := ReadBytes(p), StrideEnd(p, base);
    var offset := base + Entry(p, from);
    var size' := Min(e - offset, d);
    StrideReadsStep(p, base, d, from, offset, size');
    ToIntSame(size');
    var x, rest := Extent(offset, size'), StrideReads(p, base, size', from + 1);
    ReadsConcat([x], rest, b);
    ReadsOne(x, b);
    if from < i { Performed(p, base, from + 1, i, b); }
  }

  /** The least entry from which a read gets to the end of the stride. */
  lemma FirstReaching(p: Plan, reach: nat) returns (i: nat)
    requires Sane(p) && exists k :: 0 <= k <= LastEntry(p) && reach <= Entry(p, k) + ReadBytes(p)
    ensures i <= LastEntry(p) && reach <= Entry(p, i) + ReadBytes(p)
    ensures forall j :: 0 <= j < i ==> Entry(p, j) + ReadBytes(p) < reach
  {
    hide Sane, LastEntry, Entry, ReadBytes;
    i := 0;
    while reach > Entry(p, i) + ReadBytes(p)
      invariant i <= LastEntry(p)
      invariant forall j :: 0 <= j < i ==> Entry(p, j) + ReadBytes(p) < reach
      decreases LastEntry(p) - i
    {
      i := i + 1;
    }
  }

  lemma Block(x: nat, d: nat, q: nat) returns (i: nat)
    requires d > 0 && x < (q + 1) * d
    ensures i <= q && i * d <= x < i * d + d
  {
    i := x / d;
    DivBounds(x, d);
    if i > q { MulMono(q + 1, i, d); }
  }

  /** Entries in front of one that did not wrap lie a read apart. */
  lemma EntriesInFront(p: Plan, i: nat, j: nat)
    requires Sane(p) && j <= i <= LastEntry(p) && i * ReadBytes(p) < TWO_32
    ensures Entry(p, j) == j * ReadBytes(p)
    ensures j < i ==> j * ReadBytes(p) + ReadBytes(p) <= i * ReadBytes(p)
  {
    hide Sane, LastEntry, Entry, ReadBytes;
    MulMono(j, i, ReadBytes(p));
    EntryIs(p, j);
    if j < i {
      MulNext(j, ReadBytes(p));
      MulMono(j + 1, i, ReadBytes(p));
    }
  }

  lemma ReadInOrder(p: Plan, base: nat, i: nat, b: nat)
    requires Sane(p) && base < p.numBytes && i <= LastEntry(p) && i * ReadBytes(p) < TWO_32
    requires base + i * ReadBytes(p) <= b < StrideEnd(p, base) && b < base + i * ReadBytes(p) + ReadBytes(p)
    ensures Reads(StrideReads(p, base, ReadBytes(p), 0), b)
  {
    hide Sane, LastEntry, StrideReads, StrideEnd, Entry, ReadBytes, Reads;
    EntriesInFront(p, i, i);
    forall j | 0 <= j < i
      ensures base + Entry(p, j) + ReadBytes(p) <= StrideEnd(p, base)
    {
      EntriesInFront(p, i, j);
    }
    Performed(p, base, 0, i, b);
  }

  lemma ReadAtEnd(p: Plan, base: nat, b: nat)
    requires Sane(p) && TableReaches(p) && base + TWO_32 <= b < StrideEnd(p, base)
    ensures Reads(StrideReads(p, base, ReadBytes(p), 0), b)
  {
    hide Sane, LastEntry, StrideReads, Entry, ReadBytes, StrideBytes, Reads;
    var i := FirstReaching(p, StrideEnd(p, base) - base);
    EntryBelow(p, i);
    Performed(p, base, 0, i, b);
  }

  lemma StrideIsRead(p: Plan, base: nat, b: nat)
    requires Sane(p) && TableReaches(p) && base <= b < StrideEnd(p, base)
    ensures Reads(StrideReads(p, base, ReadBytes(p), 0), b)
  {
    Facts(p);
    hide Sane, LastEntry, StrideReads, Entry, ReadBytes, StrideBytes, Reads, TableReaches;
    var i := Block(b - base, ReadBytes(p), LastEntry(p));
    if i * ReadBytes(p) < TWO_32 {
      ReadInOrder(p, base, i, b);
    } else {
      ReadAtEnd(p, base, b);
    }
  }

  lemma EntryBelow(p: Plan, i: nat)
    ensures 0 <= Entry(p, i) < TWO_32
  {
    hide ReadBytes;
  }

  lemma {:induction false} RestIsRead(p: Plan, base: nat, b: nat)
    requires Sane(p) && TableReaches(p) && base <= b < p.numBytes
    ensures Reads(ScanReads(p, base), b)
    decreases p.numBytes - base
  {
    hide Sane, StrideReads, ScanReads, ReadBytes, StrideBytes, Reads, TableReaches;
    ScanReadsStep(p, base);
    ReadsConcat(StrideReads(p, base, ReadBytes(p), 0), ScanReads(p, base + StrideBytes(p)), b);
    if b < StrideEnd(p, base) {
      StrideIsRead(p, base, b);
    } else {
      RestIsRead(p, base + StrideBytes(p), b);
    }
  }

  // ----- bytes that are not

  /** A byte of the first stride behind the ends of the reads from all entries. */
  lemma {:induction false} FirstStrideMisses(p: Plan, i: nat, b: nat)
    requires Sane(p) && i <= LastEntry(p) + 1 && b < StrideEnd(p, 0)
    requires forall j :: i <= j <= LastEntry(p) ==> Entry(p, j) + ReadBytes(p) <= b
    ensures !Reads(StrideReads(p, 0, ReadBytes(p), i), b)
    decreases LastEntry(p) + 1 - i
  {
    Facts(p);
    hide Sane, LastEntry, StrideReads, Entry, ReadBytes, StrideBytes, ToInt, Reads;
    var d := ReadBytes(p);
    if i == LastEntry(p) + 1 {
      PastTheTable(p, 0, d);
      ReadsOne(Extent(0, 0), b);
    } else {
      var x := Extent(Entry(p, i), d);
      StrideReadsStep(p, 0, d, i, Entry(p, i), d);
      ToIntSame(d);
      FirstStrideMisses(p, i + 1, b);
      ReadsConcat([x], StrideReads(p, 0, d, i + 1), b);
      ReadsOne(x, b);
    }
  }

  lemma {:induction false} StrideIsAhead(p: Plan, base: nat, size: int, i: nat, b: nat)
    requires Sane(p) && i <= LastEntry(p) + 1 && b < base
    ensures !Reads(StrideReads(p, base, size, i), b)
    decreases LastEntry(p) + 1 - i
  {
    hide Sane, LastEntry, StrideReads, Entry, ReadBytes, StrideBytes, ToInt, Reads;
    if i == LastEntry(p) + 1 {
      PastTheTable(p, base, size);
      ReadsOne(Extent(0, 0), b);
    } else {
      EntryBelow(p, i);
      var offset := base + Entry(p, i);
      var size' := Min(StrideEnd(p, base) - offset, size);
      StrideReadsStep(p, base, size, i, offset, size');
      StrideIsAhead(p, base, size', i + 1, b);
      var x, rest := Extent(offset, ToInt(size')), StrideReads(p, base, size', i + 1);
      ReadsConcat([x], rest, b);
      ReadsOne(x, b);
      assert [] + rest == rest;
    }
  }

  lemma {:induction false} RestIsAhead(p: Plan, base: nat, b: nat)
    requires Sane(p) && b < base
    ensures !Reads(ScanReads(p, base), b)
    decreases p.numBytes - base
  {
    hide Sane, StrideReads, ScanReads, ReadBytes, StrideBytes, Reads;
    if base >= p.numBytes {
      ScanReadsEnd(p, base);
      ReadsOne(Extent(0, 0), b);
    } else {
      ScanReadsStep(p, base);
      StrideIsAhead(p, base, ReadBytes(p), 0, b);
      RestIsAhead(p, base + StrideBytes(p), b);
      ReadsConcat(StrideReads(p, base, ReadBytes(p), 0), ScanReads(p, base + StrideBytes(p)), b);
    }
  }

  /** A byte of the first stride that no read from an entry of the table gets to is not read by the whole scan. */
  lemma NotRead(p: Plan, b: nat)
    requires Sane(p) && b < Reach(p)
    requires forall i :: 0 <= i <= LastEntry(p) ==> Entry(p, i) + ReadBytes(p) <= b
    ensures !Reads(ScanReads(p, 0), b)
  {
    hide Sane, StrideReads, ScanReads, ReadBytes, StrideBytes, Reads, Entry, LastEntry;
    ScanReadsStep(p, 0);
    FirstStrideMisses(p, 0, b);
    RestIsAhead(p, StrideBytes(p), b);
    ReadsConcat(StrideReads(p, 0, ReadBytes(p), 0), ScanReads(p, StrideBytes(p)), b);
  }

  // ----- the condition

  /** The scan reads every byte of the disk exactly when a read from some entry of the table gets to the end of a
      stride. */
  lemma DiskCovered(p: Plan)
    requires Sane(p)
    ensures Covered(p) <==> TableReaches(p)
  {
    hide Sane, StrideReads, ScanReads, ReadBytes, StrideBytes, Reads, Entry, LastEntry;
    if TableReaches(p) {
      forall b | 0 <= b < p.numBytes
        ensures Reads(ScanReads(p, 0), b)
      {
        RestIsRead(p, 0, b);
      }
    } else {
      ReachPositive(p);
      NotRead(p, Reach(p) - 1);
    }
  }

  lemma ReachPositive(p: Plan)
    requires Sane(p)
    ensures 0 < Reach(p) <= p.numBytes
  {
    Facts(p);
    hide StrideBytes, ReadBytes, Stride, LastEntry;
  }

  /** A table that fits reaches, and so does one that wraps in strides of at most 4 GiB; in strides longer than that
      by a read none does. */
  lemma ReachBounds(p: Plan)
    requires Sane(p)
    ensures TableFits(p) || Reach(p) <= TWO_32 ==> TableReaches(p)
    ensures TableReaches(p) ==> Reach(p) < TWO_32 + ReadBytes(p)
  {
    Facts(p);
    hide Sane, Stride, StrideBytes, ReadBytes, LastEntry, Entry;
    var d, q := ReadBytes(p), LastEntry(p);
    if TableFits(p) {
      EntryIs(p, q);
      MulNext(q, d);
      assert Reach(p) <= Entry(p, q) + d;
    } else if Reach(p) <= TWO_32 {
      var w := FirstWrapped(p);
      EntryIs(p, w - 1);
      MulNext(w - 1, d);
      assert Reach(p) <= Entry(p, w - 1) + d;
    }
    if TableReaches(p) {
      var i :| 0 <= i <= q && Reach(p) <= Entry(p, i) + d;
      EntryBelow(p, i);
    }
  }

  /** When 4 GiB is a whole number of reads, no read goes beyond the first 4 GiB of its stride. */
  lemma EntryOfWhole(p: Plan, i: nat)
    requires Sane(p) && TWO_32 % ReadBytes(p) == 0
    ensures Entry(p, i) + ReadBytes(p) <= TWO_32
  {
    Facts(p);
    hide Sane, ReadBytes;
    var n := Quotient(ReadBytes(p));
    WholeBlocks(i, ReadBytes(p), n);
  }

  lemma Quotient(d: nat) returns (n: nat)
    requires 0 < d < TWO_32 && TWO_32 % d == 0
    ensures n > 0 && n * d == TWO_32
  {
    n := TWO_32 / d;
    assert n * d == TWO_32;
  }

  lemma WholeBlocks(i: nat, d: nat, n: nat)
    requires n > 0 && n * d == TWO_32
    ensures i * d % TWO_32 + d <= TWO_32
  {
    DivBounds(i, n);
    WholeBlock(i / n, i - i / n * n, n, d);
  }

  lemma WholeBlock(m: nat, r: nat, n: nat, d: nat)
    requires r < n && n * d == TWO_32
    ensures (m * n + r) * d % TWO_32 + d <= TWO_32
  {
    MulMono(r + 1, n, d);
    MulNext(r, d);
    MulMono(0, r, d);
    Distribute(m, n, r, d);
    DivModUnique((m * n + r) * d, TWO_32, m, r * d);
  }

  lemma Distribute(m: nat, n: nat, r: nat, d: nat)
    ensures (m * n + r) * d == m * (n * d) + r * d
  {
  }

  /** The disk has at most 4 GiB, or fewer sectors than all buckets of the graph at 4 GiB each. */
  predicate FitsGraph(p: Plan)
    requires Sane(p)
  {
    p.numBytes <= TWO_32 || p.numBytes / p.sectorSize < TWO_32 / p.sectorSize * p.graphLen
  }

  /** That is when strides have at most 4 GiB. */
  lemma ReachFits(p: Plan)
    requires Sane(p)
    ensures Reach(p) <= TWO_32 <==> FitsGraph(p)
  {
    var s, l, m := p.sectorSize, Stride(p), TWO_32 / p.sectorSize;
    StrideIsLeast(p, l);
    DivBounds(TWO_32, s);
    hide Sane, Stride, ReadBytes;
    if l <= m {
      MulMono(l, m, p.graphLen);
      MulMono(l, m, s);
    } else {
      MulMono(m, l - 1, p.graphLen);
      MulMono(m + 1, l, s);
      MulNext(m, s);
    }
  }

  /** For the usual reads of a power of two bytes: everything is read exactly when the disk fits its graph. */
  lemma WholeReadsCover(p: Plan)
    requires Sane(p) && TWO_32 % ReadBytes(p) == 0
    ensures Covered(p) <==> FitsGraph(p)
    ensures !FitsGraph(p) ==> !Reads(ScanReads(p, 0), TWO_32)
  {
    hide Sane, StrideBytes, ReadBytes, Entry, LastEntry, Reads, ScanReads, Covered, Reach, FitsGraph;
    ReachFits(p);
    DiskCovered(p);
    ReachBounds(p);
    forall i | 0 <= i <= LastEntry(p)
      ensures Entry(p, i) + ReadBytes(p) <= TWO_32
    {
      EntryOfWhole(p, i);
    }
    if TWO_32 < Reach(p) { NotRead(p, TWO_32); }
  }

  /** A disk of 4 TB with sectors of 512 bytes, a graph of 70 buckets and reads of 64 KiB: the byte at 4 GiB is not
      read. */
  lemma LargeDiskHasGaps(p: Plan)
    requires p == Plan(4_000_000_000_000, 512, 70, AdjustedSize(65536, 512) / 512)
    ensures Sane(p) && TWO_32 < p.numBytes && !Reads(ScanReads(p, 0), TWO_32) && !Covered(p)
  {
    assert p.readSectors == 128 && TWO_32 % ReadBytes(p) == 0;
    hide Reads, ScanReads;
    WholeReadsCover(p);
  }

  /** The plans of the command line, for sectors of 512 bytes and its default reads: everything is read exactly on
      disks of less than 280 GiB. */
  lemma CommandLineDisks(p: Plan)
    requires p == Plan(p.numBytes, 512, 70, AdjustedSize(65536, 512) / 512) && Sane(p)
    ensures Covered(p) <==> p.numBytes < 70 * TWO_32
  {
    assert p.readSectors == 128 && TWO_32 % ReadBytes(p) == 0;
    hide Reads, ScanReads, Covered;
    WholeReadsCover(p);
  }

  /** Reading everything is less than reading it once and in order: on this disk of just under 4 GiB, a single stride,
      the entry that wraps reads the first block a second time. */
  lemma CoveredTwice(p: Plan)
    requires p == Plan(0xFFFF_FE00, 512, 1, AdjustedSize(65536, 512) / 512)
    ensures Sane(p) && Covered(p) && !Tiles(ScanReads(p, 0), 0, p.numBytes)
  {
    assert p.readSectors == 128 && !TableFits(p) && Reach(p) <= TWO_32;
    hide Reads, ScanReads, Tiles, TableFits;
    ScanTiles(p);
    DiskCovered(p);
    ReachBounds(p);
  }
}
