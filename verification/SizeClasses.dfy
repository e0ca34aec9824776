/** The tables that map a rounded request to a size class: kernel heap zones and UMA buckets. */
module SizeClasses {
  import opened Machine

  // ---- What a table has to answer ----

  /** Linear search: the first class that holds `need`, or the number of classes. */
  function First(sizes: seq<nat>, need: nat): (c: nat)
    ensures c <= |sizes|
    ensures c < |sizes| ==> need <= sizes[c]
    ensures forall d :: 0 <= d < c ==> sizes[d] < need
  {
    if sizes == [] || need <= sizes[0] then 0 else 1 + First(sizes[1..], need)
  }

  lemma FirstIs(sizes: seq<nat>, need: nat, c: nat)
    requires c <= |sizes| && (c < |sizes| ==> need <= sizes[c]) && forall d :: 0 <= d < c ==> sizes[d] < need
    ensures First(sizes, need) == c
  {
  }

  /** Entry `k` is the class for `k * step`, and no class holds what lies behind the table. */
  predicate Built(table: seq<nat>, sizes: seq<nat>, step: nat) {
    && (forall k :: 0 <= k < |table| ==> table[k] < |sizes| && table[k] == First(sizes, k * step))
    && First(sizes, |table| * step) == |sizes|
  }

  predicate Multiples(sizes: seq<nat>, step: nat)
    requires step > 0
  {
    forall c :: 0 <= c < |sizes| ==> sizes[c] % step == 0
  }

  predicate Increasing(sizes: seq<nat>) {
    forall c, d :: 0 <= c < d < |sizes| ==> sizes[c] < sizes[d]
  }

  /** The number of steps that cover `need`. */
  function Steps(need: nat, step: nat): (k: nat)
    requires step > 0
  {
    (need + step - 1) / step
  }

  lemma StepsRound(need: nat, step: nat)
    requires step > 0
    ensures Steps(need, step) * step == AlignUp(need, step)
  {
    var x := need + step - 1;
    assert x == x / step * step + x % step;
  }

  /** A multiple of the step holds `need` exactly if it holds `need` rounded up. */
  lemma RoundedFits(size: nat, need: nat, step: nat)
    requires step > 0 && size % step == 0
    ensures need <= size <==> AlignUp(need, step) <= size
  {
    AlignUpNearest(need, step);
    var up := AlignUp(need, step);
    if size < up {
      MultiplesApart(size, up, step);
    }
  }

  /** The lookup with the rounded request does what linear search does with the request. */
  predicate Agrees(table: seq<nat>, sizes: seq<nat>, step: nat, need: nat)
    requires step > 0
  {
    var k := Steps(need, step);
    && (k < |table| <==> First(sizes, need) < |sizes|)
    && (k < |table| ==> table[k] == First(sizes, need))
  }

  /** What linear search finds for the rounded request is what the table holds for it. */
  lemma LookupIs(table: seq<nat>, sizes: seq<nat>, step: nat, need: nat)
    requires step > 0 && Built(table, sizes, step)
    ensures var k, up := Steps(need, step), AlignUp(need, step);
            && (k < |table| <==> First(sizes, up) < |sizes|)
            && (k < |table| ==> table[k] == First(sizes, up))
  {
    var k, n := Steps(need, step), |table|;
    StepsRound(need, step);
    if k >= n {
      MulGrows(n, k, step);
      FirstIs(sizes, k * step, |sizes|);
    }
  }

  lemma MulGrows(n: nat, k: nat, step: nat)
    requires n <= k
    ensures n * step <= k * step
  {
  }

  lemma LookupAgrees(table: seq<nat>, sizes: seq<nat>, step: nat, need: nat)
    requires step > 0 && Built(table, sizes, step) && Multiples(sizes, step)
    ensures Agrees(table, sizes, step, need)
  {
    LookupIs(table, sizes, step, need);
    var c, up := First(sizes, need), AlignUp(need, step);
    AlignUpNearest(need, step);
    if c < |sizes| {
      RoundedFits(sizes[c], need, step);
    }
    FirstIs(sizes, up, c);
  }

  /** A class that is not a multiple of the step is missed by a request of exactly its size. */
  lemma OddClassMissed(table: seq<nat>, sizes: seq<nat>, step: nat, c: nat)
    requires step > 0 && Built(table, sizes, step) && Increasing(sizes)
    requires c < |sizes| && sizes[c] % step != 0
    ensures !Agrees(table, sizes, step, sizes[c])
  {
    var need := sizes[c];
    FirstIs(sizes, need, c);
    LookupIs(table, sizes, step, need);
    AlignUpNearest(need, step);
    var up := AlignUp(need, step);
    assert up != need;
    assert First(sizes, up) != c;
  }

  /** Rounded lookup is linear search on every request exactly if every class is a multiple of the step. */
  lemma AgreesExactly(table: seq<nat>, sizes: seq<nat>, step: nat)
    requires step > 0 && Built(table, sizes, step) && Increasing(sizes)
    ensures (forall need: nat :: Agrees(table, sizes, step, need)) <==> Multiples(sizes, step)
  {
    if Multiples(sizes, step) {
      forall need: nat ensures Agrees(table, sizes, step, need) {
        LookupAgrees(table, sizes, step, need);
      }
    } else {
      var c :| 0 <= c < |sizes| && sizes[c] % step != 0;
      OddClassMissed(table, sizes, step, c);
    }
  }

  /** Among increasing classes the first that fits is the smallest that fits. */
  lemma FirstIsLeast(sizes: seq<nat>, need: nat, c: nat)
    requires Increasing(sizes) && c < |sizes| && need <= sizes[c]
    ensures First(sizes, need) < |sizes| && sizes[First(sizes, need)] <= sizes[c]
  {
    var f := First(sizes, need);
    assert f <= c;
  }

  // ---- Building a table ----

  /** The table when the classes before `c` have been entered and `last` is the next request. */
  predicate Partial(table: seq<nat>, last: nat, sizes: seq<nat>, step: nat, c: nat) {
    && c <= |sizes| && last == |table| * step
    && (forall k :: 0 <= k < |table| ==> table[k] < |sizes| && table[k] == First(sizes, k * step))
    && (forall d :: 0 <= d < c ==> sizes[d] < last)
  }

  lemma PartialSnoc(table: seq<nat>, last: nat, sizes: seq<nat>, step: nat, c: nat)
    requires Partial(table, last, sizes, step, c) && c < |sizes| && last <= sizes[c]
    ensures Partial(table + [c], last + step, sizes, step, c)
  {
    FirstIs(sizes, last, c);
    MulNext(|table|, step);
  }

  lemma MulNext(k: nat, step: nat)
    ensures (k + 1) * step == k * step + step
  {
  }

  lemma PartialDone(table: seq<nat>, last: nat, sizes: seq<nat>, step: nat)
    requires Partial(table, last, sizes, step, |sizes|)
    ensures Built(table, sizes, step)
  {
    FirstIs(sizes, last, |sizes|);
  }

  /** The inner loop: entries for class `c` until the next request is greater than its size. */
  method EnterClass(table0: seq<nat>, last0: nat, c: nat, size: nat, step: nat, ghost sizes: seq<nat>)
    returns (table: seq<nat>, last: nat)
    requires step > 0 && Partial(table0, last0, sizes, step, c) && c < |sizes| && size == sizes[c]
    ensures Partial(table, last, sizes, step, c + 1)
  {
    table, last := table0, last0;
    while last <= size
      invariant Partial(table, last, sizes, step, c)
      decreases size + 1 - last
    {
      PartialSnoc(table, last, sizes, step, c);
      table, last := table + [c], last + step;
    }
  }

  // ---- Kernel heap zones ----

  const KMEM_ZSHIFT: nat := 4
  const KMEM_ZBASE: nat := 16

  function ZoneSizes(): (sizes: seq<nat>)
    ensures |sizes| == PAGE_SHIFT - KMEM_ZSHIFT + 1
    ensures forall c :: 0 <= c < |sizes| ==> sizes[c] == Pow2(c + KMEM_ZSHIFT)
  {
    seq<nat>(PAGE_SHIFT - KMEM_ZSHIFT + 1, (c: nat) => Pow2(c + KMEM_ZSHIFT))
  }

  lemma {:induction false} Pow2Grows(j: nat, k: nat)
    requires j < k
    ensures Pow2(j) < Pow2(k)
  {
    if j + 1 < k {
      Pow2Grows(j, k - 1);
    }
  }

  lemma ShiftIsPage(i: nat)
    ensures Pow2(KMEM_ZSHIFT) == KMEM_ZBASE && Pow2(PAGE_SHIFT) == PAGE
    ensures Pow2(i) <= PAGE <==> i <= PAGE_SHIFT
  {
    assert Pow2(4) == 16;
    assert Pow2(8) == 256;
    assert Pow2(12) == 4096;
    assert Pow2(14) == 16384;
    if i < PAGE_SHIFT {
      Pow2Grows(i, PAGE_SHIFT);
    } else if PAGE_SHIFT < i {
      Pow2Grows(PAGE_SHIFT, i);
    }
  }

  lemma {:induction false} Pow2Scales(k: nat)
    ensures Pow2(KMEM_ZSHIFT + k) == KMEM_ZBASE * Pow2(k)
  {
    if k == 0 {
      ShiftIsPage(0);
    } else {
      Pow2Scales(k - 1);
    }
  }

  lemma ZoneSizesAre()
    ensures Multiples(ZoneSizes(), KMEM_ZBASE) && Increasing(ZoneSizes())
  {
    var sizes := ZoneSizes();
    forall c | 0 <= c < |sizes| ensures sizes[c] % KMEM_ZBASE == 0 {
      Pow2Scales(c);
    }
    forall c, d | 0 <= c < d < |sizes| ensures sizes[c] < sizes[d] {
      Pow2Grows(c + KMEM_ZSHIFT, d + KMEM_ZSHIFT);
    }
  }

  /** The zone table of one alignment; a zone is named by its position among the sizes. */
  method HeapTable() returns (table: seq<nat>)
    ensures Built(table, ZoneSizes(), KMEM_ZBASE)
  {
    ghost var sizes := ZoneSizes();
    var last := 0;
    table := [];
    var i := KMEM_ZSHIFT;
    ShiftIsPage(i);
    while Pow2(i) <= PAGE
      invariant KMEM_ZSHIFT <= i <= PAGE_SHIFT + 1
      invariant Pow2(i) <= PAGE <==> i <= PAGE_SHIFT
      invariant Partial(table, last, sizes, KMEM_ZBASE, i - KMEM_ZSHIFT)
      decreases PAGE_SHIFT + 1 - i
    {
      table, last := EnterClass(table, last, i - KMEM_ZSHIFT, Pow2(i), KMEM_ZBASE, sizes);
      i := i + 1;
      ShiftIsPage(i);
    }
    PartialDone(table, last, sizes, KMEM_ZBASE);
  }

  /** The rounding of `alloc`, written with masks as the source does. */
  function HeapIndex(size: nat): nat {
    (if And(size, KMEM_ZBASE - 1) != 0 then And(size + KMEM_ZBASE, U64 - KMEM_ZBASE) else size) / KMEM_ZBASE
  }

  lemma HeapIndexRounds(size: nat)
    requires size <= PAGE
    ensures HeapIndex(size) == Steps(size, KMEM_ZBASE)
  {
    assert And(size, KMEM_ZBASE - 1) == size % 16 && And(size + KMEM_ZBASE, U64 - KMEM_ZBASE) == AlignDown(size + 16, 16) by {
      Times16(1);
      AndLowMask(size, KMEM_ZBASE);
      AndWordMask(size + KMEM_ZBASE, KMEM_ZBASE);
    }
    NextMultiple(size);
  }

  lemma NextMultiple(x: nat)
    ensures (if x % 16 != 0 then AlignDown(x + 16, 16) else x) / 16 == (x + 15) / 16
  {
  }

  function HeapZone(table: seq<nat>, size: nat): Run<nat> {
    if size > PAGE then Aborts(Unimplemented)
    else if HeapIndex(size) >= |table| then Aborts(OutOfBounds)
    else Returns(table[HeapIndex(size)])
  }

  /** Every request up to a page gets the smallest power of two, from 16 up, that holds it. */
  lemma HeapZoneFits(table: seq<nat>, size: nat)
    requires Built(table, ZoneSizes(), KMEM_ZBASE)
    ensures size <= PAGE <==> HeapZone(table, size).Returns?
    ensures size <= PAGE ==>
      var c := HeapZone(table, size).value;
      c == First(ZoneSizes(), size) < |ZoneSizes()| && FitsTightly(Pow2(c + KMEM_ZSHIFT), size)
  {
    if size <= PAGE {
      var sizes := ZoneSizes();
      HeapIndexRounds(size);
      ZoneSizesAre();
      LookupAgrees(table, sizes, KMEM_ZBASE, size);
      ShiftIsPage(PAGE_SHIFT);
      FirstIsLeast(sizes, size, |sizes| - 1);
      var c := First(sizes, size);
      if c > 0 {
        assert sizes[c - 1] < size;
      }
    }
  }

  /** Large enough for the request, and less than twice it unless it is the smallest zone. */
  predicate FitsTightly(zone: nat, size: nat) {
    size <= zone && KMEM_ZBASE <= zone && (zone == KMEM_ZBASE || zone < 2 * size)
  }

  // ---- UMA buckets ----

  const BUCKET_MAX: nat := 128
  const BUCKET_SHIFT: nat := 4
  const BUCKET_SIZES: seq<nat> := [16, 32, 64, 128]
  const BUCKET_STEP: nat := 16

  lemma BucketSizesAre()
    ensures Multiples(BUCKET_SIZES, BUCKET_STEP) && Increasing(BUCKET_SIZES)
  {
  }

  method BucketKeys() returns (keys: seq<nat>)
    ensures Built(keys, BUCKET_SIZES, BUCKET_STEP)
  {
    keys := [];
    var ki := 0;
    var si := 0;
    while si < |BUCKET_SIZES|
      invariant 0 <= si <= |BUCKET_SIZES| && Partial(keys, ki, BUCKET_SIZES, BUCKET_STEP, si)
    {
      keys, ki := EnterClass(keys, ki, si, BUCKET_SIZES[si], BUCKET_STEP, BUCKET_SIZES);
      si := si + 1;
    }
    PartialDone(keys, ki, BUCKET_SIZES, BUCKET_STEP);
  }

  datatype ZoneType = Other | MbufPacket | MbufJumboPage | Mbuf | MbufCluster | MbufClusterPack

  /** What a zone is created with: two flags of its keg, the items per slab and its name. */
  datatype ZoneConfig = ZoneConfig(isInternal: bool, maxBucket: bool, ipers: nat, name: string)

  function TypeOf(z: ZoneConfig): ZoneType {
    if z.isInternal then Other
    else if z.name == "mbuf_packet" then MbufPacket
    else if z.name == "mbuf_cluster_pack" then MbufClusterPack
    else if z.name == "mbuf_jumbo_page" then MbufJumboPage
    else if z.name == "mbuf" then Mbuf
    else if z.name == "mbuf_cluster" then MbufCluster
    else Other
  }

  function InitialCount(z: ZoneConfig): nat {
    if z.isInternal then 0
    else
      match TypeOf(z)
      case MbufPacket => 4
      case MbufClusterPack => BUCKET_MAX
      case MbufJumboPage => 1
      case Mbuf => 16
      case MbufCluster => 1
      case Other => if z.maxBucket then BUCKET_MAX else Min(z.ipers, BUCKET_MAX)
  }

  /** The count after `misses` allocations that found no cached item, one growth at a time. */
  function CountAfter(z: ZoneConfig, misses: nat): nat {
    if misses == 0 then InitialCount(z)
    else Grow(TypeOf(z), CountAfter(z, misses - 1))
  }

  function Grow(ty: ZoneType, count: nat): nat {
    if ty == Other && count < BUCKET_MAX then count + 1 else count
  }

  /** On every run the count is the initial one plus the misses, up to the greatest bucket. */
  lemma {:induction false} CountIs(z: ZoneConfig, misses: nat)
    ensures CountAfter(z, misses) ==
            if TypeOf(z) == Other then Min(InitialCount(z) + misses, BUCKET_MAX) else InitialCount(z)
    ensures InitialCount(z) <= BUCKET_MAX
  {
    if misses > 0 {
      CountIs(z, misses - 1);
    }
  }

  /** In numbers: five mbuf zones have fixed counts; any other zone starts with its items per slab, 128 at most, and grows. */
  lemma CountsByName(z: ZoneConfig, misses: nat)
    ensures z.isInternal ==> CountAfter(z, misses) == Min(misses, 128)
    ensures !z.isInternal ==>
              && (z.name == "mbuf_packet" ==> CountAfter(z, misses) == 4)
              && (z.name == "mbuf_cluster_pack" ==> CountAfter(z, misses) == 128)
              && (z.name == "mbuf_jumbo_page" ==> CountAfter(z, misses) == 1)
              && (z.name == "mbuf" ==> CountAfter(z, misses) == 16)
              && (z.name == "mbuf_cluster" ==> CountAfter(z, misses) == 1)
              && (z.name !in {"mbuf_packet", "mbuf_cluster_pack", "mbuf_jumbo_page", "mbuf", "mbuf_cluster"} ==>
                    CountAfter(z, misses) == if z.maxBucket then 128 else Min(z.ipers + misses, 128))
  {
    CountIs(z, misses);
  }

  function BucketIndex(count: nat): nat {
    (count + 15) / Pow2(BUCKET_SHIFT)
  }

  /** The tables zones are created with: that of the four sizes, or none for the bucket zones themselves. */
  ghost predicate KeyTable(keys: seq<nat>) {
    keys == [] || Built(keys, BUCKET_SIZES, BUCKET_STEP)
  }

  /** The bucket zone for a count, where the lookup is in bounds. */
  function BucketFor(keys: seq<nat>, count: nat): Run<nat> {
    var i := BucketIndex(count);
    if i < |keys| then Returns(keys[i]) else Aborts(OutOfBounds)
  }

  /**
    Whatever a zone has been through, its bucket lookup is in bounds exactly if it has a table, and
    finds the smallest bucket for its count.
   */
  lemma BucketFits(keys: seq<nat>, z: ZoneConfig, misses: nat)
    requires KeyTable(keys)
    ensures BucketFor(keys, CountAfter(z, misses)).Returns? <==> keys != []
    ensures keys != [] ==>
              var count := CountAfter(z, misses);
              var k := BucketFor(keys, count).value;
              && k < |BUCKET_SIZES| && count <= BUCKET_SIZES[k]
              && forall c :: 0 <= c < |BUCKET_SIZES| && count <= BUCKET_SIZES[c] ==> BUCKET_SIZES[k] <= BUCKET_SIZES[c]
  {
    if keys != [] {
      CountIs(z, misses);
      BucketLookup(keys, CountAfter(z, misses));
    }
  }

  lemma BucketLookup(keys: seq<nat>, count: nat)
    requires Built(keys, BUCKET_SIZES, BUCKET_STEP) && count <= BUCKET_MAX
    ensures var i := BucketIndex(count);
            && i < |keys| && keys[i] < |BUCKET_SIZES| && count <= BUCKET_SIZES[keys[i]]
            && forall c :: 0 <= c < |BUCKET_SIZES| && count <= BUCKET_SIZES[c] ==> BUCKET_SIZES[keys[i]] <= BUCKET_SIZES[c]
  {
    ShiftIsPage(0);
    BucketSizesAre();
    LookupAgrees(keys, BUCKET_SIZES, BUCKET_STEP, count);
    FirstIsLeast(BUCKET_SIZES, count, 3);
    forall c | 0 <= c < |BUCKET_SIZES| && count <= BUCKET_SIZES[c]
      ensures BUCKET_SIZES[First(BUCKET_SIZES, count)] <= BUCKET_SIZES[c]
    {
      FirstIsLeast(BUCKET_SIZES, count, c);
    }
  }

  /** A zone as `alloc` sees it when the caches and the full buckets are empty. */
  class Zone {
    const ty: ZoneType
    var count: nat
    const keys: seq<nat>
    ghost const config: ZoneConfig
    ghost var misses: nat

    ghost predicate Valid()
      reads this
    {
      ty == TypeOf(config) && count == CountAfter(config, misses) && KeyTable(keys)
    }

    constructor (z: ZoneConfig, keys: seq<nat>)
      requires KeyTable(keys)
      ensures Valid() && config == z && misses == 0 && this.keys == keys
    {
      var ty := Other;
      var count := 0;
      if !z.isInternal {
        count := if !z.maxBucket then Min(z.ipers, BUCKET_MAX) else BUCKET_MAX;
        if z.name == "mbuf_packet" {
          ty, count := MbufPacket, 4;
        } else if z.name == "mbuf_cluster_pack" {
          ty, count := MbufClusterPack, BUCKET_MAX;
        } else if z.name == "mbuf_jumbo_page" {
          ty, count := MbufJumboPage, 1;
        } else if z.name == "mbuf" {
          ty, count := Mbuf, 16;
        } else if z.name == "mbuf_cluster" {
          ty, count := MbufCluster, 1;
        }
      }
      this.ty, this.count, this.keys, config, misses := ty, count, keys, z, 0;
    }

    /** One miss: the bucket zone to allocate from. Four kinds of mbuf zones have no such path. */
    method Miss() returns (r: Run<nat>)
      requires Valid()
      modifies this
      ensures Valid()
      ensures if ty !in {Other, MbufClusterPack} then r == Aborts(Unimplemented) && misses == old(misses)
              else misses == old(misses) + 1 && r == BucketFor(keys, count) && (r.Returns? <==> keys != [])
      ensures r.Returns? ==> r.value < |BUCKET_SIZES| && count <= BUCKET_SIZES[r.value]
    {
      if ty in {MbufPacket, MbufJumboPage, Mbuf, MbufCluster} {
        return Aborts(Unimplemented);
      }
      if ty !in {MbufCluster, Mbuf, MbufJumboPage, MbufPacket, MbufClusterPack} && count < BUCKET_MAX {
        count := count + 1;
      }
      misses := misses + 1;
      BucketFits(keys, config, misses);
      if BucketIndex(count) >= |keys| {
        return Aborts(OutOfBounds);
      }
      return Returns(keys[BucketIndex(count)]);
    }
  }
}
