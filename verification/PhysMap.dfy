/**
  The physical memory map of the kernel: an array of start/end pairs out of which
  `reserve_phys` carves blocks and into which `adjust_pmap` gives ranges back.

  The functions work on the list of ranges that the array stands for; the class works on the array.
 */
module PhysMap {
  import opened Machine
  import opened Ranges

  /** The array has room for 30 pairs. */
  const SLOTS: nat := 60
  const MAX_RANGES: nat := 30

  // ---- The list of ranges an array stands for ----

  function Pairs(a: seq<nat>, last: nat): (rs: seq<Range>)
    requires last % 2 == 0 && last + 1 < |a|
    ensures |rs| == last / 2 + 1
    ensures forall k :: 0 <= k < |rs| ==> rs[k] == Range(a[2 * k], a[2 * k + 1])
  {
    seq(last / 2 + 1, k requires 0 <= k <= last / 2 => Range(a[2 * k], a[2 * k + 1]))
  }

  // ---- reserve_phys ----

  datatype Scan = Found(k: nat, addr: nat) | Missing | Underflow

  /** The scan of `reserve_phys` over the first `n` entries, from the top. */
  function ScanDown(rs: seq<Range>, n: nat, size: nat, align: nat): (s: Scan)
    requires n <= |rs| && align > 0
    ensures s.Found? ==> s.k < n
  {
    if n == 0 then Missing
    else if rs[n - 1].end < size then Underflow
    else
      var addr := AlignDown(rs[n - 1].end - size, align);
      if rs[n - 1].start <= addr then Found(n - 1, addr) else ScanDown(rs, n - 1, size, align)
  }

  /** One entry of the scan that is long enough. */
  lemma ScanOne(rs: seq<Range>, k: nat, size: nat, align: nat, addr: nat)
    requires k < |rs| && align > 0 && size <= rs[k].end && addr == AlignDown(rs[k].end - size, align)
    ensures ScanDown(rs, k + 1, size, align) ==
            if rs[k].start <= addr then Found(k, addr) else if k == 0 then Missing else ScanDown(rs, k, size, align)
  {
  }

  lemma {:induction false} ScanInside(rs: seq<Range>, n: nat, size: nat, align: nat)
    requires n <= |rs| && align > 0
    ensures var s := ScanDown(rs, n, size, align);
            s.Found? ==> rs[s.k].start <= s.addr && s.addr + size <= rs[s.k].end
  {
    if n > 0 && size <= rs[n - 1].end {
      AlignDownNearest(rs[n - 1].end - size, align);
      ScanInside(rs, n - 1, size, align);
    }
  }

  /**
    What `reserve_phys` does with the entry it stops at: the four array updates all leave the entry
    without the block, and two of them can run out of entries or of room.
   */
  function Taken(rs: seq<Range>, k: nat, addr: nat, size: nat): Run<(nat, seq<Range>)>
    requires k < |rs|
  {
    if addr == rs[k].start && addr + size == rs[k].end && |rs| == 1 then Aborts(Overflow)
    else if addr != rs[k].start && addr + size != rs[k].end && |rs| >= MAX_RANGES then Aborts(OutOfBounds)
    else Returns((addr, Carve(rs, k, addr, addr + size)))
  }

  /** `reserve_phys`: the address it returns and the map it leaves. */
  function Reserve(rs: seq<Range>, size: nat, align: nat): Run<(nat, seq<Range>)>
    requires align > 0
  {
    match ScanDown(rs, |rs|, size, align)
    case Missing => Returns((0, rs))
    case Underflow => Aborts(Overflow)
    case Found(k, addr) => Taken(rs, k, addr, size)
  }

  /** An aligned block of `size` bytes at `a` lies inside a single entry. */
  ghost predicate Fits(rs: seq<Range>, a: nat, size: nat, align: nat)
    requires align > 0
  {
    && a % align == 0
    && exists k :: 0 <= k < |rs| && rs[k].start <= a && a + size <= rs[k].end
  }

  /** Within one range the scan's address is the greatest aligned one that leaves room for the block. */
  lemma FitInRange(r: Range, size: nat, align: nat, b: nat)
    requires align > 0 && b % align == 0 && b + size <= r.end
    ensures b <= AlignDown(r.end - size, align)
  {
    var a := AlignDown(r.end - size, align);
    AlignDownNearest(r.end - size, align);
    if a < b {
      MultiplesApart(a, b, align);
    }
  }

  /** The greatest address at which a block fits. */
  ghost predicate Greatest(rs: seq<Range>, a: nat, size: nat, align: nat)
    requires align > 0
  {
    && Fits(rs, a, size, align)
    && forall b: nat :: Fits(rs, b, size, align) ==> b <= a
  }

  ghost predicate NoFit(rs: seq<Range>, size: nat, align: nat)
    requires align > 0
  {
    forall b: nat :: !Fits(rs, b, size, align)
  }

  /** What each outcome of the scan says about the entries it has looked at. */
  ghost predicate ScanMeans(rs: seq<Range>, n: nat, size: nat, align: nat, s: Scan)
    requires n <= |rs| && align > 0
  {
    match s
    case Found(k, a) => k < n && rs[k].start <= a && a + size <= rs[k].end && Greatest(rs[..n], a, size, align)
    case Missing => (n > 0 ==> size <= rs[0].end) && NoFit(rs[..n], size, align)
    case Underflow => n > 0 && rs[0].end < size && NoFit(rs[..n], size, align)
  }

  lemma {:induction false} ScanExact(rs: seq<Range>, n: nat, size: nat, align: nat)
    requires Sorted(rs) && n <= |rs| && size > 0 && align > 0
    ensures ScanMeans(rs, n, size, align, ScanDown(rs, n, size, align))
  {
    if n == 0 {
    } else if rs[n - 1].end < size {
      TooShort(rs, n, size, align);
    } else if rs[n - 1].start <= AlignDown(rs[n - 1].end - size, align) {
      TopFits(rs, n, size, align);
    } else {
      ScanExact(rs, n - 1, size, align);
      SortedGrows(rs, 0, n - 1);
      forall b: nat ensures Fits(rs[..n], b, size, align) <==> Fits(rs[..n - 1], b, size, align) {
        FitsBelow(rs, n, size, align, b);
      }
    }
  }

  lemma TooShort(rs: seq<Range>, n: nat, size: nat, align: nat)
    requires Sorted(rs) && 0 < n <= |rs| && align > 0 && rs[n - 1].end < size
    ensures rs[0].end < size && NoFit(rs[..n], size, align)
  {
    SortedGrows(rs, 0, n - 1);
    forall b: nat ensures !Fits(rs[..n], b, size, align) {
      if Fits(rs[..n], b, size, align) {
        var k :| 0 <= k < n && rs[..n][k].start <= b && b + size <= rs[..n][k].end;
        SortedGrows(rs, k, n - 1);
      }
    }
  }

  lemma TopFits(rs: seq<Range>, n: nat, size: nat, align: nat)
    requires Sorted(rs) && 0 < n <= |rs| && align > 0 && size <= rs[n - 1].end
    requires rs[n - 1].start <= AlignDown(rs[n - 1].end - size, align)
    ensures Greatest(rs[..n], AlignDown(rs[n - 1].end - size, align), size, align)
  {
    var e := rs[n - 1];
    assert rs[..n][n - 1] == e;
    AlignDownNearest(e.end - size, align);
    forall b: nat | Fits(rs[..n], b, size, align) ensures b <= AlignDown(e.end - size, align) {
      var k :| 0 <= k < n && rs[..n][k].start <= b && b + size <= rs[..n][k].end;
      SortedGrows(rs, k, n - 1);
      FitInRange(e, size, align, b);
    }
  }

  lemma FitsBelow(rs: seq<Range>, n: nat, size: nat, align: nat, b: nat)
    requires 0 < n <= |rs| && align > 0 && size <= rs[n - 1].end
    requires AlignDown(rs[n - 1].end - size, align) < rs[n - 1].start
    ensures Fits(rs[..n], b, size, align) <==> Fits(rs[..n - 1], b, size, align)
  {
    if Fits(rs[..n], b, size, align) {
      var k :| 0 <= k < n && rs[..n][k].start <= b && b + size <= rs[..n][k].end;
      if k == n - 1 {
        FitInRange(rs[n - 1], size, align, b);
      }
      assert rs[..n - 1][k] == rs[k];
    }
    if Fits(rs[..n - 1], b, size, align) {
      var k :| 0 <= k < n - 1 && rs[..n - 1][k].start <= b && b + size <= rs[..n - 1][k].end;
      assert rs[..n][k] == rs[k];
    }
  }

  /** `after` is `before` without the addresses of `[lo, hi)`, still sorted. */
  ghost predicate Removed(before: seq<Range>, after: seq<Range>, lo: nat, hi: nat) {
    && Sorted(after)
    && (forall x :: lo <= x < hi ==> Has(before, x))
    && (forall x :: Has(after, x) <==> Has(before, x) && !(lo <= x < hi))
    && Bytes(after) == Bytes(before) - (hi - lo)
  }

  /** The map is a single entry that an aligned block takes up whole. */
  predicate LastWhole(rs: seq<Range>, size: nat, align: nat)
    requires align > 0
  {
    |rs| == 1 && rs[0].end - rs[0].start == size && rs[0].start % align == 0
  }

  /** The greatest block touches neither end of its entry. */
  ghost predicate Splits(rs: seq<Range>, size: nat, align: nat)
    requires align > 0
  {
    exists k, a: nat :: 0 <= k < |rs| && rs[k].start < a && a + size < rs[k].end && Greatest(rs, a, size, align)
  }

  /** Where some aligned block fits, the greatest one is taken out of the map, whichever array update runs. */
  lemma ReserveTakesGreatest(rs: seq<Range>, size: nat, align: nat, b: nat, a: nat, after: seq<Range>)
    requires Sorted(rs) && size > 0 && align > 0
    requires Fits(rs, b, size, align) && Reserve(rs, size, align) == Returns((a, after))
    ensures Greatest(rs, a, size, align) && Removed(rs, after, a, a + size)
  {
    var s := ScanFinds(rs, size, align, b);
    TakenRemoves(rs, s.k, s.addr, size, a, after);
  }

  lemma TakenRemoves(rs: seq<Range>, k: nat, addr: nat, size: nat, a: nat, after: seq<Range>)
    requires Sorted(rs) && k < |rs| && rs[k].start <= addr && addr + size <= rs[k].end
    requires Taken(rs, k, addr, size) == Returns((a, after))
    ensures a == addr && Removed(rs, after, a, a + size)
  {
    CarveRemoves(rs, k, a, a + size);
  }

  /**
    Where some aligned block fits, the call aborts exactly if taking the greatest one takes the sole
    entry whole, or makes a hole in a full table.
   */
  lemma ReserveAborts(rs: seq<Range>, size: nat, align: nat, b: nat)
    requires Sorted(rs) && size > 0 && align > 0
    requires Fits(rs, b, size, align)
    ensures Reserve(rs, size, align) == Aborts(Overflow) <==> LastWhole(rs, size, align)
    ensures Reserve(rs, size, align) == Aborts(OutOfBounds) <==> |rs| >= MAX_RANGES && Splits(rs, size, align)
    ensures Reserve(rs, size, align).Returns? <==>
            !LastWhole(rs, size, align) && !(|rs| >= MAX_RANGES && Splits(rs, size, align))
  {
    var s := ScanFinds(rs, size, align, b);
    TakesWhole(rs, size, align, s.k, s.addr);
    TakesHole(rs, size, align, s.k, s.addr);
  }

  lemma ScanFinds(rs: seq<Range>, size: nat, align: nat, b: nat) returns (s: Scan)
    requires Sorted(rs) && size > 0 && align > 0 && Fits(rs, b, size, align)
    ensures s.Found? && s.k < |rs| && rs[s.k].start <= s.addr && s.addr + size <= rs[s.k].end
    ensures Greatest(rs, s.addr, size, align)
    ensures Reserve(rs, size, align) == Taken(rs, s.k, s.addr, size)
  {
    ScanExact(rs, |rs|, size, align);
    assert rs[..|rs|] == rs;
    s := ScanDown(rs, |rs|, size, align);
  }

  lemma TakesWhole(rs: seq<Range>, size: nat, align: nat, k: nat, a: nat)
    requires k < |rs| && align > 0 && rs[k].start <= a && a + size <= rs[k].end && Greatest(rs, a, size, align)
    ensures |rs| == 1 && a == rs[k].start && a + size == rs[k].end <==> LastWhole(rs, size, align)
  {
  }

  /** The greatest block lies in one entry only, so what it touches does not depend on the entry named. */
  lemma TakesHole(rs: seq<Range>, size: nat, align: nat, k: nat, a: nat)
    requires Sorted(rs) && size > 0 && k < |rs| && align > 0
    requires rs[k].start <= a && a + size <= rs[k].end && Greatest(rs, a, size, align)
    ensures a != rs[k].start && a + size != rs[k].end <==> Splits(rs, size, align)
  {
    if Splits(rs, size, align) {
      var j, b: nat :| 0 <= j < |rs| && rs[j].start < b && b + size < rs[j].end && Greatest(rs, b, size, align);
      assert a == b by {
        assert Fits(rs, a, size, align) && Fits(rs, b, size, align);
      }
    }
  }

  /** A block at address 0 is the greatest that fits: entry `k` starts there, and nothing fits higher up. */
  predicate LowestOnly(rs: seq<Range>, size: nat, align: nat, k: nat)
    requires align > 0
  {
    && k < |rs| && rs[k].start == 0 && size <= rs[k].end < size + align
    && forall j :: k < j < |rs| ==> rs[j].end < size || AlignDown(rs[j].end - size, align) < rs[j].start
  }

  /**
    A call that returns 0 has either found nothing, or taken the block at address 0; its callers
    cannot tell the two apart. The second happens exactly if an entry starts at 0 with room for the
    block at no higher place, and no entry above it has room.
   */
  lemma ZeroMeans(rs: seq<Range>, size: nat, align: nat)
    requires Sorted(rs) && size > 0 && align > 0 && Reserve(rs, size, align).Returns?
    ensures var (a, after) := Reserve(rs, size, align).value;
            && (a == 0 <==> NoFit(rs, size, align) || Greatest(rs, 0, size, align))
            && (a == 0 && after != rs <==> Greatest(rs, 0, size, align))
    ensures Greatest(rs, 0, size, align) <==> exists k: nat :: LowestOnly(rs, size, align, k)
  {
    ScanExact(rs, |rs|, size, align);
    assert rs[..|rs|] == rs;
    var s := ScanDown(rs, |rs|, size, align);
    if s.Found? {
      assert Fits(rs, s.addr, size, align);
      CarveShrinks(rs, s.k, s.addr, s.addr + size);
    }
    if Greatest(rs, 0, size, align) {
      ZeroGreatest(rs, size, align, s);
    }
    if k: nat :| LowestOnly(rs, size, align, k) {
      LowestGreatest(rs, size, align, k);
    }
  }

  lemma CarveShrinks(rs: seq<Range>, k: nat, lo: nat, hi: nat)
    requires Sorted(rs) && k < |rs| && rs[k].start <= lo < hi <= rs[k].end
    ensures Carve(rs, k, lo, hi) != rs
  {
    CarveRemoves(rs, k, lo, hi);
    assert Has(rs, lo) && !Has(Carve(rs, k, lo, hi), lo);
  }

  lemma ZeroGreatest(rs: seq<Range>, size: nat, align: nat, s: Scan)
    requires Sorted(rs) && size > 0 && align > 0 && Greatest(rs, 0, size, align)
    requires s.Found? && s.k < |rs| && rs[s.k].start <= s.addr && s.addr + size <= rs[s.k].end && Fits(rs, s.addr, size, align)
    ensures LowestOnly(rs, size, align, s.k)
  {
    assert s.addr == 0;
    forall j | s.k <= j < |rs| && size <= rs[j].end && rs[j].start <= AlignDown(rs[j].end - size, align)
      ensures AlignDown(rs[j].end - size, align) == 0
    {
      AlignDownNearest(rs[j].end - size, align);
      assert Fits(rs, AlignDown(rs[j].end - size, align), size, align);
    }
    AlignDownNearest(rs[s.k].end - size, align);
    forall j | s.k < j < |rs| && size <= rs[j].end ensures AlignDown(rs[j].end - size, align) < rs[j].start {
      assert Below(rs[s.k], rs[j]);
    }
  }

  lemma LowestGreatest(rs: seq<Range>, size: nat, align: nat, k: nat)
    requires Sorted(rs) && size > 0 && align > 0 && LowestOnly(rs, size, align, k)
    ensures Greatest(rs, 0, size, align)
  {
    assert Fits(rs, 0, size, align);
    forall b: nat | Fits(rs, b, size, align) ensures b == 0 {
      var j :| 0 <= j < |rs| && rs[j].start <= b && b + size <= rs[j].end;
      FitInRange(rs[j], size, align, b);
      if j <= k {
        SortedGrows(rs, j, k);
        FitInRange(rs[k], size, align, b);
        AlignDownNearest(rs[k].end - size, align);
        DivModUnique(rs[k].end - size, align, 0, rs[k].end - size);
      }
    }
  }

  /** Taking the only entry whole makes the index of the last entry underflow. */
  lemma OnlyEntryUnderflows()
    ensures Reserve([Range(0x4000, 0x8000)], 0x4000, 0x4000) == Aborts(Overflow)
  {
    assert ScanDown([Range(0x4000, 0x8000)], 1, 0x4000, 0x4000) == Found(0, 0x4000);
  }

  /** Thirty entries of three pages each. */
  function FullMap(): (rs: seq<Range>)
    ensures |rs| == MAX_RANGES && forall k :: 0 <= k < MAX_RANGES ==> rs[k] == Range(0x10000 * k, 0x10000 * k + 0xC000)
  {
    seq<Range>(MAX_RANGES, (k: nat) => Range(0x10000 * k, 0x10000 * k + 0xC000))
  }

  /** Making a hole in the last entry of a full array indexes past it. */
  lemma FullMapOverruns()
    ensures Sorted(FullMap()) && Reserve(FullMap(), 0x2000, 0x8000) == Aborts(OutOfBounds)
  {
    assert FullMap()[29] == Range(0x1D0000, 0x1DC000);
    assert AlignDown(0x1DC000 - 0x2000, 0x8000) == 0x1D8000;
  }

  /** A map on which the call loses memory: the block at 0 is gone, and the caller is told that nothing was found. */
  lemma ZeroLosesMemory()
    ensures Reserve([Range(0, 0x4000), Range(0x8000, 0x9000)], 0x4000, 0x4000) == Returns((0, [Range(0x8000, 0x9000)]))
  {
    var rs := [Range(0, 0x4000), Range(0x8000, 0x9000)];
    assert ScanDown(rs, 1, 0x4000, 0x4000) == Found(0, 0);
    assert Carve(rs, 0, 0, 0x4000) == [Range(0x8000, 0x9000)];
  }

  lemma CarveRemoves(rs: seq<Range>, k: nat, lo: nat, hi: nat)
    requires Sorted(rs) && k < |rs| && rs[k].start <= lo <= hi <= rs[k].end
    ensures Removed(rs, Carve(rs, k, lo, hi), lo, hi)
  {
    SortedApart(rs);
    CarveSorted(rs, k, lo, hi);
    CarveBytes(rs, k, lo, hi);
    forall x ensures Has(Carve(rs, k, lo, hi), x) <==> Has(rs, x) && !(lo <= x < hi) {
      CarveHas(rs, k, lo, hi, x);
    }
    forall x | lo <= x < hi ensures Has(rs, x) {
      assert Holds(rs[k], x);
    }
  }

  /**
    Where no block fits, `reserve_phys` falls through to 0 if and only if the lowest entry ends at or
    above `size`; below that the subtraction on the lowest entries underflows first.
   */
  lemma ReserveFindsNothing(rs: seq<Range>, size: nat, align: nat)
    requires Sorted(rs) && rs != [] && size > 0 && align > 0
    requires NoFit(rs, size, align)
    ensures Reserve(rs, size, align) == if size <= rs[0].end then Returns((0, rs)) else Aborts(Overflow)
  {
    ScanExact(rs, |rs|, size, align);
    assert rs[..|rs|] == rs;
  }

  /** Where the top entry has room, the block comes out of it, off its end or off its start. */
  lemma ReserveTop(front: seq<Range>, e: Range, size: nat, align: nat, addr: nat)
    requires front != [] && size > 0 && align > 0 && size <= e.end && addr == AlignDown(e.end - size, align)
    requires (e.start < addr && addr + size == e.end) || (e.start == addr && addr + size < e.end)
    ensures Reserve(front + [e], size, align) ==
            Returns((addr, front + [if addr == e.start then Range(addr + size, e.end) else Range(e.start, addr)]))
  {
    var rs, k := front + [e], |front|;
    assert rs[k] == e && rs[..k] == front && rs[k + 1..] == [];
    assert ScanDown(rs, |rs|, size, align) == Found(k, addr);
    var left := if addr == e.start then Range(addr + size, e.end) else Range(e.start, addr);
    assert Pieces(e, addr, addr + size) == [left];
    assert Carve(rs, k, addr, addr + size) == front + [left];
  }

  // ---- adjust_pmap ----

  /** The least entry from `k` on that starts at or above `lo`, or the end of the list. */
  function FirstFrom(rs: seq<Range>, k: nat, lo: nat): (r: nat)
    requires k <= |rs|
    ensures k <= r <= |rs|
    ensures r < |rs| ==> lo <= rs[r].start
    ensures forall i :: k <= i < r ==> rs[i].start < lo
    decreases |rs| - k
  {
    if k == |rs| || lo <= rs[k].start then k else FirstFrom(rs, k + 1, lo)
  }

  /** `adjust_pmap`: the map it leaves, on the paths that are implemented. */
  function Adjust(rs: seq<Range>, lo: nat, hi: nat): Run<seq<Range>>
    requires rs != []
  {
    if lo <= rs[0].start then Aborts(Unimplemented)
    else
      var k := FirstFrom(rs, 1, lo);
      if rs[k - 1].end == lo then Aborts(Unimplemented)
      else if k == |rs| then
        if |rs| >= MAX_RANGES then Aborts(OutOfBounds) else Returns(rs + [Range(lo, hi)])
      else if rs[k].start == hi then Returns(rs[k := Range(lo, rs[k].end)])
      else Aborts(Unimplemented)
  }

  /** `after` is `before` with the addresses of `[lo, hi)` added, still sorted. */
  ghost predicate Added(before: seq<Range>, after: seq<Range>, lo: nat, hi: nat) {
    && Sorted(after)
    && (forall x :: Has(after, x) <==> Has(before, x) || lo <= x < hi)
    && Bytes(after) == Bytes(before) + (hi - lo)
  }

  /** A range none of whose addresses is free stays clear of every entry it could touch. */
  lemma DisjointBelow(rs: seq<Range>, i: nat, lo: nat, hi: nat)
    requires i < |rs| && rs[i].start < lo < hi
    requires forall x :: lo <= x < hi ==> !Has(rs, x)
    ensures rs[i].end <= lo
  {
    if lo < rs[i].end {
      assert Holds(rs[i], lo);
      assert Has(rs, lo);
    }
  }

  /**
    Where a range can be given back: above the start of the map and not right behind an entry; and
    either right in front of an entry, or above all of them with room for one more.
   */
  predicate Returnable(rs: seq<Range>, lo: nat, hi: nat) {
    && (exists i :: 0 <= i < |rs| && rs[i].start < lo)
    && (forall i :: 0 <= i < |rs| ==> rs[i].end != lo && !(lo <= rs[i].start < hi))
    && (InFront(rs, hi) || (Above(rs, lo) && |rs| < MAX_RANGES))
  }

  predicate InFront(rs: seq<Range>, hi: nat) {
    exists i :: 0 <= i < |rs| && rs[i].start == hi
  }

  predicate Above(rs: seq<Range>, lo: nat) {
    forall i :: 0 <= i < |rs| ==> rs[i].start < lo
  }

  /** Whether a range can be given back, and what the refusal is, on any sorted map. */
  lemma AdjustFate(rs: seq<Range>, lo: nat, hi: nat)
    requires Sorted(rs) && rs != [] && lo < hi
    ensures Adjust(rs, lo, hi).Returns? <==> Returnable(rs, lo, hi)
    ensures Adjust(rs, lo, hi) == Aborts(OutOfBounds) <==>
              Above(rs, lo) && rs[|rs| - 1].end != lo && |rs| >= MAX_RANGES
    ensures Adjust(rs, lo, hi).Returns? ==>
              |Adjust(rs, lo, hi).value| == if InFront(rs, hi) then |rs| else |rs| + 1
  {
    if rs[0].start < lo {
      var k := FirstFrom(rs, 1, lo);
      assert forall i :: 0 <= i < k ==> rs[i].start < lo;
      forall i | 0 <= i < k - 1 ensures rs[i].end < lo {
        assert Below(rs[i], rs[k - 1]);
      }
      forall i | k <= i < |rs| ensures rs[k].start <= rs[i].start {
        SortedGrows(rs, k, i);
      }
      if k < |rs| && rs[k].start == hi && rs[k - 1].end != lo {
        assert InFront(rs, hi);
        forall i | 0 <= i < |rs| ensures rs[i].end != lo && !(lo <= rs[i].start < hi) {
        }
      }
      if Returnable(rs, lo, hi) && k < |rs| {
        var i :| 0 <= i < |rs| && rs[i].start == hi;
        assert !(lo <= rs[k].start < hi);
      }
    } else {
      forall i | 0 <= i < |rs| ensures rs[0].start <= rs[i].start {
        SortedGrows(rs, 0, i);
      }
    }
  }

  /**
    Giving back a range that is not free succeeds exactly where it can be given back, and then adds
    exactly its addresses.
   */
  lemma AdjustAdds(rs: seq<Range>, lo: nat, hi: nat)
    requires Sorted(rs) && rs != [] && lo < hi
    requires forall x :: lo <= x < hi ==> !Has(rs, x)
    ensures match Adjust(rs, lo, hi)
            case Returns(after) => Returnable(rs, lo, hi) && Added(rs, after, lo, hi) && after[0].start == rs[0].start
            case Aborts(_) => !Returnable(rs, lo, hi)
  {
    AdjustFate(rs, lo, hi);
    if Adjust(rs, lo, hi).Returns? {
      var k := FirstFrom(rs, 1, lo);
      DisjointBelow(rs, k - 1, lo, hi);
      if k == |rs| {
        AppendAdds(rs, lo, hi);
      } else {
        GrowAdds(rs, k, lo, hi);
      }
    }
  }

  /** Giving back the range right below the top entry moves its start down. */
  lemma AdjustTop(front: seq<Range>, e: Range, lo: nat)
    requires front != [] && lo <= e.start && front[|front| - 1].end != lo
    requires forall k :: 0 <= k < |front| ==> front[k].start < lo
    ensures Adjust(front + [e], lo, e.start) == Returns(front + [Range(lo, e.end)])
  {
    var rs := front + [e];
    var k := FirstFrom(rs, 1, lo);
    assert rs[|front|] == e;
    assert k == |front|;
    assert rs[k := Range(lo, rs[k].end)] == front + [Range(lo, e.end)];
  }

  /** Giving back a range above the whole map adds an entry. */
  lemma AdjustAbove(rs: seq<Range>, lo: nat, hi: nat)
    requires rs != [] && |rs| < MAX_RANGES && rs[|rs| - 1].end != lo && forall k :: 0 <= k < |rs| ==> rs[k].start < lo
    ensures Adjust(rs, lo, hi) == Returns(rs + [Range(lo, hi)])
  {
    var k := FirstFrom(rs, 1, lo);
    assert k == |rs|;
  }

  lemma AppendAdds(rs: seq<Range>, lo: nat, hi: nat)
    requires Sorted(rs) && rs != [] && lo < hi && rs[|rs| - 1].end <= lo
    ensures Added(rs, rs + [Range(lo, hi)], lo, hi)
  {
    var r := Range(lo, hi);
    var after := rs + [r];
    forall i, j | 0 <= i < j < |after| ensures Below(after[i], after[j]) {
      SortedGrows(rs, i, |rs| - 1);
      assert j < |rs| ==> Below(rs[i], rs[j]);
    }
    forall x ensures Has(after, x) <==> Has(rs, x) || lo <= x < hi {
      HasConcat(rs, [r], x);
      assert Holds([r][0], x) <==> lo <= x < hi;
    }
    BytesConcat(rs, [r]);
    BytesOne(r);
  }

  lemma GrowAdds(rs: seq<Range>, k: nat, lo: nat, hi: nat)
    requires Sorted(rs) && 0 < k < |rs| && lo < hi && rs[k - 1].end <= lo && rs[k].start == hi
    ensures Added(rs, rs[k := Range(lo, rs[k].end)], lo, hi)
  {
    var r := Range(lo, rs[k].end);
    var after := rs[k := r];
    assert Sorted(after) by {
      forall i, j | 0 <= i < j < |after| ensures Below(after[i], after[j]) {
        assert Below(rs[i], rs[j]);
        if j == k {
          SortedGrows(rs, i, k - 1);
        }
      }
    }
    assert forall x :: Has(after, x) <==> Has(rs, x) || lo <= x < hi by {
      SortedApart(rs);
      SortedApart(after);
      forall x ensures Has(after, x) <==> Has(rs, x) || lo <= x < hi {
        SplitHas(rs, k, x);
        SplitHas(after, k, x);
        assert after[..k] == rs[..k] && after[k + 1..] == rs[k + 1..];
      }
    }
    assert Bytes(after) == Bytes(rs) + (hi - lo) by {
      BytesReplace(rs, k, r);
    }
  }

  // ---- The array ----

  /** A well-formed array: even index of the last pair, 64-bit words. */
  predicate Good(a: seq<nat>, last: nat) {
    && |a| == SLOTS
    && last % 2 == 0
    && last + 1 < SLOTS
    && forall k :: 0 <= k < SLOTS ==> a[k] < U64
  }

  /** `copy_within(from..to, dst)` on a slice. */
  function Copied(a: seq<nat>, from: nat, to: nat, dst: nat): (b: seq<nat>)
    requires from <= to <= |a| && dst + (to - from) <= |a|
    ensures |b| == |a|
    ensures forall k :: 0 <= k < |a| ==> b[k] == if dst <= k < dst + (to - from) then a[from + k - dst] else a[k]
  {
    a[..dst] + a[from..to] + a[dst + (to - from)..]
  }

  method CopyWithin(a: array<nat>, from: nat, to: nat, dst: nat)
    requires from <= to <= a.Length && dst + (to - from) <= a.Length
    modifies a
    ensures a[..] == Copied(old(a[..]), from, to, dst)
  {
    forall k | 0 <= k < to - from {
      a[dst + k] := a[from + k];
    }
  }

  /** Shifting the tail down by one pair drops the entry. */
  lemma TakeWhole(a: seq<nat>, b: seq<nat>, last: nat, k: nat)
    requires Good(a, last) && 2 * k <= last && 2 <= last
    requires b == Copied(a, 2 * k + 2, SLOTS, 2 * k)
    ensures Good(b, last - 2) && Pairs(b, last - 2) == Carve(Pairs(a, last), k, a[2 * k], a[2 * k + 1])
  {
    var rs := Pairs(a, last);
    var c := Carve(rs, k, a[2 * k], a[2 * k + 1]);
    assert Pieces(rs[k], a[2 * k], a[2 * k + 1]) == [];
    forall j | 0 <= j < last / 2 ensures Pairs(b, last - 2)[j] == c[j] {
      assert j < k ==> c[j] == rs[j];
      assert j >= k ==> c[j] == rs[j + 1];
    }
  }

  /** Shifting the tail up by one pair makes room for the second half of a split entry. */
  lemma TakeMiddle(a: seq<nat>, b: seq<nat>, last: nat, k: nat, lo: nat, hi: nat)
    requires Good(a, last) && 2 * k <= last && last + 3 < SLOTS
    requires a[2 * k] < lo <= hi < a[2 * k + 1]
    requires b == Copied(a, 2 * k, last + 2, 2 * k + 2)[2 * k + 1 := lo][2 * k + 2 := hi]
    ensures Good(b, last + 2) && Pairs(b, last + 2) == Carve(Pairs(a, last), k, lo, hi)
  {
    var rs := Pairs(a, last);
    var c, d := Carve(rs, k, lo, hi), Pairs(b, last + 2);
    assert |c| == |rs| + 1 by {
      CarveMiddle(rs, k, lo, hi, 0);
    }
    forall j | 0 <= j < |d| ensures d[j] == c[j] {
      CarveMiddle(rs, k, lo, hi, j);
      SplitPairs(a, b, last, k, lo, hi, j);
    }
  }

  lemma SplitPairs(a: seq<nat>, b: seq<nat>, last: nat, k: nat, lo: nat, hi: nat, j: nat)
    requires Good(a, last) && Good(b, last + 2) && 2 * k <= last && j <= last / 2 + 1
    requires b == Copied(a, 2 * k, last + 2, 2 * k + 2)[2 * k + 1 := lo][2 * k + 2 := hi]
    ensures Pairs(b, last + 2)[j] ==
            if j < k then Pairs(a, last)[j] else if j == k then Range(a[2 * k], lo)
            else if j == k + 1 then Range(hi, a[2 * k + 1]) else Pairs(a, last)[j - 1]
  {
  }

  lemma CarveMiddle(rs: seq<Range>, k: nat, lo: nat, hi: nat, j: nat)
    requires k < |rs| && rs[k].start < lo && hi < rs[k].end && j <= |rs|
    ensures |Carve(rs, k, lo, hi)| == |rs| + 1
    ensures Carve(rs, k, lo, hi)[j] ==
            if j < k then rs[j] else if j == k then Range(rs[k].start, lo)
            else if j == k + 1 then Range(hi, rs[k].end) else rs[j - 1]
  {
    assert Pieces(rs[k], lo, hi) == [Range(rs[k].start, lo), Range(hi, rs[k].end)];
  }

  /** Cutting one end of an entry moves that end. */
  lemma TakeEdge(a: seq<nat>, b: seq<nat>, last: nat, k: nat, lo: nat, hi: nat)
    requires Good(a, last) && 2 * k <= last && a[2 * k] <= lo <= hi <= a[2 * k + 1]
    requires || (a[2 * k] < lo && hi == a[2 * k + 1] && b == a[2 * k + 1 := lo])
             || (a[2 * k] == lo && hi < a[2 * k + 1] && b == a[2 * k := hi])
    ensures Good(b, last) && Pairs(b, last) == Carve(Pairs(a, last), k, lo, hi)
  {
    var rs := Pairs(a, last);
    var c := Carve(rs, k, lo, hi);
    assert Pieces(rs[k], lo, hi) == [Range(b[2 * k], b[2 * k + 1])];
    forall j | 0 <= j < last / 2 + 1 ensures Pairs(b, last)[j] == c[j] {
      assert j != k ==> c[j] == rs[j];
    }
  }

  /** Writing one more pair appends an entry. */
  lemma PutPair(a: seq<nat>, b: seq<nat>, last: nat, lo: nat, hi: nat)
    requires Good(a, last) && last + 3 < SLOTS && lo < U64 && hi < U64
    requires b == a[last + 2 := lo][last + 3 := hi]
    ensures Good(b, last + 2) && Pairs(b, last + 2) == Pairs(a, last) + [Range(lo, hi)]
  {
  }

  /** `x & -align` on 64-bit words. */
  method MaskDown(x: nat, align: nat) returns (r: nat)
    requires x < U64 && IsPow2(align) && align <= U64
    ensures r == AlignDown(x, align)
  {
    r := And(x, U64 - align);
    AndWordMask(x, align);
  }

  class MemoryInfo {
    const physmap: array<nat>
    var last: nat
    var endPage: nat

    ghost predicate Valid()
      reads this`last, physmap
    {
      Good(physmap[..], last)
    }

    /** The ranges of the entries in use. */
    ghost function Map(): seq<Range>
      requires Valid()
      reads this`last, physmap
    {
      Pairs(physmap[..], last)
    }

    constructor ()
      ensures Valid() && fresh(physmap)
      ensures Map() == [Range(0, 0)] && endPage == 0
    {
      physmap := new nat[SLOTS](_ => 0);
      last := 0;
      endPage := 0;
    }

    method SetWord(i: nat, w: nat)
      requires Valid() && i <= last + 1 && w < U64
      modifies physmap
      ensures Valid() && physmap[..] == old(physmap[..])[i := w]
      ensures Map() == old(Map())[i / 2 := if i % 2 == 0 then Range(w, old(Map())[i / 2].end) else Range(old(Map())[i / 2].start, w)]
    {
      physmap[i] := w;
    }

    method PushPair(lo: nat, hi: nat)
      requires Valid() && last + 3 < SLOTS && lo < U64 && hi < U64
      modifies this`last, physmap
      ensures Valid() && Map() == old(Map()) + [Range(lo, hi)]
    {
      ghost var was: seq<nat> := physmap[..];
      physmap[last + 2] := lo;
      physmap[last + 3] := hi;
      last := last + 2;
      assert physmap[..] == was[last := lo][last + 1 := hi];
      PutPair(was, physmap[..], old(last), lo, hi);
    }

    /** `end_page` becomes the page the last entry ends in. */
    method SetEndPage()
      requires Valid()
      modifies this`endPage
      ensures endPage == Map()[|Map()| - 1].end / PAGE
    {
      endPage := physmap[last + 1] / PAGE;
    }

    /** The loop of `reserve_phys`, up to the entry it stops at. */
    method ScanPhys(size: nat, align: nat) returns (s: Scan)
      requires Valid() && 0 < size < U64 && IsPow2(align) && align <= U64
      ensures s == ScanDown(Map(), |Map()|, size, align)
    {
      ghost var rs := Map();
      ghost var found := ScanDown(rs, |rs|, size, align);
      var k: nat := last / 2;
      var i: nat := last;
      while true
        invariant i == 2 * k && k < |rs|
        invariant found == ScanDown(rs, k + 1, size, align)
        decreases i
      {
        var start := physmap[i];
        var end := physmap[i + 1];
        assert rs[k] == Range(start, end);

        if end < size {
          return Underflow;
        }

        var addr := MaskDown(end - size, align);

        ScanOne(rs, k, size, align, addr);
        if start <= addr {
          return Found(k, addr);
        }

        if i < 2 {
          return Missing;
        }

        i, k := i - 2, k - 1;
      }
    }

    method ReservePhys(size: nat, align: nat) returns (r: Run<nat>)
      requires Valid() && 0 < size < U64 && IsPow2(align) && align <= U64
      modifies this`last, physmap
      ensures r.Returns? ==> Valid() && Reserve(old(Map()), size, align) == Returns((r.value, Map()))
      ensures r.Aborts? ==> Reserve(old(Map()), size, align) == Aborts(r.fault)
      ensures r.Returns? && r.value != 0 ==> r.value + size < U64
    {
      var s := ScanPhys(size, align);
      ScanInside(Map(), |Map()|, size, align);
      match s
      case Underflow => r := Aborts(Overflow);
      case Missing => r := Returns(0);
      case Found(k, addr) => r := Take(k, addr, size);
    }

    /** The four array updates of `reserve_phys`. */
    method Take(k: nat, addr: nat, size: nat) returns (r: Run<nat>)
      requires Valid() && k < |Map()|
      requires Map()[k].start <= addr && addr + size <= Map()[k].end
      modifies this`last, physmap
      ensures r.Returns? ==> Valid() && Taken(old(Map()), k, addr, size) == Returns((r.value, Map()))
      ensures r.Aborts? ==> Taken(old(Map()), k, addr, size) == Aborts(r.fault)
    {
      var i := 2 * k;
      var start := physmap[i];
      var end := physmap[i + 1];
      var alignedEnd := addr + size;
      assert Map()[k] == Range(start, end);

      if addr == start && alignedEnd == end {
        if last < 2 {
          return Aborts(Overflow);
        }
        DropPair(k);
      } else if addr != start && alignedEnd != end {
        if last + 4 > SLOTS {
          return Aborts(OutOfBounds);
        }
        SplitPair(k, addr, alignedEnd);
      } else {
        TrimPair(k, addr, alignedEnd);
      }
      return Returns(addr);
    }

    method DropPair(k: nat)
      requires Valid() && 2 * k <= last && 2 <= last
      modifies this`last, physmap
      ensures Valid() && Map() == Carve(old(Map()), k, old(physmap[2 * k]), old(physmap[2 * k + 1]))
    {
      var i := 2 * k;
      ghost var was: seq<nat> := physmap[..];
      CopyWithin(physmap, i + 2, SLOTS, i);
      last := last - 2;
      TakeWhole(was, physmap[..], old(last), k);
    }

    method SplitPair(k: nat, addr: nat, alignedEnd: nat)
      requires Valid() && 2 * k <= last && last + 4 <= SLOTS
      requires physmap[2 * k] < addr <= alignedEnd < physmap[2 * k + 1]
      modifies this`last, physmap
      ensures Valid() && Map() == Carve(old(Map()), k, addr, alignedEnd)
    {
      var i := 2 * k;
      ghost var was: seq<nat> := physmap[..];
      CopyWithin(physmap, i, last + 2, i + 2);
      ghost var mid: seq<nat> := physmap[..];
      physmap[i + 1] := addr;
      physmap[i + 2] := alignedEnd;
      last := last + 2;
      assert physmap[..] == mid[i + 1 := addr][i + 2 := alignedEnd];
      TakeMiddle(was, physmap[..], old(last), k, addr, alignedEnd);
    }

    method TrimPair(k: nat, addr: nat, alignedEnd: nat)
      requires Valid() && 2 * k <= last
      requires || physmap[2 * k] < addr <= alignedEnd == physmap[2 * k + 1]
               || physmap[2 * k] == addr <= alignedEnd < physmap[2 * k + 1]
      modifies physmap
      ensures Valid() && Map() == Carve(old(Map()), k, addr, alignedEnd)
    {
      var i := 2 * k;
      ghost var was: seq<nat> := physmap[..];
      if addr != physmap[i] {
        physmap[i + 1] := addr;
      } else {
        physmap[i] := alignedEnd;
      }
      TakeEdge(was, physmap[..], last, k, addr, alignedEnd);
    }

    /** The search of `adjust_pmap` for the first entry at or above `start`. */
    method FirstAtOrAbove(start: nat) returns (idx: nat)
      requires Valid() && physmap[0] < start
      ensures idx % 2 == 0 && 2 <= idx <= last + 2
      ensures idx / 2 == FirstFrom(Map(), 1, start)
    {
      ghost var rs := Map();
      idx := 2;
      while idx <= last && physmap[idx] < start
        invariant idx % 2 == 0 && 2 <= idx <= last + 2
        invariant FirstFrom(rs, 1, start) == FirstFrom(rs, idx / 2, start)
      {
        assert rs[idx / 2].start == physmap[idx];
        idx := idx + 2;
      }
      assert idx <= last ==> rs[idx / 2].start == physmap[idx];
    }

    method AdjustPmap(start: nat, end: nat) returns (r: Run<()>)
      requires Valid() && start < U64 && end < U64
      modifies this`last, physmap
      ensures r.Returns? ==> Valid() && Adjust(old(Map()), start, end) == Returns(Map())
      ensures r.Aborts? ==> Adjust(old(Map()), start, end) == Aborts(r.fault)
    {
      ghost var rs := Map();
      if start <= physmap[0] {
        return Aborts(Unimplemented);
      }

      var idx := FirstAtOrAbove(start);
      var found := idx <= last;
      ghost var k := idx / 2;
      assert rs[k - 1] == Range(physmap[idx - 2], physmap[idx - 1]);
      assert found ==> rs[k] == Range(physmap[idx], physmap[idx + 1]);

      if found && physmap[idx - 1] == start && physmap[idx] == end {
        return Aborts(Unimplemented);
      }

      if physmap[idx - 1] == start {
        return Aborts(Unimplemented);
      }

      if !found {
        if idx + 1 >= SLOTS {
          return Aborts(OutOfBounds);
        }
        PushPair(start, end);
        return Returns(());
      }

      if physmap[idx] != end {
        return Aborts(Unimplemented);
      }

      SetWord(idx, start);
      return Returns(());
    }
  }
}
