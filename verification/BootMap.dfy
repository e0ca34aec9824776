/**
  `load_memory_map`: the regions of the boot memory map are folded, one by one, into the physical
  map, with overlapping regions ignored and touching regions merged.
 */
module BootMap {
  import opened Machine
  import opened Ranges
  import opened PhysMap

  datatype MapType = EndOfMap | Ram | Reserved

  datatype Region = Region(base: nat, len: nat, ty: MapType)

  // ---- Which regions are accepted ----

  /** No range of `acc` shares an address with `r`. */
  predicate ClearOf(acc: seq<Range>, r: Range) {
    forall i :: 0 <= i < |acc| ==> Clear(acc[i], r)
  }

  /** The RAM regions kept from a boot map: those clear of every region kept before them. */
  function Accept(acc: seq<Range>, regions: seq<Region>): seq<Range>
    decreases |regions|
  {
    if regions == [] || regions[0].ty == EndOfMap || (regions[0].ty == Ram && regions[0].len == 0) then acc
    else
      var r := Range(regions[0].base, regions[0].base + regions[0].len);
      Accept(if regions[0].ty == Ram && ClearOf(acc, r) then acc + [r] else acc, regions[1..])
  }

  // ---- What the code does ----

  /** The first entry that ends above `base`. */
  function FirstEndAbove(rs: seq<Range>, k: nat, base: nat): (r: nat)
    requires k <= |rs|
    ensures k <= r <= |rs|
    ensures r < |rs| ==> base < rs[r].end
    ensures forall i :: k <= i < r ==> rs[i].end <= base
    decreases |rs| - k
  {
    if k == |rs| || base < rs[k].end then k else FirstEndAbove(rs, k + 1, base)
  }

  datatype Place = Ignore | GrowDown(k: nat) | GrowUp(k: nat) | Append | Stop(fault: Fault)

  /**
    What to do with one RAM region. Giving up on a full table leaves an index one past the array,
    which the next loop of the function uses.
   */
  function Decide(rs: seq<Range>, base: nat, len: nat): (p: Place)
    requires rs != []
    ensures p.GrowDown? || p.GrowUp? ==> p.k < |rs|
  {
    var k := FirstEndAbove(rs, 0, base);
    var touches := k > 0 && base == rs[k - 1].end;
    var givesUp := Stop(if rs[0].end == 0 then Panic else OutOfBounds);
    if k == |rs| && !touches && |rs| >= MAX_RANGES then givesUp
    else if base + len >= U64 then Stop(Overflow)
    else if k < |rs| && base + len > rs[k].start then Ignore
    else if k < |rs| && base + len == rs[k].start then GrowDown(k)
    else if touches then GrowUp(k - 1)
    else if |rs| >= MAX_RANGES then givesUp
    else if k < |rs| then Stop(Unimplemented)
    else Append
  }

  /** One RAM region against the map: nothing if it is ignored, otherwise the new map. */
  function Insert(rs: seq<Range>, base: nat, len: nat): Run<Option<seq<Range>>>
    requires rs != []
  {
    Apply(rs, base, len, Decide(rs, base, len))
  }

  function Apply(rs: seq<Range>, base: nat, len: nat, p: Place): Run<Option<seq<Range>>>
    requires p.GrowDown? || p.GrowUp? ==> p.k < |rs|
  {
    match p
    case Ignore => Returns(None)
    case GrowDown(k) => Returns(Some(rs[k := Range(base, rs[k].end)]))
    case GrowUp(k) => Returns(Some(rs[k := Range(rs[k].start, base + len)]))
    case Append => Returns(Some(rs + [Range(base, base + len)]))
    case Stop(f) => Aborts(f)
  }

  lemma InsertKeepsEntries(rs: seq<Range>, base: nat, len: nat)
    requires rs != []
    ensures match Insert(rs, base, len)
            case Returns(Some(after)) => |after| >= |rs|
            case _ => true
  {
  }

  /** The whole fold, with the accepted regions beside the map. */
  function Load(rs: seq<Range>, acc: seq<Range>, regions: seq<Region>): Run<(seq<Range>, seq<Range>)>
    requires rs != []
    decreases |regions|
  {
    if regions == [] || regions[0].ty == EndOfMap || (regions[0].ty == Ram && regions[0].len == 0) then Returns((rs, acc))
    else if regions[0].ty == Reserved then Load(rs, acc, regions[1..])
    else
      match Insert(rs, regions[0].base, regions[0].len)
      case Aborts(f) => Aborts(f)
      case Returns(None) => Load(rs, acc, regions[1..])
      case Returns(Some(after)) =>
        InsertKeepsEntries(rs, regions[0].base, regions[0].len);
        Load(after, acc + [Range(regions[0].base, regions[0].base + regions[0].len)], regions[1..])
  }

  // ---- Why the two agree ----

  /** A map in the making: sorted, with its first entry at 0 and no other entry empty. */
  predicate Shape(rs: seq<Range>) {
    && 0 < |rs| <= MAX_RANGES && Sorted(rs)
    && rs[0].start == 0
    && (forall k :: 0 < k < |rs| ==> rs[k].start < rs[k].end)
    && forall k :: 0 <= k < |rs| ==> rs[k].end < U64
  }

  ghost predicate SameAddresses(a: seq<Range>, b: seq<Range>) {
    forall x :: Has(a, x) <==> Has(b, x)
  }

  /** The map covers exactly the accepted regions, which are pairwise disjoint. */
  ghost predicate Faithful(rs: seq<Range>, acc: seq<Range>) {
    Shape(rs) && Apart(acc) && Solid(acc) && SameAddresses(rs, acc)
  }

  ghost predicate Meets(rs: seq<Range>, lo: nat, hi: nat) {
    exists x :: lo <= x < hi && Has(rs, x)
  }

  /** Looking at the first entry that ends above `base` decides the overlap with the whole map. */
  lemma OverlapExact(rs: seq<Range>, base: nat, len: nat)
    requires Shape(rs) && len > 0
    ensures var k := FirstEndAbove(rs, 0, base);
            (k < |rs| && rs[k].start < base + len) <==> Meets(rs, base, base + len)
  {
    var k := FirstEndAbove(rs, 0, base);
    if k < |rs| && rs[k].start < base + len {
      var x := if base < rs[k].start then rs[k].start else base;
      assert Holds(rs[k], x);
      assert Has(rs, x);
    }
    if Meets(rs, base, base + len) {
      var x :| base <= x < base + len && Has(rs, x);
      var i :| 0 <= i < |rs| && Holds(rs[i], x);
      assert k <= i;
      SortedGrows(rs, k, i);
    }
  }

  /** Sharing an address with the union is overlapping one of its ranges. */
  lemma MeetsSome(acc: seq<Range>, r: Range)
    requires Solid(acc) && r.start < r.end
    ensures Meets(acc, r.start, r.end) <==> !ClearOf(acc, r)
  {
    if Meets(acc, r.start, r.end) {
      var x :| r.start <= x < r.end && Has(acc, x);
      var i :| 0 <= i < |acc| && Holds(acc[i], x);
      assert !Clear(acc[i], r);
    }
    if !ClearOf(acc, r) {
      var i :| 0 <= i < |acc| && !Clear(acc[i], r);
      var x := if acc[i].start < r.start then r.start else acc[i].start;
      assert Holds(acc[i], x);
      assert Has(acc, x);
    }
  }

  /** Moving the end of an entry up adds exactly the addresses in between. */
  lemma ExtendAdds(rs: seq<Range>, k: nat, hi: nat)
    requires Sorted(rs) && k < |rs| && rs[k].end < hi && (k + 1 < |rs| ==> hi <= rs[k + 1].start)
    ensures Added(rs, rs[k := Range(rs[k].start, hi)], rs[k].end, hi)
  {
    var r := Range(rs[k].start, hi);
    var after := rs[k := r];
    assert Sorted(after) by {
      forall i, j | 0 <= i < j < |after| ensures Below(after[i], after[j]) {
        assert Below(rs[i], rs[j]);
        if i == k {
          SortedGrows(rs, k + 1, j);
        }
      }
    }
    assert forall x :: Has(after, x) <==> Has(rs, x) || rs[k].end <= x < hi by {
      SortedApart(rs);
      SortedApart(after);
      forall x ensures Has(after, x) <==> Has(rs, x) || rs[k].end <= x < hi {
        SplitHas(rs, k, x);
        SplitHas(after, k, x);
        assert after[..k] == rs[..k] && after[k + 1..] == rs[k + 1..];
      }
    }
    assert Bytes(after) == Bytes(rs) + (hi - rs[k].end) by {
      BytesReplace(rs, k, r);
    }
  }

  /** A region that is placed adds exactly its own addresses, whether appended or merged. */
  lemma PlacedAdds(rs: seq<Range>, base: nat, len: nat, after: seq<Range>)
    requires Shape(rs) && len > 0 && Insert(rs, base, len) == Returns(Some(after))
    ensures Added(rs, after, base, base + len)
  {
    var k := FirstEndAbove(rs, 0, base);
    if k < |rs| && base + len == rs[k].start {
      GrowAdds(rs, k, base, base + len);
    } else if k > 0 && base == rs[k - 1].end {
      ExtendAdds(rs, k - 1, base + len);
    } else {
      AppendAdds(rs, base, base + len);
    }
  }

  lemma PlacedShape(rs: seq<Range>, base: nat, len: nat, after: seq<Range>)
    requires Shape(rs) && len > 0 && Insert(rs, base, len) == Returns(Some(after)) && Sorted(after)
    ensures Shape(after)
  {
  }

  /** The region is next to an entry of the map. */
  predicate TouchesMap(rs: seq<Range>, r: Range) {
    exists i :: 0 <= i < |rs| && (rs[i].end == r.start || rs[i].start == r.end)
  }

  /** The region starts at 0, where the map has an entry from the start, or is next to an accepted one. */
  predicate Joins(acc: seq<Range>, r: Range) {
    r.start == 0 || exists i :: 0 <= i < |acc| && (acc[i].end == r.start || acc[i].start == r.end)
  }

  /** Every accepted region ends at or before the start of `r`. */
  predicate AllBelow(acc: seq<Range>, r: Range) {
    forall i :: 0 <= i < |acc| ==> acc[i].end <= r.start
  }

  /** What the loop makes of a region, in terms of the regions accepted so far and the number of entries. */
  datatype Fate = Dropped | Kept | GivenUp | TooLong | InGap

  predicate Fated(acc: seq<Range>, n: nat, r: Range, fate: Fate) {
    var clear := ClearOf(acc, r);
    var apart := clear && !Joins(acc, r);
    match fate
    case GivenUp => apart && n >= MAX_RANGES
    case TooLong => r.end >= U64 && !(apart && n >= MAX_RANGES)
    case InGap => r.end < U64 && apart && n < MAX_RANGES && !AllBelow(acc, r)
    case Dropped => r.end < U64 && !clear
    case Kept => r.end < U64 && clear && (Joins(acc, r) || (n < MAX_RANGES && AllBelow(acc, r)))
  }

  /** The entry the search stops at tells whether the region is next to an entry. */
  lemma TouchExact(rs: seq<Range>, r: Range)
    requires Shape(rs) && r.start < r.end && !Meets(rs, r.start, r.end)
    ensures var k := FirstEndAbove(rs, 0, r.start);
            TouchesMap(rs, r) <==> (k > 0 && rs[k - 1].end == r.start) || (k < |rs| && rs[k].start == r.end)
  {
    var k := FirstEndAbove(rs, 0, r.start);
    OverlapExact(rs, r.start, r.end - r.start);
    if TouchesMap(rs, r) {
      var i :| 0 <= i < |rs| && (rs[i].end == r.start || rs[i].start == r.end);
      if rs[i].end == r.start {
        SortedGrows(rs, i, k - 1);
      } else {
        assert k <= i;
        SortedGrows(rs, k, i);
      }
    }
  }

  /** For a region clear of the accepted ones, being next to an entry is being next to an accepted region. */
  lemma TouchesAccepted(rs: seq<Range>, acc: seq<Range>, r: Range)
    requires Faithful(rs, acc) && r.start < r.end && ClearOf(acc, r)
    ensures TouchesMap(rs, r) <==> Joins(acc, r)
  {
    if TouchesMap(rs, r) && r.start != 0 {
      var i :| 0 <= i < |rs| && (rs[i].end == r.start || rs[i].start == r.end);
      var x := if rs[i].end == r.start then r.start - 1 else r.end;
      EdgeHolds(rs, i, r, x);
      assert Has(acc, x);
      var j :| 0 <= j < |acc| && Holds(acc[j], x);
      assert Clear(acc[j], r);
    }
    if Joins(acc, r) {
      JoinsTouches(rs, acc, r);
    }
  }

  lemma EdgeHolds(rs: seq<Range>, i: nat, r: Range, x: nat)
    requires Shape(rs) && i < |rs| && r.start != 0 && r.start < r.end
    requires (rs[i].end == r.start && x == r.start - 1) || (rs[i].start == r.end && x == r.end)
    ensures Has(rs, x)
  {
    assert Holds(rs[i], x);
  }

  lemma JoinsTouches(rs: seq<Range>, acc: seq<Range>, r: Range)
    requires Faithful(rs, acc) && r.start < r.end && ClearOf(acc, r) && Joins(acc, r)
    ensures TouchesMap(rs, r)
  {
    if r.start == 0 {
      ClearMisses(rs, acc, r, 0);
      assert !Holds(rs[0], 0);
      assert rs[0].end == r.start;
    } else {
      var j :| 0 <= j < |acc| && (acc[j].end == r.start || acc[j].start == r.end);
      var x, y := if acc[j].end == r.start then r.start - 1 else r.end, if acc[j].end == r.start then r.start else r.end - 1;
      assert Holds(acc[j], x);
      assert Has(acc, x);
      assert Has(rs, x);
      var i :| 0 <= i < |rs| && Holds(rs[i], x);
      ClearMisses(rs, acc, r, y);
      assert !Holds(rs[i], y);
    }
  }

  /** An address of a region clear of the accepted ones is not in the map. */
  lemma ClearMisses(rs: seq<Range>, acc: seq<Range>, r: Range, x: nat)
    requires SameAddresses(rs, acc) && ClearOf(acc, r) && r.start <= x < r.end
    ensures !Has(rs, x)
  {
  }

  lemma BelowAccepted(rs: seq<Range>, acc: seq<Range>, r: Range)
    requires Faithful(rs, acc) && r.start < r.end && ClearOf(acc, r)
    ensures AllBelow(acc, r) <==> FirstEndAbove(rs, 0, r.start) == |rs|
  {
    var k := FirstEndAbove(rs, 0, r.start);
    if k == |rs| {
      forall i | 0 <= i < |acc| ensures acc[i].end <= r.start {
        assert Holds(acc[i], acc[i].end - 1);
        assert Has(acc, acc[i].end - 1);
        assert Has(rs, acc[i].end - 1);
      }
    } else {
      assert Holds(rs[k], rs[k].end - 1);
      assert Has(rs, rs[k].end - 1);
      assert Has(acc, rs[k].end - 1);
    }
  }

  /** One region: what becomes of it is decided by the regions accepted before it and the number of entries. */
  lemma InsertFate(rs: seq<Range>, acc: seq<Range>, base: nat, len: nat) returns (fate: Fate)
    requires Faithful(rs, acc) && len > 0
    ensures Fated(acc, |rs|, Range(base, base + len), fate)
    ensures match fate
            case Dropped => Insert(rs, base, len) == Returns(None)
            case Kept => Insert(rs, base, len).Returns? && Insert(rs, base, len).value.Some?
            case GivenUp => Insert(rs, base, len) == Aborts(if rs[0].end == 0 then Panic else OutOfBounds)
            case TooLong => Insert(rs, base, len) == Aborts(Overflow)
            case InGap => Insert(rs, base, len) == Aborts(Unimplemented)
  {
    var r := Range(base, base + len);
    var k := FirstEndAbove(rs, 0, base);
    OverlapExact(rs, base, len);
    MeetsAccepted(rs, acc, r);
    if Meets(rs, base, base + len) {
      fate := if r.end >= U64 then TooLong else Dropped;
    } else {
      TouchExact(rs, r);
      TouchesAccepted(rs, acc, r);
      BelowAccepted(rs, acc, r);
      assert k < |rs| ==> r.end < U64;
      fate := if !Joins(acc, r) && |rs| >= MAX_RANGES then GivenUp
              else if r.end >= U64 then TooLong
              else if Joins(acc, r) || k == |rs| then Kept
              else InGap;
    }
  }

  lemma MeetsAccepted(rs: seq<Range>, acc: seq<Range>, r: Range)
    requires Faithful(rs, acc) && r.start < r.end
    ensures Meets(rs, r.start, r.end) <==> !ClearOf(acc, r)
  {
    if Meets(acc, r.start, r.end) {
      var x :| r.start <= x < r.end && Has(acc, x);
      assert Has(rs, x);
    }
    MeetsSome(acc, r);
  }

  /** A region that is kept leaves a map that covers exactly the accepted regions and itself. */
  lemma InsertExact(rs: seq<Range>, acc: seq<Range>, base: nat, len: nat, after: seq<Range>)
    requires Faithful(rs, acc) && len > 0 && Insert(rs, base, len) == Returns(Some(after))
    ensures ClearOf(acc, Range(base, base + len)) && Faithful(after, acc + [Range(base, base + len)])
    ensures |after| == if Joins(acc, Range(base, base + len)) then |rs| else |rs| + 1
  {
    var r := Range(base, base + len);
    var fate := InsertFate(rs, acc, base, len);
    PlacedAdds(rs, base, len, after);
    PlacedShape(rs, base, len, after);
    AcceptGrows(rs, acc, r, after);
    TouchExact(rs, r) by {
      MeetsAccepted(rs, acc, r);
    }
    TouchesAccepted(rs, acc, r);
  }

  lemma AcceptGrows(rs: seq<Range>, acc: seq<Range>, r: Range, after: seq<Range>)
    requires Faithful(rs, acc) && r.start < r.end && ClearOf(acc, r)
    requires Added(rs, after, r.start, r.end) && Shape(after)
    ensures Faithful(after, acc + [r])
  {
    assert Apart(acc + [r]) by {
      forall i, j | 0 <= i < j < |acc + [r]| ensures Clear((acc + [r])[i], (acc + [r])[j]) {
        assert j < |acc| ==> Clear(acc[i], acc[j]);
      }
    }
    forall x ensures Has(after, x) <==> Has(acc + [r], x) {
      HasConcat(acc, [r], x);
      assert Holds([r][0], x) <==> r.start <= x < r.end;
      assert Has(rs, x) <==> Has(acc, x);
    }
  }

  /**
    Which boot maps can be loaded, `n` entries being in use: every RAM region up to the end of the map
    ends inside the address space, and if it overlaps no region accepted before it and is next to
    none, it lies above all of them and there is an entry left for it.
   */
  predicate Loadable(acc: seq<Range>, n: nat, regions: seq<Region>)
    decreases |regions|
  {
    if regions == [] || regions[0].ty == EndOfMap || (regions[0].ty == Ram && regions[0].len == 0) then true
    else if regions[0].ty == Reserved then Loadable(acc, n, regions[1..])
    else
      var r := Range(regions[0].base, regions[0].base + regions[0].len);
      if !ClearOf(acc, r) then r.end < U64 && Loadable(acc, n, regions[1..])
      else if Joins(acc, r) then r.end < U64 && Loadable(acc + [r], n, regions[1..])
      else r.end < U64 && n < MAX_RANGES && AllBelow(acc, r) && Loadable(acc + [r], n + 1, regions[1..])
  }

  /**
    The fold finishes exactly on the boot maps that can be loaded; then the regions it kept are the
    accepted ones of the boot map, and the map is sorted and covers exactly their union.
   */
  lemma {:induction false} LoadExact(rs: seq<Range>, acc: seq<Range>, regions: seq<Region>)
    requires Faithful(rs, acc)
    ensures Load(rs, acc, regions).Returns? <==> Loadable(acc, |rs|, regions)
    ensures Load(rs, acc, regions).Returns? ==>
              var (after, kept) := Load(rs, acc, regions).value;
              kept == Accept(acc, regions) && Faithful(after, kept)
    decreases |regions|
  {
    if regions == [] || regions[0].ty == EndOfMap || (regions[0].ty == Ram && regions[0].len == 0) {
    } else if regions[0].ty == Reserved {
      LoadExact(rs, acc, regions[1..]);
    } else {
      var r := Range(regions[0].base, regions[0].base + regions[0].len);
      var fate := InsertFate(rs, acc, regions[0].base, regions[0].len);
      if fate == Dropped {
        LoadExact(rs, acc, regions[1..]);
      } else if fate == Kept {
        var after := Insert(rs, regions[0].base, regions[0].len).value.value;
        InsertExact(rs, acc, regions[0].base, regions[0].len, after);
        LoadExact(after, acc + [r], regions[1..]);
      }
    }
  }

  /** The number of RAM regions. */
  function Rams(regions: seq<Region>): nat {
    if regions == [] then 0 else (if regions[0].ty == Ram then 1 else 0) + Rams(regions[1..])
  }

  predicate Ascending(regions: seq<Region>) {
    && (forall i :: 0 <= i < |regions| && regions[i].ty == Ram ==> regions[i].base + regions[i].len < U64)
    && (forall i, j :: 0 <= i < j < |regions| && regions[i].ty == regions[j].ty == Ram ==> regions[i].base <= regions[j].base)
  }

  predicate StartsBefore(acc: seq<Range>, regions: seq<Region>) {
    forall i, j :: 0 <= i < |acc| && 0 <= j < |regions| && regions[j].ty == Ram ==> acc[i].start <= regions[j].base
  }

  /** A boot map in ascending order with at most 29 RAM regions can be loaded, overlaps or not. */
  lemma {:induction false} AscendingLoads(acc: seq<Range>, n: nat, regions: seq<Region>)
    requires Ascending(regions) && StartsBefore(acc, regions) && n + Rams(regions) <= MAX_RANGES
    ensures Loadable(acc, n, regions)
    decreases |regions|
  {
    if regions != [] {
      var rest := regions[1..];
      assert forall i :: 0 <= i < |rest| ==> rest[i] == regions[i + 1];
      assert Ascending(rest) && StartsBefore(acc, rest);
      AscendingLoads(acc, n, rest);
      if regions[0].ty == Ram && regions[0].len > 0 {
        var r := Range(regions[0].base, regions[0].base + regions[0].len);
        assert StartsBefore(acc + [r], rest);
        AscendingLoads(acc + [r], n, rest);
        AscendingLoads(acc + [r], n + 1, rest);
        if ClearOf(acc, r) {
          forall i | 0 <= i < |acc| ensures acc[i].end <= r.start {
            assert Clear(acc[i], r);
          }
        }
      }
    }
  }

  // ---- A boot map that fills the array ----

  function Island(k: nat): Range {
    Range(0x8000 * k, 0x8000 * k + 0x4000)
  }

  /** The first `n` even-numbered pages. */
  function Islands(n: nat): (rs: seq<Range>)
    ensures |rs| == n && forall k :: 0 <= k < n ==> rs[k] == Island(k)
  {
    seq<Range>(n, (k: nat) => Island(k))
  }

  /** A boot map of one-page regions, from the `k`th on, with a page between any two. */
  function PageRegions(k: nat, n: nat): (regions: seq<Region>)
    requires k <= n
    ensures |regions| == n - k
    decreases n - k
  {
    if k == n then [] else [Region(Island(k).start, PAGE, Ram)] + PageRegions(k + 1, n)
  }

  lemma IslandsFaithful(n: nat)
    requires 0 < n <= MAX_RANGES
    ensures Faithful(Islands(n), Islands(n))
  {
    var rs := Islands(n);
    forall i, j | 0 <= i < j < n ensures Below(rs[i], rs[j]) {
      assert rs[i] == Island(i) && rs[j] == Island(j);
    }
  }

  lemma NextIsland(n: nat)
    requires 0 < n <= MAX_RANGES
    ensures ClearOf(Islands(n), Island(n)) && !Joins(Islands(n), Island(n)) && AllBelow(Islands(n), Island(n))
  {
    forall k | 0 <= k < n ensures Islands(n)[k].end < Island(n).start {
      assert Islands(n)[k] == Island(k);
    }
  }

  /** A region above the whole map, with a gap below it, is appended. */
  lemma InsertAbove(rs: seq<Range>, base: nat, len: nat)
    requires rs != [] && |rs| < MAX_RANGES && base + len < U64 && forall i :: 0 <= i < |rs| ==> rs[i].end < base
    ensures Insert(rs, base, len) == Returns(Some(rs + [Range(base, base + len)]))
  {
    var k := FirstEndAbove(rs, 0, base);
    assert k == |rs|;
  }

  lemma NextIslandInserted(n: nat)
    requires 0 < n < MAX_RANGES
    ensures Insert(Islands(n), Island(n).start, PAGE) == Returns(Some(Islands(n + 1)))
  {
    forall k | 0 <= k < n ensures Islands(n)[k].end < Island(n).start {
      assert Islands(n)[k] == Island(k);
    }
    InsertAbove(Islands(n), Island(n).start, PAGE);
    assert Islands(n) + [Island(n)] == Islands(n + 1);
  }

  lemma {:induction false} IslandsGiveUp(k: nat)
    requires 0 < k <= MAX_RANGES
    ensures Load(Islands(k), Islands(k), PageRegions(k, MAX_RANGES + 1)) == Aborts(OutOfBounds)
    decreases MAX_RANGES - k
  {
    var regions := PageRegions(k, MAX_RANGES + 1);
    assert regions[0] == Region(Island(k).start, PAGE, Ram) && regions[1..] == PageRegions(k + 1, MAX_RANGES + 1);
    if k < MAX_RANGES {
      NextIslandInserted(k);
      assert Islands(k) + [Island(k)] == Islands(k + 1);
      IslandsGiveUp(k + 1);
    } else {
      IslandsFaithful(k);
      NextIsland(k);
      var fate := InsertFate(Islands(k), Islands(k), Island(k).start, PAGE);
      assert fate == GivenUp;
      assert Islands(k)[0] == Island(0);
    }
  }

  /** Thirty-one separate pages of RAM fill the array, and `load_memory_map` goes on with an index past it. */
  lemma TooManyRegions()
    ensures Load([Range(0, 0)], [], PageRegions(0, MAX_RANGES + 1)) == Aborts(OutOfBounds)
  {
    var regions := PageRegions(0, MAX_RANGES + 1);
    assert regions[0] == Region(0, PAGE, Ram) && regions[1..] == PageRegions(1, MAX_RANGES + 1);
    assert Islands(1) == [Range(0, PAGE)] && [] + [Range(0, PAGE)] == Islands(1) && [Range(0, 0)][0 := Range(0, PAGE)] == Islands(1);
    assert Insert([Range(0, 0)], 0, PAGE) == Returns(Some(Islands(1)));
    IslandsGiveUp(1);
  }

  // ---- The array ----

  /** The search for the first entry that ends above `base`. */
  method FindAbove(mi: MemoryInfo, base: nat) returns (k: nat)
    requires mi.Valid()
    ensures k == FirstEndAbove(mi.Map(), 0, base)
  {
    ghost var rs := mi.Map();
    var j := 0;
    k := 0;
    while j <= mi.last
      invariant j == 2 * k && k <= |rs|
      invariant FirstEndAbove(rs, 0, base) == FirstEndAbove(rs, k, base)
    {
      assert rs[k].end == mi.physmap[j + 1];
      if base < mi.physmap[j + 1] {
        return;
      }
      j, k := j + 2, k + 1;
    }
  }

  /** The checks of one iteration of the outer loop, for a RAM region of non-zero length. */
  method DecideRegion(mi: MemoryInfo, base: nat, len: nat) returns (p: Place)
    requires mi.Valid()
    ensures p == Decide(mi.Map(), base, len)
  {
    ghost var rs := mi.Map();
    var k := FindAbove(mi, base);
    var i := 2 * k;
    var below := i <= mi.last;
    assert below ==> rs[k] == Range(mi.physmap[i], mi.physmap[i + 1]);
    assert k > 0 ==> rs[k - 1] == Range(mi.physmap[i - 2], mi.physmap[i - 1]);
    assert rs[0] == Range(mi.physmap[0], mi.physmap[1]);
    var touches := i > 0 && base == mi.physmap[i - 1];
    var givesUp := Stop(if mi.physmap[1] == 0 then Panic else OutOfBounds);

    if !below && !touches && mi.last + 2 == SLOTS {
      return givesUp;
    }
    if base + len >= U64 {
      return Stop(Overflow);
    }
    if below && base + len > mi.physmap[i] {
      return Ignore;
    }
    if below && base + len == mi.physmap[i] {
      return GrowDown(k);
    }
    if touches {
      return GrowUp(k - 1);
    }
    if mi.last + 2 == SLOTS {
      return givesUp;
    }
    if below {
      return Stop(Unimplemented);
    }
    return Append;
  }

  /** One iteration of the outer loop; whether the region was kept. */
  method InsertRegion(mi: MemoryInfo, base: nat, len: nat) returns (r: Run<bool>)
    requires mi.Valid() && base < U64
    modifies mi`last, mi.physmap
    ensures match r
            case Aborts(f) => Insert(old(mi.Map()), base, len) == Aborts(f)
            case Returns(false) => mi.Valid() && mi.Map() == old(mi.Map()) && Insert(old(mi.Map()), base, len) == Returns(None)
            case Returns(true) => mi.Valid() && Insert(old(mi.Map()), base, len) == Returns(Some(mi.Map()))
  {
    var p := DecideRegion(mi, base, len);
    RoomFor(mi.Map(), base, len, p);
    r := ApplyPlace(mi, base, len, p);
  }

  /** The words written for one decision. */
  method ApplyPlace(mi: MemoryInfo, base: nat, len: nat, p: Place) returns (r: Run<bool>)
    requires mi.Valid() && base < U64
    requires p.GrowDown? || p.GrowUp? ==> p.k < |mi.Map()| && base + len < U64
    requires p.Append? ==> base + len < U64 && |mi.Map()| < MAX_RANGES
    modifies mi`last, mi.physmap
    ensures match r
            case Aborts(f) => Apply(old(mi.Map()), base, len, p) == Aborts(f)
            case Returns(false) => mi.Valid() && mi.Map() == old(mi.Map()) && Apply(old(mi.Map()), base, len, p) == Returns(None)
            case Returns(true) => mi.Valid() && Apply(old(mi.Map()), base, len, p) == Returns(Some(mi.Map()))
  {
    ghost var rs := mi.Map();
    match p
    case Stop(f) => r := Aborts(f);
    case Ignore => r := Returns(false);
    case GrowDown(k) =>
      mi.SetWord(2 * k, base);
      assert mi.Map() == rs[k := Range(base, rs[k].end)];
      r := Returns(true);
    case GrowUp(k) =>
      mi.SetWord(2 * k + 1, base + len);
      assert mi.Map() == rs[k := Range(rs[k].start, base + len)];
      r := Returns(true);
    case Append =>
      mi.PushPair(base, base + len);
      r := Returns(true);
  }

  /** What the decision says about the words to be written and the room for them. */
  lemma RoomFor(rs: seq<Range>, base: nat, len: nat, p: Place)
    requires rs != [] && p == Decide(rs, base, len)
    ensures p.GrowUp? || p.GrowDown? ==> p.k < |rs| && base + len < U64
    ensures p.Append? ==> base + len < U64 && |rs| < MAX_RANGES
  {
  }

  /** The loop of `load_memory_map` over the boot map. */
  method LoadRegions(mi: MemoryInfo, regions: seq<Region>) returns (r: Run<()>, ghost acc: seq<Range>)
    requires mi.Valid() && mi.Map() == [Range(0, 0)]
    requires forall i :: 0 <= i < |regions| ==> regions[i].base < U64 && regions[i].len < U64
    modifies mi`last, mi.physmap
    ensures r.Returns? ==> mi.Valid() && Load([Range(0, 0)], [], regions) == Returns((mi.Map(), acc))
    ensures r.Aborts? ==> Load([Range(0, 0)], [], regions) == Aborts(r.fault)
  {
    acc := [];
    ghost var start := [Range(0, 0)];
    var n := 0;
    while n < |regions|
      invariant n <= |regions| && mi.Valid()
      invariant Load(start, [], regions) == Load(mi.Map(), acc, regions[n..])
    {
      var m := regions[n];
      if m.ty == EndOfMap || (m.ty == Ram && m.len == 0) {
        return Returns(()), acc;
      }
      if m.ty == Ram {
        var kept := InsertRegion(mi, m.base, m.len);
        if kept.Aborts? {
          return Aborts(kept.fault), acc;
        }
        if kept.value {
          acc := acc + [Range(m.base, m.base + m.len)];
        }
      }
      n := n + 1;
    }
    return Returns(()), acc;
  }

  /** Three pages below the page the boot area ends in, or four if that page is too short. */
  function TablesAt(end: nat, need: nat): int {
    AlignDown(end, PAGE) - 3 * PAGE - (if need > And(end, 0xC00) then PAGE else 0)
  }

  lemma TenBits()
    ensures Pow2(10) == 0x400
  {
    assert Pow2(5) == 0x20;
  }

  /** The mask picks two bits out of the offset in a 4 KB page. */
  lemma MaskedBits(kilobytes: nat)
    ensures And(kilobytes * 1024, 0xC00) == kilobytes * 1024 % 0x1000
  {
    assert And(kilobytes, 3) == kilobytes % 4 by {
      assert IsPow2(4);
      AndLowMask(kilobytes, 4);
    }
    TenBits();
    AndShifted(kilobytes, 3, 10);
    LowKilobytes(kilobytes);
  }

  lemma LowKilobytes(kilobytes: nat)
    ensures kilobytes * 1024 % 0x1000 == kilobytes % 4 * 1024
  {
    assert kilobytes == 4 * (kilobytes / 4) + kilobytes % 4;
  }

  /**
    The tables take the three pages below the start code, which goes into the last whole page of the
    boot area if it is no longer than the offset of the end in its 4 KB page, and a page lower if it is.
   */
  lemma TablesExact(kilobytes: nat, need: nat)
    ensures var end := kilobytes * 1024;
            TablesAt(end, need) == end - end % PAGE - (if need <= end % 0x1000 then 3 else 4) * PAGE
  {
    MaskedBits(kilobytes);
  }

  /** `mp_bootaddress`: where the page tables of the secondary CPUs go, below the end of the boot area. */
  method AdjustBootArea(original: nat, need: nat) returns (r: Run<nat>)
    requires original * 1024 < U64
    ensures var at := TablesAt(original * 1024, need);
            r == if at < 0 then Aborts(Overflow) else Returns(at)
    ensures r.Returns? ==> r.value % PAGE == 0 && r.value + 3 * PAGE <= original * 1024
  {
    assert IsPow2(PAGE) by {
      BlockSizesArePow2();
    }
    var x := original * 1024;
    var addr := MaskDown(x, PAGE);
    AlignDownNearest(x, PAGE);
    var low := And(x, 0xC00);
    assert TablesAt(x, need) == addr - 3 * PAGE - (if need > low then PAGE else 0);
    if need > low {
      if addr < PAGE {
        return Aborts(Overflow);
      }
      addr := addr - PAGE;
    }
    if addr < 3 * PAGE {
      return Aborts(Overflow);
    }
    PagesBelow(addr);
    return Returns(addr - 3 * PAGE);
  }

  lemma PagesBelow(addr: nat)
    requires addr % PAGE == 0 && 3 * PAGE <= addr
    ensures (addr - 3 * PAGE) % PAGE == 0
  {
  }

  /** The total size of the map, added up from the top. */
  method TotalSize(mi: MemoryInfo) returns (total: int)
    requires mi.Valid() && Ordered(mi.Map())
    ensures total == Bytes(mi.Map()) >= 0
  {
    ghost var rs := mi.Map();
    BytesNonNegative(rs);
    assert rs[..|rs|] == rs;
    total := 0;
    var k := mi.last / 2 + 1;
    while k > 0
      invariant 0 <= k <= |rs|
      invariant total + Bytes(rs[..k]) == Bytes(rs)
    {
      k := k - 1;
      var i := 2 * k;
      assert rs[..k + 1][..k] == rs[..k];
      assert rs[k] == Range(mi.physmap[i], mi.physmap[i + 1]);
      total := (total + mi.physmap[i + 1]) - mi.physmap[i];
    }
    assert rs[..0] == [];
  }

  /** The map that `load_memory_map` leaves: the accepted RAM, with the boot area cut short. */
  ghost predicate Loaded(rs: seq<Range>, regions: seq<Region>, cut: nat) {
    && Shape(rs)
    && rs[0].end % PAGE == 0
    && (forall k :: 0 < k < |rs| ==> rs[k].start > 0)
    && rs[0].end + 3 * PAGE <= cut
    && forall x :: Has(rs, x) <==> Has(Accept([], regions), x) && !(rs[0].end <= x < cut)
  }

  /** The whole pages of an entry, in bytes. */
  function WholeBytes(r: Range): nat {
    var start, end := AlignUp(r.start, PAGE), AlignDown(r.end, PAGE);
    if start < end then end - start else 0
  }

  /** The start of an entry can be rounded up. */
  predicate Rounds(r: Range) {
    AlignUp(r.start, PAGE) < U64
  }

  /** The whole pages of a map, in bytes. */
  function InitialSize(rs: seq<Range>): Run<nat> {
    if rs == [] then Returns(0)
    else
      var sum :- InitialSize(rs[..|rs| - 1]);
      if Rounds(rs[|rs| - 1]) then Returns(sum + WholeBytes(rs[|rs| - 1])) else Aborts(Overflow)
  }

  /** The size can be computed exactly if no entry starts in the last page of the address space. */
  lemma {:induction false} InitialSizeFinishes(rs: seq<Range>)
    ensures InitialSize(rs).Returns? <==> forall k :: 0 <= k < |rs| ==> Rounds(rs[k])
  {
    if rs != [] {
      InitialSizeFinishes(rs[..|rs| - 1]);
    }
  }

  lemma WholeBytesFit(r: Range)
    requires r.start <= r.end
    ensures WholeBytes(r) <= r.end - r.start && WholeBytes(r) % PAGE == 0
  {
    AlignUpNearest(r.start, PAGE);
    AlignDownNearest(r.end, PAGE);
  }

  /** The whole pages of an entry are the longest run of pages inside it. */
  lemma WholeBytesExact(r: Range, lo: nat, hi: nat)
    requires r.start <= lo <= hi <= r.end && lo % PAGE == 0 && hi % PAGE == 0
    ensures hi - lo <= WholeBytes(r)
    ensures WholeBytes(r) > 0 ==>
              var first, last := AlignUp(r.start, PAGE), AlignDown(r.end, PAGE);
              first % PAGE == 0 && last % PAGE == 0 && r.start <= first && last <= r.end && last - first == WholeBytes(r)
  {
    var first, last := AlignUp(r.start, PAGE), AlignDown(r.end, PAGE);
    AlignUpNearest(r.start, PAGE);
    AlignDownNearest(r.end, PAGE);
    if lo < first {
      MultiplesApart(lo, first, PAGE);
    }
    if last < hi {
      MultiplesApart(last, hi, PAGE);
    }
  }

  /** It is a number of whole pages and never exceeds the map, so adding it up cannot overflow. */
  lemma {:induction false} InitialSizeFits(rs: seq<Range>)
    requires Ordered(rs) && InitialSize(rs).Returns?
    ensures InitialSize(rs).value <= Bytes(rs) && InitialSize(rs).value % PAGE == 0
  {
    if rs != [] {
      var r := rs[|rs| - 1];
      var sum, whole := InitialSize(rs[..|rs| - 1]).value, WholeBytes(r);
      InitialSizeFits(rs[..|rs| - 1]);
      WholeBytesFit(r);
      PagesAdd(sum, whole);
      assert InitialSize(rs).value == sum + whole;
    }
  }

  lemma PagesAdd(x: nat, y: nat)
    requires x % PAGE == 0 && y % PAGE == 0
    ensures (x + y) % PAGE == 0
  {
  }

  lemma InitialNext(rs: seq<Range>, n: nat, sum: nat)
    requires n < |rs| && InitialSize(rs[..n]) == Returns(sum)
    ensures InitialSize(rs[..n + 1]) == if Rounds(rs[n]) then Returns(sum + WholeBytes(rs[n])) else Aborts(Overflow)
  {
    assert rs[..n + 1][..n] == rs[..n];
  }

  lemma {:induction false} InitialStuck(rs: seq<Range>, n: nat, m: nat)
    requires n <= m <= |rs| && InitialSize(rs[..n]).Aborts?
    ensures InitialSize(rs[..m]) == InitialSize(rs[..n])
  {
    if n < m {
      InitialStuck(rs, n, m - 1);
      assert rs[..m][..m - 1] == rs[..m - 1];
    }
  }

  /** One entry of the initial memory size. */
  method InitialEntry(lo: nat, hi: nat) returns (r: Run<nat>)
    requires hi < U64
    ensures r == if Rounds(Range(lo, hi)) then Returns(WholeBytes(Range(lo, hi))) else Aborts(Overflow)
  {
    var start := AlignUp(lo, PAGE);
    if start >= U64 {
      return Aborts(Overflow);
    }
    BlockSizesArePow2();
    var end := MaskDown(hi, PAGE);
    return Returns(if start < end then end - start else 0);
  }

  /** The loop that adds up the initial memory size. The boot area it also looks for is the first entry. */
  method InitialMemory(mi: MemoryInfo) returns (r: Run<nat>)
    requires mi.Valid()
    ensures r == InitialSize(mi.Map())
  {
    ghost var rs := mi.Map();
    assert rs[..0] == [] && rs[..|rs|] == rs;
    var sum: nat, n: nat := 0, 0;
    while 2 * n <= mi.last
      invariant n <= |rs| && InitialSize(rs[..n]) == Returns(sum)
    {
      InitialNext(rs, n, sum);
      assert rs[n] == Range(mi.physmap[2 * n], mi.physmap[2 * n + 1]);
      var whole := InitialEntry(mi.physmap[2 * n], mi.physmap[2 * n + 1]);
      if whole.Aborts? {
        InitialStuck(rs, n + 1, |rs|);
        return Aborts(Overflow);
      }
      sum, n := sum + whole.value, n + 1;
    }
    return Returns(sum);
  }

  /** The map `load_memory_map` leaves, if it finishes. */
  function LoadedMap(regions: seq<Region>, need: nat): Option<seq<Range>> {
    match Load([Range(0, 0)], [], regions)
    case Aborts(_) => None
    case Returns((rs, _)) => CutMap(rs, need)
  }

  function CutMap(rs: seq<Range>, need: nat): Option<seq<Range>> {
    if rs == [] || rs[0].end == 0 || InitialSize(rs).Aborts? then None
    else
      var at := TablesAt(rs[0].end / 1024 * 1024, need);
      if at < 0 then None else Some(rs[0 := Range(rs[0].start, at)])
  }

  /** The checks on the loaded map, and where the tables go. */
  method CutBoot(mi: MemoryInfo, need: nat) returns (r: Run<nat>, tables: nat)
    requires mi.Valid()
    modifies mi.physmap
    ensures r.Returns? == CutMap(old(mi.Map()), need).Some?
    ensures r.Returns? ==>
              && mi.Valid() && CutMap(old(mi.Map()), need) == Some(mi.Map())
              && InitialSize(old(mi.Map())) == Returns(r.value)
              && mi.Map() == old(mi.Map())[0 := Range(old(mi.Map()[0].start), tables)]
              && tables % PAGE == 0 && tables + 3 * PAGE <= old(mi.Map()[0].end)
  {
    tables := 0;
    ghost var rs := mi.Map();
    assert rs[0] == Range(mi.physmap[0], mi.physmap[1]);
    if mi.physmap[1] == 0 {
      return Aborts(Panic), 0;
    }
    r := InitialMemory(mi);
    if r.Aborts? {
      return;
    }
    var at := AdjustBootArea(mi.physmap[1] / 1024, need);
    if at.Aborts? {
      return Aborts(at.fault), 0;
    }
    tables := at.value;
    mi.SetWord(1, tables);
  }

  /** The end page, which `hw.physmem` may lower. */
  lemma StartFaithful()
    ensures Faithful([Range(0, 0)], [])
  {
  }

  /**
    Which map is loaded: none if the boot map cannot be, if its boot area is empty, if an entry starts
    in the last page of the address space, or if the tables do not fit the boot area; otherwise that
    of the accepted regions, with the boot area cut down to the tables.
   */
  lemma LoadedExact(regions: seq<Region>, need: nat, rs: seq<Range>, end: nat, at: int)
    requires Load([Range(0, 0)], [], regions).Returns? ==> rs == Load([Range(0, 0)], [], regions).value.0
    requires end == (if rs == [] then 0 else rs[0].end / 1024 * 1024)
    requires at == end - end % PAGE - (if need <= end % 0x1000 then 3 else 4) * PAGE
    ensures LoadedMap(regions, need).Some? <==>
              && Loadable([], 1, regions) && rs != [] && rs[0].end > 0 && at >= 0
              && forall k :: 0 <= k < |rs| ==> AlignUp(rs[k].start, PAGE) < U64
    ensures LoadedMap(regions, need).Some? ==> LoadedMap(regions, need).value == rs[0 := Range(0, at)]
  {
    StartFaithful();
    LoadExact([Range(0, 0)], [], regions);
    if Loadable([], 1, regions) {
      CutExact(rs, need, end, at);
    }
  }

  lemma CutExact(rs: seq<Range>, need: nat, end: nat, at: int)
    requires rs != [] && rs[0].start == 0 && end == rs[0].end / 1024 * 1024
    requires at == end - end % PAGE - (if need <= end % 0x1000 then 3 else 4) * PAGE
    ensures CutMap(rs, need).Some? <==>
              rs[0].end > 0 && at >= 0 && forall k :: 0 <= k < |rs| ==> AlignUp(rs[k].start, PAGE) < U64
    ensures CutMap(rs, need).Some? ==> CutMap(rs, need).value == rs[0 := Range(0, at)]
  {
    InitialSizeFinishes(rs);
    TablesExact(rs[0].end / 1024, need);
    assert (forall k :: 0 <= k < |rs| ==> Rounds(rs[k])) <==> (forall k :: 0 <= k < |rs| ==> AlignUp(rs[k].start, PAGE) < U64);
  }

  /** The limit is the greatest number of pages that neither the map nor `hw.physmem` is too small for. */
  lemma LimitPagesExact(end: nat, physmem: nat, n: nat)
    ensures LimitPages(end, None) == end
    ensures n <= LimitPages(end, Some(physmem)) <==> n <= end && n * PAGE <= physmem
  {
  }

  function LimitPages(end: nat, physmem: Option<nat>): nat {
    if physmem.Some? then Min(physmem.value / PAGE, end) else end
  }

  method SetEndPages(mi: MemoryInfo, physmem: Option<nat>)
    requires mi.Valid()
    modifies mi`endPage
    ensures mi.endPage == LimitPages(mi.Map()[|mi.Map()| - 1].end / PAGE, physmem)
  {
    mi.SetEndPage();
    if physmem.Some? {
      mi.endPage := Min(physmem.value / PAGE, mi.endPage);
    }
  }

  /** Loading the regions and cutting the boot area: the initial memory size. */
  method LoadAndCut(mi: MemoryInfo, regions: seq<Region>, need: nat) returns (r: Run<nat>, ghost cut: nat)
    requires mi.Valid() && mi.Map() == [Range(0, 0)]
    requires forall i :: 0 <= i < |regions| ==> regions[i].base < U64 && regions[i].len < U64
    modifies mi`last, mi.physmap
    ensures r.Returns? == LoadedMap(regions, need).Some?
    ensures r.Aborts? || (mi.Valid() && Loaded(mi.Map(), regions, cut))
    ensures r.Returns? ==>
              && LoadedMap(regions, need) == Some(mi.Map())
              && InitialSize(Load([Range(0, 0)], [], regions).value.0) == Returns(r.value)
  {
    ghost var acc;
    var loaded;
    loaded, acc := LoadRegions(mi, regions);
    if loaded.Aborts? {
      return Aborts(loaded.fault), 0;
    }
    ghost var rs := mi.Map();
    assert Faithful(rs, Accept([], regions)) by {
      LoadExact([Range(0, 0)], [], regions);
    }
    cut := rs[0].end;
    var tables;
    r, tables := CutBoot(mi, need);
    if r.Returns? {
      CutBootArea(rs, tables, mi.Map(), regions);
    }
  }

  /**
    `load_memory_map`, with the end page limited by `hw.physmem`; returns whether there are 8 GB and
    the initial memory size.
   */
  method LoadMemoryMap(mi: MemoryInfo, regions: seq<Region>, need: nat, physmem: Option<nat>)
    returns (r: Run<(bool, nat)>, ghost cut: nat)
    requires mi.Valid() && mi.Map() == [Range(0, 0)]
    requires forall i :: 0 <= i < |regions| ==> regions[i].base < U64 && regions[i].len < U64
    modifies mi, mi.physmap
    ensures r.Returns? == LoadedMap(regions, need).Some?
    ensures r.Aborts? || (mi.Valid() && Loaded(mi.Map(), regions, cut))
    ensures r.Returns? ==>
              && LoadedMap(regions, need) == Some(mi.Map())
              && r.value.0 == (Bytes(mi.Map()) >= 0x2_0000_0000)
              && InitialSize(Load([Range(0, 0)], [], regions).value.0) == Returns(r.value.1)
              && mi.endPage == LimitPages(mi.Map()[|mi.Map()| - 1].end / PAGE, physmem)
  {
    var initial;
    initial, cut := LoadAndCut(mi, regions, need);
    if initial.Aborts? {
      return Aborts(initial.fault), cut;
    }
    SetEndPages(mi, physmem);
    assert Ordered(mi.Map());
    var total := TotalSize(mi);
    return Returns((total / 0x2_0000_0000 != 0, initial.value)), cut;
  }

  lemma CutBootArea(rs: seq<Range>, tables: nat, after: seq<Range>, regions: seq<Region>)
    requires Faithful(rs, Accept([], regions)) && tables + 3 * PAGE <= rs[0].end && tables % PAGE == 0
    requires after == rs[0 := Range(0, tables)]
    ensures Loaded(after, regions, rs[0].end)
  {
    var cut := rs[0].end;
    assert Sorted(after) by {
      forall i, j | 0 <= i < j < |after| ensures Below(after[i], after[j]) {
        assert Below(rs[i], rs[j]);
      }
    }
    forall k | 0 < k < |after| ensures after[k].start > 0 {
      assert Below(rs[0], rs[k]);
    }
    forall x ensures Has(after, x) <==> Has(Accept([], regions), x) && !(tables <= x < cut) {
      SortedApart(rs);
      SortedApart(after);
      SplitHas(rs, 0, x);
      SplitHas(after, 0, x);
      assert after[1..] == rs[1..];
      assert Has(rs, x) <==> Has(Accept([], regions), x);
    }
  }
}
