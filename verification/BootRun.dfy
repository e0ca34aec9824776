/**
  One boot followed from its memory map to the page counts: a boot area, some single pages, and a
  large block of RAM. With up to 26 single pages it finishes; with one more, the table of available
  memory is full, and nothing else is wrong with it.
 */
module BootRun {
  import opened Machine
  import opened Ranges
  import opened PhysMap
  import opened PhysAvail
  import BootMap
  import DirectMemory
  import Setup

  function Single(k: nat): Range {
    Range(0x100000 + 0x8000 * k, 0x104000 + 0x8000 * k)
  }

  function Singles(n: nat): (rs: seq<Range>)
    ensures |rs| == n && forall k :: 0 <= k < n ==> rs[k] == Single(k)
  {
    seq<Range>(n, (k: nat) => Single(k))
  }

  /** The map below the large block: a boot area that ends at `end`, and the single pages. */
  function Front(end: nat, n: nat): (rs: seq<Range>)
    ensures |rs| == n + 1 && rs[0] == Range(0, end) && forall k :: 0 < k <= n ==> rs[k] == Single(k - 1)
  {
    [Range(0, end)] + Singles(n)
  }

  const BLOCK := Range(0x10000000, 0x20000000)

  // ---- Loading the boot map ----

  /** The regions from the `k`th single page on. */
  function Rest(k: nat, n: nat): seq<BootMap.Region>
    requires k <= n
    decreases n - k
  {
    if k == n then [BootMap.Region(0x10000000, 0x10000000, BootMap.Ram)]
    else [BootMap.Region(Single(k).start, 0x4000, BootMap.Ram)] + Rest(k + 1, n)
  }

  function Regions(n: nat): seq<BootMap.Region> {
    [BootMap.Region(0, 0x20000, BootMap.Ram)] + Rest(0, n)
  }

  lemma BlockLoaded(rs: seq<Range>, n: nat, acc: seq<Range>)
    requires n <= 27 && rs == Front(0x20000, n)
    ensures var r := BootMap.Load(rs, acc, Rest(n, n));
            r.Returns? && r.value.0 == rs + [BLOCK]
  {
    BootMap.InsertAbove(rs, 0x10000000, 0x10000000);
    assert Rest(n, n)[1..] == [];
  }

  lemma SingleLoaded(rs: seq<Range>, k: nat, n: nat, acc: seq<Range>)
    requires k < n <= 27 && rs == Front(0x20000, k)
    ensures BootMap.Load(rs, acc, Rest(k, n)) == BootMap.Load(Front(0x20000, k + 1), acc + [Single(k)], Rest(k + 1, n))
  {
    BootMap.InsertAbove(rs, Single(k).start, 0x4000);
    assert rs + [Single(k)] == Front(0x20000, k + 1);
    assert Rest(k, n)[1..] == Rest(k + 1, n);
  }

  lemma {:induction false} RestLoaded(k: nat, n: nat, acc: seq<Range>)
    requires k <= n <= 27
    ensures var r := BootMap.Load(Front(0x20000, k), acc, Rest(k, n));
            r.Returns? && r.value.0 == Front(0x20000, n) + [BLOCK]
    decreases n - k
  {
    if k == n {
      BlockLoaded(Front(0x20000, k), n, acc);
    } else {
      SingleLoaded(Front(0x20000, k), k, n, acc);
      RestLoaded(k + 1, n, acc + [Single(k)]);
    }
  }

  lemma RegionsLoaded(n: nat)
    requires n <= 27
    ensures var r := BootMap.Load([Range(0, 0)], [], Regions(n));
            r.Returns? && r.value.0 == Front(0x20000, n) + [BLOCK]
  {
    var regions := Regions(n);
    assert regions[0] == BootMap.Region(0, 0x20000, BootMap.Ram) && regions[1..] == Rest(0, n);
    assert [Range(0, 0)][0 := Range(0, 0x20000)] == [Range(0, 0x20000)];
    assert BootMap.Insert([Range(0, 0)], 0, 0x20000) == Returns(Some([Range(0, 0x20000)]));
    assert Front(0x20000, 0) == [Range(0, 0x20000)];
    RestLoaded(0, n, [] + [Range(0, 0x20000)]);
  }

  /** The loaded map: four pages at the end of the boot area are gone. */
  function LoadedMap(n: nat): seq<Range> {
    Front(0x10000, n) + [BLOCK]
  }

  lemma TablesBelow(end: nat, kilobytes: nat)
    requires end == 0x20000 && kilobytes == end / 1024
    ensures BootMap.TablesAt(kilobytes * 1024, 1) == 0x10000
  {
    BootMap.TablesExact(kilobytes, 1);
  }

  lemma MapLoads(n: nat)
    requires n <= 27
    ensures BootMap.LoadedMap(Regions(n), 1) == Some(LoadedMap(n))
  {
    RegionsLoaded(n);
    MapCuts(n, Front(0x20000, n) + [BLOCK]);
  }

  lemma MapCuts(n: nat, rs: seq<Range>)
    requires n <= 27 && rs == Front(0x20000, n) + [BLOCK]
    ensures BootMap.CutMap(rs, 1) == Some(LoadedMap(n))
  {
    assert BootMap.InitialSize(rs).Returns? by {
      MapRounds(n, rs);
      BootMap.InitialSizeFinishes(rs);
    }
    StartCut(n, rs);
    TablesBelow(rs[0].end, rs[0].end / 1024);
    CutIs(rs, 0x10000);
  }

  lemma CutIs(rs: seq<Range>, at: nat)
    requires rs != [] && rs[0].end != 0 && BootMap.InitialSize(rs).Returns? && BootMap.TablesAt(rs[0].end / 1024 * 1024, 1) == at
    ensures BootMap.CutMap(rs, 1) == Some(rs[0 := Range(rs[0].start, at)])
  {
  }

  lemma StartCut(n: nat, rs: seq<Range>)
    requires rs == Front(0x20000, n) + [BLOCK]
    ensures rs[0] == Range(0, 0x20000) && rs[0 := Range(0, 0x10000)] == LoadedMap(n)
  {
  }

  lemma MapRounds(n: nat, rs: seq<Range>)
    requires n <= 27 && rs == Front(0x20000, n) + [BLOCK]
    ensures forall k :: 0 <= k < |rs| ==> BootMap.Rounds(rs[k])
  {
    forall k | 0 <= k < |rs| ensures BootMap.Rounds(rs[k]) {
      assert rs[k].start <= 0x10000000;
      AlignUpNearest(rs[k].start, PAGE);
    }
  }

  // ---- The reservations ----

  const CONFIG := DirectMemory.DmemConfig(0x8000000, 0x4000000, 0, false, 0x200000, 0x200000)

  /** What is taken, in order: the high block, the game, the shell, the vision and the last block. */
  const HELD: seq<Range> := [
    Range(0x1F000000, 0x20000000), Range(0x10000000, 0x18000000), Range(0x1EE00000, 0x1F000000),
    Range(0x1DE00000, 0x1EE00000), Range(0x1DC00000, 0x1DE00000)]

  lemma TakeTop(front: seq<Range>, e: Range, size: nat, align: nat, addr: nat, held: seq<Range>)
    requires front != [] && size > 0 && align > 0 && addr > 0 && size <= e.end
    requires addr % align == 0 && addr <= e.end - size < addr + align
    requires (e.start < addr && addr + size == e.end) || (e.start == addr && addr + size < e.end)
    ensures DirectMemory.Step(DirectMemory.State(front + [e], held), DirectMemory.Op.Take(size, align)) ==
            Some(DirectMemory.State(front + [if addr == e.start then Range(addr + size, e.end) else Range(e.start, addr)],
                                    held + [Range(addr, addr + size)]))
  {
    assert addr == AlignDown(e.end - size, align) by {
      var a := AlignDown(e.end - size, align);
      AlignDownNearest(e.end - size, align);
      if a < addr {
        MultiplesApart(a, addr, align);
      } else if addr < a {
        MultiplesApart(addr, a, align);
      }
    }
    ReserveTop(front, e, size, align, addr);
  }

  lemma TwoTaken(front: seq<Range>)
    requires front != []
    ensures DirectMemory.Exec(DirectMemory.State(front + [BLOCK], []), DirectMemory.FirstTwo(CONFIG)) ==
            Some(DirectMemory.State(front + [Range(0x18000000, 0x1F000000)], HELD[..2]))
    ensures DirectMemory.Blocks(front + [BLOCK], CONFIG) == Some((0x1F000000, 0x18000000))
  {
    var s := DirectMemory.State(front + [BLOCK], []);
    var one := DirectMemory.HighOnly();
    var m := DirectMemory.State(front + [Range(0x10000000, 0x1F000000)], HELD[..1]);
    TakeTop(front, BLOCK, 0x1000000, 1, 0x1F000000, []);
    DirectMemory.ExecStep(s, [], DirectMemory.Op.Take(0x1000000, 1), s);
    assert [] + [Range(0x1F000000, 0x20000000)] == HELD[..1] && [] + one == one;
    TakeTop(front, Range(0x10000000, 0x1F000000), 0x8000000, 0x8000000, 0x10000000, HELD[..1]);
    DirectMemory.ExecStep(s, one, DirectMemory.Op.Take(0x8000000, 0x8000000), m);
    assert HELD[..1] + [Range(0x10000000, 0x18000000)] == HELD[..2];
  }

  lemma ModeBits()
    ensures DirectMemory.Supported(3, Some(CONFIG)) && DirectMemory.Bit(0x7F393F3B, 3) && !DirectMemory.Bit(0x7F393733, 3)
    ensures !DirectMemory.Bit(0x80C6C0C4 + 0x20212022, 3)
  {
  }

  /** The step that takes the block `HELD[k]`. */
  function Taking(k: nat): DirectMemory.Op
    requires k < |HELD|
  {
    DirectMemory.Op.Take(HELD[k].end - HELD[k].start, 0x200000)
  }

  /** The reservations in the mode of this boot. */
  lemma PlanIs()
    ensures DirectMemory.TakePlan(3, CONFIG) == DirectMemory.FirstTwo(CONFIG) + [Taking(2)] + [Taking(3)] + [Taking(4)]
  {
    ModeBits();
    assert DirectMemory.UnkPlan(0x200000) == [DirectMemory.Op.Take(0x200000, 0x200000)];
  }

  /** The blocks after the first two come off the top of the last entry, one below the other. */
  lemma NextTaken(front: seq<Range>, s: DirectMemory.State, ops: seq<DirectMemory.Op>, k: nat)
    requires front != [] && k < |HELD| && HELD[k].start % 0x200000 == 0 && 0x18000000 < HELD[k].start < HELD[k].end
    requires DirectMemory.Exec(s, ops) == Some(DirectMemory.State(front + [Range(0x18000000, HELD[k].end)], HELD[..k]))
    ensures DirectMemory.Exec(s, ops + [Taking(k)]) ==
            Some(DirectMemory.State(front + [Range(0x18000000, HELD[k].start)], HELD[..k + 1]))
  {
    var e, size := Range(0x18000000, HELD[k].end), HELD[k].end - HELD[k].start;
    TakeTop(front, e, size, 0x200000, HELD[k].start, HELD[..k]);
    DirectMemory.ExecStep(s, ops, Taking(k), DirectMemory.State(front + [e], HELD[..k]));
    assert HELD[..k] + [HELD[k]] == HELD[..k + 1];
  }

  lemma AllTaken(front: seq<Range>, s: DirectMemory.State, two: seq<DirectMemory.Op>)
    requires front != []
    requires DirectMemory.Exec(s, two) == Some(DirectMemory.State(front + [Range(0x18000000, 0x1F000000)], HELD[..2]))
    ensures DirectMemory.Exec(s, two + [Taking(2)] + [Taking(3)] + [Taking(4)]) ==
            Some(DirectMemory.State(front + [Range(0x18000000, 0x1DC00000)], HELD))
  {
    NextTaken(front, s, two, 2);
    NextTaken(front, s, two + [Taking(2)], 3);
    NextTaken(front, s, two + [Taking(2)] + [Taking(3)], 4);
    assert HELD[..5] == HELD;
  }

  // ---- The give-backs ----

  /** The two entries at the top of the map in the end. */
  const TOP: seq<Range> := [Range(0x14000000, 0x1DC00000), Range(0x1F000000, 0x1FC00000)]

  predicate Low(front: seq<Range>) {
    0 < |front| && |front| + 1 < MAX_RANGES && forall k :: 0 <= k < |front| ==> front[k].start <= front[k].end < 0x14000000
  }

  lemma WindowGiven(front: seq<Range>)
    requires Low(front)
    ensures DirectMemory.Step(DirectMemory.State(front + [Range(0x18000000, 0x1DC00000)], HELD),
                              DirectMemory.GiveBack(0x14000000, 0x18000000, 1)) ==
            Some(DirectMemory.State(front + [TOP[0]], Carve(HELD, 1, 0x14000000, 0x18000000)))
  {
    AdjustTop(front, Range(0x18000000, 0x1DC00000), 0x14000000);
  }

  lemma HighGiven(front: seq<Range>, held: seq<Range>)
    requires Low(front) && held == Carve(HELD, 1, 0x14000000, 0x18000000)
    ensures DirectMemory.Step(DirectMemory.State(front + [TOP[0]], held), DirectMemory.GiveBack(0x1F000000, 0x1FC00000, 0)) ==
            Some(DirectMemory.State(front + TOP, Carve(held, 0, 0x1F000000, 0x1FC00000)))
  {
    var rs := front + [TOP[0]];
    AdjustAbove(rs, 0x1F000000, 0x1FC00000);
    assert rs + [TOP[1]] == front + TOP;
    assert held[0] == HELD[0];
  }

  /** What `Dmem::new` leaves of a map whose top is the large block. */
  lemma BlockSettles(front: seq<Range>) returns (held: seq<Range>)
    requires Low(front)
    ensures DirectMemory.Settled(front + [BLOCK], 3, Some(CONFIG), 0, 0) == Some(DirectMemory.State(front + TOP, held))
  {
    var s := DirectMemory.State(front + [BLOCK], []);
    var mid := Carve(HELD, 1, 0x14000000, 0x18000000);
    held := Carve(mid, 0, 0x1F000000, 0x1FC00000);
    TwoTaken(front);
    AllTaken(front, s, DirectMemory.FirstTwo(CONFIG));
    PlanIs();
    var take := DirectMemory.TakePlan(3, CONFIG);
    var window := DirectMemory.GiveBack(0x14000000, 0x18000000, 1);
    WindowGiven(front);
    DirectMemory.ExecStep(s, take, window, DirectMemory.State(front + [Range(0x18000000, 0x1DC00000)], HELD));
    HighGiven(front, mid);
    DirectMemory.ExecStep(s, take + [window], DirectMemory.GiveBack(0x1F000000, 0x1FC00000, 0), DirectMemory.State(front + [TOP[0]], mid));
    ModeBits();
  }

  // ---- The tables and the counts ----

  /** What this boot is given, with a message buffer of any size. */
  function Given(msgbufSize: nat): Setup.Boot {
    Setup.Boot(1, None, 0, 3, [None, None, None, Some(CONFIG)], false, 0, 0, 0, 0, msgbufSize, false)
  }

  lemma SmallMap(n: nat)
    requires n <= 27
    ensures Setup.Unk(Bytes(LoadedMap(n)) >= 0x2_0000_0000, false) == 0
  {
    var rs := LoadedMap(n);
    assert rs[n + 1] == BLOCK;
    forall i, j | 0 <= i < j < |rs| ensures Below(rs[i], rs[j]) {
      assert j <= n ==> rs[j] == Single(j - 1);
    }
    BytesBelow(rs);
  }

  /** The map in the end is whole pages with gaps between them, all usable. */
  lemma MapTabular(n: nat, o: seq<Range>, ex: Exclusion)
    requires n <= 27 && o == Setup.Overwritten(Front(0x10000, n) + TOP) && ex == Exclusion(0x400000, 0, 0)
    ensures Tabular(o, 0x1FC00000, ex)
  {
    forall k | 0 <= k < |o|
      ensures IsPage(o[k].start) && IsPage(o[k].end) && o[k].start < o[k].end <= 0x1FC00000
    {
      MapEntry(n, o, k);
    }
    forall k | 0 < k < |o| ensures o[k - 1].end < o[k].start {
      MapEntry(n, o, k);
      MapEntry(n, o, k - 1);
    }
  }

  lemma MapEntry(n: nat, o: seq<Range>, k: nat)
    requires n <= 27 && o == Setup.Overwritten(Front(0x10000, n) + TOP) && k < |o|
    ensures |o| == n + 3
    ensures o[k] == if k == 0 then Range(0x4000, 0x10000) else if k <= n then Single(k - 1) else TOP[k - n - 1]
  {
  }

  lemma MapWalked(n: nat, free: seq<Range>, limit: nat, ex: Exclusion) returns (w: Tables)
    requires n <= 27 && free == Front(0x10000, n) + TOP && limit == 0x1FC00000 && ex == Exclusion(0x400000, 0, 0)
    ensures Setup.TablesOf(free, limit, ex) == Returns(w) && |w.phys| == n + 3 && Last(w.phys) == TOP[1]
  {
    var o := Setup.Overwritten(free);
    MapTabular(n, o, ex);
    w := TabularWalked(o, |o|, limit, ex);
    assert o[..|o|] == o;
    MapEntry(n, o, n + 2);
  }

  lemma TopEnds(free: seq<Range>, n: nat)
    requires free == Front(0x10000, n) + TOP
    ensures Setup.EndPages(free) == 0x1FC00000
  {
    assert free[|free| - 1] == TOP[1];
  }

  /** A boot in this mode, once its memory is settled and its tables are filled. */
  lemma Decided(loaded: seq<Range>, b: Setup.Boot, t: DirectMemory.State, w: Tables)
    requires b == Given(b.msgbufSize) && t.free != []
    requires DirectMemory.Settled(loaded, 3, b.configs[3], 0, b.unknownDmem1) == Some(t)
    requires Setup.TablesOf(t.free, Setup.EndPages(t.free), Setup.ExclusionOf(0, b)) == Returns(w)
    ensures Setup.Completes(loaded, b, 0) <==> Setup.Trimmable(w.phys, AlignUp(b.msgbufSize, PAGE))
  {
  }

  lemma BootTables(n: nat, loaded: seq<Range>, b: Setup.Boot) returns (t: DirectMemory.State, w: Tables)
    requires n <= 27 && loaded == LoadedMap(n) && b == Given(b.msgbufSize)
    ensures t.free != [] && DirectMemory.Settled(loaded, 3, b.configs[3], 0, b.unknownDmem1) == Some(t)
    ensures Setup.TablesOf(t.free, Setup.EndPages(t.free), Setup.ExclusionOf(0, b)) == Returns(w)
    ensures |w.phys| == n + 3 && Last(w.phys) == TOP[1]
  {
    var free := Front(0x10000, n) + TOP;
    var held := BlockSettles(Front(0x10000, n));
    t := DirectMemory.State(free, held);
    TopEnds(free, n);
    w := MapWalked(n, free, Setup.EndPages(free), Setup.ExclusionOf(0, b));
  }

  /**
    The boot finishes exactly with fewer than 27 single pages. With 27 the map is loaded, the
    reservations succeed and the message buffer fits, as with fewer; but the table holds 30 ranges,
    and counting its pages indexes past the array.
   */
  lemma BootOutcome(n: nat, b: Setup.Boot) returns (t: DirectMemory.State, w: Tables)
    requires n <= 27 && b == Given(b.msgbufSize) && PAGE + AlignUp(b.msgbufSize, PAGE) < 0xC00000
    ensures BootMap.LoadedMap(Regions(n), b.need) == Some(LoadedMap(n))
    ensures Setup.Unk(Bytes(LoadedMap(n)) >= 0x2_0000_0000, b.cpuBit) == 0
    ensures t.free != [] && DirectMemory.Settled(LoadedMap(n), 3, b.configs[3], 0, b.unknownDmem1) == Some(t)
    ensures Setup.TablesOf(t.free, Setup.EndPages(t.free), Setup.ExclusionOf(0, b)) == Returns(w)
    ensures |w.phys| == n + 3 && Last(w.phys).start + PAGE + AlignUp(b.msgbufSize, PAGE) < Last(w.phys).end
    ensures Setup.Completes(LoadedMap(n), b, 0) <==> n < 27
  {
    MapLoads(n);
    SmallMap(n);
    t, w := BootTables(n, LoadedMap(n), b);
    Decided(LoadedMap(n), b, t, w);
  }
}
