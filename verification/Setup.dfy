/**
  The memory part of `setup`, from the boot memory map to the page counts of `Vm::new`, and what
  the counts mean in terms of the boot map.
 */
module Setup {
  import opened Machine
  import opened Ranges
  import opened PhysMap
  import opened PhysAvail
  import DirectMemory
  import BootMap

  /** The message buffer is cut off the last range, which must be more than a page longer. */
  method TrimMsgbuf(phys: array<nat>, idx: nat, msgbuf: nat) returns (r: Run<()>)
    requires Holding(phys[..], idx) && IsPage(msgbuf)
    modifies phys
    ensures match r
            case Aborts(f) => f == Unimplemented && Last(old(Table(phys[..], idx))).end <= Last(old(Table(phys[..], idx))).start + PAGE + msgbuf
            case Returns(_) =>
              && Last(old(Table(phys[..], idx))).start + PAGE + msgbuf < Last(old(Table(phys[..], idx))).end
              && Holding(phys[..], idx) && Table(phys[..], idx) == Trim(old(Table(phys[..], idx)), msgbuf)
  {
    ghost var t := Table(phys[..], idx);
    assert Last(t) == Range(phys[idx - 1], phys[idx]);
    if phys[idx] <= phys[idx - 1] + PAGE + msgbuf {
      return Aborts(Unimplemented);
    }
    phys[idx] := phys[idx] - msgbuf;
    assert Table(phys[..], idx) == Trim(t, msgbuf);
    return Returns(());
  }

  /** The pages of one range, counted inside and outside the window `[lo, hi)`. */
  method CountRange(start: nat, end: nat, lo: nat, hi: nat, c0: nat, c1: nat, ghost t: seq<Range>, ghost k: nat)
    returns (n0: nat, n1: nat)
    requires Canonical(t) && k < |t| && t[k] == Range(start, end) && end < U64
    requires c0 == |Counted(t, start, lo, hi, false)| && c1 == |Counted(t, start, lo, hi, true)|
    ensures n0 == |Counted(t, end, lo, hi, false)| && n1 == |Counted(t, end, lo, hi, true)|
  {
    n0, n1 := c0, c1;
    var addr := start;
    while addr < end
      invariant start <= addr <= end && IsPage(addr)
      invariant n0 == |Counted(t, addr, lo, hi, false)| && n1 == |Counted(t, addr, lo, hi, true)|
    {
      assert Holds(t[k], addr);
      CountPage(t, addr, lo, hi, false);
      CountPage(t, addr, lo, hi, true);
      NextPage(addr, end);
      if addr < lo || hi <= addr {
        n0 := n0 + 1;
      } else {
        n1 := n1 + 1;
      }
      addr := addr + PAGE;
    }
  }

  /** The pages of a table inside, or outside, the window. */
  ghost function Split(t: seq<Range>, lo: int, hi: int, inside: bool): set<int> {
    set p: int | p in PageSet(t) && (lo <= p < hi) == inside
  }

  /** Some range of the table is not empty; only the first may be. */
  predicate AnyPages(t: seq<Range>)
    requires t != []
  {
    |t| > 1 || t[0].start < t[0].end
  }

  /**
    The counting loop of `Vm::new`. A list of blocked pages stops it at the first page. It looks for a
    pair that ends at 0; a table of 30 ranges has none inside the 61 words, and the loop indexes past
    the array.
   */
  method CountPages(phys: array<nat>, ghost idx: nat, gameEnd: nat, fmemMax: nat, blocked: bool) returns (r: Run<(nat, nat)>)
    requires Holding(phys[..], idx) && fmemMax <= gameEnd
    requires Canonical(Table(phys[..], idx)) && Table(phys[..], idx)[0].end > 0 && Last(Table(phys[..], idx)).end < U64
    ensures r == if blocked && AnyPages(Table(phys[..], idx)) then Aborts(Unimplemented)
                 else if |Table(phys[..], idx)| == MAX_RANGES then Aborts(OutOfBounds)
                 else Returns((|Split(Table(phys[..], idx), gameEnd - fmemMax, gameEnd, false)|,
                               |Split(Table(phys[..], idx), gameEnd - fmemMax, gameEnd, true)|))
  {
    var lo := gameEnd - fmemMax;
    ghost var t := Table(phys[..], idx);
    var c0, c1 := 0, 0;
    CountEnds(t, lo, gameEnd, false);
    CountEnds(t, lo, gameEnd, true);
    var k := 0;
    while true
      invariant 0 <= k <= |t|
      invariant blocked && k > 0 ==> k == 1 && t[0].start == t[0].end
      invariant k < |t| ==> c0 == |Counted(t, t[k].start, lo, gameEnd, false)| && c1 == |Counted(t, t[k].start, lo, gameEnd, true)|
      invariant k == |t| ==> c0 == |Split(t, lo, gameEnd, false)| && c1 == |Split(t, lo, gameEnd, true)|
      decreases |t| - k
    {
      var i := 2 * k;
      assert k < |t| ==> t[k] == Range(phys[i], phys[i + 1]) && 0 < t[k].end <= Last(t).end by {
        if k < |t| {
          EndsInOrder(t, k);
        }
      }
      if i + 1 >= WORDS {
        return Aborts(OutOfBounds);
      }
      if phys[i + 1] == 0 {
        return Returns((c0, c1));
      }
      if blocked && phys[i] < phys[i + 1] {
        return Aborts(Unimplemented);
      }
      c0, c1 := CountRange(phys[i], phys[i + 1], lo, gameEnd, c0, c1, t, k);
      if k + 1 < |t| {
        CountGap(t, k, lo, gameEnd, false);
        CountGap(t, k, lo, gameEnd, true);
      }
      k := k + 1;
    }
  }

  lemma EndsInOrder(t: seq<Range>, k: nat)
    requires Canonical(t) && t[0].end > 0 && k < |t|
    ensures 0 < t[k].end <= Last(t).end
  {
    assert k > 0 ==> t[0].end < t[k].start;
    assert k < |t| - 1 ==> t[k].end < t[|t| - 1].start;
  }

  // ---- Overwriting the start of the first entry ----

  /** The map once `setup` has written the page size over the start of its first entry. */
  function Overwritten(rs: seq<Range>): seq<Range>
    requires rs != []
  {
    rs[0 := Range(PAGE, rs[0].end)]
  }

  lemma OverwrittenPage(rs: seq<Range>, limit: nat, x: int)
    requires rs != []
    ensures InMap(Overwritten(rs), |rs|, limit, x) <==>
            (x < limit && PageIn(Range(PAGE, rs[0].end), x)) ||
            (x < limit && exists k :: 0 < k < |rs| && PageIn(rs[k], x))
  {
    var o := Overwritten(rs);
    if x < limit && PageIn(Range(PAGE, rs[0].end), x) {
      assert PageIn(o[0], x);
    }
    if x < limit && exists k :: 0 < k < |rs| && PageIn(rs[k], x) {
      var k :| 0 < k < |rs| && PageIn(rs[k], x);
      assert PageIn(o[k], x);
    }
  }

  /** On a map that starts at 0 the overwrite drops page 0 and changes nothing else. */
  lemma OverwriteDropsFirst(rs: seq<Range>, limit: nat, x: int)
    requires rs != [] && rs[0].start == 0 && (forall k :: 0 < k < |rs| ==> rs[k].start > 0)
    requires IsPage(x)
    ensures InMap(Overwritten(rs), |rs|, limit, x) <==> InMap(rs, |rs|, limit, x) && PAGE <= x
  {
    OverwrittenPage(rs, limit, x);
    if InMap(rs, |rs|, limit, x) && PAGE <= x {
      var k :| 0 <= k < |rs| && PageIn(rs[k], x);
    }
    if InMap(Overwritten(rs), |rs|, limit, x) {
      if PageIn(Range(PAGE, rs[0].end), x) {
        assert PageIn(rs[0], x);
      } else {
        var k :| 0 < k < |rs| && PageIn(rs[k], x);
        assert rs[k].start > 0;
        PageOrder(0, x);
      }
    }
  }

  /**
    On any sorted map, the overwrite invents no page if and only if the first entry starts within the
    first page, or is too short or too high to gain one.
   */
  lemma OverwriteExact(rs: seq<Range>, limit: nat)
    requires rs != [] && Sorted(rs) && IsPage(limit)
    ensures (forall x | IsPage(x) :: InMap(Overwritten(rs), |rs|, limit, x) ==> InMap(rs, |rs|, limit, x)) <==>
            rs[0].start <= PAGE || rs[0].end < 2 * PAGE || limit <= PAGE
  {
    if rs[0].start <= PAGE || rs[0].end < 2 * PAGE || limit <= PAGE {
      forall x | IsPage(x) && InMap(Overwritten(rs), |rs|, limit, x) ensures InMap(rs, |rs|, limit, x) {
        OverwrittenPage(rs, limit, x);
        if PageIn(Range(PAGE, rs[0].end), x) {
          assert PageIn(rs[0], x);
        }
      }
    } else {
      OverwrittenPage(rs, limit, PAGE);
      assert IsPage(PAGE);
      if InMap(rs, |rs|, limit, PAGE) {
        var k :| 0 <= k < |rs| && PageIn(rs[k], PAGE);
        SortedGrows(rs, 0, k);
      }
    }
  }

  // ---- The tables ----

  /** The pages that should be available: whole pages of the map from the second on, not excluded. */
  ghost function AvailPages(rs: seq<Range>, limit: nat, ex: Exclusion): set<int> {
    set x: int | 0 <= x < U64 && IsPage(x) && PAGE <= x && InMap(rs, |rs|, limit, x) && ex.Spares(x)
  }

  /** What the two tables hold, for the map they were built from. */
  ghost predicate Populated(rs: seq<Range>, limit: nat, ex: Exclusion, w: Tables) {
    && Canonical(w.phys) && w.phys[0].end > 0 && Last(w.phys).end < U64
    && Canonical(w.dump)
    && w.physmem == |PageSet(w.phys)|
    && PageSet(w.phys) <= AvailPages(rs, limit, ex)
    && (|w.phys| < MAX_RANGES ==> PageSet(w.phys) == AvailPages(rs, limit, ex))
    && (forall x | IsPage(x) :: Has(w.dump, x) ==> x == 0 || (PAGE <= x && InMap(rs, |rs|, limit, x)))
    && (|w.phys| < MAX_RANGES && |w.dump| < MAX_RANGES ==>
          forall x | IsPage(x) :: Has(w.dump, x) <==> x == 0 || (PAGE <= x && InMap(rs, |rs|, limit, x)))
  }

  /** The map as `Dmem::new` leaves it. */
  predicate Bottomed(rs: seq<Range>) {
    && rs != [] && Sorted(rs) && rs[0].start == 0
    && (forall k :: 0 < k < |rs| ==> rs[k].start > 0)
    && forall k :: 0 <= k < |rs| ==> rs[k].end < U64
  }

  lemma {:induction false} FirstRangeStays(rs: seq<Range>, n: nat, limit: nat, ex: Exclusion, w: Tables)
    requires n <= |rs| && WalkFirst(rs, n, limit, ex) == Returns(w)
    ensures w.phys[0].end > 0
  {
    if n > 0 {
      var m := WalkFirst(rs, n - 1, limit, ex).value;
      FirstRangeStays(rs, n - 1, limit, ex, m);
      WalkFirstRange(m, AlignUp(rs[n - 1].start, PAGE), Min(AlignDown(rs[n - 1].end, PAGE), limit), ex, w);
    }
  }

  lemma {:induction false} WalkFirstRange(w: Tables, pa: nat, end: nat, ex: Exclusion, w': Tables)
    requires w.phys != [] && w.dump != [] && w.phys[0].end > 0 && w' == Walk(w, pa, end, ex)
    ensures w'.phys[0].end > 0
    decreases end - pa
  {
    if pa < end && !(ex.Usable(pa) && !PhysAvail.Fits(w.phys, pa)) {
      WalkFirstRange(Visit(w, pa, ex), pa + PAGE, end, ex, w');
    }
  }

  lemma TablesExact(rs: seq<Range>, limit: nat, ex: Exclusion, w: Tables)
    requires Bottomed(rs) && IsPage(limit)
    requires WalkFirst(Overwritten(rs), |rs|, limit, ex) == Returns(w)
    ensures Populated(rs, limit, ex, w)
  {
    var o := Overwritten(rs);
    assert Walkable(o) by {
      forall i, j | 0 <= i < j < |o| ensures Below(o[i], o[j]) {
        assert Below(rs[i], rs[j]);
      }
    }
    FirstReady(o, |o|, limit, ex, w, U64 - 1);
    FirstRangeStays(o, |o|, limit, ex, w);
    FirstExact(o, |o|, limit, ex, w);
    forall x | IsPage(x) ensures InMap(o, |o|, limit, x) <==> InMap(rs, |rs|, limit, x) && PAGE <= x {
      OverwriteDropsFirst(rs, limit, x);
    }
    assert |w.phys| < MAX_RANGES ==> PageSet(w.phys) == AvailPages(rs, limit, ex) by {
      if |w.phys| < MAX_RANGES {
        forall x ensures x in PageSet(w.phys) <==> x in AvailPages(rs, limit, ex) {
        }
      }
    }
  }

  /** The tables `setup` fills from a map. */
  function TablesOf(rs: seq<Range>, limit: nat, ex: Exclusion): Run<Tables>
    requires rs != []
  {
    WalkFirst(Overwritten(rs), |rs|, limit, ex)
  }

  /** The loops of `setup` that fill the two tables. */
  method Populate(mi: MemoryInfo, ex: Exclusion)
    returns (r: Run<nat>, phys: array<nat>, paIndx: nat, dump: array<nat>, daIndx: nat)
    requires mi.Valid() && Bottomed(mi.Map()) && mi.endPage * PAGE < U64
    modifies mi.physmap
    ensures fresh(phys) && fresh(dump)
    ensures r.Returns? <==> TablesOf(old(mi.Map()), mi.endPage * PAGE, ex).Returns?
    ensures r.Returns? ==>
              && Holding(phys[..], paIndx) && Holding(dump[..], daIndx)
              && var w := Tables(Table(phys[..], paIndx), Table(dump[..], daIndx), r.value);
              && TablesOf(old(mi.Map()), mi.endPage * PAGE, ex) == Returns(w)
              && Populated(old(mi.Map()), mi.endPage * PAGE, ex, w)
  {
    ghost var rs := mi.Map();
    phys := new nat[WORDS](_ => 0);
    dump := new nat[WORDS](_ => 0);
    mi.SetWord(0, PAGE);
    assert mi.Map() == Overwritten(rs);
    phys[0] := mi.physmap[0];
    phys[1] := mi.physmap[0];
    dump[1] := mi.physmap[0];
    assert Table(phys[..], 1) == NO_PAGES.phys && Table(dump[..], 1) == NO_PAGES.dump;
    r, paIndx, daIndx := WalkMap(mi, mi.endPage * PAGE, ex, phys, dump);
    if r.Returns? {
      WholePages(mi.endPage);
      TablesExact(rs, mi.endPage * PAGE, ex, Tables(Table(phys[..], paIndx), Table(dump[..], daIndx), r.value));
    }
  }

  lemma WholePages(n: nat)
    ensures IsPage(n * PAGE)
  {
  }

  // ---- The whole of it ----

  /** Trimming keeps exactly the pages below the new end. */
  lemma TrimPages(t: seq<Range>, m: nat)
    requires Canonical(t) && m < Last(t).end && Last(t).start + m < Last(t).end
    ensures PageSet(Trim(t, m)) == set p: int | p in PageSet(t) && p < Last(t).end - m
  {
    var u := Trim(t, m);
    forall p ensures Has(u, p) <==> Has(t, p) && p < Last(t).end - m {
      if Has(u, p) {
        var k :| 0 <= k < |u| && Holds(u[k], p);
        assert Holds(t[k], p);
        assert k < |t| - 1 ==> t[k].end < t[|t| - 1].start;
      }
      if Has(t, p) && p < Last(t).end - m {
        var k :| 0 <= k < |t| && Holds(t[k], p);
        assert Holds(u[k], p);
      }
    }
  }

  lemma SplitSizes(t: seq<Range>, lo: int, hi: int)
    ensures |Split(t, lo, hi, false)| + |Split(t, lo, hi, true)| == |PageSet(t)|
  {
    assert Split(t, lo, hi, false) + Split(t, lo, hi, true) == PageSet(t);
    assert Split(t, lo, hi, false) !! Split(t, lo, hi, true);
  }

  /** The pages of `avail` below `top`, inside or outside the flexible-memory window. */
  ghost function Window(avail: set<int>, top: nat, lo: int, hi: int, inside: bool): set<int> {
    set p | p in avail && p < top && (lo <= p < hi) == inside
  }

  /** The counts, for the pages that should be available: the top ones went to the message buffer. */
  ghost predicate Counts(avail: set<int>, msgbuf: nat, top: nat, lo: int, hi: int, c0: nat, c1: nat) {
    && c0 + c1 + msgbuf / PAGE == |avail|
    && c0 == |Window(avail, top, lo, hi, false)|
    && c1 == |Window(avail, top, lo, hi, true)|
  }

  lemma TrimmedCounts(t: seq<Range>, m: nat, u: seq<Range>, top: nat, lo: int, hi: int, c0: nat, c1: nat)
    requires Canonical(t) && IsPage(m) && Last(t).start + PAGE + m < Last(t).end < U64
    requires u == Trim(t, m) && top == Last(t).end - m
    requires c0 == |Split(u, lo, hi, false)| && c1 == |Split(u, lo, hi, true)|
    ensures Counts(PageSet(t), m, top, lo, hi, c0, c1)
  {
    TrimPages(t, m);
    TrimCounts(t, m);
    SplitSizes(u, lo, hi);
    assert Split(u, lo, hi, false) == Window(PageSet(t), top, lo, hi, false);
    assert Split(u, lo, hi, true) == Window(PageSet(t), top, lo, hi, true);
  }

  /** Room for the message buffer in the last range, and for the pair that ends the table. */
  predicate Trimmable(t: seq<Range>, msgbuf: nat) {
    && 0 < |t| < MAX_RANGES
    && Last(t).start + PAGE + msgbuf < Last(t).end
  }

  /** Whether the tables of a map can be filled, trimmed and counted. */
  predicate Countable(rs: seq<Range>, limit: nat, ex: Exclusion, memtest: nat, msgbufSize: nat, blocked: bool)
    requires rs != []
  {
    && memtest == 0 && !blocked
    && TablesOf(rs, limit, ex).Returns?
    && Trimmable(TablesOf(rs, limit, ex).value.phys, AlignUp(msgbufSize, PAGE))
  }

  /** Trimming the message buffer off a table and counting what is left. */
  method CountTrimmed(phys: array<nat>, idx: nat, msgbufSize: nat, gameEnd: nat, fmemMax: nat, blocked: bool)
    returns (r: Run<(nat, nat)>, ghost top: nat)
    requires Holding(phys[..], idx) && fmemMax <= gameEnd
    requires Canonical(Table(phys[..], idx)) && Table(phys[..], idx)[0].end > 0 && Last(Table(phys[..], idx)).end < U64
    modifies phys
    ensures r.Returns? <==> !blocked && Trimmable(old(Table(phys[..], idx)), AlignUp(msgbufSize, PAGE))
    ensures r.Returns? ==>
              && Counts(PageSet(old(Table(phys[..], idx))), AlignUp(msgbufSize, PAGE), top,
                        gameEnd - fmemMax, gameEnd, r.value.0, r.value.1)
  {
    top := 0;
    ghost var t := Table(phys[..], idx);
    var msgbuf := AlignUp(msgbufSize, PAGE);
    AlignUpNearest(msgbufSize, PAGE);
    var trimmed := TrimMsgbuf(phys, idx, msgbuf);
    if trimmed.Aborts? {
      return Aborts(trimmed.fault), top;
    }
    top := Last(t).end - msgbuf;
    assert Canonical(Trim(t, msgbuf)) && Trim(t, msgbuf)[0].end > 0 by {
      TrimCanonical(t, msgbuf);
    }
    ghost var u := Table(phys[..], idx);
    r := CountPages(phys, idx, gameEnd, fmemMax, blocked);
    if r.Returns? {
      TrimmedCounts(t, msgbuf, u, top, gameEnd - fmemMax, gameEnd, r.value.0, r.value.1);
    }
  }

  /**
    Filling the tables, trimming the message buffer and counting the pages. The pages are counted
    twice, once as the tables are filled and once here; the totals differ by the message buffer.
   */
  method CountAvailable(mi: MemoryInfo, ex: Exclusion, memtest: nat, msgbufSize: nat, blocked: bool, gameEnd: nat, fmemMax: nat)
    returns (r: Run<(nat, nat)>, physmem: nat, ghost top: nat)
    requires mi.Valid() && Bottomed(mi.Map()) && mi.endPage * PAGE < U64 && fmemMax <= gameEnd
    modifies mi.physmap
    ensures r.Returns? <==> Countable(old(mi.Map()), mi.endPage * PAGE, ex, memtest, msgbufSize, blocked)
    ensures r.Returns? ==>
              Counts(AvailPages(old(mi.Map()), mi.endPage * PAGE, ex), AlignUp(msgbufSize, PAGE), top,
                     gameEnd - fmemMax, gameEnd, r.value.0, r.value.1)
    ensures r.Returns? ==>
              && physmem == TablesOf(old(mi.Map()), mi.endPage * PAGE, ex).value.physmem
              && physmem == r.value.0 + r.value.1 + AlignUp(msgbufSize, PAGE) / PAGE
  {
    var counted, phys, paIndx, dump, daIndx := Populate(mi, ex);
    if counted.Aborts? {
      return Aborts(counted.fault), 0, 0;
    }
    physmem := counted.value;
    if memtest != 0 {
      return Aborts(Unimplemented), physmem, 0;
    }
    r, top := CountTrimmed(phys, paIndx, msgbufSize, gameEnd, fmemMax, blocked);
  }

  /** What `setup` is given besides the boot map. */
  datatype Boot = Boot(
    need: nat, physmem: Option<nat>, memtest: nat, baseMode: nat, configs: seq<Option<DirectMemory.DmemConfig>>,
    cpuBit: bool, unknownDmem1: nat, paddrFree: nat, dconsAddr: nat, dconsSize: nat, msgbufSize: nat,
    blocked: bool)

  /** The flag word computed from the memory size and the processor. */
  function Unk(large: bool, cpuBit: bool): (unk: nat)
    ensures unk < 4 && (unk % 2 == 1 <==> large) && (unk / 2 == 1 <==> cpuBit)
  {
    (if large then 1 else 0) + (if cpuBit then 2 else 0)
  }

  function ExclusionOf(unk: nat, b: Boot): Exclusion {
    Exclusion(if unk == 0 then b.paddrFree + 0x400000 else b.paddrFree, b.dconsAddr, b.dconsSize)
  }

  /** The maps and addresses a run goes through. */
  datatype Course = Course(cut: nat, loaded: seq<Range>, free: seq<Range>, held: seq<Range>,
                           unk: nat, mode: nat, gameEnd: nat, fmemMax: nat, top: nat)

  /**
    The loaded map is the accepted RAM without the boot tables; what `Dmem::new` leaves free and
    what it holds partition it; the map starts at 0, and the flexible-memory window is free.
   */
  ghost predicate Settles(regions: seq<BootMap.Region>, c: Course) {
    && BootMap.Loaded(c.loaded, regions, c.cut)
    && DirectMemory.Conserved(c.loaded, DirectMemory.State(c.free, c.held))
    && Bottomed(c.free)
    && c.fmemMax <= c.gameEnd
    && forall x :: c.gameEnd - c.fmemMax <= x < c.gameEnd ==> Has(c.free, x)
  }

  /** The maps of a run are those of `Dmem::new` in its mode. */
  predicate Reserved(b: Boot, c: Course) {
    && c.mode < |b.configs|
    && DirectMemory.Settled(c.loaded, c.mode, b.configs[c.mode], c.unk, b.unknownDmem1) == Some(DirectMemory.State(c.free, c.held))
  }

  /** A finished run: the memory is settled, and the counts are those of the free, usable pages. */
  ghost predicate Accounted(regions: seq<BootMap.Region>, b: Boot, c: Course, c0: nat, c1: nat) {
    && Settles(regions, c) && Reserved(b, c)
    && Counts(AvailPages(c.free, EndPages(c.free), ExclusionOf(c.unk, b)),
              AlignUp(b.msgbufSize, PAGE), c.top, c.gameEnd - c.fmemMax, c.gameEnd, c0, c1)
  }

  /** The end of the last whole page below the end of the map. */
  function EndPages(rs: seq<Range>): nat {
    if rs == [] then 0 else rs[|rs| - 1].end / PAGE * PAGE
  }

  /** Whether the run from a loaded map finishes. */
  predicate Completes(loaded: seq<Range>, b: Boot, unk: nat) {
    var mode := b.baseMode + unk * 8;
    mode < |b.configs| && CompletesIn(loaded, mode, b, unk)
  }

  predicate CompletesIn(loaded: seq<Range>, mode: nat, b: Boot, unk: nat)
    requires mode < |b.configs|
  {
    var t := DirectMemory.Settled(loaded, mode, b.configs[mode], unk, b.unknownDmem1);
    && t.Some? && t.value.free != []
    && Countable(t.value.free, EndPages(t.value.free), ExclusionOf(unk, b), b.memtest, b.msgbufSize, b.blocked)
  }

  lemma LoadedConserved(rs: seq<Range>, regions: seq<BootMap.Region>, cut: nat)
    requires BootMap.Loaded(rs, regions, cut)
    ensures DirectMemory.Conserved(rs, DirectMemory.State(rs, [])) && DirectMemory.Grounded(rs)
  {
  }

  /** `Dmem::new` on a loaded map. */
  method Reserve(mi: MemoryInfo, mode: nat, b: Boot, unk: nat, ghost regions: seq<BootMap.Region>, ghost cut: nat)
    returns (r: Machine.Run<(nat, nat)>, ghost c: Course)
    requires mi.Valid() && BootMap.Loaded(mi.Map(), regions, cut)
    requires mode < |b.configs| && (b.configs[mode].Some? ==> DirectMemory.Sized(b.configs[mode].value))
    modifies mi, mi.physmap
    ensures r.Returns? == DirectMemory.Settled(old(mi.Map()), mode, b.configs[mode], unk, b.unknownDmem1).Some?
    ensures c.loaded == old(mi.Map()) && c.unk == unk && c.mode == mode
    ensures r.Returns? ==>
              && mi.Valid() && mi.Map() == c.free && mi.endPage * PAGE == EndPages(c.free) < U64
              && r.value == (c.gameEnd, c.fmemMax)
    ensures r.Aborts? || Settles(regions, c)
    ensures r.Aborts? || Reserved(b, c)
  {
    ghost var s := DirectMemory.State(mi.Map(), []);
    c := Course(cut, mi.Map(), [], [], unk, mode, 0, 0, 0);
    LoadedConserved(mi.Map(), regions, cut);
    var gameEnd;
    ghost var haddr, held;
    gameEnd, haddr, held := DirectMemory.New(mi, mode, b.configs[mode], unk, b.unknownDmem1);
    if gameEnd.Aborts? {
      return Aborts(gameEnd.fault), c;
    }
    var dc := b.configs[mode].value;
    c := Course(cut, c.loaded, mi.Map(), held, unk, mode, gameEnd.value, dc.fmemMax, 0);
    RunReserved(s, mode, dc, unk, haddr, gameEnd.value, DirectMemory.State(mi.Map(), held));
    ConservedBottomed(s.free, mi.Map(), held, mi.physmap[..], mi.last);
    LimitFits(mi.Map()[|mi.Map()| - 1].end);
    return Returns((gameEnd.value, dc.fmemMax)), c;
  }

  lemma RunReserved(s: DirectMemory.State, mode: nat, dc: DirectMemory.DmemConfig, unk: nat, haddr: nat, gameEnd: nat, t: DirectMemory.State)
    requires dc.fmemMax <= gameEnd && DirectMemory.Conserved(s.free, s) && DirectMemory.Grounded(s.free)
    requires DirectMemory.Exec(s, DirectMemory.Plan(mode, dc, unk, haddr, gameEnd)) == Some(t)
    ensures DirectMemory.Conserved(s.free, t) && DirectMemory.Grounded(t.free)
    ensures forall x :: gameEnd - dc.fmemMax <= x < gameEnd ==> Has(t.free, x)
  {
    DirectMemory.RunConserves(s.free, s, DirectMemory.Plan(mode, dc, unk, haddr, gameEnd), t);
    DirectMemory.RunGrounded(s.free, s, DirectMemory.Plan(mode, dc, unk, haddr, gameEnd), t);
    DirectMemory.WindowIsFree(s.free, s, mode, dc, unk, haddr, gameEnd, t);
  }

  lemma ConservedBottomed(loaded: seq<Range>, free: seq<Range>, held: seq<Range>, a: seq<nat>, last: nat)
    requires DirectMemory.Conserved(loaded, DirectMemory.State(free, held)) && DirectMemory.Grounded(free)
    requires Good(a, last) && free == Pairs(a, last)
    ensures Bottomed(free)
  {
  }

  /** Everything after the boot map has been loaded. */
  method Finish(mi: MemoryInfo, b: Boot, unk: nat, ghost regions: seq<BootMap.Region>, ghost cut: nat)
    returns (r: Machine.Run<(nat, nat)>, ghost c: Course)
    requires mi.Valid() && BootMap.Loaded(mi.Map(), regions, cut)
    requires forall i :: 0 <= i < |b.configs| && b.configs[i].Some? ==> DirectMemory.Sized(b.configs[i].value)
    modifies mi, mi.physmap
    ensures r.Returns? == Completes(old(mi.Map()), b, unk)
    ensures c.loaded == old(mi.Map()) && c.unk == unk && c.mode == b.baseMode + unk * 8
    ensures r.Aborts? || Accounted(regions, b, c, r.value.0, r.value.1)
  {
    var mode := b.baseMode + unk * 8;
    c := Course(cut, mi.Map(), [], [], unk, mode, 0, 0, 0);
    if mode >= |b.configs| {
      return Aborts(OutOfBounds), c;
    }
    r, c := FinishMode(mi, mode, b, unk, regions, cut);
  }

  /** The same, in a mode that has a configuration. */
  method FinishMode(mi: MemoryInfo, mode: nat, b: Boot, unk: nat, ghost regions: seq<BootMap.Region>, ghost cut: nat)
    returns (r: Machine.Run<(nat, nat)>, ghost c: Course)
    requires mi.Valid() && BootMap.Loaded(mi.Map(), regions, cut)
    requires mode < |b.configs| && (b.configs[mode].Some? ==> DirectMemory.Sized(b.configs[mode].value))
    modifies mi, mi.physmap
    ensures r.Returns? == CompletesIn(old(mi.Map()), mode, b, unk)
    ensures c.loaded == old(mi.Map()) && c.unk == unk && c.mode == mode
    ensures r.Aborts? || Accounted(regions, b, c, r.value.0, r.value.1)
  {
    var game;
    game, c := Reserve(mi, mode, b, unk, regions, cut);
    if game.Aborts? {
      return Aborts(game.fault), c;
    }
    ghost var top;
    r, top := CountSettled(mi, b, unk, game.value.0, game.value.1, regions, c);
    assert r.Returns? == CompletesIn(c.loaded, mode, b, unk) by {
      CompletesWith(b, c);
    }
    if r.Returns? {
      AccountedIs(regions, b, c, top, r.value.0, r.value.1);
    }
    c := c.(top := top);
  }

  /** The counts of a settled memory. */
  method CountSettled(mi: MemoryInfo, b: Boot, unk: nat, gameEnd: nat, fmemMax: nat,
                      ghost regions: seq<BootMap.Region>, ghost c: Course)
    returns (r: Run<(nat, nat)>, ghost top: nat)
    requires mi.Valid() && mi.Map() == c.free && mi.endPage * PAGE == EndPages(c.free) < U64
    requires c.unk == unk && c.gameEnd == gameEnd && c.fmemMax == fmemMax && Settles(regions, c)
    modifies mi.physmap
    ensures c.free != []
    ensures r.Returns? == Countable(c.free, EndPages(c.free), ExclusionOf(unk, b), b.memtest, b.msgbufSize, b.blocked)
    ensures r.Aborts? || Counts(AvailPages(c.free, EndPages(c.free), ExclusionOf(c.unk, b)), AlignUp(b.msgbufSize, PAGE), top,
                                c.gameEnd - c.fmemMax, c.gameEnd, r.value.0, r.value.1)
  {
    var physmem;
    r, physmem, top := CountAvailable(mi, ExclusionOf(unk, b), b.memtest, b.msgbufSize, b.blocked, gameEnd, fmemMax);
  }

  lemma CompletesWith(b: Boot, c: Course)
    requires Reserved(b, c) && c.free != []
    ensures CompletesIn(c.loaded, c.mode, b, c.unk) ==
            Countable(c.free, EndPages(c.free), ExclusionOf(c.unk, b), b.memtest, b.msgbufSize, b.blocked)
  {
  }

  lemma AccountedIs(regions: seq<BootMap.Region>, b: Boot, c: Course, top: nat, c0: nat, c1: nat)
    requires Settles(regions, c) && Reserved(b, c)
    requires Counts(AvailPages(c.free, EndPages(c.free), ExclusionOf(c.unk, b)),
                    AlignUp(b.msgbufSize, PAGE), top, c.gameEnd - c.fmemMax, c.gameEnd, c0, c1)
    ensures Accounted(regions, b, c.(top := top), c0, c1)
  {
  }

  /** `setup`, as far as physical memory goes. */
  method Run(regions: seq<BootMap.Region>, b: Boot) returns (r: Machine.Run<(nat, nat)>, ghost c: Course)
    requires forall i :: 0 <= i < |regions| ==> regions[i].base < U64 && regions[i].len < U64
    requires forall i :: 0 <= i < |b.configs| && b.configs[i].Some? ==> DirectMemory.Sized(b.configs[i].value)
    ensures r.Returns? <==>
              var m := BootMap.LoadedMap(regions, b.need);
              m.Some? && Completes(m.value, b, Unk(Bytes(m.value) >= 0x2_0000_0000, b.cpuBit))
    ensures r.Returns? ==>
              && BootMap.LoadedMap(regions, b.need) == Some(c.loaded)
              && c.unk == Unk(Bytes(c.loaded) >= 0x2_0000_0000, b.cpuBit)
              && Accounted(regions, b, c, r.value.0, r.value.1)
    ensures r.Returns? ==>
              c.mode == b.baseMode + (if Bytes(c.loaded) >= 0x2_0000_0000 then 8 else 0) + (if b.cpuBit then 16 else 0)
  {
    var mi := new MemoryInfo();
    var large;
    ghost var cut;
    large, cut := BootMap.LoadMemoryMap(mi, regions, b.need, b.physmem);
    if large.Aborts? {
      return Aborts(large.fault), Course(0, [], [], [], 0, 0, 0, 0, 0);
    }
    r, c := Finish(mi, b, Unk(large.value.0, b.cpuBit), regions, cut);
  }

  /** What the exclusion of a run spares, in terms of what the run is given. */
  lemma RunSpares(b: Boot, unk: nat, x: int)
    ensures ExclusionOf(unk, b).Spares(x) <==>
              && !(0xC600000 <= x < b.paddrFree + (if unk == 0 then 0x400000 else 0))
              && (b.dconsAddr != 0 ==> x + PAGE <= b.dconsAddr || b.dconsAddr + b.dconsSize <= x)
  {
  }

  /**
    And every whole page of the free map from the second on is counted, if it does not start in the
    memory that the kernel uses and has no byte in or across the buffer of the debug console.
   */
  lemma SafeIsAvailable(b: Boot, c: Course, k: nat, x: nat)
    requires k < |c.free| && IsPage(x) && PAGE <= x && c.free[k].start <= x && x + PAGE <= c.free[k].end
    requires x < EndPages(c.free) && x < U64
    requires !(0xC600000 <= x < b.paddrFree + (if c.unk == 0 then 0x400000 else 0))
    requires b.dconsAddr != 0 ==> x + PAGE <= b.dconsAddr || b.dconsAddr + b.dconsSize <= x
    ensures x in AvailPages(c.free, EndPages(c.free), ExclusionOf(c.unk, b))
  {
    RunSpares(b, c.unk, x);
    assert PageIn(c.free[k], x);
  }

  lemma LimitFits(end: nat)
    ensures end / PAGE * PAGE <= end
  {
  }

  /**
    Every byte of a page that is counted lies in a RAM region accepted from the boot map, outside the
    boot tables, outside every block still reserved and outside the buffer of the debug console; and
    no such page starts in the memory that the kernel uses.
   */
  lemma AvailableIsSafe(regions: seq<BootMap.Region>, b: Boot, c: Course, c0: nat, c1: nat, x: int, y: int)
    requires Accounted(regions, b, c, c0, c1)
    requires x in AvailPages(c.free, EndPages(c.free), ExclusionOf(c.unk, b)) && x <= y < x + PAGE
    ensures Has(BootMap.Accept([], regions), y) && !(c.loaded[0].end <= y < c.cut) && !Has(c.held, y)
    ensures b.dconsAddr != 0 ==> !(b.dconsAddr <= y < b.dconsAddr + b.dconsSize)
    ensures !(0xC600000 <= x < b.paddrFree + (if c.unk == 0 then 0x400000 else 0))
  {
    var k :| 0 <= k < |c.free| && PageIn(c.free[k], x);
    assert Holds(c.free[k], y);
    assert Has(c.free, y);
    assert Has(c.loaded, y);
  }
}
