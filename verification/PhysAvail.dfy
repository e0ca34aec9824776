/**
  The tables of available and dumpable memory that `setup` builds by walking the physical map page
  by page, merging neighbouring pages into ranges.

  Pages are named by their address. The functions work on lists of ranges; the methods work on the
  61-word arrays.
 */
module PhysAvail {
  import opened Machine
  import opened Ranges
  import opened PhysMap

  /** Each table is an array of 61 words that never holds more than 30 pairs. */
  const WORDS: nat := 61

  predicate IsPage(x: int) {
    x % 0x4000 == 0
  }

  /** What `setup` keeps out of the available memory. */
  datatype Exclusion = Exclusion(paddrFree: nat, dconsAddr: nat, dconsSize: nat) {
    predicate Usable(pa: int) {
      && (pa < 0xC600000 || paddrFree <= pa)
      && (dconsAddr == 0 || pa < AlignDown(dconsAddr, PAGE) || dconsAddr + dconsSize <= pa)
    }

    /**
      What that is for: the page at `pa` does not start in the memory in use by the kernel, and all of
      it is below or above the buffer of the debug console, if there is one.
     */
    predicate Spares(pa: int) {
      && !(0xC600000 <= pa < paddrFree)
      && (dconsAddr != 0 ==> pa + PAGE <= dconsAddr || dconsAddr + dconsSize <= pa)
    }
  }

  /** The test, which rounds the address of the console down, is exact for pages. */
  lemma UsableExact(ex: Exclusion, pa: nat)
    requires IsPage(pa)
    ensures ex.Usable(pa) <==> ex.Spares(pa)
  {
    var a := AlignDown(ex.dconsAddr, PAGE);
    AlignDownNearest(ex.dconsAddr, PAGE);
    if pa < a {
      MultiplesApart(pa, a, PAGE);
    } else if a < pa {
      MultiplesApart(a, pa, PAGE);
    }
  }

  /**
    In bytes: a page that is spared shares none with the console buffer, and a page that shares none is
    spared, unless the buffer is empty and its address lies inside the page.
   */
  lemma SparedBytes(ex: Exclusion, pa: nat, page: Range, console: Range)
    requires page == Range(pa, pa + PAGE) && console == Range(ex.dconsAddr, ex.dconsAddr + ex.dconsSize)
    ensures ex.Spares(pa) <==>
              && !(0xC600000 <= pa < ex.paddrFree)
              && (ex.dconsAddr != 0 ==>
                    && (forall y :: Holds(page, y) ==> !Holds(console, y))
                    && !(ex.dconsSize == 0 && pa < ex.dconsAddr < pa + PAGE))
  {
    if ex.dconsAddr < pa + PAGE && pa < ex.dconsAddr + ex.dconsSize {
      var y := if pa <= ex.dconsAddr then ex.dconsAddr else pa;
      assert Holds(page, y) && (ex.dconsSize > 0 ==> Holds(console, y));
    }
  }

  // ---- Tables as lists of ranges ----

  /** Page-aligned ranges in order, each separated from the next by a real gap; only the first may be empty. */
  predicate Canonical(t: seq<Range>) {
    && 0 < |t| <= MAX_RANGES
    && (forall k :: 0 <= k < |t| ==> IsPage(t[k].start) && IsPage(t[k].end) && t[k].start <= t[k].end)
    && (forall k :: 0 < k < |t| ==> t[k].start < t[k].end)
    && forall i, j :: 0 <= i < j < |t| ==> t[i].end < t[j].start
  }

  function Last(t: seq<Range>): Range
    requires t != []
  {
    t[|t| - 1]
  }

  /** Adds a page at or after the end of the table; a full table is left alone. */
  function Put(t: seq<Range>, pa: nat): seq<Range>
    requires t != []
  {
    if pa == Last(t).end then t[|t| - 1 := Range(Last(t).start, pa + PAGE)]
    else if |t| >= MAX_RANGES then t
    else t + [Range(pa, pa + PAGE)]
  }

  predicate Fits(t: seq<Range>, pa: nat)
    requires t != []
  {
    pa == Last(t).end || |t| < MAX_RANGES
  }

  lemma PutAdds(t: seq<Range>, pa: nat)
    requires Canonical(t) && IsPage(pa) && Last(t).end <= pa && Fits(t, pa)
    ensures Canonical(Put(t, pa)) && Last(Put(t, pa)).end == pa + PAGE
    ensures forall x | IsPage(x) :: Has(Put(t, pa), x) <==> Has(t, x) || x == pa
    ensures !Has(t, pa)
  {
    PutCanonical(t, pa);
    forall x | IsPage(x) ensures Has(Put(t, pa), x) <==> Has(t, x) || x == pa {
      PutHas(t, pa, x);
    }
    BeyondTable(t, pa);
  }

  lemma BeyondTable(t: seq<Range>, x: int)
    requires Canonical(t) && Last(t).end <= x
    ensures !Has(t, x)
  {
    forall k | 0 <= k < |t| ensures t[k].end <= Last(t).end {
      if k < |t| - 1 {
        assert t[k].end < t[|t| - 1].start;
      }
    }
  }

  lemma PutCanonical(t: seq<Range>, pa: nat)
    requires Canonical(t) && IsPage(pa) && Last(t).end <= pa && Fits(t, pa)
    ensures Canonical(Put(t, pa)) && Last(Put(t, pa)).end == pa + PAGE
  {
    var u := Put(t, pa);
    assert IsPage(pa + PAGE);
    forall i, j | 0 <= i < j < |u| ensures u[i].end < u[j].start {
      if j < |t| {
        assert t[i].end < t[j].start;
      } else if i < |t| - 1 {
        assert t[i].end < t[|t| - 1].start;
      }
    }
  }

  lemma PutHas(t: seq<Range>, pa: nat, x: int)
    requires Canonical(t) && IsPage(pa) && Last(t).end <= pa && Fits(t, pa) && IsPage(x)
    ensures Has(Put(t, pa), x) <==> Has(t, x) || x == pa
  {
    var u := Put(t, pa);
    var n := |t| - 1;
    if Has(t, x) {
      var k :| 0 <= k < |t| && Holds(t[k], x);
      assert Holds(u[k], x);
    }
    if x == pa {
      assert Holds(u[|u| - 1], x);
    }
    if Has(u, x) {
      var k :| 0 <= k < |u| && Holds(u[k], x);
      if k == |u| - 1 && pa <= x {
        assert pa <= x < pa + PAGE;
      } else if k < |t| {
        assert Holds(t[k], x);
      }
    }
  }

  /** The pages a table covers. */
  ghost function PageSet(t: seq<Range>): set<int> {
    set x: int | 0 <= x < U64 && IsPage(x) && Has(t, x)
  }

  // ---- The walk over one map entry ----

  datatype Tables = Tables(phys: seq<Range>, dump: seq<Range>, physmem: nat)

  /** The body of the page loop, for a page that does not overflow the available memory. */
  function Visit(w: Tables, pa: nat, ex: Exclusion): Tables
    requires w.phys != [] && w.dump != []
  {
    if ex.Usable(pa) then Tables(Put(w.phys, pa), Put(w.dump, pa), w.physmem + 1)
    else Tables(w.phys, Put(w.dump, pa), w.physmem)
  }

  /** The pages from `pa` to `end`; a page for which there is no room ends the walk. */
  function Walk(w: Tables, pa: nat, end: nat, ex: Exclusion): (w': Tables)
    requires w.phys != [] && w.dump != []
    ensures w'.phys != [] && w'.dump != []
    decreases end - pa
  {
    if end <= pa then w
    else if ex.Usable(pa) && !Fits(w.phys, pa) then w.(dump := Put(w.dump, pa))
    else Walk(Visit(w, pa, ex), pa + PAGE, end, ex)
  }

  /** Tables ready for the pages from `pa` on. */
  ghost predicate Ready(w: Tables, pa: nat) {
    && Canonical(w.phys) && Last(w.phys).end <= pa
    && Canonical(w.dump) && Last(w.dump).end <= pa
    && w.physmem == |PageSet(w.phys)|
  }

  predicate Chosen(x: int, lo: nat, hi: nat, ex: Option<Exclusion>) {
    lo <= x < hi && (ex.Some? ==> ex.value.Spares(x))
  }

  /** `b` is `a` with chosen pages of `[lo, hi)` added, all of them if `complete`. */
  ghost predicate Grown(a: seq<Range>, b: seq<Range>, lo: nat, hi: nat, ex: Option<Exclusion>, complete: bool) {
    forall x | IsPage(x) ::
      && (Has(a, x) ==> Has(b, x))
      && (Has(b, x) ==> Has(a, x) || Chosen(x, lo, hi, ex))
      && (complete && Chosen(x, lo, hi, ex) ==> Has(b, x))
  }

  lemma GrownTwice(a: seq<Range>, b: seq<Range>, c: seq<Range>, lo: nat, mid: nat, hi: nat,
                   ex: Option<Exclusion>, first: bool, second: bool)
    requires lo <= mid && mid <= hi
    requires Grown(a, b, lo, mid, ex, first) && Grown(b, c, mid, hi, ex, second)
    ensures Grown(a, c, lo, hi, ex, first && second)
  {
    forall x | IsPage(x)
      ensures (Has(a, x) ==> Has(c, x)) && (Has(c, x) ==> Has(a, x) || Chosen(x, lo, hi, ex))
      ensures first && second && Chosen(x, lo, hi, ex) ==> Has(c, x)
    {
      assert Has(a, x) ==> Has(b, x);
    }
  }

  lemma SamePage(x: int, pa: nat)
    requires IsPage(x) && IsPage(pa)
    ensures pa <= x < pa + PAGE <==> x == pa
  {
  }

  lemma PutGrows(t: seq<Range>, pa: nat, ex: Option<Exclusion>)
    requires Canonical(t) && IsPage(pa) && Last(t).end <= pa && (ex.Some? ==> ex.value.Spares(pa))
    ensures Grown(t, Put(t, pa), pa, pa + PAGE, ex, Fits(t, pa))
  {
    if Fits(t, pa) {
      forall x | IsPage(x) ensures Has(Put(t, pa), x) <==> Has(t, x) || Chosen(x, pa, pa + PAGE, ex) {
        PutHas(t, pa, x);
        SamePage(x, pa);
      }
    }
  }

  lemma PutStays(t: seq<Range>, pa: nat)
    requires Canonical(t) && IsPage(pa) && Last(t).end <= pa
    ensures Canonical(Put(t, pa)) && Last(Put(t, pa)).end <= pa + PAGE && |t| <= |Put(t, pa)|
  {
    if Fits(t, pa) {
      PutCanonical(t, pa);
    }
  }

  lemma PutCounts(t: seq<Range>, pa: nat)
    requires Canonical(t) && IsPage(pa) && Last(t).end <= pa < U64 && Fits(t, pa)
    ensures |PageSet(Put(t, pa))| == |PageSet(t)| + 1
  {
    forall x ensures x in PageSet(Put(t, pa)) <==> x in PageSet(t) + {pa} {
      if IsPage(x) {
        PutHas(t, pa, x);
      }
    }
    BeyondTable(t, pa);
    assert PageSet(Put(t, pa)) == PageSet(t) + {pa};
  }

  /** The pages of `[lo, hi)` have gone into the tables, all of them unless a table is full. */
  ghost predicate Walked(w: Tables, w': Tables, lo: nat, hi: nat, ex: Exclusion) {
    && |w.phys| <= |w'.phys| && |w.dump| <= |w'.dump|
    && Grown(w.phys, w'.phys, lo, hi, Some(ex), |w'.phys| < MAX_RANGES)
    && Grown(w.dump, w'.dump, lo, hi, None, |w'.phys| < MAX_RANGES && |w'.dump| < MAX_RANGES)
  }

  lemma WalkedTwice(w: Tables, v: Tables, w': Tables, lo: nat, mid: nat, hi: nat, ex: Exclusion)
    requires lo <= mid <= hi && Walked(w, v, lo, mid, ex) && Walked(v, w', mid, hi, ex)
    ensures Walked(w, w', lo, hi, ex)
  {
    GrownTwice(w.phys, v.phys, w'.phys, lo, mid, hi, Some(ex), |v.phys| < MAX_RANGES, |w'.phys| < MAX_RANGES);
    GrownTwice(w.dump, v.dump, w'.dump, lo, mid, hi, None,
               |v.phys| < MAX_RANGES && |v.dump| < MAX_RANGES, |w'.phys| < MAX_RANGES && |w'.dump| < MAX_RANGES);
  }

  lemma VisitReady(w: Tables, pa: nat, ex: Exclusion)
    requires Ready(w, pa) && IsPage(pa) && pa < U64 && (ex.Usable(pa) ==> Fits(w.phys, pa))
    ensures Ready(Visit(w, pa, ex), pa + PAGE)
  {
    PutStays(w.dump, pa);
    if ex.Usable(pa) {
      PutStays(w.phys, pa);
      PutCounts(w.phys, pa);
    }
  }

  lemma VisitWalked(w: Tables, pa: nat, ex: Exclusion)
    requires Ready(w, pa) && IsPage(pa) && pa < U64 && (ex.Usable(pa) ==> Fits(w.phys, pa))
    ensures Walked(w, Visit(w, pa, ex), pa, pa + PAGE, ex)
  {
    PutGrows(w.dump, pa, None);
    UsableExact(ex, pa);
    if ex.Usable(pa) {
      PutGrows(w.phys, pa, Some(ex));
    } else {
      forall x | IsPage(x) ensures !Chosen(x, pa, pa + PAGE, Some(ex)) {
        SamePage(x, pa);
      }
    }
  }

  lemma NextPage(pa: nat, end: nat)
    requires IsPage(pa) && IsPage(end) && pa < end
    ensures IsPage(pa + PAGE) && pa + PAGE <= end
  {
  }

  lemma FullStop(w: Tables, pa: nat, end: nat, ex: Exclusion)
    requires Ready(w, pa) && IsPage(pa) && pa + PAGE <= end && !Fits(w.phys, pa)
    ensures var w' := w.(dump := Put(w.dump, pa));
            Ready(w', end) && Walked(w, w', pa, end, ex)
  {
    PutStays(w.dump, pa);
    PutGrows(w.dump, pa, None);
  }

  lemma {:induction false} WalkReady(w: Tables, pa: nat, end: nat, ex: Exclusion, w': Tables)
    requires Ready(w, pa) && IsPage(pa) && IsPage(end) && end < U64
    requires w' == Walk(w, pa, end, ex)
    ensures Ready(w', if pa < end then end else pa)
    decreases end - pa
  {
    if pa < end {
      NextPage(pa, end);
      if ex.Usable(pa) && !Fits(w.phys, pa) {
        FullStop(w, pa, end, ex);
      } else {
        VisitReady(w, pa, ex);
        WalkReady(Visit(w, pa, ex), pa + PAGE, end, ex, w');
      }
    }
  }

  /** As long as neither table fills up, a walk adds exactly the pages it should to both. */
  lemma {:induction false} WalkExact(w: Tables, pa: nat, end: nat, ex: Exclusion, w': Tables)
    requires Ready(w, pa) && IsPage(pa) && IsPage(end) && end < U64
    requires w' == Walk(w, pa, end, ex)
    ensures Walked(w, w', pa, end, ex)
    decreases end - pa
  {
    if pa < end {
      NextPage(pa, end);
      if ex.Usable(pa) && !Fits(w.phys, pa) {
        FullStop(w, pa, end, ex);
      } else {
        var v := Visit(w, pa, ex);
        assert Ready(v, pa + PAGE) by {
          VisitReady(w, pa, ex);
        }
        WalkExact(v, pa + PAGE, end, ex, w');
        VisitWalked(w, pa, ex);
        WalkedTwice(w, v, w', pa, pa + PAGE, end, ex);
      }
    }
  }

  // ---- The walk over the whole map ----

  /** Page `x` lies wholly inside `r`. */
  predicate PageIn(r: Range, x: int) {
    r.start <= x && x + PAGE <= r.end
  }

  /** Page `x` lies wholly inside one of the first `n` entries, below `limit`. */
  ghost predicate InMap(rs: seq<Range>, n: nat, limit: nat, x: int)
    requires n <= |rs|
  {
    x < limit && exists k :: 0 <= k < n && PageIn(rs[k], x)
  }

  const NO_PAGES := Tables([Range(PAGE, PAGE)], [Range(0, PAGE)], 0)

  /** The outer loop over the first `n` entries. */
  function WalkFirst(rs: seq<Range>, n: nat, limit: nat, ex: Exclusion): (r: Run<Tables>)
    requires n <= |rs|
    ensures r.Returns? ==> r.value.phys != [] && r.value.dump != []
  {
    if n == 0 then Returns(NO_PAGES)
    else
      var m :- WalkFirst(rs, n - 1, limit, ex);
      var begin := AlignUp(rs[n - 1].start, PAGE);
      if begin >= U64 then Aborts(Panic)
      else Returns(Walk(m, begin, Min(AlignDown(rs[n - 1].end, PAGE), limit), ex))
  }

  lemma {:induction false} WalkStuck(rs: seq<Range>, n: nat, m: nat, limit: nat, ex: Exclusion)
    requires n <= m <= |rs| && WalkFirst(rs, n, limit, ex).Aborts?
    ensures WalkFirst(rs, m, limit, ex) == WalkFirst(rs, n, limit, ex)
  {
    if n < m {
      WalkStuck(rs, n, m - 1, limit, ex);
    }
  }

  /** The walk finishes exactly if no entry starts in the last page of the address space. */
  lemma {:induction false} WalkFinishes(rs: seq<Range>, n: nat, limit: nat, ex: Exclusion)
    requires n <= |rs|
    ensures WalkFirst(rs, n, limit, ex).Returns? <==> forall k :: 0 <= k < n ==> AlignUp(rs[k].start, PAGE) < U64
  {
    if n > 0 {
      WalkFinishes(rs, n - 1, limit, ex);
    }
  }

  /** The map as `setup` walks it: the first entry has been made to start at the second page. */
  predicate Walkable(rs: seq<Range>) {
    && 0 < |rs|
    && rs[0].start == PAGE
    && (forall k :: 0 <= k < |rs| ==> rs[k].end < U64)
    && (forall k :: 0 < k < |rs| ==> rs[k].start > 0)
    && forall i, j :: 0 <= i < j < |rs| ==> Below(rs[i], rs[j])
  }

  ghost predicate PhysIs(t: seq<Range>, rs: seq<Range>, n: nat, limit: nat, ex: Exclusion, complete: bool)
    requires n <= |rs|
  {
    forall x | IsPage(x) ::
      && (Has(t, x) ==> InMap(rs, n, limit, x) && ex.Spares(x))
      && (complete && InMap(rs, n, limit, x) && ex.Spares(x) ==> Has(t, x))
  }

  ghost predicate DumpIs(t: seq<Range>, rs: seq<Range>, n: nat, limit: nat, complete: bool)
    requires n <= |rs|
  {
    forall x | IsPage(x) ::
      && (Has(t, x) ==> x == 0 || InMap(rs, n, limit, x))
      && (complete && (x == 0 || InMap(rs, n, limit, x)) ==> Has(t, x))
  }

  /** The bounds of the page loop pick exactly the pages inside the entry. */
  lemma BoundsExact(r: Range, limit: nat, x: int)
    requires IsPage(x) && IsPage(limit)
    ensures AlignUp(r.start, PAGE) <= x < Min(AlignDown(r.end, PAGE), limit) <==> PageIn(r, x) && x < limit
    ensures IsPage(AlignUp(r.start, PAGE)) && IsPage(Min(AlignDown(r.end, PAGE), limit))
  {
    UpTo(r.start, x);
    DownFrom(r.end, x);
  }

  lemma UpTo(start: nat, x: int)
    requires IsPage(x)
    ensures AlignUp(start, PAGE) <= x <==> start <= x
    ensures IsPage(AlignUp(start, PAGE))
  {
    AlignUpNearest(start, PAGE);
    if start <= x < AlignUp(start, PAGE) {
      MultiplesApart(x, AlignUp(start, PAGE), PAGE);
    }
  }

  lemma DownFrom(end: nat, x: int)
    requires IsPage(x)
    ensures x < AlignDown(end, PAGE) <==> x + PAGE <= end
    ensures IsPage(AlignDown(end, PAGE))
  {
    AlignDownNearest(end, PAGE);
    if 0 <= x < AlignDown(end, PAGE) {
      MultiplesApart(x, AlignDown(end, PAGE), PAGE);
    }
  }

  /** The tables end at or below anything that the entries walked so far end below. */
  lemma {:induction false} FirstReady(rs: seq<Range>, n: nat, limit: nat, ex: Exclusion, w: Tables, bound: nat)
    requires Walkable(rs) && n <= |rs| && IsPage(limit)
    requires WalkFirst(rs, n, limit, ex) == Returns(w)
    requires PAGE <= bound && forall k :: 0 <= k < n ==> rs[k].end <= bound
    ensures Ready(w, bound)
  {
    if n == 0 {
      NothingYet();
    } else {
      var m := WalkFirst(rs, n - 1, limit, ex).value;
      var begin := AlignUp(rs[n - 1].start, PAGE);
      var end := Min(AlignDown(rs[n - 1].end, PAGE), limit);
      BoundsExact(rs[n - 1], limit, 0);
      FirstReady(rs, n - 1, limit, ex, m, bound);
      if begin < end {
        assert Ready(m, begin) by {
          EntryAbove(rs, n - 1);
          FirstReady(rs, n - 1, limit, ex, m, begin);
        }
        AlignDownNearest(rs[n - 1].end, PAGE);
        WalkReady(m, begin, end, ex, w);
      }
    }
  }

  /** The first page of an entry is above the second page and above everything before it. */
  lemma EntryAbove(rs: seq<Range>, n: nat)
    requires Walkable(rs) && n < |rs|
    ensures var begin := AlignUp(rs[n].start, PAGE);
            PAGE <= begin && forall k :: 0 <= k < n ==> rs[k].end <= begin
  {
    AlignUpNearest(rs[n].start, PAGE);
    assert n > 0 ==> rs[n].start > 0;
    forall k | 0 <= k < n ensures rs[k].end <= AlignUp(rs[n].start, PAGE) {
      assert Below(rs[k], rs[n]);
    }
  }

  lemma NothingYet()
    ensures Ready(NO_PAGES, PAGE)
    ensures forall x :: !Has(NO_PAGES.phys, x)
    ensures forall x | IsPage(x) :: Has(NO_PAGES.dump, x) <==> x == 0
  {
    assert PageSet(NO_PAGES.phys) == {};
    forall x | IsPage(x) ensures Has(NO_PAGES.dump, x) <==> x == 0 {
      assert Holds(NO_PAGES.dump[0], x) <==> 0 <= x < PAGE;
    }
  }

  /**
    Unless a table fills up, `phys_avail` covers exactly the usable pages of the map and
    `dump_avail` exactly page 0 and all pages of the map; a full table still covers no other page.
   */
  lemma {:induction false} FirstExact(rs: seq<Range>, n: nat, limit: nat, ex: Exclusion, w: Tables)
    requires Walkable(rs) && n <= |rs| && IsPage(limit)
    requires WalkFirst(rs, n, limit, ex) == Returns(w)
    ensures PhysIs(w.phys, rs, n, limit, ex, |w.phys| < MAX_RANGES)
    ensures DumpIs(w.dump, rs, n, limit, |w.phys| < MAX_RANGES && |w.dump| < MAX_RANGES)
  {
    if n == 0 {
      NothingYet();
    } else {
      var m := WalkFirst(rs, n - 1, limit, ex).value;
      var begin := AlignUp(rs[n - 1].start, PAGE);
      var end := Min(AlignDown(rs[n - 1].end, PAGE), limit);
      FirstExact(rs, n - 1, limit, ex, m);
      assert Walked(m, w, begin, end, ex) by {
        EntryAbove(rs, n - 1);
        FirstReady(rs, n - 1, limit, ex, m, begin);
        BoundsExact(rs[n - 1], limit, 0);
        AlignDownNearest(rs[n - 1].end, PAGE);
        WalkExact(m, begin, end, ex, w);
      }
      EntryAdds(rs, n, limit, ex, m, w);
    }
  }

  lemma EntryAdds(rs: seq<Range>, n: nat, limit: nat, ex: Exclusion, m: Tables, w: Tables)
    requires 0 < n <= |rs| && IsPage(limit)
    requires Walked(m, w, AlignUp(rs[n - 1].start, PAGE), Min(AlignDown(rs[n - 1].end, PAGE), limit), ex)
    requires PhysIs(m.phys, rs, n - 1, limit, ex, |m.phys| < MAX_RANGES)
    requires DumpIs(m.dump, rs, n - 1, limit, |m.phys| < MAX_RANGES && |m.dump| < MAX_RANGES)
    ensures PhysIs(w.phys, rs, n, limit, ex, |w.phys| < MAX_RANGES)
    ensures DumpIs(w.dump, rs, n, limit, |w.phys| < MAX_RANGES && |w.dump| < MAX_RANGES)
  {
    var lo, hi := AlignUp(rs[n - 1].start, PAGE), Min(AlignDown(rs[n - 1].end, PAGE), limit);
    forall x | IsPage(x) ensures InMap(rs, n, limit, x) <==> InMap(rs, n - 1, limit, x) || lo <= x < hi {
      BoundsExact(rs[n - 1], limit, x);
      if InMap(rs, n, limit, x) {
        var k :| 0 <= k < n && PageIn(rs[k], x);
        assert k < n - 1 ==> InMap(rs, n - 1, limit, x);
      }
    }
    forall x | IsPage(x)
      ensures Has(w.phys, x) ==> InMap(rs, n, limit, x) && ex.Spares(x)
      ensures |w.phys| < MAX_RANGES && InMap(rs, n, limit, x) && ex.Spares(x) ==> Has(w.phys, x)
    {
      assert Has(m.phys, x) ==> Has(w.phys, x);
      assert Chosen(x, lo, hi, Some(ex)) <==> lo <= x < hi && ex.Spares(x);
    }
    forall x | IsPage(x)
      ensures Has(w.dump, x) ==> x == 0 || InMap(rs, n, limit, x)
      ensures |w.phys| < MAX_RANGES && |w.dump| < MAX_RANGES && (x == 0 || InMap(rs, n, limit, x)) ==> Has(w.dump, x)
    {
      assert Has(m.dump, x) ==> Has(w.dump, x);
      assert Chosen(x, lo, hi, None) <==> lo <= x < hi;
    }
  }

  // ---- The arrays ----

  /** A table array: `idx` is the index of the last end, and everything after it is zero. */
  predicate Holding(a: seq<nat>, idx: nat) {
    && |a| == WORDS
    && idx % 2 == 1 && idx <= 59
    && forall k :: idx < k < WORDS ==> a[k] == 0
  }

  function Table(a: seq<nat>, idx: nat): seq<Range>
    requires Holding(a, idx)
  {
    Pairs(a, idx - 1)
  }

  lemma PutWord(a: seq<nat>, b: seq<nat>, idx: nat, pa: nat)
    requires Holding(a, idx) && a[idx] == pa && b == a[idx := pa + PAGE]
    ensures Holding(b, idx) && Table(b, idx) == Put(Table(a, idx), pa)
  {
    var t := Table(a, idx);
    assert Last(t) == Range(a[idx - 1], a[idx]);
    assert Table(b, idx) == t[|t| - 1 := Range(a[idx - 1], pa + PAGE)];
  }

  lemma PutWords(a: seq<nat>, b: seq<nat>, idx: nat, pa: nat)
    requires Holding(a, idx) && idx < 59 && a[idx] != pa && b == a[idx + 1 := pa][idx + 2 := pa + PAGE]
    ensures Holding(b, idx + 2) && Table(b, idx + 2) == Put(Table(a, idx), pa)
  {
    var t := Table(a, idx);
    assert Last(t) == Range(a[idx - 1], a[idx]);
    assert Table(b, idx + 2) == t + [Range(pa, pa + PAGE)];
  }

  /** Extends or appends to a table array; both tables are updated this way. */
  method AddPage(t: array<nat>, idx: nat, pa: nat) returns (idx': nat, ok: bool)
    requires Holding(t[..], idx)
    modifies t
    ensures Holding(t[..], idx') && Table(t[..], idx') == Put(old(Table(t[..], idx)), pa)
    ensures ok == Fits(old(Table(t[..], idx)), pa)
  {
    ghost var was: seq<nat> := t[..];
    assert Last(Table(was, idx)) == Range(was[idx - 1], was[idx]);
    ok, idx' := true, idx;
    if pa == t[idx] {
      t[idx] := pa + PAGE;
      PutWord(was, t[..], idx, pa);
    } else if idx + 1 == 60 {
      ok := false;
    } else {
      t[idx + 1] := pa;
      t[idx + 2] := pa + PAGE;
      idx' := idx + 2;
      assert t[..] == was[idx + 1 := pa][idx + 2 := pa + PAGE];
      PutWords(was, t[..], idx, pa);
    }
  }

  lemma WalkOnce(w: Tables, pa: nat, end: nat, ex: Exclusion)
    requires w.phys != [] && w.dump != [] && pa < end
    ensures Walk(w, pa, end, ex) ==
            if ex.Usable(pa) && !Fits(w.phys, pa) then w.(dump := Put(w.dump, pa)) else Walk(Visit(w, pa, ex), pa + PAGE, end, ex)
  {
  }

  /** The loop over the pages of one entry. */
  method WalkEntry(phys: array<nat>, paIndx: nat, dump: array<nat>, daIndx: nat, physmem: nat,
                   begin: nat, end: nat, ex: Exclusion)
    returns (paIndx': nat, daIndx': nat, physmem': nat)
    requires Holding(phys[..], paIndx) && Holding(dump[..], daIndx) && phys != dump
    modifies phys, dump
    ensures Holding(phys[..], paIndx') && Holding(dump[..], daIndx')
    ensures Tables(Table(phys[..], paIndx'), Table(dump[..], daIndx'), physmem') ==
            Walk(old(Tables(Table(phys[..], paIndx), Table(dump[..], daIndx), physmem)), begin, end, ex)
  {
    paIndx', daIndx', physmem' := paIndx, daIndx, physmem;
    ghost var start := Tables(Table(phys[..], paIndx), Table(dump[..], daIndx), physmem);
    var pa := begin;
    while pa < end
      invariant Holding(phys[..], paIndx') && Holding(dump[..], daIndx')
      invariant Walk(start, begin, end, ex) ==
                Walk(Tables(Table(phys[..], paIndx'), Table(dump[..], daIndx'), physmem'), pa, end, ex)
      decreases end - pa
    {
      ghost var w := Tables(Table(phys[..], paIndx'), Table(dump[..], daIndx'), physmem');
      WalkOnce(w, pa, end, ex);
      var full := false;
      if ex.Usable(pa) {
        var ok;
        paIndx', ok := AddPage(phys, paIndx', pa);
        if ok {
          physmem' := physmem' + 1;
        } else {
          full := true;
        }
      }
      var added;
      daIndx', added := AddPage(dump, daIndx', pa);
      if full {
        return;
      }
      pa := pa + PAGE;
    }
  }

  /** The loop over the entries; the arrays start zeroed and their first pair is the second page. */
  method WalkMap(mi: MemoryInfo, limit: nat, ex: Exclusion, phys: array<nat>, dump: array<nat>)
    returns (r: Run<nat>, paIndx: nat, daIndx: nat)
    requires mi.Valid() && phys != dump && phys != mi.physmap && dump != mi.physmap
    requires Holding(phys[..], 1) && Table(phys[..], 1) == NO_PAGES.phys
    requires Holding(dump[..], 1) && Table(dump[..], 1) == NO_PAGES.dump
    modifies phys, dump
    ensures r.Returns? ==>
              && Holding(phys[..], paIndx) && Holding(dump[..], daIndx)
              && WalkFirst(mi.Map(), |mi.Map()|, limit, ex) ==
                 Returns(Tables(Table(phys[..], paIndx), Table(dump[..], daIndx), r.value))
    ensures r.Aborts? ==> WalkFirst(mi.Map(), |mi.Map()|, limit, ex) == Aborts(r.fault)
  {
    ghost var rs := mi.Map();
    ghost var w := NO_PAGES;
    var physmem: nat := 0;
    paIndx, daIndx := 1, 1;
    var n: nat := 0;
    while 2 * n <= mi.last
      invariant n <= |rs|
      invariant Holding(phys[..], paIndx) && Holding(dump[..], daIndx)
      invariant w == Tables(Table(phys[..], paIndx), Table(dump[..], daIndx), physmem)
      invariant WalkFirst(rs, n, limit, ex) == Returns(w)
    {
      assert rs[n] == Range(mi.physmap[2 * n], mi.physmap[2 * n + 1]);
      var begin, end := PageBounds(mi.physmap[2 * n], mi.physmap[2 * n + 1], limit);
      WalkNext(rs, n, limit, ex, w, begin, end);
      if begin >= U64 {
        WalkStuck(rs, n + 1, |rs|, limit, ex);
        return Aborts(Panic), paIndx, daIndx;
      }
      paIndx, daIndx, physmem := WalkEntry(phys, paIndx, dump, daIndx, physmem, begin, end, ex);
      w, n := Walk(w, begin, end, ex), n + 1;
    }
    assert n == |rs|;
    return Returns(physmem), paIndx, daIndx;
  }

  /** The first page of an entry and the end of its last, as the masks give them. */
  method PageBounds(lo: nat, hi: nat, limit: nat) returns (begin: nat, end: nat)
    requires hi < U64
    ensures begin == AlignUp(lo, PAGE) && end == Min(AlignDown(hi, PAGE), limit)
  {
    BlockSizesArePow2();
    begin := AlignUp(lo, PAGE);
    var masked := MaskDown(hi, PAGE);
    end := Min(masked, limit);
  }

  lemma WalkNext(rs: seq<Range>, n: nat, limit: nat, ex: Exclusion, w: Tables, begin: nat, end: nat)
    requires n < |rs| && WalkFirst(rs, n, limit, ex) == Returns(w)
    requires begin == AlignUp(rs[n].start, PAGE) && end == Min(AlignDown(rs[n].end, PAGE), limit)
    ensures w.phys != [] && w.dump != []
    ensures WalkFirst(rs, n + 1, limit, ex) == if begin >= U64 then Aborts(Panic) else Returns(Walk(w, begin, end, ex))
  {
  }

  // ---- Maps that are their own tables ----

  /** A table once the pages from `pa` to `end` have been added, all of them usable. */
  function Spanned(t: seq<Range>, pa: nat, end: nat): seq<Range>
    requires t != []
  {
    if pa == Last(t).end then t[|t| - 1 := Range(Last(t).start, end)] else t + [Range(pa, end)]
  }

  /** A span of usable pages extends the last range or adds one, however long it is. */
  lemma {:induction false} WalkSpan(w: Tables, pa: nat, end: nat, ex: Exclusion)
    requires w.phys != [] && w.dump != [] && IsPage(pa) && IsPage(end) && pa < end && Fits(w.phys, pa)
    requires forall x | IsPage(x) :: pa <= x < end ==> ex.Usable(x)
    ensures Walk(w, pa, end, ex).phys == Spanned(w.phys, pa, end)
    decreases end - pa
  {
    var v := Visit(w, pa, ex);
    NextPage(pa, end);
    assert v.phys == Spanned(w.phys, pa, pa + PAGE);
    if pa + PAGE == end {
      assert Walk(v, pa + PAGE, end, ex) == v;
    } else {
      WalkSpan(v, pa + PAGE, end, ex);
      assert Spanned(v.phys, pa + PAGE, end) == Spanned(w.phys, pa, end);
    }
  }

  /** Whole pages below the limit, usable and separated by gaps. */
  ghost predicate Tabular(o: seq<Range>, limit: nat, ex: Exclusion) {
    && 0 < |o| <= MAX_RANGES && o[0].start == PAGE
    && (forall k :: 0 <= k < |o| ==> IsPage(o[k].start) && IsPage(o[k].end) && o[k].start < o[k].end <= limit < U64)
    && (forall k :: 0 < k < |o| ==> o[k - 1].end < o[k].start)
    && (forall k, x | 0 <= k < |o| && IsPage(x) :: Holds(o[k], x) ==> ex.Usable(x))
  }

  lemma AlignedStays(x: nat)
    requires IsPage(x)
    ensures AlignUp(x, PAGE) == x && AlignDown(x, PAGE) == x
  {
    AlignUpNearest(x, PAGE);
    if x < AlignUp(x, PAGE) {
      MultiplesApart(x, AlignUp(x, PAGE), PAGE);
    }
  }

  /** Walking such a map gives it back as the table of available memory, range for range. */
  lemma {:induction false} TabularWalked(o: seq<Range>, n: nat, limit: nat, ex: Exclusion) returns (w: Tables)
    requires Tabular(o, limit, ex) && 0 < n <= |o|
    ensures WalkFirst(o, n, limit, ex) == Returns(w) && w.phys == o[..n]
  {
    var m := NO_PAGES;
    if n > 1 {
      m := TabularWalked(o, n - 1, limit, ex);
    }
    var e := o[n - 1];
    w := TabularStep(o, n - 1, limit, ex, m);
    assert o[..n] == o[..n - 1] + [e];
  }

  lemma TabularStep(o: seq<Range>, k: nat, limit: nat, ex: Exclusion, m: Tables) returns (w: Tables)
    requires Tabular(o, limit, ex) && k < |o| && WalkFirst(o, k, limit, ex) == Returns(m)
    requires if k == 0 then m.phys == NO_PAGES.phys else m.phys == o[..k]
    ensures WalkFirst(o, k + 1, limit, ex) == Returns(w) && w.phys == o[..k] + [o[k]]
  {
    var e := o[k];
    TabularBounds(o, k, limit, ex);
    WalkNext(o, k, limit, ex, m, e.start, e.end);
    w := Walk(m, e.start, e.end, ex);
    TabularSpan(o, k, limit, ex, m);
  }

  lemma TabularBounds(o: seq<Range>, k: nat, limit: nat, ex: Exclusion)
    requires Tabular(o, limit, ex) && k < |o|
    ensures AlignUp(o[k].start, PAGE) == o[k].start < U64 && Min(AlignDown(o[k].end, PAGE), limit) == o[k].end
  {
    AlignedStays(o[k].start);
    AlignedStays(o[k].end);
  }

  lemma TabularSpan(o: seq<Range>, k: nat, limit: nat, ex: Exclusion, m: Tables)
    requires Tabular(o, limit, ex) && k < |o| && m.phys != [] && m.dump != []
    requires if k == 0 then m.phys == NO_PAGES.phys else m.phys == o[..k]
    ensures Walk(m, o[k].start, o[k].end, ex).phys == o[..k] + [o[k]]
  {
    var e := o[k];
    forall x | IsPage(x) && e.start <= x < e.end ensures ex.Usable(x) {
      assert Holds(o[k], x);
    }
    WalkSpan(m, e.start, e.end, ex);
    if k > 0 {
      assert Last(m.phys) == o[k - 1];
    }
  }

  // ---- The message buffer and the page counts of Vm::new ----

  /** The table with `m` bytes cut off its last range. */
  function Trim(t: seq<Range>, m: nat): seq<Range>
    requires t != [] && m <= Last(t).end
  {
    t[|t| - 1 := Range(Last(t).start, Last(t).end - m)]
  }

  lemma TrimCanonical(t: seq<Range>, m: nat)
    requires Canonical(t) && IsPage(m) && Last(t).start + m < Last(t).end
    ensures Canonical(Trim(t, m))
  {
    var u := Trim(t, m);
    assert IsPage(Last(t).end - m);
    forall i, j | 0 <= i < j < |u| ensures u[i].end < u[j].start {
      assert t[i].end < t[j].start;
    }
  }

  /** One page less to trim is one page more in the table. */
  lemma TrimStep(t: seq<Range>, m: nat)
    requires Canonical(t) && IsPage(m) && PAGE <= m && Last(t).start + m < Last(t).end < U64
    ensures |PageSet(Trim(t, m - PAGE))| == |PageSet(Trim(t, m))| + 1
  {
    var u, pa := Trim(t, m), Last(t).end - m;
    assert Canonical(u) by {
      TrimCanonical(t, m);
    }
    assert IsPage(pa) by {
      assert IsPage(Last(t).end);
    }
    assert Put(u, pa) == Trim(t, m - PAGE);
    PutCounts(u, pa);
  }

  lemma {:induction false} TrimCounts(t: seq<Range>, m: nat)
    requires Canonical(t) && IsPage(m) && Last(t).start + m < Last(t).end < U64
    ensures |PageSet(t)| == |PageSet(Trim(t, m))| + m / PAGE
    decreases m
  {
    if m == 0 {
      assert Trim(t, 0) == t;
    } else {
      PageLess(m);
      TrimCounts(t, m - PAGE);
      TrimStep(t, m);
    }
  }

  lemma PageLess(m: nat)
    requires IsPage(m) && m > 0
    ensures PAGE <= m && IsPage(m - PAGE) && m / PAGE == (m - PAGE) / PAGE + 1
  {
  }

  /** The pages of a table below `cur`, inside or outside the window `[lo, hi)`. */
  ghost function Counted(t: seq<Range>, cur: int, lo: int, hi: int, inside: bool): set<int> {
    set p: int | p in PageSet(t) && p < cur && (lo <= p < hi) == inside
  }

  lemma CountPage(t: seq<Range>, a: nat, lo: int, hi: int, inside: bool)
    requires IsPage(a) && a < U64 && Has(t, a)
    ensures |Counted(t, a + PAGE, lo, hi, inside)| == |Counted(t, a, lo, hi, inside)| + (if (lo <= a < hi) == inside then 1 else 0)
  {
    var before, after := Counted(t, a, lo, hi, inside), Counted(t, a + PAGE, lo, hi, inside);
    forall p ensures p in after <==> p in before || (p == a && (lo <= a < hi) == inside) {
      if p in PageSet(t) {
        PageOrder(p, a);
      }
    }
    if (lo <= a < hi) == inside {
      assert after == before + {a};
    } else {
      assert after == before;
    }
  }

  lemma PageOrder(p: int, a: int)
    requires IsPage(p) && IsPage(a)
    ensures p < a + PAGE <==> p <= a
  {
  }

  /** There are no pages between two neighbouring ranges. */
  lemma CountGap(t: seq<Range>, k: nat, lo: int, hi: int, inside: bool)
    requires Canonical(t) && k + 1 < |t|
    ensures Counted(t, t[k + 1].start, lo, hi, inside) == Counted(t, t[k].end, lo, hi, inside)
  {
    assert t[k].end < t[k + 1].start;
    forall p | Has(t, p) ensures p < t[k + 1].start <==> p < t[k].end {
      var i :| 0 <= i < |t| && Holds(t[i], p);
      assert i < k ==> t[i].end < t[k].start;
      assert i > k + 1 ==> t[k + 1].end < t[i].start;
    }
  }

  lemma CountEnds(t: seq<Range>, lo: int, hi: int, inside: bool)
    requires Canonical(t)
    ensures Counted(t, t[0].start, lo, hi, inside) == {}
    ensures Counted(t, Last(t).end, lo, hi, inside) == (set p: int | p in PageSet(t) && (lo <= p < hi) == inside)
  {
    forall p | Has(t, p) ensures t[0].start <= p < Last(t).end {
      var i :| 0 <= i < |t| && Holds(t[i], p);
      assert i > 0 ==> t[0].end < t[i].start;
      assert i < |t| - 1 ==> t[i].end < t[|t| - 1].start;
    }
  }
}
