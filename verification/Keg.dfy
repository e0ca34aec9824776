/** How a UMA keg lays a slab out: items from the front, free cells and the header at the back. */
module Keg {
  import opened Machine

  const SMALLEST_UNIT: nat := PAGE / 256
  const MAX_WASTE: nat := PAGE / 10

  /** Sizes of the slab header with one free cell, and of a free cell. */
  datatype Header = Header(size: nat, cell: nat)

  datatype Flags = Flags(vm: bool, zinit: bool, malloc: bool, refcnt: bool, vtoslab: bool,
                         isInternal: bool, cacheOnly: bool, offpage: bool, hash: bool, mtxClass: bool)

  /** `pgoff` is where the header's part starts; an off-page header has none. */
  datatype Slab = Slab(pages: nat, items: nat, rsize: nat, pgoff: Option<nat>)

  function Max(a: nat, b: nat): nat {
    if a >= b then a else b
  }

  /** The item size rounded up to the alignment, of which `mask` is one less. */
  function Rounded(size: nat, mask: nat): (r: nat)
    requires mask < U64
    ensures r > 0
  {
    var rsize := Max(size, SMALLEST_UNIT);
    if And(mask, rsize) == 0 then rsize else mask + 1 + And(U64 - 1 - mask, rsize)
  }

  /** What `new` computes for a keg that does not spread its items over cache lines. */
  function Layout(size: nat, mask: nat, h: Header, f: Flags): Run<Slab>
    requires mask < U64
  {
    if f.vm || f.zinit then Aborts(Unimplemented)
    else if h.size > PAGE || size + h.cell >= U64 then Aborts(Overflow)
    else if size + h.cell > PAGE - h.size then Whole(size, h, f)
    else OnePage(Rounded(size, mask), h, f)
  }

  function HowMany(room: nat, cell: nat): nat
    requires cell > 0
  {
    room / cell
  }

  /** One page of items of `rsize` bytes, each with a free cell beside the header. */
  function OnePage(rsize: nat, h: Header, f: Flags): Run<Slab>
    requires rsize > 0 && h.size <= PAGE
  {
    if rsize + h.cell >= U64 then Aborts(Overflow)
    else
      var room := PAGE - h.size;
      var items := HowMany(room, rsize + h.cell);
      if Wasteful(room, rsize, rsize + h.cell, items) && !f.isInternal && !f.cacheOnly then Aborts(Unimplemented)
      else Finish(1, items, rsize, h, f)
  }

  predicate Wasteful(room: nat, rsize: nat, cell: nat, items: nat)
    requires rsize > 0 && cell > 0
  {
    room % cell >= MAX_WASTE && PAGE / rsize > items
  }

  /** An item that does not fit beside the header gets pages of its own. */
  function Whole(size: nat, h: Header, f: Flags): Run<Slab> {
    var g := if f.isInternal then f else f.(offpage := true, hash := f.hash || !(f.vtoslab || f.malloc || f.refcnt));
    Finish(size / PAGE + (if size > AlignDown(size, PAGE) then 1 else 0), 1, size, h, g)
  }

  /** The checks at the end of `new`. */
  function Finish(pages: nat, items: nat, rsize: nat, h: Header, f: Flags): Run<Slab> {
    if f.mtxClass then Aborts(Unimplemented)
    else if f.offpage then
      if f.hash then Aborts(Unimplemented) else Returns(Slab(pages, items, rsize, None))
    else
      var space := pages * PAGE;
      if space >= U64 || space < h.size + items * h.cell then Aborts(Overflow)
      else
        var pgoff := space - h.size - items * h.cell;
        if space < pgoff + h.size + items * h.cell then Aborts(Panic)
        else if f.hash then Aborts(Unimplemented)
        else Returns(Slab(pages, items, rsize, Some(pgoff)))
  }

  // ---- Rounding ----

  lemma {:induction false} AndCommutes(x: nat, y: nat)
    ensures And(x, y) == And(y, x)
    decreases x
  {
    if x != 0 && y != 0 {
      AndCommutes(x / 2, y / 2);
    }
  }

  /** For a power-of-two alignment the result is the item size rounded up to it. */
  lemma RoundedIs(size: nat, a: nat)
    requires IsPow2(a) && a <= U64 && size < U64
    ensures Rounded(size, a - 1) == AlignUp(Max(size, SMALLEST_UNIT), a)
  {
    var rsize := Max(size, SMALLEST_UNIT);
    AndCommutes(a - 1, rsize);
    AndCommutes(U64 - a, rsize);
    AndLowMask(rsize, a);
    AndWordMask(rsize, a);
    UpFromDown(rsize, a);
  }

  lemma UpFromDown(x: nat, a: nat)
    requires a > 0
    ensures AlignUp(x, a) == if x % a == 0 then x else a + AlignDown(x, a)
  {
    ModBelow(x, a);
    var q, r := x / a, x % a;
    assert x + a - 1 == q * a + r + a - 1;
    if r == 0 {
      DivModUnique(x + a - 1, a, q, a - 1);
    } else {
      assert (q + 1) * a == q * a + a;
      DivModUnique(x + a - 1, a, q + 1, r - 1);
    }
  }

  /** It is the least multiple of the alignment not below the item size and the smallest unit. */
  lemma RoundedLeast(size: nat, a: nat, m: nat)
    requires IsPow2(a) && a <= U64 && size < U64
    ensures var r := Rounded(size, a - 1);
            && size <= r && SMALLEST_UNIT <= r && r % a == 0
            && (size <= m && SMALLEST_UNIT <= m && m % a == 0 ==> r <= m)
  {
    RoundedIs(size, a);
    var x := Max(size, SMALLEST_UNIT);
    var r := AlignUp(x, a);
    AlignUpNearest(x, a);
    if x <= m < r && m % a == 0 {
      MultiplesApart(m, r, a);
    }
  }

  // ---- What fits in a slab ----

  /** The items end before the header's part, and that part ends with the pages. */
  predicate Fits(s: Slab, h: Header) {
    s.pgoff.Some? ==>
      && s.items * s.rsize <= s.pgoff.value
      && s.pgoff.value + h.size + s.items * h.cell == s.pages * PAGE
  }

  lemma DivBounds(room: nat, cell: nat)
    requires cell > 0
    ensures room / cell * cell <= room < (room / cell + 1) * cell
  {
    var q := room / cell;
    assert room == q * cell + room % cell;
    assert (q + 1) * cell == q * cell + cell;
  }

  /** On the one-page path everything fits, and one more item with its cell would not. */
  lemma OnePageFits(rsize: nat, h: Header, f: Flags)
    requires rsize > 0 && h.size <= PAGE && OnePage(rsize, h, f).Returns?
    ensures var s := OnePage(rsize, h, f).value;
            && s.pages == 1 && s.rsize == rsize && Fits(s, h)
            && h.size + (s.items + 1) * (rsize + h.cell) > PAGE
  {
    var room, cell := PAGE - h.size, rsize + h.cell;
    var n := room / cell;
    DivBounds(room, cell);
    Distribute(n, rsize, h.cell);
  }

  lemma Distribute(n: nat, a: nat, b: nat)
    ensures n * (a + b) == n * a + n * b
  {
  }

  /**
    A one-page slab holds no item at all exactly if the rounded size and a free cell are more
    than the room beside the header: the test before it looks at the size before rounding.
   */
  lemma NoItems(rsize: nat, h: Header, f: Flags)
    requires rsize > 0 && h.size <= PAGE && OnePage(rsize, h, f).Returns?
    ensures OnePage(rsize, h, f).value.items == 0 <==> rsize + h.cell > PAGE - h.size
  {
    DivBounds(PAGE - h.size, rsize + h.cell);
    var n := (PAGE - h.size) / (rsize + h.cell);
    if n == 0 {
      assert (n + 1) * (rsize + h.cell) == rsize + h.cell;
    } else {
      AtLeastOne(n, rsize + h.cell);
    }
  }

  lemma AtLeastOne(n: nat, cell: nat)
    requires n > 0
    ensures n * cell >= cell
  {
  }

  /** The size leaves room for a free cell beside the header, which is when one page is used. */
  predicate FitsPage(size: nat, h: Header) {
    h.size <= PAGE && size + h.cell <= PAGE - h.size
  }

  /** The ways a keg can be asked for that are not implemented. */
  predicate Unsupported(f: Flags) {
    f.vm || f.zinit || f.mtxClass || f.hash
  }

  /** What the source does not lay out on one page either, because another layout would waste less. */
  predicate Refused(rsize: nat, h: Header, f: Flags)
    requires rsize > 0 && h.size <= PAGE
  {
    !f.isInternal && !f.cacheOnly && Wasteful(PAGE - h.size, rsize, rsize + h.cell, HowMany(PAGE - h.size, rsize + h.cell))
  }

  /** A slab of one page, for items of a size and an alignment. */
  ghost predicate OnePageSlab(size: nat, a: nat, h: Header, s: Slab)
    requires a > 0
  {
    && s.pages == 1
    // The least multiple of the alignment that is not below the size and the smallest unit.
    && size <= s.rsize && SMALLEST_UNIT <= s.rsize && s.rsize % a == 0
    && (forall m: nat :: size <= m && SMALLEST_UNIT <= m && m % a == 0 ==> s.rsize <= m)
    // As many items as the page has room for, in front of their cells and the header.
    && Fits(s, h)
    && h.size + (s.items + 1) * (s.rsize + h.cell) > PAGE
    && (s.items == 0 <==> h.size + s.rsize + h.cell > PAGE)
  }

  /**
    For every size that fits a page and every power-of-two alignment: when the layout succeeds, and
    that the slab has the rounded size, fits the page and is full. It holds no item at all exactly if
    the rounded size is too large, since only the size before rounding is looked at first.
   */
  lemma OnePageLayout(size: nat, a: nat, h: Header, f: Flags)
    requires IsPow2(a) && a <= U64 && FitsPage(size, h)
    ensures var rsize := Rounded(size, a - 1);
            Layout(size, a - 1, h, f).Returns? <==> !Unsupported(f) && rsize + h.cell < U64 && !Refused(rsize, h, f)
    ensures Layout(size, a - 1, h, f).Returns? ==> OnePageSlab(size, a, h, Layout(size, a - 1, h, f).value)
  {
    var rsize := Rounded(size, a - 1);
    OnePageReturns(rsize, h, f);
    if Layout(size, a - 1, h, f).Returns? {
      OnePageFits(rsize, h, f);
      NoItems(rsize, h, f);
      RoundedLeast(size, a, 0);
      forall m: nat | size <= m && SMALLEST_UNIT <= m && m % a == 0 ensures rsize <= m {
        RoundedLeast(size, a, m);
      }
    }
  }

  lemma OnePageReturns(rsize: nat, h: Header, f: Flags)
    requires rsize > 0 && h.size <= PAGE
    ensures OnePage(rsize, h, f).Returns? <==>
            !f.mtxClass && !f.hash && rsize + h.cell < U64 && !Refused(rsize, h, f)
  {
    if rsize + h.cell < U64 {
      var items := HowMany(PAGE - h.size, rsize + h.cell);
      CellsFit(PAGE - h.size, rsize, h.cell);
      FinishReturns(items, rsize, h, f);
    }
  }

  lemma CellsFit(room: nat, rsize: nat, cell: nat)
    requires rsize > 0
    ensures HowMany(room, rsize + cell) * cell <= room
  {
    var n, both := HowMany(room, rsize + cell), rsize + cell;
    assert n * both <= room by {
      DivBounds(room, both);
    }
    PartFits(n, rsize, cell, room);
  }

  lemma PartFits(n: nat, a: nat, b: nat, room: nat)
    requires n * (a + b) <= room
    ensures n * b <= room
  {
    Distribute(n, a, b);
  }

  lemma FinishReturns(items: nat, rsize: nat, h: Header, f: Flags)
    requires h.size + items * h.cell <= PAGE
    ensures Finish(1, items, rsize, h, f).Returns? <==> !f.mtxClass && !f.hash
  {
  }

  /** An alignment of more than a page, which the kernel heap asks for, leaves a keg without items. */
  lemma AlignedAway(size: nat, a: nat, h: Header, f: Flags)
    requires !f.vm && !f.zinit && !f.mtxClass && !f.offpage && !f.hash
    requires IsPow2(a) && PAGE < a && a + h.cell < U64 && size + h.cell + h.size <= PAGE
    ensures Layout(size, a - 1, h, f) == Returns(Slab(1, 0, a, Some(PAGE - h.size)))
  {
    assert Rounded(size, a - 1) == a by {
      RoundedIs(size, a);
      UpFromDown(Max(size, SMALLEST_UNIT), a);
      DivModUnique(Max(size, SMALLEST_UNIT), a, 0, Max(size, SMALLEST_UNIT));
    }
    EmptyPage(a, h, f);
  }

  lemma EmptyPage(rsize: nat, h: Header, f: Flags)
    requires !f.mtxClass && !f.offpage && !f.hash
    requires PAGE < rsize && rsize + h.cell < U64 && h.size <= PAGE
    ensures OnePage(rsize, h, f) == Returns(Slab(1, 0, rsize, Some(PAGE - h.size)))
  {
    DivModUnique(PAGE - h.size, rsize + h.cell, 0, PAGE - h.size);
    DivModUnique(PAGE, rsize, 0, PAGE);
  }

  /** Pages of its own: enough for the item and not one more than needed. */
  lemma WholeCovers(size: nat, h: Header, f: Flags)
    requires size > 0 && Whole(size, h, f).Returns?
    ensures var s := Whole(size, h, f).value;
            s.items == 1 && s.pages * PAGE == AlignUp(size, PAGE)
  {
    UpFromDown(size, PAGE);
    ModBelow(size, PAGE);
    assert size == size / PAGE * PAGE + size % PAGE;
  }

  /** With the header on the same pages, the item stays clear of it exactly if the last page has room for it. */
  lemma WholeFits(size: nat, h: Header, f: Flags)
    requires size > 0 && Whole(size, h, f).Returns? && Whole(size, h, f).value.pgoff.Some?
    ensures Fits(Whole(size, h, f).value, h) <==> AlignUp(size, PAGE) - size >= h.size + h.cell
  {
    WholeCovers(size, h, f);
  }

  /**
    When an item with pages of its own gets a slab. The header goes off the pages unless the keg is an
    internal one that keeps it, and the header of a keg that is not internal must be found through
    one of three other flags, since the hash table is not implemented.
   */
  lemma WholeDecides(size: nat, h: Header, f: Flags)
    requires size > 0 && AlignUp(size, PAGE) < U64
    ensures Whole(size, h, f).Returns? <==>
              && !f.mtxClass && !f.hash
              && (if f.isInternal then f.offpage || h.size + h.cell <= AlignUp(size, PAGE) else f.vtoslab || f.malloc || f.refcnt)
    ensures Whole(size, h, f).Returns? ==>
              Whole(size, h, f).value.rsize == size && (Whole(size, h, f).value.pgoff.None? <==> f.offpage || !f.isInternal)
  {
    UpFromDown(size, PAGE);
    ModBelow(size, PAGE);
    assert size == size / PAGE * PAGE + size % PAGE;
  }

  /**
    A layout is refused as wasteful, in a keg that is neither internal nor cache-only, if a tenth of a
    page is left over and the page would hold one more item without the header's part.
   */
  lemma RefusedIs(rsize: nat, h: Header, f: Flags, items: nat)
    requires rsize > 0 && h.size <= PAGE && items == (PAGE - h.size) / (rsize + h.cell)
    ensures Refused(rsize, h, f) <==>
              && !f.isInternal && !f.cacheOnly
              && PAGE - h.size - items * (rsize + h.cell) >= 1638
              && (items + 1) * rsize <= PAGE
  {
    var room, cell := PAGE - h.size, rsize + h.cell;
    assert room % cell == room - items * cell by {
      assert room == room / cell * cell + room % cell;
    }
    HoldsMore(rsize, items);
  }

  lemma HoldsMore(rsize: nat, items: nat)
    requires rsize > 0
    ensures PAGE / rsize > items <==> (items + 1) * rsize <= PAGE
  {
    var q := PAGE / rsize;
    assert PAGE == q * rsize + PAGE % rsize;
    if q > items {
      MulGap(items, q, rsize);
    } else {
      MulGap(q, items + 1, rsize);
    }
  }
}
