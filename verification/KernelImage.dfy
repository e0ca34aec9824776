/**
  How the VMM lays out and relocates the kernel image: the check of the loadable segments, and the
  relocation loop that patches the image in place while reading its table from it.
 */
module KernelImage {
  import opened Machine
  import opened Words

  // ---- Segments ----

  datatype Segment = Segment(vaddr: Word, memsz: Word)

  datatype LoadError = OverlappedLoadSegment(vaddr: nat) | InvalidPmemsz(vaddr: nat) | ZeroLengthLoadSegment

  datatype Length = Ok(len: nat) | Err(error: LoadError)

  function End(s: Segment): nat {
    s.vaddr + s.memsz
  }

  /** The loop over the segments, from a length already in use. */
  function Scan(segs: seq<Segment>, len: nat): Length
    decreases |segs|
  {
    if segs == [] then Ok(len)
    else if segs[0].vaddr < len then Err(OverlappedLoadSegment(segs[0].vaddr))
    else if End(segs[0]) >= U64 then Err(InvalidPmemsz(segs[0].vaddr))
    else Scan(segs[1..], End(segs[0]))
  }

  /** Each segment ends at or before the start of every later one, and inside the address space. */
  predicate InOrder(segs: seq<Segment>) {
    && (forall i :: 0 <= i < |segs| ==> End(segs[i]) < U64)
    && (forall i, j :: 0 <= i < j < |segs| ==> End(segs[i]) <= segs[j].vaddr)
  }

  /** The scan accepts exactly the lists whose segments are in order, and its length is the last end. */
  lemma {:induction false} ScanExact(segs: seq<Segment>, len: nat)
    ensures Scan(segs, len).Ok? <==> InOrder(segs) && forall i :: 0 <= i < |segs| ==> len <= segs[i].vaddr
    ensures Scan(segs, len).Ok? ==> Scan(segs, len).len == if segs == [] then len else End(segs[|segs| - 1])
    decreases |segs|
  {
    if segs != [] {
      var rest := segs[1..];
      ScanExact(rest, End(segs[0]));
      if InOrder(segs) {
        forall i, j | 0 <= i < j < |rest| ensures End(rest[i]) <= rest[j].vaddr {
          assert rest[i] == segs[i + 1] && rest[j] == segs[j + 1];
        }
        forall i | 0 <= i < |rest| ensures End(segs[0]) <= rest[i].vaddr {
          assert rest[i] == segs[i + 1];
        }
      }
      if Scan(segs, len).Ok? {
        forall i, j | 0 <= i < j < |segs| ensures End(segs[i]) <= segs[j].vaddr {
          assert segs[j] == rest[j - 1];
          assert i > 0 ==> segs[i] == rest[i - 1];
        }
        forall i | 0 <= i < |segs| ensures End(segs[i]) < U64 && len <= segs[i].vaddr {
          assert i > 0 ==> segs[i] == rest[i - 1];
        }
      }
    }
  }

  predicate Contains(s: Segment, x: nat) {
    s.vaddr <= x < End(s)
  }

  /** Accepted segments share no address and lie inside the kernel length. */
  lemma AcceptedDisjoint(segs: seq<Segment>, i: nat, j: nat, x: nat)
    requires Scan(segs, 0).Ok? && i < |segs| && Contains(segs[i], x)
    ensures x < Scan(segs, 0).len
    ensures j < |segs| && j != i ==> !Contains(segs[j], x)
  {
    ScanExact(segs, 0);
    assert i < |segs| - 1 ==> End(segs[i]) <= segs[|segs| - 1].vaddr;
    if j < |segs| && j < i {
      assert End(segs[j]) <= segs[i].vaddr;
    } else if j < |segs| && i < j {
      assert End(segs[i]) <= segs[j].vaddr;
    }
  }

  predicate SortedByAddress(segs: seq<Segment>) {
    forall i, j :: 0 <= i < j < |segs| ==> segs[i].vaddr <= segs[j].vaddr
  }

  /** No two segments share an address. */
  ghost predicate Disjoint(segs: seq<Segment>) {
    forall i, j, x :: 0 <= i < j < |segs| && Contains(segs[i], x) ==> !Contains(segs[j], x)
  }

  predicate EndInside(segs: seq<Segment>) {
    forall i :: 0 <= i < |segs| ==> End(segs[i]) < U64
  }

  /** Sorted segments are accepted exactly if they end in the address space and none starts inside an earlier one. */
  lemma SortedAccepted(segs: seq<Segment>)
    requires SortedByAddress(segs)
    ensures Scan(segs, 0).Ok? <==> EndInside(segs) && forall i, j :: 0 <= i < j < |segs| ==> !Contains(segs[i], segs[j].vaddr)
  {
    ScanExact(segs, 0);
  }

  /** If none of them is empty, that is to say that no two share an address. */
  lemma DisjointAccepted(segs: seq<Segment>)
    requires SortedByAddress(segs) && forall i :: 0 <= i < |segs| ==> segs[i].memsz > 0
    ensures Scan(segs, 0).Ok? <==> Disjoint(segs) && EndInside(segs)
  {
    SortedAccepted(segs);
    if Disjoint(segs) {
      forall i, j | 0 <= i < j < |segs| ensures !Contains(segs[i], segs[j].vaddr) {
        assert Contains(segs[j], segs[j].vaddr);
      }
    }
    if Scan(segs, 0).Ok? {
      forall i, j, x | 0 <= i < j < |segs| && Contains(segs[i], x) ensures !Contains(segs[j], x) {
        assert !Contains(segs[i], segs[j].vaddr);
      }
    }
  }

  // ---- What an unstable sort leaves open ----

  /** An empty segment at the address of one that is not. */
  predicate Tie(s: Segment, t: Segment) {
    s.vaddr == t.vaddr && s.memsz == 0 && t.memsz > 0
  }

  ghost predicate Tied(segs: seq<Segment>) {
    exists i, j :: 0 <= i < |segs| && 0 <= j < |segs| && Tie(segs[i], segs[j])
  }

  /** Two segments that are refused in either order. */
  predicate Overlap(s: Segment, t: Segment) {
    || s.vaddr < t.vaddr < End(s)
    || t.vaddr < s.vaddr < End(t)
    || (s.vaddr == t.vaddr && s.memsz > 0 && t.memsz > 0)
  }

  /** No order of the segments is accepted. */
  ghost predicate Hopeless(segs: seq<Segment>) {
    !EndInside(segs) || exists i, j :: 0 <= i < j < |segs| && Overlap(segs[i], segs[j])
  }

  /** Another outcome of sorting the same segments by address. */
  ghost predicate Reordered(a: seq<Segment>, b: seq<Segment>) {
    SortedByAddress(b) && multiset(b) == multiset(a)
  }

  /** Sorting the same segments differently changes the verdict. */
  ghost predicate OrderMatters(segs: seq<Segment>) {
    exists b :: Reordered(segs, b) && Scan(b, 0).Ok? != Scan(segs, 0).Ok?
  }

  /** The verdict depends on the order among equal addresses exactly if there is a tie and nothing else is wrong. */
  lemma OrderMattersExactly(segs: seq<Segment>)
    requires SortedByAddress(segs)
    ensures OrderMatters(segs) <==> Tied(segs) && !Hopeless(segs)
  {
    if OrderMatters(segs) {
      var b :| Reordered(segs, b) && Scan(b, 0).Ok? != Scan(segs, 0).Ok?;
      SameProspects(segs, b);
      Verdict(segs);
      Verdict(b);
    }
    if Tied(segs) && !Hopeless(segs) {
      if Scan(segs, 0).Ok? {
        var i, j :| 0 <= i < |segs| && 0 <= j < |segs| && Tie(segs[i], segs[j]);
        var b := Exchanged(segs, i, j);
      } else {
        EmptyFirstAccepted(segs);
      }
    }
  }

  /** Without a tie, the verdict is that no two segments overlap and all end in the address space. */
  lemma Verdict(segs: seq<Segment>)
    requires SortedByAddress(segs)
    ensures Hopeless(segs) ==> !Scan(segs, 0).Ok?
    ensures !Hopeless(segs) && !Tied(segs) ==> Scan(segs, 0).Ok?
  {
    SortedAccepted(segs);
    if EndInside(segs) && Hopeless(segs) {
      var i, j :| 0 <= i < j < |segs| && Overlap(segs[i], segs[j]);
      assert segs[i].vaddr <= segs[j].vaddr;
      assert Contains(segs[i], segs[j].vaddr);
    }
    if !Hopeless(segs) && !Tied(segs) {
      forall i, j | 0 <= i < j < |segs| ensures !Contains(segs[i], segs[j].vaddr) {
        assert !Overlap(segs[i], segs[j]) && !Tie(segs[j], segs[i]);
      }
    }
  }

  lemma SameProspects(a: seq<Segment>, b: seq<Segment>)
    requires multiset(a) == multiset(b)
    ensures Hopeless(a) <==> Hopeless(b)
    ensures Tied(a) <==> Tied(b)
  {
    if Hopeless(a) {
      HopelessMoves(a, b);
    } else {
      SameHope(a, b);
    }
    if Tied(a) {
      TieMoves(a, b);
    } else if Tied(b) {
      TieMoves(b, a);
    }
  }

  lemma Place(b: seq<Segment>, s: Segment) returns (p: nat)
    requires s in multiset(b)
    ensures p < |b| && b[p] == s
  {
    assert s in b;
    p :| 0 <= p < |b| && b[p] == s;
  }

  lemma TieMoves(a: seq<Segment>, b: seq<Segment>)
    requires multiset(a) == multiset(b) && Tied(a)
    ensures Tied(b)
  {
    var i, j :| 0 <= i < |a| && 0 <= j < |a| && Tie(a[i], a[j]);
    assert a[i] in multiset(a) && a[j] in multiset(a);
    var p := Place(b, a[i]);
    var q := Place(b, a[j]);
    assert Tie(b[p], b[q]);
  }

  lemma HopelessMoves(a: seq<Segment>, b: seq<Segment>)
    requires multiset(a) == multiset(b) && Hopeless(a)
    ensures Hopeless(b)
  {
    if !EndInside(a) {
      var i :| 0 <= i < |a| && End(a[i]) >= U64;
      assert a[i] in multiset(a);
      var p := Place(b, a[i]);
    } else {
      var i, j :| 0 <= i < j < |a| && Overlap(a[i], a[j]);
      var p, q := TwoPlaces(a, b, i, j);
      assert Overlap(b[if p < q then p else q], b[if p < q then q else p]);
    }
  }

  lemma SplitOff(b: seq<Segment>, p: nat)
    requires p < |b|
    ensures multiset(b) == multiset(b[..p]) + multiset(b[p + 1..]) + multiset{b[p]}
  {
    assert b == b[..p] + [b[p]] + b[p + 1..];
  }

  lemma Cancel(x: multiset<Segment>, y: multiset<Segment>, s: Segment)
    requires x + multiset{s} == y + multiset{s}
    ensures x == y
  {
    assert x == x + multiset{s} - multiset{s};
    assert y == y + multiset{s} - multiset{s};
  }

  /** Two elements of a list have places of their own in every permutation of it. */
  lemma TwoPlaces(a: seq<Segment>, b: seq<Segment>, i: nat, j: nat) returns (p: nat, q: nat)
    requires multiset(a) == multiset(b) && i < j < |a|
    ensures p < |b| && q < |b| && p != q && b[p] == a[i] && b[q] == a[j]
  {
    assert a[i] in multiset(a);
    p := Place(b, a[i]);
    SplitOff(a, i);
    SplitOff(b, p);
    var rest := b[..p] + b[p + 1..];
    assert a[j] == a[i + 1..][j - i - 1];
    assert a[j] in multiset(a[i + 1..]);
    assert multiset(rest) == multiset(b[..p]) + multiset(b[p + 1..]);
    Cancel(multiset(rest), multiset(a[..i]) + multiset(a[i + 1..]), a[i]);
    q := Place(rest, a[j]);
    q := if q < p then q else q + 1;
  }

  /** Exchanging the two segments of a tie turns an accepted list into one that is refused. */
  lemma Exchanged(segs: seq<Segment>, i: nat, j: nat) returns (b: seq<Segment>)
    requires SortedByAddress(segs) && Scan(segs, 0).Ok? && i < |segs| && j < |segs| && Tie(segs[i], segs[j])
    ensures Reordered(segs, b) && !Scan(b, 0).Ok?
  {
    b := segs[i := segs[j]][j := segs[i]];
    assert i < j by {
      SortedAccepted(segs);
      assert j < i ==> Contains(segs[j], segs[i].vaddr);
    }
    assert SortedByAddress(b) by {
      SameAddresses(segs, i, j, b);
    }
    assert Contains(b[i], b[j].vaddr);
    SortedAccepted(b);
  }

  lemma SameAddresses(segs: seq<Segment>, i: nat, j: nat, b: seq<Segment>)
    requires SortedByAddress(segs) && i < |segs| && j < |segs| && segs[i].vaddr == segs[j].vaddr
    requires b == segs[i := segs[j]][j := segs[i]]
    ensures SortedByAddress(b)
  {
    assert forall k :: 0 <= k < |b| ==> b[k].vaddr == segs[k].vaddr;
  }

  /** By address, and an empty segment before one that is not. */
  predicate Before(s: Segment, t: Segment) {
    s.vaddr < t.vaddr || (s.vaddr == t.vaddr && (s.memsz == 0 || t.memsz > 0))
  }

  predicate InTieOrder(segs: seq<Segment>) {
    forall i, j :: 0 <= i < j < |segs| ==> Before(segs[i], segs[j])
  }

  function PutInOrder(s: Segment, segs: seq<Segment>): seq<Segment> {
    if segs == [] || Before(s, segs[0]) then [s] + segs else [segs[0]] + PutInOrder(s, segs[1..])
  }

  function EmptyFirst(segs: seq<Segment>): seq<Segment> {
    if segs == [] then [] else PutInOrder(segs[0], EmptyFirst(segs[1..]))
  }

  lemma {:induction false} PutInOrderKeeps(s: Segment, segs: seq<Segment>)
    requires InTieOrder(segs)
    ensures multiset(PutInOrder(s, segs)) == multiset(segs) + multiset{s}
    ensures InTieOrder(PutInOrder(s, segs))
    decreases |segs|
  {
    if segs == [] || Before(s, segs[0]) {
      forall i | 0 <= i < |segs| ensures Before(s, segs[i]) {
        assert i > 0 ==> Before(segs[0], segs[i]);
      }
    } else {
      var rest := PutInOrder(s, segs[1..]);
      PutInOrderKeeps(s, segs[1..]);
      assert segs == [segs[0]] + segs[1..];
      forall i | 0 <= i < |rest| ensures Before(segs[0], rest[i]) {
        assert rest[i] in multiset(rest);
        if rest[i] != s {
          var p := Place(segs[1..], rest[i]);
          assert Before(segs[0], segs[p + 1]);
        }
      }
    }
  }

  lemma {:induction false} EmptyFirstKeeps(segs: seq<Segment>)
    ensures multiset(EmptyFirst(segs)) == multiset(segs) && InTieOrder(EmptyFirst(segs))
  {
    if segs != [] {
      EmptyFirstKeeps(segs[1..]);
      PutInOrderKeeps(segs[0], EmptyFirst(segs[1..]));
      assert segs == [segs[0]] + segs[1..];
    }
  }

  /** Some order of the segments is accepted unless they are hopeless. */
  lemma EmptyFirstAccepted(segs: seq<Segment>)
    requires !Hopeless(segs)
    ensures Reordered(segs, EmptyFirst(segs)) && Scan(EmptyFirst(segs), 0).Ok?
  {
    var b := EmptyFirst(segs);
    EmptyFirstKeeps(segs);
    SameHope(segs, b);
    forall i, j | 0 <= i < j < |b| ensures b[i].vaddr <= b[j].vaddr && !Contains(b[i], b[j].vaddr) {
      assert Before(b[i], b[j]) && !Overlap(b[i], b[j]);
    }
    SortedAccepted(b);
  }

  lemma SameHope(a: seq<Segment>, b: seq<Segment>)
    requires multiset(a) == multiset(b) && !Hopeless(a)
    ensures !Hopeless(b)
  {
    if Hopeless(b) {
      HopelessMoves(b, a);
    }
  }

  /** The smallest such case: an empty segment and another one at its address. */
  lemma TieMatters(v: Word, n: Word)
    requires 0 < n && v + n < U64
    ensures var empty, full := Segment(v, 0), Segment(v, n);
            && Reordered([full, empty], [empty, full])
            && Scan([empty, full], 0).Ok? && Scan([full, empty], 0) == Err(OverlappedLoadSegment(v))
  {
    var empty, full := Segment(v, 0), Segment(v, n);
    assert Scan([full], v) == Ok(v + n) by {
      assert [full][1..] == [];
    }
    assert [empty, full][1..] == [full] && [full, empty][1..] == [empty];
  }

  /** The kernel memory size. */
  method KernelLength(segs: seq<Segment>) returns (r: Length)
    ensures r == match Scan(segs, 0)
                 case Err(e) => Err(e)
                 case Ok(len) => if len == 0 then Err(ZeroLengthLoadSegment) else Ok(len)
  {
    var len: nat := 0;
    var i := 0;
    while i < |segs|
      invariant 0 <= i <= |segs| && Scan(segs, 0) == Scan(segs[i..], len)
    {
      assert segs[i..][0] == segs[i] && segs[i..][1..] == segs[i + 1..];
      if segs[i].vaddr < len {
        return Err(OverlappedLoadSegment(segs[i].vaddr));
      }
      if segs[i].vaddr + segs[i].memsz >= U64 {
        return Err(InvalidPmemsz(segs[i].vaddr));
      }
      len, i := segs[i].vaddr + segs[i].memsz, i + 1;
    }
    return if len == 0 then Err(ZeroLengthLoadSegment) else Ok(len);
  }

  // ---- Relocation ----

  /** One entry of the table: offset, type and addend. */
  datatype Rela = Rela(offset: nat, ty: nat, addend: nat)

  predicate HasEntry(mem: Memory, table: nat, k: nat) {
    table + 24 * k + 24 <= |mem|
  }

  function EntryAt(mem: Memory, table: nat, k: nat): Rela
    requires HasEntry(mem, table, k)
  {
    var off := table + 24 * k;
    Rela(Get(mem, off), And(Get(mem, off + 8), 0xffff_ffff), Get(mem, off + 16))
  }

  /** The word `f` of table entry `k`; an entry is 24 bytes. */
  function Field(mem: Memory, table: nat, k: nat, f: nat): nat
    requires HasEntry(mem, table, k) && f < 3
  {
    Get(mem, table + 24 * k + 8 * f)
  }

  /** The type of an entry: the low half of its second word. */
  function Type(mem: Memory, table: nat, k: nat): nat
    requires HasEntry(mem, table, k)
  {
    Field(mem, table, k, 1) % 0x1_0000_0000
  }

  /** An entry is its offset, its type in the low half of the second word, and its addend. */
  lemma EntryFields(mem: Memory, table: nat, k: nat)
    requires HasEntry(mem, table, k)
    ensures EntryAt(mem, table, k) ==
            Rela(Field(mem, table, k, 0), Type(mem, table, k), Field(mem, table, k, 2))
  {
    WordIsPow2();
    AndLowMask(Get(mem, table + 24 * k + 8), 0x1_0000_0000);
  }

  /** The relocation loop from entry `k` on: the image and whether the table was valid. */
  function Apply(mem: Memory, table: nat, k: nat, n: nat, base: Word, ty: nat): Run<(Memory, bool)>
    requires k <= n
    decreases n - k
  {
    if k == n then Returns((mem, true))
    else if table + 24 * k + 24 >= U64 then Aborts(Overflow)
    else if !HasEntry(mem, table, k) then Returns((mem, false))
    else
      var e := EntryAt(mem, table, k);
      if e.ty == 0 then Returns((mem, true))
      else if e.ty != ty then Apply(mem, table, k + 1, n, base, ty)
      else if e.offset + 8 >= U64 || !Slot(mem, e.offset) then Returns((mem, false))
      else Apply(Put(mem, e.offset, (base + e.addend) % U64), table, k + 1, n, base, ty)
  }

  /** The loop stops at entry `k`: it is not in the image, is `R_NONE`, or its slot is not in the image. */
  predicate Stops(mem: Memory, table: nat, k: nat, ty: nat) {
    || !HasEntry(mem, table, k)
    || Type(mem, table, k) == 0
    || (Type(mem, table, k) == ty && !Slot(mem, Field(mem, table, k, 0)))
  }

  /** The number of entries before the one the loop stops at. */
  function Limit(mem: Memory, table: nat, k: nat, n: nat, ty: nat): (l: nat)
    requires k <= n
    ensures k <= l <= n
    ensures forall j :: k <= j < l ==> !Stops(mem, table, j, ty)
    ensures l < n ==> Stops(mem, table, l, ty)
    decreases n - k
  {
    if k == n || Stops(mem, table, k, ty) then k else Limit(mem, table, k + 1, n, ty)
  }

  /** Entry `j` is to be applied. */
  predicate Target(mem: Memory, table: nat, j: nat, ty: nat) {
    HasEntry(mem, table, j) && Type(mem, table, j) == ty
  }

  /** The slots of the first `l` entries lie off each other and off the first `m` entries. */
  predicate Separate(mem: Memory, table: nat, l: nat, m: nat, ty: nat) {
    && (forall j :: 0 <= j < l && Target(mem, table, j, ty) ==>
          var o := Field(mem, table, j, 0);
          o + 8 <= table || table + 24 * m <= o)
    && (forall i, j :: 0 <= i < j < l && Target(mem, table, i, ty) && Target(mem, table, j, ty) ==>
          Clear(Field(mem, table, i, 0), Field(mem, table, j, 0)))
  }

  predicate Touched(orig: Memory, table: nat, k: nat, ty: nat, x: nat) {
    exists j :: 0 <= j < k && Target(orig, table, j, ty) && Field(orig, table, j, 0) <= x < Field(orig, table, j, 0) + 8
  }

  /** The image after the first `k` entries: base plus addend in every slot, all else as it was. */
  ghost predicate Patched(orig: Memory, mem: Memory, table: nat, k: nat, base: Word, ty: nat) {
    && |mem| == |orig|
    && (forall j :: 0 <= j < k && Target(orig, table, j, ty) && Slot(mem, Field(orig, table, j, 0)) ==>
          Get(mem, Field(orig, table, j, 0)) == (base + Field(orig, table, j, 2)) % U64)
    && (forall x :: 0 <= x < |orig| && !Touched(orig, table, k, ty, x) ==> mem[x] == orig[x])
  }

  /** An entry is read unchanged as long as no slot lies in it. */
  lemma TableIntact(orig: Memory, mem: Memory, table: nat, k: nat, l: nat, m: nat, base: Word, ty: nat)
    requires k <= l && k < m && HasEntry(orig, table, k)
    requires Separate(orig, table, l, m, ty) && Patched(orig, mem, table, k, base, ty)
    ensures EntryAt(mem, table, k) == EntryAt(orig, table, k)
    ensures EntryAt(orig, table, k) == Rela(Field(orig, table, k, 0), Type(orig, table, k), Field(orig, table, k, 2))
  {
    EntryFields(orig, table, k);
    var off := table + 24 * k;
    forall x | off <= x < off + 24 ensures mem[x] == orig[x] {
    }
    assert mem[off..off + 8] == orig[off..off + 8];
    assert mem[off + 8..off + 16] == orig[off + 8..off + 16];
    assert mem[off + 16..off + 24] == orig[off + 16..off + 24];
  }

  /** The words of the other slots are untouched by one store. */
  lemma PatchWords(orig: Memory, mem: Memory, table: nat, k: nat, l: nat, m: nat, base: Word, ty: nat, o: nat, v: Word, j: nat)
    requires k < l && Target(orig, table, k, ty) && o == Field(orig, table, k, 0) && Slot(mem, o)
    requires v == (base + Field(orig, table, k, 2)) % U64
    requires Separate(orig, table, l, m, ty) && Patched(orig, mem, table, k, base, ty)
    requires j <= k && Target(orig, table, j, ty) && Slot(mem, Field(orig, table, j, 0))
    ensures Get(Put(mem, o, v), Field(orig, table, j, 0)) == (base + Field(orig, table, j, 2)) % U64
  {
    var other := Field(orig, table, j, 0);
    if j == k {
      PutGet(mem, o, v);
    } else {
      assert Get(mem, other) == (base + Field(orig, table, j, 2)) % U64;
      assert Clear(other, o);
      PutElsewhere(mem, o, v, other);
    }
  }

  lemma PatchOne(orig: Memory, mem: Memory, table: nat, k: nat, l: nat, m: nat, base: Word, ty: nat, o: nat, v: Word)
    requires k < l && Target(orig, table, k, ty) && o == Field(orig, table, k, 0) && Slot(orig, o)
    requires v == (base + Field(orig, table, k, 2)) % U64
    requires Separate(orig, table, l, m, ty) && Patched(orig, mem, table, k, base, ty)
    ensures Slot(mem, o) && Patched(orig, Put(mem, o, v), table, k + 1, base, ty)
  {
    var after := Put(mem, o, v);
    forall j | 0 <= j < k + 1 && Target(orig, table, j, ty) && Slot(after, Field(orig, table, j, 0))
      ensures Get(after, Field(orig, table, j, 0)) == (base + Field(orig, table, j, 2)) % U64
    {
      PatchWords(orig, mem, table, k, l, m, base, ty, o, v, j);
    }
    forall x | 0 <= x < |orig| && !Touched(orig, table, k + 1, ty, x) ensures after[x] == orig[x] {
      assert !Touched(orig, table, k, ty, x);
      assert !(o <= x < o + 8);
      PutByte(mem, o, v, x);
    }
  }

  lemma SkipOne(orig: Memory, mem: Memory, table: nat, k: nat, base: Word, ty: nat)
    requires Patched(orig, mem, table, k, base, ty) && !Target(orig, table, k, ty)
    ensures Patched(orig, mem, table, k + 1, base, ty)
  {
    forall x | 0 <= x < |orig| && !Touched(orig, table, k + 1, ty, x) ensures mem[x] == orig[x] {
      assert !Touched(orig, table, k, ty, x);
    }
  }

  lemma ApplyOne(mem: Memory, table: nat, k: nat, n: nat, base: Word, ty: nat, e: Rela, v: Word)
    requires k < n && HasEntry(mem, table, k) && |mem| < U64 && e == EntryAt(mem, table, k)
    requires ty != 0 && e.ty == ty && Slot(mem, e.offset) && v == (base + e.addend) % U64
    ensures Apply(mem, table, k, n, base, ty) == Apply(Put(mem, e.offset, v), table, k + 1, n, base, ty)
  {
  }

  lemma ApplyNone(mem: Memory, table: nat, k: nat, n: nat, base: Word, ty: nat)
    requires k < n && HasEntry(mem, table, k) && |mem| < U64
    requires EntryAt(mem, table, k).ty != 0 && EntryAt(mem, table, k).ty != ty
    ensures Apply(mem, table, k, n, base, ty) == Apply(mem, table, k + 1, n, base, ty)
  {
  }

  /** What the loop makes of an image: it has gone over the first `l` entries, and stopped for the right reason. */
  ghost predicate Outcome(orig: Memory, table: nat, l: nat, n: nat, base: Word, ty: nat, r: Run<(Memory, bool)>) {
    match r
    case Aborts(f) => f == Overflow && l < n && table + 24 * l + 24 >= U64
    case Returns((after, ok)) =>
      && Patched(orig, after, table, l, base, ty)
      && !(l < n && table + 24 * l + 24 >= U64)
      && (ok <==> l == n || Target(orig, table, l, 0))
  }

  lemma ApplyStops(orig: Memory, mem: Memory, table: nat, l: nat, n: nat, m: nat, base: Word, ty: nat)
    requires l <= n && |orig| < U64 && ty != 0 && (l < n ==> Stops(orig, table, l, ty) && l < m)
    requires Separate(orig, table, l, m, ty) && Patched(orig, mem, table, l, base, ty)
    ensures Outcome(orig, table, l, n, base, ty, Apply(mem, table, l, n, base, ty))
  {
    if l < n && HasEntry(orig, table, l) {
      TableIntact(orig, mem, table, l, l, m, base, ty);
    }
  }

  /** One entry before the stop: it is applied, or skipped. */
  lemma ApplyStep(orig: Memory, mem: Memory, table: nat, k: nat, l: nat, n: nat, m: nat, base: Word, ty: nat) returns (after: Memory)
    requires k < l <= n && k < m && |orig| < U64 && ty != 0 && !Stops(orig, table, k, ty)
    requires Separate(orig, table, l, m, ty) && Patched(orig, mem, table, k, base, ty)
    ensures Patched(orig, after, table, k + 1, base, ty)
    ensures Apply(mem, table, k, n, base, ty) == Apply(after, table, k + 1, n, base, ty)
  {
    after := mem;
    var e := EntryAt(orig, table, k);
    assert EntryAt(mem, table, k) == e == Rela(Field(orig, table, k, 0), Type(orig, table, k), Field(orig, table, k, 2)) by {
      TableIntact(orig, mem, table, k, l, m, base, ty);
    }
    if e.ty == ty {
      var v: Word := (base + e.addend) % U64;
      PatchOne(orig, mem, table, k, l, m, base, ty, e.offset, v);
      ApplyOne(mem, table, k, n, base, ty, e, v);
      after := Put(mem, e.offset, v);
    } else {
      SkipOne(orig, mem, table, k, base, ty);
      ApplyNone(mem, table, k, n, base, ty);
    }
  }

  /**
    If the slots are apart from each other and from the entries the loop reads, every relative entry
    before the one it stops at ends up as base plus addend, every other byte of the image is unchanged,
    and the table is called valid exactly if the loop got to its end or to `R_NONE`.
   */
  lemma {:induction false} ApplyExact(orig: Memory, mem: Memory, table: nat, k: nat, l: nat, n: nat, m: nat, base: Word, ty: nat)
    requires k <= l <= n && |orig| < U64 && ty != 0
    requires l == Limit(orig, table, 0, n, ty) && m == Min(l + 1, n) && Separate(orig, table, l, m, ty)
    requires Patched(orig, mem, table, k, base, ty)
    ensures Outcome(orig, table, l, n, base, ty, Apply(mem, table, k, n, base, ty))
    decreases n - k
  {
    if k == l {
      ApplyStops(orig, mem, table, l, n, m, base, ty);
    } else {
      var after := ApplyStep(orig, mem, table, k, l, n, m, base, ty);
      ApplyExact(orig, after, table, k + 1, l, n, m, base, ty);
    }
  }

  // ---- relocate_kernel ----

  /** The last `DT_RELA` and `DT_RELASZ` before the first `DT_NULL` among `n` dynamic entries at `off`. */
  function Tags(mem: Memory, off: nat, n: nat, rela: Option<nat>, relasz: Option<nat>): (Option<nat>, Option<nat>)
    requires off + 16 * n <= |mem|
    decreases n
  {
    if n == 0 || Get(mem, off) == 0 then (rela, relasz)
    else
      var tag, val := Get(mem, off), Get(mem, off + 8);
      Tags(mem, off + 16, n - 1, if tag == 7 then Some(val) else rela, if tag == 8 then Some(val) else relasz)
  }

  /** The whole of it: the image, and whether the dynamic section and the table were valid. */
  function Relocated(mem: Memory, vaddr: nat, memsz: nat, base: Word, ty: nat): Run<(Memory, bool)> {
    if memsz % 16 != 0 || vaddr + memsz >= U64 || vaddr + memsz > |mem| then Returns((mem, false))
    else
      match Tags(mem, vaddr, memsz / 16, None, None)
      case (None, None) => Returns((mem, true))
      case (Some(table), Some(len)) =>
        if len % 24 != 0 then Returns((mem, false)) else Apply(mem, table, 0, len / 24, base, ty)
      case _ => Returns((mem, false))
  }

  /**
    A kernel whose slots are separate is relocated up to where its table ends, and nothing else
    changes; whether it is called valid, or an address overflows, depends only on where that is.
   */
  lemma KernelRelocated(mem: Memory, vaddr: nat, memsz: nat, base: Word, ty: nat, table: nat, len: nat, l: nat)
    requires memsz % 16 == 0 && vaddr + memsz <= |mem| < U64 && ty != 0
    requires Tags(mem, vaddr, memsz / 16, None, None) == (Some(table), Some(len)) && len % 24 == 0
    requires l == Limit(mem, table, 0, len / 24, ty) && Separate(mem, table, l, Min(l + 1, len / 24), ty)
    ensures Outcome(mem, table, l, len / 24, base, ty, Relocated(mem, vaddr, memsz, base, ty))
  {
    var n := len / 24;
    ApplyExact(mem, mem, table, 0, l, n, Min(l + 1, n), base, ty);
  }

  /** The number of dynamic entries before the first `DT_NULL`. */
  function TagCount(mem: Memory, off: nat, n: nat): (c: nat)
    requires off + 16 * n <= |mem|
    ensures c <= n
    decreases n
  {
    if n == 0 || Get(mem, off) == 0 then 0 else 1 + TagCount(mem, off + 16, n - 1)
  }

  lemma {:induction false} TagCountMeans(mem: Memory, off: nat, n: nat, i: nat)
    requires off + 16 * n <= |mem|
    ensures var c := TagCount(mem, off, n);
            (i < c ==> TagAt(mem, off, i) != 0) && (i == c < n ==> TagAt(mem, off, i) == 0)
    decreases n
  {
    if n > 0 && Get(mem, off) != 0 && i > 0 {
      TagCountMeans(mem, off + 16, n - 1, i - 1);
    }
  }

  function TagAt(mem: Memory, off: nat, i: nat): nat
    requires off + 16 * i + 16 <= |mem|
  {
    Get(mem, off + 16 * i)
  }

  function ValueAt(mem: Memory, off: nat, i: nat): nat
    requires off + 16 * i + 16 <= |mem|
  {
    Get(mem, off + 16 * i + 8)
  }

  predicate Without(mem: Memory, off: nat, lo: nat, c: nat, tag: nat)
    requires off + 16 * c <= |mem|
  {
    forall i :: lo <= i < c ==> TagAt(mem, off, i) != tag
  }

  /** The value of the last of `c` dynamic entries that has the tag, or what was known before. */
  ghost predicate LastWith(mem: Memory, off: nat, c: nat, tag: nat, before: Option<nat>, v: Option<nat>)
    requires off + 16 * c <= |mem|
  {
    || (v == before && Without(mem, off, 0, c, tag))
    || exists i :: 0 <= i < c && TagAt(mem, off, i) == tag && v == Some(ValueAt(mem, off, i)) && Without(mem, off, i + 1, c, tag)
  }

  lemma WithoutNext(mem: Memory, off: nat, next: nat, lo: nat, c: nat, tag: nat)
    requires next == off + 16 && next + 16 * c <= |mem| && Without(mem, next, lo, c, tag)
    ensures Without(mem, off, lo + 1, c + 1, tag)
  {
    forall i | lo + 1 <= i < c + 1 ensures TagAt(mem, off, i) != tag {
      assert TagAt(mem, off, i) == TagAt(mem, next, i - 1);
    }
  }

  lemma LastWithNext(mem: Memory, off: nat, next: nat, c: nat, tag: nat, before: Option<nat>, mid: Option<nat>, v: Option<nat>)
    requires next == off + 16 && next + 16 * c <= |mem| && LastWith(mem, next, c, tag, mid, v)
    requires mid == if Get(mem, off) == tag then Some(Get(mem, off + 8)) else before
    ensures LastWith(mem, off, c + 1, tag, before, v)
  {
    assert TagAt(mem, off, 0) == Get(mem, off) && ValueAt(mem, off, 0) == Get(mem, off + 8);
    if v == mid && Without(mem, next, 0, c, tag) {
      WithoutNext(mem, off, next, 0, c, tag);
    } else {
      var i :| 0 <= i < c && TagAt(mem, next, i) == tag && v == Some(ValueAt(mem, next, i)) && Without(mem, next, i + 1, c, tag);
      WithoutNext(mem, off, next, i + 1, c, tag);
      assert TagAt(mem, off, i + 1) == tag && ValueAt(mem, off, i + 1) == ValueAt(mem, next, i);
    }
  }

  /** The table and its size are the values of the last entries with their tags before the first `DT_NULL`. */
  lemma {:induction false} TagsAreLast(mem: Memory, off: nat, n: nat, rela: Option<nat>, relasz: Option<nat>)
    requires off + 16 * n <= |mem|
    ensures var t := Tags(mem, off, n, rela, relasz);
            var c := TagCount(mem, off, n);
            LastWith(mem, off, c, 7, rela, t.0) && LastWith(mem, off, c, 8, relasz, t.1)
    decreases n
  {
    if n == 0 || Get(mem, off) == 0 {
      NoTags(mem, off, rela, relasz);
    } else {
      var tag, val, next := Get(mem, off), Get(mem, off + 8), off + 16;
      var rela', relasz' := if tag == 7 then Some(val) else rela, if tag == 8 then Some(val) else relasz;
      TagsAreLast(mem, next, n - 1, rela', relasz');
      TagsNext(mem, off, next, TagCount(mem, next, n - 1), rela, relasz, rela', relasz', Tags(mem, next, n - 1, rela', relasz'));
    }
  }

  lemma NoTags(mem: Memory, off: nat, rela: Option<nat>, relasz: Option<nat>)
    requires off <= |mem|
    ensures LastWith(mem, off, 0, 7, rela, rela) && LastWith(mem, off, 0, 8, relasz, relasz)
  {
  }

  lemma TagsNext(mem: Memory, off: nat, next: nat, c: nat, rela: Option<nat>, relasz: Option<nat>,
                 rela': Option<nat>, relasz': Option<nat>, t: (Option<nat>, Option<nat>))
    requires next == off + 16 && next + 16 * c <= |mem|
    requires rela' == if Get(mem, off) == 7 then Some(Get(mem, off + 8)) else rela
    requires relasz' == if Get(mem, off) == 8 then Some(Get(mem, off + 8)) else relasz
    requires LastWith(mem, next, c, 7, rela', t.0) && LastWith(mem, next, c, 8, relasz', t.1)
    ensures LastWith(mem, off, c + 1, 7, rela, t.0) && LastWith(mem, off, c + 1, 8, relasz, t.1)
  {
    LastWithNext(mem, off, next, c, 7, rela, rela', t.0);
    LastWithNext(mem, off, next, c, 8, relasz, relasz', t.1);
  }

  /** A word of entry `j`, in bytes from the start of the image. */
  lemma FieldsAre(mem: Memory, table: nat, j: nat)
    requires HasEntry(mem, table, j)
    ensures Field(mem, table, j, 0) == Get(mem, table + 24 * j)
    ensures Type(mem, table, j) == Get(mem, table + 24 * j + 8) % 0x1_0000_0000
    ensures Field(mem, table, j, 2) == Get(mem, table + 24 * j + 16)
  {
  }

  /**
    The same in the words of the image: an entry before the stop that has the type for relative
    addresses names, in its first word, a slot that ends up as the base plus its third word.
   */
  lemma KernelWords(mem: Memory, vaddr: nat, memsz: nat, base: Word, ty: nat, table: nat, len: nat, l: nat, after: Memory, ok: bool, j: nat)
    requires memsz % 16 == 0 && vaddr + memsz <= |mem| < U64 && ty != 0
    requires Tags(mem, vaddr, memsz / 16, None, None) == (Some(table), Some(len)) && len % 24 == 0
    requires l == Limit(mem, table, 0, len / 24, ty) && Separate(mem, table, l, Min(l + 1, len / 24), ty)
    requires Relocated(mem, vaddr, memsz, base, ty) == Returns((after, ok)) && j < l
    ensures |after| == |mem| && table + 24 * j + 24 <= |mem|
    ensures Get(mem, table + 24 * j + 8) % 0x1_0000_0000 == ty ==>
              && Slot(mem, Get(mem, table + 24 * j))
              && Get(after, Get(mem, table + 24 * j)) == (base + Get(mem, table + 24 * j + 16)) % U64
  {
    assert Patched(mem, after, table, l, base, ty) by {
      KernelRelocated(mem, vaddr, memsz, base, ty, table, len, l);
    }
    assert !Stops(mem, table, j, ty);
    PatchedWord(mem, after, table, l, base, ty, j);
  }

  lemma PatchedWord(orig: Memory, after: Memory, table: nat, l: nat, base: Word, ty: nat, j: nat)
    requires Patched(orig, after, table, l, base, ty) && j < l && !Stops(orig, table, j, ty)
    ensures |after| == |orig| && table + 24 * j + 24 <= |orig|
    ensures Get(orig, table + 24 * j + 8) % 0x1_0000_0000 == ty ==>
              && Slot(orig, Get(orig, table + 24 * j))
              && Get(after, Get(orig, table + 24 * j)) == (base + Get(orig, table + 24 * j + 16)) % U64
  {
    FieldsAre(orig, table, j);
    assert Type(orig, table, j) == ty ==> Target(orig, table, j, ty);
  }

  /**
    When nothing is relocated: a dynamic section of no whole entries or outside the image is invalid,
    and so is one with only one of the two tags or a table of no whole entries; without both tags
    there is nothing to do.
   */
  lemma KernelUntouched(mem: Memory, vaddr: nat, memsz: nat, base: Word, ty: nat)
    ensures var r := Relocated(mem, vaddr, memsz, base, ty);
            if memsz % 16 != 0 || vaddr + memsz >= U64 || vaddr + memsz > |mem| then r == Returns((mem, false))
            else
              var c := TagCount(mem, vaddr, memsz / 16);
              && (Without(mem, vaddr, 0, c, 7) && Without(mem, vaddr, 0, c, 8) ==> r == Returns((mem, true)))
              && (Without(mem, vaddr, 0, c, 7) != Without(mem, vaddr, 0, c, 8) ==> r == Returns((mem, false)))
              && (forall i :: 0 <= i < c && TagAt(mem, vaddr, i) == 8 && Without(mem, vaddr, i + 1, c, 8) && ValueAt(mem, vaddr, i) % 24 != 0 ==>
                    r == Returns((mem, false)))
  {
    if memsz % 16 == 0 && vaddr + memsz < U64 && vaddr + memsz <= |mem| {
      TagsAreLast(mem, vaddr, memsz / 16, None, None);
    }
  }

  /** The loop over the dynamic entries. */
  method FindTags(mem: array<nat>, vaddr: nat, memsz: nat) returns (rela: Option<nat>, relasz: Option<nat>)
    requires memsz % 16 == 0 && vaddr + memsz <= mem.Length
    ensures (rela, relasz) == Tags(mem[..], vaddr, memsz / 16, None, None)
  {
    rela, relasz := None, None;
    var off: nat, n: nat := vaddr, memsz / 16;
    while n > 0
      invariant 0 <= n && off + 16 * n <= mem.Length
      invariant Tags(mem[..], vaddr, memsz / 16, None, None) == Tags(mem[..], off, n, rela, relasz)
    {
      var tag, val := Get(mem[..], off), Get(mem[..], off + 8);
      if tag == 0 {
        return;
      }
      if tag == 7 {
        rela := Some(val);
      } else if tag == 8 {
        relasz := Some(val);
      }
      off, n := off + 16, n - 1;
    }
  }

  /** One entry of the table: the loop's result if it stops there. */
  method ApplyEntry(mem: array<nat>, table: nat, k: nat, ghost n: nat, base: Word, ty: nat) returns (stop: Option<Run<bool>>)
    requires k < n
    modifies mem
    ensures match stop
            case None => Apply(old(mem[..]), table, k, n, base, ty) == Apply(mem[..], table, k + 1, n, base, ty)
            case Some(r) => Apply(old(mem[..]), table, k, n, base, ty) == Ended(mem[..], r)
  {
    var off := table + 24 * k;
    if off + 24 >= U64 {
      return Some(Aborts(Overflow));
    }
    if off + 24 > mem.Length {
      return Some(Returns(false));
    }
    var e := EntryAt(mem[..], table, k);
    if e.ty == 0 {
      return Some(Returns(true));
    }
    if e.ty == ty {
      if e.offset + 8 >= U64 || e.offset + 8 > mem.Length {
        return Some(Returns(false));
      }
      Write(mem, e.offset, (base + e.addend) % U64);
    }
    return None;
  }

  /** The end of a relocation: the image as it is by then, unless the run aborts. */
  function Ended(mem: Memory, r: Run<bool>): Run<(Memory, bool)> {
    match r
    case Returns(ok) => Returns((mem, ok))
    case Aborts(f) => Aborts(f)
  }

  /** The loop over the table, reading each entry from the image as it is by then. */
  method ApplyAll(mem: array<nat>, table: nat, n: nat, base: Word, ty: nat) returns (r: Run<bool>)
    modifies mem
    ensures Apply(old(mem[..]), table, 0, n, base, ty) == Ended(mem[..], r)
  {
    var k := 0;
    while k < n
      invariant 0 <= k <= n
      invariant Apply(old(mem[..]), table, 0, n, base, ty) == Apply(mem[..], table, k, n, base, ty)
    {
      var stop := ApplyEntry(mem, table, k, n, base, ty);
      if stop.Some? {
        return stop.value;
      }
      k := k + 1;
    }
    return Returns(true);
  }

  method RelocateKernel(mem: array<nat>, vaddr: nat, memsz: nat, base: Word, ty: nat) returns (r: Run<bool>)
    modifies mem
    ensures Relocated(old(mem[..]), vaddr, memsz, base, ty) == Ended(mem[..], r)
  {
    if memsz % 16 != 0 || vaddr + memsz >= U64 || vaddr + memsz > mem.Length {
      return Returns(false);
    }
    var rela, relasz := FindTags(mem, vaddr, memsz);
    if rela.None? && relasz.None? {
      return Returns(true);
    }
    if rela.None? || relasz.None? || relasz.value % 24 != 0 {
      return Returns(false);
    }
    r := ApplyAll(mem, rela.value, relasz.value / 24, base, ty);
  }
}
