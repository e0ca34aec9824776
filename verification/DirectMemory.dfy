/**
  The direct-memory reservations made at boot, as a state machine over the physical map and the
  blocks that are still reserved, and `Dmem::new` as one run of it.
 */
module DirectMemory {
  import opened Machine
  import opened Ranges
  import opened PhysMap

  // ---- Runs of reservations and give-backs ----

  /** `GiveBack` names the held block the range comes from. */
  datatype Op = Take(size: nat, align: nat) | GiveBack(start: nat, end: nat, block: nat)

  /** The free map and the blocks handed out and not given back. */
  datatype State = State(free: seq<Range>, held: seq<Range>)

  predicate Inside(held: seq<Range>, b: nat, lo: nat, hi: nat) {
    b < |held| && held[b].start <= lo < hi <= held[b].end
  }

  /** One step: `reserve_phys` returning a non-zero address, or `adjust_pmap` on part of a block. */
  function Step(s: State, op: Op): Option<State> {
    match op
    case Take(size, align) =>
      if size == 0 || align == 0 then None
      else
        var r := Reserve(s.free, size, align);
        if r.Aborts? || r.value.0 == 0 then None
        else Some(State(r.value.1, s.held + [Range(r.value.0, r.value.0 + size)]))
    case GiveBack(lo, hi, b) =>
      if !Inside(s.held, b, lo, hi) || s.free == [] then None
      else
        var r := Adjust(s.free, lo, hi);
        if r.Aborts? then None else Some(State(r.value, Carve(s.held, b, lo, hi)))
  }

  /** A run of steps. */
  function Exec(s: State, ops: seq<Op>): Option<State> {
    if ops == [] then Some(s)
    else
      var m := Exec(s, ops[..|ops| - 1]);
      if m.None? then None else Step(m.value, ops[|ops| - 1])
  }

  lemma ExecStep(s: State, ops: seq<Op>, op: Op, m: State)
    requires Exec(s, ops) == Some(m)
    ensures Exec(s, ops + [op]) == Step(m, op)
  {
    assert (ops + [op])[..|ops|] == ops;
  }

  /** A run that cannot take a step cannot go further either. */
  lemma {:induction false} Stuck(s: State, ops: seq<Op>, more: seq<Op>)
    requires Exec(s, ops).None?
    ensures Exec(s, ops + more).None?
  {
    if more == [] {
      assert ops + more == ops;
    } else {
      var n := |more| - 1;
      Stuck(s, ops, more[..n]);
      assert (ops + more)[..|ops| + n] == ops + more[..n];
    }
  }

  /** Every address of `all` is in exactly one of `a` and `b`. */
  ghost predicate Partition(all: seq<Range>, a: seq<Range>, b: seq<Range>) {
    && (forall x :: !(Has(a, x) && Has(b, x)))
    && (forall x :: Has(all, x) <==> Has(a, x) || Has(b, x))
  }

  /** What every step keeps, for the RAM the run started from. */
  ghost predicate Conserved(ram: seq<Range>, s: State) {
    && Sorted(s.free) && Apart(s.held) && Solid(s.held)
    && Partition(ram, s.free, s.held)
    && Bytes(s.free) + Bytes(s.held) == Bytes(ram)
  }

  /** The map starts with an entry at address 0, and with no other. */
  predicate Grounded(rs: seq<Range>) {
    rs != [] && rs[0].start == 0 && forall k :: 0 < k < |rs| ==> rs[k].start > 0
  }

  /** A successful reservation takes the scan's block out of its entry. */
  lemma TakeFound(s: State, size: nat, align: nat, t: State) returns (k: nat, a: nat)
    requires Sorted(s.free) && Step(s, Op.Take(size, align)) == Some(t)
    ensures k < |s.free| && s.free[k].start <= a && a + size <= s.free[k].end
    ensures a != 0
    ensures t == State(Carve(s.free, k, a, a + size), s.held + [Range(a, a + size)])
  {
    var n := |s.free|;
    ScanExact(s.free, n, size, align);
    assert s.free[..n] == s.free;
    var f := ScanDown(s.free, n, size, align);
    k, a := f.k, f.addr;
  }

  lemma TakeConserves(ram: seq<Range>, s: State, size: nat, align: nat, t: State)
    requires Conserved(ram, s) && Step(s, Op.Take(size, align)) == Some(t)
    ensures Conserved(ram, t)
  {
    var k, a := TakeFound(s, size, align, t);
    CutConserves(ram, s, k, Range(a, a + size), t);
  }

  lemma CutConserves(ram: seq<Range>, s: State, k: nat, b: Range, t: State)
    requires Conserved(ram, s) && k < |s.free|
    requires s.free[k].start <= b.start < b.end <= s.free[k].end
    requires t == State(Carve(s.free, k, b.start, b.end), s.held + [b])
    ensures Conserved(ram, t)
  {
    assert Sorted(t.free) && Bytes(t.free) == Bytes(s.free) - (b.end - b.start) by {
      CarveSorted(s.free, k, b.start, b.end);
      CarveBytes(s.free, k, b.start, b.end);
    }
    assert Bytes(t.held) == Bytes(s.held) + (b.end - b.start) by {
      BytesConcat(s.held, [b]);
      BytesOne(b);
    }
    assert Apart(t.held) && Solid(t.held) && Partition(ram, t.free, t.held) by {
      CarveRemoves(s.free, k, b.start, b.end);
      HeldGrows(s.held, b, s.free);
      PartitionMoves(ram, s, t, b.start, b.end);
    }
  }

  lemma PartitionMoves(all: seq<Range>, s: State, t: State, lo: nat, hi: nat)
    requires Partition(all, s.free, s.held)
    requires forall x :: lo <= x < hi ==> Has(s.free, x)
    requires forall x :: Has(t.free, x) <==> Has(s.free, x) && !(lo <= x < hi)
    requires forall x :: Has(t.held, x) <==> Has(s.held, x) || lo <= x < hi
    ensures Partition(all, t.free, t.held)
  {
  }

  /** A block cut out of the free map is clear of everything already held. */
  lemma HeldGrows(held: seq<Range>, b: Range, free: seq<Range>)
    requires Apart(held) && Solid(held) && b.start < b.end
    requires forall x :: !(Has(free, x) && Has(held, x))
    requires forall x :: b.start <= x < b.end ==> Has(free, x)
    ensures Apart(held + [b]) && Solid(held + [b])
    ensures forall x :: Has(held + [b], x) <==> Has(held, x) || b.start <= x < b.end
  {
    var h := held + [b];
    forall i, j | 0 <= i < j < |h| ensures Clear(h[i], h[j]) {
      if j < |held| {
        assert Clear(held[i], held[j]);
      } else if !Clear(h[i], b) {
        var x := if held[i].start < b.start then b.start else held[i].start;
        assert Has(free, x);
        assert Holds(held[i], x);
      }
    }
    forall x ensures Has(h, x) <==> Has(held, x) || b.start <= x < b.end {
      HasConcat(held, [b], x);
      assert Holds([b][0], x) <==> b.start <= x < b.end;
    }
  }

  /** As long as no block starts at 0, the lowest entry keeps starting there. */
  lemma CarveKeepsBottom(rs: seq<Range>, k: nat, lo: nat, hi: nat)
    requires Sorted(rs) && k < |rs| && rs[k].start <= lo < hi <= rs[k].end && lo != 0
    requires Grounded(rs)
    ensures Grounded(Carve(rs, k, lo, hi))
  {
    var c := Carve(rs, k, lo, hi);
    assert k == 0 ==> |Pieces(rs[0], lo, hi)| >= 1 && Pieces(rs[0], lo, hi)[0] == Range(0, lo);
    forall j | 0 < j < |c| ensures c[j].start > 0 {
      var o := CarveOrigin(rs, k, lo, hi, j);
    }
    var o := CarveOrigin(rs, k, lo, hi, 0);
  }

  lemma GiveBackConserves(ram: seq<Range>, s: State, lo: nat, hi: nat, b: nat, t: State)
    requires Conserved(ram, s) && Step(s, GiveBack(lo, hi, b)) == Some(t)
    ensures Conserved(ram, t)
    ensures Added(s.free, t.free, lo, hi)
  {
    forall x | lo <= x < hi ensures Has(s.held, x) && !Has(s.free, x) {
      assert Holds(s.held[b], x);
    }
    AdjustAdds(s.free, lo, hi);
    CarveApart(s.held, b, lo, hi);
    forall k | 0 <= k < |t.held| ensures t.held[k].start < t.held[k].end {
      var o := CarveOrigin(s.held, b, lo, hi, k);
    }
    CarveBytes(s.held, b, lo, hi);
    forall x ensures Has(t.held, x) <==> Has(s.held, x) && !(lo <= x < hi) {
      CarveHas(s.held, b, lo, hi, x);
    }
  }

  lemma AdjustKeepsBottom(rs: seq<Range>, lo: nat, hi: nat)
    requires Grounded(rs) && Adjust(rs, lo, hi).Returns?
    ensures Grounded(Adjust(rs, lo, hi).value)
  {
  }

  /**
    Over any run, free and still-held addresses partition the original RAM, byte for byte; the map
    stays sorted and held blocks stay pairwise disjoint.
   */
  lemma {:induction false} RunConserves(ram: seq<Range>, s: State, ops: seq<Op>, t: State)
    requires Conserved(ram, s) && Exec(s, ops) == Some(t)
    ensures Conserved(ram, t)
  {
    if ops != [] {
      var m := Exec(s, ops[..|ops| - 1]).value;
      RunConserves(ram, s, ops[..|ops| - 1], m);
      match ops[|ops| - 1]
      case Take(size, align) => TakeConserves(ram, m, size, align, t);
      case GiveBack(lo, hi, b) => GiveBackConserves(ram, m, lo, hi, b, t);
    }
  }

  /** A map that starts with an entry at address 0 keeps doing so over any run. */
  lemma {:induction false} RunGrounded(ram: seq<Range>, s: State, ops: seq<Op>, t: State)
    requires Conserved(ram, s) && Grounded(s.free) && Exec(s, ops) == Some(t)
    ensures Grounded(t.free)
  {
    if ops != [] {
      var m := Exec(s, ops[..|ops| - 1]).value;
      RunConserves(ram, s, ops[..|ops| - 1], m);
      RunGrounded(ram, s, ops[..|ops| - 1], m);
      StepGrounded(m, ops[|ops| - 1], t);
    }
  }

  lemma StepGrounded(s: State, op: Op, t: State)
    requires Sorted(s.free) && Grounded(s.free) && Step(s, op) == Some(t)
    ensures Grounded(t.free)
  {
    match op
    case Take(size, align) => TakeGrounded(s, size, align, t);
    case GiveBack(lo, hi, b) => AdjustKeepsBottom(s.free, lo, hi);
  }

  lemma TakeGrounded(s: State, size: nat, align: nat, t: State)
    requires Sorted(s.free) && Grounded(s.free) && size > 0 && Step(s, Op.Take(size, align)) == Some(t)
    ensures Grounded(t.free)
  {
    var k, a := TakeFound(s, size, align, t);
    CarveKeepsBottom(s.free, k, a, a + size);
  }

  // ---- Dmem::new ----

  datatype DmemConfig = DmemConfig(
    gameSize: nat, fmemMax: nat, miniSize: nat, miniShared: bool, vshSize: nat, unk1: nat)

  /** The bounds the types put on a configuration, and the window it returns lies in the game block. */
  predicate Sized(dc: DmemConfig) {
    && 0 < dc.fmemMax <= dc.gameSize < U64
    && 0 < dc.vshSize < U64
    && dc.miniSize < U64
    && dc.unk1 < U64
  }

  /** Whether bit `mode` of a mask is set. */
  predicate Bit(mask: nat, mode: nat) {
    if mode == 0 then mask % 2 == 1 else Bit(mask / 2, mode - 1)
  }

  /** The bytes a run reserves, less the bytes it gives back. */
  function Net(ops: seq<Op>): int {
    if ops == [] then 0
    else
      Net(ops[..|ops| - 1]) +
      match ops[|ops| - 1]
      case Take(size, _) => size
      case GiveBack(lo, hi, _) => lo - hi
  }

  /** The pieces in which the loop of `Dmem::new` reserves `unk` bytes. */
  function UnkPlan(unk: nat): seq<Op>
    requires unk > 0
  {
    if unk < 0x200000 then [Op.Take(unk, 0x4000)]
    else if unk == 0x200000 then [Op.Take(0x200000, 0x200000)]
    else [Op.Take(0x200000, 0x200000)] + UnkPlan(unk - 0x200000)
  }

  /** The reservations of `Dmem::new`, in order. */
  function TakePlan(mode: nat, dc: DmemConfig): seq<Op> {
    [Op.Take(0x1000000, 1), Op.Take(dc.gameSize, 0x8000000)] +
    (if Bit(0x7F393F3B, mode) then [Op.Take(dc.vshSize, 0x200000)] else []) +
    [Op.Take(0x1000000, 0x200000)] +
    (if !Bit(0x80C6C0C4 + 0x20212022, mode) && dc.unk1 > 0 then UnkPlan(dc.unk1) else [])
  }

  /** All the steps of `Dmem::new`; blocks 0 and 1 are the high block and the game block. */
  function Plan(mode: nat, dc: DmemConfig, unk: nat, haddr: nat, gameEnd: nat): seq<Op>
    requires dc.fmemMax <= gameEnd
  {
    TakePlan(mode, dc) +
    [GiveBack(gameEnd - dc.fmemMax, gameEnd, 1)] +
    [GiveBack(haddr, haddr + 0xC00000 + (if unk != 0 then 0x400000 else 0), 0)]
  }

  lemma {:induction false} NetConcat(a: seq<Op>, b: seq<Op>)
    ensures Net(a + b) == Net(a) + Net(b)
  {
    if b == [] {
      assert a + b == a;
    } else {
      NetConcat(a, b[..|b| - 1]);
      assert (a + b)[..|a + b| - 1] == a + b[..|b| - 1];
    }
  }

  lemma NetTake(size: nat, align: nat)
    ensures Net([Op.Take(size, align)]) == size
  {
    assert [Op.Take(size, align)][..0] == [];
  }

  lemma NetGiveBack(lo: nat, hi: nat, b: nat)
    ensures Net([GiveBack(lo, hi, b)]) == lo - hi
  {
    assert [GiveBack(lo, hi, b)][..0] == [];
  }

  /** The loop reserves exactly the bytes it was asked for. */
  lemma {:induction false} UnkPlanNet(unk: nat)
    requires unk > 0
    ensures Net(UnkPlan(unk)) == unk
  {
    NetTake(unk, 0x4000);
    NetTake(0x200000, 0x200000);
    if unk > 0x200000 {
      UnkPlanNet(unk - 0x200000);
      NetConcat([Op.Take(0x200000, 0x200000)], UnkPlan(unk - 0x200000));
    }
  }

  /** What is held at the end of a run is what was held before it, plus its net reservations. */
  lemma {:induction false} RunHolds(ram: seq<Range>, s: State, ops: seq<Op>, t: State)
    requires Conserved(ram, s) && Exec(s, ops) == Some(t)
    ensures Bytes(t.held) == Bytes(s.held) + Net(ops)
    ensures Bytes(t.free) == Bytes(s.free) - Net(ops)
  {
    RunConserves(ram, s, ops, t);
    if ops != [] {
      var m := Exec(s, ops[..|ops| - 1]).value;
      RunHolds(ram, s, ops[..|ops| - 1], m);
      match ops[|ops| - 1]
      case Take(size, align) =>
        var k, a := TakeFound(m, size, align, t) by {
          RunConserves(ram, s, ops[..|ops| - 1], m);
        }
        BytesConcat(m.held, [Range(a, a + size)]);
        BytesOne(Range(a, a + size));
      case GiveBack(lo, hi, b) =>
        CarveBytes(m.held, b, lo, hi);
    }
  }

  /** The loop moves exactly `unk1` bytes from the free map to the held blocks, whatever has been done before it. */
  lemma UnkHolds(ram: seq<Range>, s: State, ops: seq<Op>, unk1: nat, m: State, t: State)
    requires Conserved(ram, s) && unk1 > 0
    requires Exec(s, ops) == Some(m) && Exec(s, ops + UnkPlan(unk1)) == Some(t)
    ensures Bytes(t.held) == Bytes(m.held) + unk1 && Bytes(t.free) == Bytes(m.free) - unk1
  {
    RunHolds(ram, s, ops, m);
    RunHolds(ram, s, ops + UnkPlan(unk1), t);
    NetConcat(ops, UnkPlan(unk1));
    UnkPlanNet(unk1);
  }

  /** The bytes `Dmem::new` leaves reserved: its blocks, less what it gives back. */
  function LeftHeld(mode: nat, dc: DmemConfig, unk: nat): int {
    0x2000000 + dc.gameSize +
    (if Bit(0x7F393F3B, mode) then dc.vshSize else 0) +
    (if Bit(0x80C6C0C4 + 0x20212022, mode) then 0 else dc.unk1) -
    dc.fmemMax - 0xC00000 - (if unk != 0 then 0x400000 else 0)
  }

  lemma PlanNet(mode: nat, dc: DmemConfig, unk: nat, haddr: nat, gameEnd: nat)
    requires dc.fmemMax <= gameEnd
    ensures Net(Plan(mode, dc, unk, haddr, gameEnd)) == LeftHeld(mode, dc, unk)
  {
    var first := [Op.Take(0x1000000, 1), Op.Take(dc.gameSize, 0x8000000)];
    var vsh := if Bit(0x7F393F3B, mode) then [Op.Take(dc.vshSize, 0x200000)] else [];
    var vision := [Op.Take(0x1000000, 0x200000)];
    var rest := if !Bit(0x80C6C0C4 + 0x20212022, mode) && dc.unk1 > 0 then UnkPlan(dc.unk1) else [];
    var hend := haddr + 0xC00000 + (if unk != 0 then 0x400000 else 0);
    assert first == [Op.Take(0x1000000, 1)] + [Op.Take(dc.gameSize, 0x8000000)];
    NetConcat([Op.Take(0x1000000, 1)], [Op.Take(dc.gameSize, 0x8000000)]);
    NetTake(0x1000000, 1);
    NetTake(dc.gameSize, 0x8000000);
    NetConcat(first, vsh);
    NetTake(dc.vshSize, 0x200000);
    NetConcat(first + vsh, vision);
    NetTake(0x1000000, 0x200000);
    NetConcat(first + vsh + vision, rest);
    if rest != [] {
      UnkPlanNet(dc.unk1);
    }
    var give := [GiveBack(gameEnd - dc.fmemMax, gameEnd, 1)];
    NetConcat(TakePlan(mode, dc), give);
    NetGiveBack(gameEnd - dc.fmemMax, gameEnd, 1);
    NetConcat(TakePlan(mode, dc) + give, [GiveBack(haddr, hend, 0)]);
    NetGiveBack(haddr, hend, 0);
  }

  /** The range a run gives back last is free when it ends, and so is whatever was free before. */
  lemma GiveBackFrees(ram: seq<Range>, s: State, ops: seq<Op>, lo: nat, hi: nat, b: nat, t: State)
    requires Conserved(ram, s) && Exec(s, ops + [GiveBack(lo, hi, b)]) == Some(t)
    ensures var m := Exec(s, ops);
            m.Some? && forall x :: Has(t.free, x) <==> Has(m.value.free, x) || lo <= x < hi
  {
    var all := ops + [GiveBack(lo, hi, b)];
    assert all[..|all| - 1] == ops;
    var m := Exec(s, ops).value;
    RunConserves(ram, s, ops, m);
    GiveBackConserves(ram, m, lo, hi, b, t);
  }

  /** A range given back stays free when another one is given back after it. */
  lemma GivenStaysFree(ram: seq<Range>, s: State, take: seq<Op>, lo: nat, hi: nat, haddr: nat, hend: nat, t: State)
    requires Conserved(ram, s)
    requires Exec(s, take + [GiveBack(lo, hi, 1)] + [GiveBack(haddr, hend, 0)]) == Some(t)
    ensures forall x :: lo <= x < hi ==> Has(t.free, x) && Has(ram, x)
  {
    var ops := take + [GiveBack(lo, hi, 1)];
    GiveBackFrees(ram, s, ops, haddr, hend, 0, t);
    GiveBackFrees(ram, s, take, lo, hi, 1, Exec(s, ops).value);
    RunConserves(ram, s, ops + [GiveBack(haddr, hend, 0)], t);
  }

  /** After `Dmem::new` the flexible-memory window at the end of the game block is free. */
  lemma WindowIsFree(ram: seq<Range>, s: State, mode: nat, dc: DmemConfig, unk: nat, haddr: nat, gameEnd: nat, t: State)
    requires dc.fmemMax <= gameEnd
    requires Conserved(ram, s) && Exec(s, Plan(mode, dc, unk, haddr, gameEnd)) == Some(t)
    ensures forall x :: gameEnd - dc.fmemMax <= x < gameEnd ==> Has(t.free, x) && Has(ram, x)
  {
    var hend := haddr + 0xC00000 + (if unk != 0 then 0x400000 else 0);
    GivenStaysFree(ram, s, TakePlan(mode, dc), gameEnd - dc.fmemMax, gameEnd, haddr, hend, t);
  }

  /** And so is the start of the high block, as far as it is given back. */
  lemma HighIsFree(ram: seq<Range>, s: State, mode: nat, dc: DmemConfig, unk: nat, haddr: nat, gameEnd: nat, t: State)
    requires dc.fmemMax <= gameEnd
    requires Conserved(ram, s) && Exec(s, Plan(mode, dc, unk, haddr, gameEnd)) == Some(t)
    ensures forall x :: haddr <= x < haddr + (if unk == 0 then 0xC00000 else 0x1000000) ==> Has(t.free, x)
  {
    var ops := TakePlan(mode, dc) + [GiveBack(gameEnd - dc.fmemMax, gameEnd, 1)];
    GiveBackFrees(ram, s, ops, haddr, haddr + 0xC00000 + (if unk != 0 then 0x400000 else 0), 0, t);
  }

  // ---- Where the blocks are taken ----

  lemma StartConserved(free: seq<Range>)
    requires Sorted(free)
    ensures Conserved(free, State(free, []))
  {
  }

  /** A reservation takes the greatest block of its size and alignment. */
  lemma TakeGreatest(ram: seq<Range>, s: State, size: nat, align: nat, t: State) returns (a: nat)
    requires Conserved(ram, s) && Step(s, Op.Take(size, align)) == Some(t)
    ensures size > 0 && align > 0 && t.held == s.held + [Range(a, a + size)] && Greatest(s.free, a, size, align)
  {
    a := Reserve(s.free, size, align).value.0;
    if NoFit(s.free, size, align) {
      ReserveFindsNothing(s.free, size, align);
    } else {
      var b: nat :| Fits(s.free, b, size, align);
      ReserveTakesGreatest(s.free, size, align, b, a, t.free);
    }
  }

  /** Block `i` of a run of reservations is the greatest of its size and alignment when its turn comes. */
  ghost predicate Placed(free: seq<Range>, ops: seq<Op>, i: nat, size: nat, align: nat, r: Range)
    requires i <= |ops|
  {
    && Exec(State(free, []), ops[..i]).Some?
    && align > 0 && r.end == r.start + size
    && Greatest(Exec(State(free, []), ops[..i]).value.free, r.start, size, align)
  }

  predicate Takings(ops: seq<Op>) {
    forall i :: 0 <= i < |ops| ==> ops[i].Take?
  }

  lemma {:induction false} RunPlaces(free: seq<Range>, ops: seq<Op>, n: nat, t: State)
    requires Sorted(free) && Takings(ops) && n <= |ops| && Exec(State(free, []), ops[..n]) == Some(t)
    ensures Conserved(free, t) && |t.held| == n
    ensures forall i :: 0 <= i < n ==> Placed(free, ops, i, ops[i].size, ops[i].align, t.held[i])
    decreases n
  {
    var s := State(free, []);
    if n == 0 {
      StartConserved(free);
    } else {
      var op := ops[n - 1];
      assert ops[..n][..n - 1] == ops[..n - 1] && ops[..n][n - 1] == op;
      var m := Exec(s, ops[..n - 1]).value;
      RunPlaces(free, ops, n - 1, m);
      var a := TakeGreatest(free, m, op.size, op.align, t);
      TakeConserves(free, m, op.size, op.align, t);
      assert Placed(free, ops, n - 1, op.size, op.align, t.held[n - 1]);
      forall i | 0 <= i < n ensures Placed(free, ops, i, ops[i].size, ops[i].align, t.held[i]) {
        assert i < n - 1 ==> t.held[i] == m.held[i];
      }
    }
  }

  /** The pieces of the last reservation: 2 MB each, and what is left at the end. */
  lemma {:induction false} UnkPieces(unk: nat, i: nat)
    requires unk > 0
    ensures |UnkPlan(unk)| == (unk + 0x1FFFFF) / 0x200000
    ensures i < |UnkPlan(unk)| ==>
              UnkPlan(unk)[i] == (if unk - 0x200000 * i < 0x200000 then Op.Take(unk - 0x200000 * i, 0x4000) else Op.Take(0x200000, 0x200000))
  {
    if unk > 0x200000 {
      UnkPieces(unk - 0x200000, if i > 0 then i - 1 else 0);
    }
  }

  /** The step of block `i` of a plan whose vision block is number `v`. */
  function BlockStep(dc: DmemConfig, v: nat, i: nat): Op {
    if i == 0 then Op.Take(0x1000000, 1)
    else if i == 1 then Op.Take(dc.gameSize, 0x8000000)
    else if i < v then Op.Take(dc.vshSize, 0x200000)
    else if i == v then Op.Take(0x1000000, 0x200000)
    else
      var left := dc.unk1 - 0x200000 * (i - v - 1);
      if left < 0x200000 then Op.Take(if left < 0 then 0 else left, 0x4000) else Op.Take(0x200000, 0x200000)
  }

  lemma PlanStep(mode: nat, dc: DmemConfig, ops: seq<Op>, v: nat, i: nat)
    requires ops == TakePlan(mode, dc) && v == (if Bit(0x7F393F3B, mode) then 3 else 2)
    ensures |ops| == v + 1 + (if Bit(0x80C6C0C4 + 0x20212022, mode) then 0 else (dc.unk1 + 0x1FFFFF) / 0x200000)
    ensures i < |ops| ==> ops[i] == BlockStep(dc, v, i)
  {
    if dc.unk1 > 0 {
      UnkPieces(dc.unk1, if i > v then i - v - 1 else 0);
    }
  }

  lemma RunPlacesAt(free: seq<Range>, dc: DmemConfig, ops: seq<Op>, v: nat, t: State, i: nat)
    requires Sorted(free) && Exec(State(free, []), ops) == Some(t)
    requires i < |ops| && forall k :: 0 <= k < |ops| ==> ops[k] == BlockStep(dc, v, k)
    ensures |t.held| == |ops| && Placed(free, ops, i, BlockStep(dc, v, i).size, BlockStep(dc, v, i).align, t.held[i])
  {
    assert ops[..|ops|] == ops;
    RunPlaces(free, ops, |ops|, t);
  }

  /**
    Where `Dmem::new` puts its blocks, in the order in which they are taken: each is the greatest of
    its size and alignment in what is free by then. First come the high block and the game block, then
    the shell block in the modes that have one, the vision block, and the pieces of the last amount.
   */
  lemma PlanPlaces(free: seq<Range>, mode: nat, dc: DmemConfig, ops: seq<Op>, v: nat, t: State, i: nat)
    requires Sorted(free) && ops == TakePlan(mode, dc) && Exec(State(free, []), ops) == Some(t)
    requires v == (if Bit(0x7F393F3B, mode) then 3 else 2) && i < |ops|
    ensures |t.held| == |ops| == v + 1 + (if Bit(0x80C6C0C4 + 0x20212022, mode) then 0 else (dc.unk1 + 0x1FFFFF) / 0x200000)
    ensures Placed(free, ops, i, BlockStep(dc, v, i).size, BlockStep(dc, v, i).align, t.held[i])
  {
    forall k | 0 <= k < |ops| ensures ops[k] == BlockStep(dc, v, k) {
      PlanStep(mode, dc, ops, v, k);
    }
    PlanStep(mode, dc, ops, v, i);
    RunPlacesAt(free, dc, ops, v, t, i);
  }

  /** The high block ends where the map ends, if the last entry is long enough. */
  lemma HighEndsMap(free: seq<Range>, haddr: nat)
    requires Sorted(free) && free != [] && free[|free| - 1].end - free[|free| - 1].start >= 0x1000000
    requires Greatest(free, haddr, 0x1000000, 1)
    ensures haddr + 0x1000000 == free[|free| - 1].end
  {
    var n := |free| - 1;
    var top := free[n].end - 0x1000000;
    assert Fits(free, top, 0x1000000, 1);
    var k :| 0 <= k < |free| && free[k].start <= haddr && haddr + 0x1000000 <= free[k].end;
    SortedGrows(free, k, n);
  }

  /** The alignments the callers of `reserve_phys` use. */
  predicate Alignment(a: nat) {
    a == 1 || a == 0x4000 || a == 0x200000 || a == 0x8000000
  }

  /** The run `ops` from `s` ends in the map of `mi` with `held` still reserved. */
  ghost predicate Ran(mi: MemoryInfo, s: State, ops: seq<Op>, held: seq<Range>)
    reads mi`last, mi.physmap
  {
    mi.Valid() && Exec(s, ops) == Some(State(mi.Map(), held))
  }

  /** `reserve_phys` and the check its callers make on the address. */
  method TakeStep(mi: MemoryInfo, size: nat, align: nat,
                  ghost s: State, ghost ops: seq<Op>, ghost held: seq<Range>, ghost ops': seq<Op>)
    returns (r: Run<nat>, ghost held': seq<Range>)
    requires 0 < size < U64 && Alignment(align)
    requires Ran(mi, s, ops, held) && ops' == ops + [Op.Take(size, align)]
    modifies mi`last, mi.physmap
    ensures r.Returns? ==>
              && Ran(mi, s, ops', held') && held' == held + [Range(r.value, r.value + size)]
              && r.value + size < U64
    ensures r.Aborts? ==> Exec(s, ops').None?
  {
    AlignmentIsPow2(align);
    ghost var m := State(mi.Map(), held);
    r := mi.ReservePhys(size, align);
    if r.Aborts? || r.value == 0 {
      TakeFails(s, ops, ops', size, align, m);
      return Aborts(if r.Aborts? then r.fault else Panic), held;
    }
    ghost var block := Range(r.value, r.value + size);
    held' := held + [block];
    TakeSucceeds(s, ops, ops', size, align, m, block, State(mi.Map(), held'));
  }

  lemma AlignmentIsPow2(align: nat)
    requires Alignment(align)
    ensures 0 < align <= U64 && IsPow2(align)
  {
    BlockSizesArePow2();
  }

  lemma TakeSucceeds(s: State, ops: seq<Op>, ops': seq<Op>, size: nat, align: nat, m: State, block: Range, t: State)
    requires Exec(s, ops) == Some(m) && ops' == ops + [Op.Take(size, align)] && size > 0 && align > 0
    requires block.start != 0 && block.end == block.start + size && t.held == m.held + [block]
    requires Reserve(m.free, size, align) == Returns((block.start, t.free))
    ensures Exec(s, ops') == Some(t)
  {
    ExecStep(s, ops, Op.Take(size, align), m);
  }

  lemma TakeFails(s: State, ops: seq<Op>, ops': seq<Op>, size: nat, align: nat, m: State)
    requires Exec(s, ops) == Some(m) && ops' == ops + [Op.Take(size, align)] && align > 0
    requires Reserve(m.free, size, align).Returns? ==> Reserve(m.free, size, align).value.0 == 0
    ensures Exec(s, ops').None?
  {
    ExecStep(s, ops, Op.Take(size, align), m);
  }

  /** `adjust_pmap` on part of held block `b`. */
  method GiveStep(mi: MemoryInfo, lo: nat, hi: nat, ghost b: nat,
                  ghost s: State, ghost ops: seq<Op>, ghost held: seq<Range>, ghost ops': seq<Op>)
    returns (r: Run<()>, ghost held': seq<Range>)
    requires hi < U64 && Inside(held, b, lo, hi)
    requires Ran(mi, s, ops, held) && ops' == ops + [GiveBack(lo, hi, b)]
    modifies mi`last, mi.physmap
    ensures r.Returns? ==> Ran(mi, s, ops', held') && held' == Carve(held, b, lo, hi)
    ensures r.Aborts? ==> Exec(s, ops').None?
  {
    held' := Carve(held, b, lo, hi);
    ExecStep(s, ops, GiveBack(lo, hi, b), State(mi.Map(), held));
    r := mi.AdjustPmap(lo, hi);
  }

  /** The loop that reserves `unk1` bytes; an amount of zero fails the conversion to a non-zero size. */
  method TakeUnk(mi: MemoryInfo, unk1: nat,
                 ghost s: State, ghost ops: seq<Op>, ghost held: seq<Range>, ghost all: seq<Op>)
    returns (r: Run<()>, ghost held': seq<Range>)
    requires unk1 < U64
    requires Ran(mi, s, ops, held) && (unk1 > 0 ==> all == ops + UnkPlan(unk1))
    modifies mi`last, mi.physmap
    ensures r.Returns? ==> unk1 > 0 && Ran(mi, s, all, held') && held <= held'
    ensures r.Aborts? ==> unk1 == 0 || Exec(s, all).None?
  {
    held' := held;
    var unk: nat := unk1;
    ghost var ops' := ops;
    while true
      invariant Ran(mi, s, ops', held') && held <= held'
      invariant unk <= unk1 && (unk == 0 ==> unk1 == 0)
      invariant unk > 0 ==> all == ops' + UnkPlan(unk)
      decreases unk
    {
      var size: nat, align: nat := 0x200000, 0x200000;
      if unk < 0x200000 {
        size, align := unk, 0x4000;
      }
      if size == 0 {
        return Aborts(Panic), held';
      }
      UnkPlanStep(ops', unk, size, align);
      ghost var next := ops' + [Op.Take(size, align)];
      var addr;
      addr, held' := TakeStep(mi, size, align, s, ops', held', next);
      if addr.Aborts? {
        Stuck(s, next, if unk == size then [] else UnkPlan(unk - size));
        return Aborts(addr.fault), held';
      }
      ops' := next;
      unk := unk - size;
      if unk == 0 {
        return Returns(()), held';
      }
    }
  }

  lemma UnkPlanStep(ops: seq<Op>, unk: nat, size: nat, align: nat)
    requires 0 < size <= unk
    requires if unk < 0x200000 then size == unk && align == 0x4000 else size == align == 0x200000
    ensures ops + UnkPlan(unk) == ops + [Op.Take(size, align)] + (if unk == size then [] else UnkPlan(unk - size))
  {
  }

  /** The alignment of the mini-app block. */
  function MiniAlign(unknownDmem1: nat): nat {
    if unknownDmem1 == 0 then 0x8000000 else 0x200000
  }

  /** Whether the game block has room for the mini-app block in front of the flexible memory. */
  predicate MiniFits(dc: DmemConfig, gameEnd: nat, align: nat)
    requires align > 0
  {
    && dc.miniShared
    && dc.fmemMax + dc.miniSize < U64 && dc.fmemMax + dc.miniSize <= gameEnd
    && align <= gameEnd - (dc.fmemMax + dc.miniSize)
  }

  /** The address computed for the mini-app block, which is not reserved. */
  method MiniApp(dc: DmemConfig, gameEnd: nat, unknownDmem1: nat) returns (r: Run<nat>)
    requires Sized(dc) && gameEnd < U64
    ensures r.Returns? <==> MiniFits(dc, gameEnd, MiniAlign(unknownDmem1))
    ensures r.Returns? ==>
              var align := if unknownDmem1 == 0 then 0x8000000 else 0x200000;
              r.value % align == 0 && r.value <= gameEnd - (dc.fmemMax + dc.miniSize) < r.value + align
  {
    var align: nat := MiniAlign(unknownDmem1);
    assert IsPow2(align) by {
      BlockSizesArePow2();
    }
    if !dc.miniShared {
      return Aborts(Unimplemented);
    }
    if dc.fmemMax + dc.miniSize >= U64 || gameEnd < dc.fmemMax + dc.miniSize {
      return Aborts(Overflow);
    }
    var x := gameEnd - (dc.fmemMax + dc.miniSize);
    var mini := MaskDown(x, align);
    AlignDownNearest(x, align);
    if mini == 0 {
      return Aborts(Panic);
    }
    if x < align {
      DivModUnique(x, align, 0, x);
    }
    return Returns(mini);
  }

  /** The first two reservations: the high block and the game block. */
  function FirstTwo(dc: DmemConfig): seq<Op> {
    HighOnly() + [Op.Take(dc.gameSize, 0x8000000)]
  }

  function HighOnly(): seq<Op> {
    [Op.Take(0x1000000, 1)]
  }

  /** Where the high block starts and the game block ends, if both can be had. */
  function Blocks(free: seq<Range>, dc: DmemConfig): Option<(nat, nat)> {
    match Exec(State(free, []), FirstTwo(dc))
    case Some(t) => if |t.held| == 2 then Some((t.held[0].start, t.held[1].end)) else None
    case None => None
  }

  /** The modes in which `new` goes through all its reservations. */
  predicate Supported(mode: nat, config: Option<DmemConfig>) {
    && config.Some?
    && !Bit(0x80C6C0C4, mode) && !Bit(0x47000703, mode) && !Bit(0x47010703, mode)
    && (!Bit(0x80C6C0C4 + 0x20212022, mode) ==> config.value.unk1 > 0)
  }

  predicate MiniOk(mode: nat, dc: DmemConfig, gameEnd: nat, unknownDmem1: nat) {
    Bit(0x7F393733, mode) ==> MiniFits(dc, gameEnd, MiniAlign(unknownDmem1))
  }

  /** In numbers: a whole aligned block must lie below the mini-app and the flexible memory, in the modes that have a mini-app. */
  lemma MiniOkIs(mode: nat, dc: DmemConfig, gameEnd: nat, unknownDmem1: nat)
    ensures MiniOk(mode, dc, gameEnd, unknownDmem1) <==>
              || !Bit(0x7F393733, mode)
              || (dc.miniShared && dc.fmemMax + dc.miniSize < U64 &&
                    (if unknownDmem1 == 0 then 0x8000000 else 0x200000) + dc.fmemMax + dc.miniSize <= gameEnd)
  {
  }

  /** One of the low eight bits. */
  predicate InByte(m: nat, k: nat) {
    (if k == 0 then m else if k == 1 then m / 2 else if k == 2 then m / 4 else if k == 3 then m / 8
     else if k == 4 then m / 16 else if k == 5 then m / 32 else if k == 6 then m / 64 else m / 128) % 2 == 1
  }

  lemma {:induction false} BitLow(m: nat, k: nat)
    requires k < 8
    ensures Bit(m, k) <==> InByte(m, k)
  {
    if k > 0 {
      BitLow(m / 2, k - 1);
    }
  }

  lemma EightOn(m: nat, k: nat)
    ensures Bit(m, k + 8) <==> Bit(m / 256, k)
  {
    assert Bit(m, k + 8) <==> Bit(m / 2 / 2, k + 6);
    assert Bit(m / 4, k + 6) <==> Bit(m / 4 / 2 / 2, k + 4);
    assert Bit(m / 16, k + 4) <==> Bit(m / 16 / 2 / 2, k + 2);
    assert Bit(m / 64, k + 2) <==> Bit(m / 64 / 2 / 2, k);
  }

  /** The byte of a mask for each flag word. */
  lemma BitIn(m: nat, k: nat, unk: nat)
    requires unk < 4
    ensures Bit(m, k + 8 * unk) <==>
            Bit(if unk == 0 then m else if unk == 1 then m / 256 else if unk == 2 then m / 0x1_0000 else m / 0x100_0000, k)
  {
    if unk > 0 {
      EightOn(m, k + 8 * (unk - 1));
    }
    if unk > 1 {
      EightOn(m / 256, k + 8 * (unk - 2));
    }
    if unk > 2 {
      EightOn(m / 0x1_0000, k);
    }
  }

  lemma ModeByte(k: nat, a: nat, b: nat, c: nat)
    requires k < 8
    requires || (a == 0x80C6C0C4 && b == 0x47000703 && c == 0x47010703) || (a == 0x80C6C0 && b == 0x470007 && c == 0x470107)
             || (a == 0x80C6 && b == 0x4700 && c == 0x4701) || (a == 0x80 && b == 0x47 && c == 0x47)
    ensures InByte(a, k) || InByte(b, k) || InByte(c, k) <==> k != 3 && k != 4 && k != 5
  {
  }

  lemma ByteStops(k: nat, a: nat, b: nat, c: nat)
    requires k < 8 && (InByte(a, k) || InByte(b, k) || InByte(c, k) <==> k != 3 && k != 4 && k != 5)
    ensures Bit(a, k) || Bit(b, k) || Bit(c, k) <==> k != 3 && k != 4 && k != 5
  {
    BitLow(a, k);
    BitLow(b, k);
    BitLow(c, k);
  }

  lemma ModeStops(k: nat, unk: nat, a: nat, b: nat, c: nat)
    requires k < 8 && unk < 4 && a == 0x80C6C0C4 && b == 0x47000703 && c == 0x47010703
    ensures Bit(a, k + 8 * unk) || Bit(b, k + 8 * unk) || Bit(c, k + 8 * unk) <==> k != 3 && k != 4 && k != 5
  {
    BitIn(a, k, unk);
    BitIn(b, k, unk);
    BitIn(c, k, unk);
    var a', b', c' :=
      if unk == 0 then a else if unk == 1 then a / 256 else if unk == 2 then a / 0x1_0000 else a / 0x100_0000,
      if unk == 0 then b else if unk == 1 then b / 256 else if unk == 2 then b / 0x1_0000 else b / 0x100_0000,
      if unk == 0 then c else if unk == 1 then c / 256 else if unk == 2 then c / 0x1_0000 else c / 0x100_0000;
    ModeByte(k, a', b', c');
    ByteStops(k, a', b', c');
  }

  /** Of the base modes only 3, 4 and 5 get through, and they do whatever the flag word. */
  lemma SupportedModes(base: nat, unk: nat, dc: DmemConfig)
    requires base < 8 && unk < 4 && dc.unk1 > 0
    ensures Supported(base + 8 * unk, Some(dc)) <==> base == 3 || base == 4 || base == 5
  {
    ModeStops(base, unk, 0x80C6C0C4, 0x47000703, 0x47010703);
  }

  /** Whether the reservations of `new` can be made from a map. */
  predicate Takes(free: seq<Range>, mode: nat, config: Option<DmemConfig>, unknownDmem1: nat) {
    && Supported(mode, config) && var dc := config.value;
    && Blocks(free, dc).Some? && MiniOk(mode, dc, Blocks(free, dc).value.1, unknownDmem1)
    && Exec(State(free, []), TakePlan(mode, dc)).Some?
  }

  /** The map and the blocks `new` leaves, unless the mode is not supported or a step fails. */
  function Settled(free: seq<Range>, mode: nat, config: Option<DmemConfig>, unk: nat, unknownDmem1: nat): Option<State> {
    if !Takes(free, mode, config, unknownDmem1) then None
    else
      var dc := config.value;
      var (haddr, gameEnd) := Blocks(free, dc).value;
      if gameEnd < dc.fmemMax then None
      else Exec(State(free, []), Plan(mode, dc, unk, haddr, gameEnd))
  }

  /** What `new` leaves held, in bytes, for every map and configuration with which it finishes. */
  lemma SettledHolds(free: seq<Range>, mode: nat, dc: DmemConfig, unk: nat, unknownDmem1: nat, t: State)
    requires Sorted(free) && Settled(free, mode, Some(dc), unk, unknownDmem1) == Some(t)
    ensures Bytes(t.held) == LeftHeld(mode, dc, unk) && Bytes(t.free) == Bytes(free) - Bytes(t.held)
  {
    var b := Blocks(free, dc).value;
    StartConserved(free);
    RunHolds(free, State(free, []), Plan(mode, dc, unk, b.0, b.1), t);
    PlanNet(mode, dc, unk, b.0, b.1);
  }

  /** The first two reservations and the check of the mode between them. */
  method TakeBlocks(mi: MemoryInfo, mode: nat, config: Option<DmemConfig>)
    returns (r: Run<(nat, nat)>, ghost held: seq<Range>)
    requires mi.Valid() && (config.Some? ==> Sized(config.value))
    modifies mi`last, mi.physmap
    ensures r.Returns? <==> !Bit(0x80C6C0C4, mode) && config.Some? && Blocks(old(mi.Map()), config.value).Some?
    ensures r.Returns? ==>
              && var dc := config.value;
              && Ran(mi, State(old(mi.Map()), []), FirstTwo(dc), held)
              && Blocks(old(mi.Map()), dc) == Some(r.value)
              && var (haddr, gameEnd) := r.value;
              && dc.gameSize <= gameEnd < U64 && haddr + 0x1000000 < U64
              && |held| == 2 && held[0] == Range(haddr, haddr + 0x1000000)
              && held[1] == Range(gameEnd - dc.gameSize, gameEnd)
  {
    ghost var s := State(mi.Map(), []);
    var high;
    high, held := TakeHigh(mi, s);
    if high.Aborts? {
      return Aborts(high.fault), held;
    }
    if Bit(0x80C6C0C4, mode) || config.None? {
      return Aborts(Panic), held;
    }
    var game;
    game, held := TakeGame(mi, config.value.gameSize, s, HighOnly(), FirstTwo(config.value), held);
    if game.Aborts? {
      return Aborts(game.fault), held;
    }
    BlocksAre(s.free, config.value, State(mi.Map(), held));
    return Returns((high.value, game.value)), held;
  }

  /** The high block: where it starts. */
  method TakeHigh(mi: MemoryInfo, ghost s: State) returns (r: Run<nat>, ghost held: seq<Range>)
    requires mi.Valid() && s == State(mi.Map(), [])
    modifies mi`last, mi.physmap
    ensures r.Returns? ==>
              && Ran(mi, s, HighOnly(), held) && r.value + 0x1000000 < U64
              && |held| == 1 && held[0] == Range(r.value, r.value + 0x1000000)
    ensures r.Aborts? ==> forall dc :: Blocks(s.free, dc).None?
  {
    r, held := TakeStep(mi, 0x1000000, 1, s, [], [], HighOnly());
    if r.Aborts? {
      forall dc ensures Blocks(s.free, dc).None? {
        Stuck(s, HighOnly(), [Op.Take(dc.gameSize, 0x8000000)]);
      }
    }
  }

  /** The game block: where it ends. */
  method TakeGame(mi: MemoryInfo, size: nat, ghost s: State, ghost one: seq<Op>, ghost two: seq<Op>, ghost high: seq<Range>)
    returns (r: Run<nat>, ghost held: seq<Range>)
    requires 0 < size < U64 && Ran(mi, s, one, high) && two == one + [Op.Take(size, 0x8000000)] && |high| == 1
    modifies mi`last, mi.physmap
    ensures r.Returns? ==>
              && Ran(mi, s, two, held) && size <= r.value < U64
              && |held| == 2 && held[0] == high[0] && held[1] == Range(r.value - size, r.value)
    ensures r.Aborts? ==> Exec(s, two).None?
  {
    r, held := TakeStep(mi, size, 0x8000000, s, one, high, two);
    if r.Returns? {
      r := Returns(r.value + size);
    }
  }

  lemma BlocksAre(free: seq<Range>, dc: DmemConfig, t: State)
    requires Exec(State(free, []), FirstTwo(dc)) == Some(t) && |t.held| == 2
    ensures Blocks(free, dc) == Some((t.held[0].start, t.held[1].end))
  {
  }

  /** The reservations of `Dmem::new`, up to the give-backs. */
  method TakeAll(mi: MemoryInfo, mode: nat, config: Option<DmemConfig>, unknownDmem1: nat)
    returns (r: Run<(nat, nat)>, ghost held: seq<Range>)
    requires mi.Valid() && (config.Some? ==> Sized(config.value))
    modifies mi`last, mi.physmap
    ensures r.Returns? <==> Takes(old(mi.Map()), mode, config, unknownDmem1)
    ensures r.Returns? ==>
              && var dc := config.value;
              && Ran(mi, State(old(mi.Map()), []), TakePlan(mode, dc), held)
              && Blocks(old(mi.Map()), dc) == Some(r.value)
              && var (haddr, gameEnd) := r.value;
              && dc.gameSize <= gameEnd < U64 && haddr + 0x1000000 < U64
              && |held| >= 2 && held[0] == Range(haddr, haddr + 0x1000000)
              && held[1] == Range(gameEnd - dc.gameSize, gameEnd)
  {
    ghost var s := State(mi.Map(), []);
    r, held := TakeBlocks(mi, mode, config);
    if r.Aborts? {
      return;
    }
    var dc := config.value;
    if Bit(0x7F393733, mode) {
      var mini := MiniApp(dc, r.value.1, unknownDmem1);
      if mini.Aborts? {
        return Aborts(mini.fault), held;
      }
    }
    var done;
    done, held := TakeRest(mi, mode, dc, s, FirstTwo(dc), held);
    if done.Aborts? {
      return Aborts(done.fault), held;
    }
  }

  /** The reservations after the game block. */
  method TakeRest(mi: MemoryInfo, mode: nat, dc: DmemConfig,
                  ghost s: State, ghost ops: seq<Op>, ghost held: seq<Range>)
    returns (r: Run<()>, ghost held': seq<Range>)
    requires Sized(dc) && Ran(mi, s, ops, held) && |held| == 2 && ops == FirstTwo(dc) && !Bit(0x80C6C0C4, mode)
    modifies mi`last, mi.physmap
    ensures r.Returns? ==>
              && Supported(mode, Some(dc)) && Ran(mi, s, TakePlan(mode, dc), held')
              && |held'| >= 2 && held'[0] == held[0] && held'[1] == held[1]
    ensures r.Aborts? ==> !Supported(mode, Some(dc)) || Exec(s, TakePlan(mode, dc)).None?
  {
    held' := held;
    ghost var ops' := ops;
    var a;
    if Bit(0x7F393F3B, mode) {
      ops' := ops + [Op.Take(dc.vshSize, 0x200000)];
      a, held' := TakeStep(mi, dc.vshSize, 0x200000, s, ops, held, ops');
      if a.Aborts? {
        PlanSplits(mode, dc, s, ops, ops');
        return Aborts(a.fault), held';
      }
    }

    if Bit(0x47000703, mode) || Bit(0x47010703, mode) {
      return Aborts(Unimplemented), held';
    }

    ghost var vision := ops' + [Op.Take(0x1000000, 0x200000)];
    a, held' := TakeStep(mi, 0x1000000, 0x200000, s, ops', held', vision);
    if a.Aborts? {
      PlanSplits(mode, dc, s, ops, vision);
      return Aborts(a.fault), held';
    }

    PlanEnds(mode, dc, ops, vision);
    if Bit(0x80C6C0C4 + 0x20212022, mode) {
      return Returns(()), held';
    }
    r, held' := TakeUnk(mi, dc.unk1, s, vision, held', TakePlan(mode, dc));
  }

  lemma PlanEnds(mode: nat, dc: DmemConfig, first: seq<Op>, ops: seq<Op>)
    requires first == FirstTwo(dc)
    requires ops == (if Bit(0x7F393F3B, mode) then first + [Op.Take(dc.vshSize, 0x200000)] else first) +
                    [Op.Take(0x1000000, 0x200000)]
    ensures Bit(0x80C6C0C4 + 0x20212022, mode) ==> ops == TakePlan(mode, dc)
    ensures !Bit(0x80C6C0C4 + 0x20212022, mode) && dc.unk1 > 0 ==> ops + UnkPlan(dc.unk1) == TakePlan(mode, dc)
  {
  }

  /** If the plan is stuck at its third or fourth reservation, it is stuck. */
  lemma PlanSplits(mode: nat, dc: DmemConfig, s: State, first: seq<Op>, ops: seq<Op>)
    requires first == FirstTwo(dc) && Exec(s, ops).None?
    requires || (Bit(0x7F393F3B, mode) && ops == first + [Op.Take(dc.vshSize, 0x200000)])
             || (ops == (if Bit(0x7F393F3B, mode) then first + [Op.Take(dc.vshSize, 0x200000)] else first) +
                        [Op.Take(0x1000000, 0x200000)])
    ensures Exec(s, TakePlan(mode, dc)).None?
  {
    var plan := TakePlan(mode, dc);
    assert ops <= plan;
    Stuck(s, ops, plan[|ops|..]);
    assert ops + plan[|ops|..] == plan;
  }

  /** The two give-backs: the end of the game block, and the start of the high block. */
  method GiveAll(mi: MemoryInfo, dc: DmemConfig, mode: nat, unk: nat, haddr: nat, gameEnd: nat,
                 ghost s: State, ghost held: seq<Range>)
    returns (r: Run<()>, ghost held': seq<Range>)
    requires Sized(dc) && dc.gameSize <= gameEnd < U64 && haddr + 0x1000000 < U64
    requires |held| >= 2 && held[0] == Range(haddr, haddr + 0x1000000)
    requires held[1] == Range(gameEnd - dc.gameSize, gameEnd)
    requires Ran(mi, s, TakePlan(mode, dc), held)
    modifies mi`last, mi.physmap
    ensures r.Returns? ==> Ran(mi, s, Plan(mode, dc, unk, haddr, gameEnd), held')
    ensures r.Aborts? ==> Exec(s, Plan(mode, dc, unk, haddr, gameEnd)).None?
  {
    ghost var take, plan := TakePlan(mode, dc), Plan(mode, dc, unk, haddr, gameEnd);
    var hend := haddr + 0xC00000 + (if unk != 0 then 0x400000 else 0);
    r, held' := GiveTwo(mi, gameEnd - dc.fmemMax, gameEnd, haddr, hend, s, take, plan, held);
  }

  method GiveTwo(mi: MemoryInfo, lo: nat, hi: nat, haddr: nat, hend: nat,
                 ghost s: State, ghost take: seq<Op>, ghost plan: seq<Op>, ghost held: seq<Range>)
    returns (r: Run<()>, ghost held': seq<Range>)
    requires hi < U64 && hend < U64 && Inside(held, 1, lo, hi) && Inside(held, 0, haddr, hend)
    requires Ran(mi, s, take, held) && plan == take + [GiveBack(lo, hi, 1)] + [GiveBack(haddr, hend, 0)]
    modifies mi`last, mi.physmap
    ensures r.Returns? ==> Ran(mi, s, plan, held')
    ensures r.Aborts? ==> Exec(s, plan).None?
  {
    ghost var ops := take + [GiveBack(lo, hi, 1)];
    r, held' := GiveStep(mi, lo, hi, 1, s, take, held, ops);
    if r.Returns? {
      assert held'[0] == held[0];
      r, held' := GiveStep(mi, haddr, hend, 0, s, ops, held', plan);
    } else {
      Stuck(s, ops, [GiveBack(haddr, hend, 0)]);
    }
  }

  /** The reservations of the plan, then the two give-backs. */
  method Carry(mi: MemoryInfo, mode: nat, config: Option<DmemConfig>, unk: nat, unknownDmem1: nat)
    returns (r: Run<nat>, ghost haddr: nat, ghost held: seq<Range>)
    requires mi.Valid() && (config.Some? ==> Sized(config.value))
    modifies mi, mi.physmap
    ensures r.Returns? <==> Settled(old(mi.Map()), mode, config, unk, unknownDmem1).Some?
    ensures r.Returns? ==>
              && var dc := config.value;
              && mi.Valid() && Settled(old(mi.Map()), mode, config, unk, unknownDmem1) == Some(State(mi.Map(), held))
              && dc.gameSize <= r.value < U64 && Blocks(old(mi.Map()), dc) == Some((haddr, r.value))
              && Ran(mi, State(old(mi.Map()), []), Plan(mode, dc, unk, haddr, r.value), held)
              && mi.endPage == mi.Map()[|mi.Map()| - 1].end / PAGE
  {
    haddr := 0;
    ghost var s := State(mi.Map(), []);
    var a;
    a, held := TakeAll(mi, mode, config, unknownDmem1);
    if a.Aborts? {
      return Aborts(a.fault), haddr, held;
    }
    var high, gameEnd := a.value.0, a.value.1;
    haddr := high;
    var done;
    done, held := GiveAll(mi, config.value, mode, unk, high, gameEnd, s, held);
    if done.Aborts? {
      return Aborts(done.fault), haddr, held;
    }
    mi.SetEndPage();
    return Returns(gameEnd), haddr, held;
  }

  /** `Dmem::new`: what it holds in the end is what the configuration asks for, less what is given back. */
  method New(mi: MemoryInfo, mode: nat, config: Option<DmemConfig>, unk: nat, unknownDmem1: nat)
    returns (r: Run<nat>, ghost haddr: nat, ghost held: seq<Range>)
    requires mi.Valid() && (config.Some? ==> Sized(config.value))
    modifies mi, mi.physmap
    ensures r.Returns? <==> Settled(old(mi.Map()), mode, config, unk, unknownDmem1).Some?
    ensures r.Returns? ==>
              && var dc := config.value;
              && mi.Valid() && Settled(old(mi.Map()), mode, config, unk, unknownDmem1) == Some(State(mi.Map(), held))
              && dc.gameSize <= r.value < U64 && Blocks(old(mi.Map()), dc) == Some((haddr, r.value))
              && Ran(mi, State(old(mi.Map()), []), Plan(mode, dc, unk, haddr, r.value), held)
              && mi.endPage == mi.Map()[|mi.Map()| - 1].end / PAGE
    ensures r.Returns? && Sorted(old(mi.Map())) ==>
              && Bytes(held) == LeftHeld(mode, config.value, unk)
              && Bytes(mi.Map()) == Bytes(old(mi.Map())) - Bytes(held)
  {
    ghost var free := mi.Map();
    r, haddr, held := Carry(mi, mode, config, unk, unknownDmem1);
    if r.Returns? && Sorted(free) {
      SettledHolds(free, mode, config.value, unk, unknownDmem1, State(mi.Map(), held));
    }
  }
}
