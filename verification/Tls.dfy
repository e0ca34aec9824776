/**
  Thread-local storage of one process: the index each loaded module gets, and the offset each main
  module gets in the static block below the thread pointer.
 */
module Tls {
  import opened Machine

  datatype TlsInfo = TlsInfo(size: nat, align: nat)

  /** `tlsIndex` is 0 for a module without TLS; `done` is `TLS_DONE`. */
  datatype Module = Module(tlsIndex: nat, tls: Option<TlsInfo>, offset: nat, done: bool)

  /** The modules of the process, which of them are main ones, and the fields of `TlsAlloc`. */
  datatype State = State(list: seq<Module>, mains: seq<nat>, maxIndex: nat, lastOffset: nat, staticSpace: nat)

  // ---- Rounding up ----

  lemma {:induction false} AndBelow(x: nat, m: nat)
    ensures And(x, m) <= m
  {
    if x != 0 && m != 0 {
      AndBelow(x / 2, m / 2);
    }
  }

  /** The bits of a mask and those of its complement make up the number. */
  lemma {:induction false} AndSplit(x: nat, m: nat, top: nat)
    requires IsPow2(top) && x < top && m < top
    ensures And(x, m) + And(x, top - 1 - m) == x
  {
    if x != 0 {
      var c := top - 1 - m;
      AndSplit(x / 2, m / 2, top / 2);
      assert c / 2 == top / 2 - 1 - m / 2 && c % 2 == 1 - m % 2;
      AndParts(x, m);
      AndParts(x, c);
    } else {
    }
  }

  lemma AndParts(x: nat, m: nat)
    ensures And(x, m) == 2 * And(x / 2, m / 2) + (if x % 2 == 1 && m % 2 == 1 then 1 else 0)
  {
    AndZero(x / 2);
  }

  /** `(x + align - 1) & !(align - 1)`, where it does not overflow. */
  function RoundUp(x: nat, align: nat): Run<nat> {
    if align == 0 || x + align >= U64 then Aborts(Overflow) else Returns(And(x + align - 1, U64 - align))
  }

  /** Whatever the alignment, the result is never below its argument. */
  lemma RoundUpAbove(x: nat, align: nat)
    ensures RoundUp(x, align).Returns? ==> x <= RoundUp(x, align).value
  {
    if RoundUp(x, align).Returns? {
      var y := x + align - 1;
      WordIsPow2();
      if align - 1 < U64 {
        AndSplit(y, align - 1, U64);
        AndBelow(y, align - 1);
      }
    }
  }

  /** For a power of two it is the next multiple. */
  lemma RoundUpAligns(x: nat, align: nat)
    requires IsPow2(align) && align <= U64 && RoundUp(x, align).Returns?
    ensures RoundUp(x, align).value % align == 0 && RoundUp(x, align).value < x + align
  {
    var y := x + align - 1;
    assert RoundUp(x, align).value == AlignDown(y, align) by {
      AndWordMask(y, align);
    }
    AlignDownNearest(y, align);
  }

  lemma RoundUpAligned(x: nat, align: nat)
    ensures IsPow2(align) && RoundUp(x, align).Returns? ==> RoundUp(x, align).value % align == 0
  {
    if IsPow2(align) && RoundUp(x, align).Returns? {
      RoundUpAligns(x, align);
    }
  }

  /** Adding a number to its complement sets no common bit. */
  lemma {:induction false} AndComplement(q: nat, top: nat)
    requires IsPow2(top) && q < top
    ensures And(q, top - 1 - q) == 0
  {
    if q != 0 {
      AndComplement(q / 2, top / 2);
      assert (top - 1 - q) / 2 == top / 2 - 1 - q / 2;
      AndParts(q, top - 1 - q);
    }
  }

  /** A number that is not a power of two, masked by its own negation, loses something but not all. */
  lemma {:induction false} LowestBit(a: nat, top: nat)
    requires IsPow2(top) && 0 < a < top
    ensures 0 < And(a, top - a) && (!IsPow2(a) ==> And(a, top - a) < a)
  {
    AndParts(a, top - a);
    if a % 2 == 1 {
      var q := a / 2;
      if q > 0 {
        AndComplement(q, top / 2);
      }
      assert (top - a) / 2 == top / 2 - 1 - q;
      assert And(a / 2, (top - a) / 2) == 0;
    } else {
      LowestBit(a / 2, top / 2);
      assert (top - a) / 2 == top / 2 - a / 2;
    }
  }

  /**
    The code aligns every size it can round up if and only if the alignment is a power of two, or so
    large that nothing but 0 can be rounded up to it.
   */
  lemma AlignsExactly(align: nat)
    requires 0 < align < U64
    ensures (forall x: nat :: RoundUp(x, align).Returns? ==> RoundUp(x, align).value % align == 0) <==>
            IsPow2(align) || align == U64 - 1
  {
    if IsPow2(align) {
      forall x: nat | RoundUp(x, align).Returns? ensures RoundUp(x, align).value % align == 0 {
        RoundUpAligns(x, align);
      }
    } else if align == U64 - 1 {
      AndLowMask(align - 1, 2);
      DivModUnique(0, align, 0, 0);
    } else {
      NotAligned(align);
    }
  }

  lemma NotAligned(align: nat)
    requires 0 < align < U64 - 1 && !IsPow2(align)
    ensures RoundUp(1, align).Returns? && RoundUp(1, align).value % align != 0
  {
    WordIsPow2();
    LowestBit(align, U64);
    var v := RoundUp(1, align).value;
    DivModUnique(v, align, 0, v);
  }

  // ---- Indices ----

  predicate Used(list: seq<Module>, index: nat) {
    exists k :: 0 <= k < |list| && list[k].tlsIndex == index
  }

  /** The search of `load` for a free index, and the new maximum. */
  function FindIndex(list: seq<Module>, maxIndex: nat, index: nat): (nat, nat)
    decreases maxIndex - index
  {
    if !Used(list, index) then (index, maxIndex)
    else if index + 1 > maxIndex then (index + 1, index + 1)
    else FindIndex(list, maxIndex, index + 1)
  }

  function Size(m: Module): nat {
    if m.tls.Some? then m.tls.value.size else 0
  }

  /** `load` of a module that is not loaded yet; `mapped` is whether mapping it succeeds. */
  function Load(s: State, tls: Option<TlsInfo>, main: bool, mapped: bool): State {
    var size := if tls.Some? then tls.value.size else 0;
    var (index, maxIndex) := if size == 0 then (0, s.maxIndex) else FindIndex(s.list, s.maxIndex, 1);
    if !mapped then s.(maxIndex := maxIndex)
    else
      State(s.list + [Module(index, tls, 0, false)], if main then s.mains + [|s.list|] else s.mains,
            maxIndex, s.lastOffset, s.staticSpace)
  }

  // ---- Offsets ----

  /** One main module in `process_needed`. */
  function Assign(s: State, i: nat): Run<State>
    requires i < |s.list|
  {
    var m := s.list[i];
    if m.done then Returns(s)
    else if Size(m) == 0 then Returns(s.(list := s.list[i := m.(done := true)]))
    else
      match RoundUp((if m.tlsIndex == 1 then 0 else s.lastOffset) + Size(m), m.tls.value.align)
      case Aborts(f) => Aborts(f)
      case Returns(off) =>
        if s.staticSpace != 0 && off > s.staticSpace then Returns(s)
        else Returns(s.(list := s.list[i := m.(offset := off, done := true)], lastOffset := off))
  }

  /**
    A module that has yet to get a block, with an alignment the code can align to, gets the least
    offset that is aligned and leaves room for it past the last block, or from the start if it is the
    application; a block that does not fit the static space is passed over.
   */
  lemma AssignPlaces(s: State, i: nat, base: nat, size: nat, align: nat) returns (off: nat)
    requires i < |s.list| && !s.list[i].done && s.list[i].tls == Some(TlsInfo(size, align)) && size > 0
    requires IsPow2(align) && align <= U64 && base == (if s.list[i].tlsIndex == 1 then 0 else s.lastOffset)
    ensures Assign(s, i).Aborts? <==> base + size + align >= U64
    ensures Assign(s, i).Returns? ==>
              && off % align == 0 && base + size <= off < base + size + align
              && Assign(s, i).value ==
                 if s.staticSpace != 0 && off > s.staticSpace then s
                 else s.(list := s.list[i := s.list[i].(offset := off, done := true)], lastOffset := off)
  {
    var r := RoundUp(base + size, align);
    off := if r.Returns? then r.value else 0;
    if r.Returns? {
      RoundUpAbove(base + size, align);
      RoundUpAligns(base + size, align);
    }
  }

  predicate MainsInRange(s: State) {
    forall k :: 0 <= k < |s.mains| ==> s.mains[k] < |s.list|
  }

  lemma AssignShape(s: State, i: nat)
    requires i < |s.list| && Assign(s, i).Returns?
    ensures var t := Assign(s, i).value;
            && |t.list| == |s.list| && t.mains == s.mains && t.maxIndex == s.maxIndex && t.staticSpace == s.staticSpace
            && forall k :: 0 <= k < |s.list| ==> t.list[k].tlsIndex == s.list[k].tlsIndex && t.list[k].tls == s.list[k].tls
                                                 && (k != i ==> t.list[k] == s.list[k])
  {
  }

  /** The loop over the first `n` main modules. */
  function AssignFirst(s: State, n: nat): (r: Run<State>)
    requires MainsInRange(s) && n <= |s.mains|
    ensures r.Returns? ==> |r.value.list| == |s.list| && r.value.mains == s.mains
  {
    if n == 0 then Returns(s)
    else
      var m :- AssignFirst(s, n - 1);
      var r := Assign(m, s.mains[n - 1]);
      if r.Returns? then AssignShape(m, s.mains[n - 1]); r else r
  }

  lemma {:induction false} AssignStuck(s: State, n: nat, m: nat)
    requires MainsInRange(s) && n <= m <= |s.mains| && AssignFirst(s, n).Aborts?
    ensures AssignFirst(s, m) == AssignFirst(s, n)
  {
    if n < m {
      AssignStuck(s, n, m - 1);
    }
  }

  // ---- What every run keeps ----

  predicate Assigned(m: Module) {
    m.done && Size(m) > 0
  }

  /** The block of an assigned module, measured down from the thread pointer. */
  predicate BlocksClear(a: Module, b: Module) {
    a.offset <= b.offset - Size(b) || b.offset <= a.offset - Size(a)
  }

  predicate IndicesOk(s: State) {
    && s.list != [] && s.list[0].tlsIndex == 1
    && (forall k :: 0 <= k < |s.list| ==> s.list[k].tlsIndex <= s.maxIndex)
    && (forall i, j :: 0 <= i < j < |s.list| && s.list[i].tlsIndex == s.list[j].tlsIndex ==> s.list[i].tlsIndex == 0)
  }

  predicate MainsOk(s: State) {
    && s.mains != [] && s.mains[0] == 0
    && MainsInRange(s)
    && forall i, j :: 0 <= i < j < |s.mains| ==> s.mains[i] < s.mains[j]
  }

  /** The block is aligned, where the alignment is one the code can align to. */
  predicate BlockAligned(m: Module)
    requires Size(m) > 0
  {
    IsPow2(m.tls.value.align) ==> m.offset % m.tls.value.align == 0
  }

  predicate BlocksOk(s: State) {
    && (forall k :: 0 <= k < |s.list| && Assigned(s.list[k]) ==>
          Size(s.list[k]) <= s.list[k].offset <= s.lastOffset && BlockAligned(s.list[k]))
    && (forall i, j :: 0 <= i < j < |s.list| && Assigned(s.list[i]) && Assigned(s.list[j]) ==> BlocksClear(s.list[i], s.list[j]))
  }

  /** The offset the application would get, if it fits. */
  predicate AppPending(s: State)
    requires s.list != []
  {
    var app := s.list[0];
    && !app.done && Size(app) > 0
    && var off := RoundUp(Size(app), app.tls.value.align);
    off.Returns? && (s.staticSpace == 0 || off.value <= s.staticSpace)
  }

  /** While the application has yet to get its block, nobody else has one. */
  predicate AppFirst(s: State)
    requires s.list != []
  {
    AppPending(s) ==> forall k :: 0 <= k < |s.list| ==> !Assigned(s.list[k])
  }

  predicate Inv(s: State) {
    IndicesOk(s) && MainsOk(s) && BlocksOk(s) && AppFirst(s)
  }

  /** The index found is the least free one, and the maximum grows to it if need be. */
  lemma {:induction false} FindIndexFree(list: seq<Module>, maxIndex: nat, index: nat)
    requires 0 < index <= maxIndex
    requires forall k :: 0 <= k < |list| ==> list[k].tlsIndex <= maxIndex
    ensures var (r, m) := FindIndex(list, maxIndex, index);
            !Used(list, r) && index <= r && m == (if r > maxIndex then r else maxIndex)
    ensures forall i :: index <= i < FindIndex(list, maxIndex, index).0 ==> Used(list, i)
    decreases maxIndex - index
  {
    if Used(list, index) && index + 1 <= maxIndex {
      FindIndexFree(list, maxIndex, index + 1);
    }
  }

  /** A module without TLS gets index 0, any other one the least index that no module has. */
  lemma LoadGives(s: State, tls: Option<TlsInfo>, main: bool, mapped: bool, t: State) returns (index: nat)
    requires IndicesOk(s) && t == Load(s, tls, main, mapped)
    ensures if tls.None? || tls.value.size == 0 then index == 0
            else index > 0 && !Used(s.list, index) && forall i :: 0 < i < index ==> Used(s.list, i)
    ensures t.maxIndex == (if index > s.maxIndex then index else s.maxIndex)
    ensures t.list == (if mapped then s.list + [Module(index, tls, 0, false)] else s.list)
    ensures t.mains == (if mapped && main then s.mains + [|s.list|] else s.mains)
    ensures t.lastOffset == s.lastOffset && t.staticSpace == s.staticSpace
  {
    index := if tls.None? || tls.value.size == 0 then 0 else FindIndex(s.list, s.maxIndex, 1).0;
    assert s.list[0].tlsIndex <= s.maxIndex;
    FindIndexFree(s.list, s.maxIndex, 1);
  }

  lemma LoadKeeps(s: State, tls: Option<TlsInfo>, main: bool, mapped: bool)
    requires Inv(s)
    ensures Inv(Load(s, tls, main, mapped))
  {
    assert s.list[0].tlsIndex <= s.maxIndex;
    FindIndexFree(s.list, s.maxIndex, 1);
    var t := Load(s, tls, main, mapped);
    assert t.list[0] == s.list[0];
    if mapped {
      var added := t.list[|s.list|];
      assert added.tlsIndex == 0 || !Used(s.list, added.tlsIndex);
      forall i, j | 0 <= i < j < |t.list| && t.list[i].tlsIndex == t.list[j].tlsIndex ensures t.list[i].tlsIndex == 0 {
        if j == |s.list| {
          assert t.list[i] == s.list[i];
        }
      }
    }
  }

  /** Only the application has index 1. */
  lemma OnlyApp(s: State, i: nat)
    requires IndicesOk(s) && 0 < i < |s.list|
    ensures s.list[i].tlsIndex != 1
  {
  }

  /** The application's own step comes when nobody has a block, and settles it. */
  lemma AssignApp(s: State, t: State)
    requires Inv(s) && Assign(s, 0) == Returns(t)
    ensures Inv(t) && !AppPending(t)
  {
    var app := s.list[0];
    if !app.done && Size(app) > 0 {
      RoundUpAbove(Size(app), app.tls.value.align);
      RoundUpAligned(Size(app), app.tls.value.align);
    }
    AssignShape(s, 0);
    forall i, j | 0 <= i < j < |t.list| && t.list[i].tlsIndex == t.list[j].tlsIndex ensures t.list[i].tlsIndex == 0 {
      assert s.list[i].tlsIndex == s.list[j].tlsIndex;
    }
  }

  /** Any other module gets a block past all blocks so far. */
  lemma AssignOther(s: State, i: nat, t: State)
    requires Inv(s) && !AppPending(s) && 0 < i < |s.list| && Assign(s, i) == Returns(t)
    ensures Inv(t) && !AppPending(t)
  {
    OnlyApp(s, i);
    var m := s.list[i];
    AssignShape(s, i);
    assert t.list[0] == s.list[0];
    if !m.done && Size(m) > 0 {
      RoundUpAbove(s.lastOffset + Size(m), m.tls.value.align);
      RoundUpAligned(s.lastOffset + Size(m), m.tls.value.align);
    }
    assert BlocksOk(t) by {
      forall a, b | 0 <= a < b < |t.list| && Assigned(t.list[a]) && Assigned(t.list[b]) ensures BlocksClear(t.list[a], t.list[b]) {
        if a != i && b != i {
          assert BlocksClear(s.list[a], s.list[b]);
        }
      }
    }
    forall a, b | 0 <= a < b < |t.list| && t.list[a].tlsIndex == t.list[b].tlsIndex ensures t.list[a].tlsIndex == 0 {
      assert s.list[a].tlsIndex == s.list[b].tlsIndex;
    }
  }

  lemma {:induction false} AssignFirstKeeps(s: State, n: nat, t: State)
    requires Inv(s) && n <= |s.mains| && AssignFirst(s, n) == Returns(t)
    ensures Inv(t) && (n > 0 ==> !AppPending(t))
  {
    if n > 0 {
      var m := AssignFirst(s, n - 1).value;
      AssignFirstKeeps(s, n - 1, m);
      if n == 1 {
        AssignApp(m, t);
      } else {
        assert s.mains[0] < s.mains[n - 1];
        AssignOther(m, s.mains[n - 1], t);
      }
    }
  }

  datatype Op = LoadModule(tls: Option<TlsInfo>, main: bool, mapped: bool) | ProcessNeeded

  function Step(s: State, op: Op): Run<State>
    requires MainsInRange(s)
  {
    match op
    case LoadModule(tls, main, mapped) => Returns(Load(s, tls, main, mapped))
    case ProcessNeeded => AssignFirst(s, |s.mains|)
  }

  /** The process after `exec`: the application alone, with index 1. */
  function Start(tls: Option<TlsInfo>, staticSpace: nat): State {
    State([Module(1, tls, 0, false)], [0], 1, 0, staticSpace)
  }

  ghost predicate Reachable(tls: Option<TlsInfo>, staticSpace: nat, ops: seq<Op>, t: State) {
    if ops == [] then t == Start(tls, staticSpace)
    else
      exists s :: Reachable(tls, staticSpace, ops[..|ops| - 1], s) && MainsInRange(s) && Step(s, ops[|ops| - 1]) == Returns(t)
  }

  /**
    In every run of a process, non-zero indices are pairwise distinct and at most the maximum, and the
    static blocks of the main modules are aligned and pairwise disjoint.
   */
  lemma {:induction false} RunKeeps(tls: Option<TlsInfo>, staticSpace: nat, ops: seq<Op>, t: State)
    requires Reachable(tls, staticSpace, ops, t)
    ensures Inv(t)
  {
    if ops != [] {
      var s :| Reachable(tls, staticSpace, ops[..|ops| - 1], s) && MainsInRange(s) && Step(s, ops[|ops| - 1]) == Returns(t);
      RunKeeps(tls, staticSpace, ops[..|ops| - 1], s);
      match ops[|ops| - 1]
      case LoadModule(info, main, mapped) => LoadKeeps(s, info, main, mapped);
      case ProcessNeeded => AssignFirstKeeps(s, |s.mains|, t);
    }
  }

  // ---- The linker object ----

  class Linker {
    var state: State

    constructor (tls: Option<TlsInfo>, staticSpace: nat)
      ensures state == Start(tls, staticSpace) && Inv(state)
    {
      state := Start(tls, staticSpace);
    }

    /** The search loop of `load`. */
    method SearchIndex() returns (index: nat, maxIndex: nat)
      requires Inv(state)
      ensures (index, maxIndex) == FindIndex(state.list, state.maxIndex, 1)
      ensures !Used(state.list, index) && 1 < index <= maxIndex
    {
      ghost var list, max := state.list, state.maxIndex;
      assert state.list[0].tlsIndex <= state.maxIndex;
      FindIndexFree(list, max, 1);
      assert Used(list, 1);
      index, maxIndex := 1, state.maxIndex;
      while true
        invariant 1 <= index <= max && maxIndex == max
        invariant FindIndex(list, max, 1) == FindIndex(list, max, index)
        decreases max - index
      {
        if !Used(state.list, index) {
          return;
        }
        index := index + 1;
        if index > maxIndex {
          maxIndex := index;
          return;
        }
      }
    }

    method LoadModule(tls: Option<TlsInfo>, main: bool, mapped: bool)
      requires Inv(state)
      modifies this
      ensures Inv(state) && state == Load(old(state), tls, main, mapped)
    {
      LoadKeeps(state, tls, main, mapped);
      var index := 0;
      var maxIndex := state.maxIndex;
      if tls.Some? && tls.value.size != 0 {
        index, maxIndex := SearchIndex();
      }
      state := state.(maxIndex := maxIndex);
      if mapped {
        state := state.(list := state.list + [Module(index, tls, 0, false)],
                        mains := if main then state.mains + [|state.list|] else state.mains);
      }
    }

    /** The TLS loop of `process_needed`. */
    method ProcessNeeded() returns (r: Run<()>)
      requires Inv(state)
      modifies this
      ensures r.Returns? ==> Inv(state) && AssignFirst(old(state), |old(state).mains|) == Returns(state)
      ensures r.Aborts? ==> AssignFirst(old(state), |old(state).mains|) == Aborts(r.fault)
    {
      ghost var s := state;
      var n := 0;
      while n < |state.mains|
        invariant 0 <= n <= |s.mains| && state.mains == s.mains && |state.list| == |s.list|
        invariant AssignFirst(s, n) == Returns(state)
      {
        var i := state.mains[n];
        var next := Assign(state, i);
        if next.Aborts? {
          AssignStuck(s, n + 1, |s.mains|);
          return Aborts(next.fault);
        }
        AssignShape(state, i);
        state := next.value;
        n := n + 1;
      }
      AssignFirstKeeps(s, |s.mains|, state);
      return Returns(());
    }
  }
}
