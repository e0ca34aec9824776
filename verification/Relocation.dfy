/**
  The relocation passes of the runtime linker over one module. A pass may leave entries whose symbols
  do not resolve yet; later passes skip the entries already marked.
 */
module Relocation {
  import opened Machine
  import opened Words

  datatype Kind = Nothing | Abs64 | GlobDat | Relative | DtpMod64 | DtpOff64 | JumpSlot | Other(code: nat)

  datatype Reloc = Reloc(offset: nat, kind: Kind, sym: nat, addend: int)

  /** How an entry was relocated. */
  datatype How = Executable(addr: Word) | Data(value: Word) | Tls(index: Word)

  /** What a symbol resolves to: its value, and facts about the module that defines it. */
  datatype Target = Target(how: How, addr: Word, tlsIndex: Word, symbolValue: Option<Word>)

  /** A pass: how symbols resolve during it, and whether the PLT is done already. */
  datatype Pass = Pass(resolve: (nat, bool) -> Option<Target>, jmpslotsDone: bool)

  /** A module: where its relocations apply, and what `R_X86_64_RELATIVE` finds in its segments. */
  datatype Module = Module(base: nat, relocs: seq<Reloc>, plt: seq<Reloc>, relative: int -> Option<How>)

  function Entries(m: Module): seq<Reloc> {
    m.relocs + m.plt
  }

  function Offset(m: Module, i: nat): nat
    requires i < |Entries(m)|
  {
    m.base + Entries(m)[i].offset
  }

  // ---- The value of one entry ----

  /** The value a relative relocation stores. */
  function ValueOf(h: How): Word {
    match h
    case Executable(a) => a
    case Data(v) => v
    case Tls(i) => i
  }

  /**
    What an entry stores, given the word in its slot: nothing if its symbol does not resolve. Slots are
    read by the two TLS relocations only.
   */
  function Compute(m: Module, i: nat, word: nat, p: Pass): Run<Option<(How, Word)>>
    requires i < |Entries(m)|
  {
    var r := Entries(m)[i];
    var t := p.resolve(r.sym, i >= |m.relocs|);
    match r.kind
    case Abs64 => Returns(if t.None? then None else Some((t.value.how, WrapAdd(t.value.addr, r.addend))))
    case JumpSlot => Returns(if t.None? then None else Some((t.value.how, WrapAdd(t.value.addr, r.addend))))
    case GlobDat => Returns(if t.None? then None else Some((t.value.how, t.value.addr)))
    case Relative =>
      (match m.relative(r.addend)
       case None => Aborts(Panic)
       case Some(h) => Returns(Some((h, ValueOf(h)))))
    case DtpMod64 =>
      if t.None? then Returns(None)
      else if word + t.value.tlsIndex >= U64 then Aborts(Overflow)
      else Returns(Some((Tls(t.value.tlsIndex), word + t.value.tlsIndex)))
    case DtpOff64 =>
      if t.None? then Returns(None)
      else if t.value.symbolValue.None? then Aborts(Panic)
      else if word + t.value.symbolValue.value >= U64 then Aborts(Overflow)
      else
        var v := WrapAdd(word + t.value.symbolValue.value, r.addend);
        Returns(Some((Data(v), v)))
    case Nothing => Returns(None)
    case Other(_) => Returns(None)
  }

  // ---- One entry, one loop, one pass ----

  /** The memory of the module and the marks of its entries. */
  datatype Image = Image(mem: Memory, marks: seq<Option<How>>)

  predicate WellFormed(m: Module, img: Image) {
    |img.marks| == |Entries(m)|
  }

  /** How a loop goes on after an entry: to the next one, out of the loop, or out with an error. */
  datatype Flow = Continue | Break | Fail(kind: Kind)

  function EntryStep(m: Module, img: Image, i: nat, p: Pass): Run<(Image, Flow)>
    requires WellFormed(m, img) && i < |Entries(m)|
  {
    var r := Entries(m)[i];
    var off := Offset(m, i);
    var plt := i >= |m.relocs|;
    if img.marks[i].Some? then Returns((img, Continue))
    else if plt && r.kind != JumpSlot then Returns((img, Fail(r.kind)))
    else if plt && p.resolve(r.sym, true).None? then Returns((img, Continue))
    else if !Slot(img.mem, off) then Aborts(OutOfBounds)
    else if r.kind == Nothing then Returns((img, Break))
    else if r.kind.Other? || (!plt && r.kind == JumpSlot) then Returns((img, Fail(r.kind)))
    else
      match Compute(m, i, Get(img.mem, off), p)
      case Aborts(f) => Aborts(f)
      case Returns(None) => Returns((img, Continue))
      case Returns(Some((how, value))) =>
        Returns((Image(Put(img.mem, off, value), img.marks[i := Some(how)]), Continue))
  }

  /** The entries from `i` up to `end`; an error is handed out, a break is not. */
  function Loop(m: Module, img: Image, i: nat, end: nat, p: Pass): (r: Run<(Image, Option<Kind>)>)
    requires WellFormed(m, img) && i <= end <= |Entries(m)|
    ensures r.Returns? ==> WellFormed(m, r.value.0)
    decreases end - i
  {
    if i == end then Returns((img, None))
    else
      match EntryStep(m, img, i, p)
      case Aborts(f) => Aborts(f)
      case Returns((after, Continue)) => Loop(m, after, i + 1, end, p)
      case Returns((after, Break)) => Returns((after, None))
      case Returns((after, Fail(k))) => Returns((after, Some(k)))
  }

  /** `relocate_single`: the RELA entries, then, unless there was an error, the PLT entries. */
  function Relocate(m: Module, img: Image, p: Pass): (r: Run<(Image, Option<Kind>)>)
    requires WellFormed(m, img)
    ensures r.Returns? ==> WellFormed(m, r.value.0)
  {
    match Loop(m, img, 0, |m.relocs|, p)
    case Aborts(f) => Aborts(f)
    case Returns((after, Some(k))) => Returns((after, Some(k)))
    case Returns((after, None)) =>
      if p.jmpslotsDone then Returns((after, None)) else Loop(m, after, |m.relocs|, |Entries(m)|, p)
  }

  // ---- What every pass keeps ----

  /** Slots do not overlap. */
  predicate Apart(m: Module) {
    forall i, j :: 0 <= i < j < |Entries(m)| ==> Words.Clear(Offset(m, i), Offset(m, j))
  }

  predicate Outside(m: Module, x: nat) {
    forall i :: 0 <= i < |Entries(m)| ==> !(Offset(m, i) <= x < Offset(m, i) + 8)
  }

  /** The mark and the stored value of entry `i` come from its original word in one of the passes. */
  ghost predicate FromOriginal(m: Module, i: nat, word: nat, how: How, value: nat, passes: seq<Pass>)
    requires i < |Entries(m)|
  {
    exists k :: 0 <= k < |passes| && value < U64 && Compute(m, i, word, passes[k]) == Returns(Some((how, value)))
  }

  ghost predicate EntryOk(m: Module, orig: Memory, img: Image, i: nat, passes: seq<Pass>)
    requires WellFormed(m, img) && |img.mem| == |orig| && i < |Entries(m)|
  {
    var off := Offset(m, i);
    && (img.marks[i].Some? ==> Slot(orig, off))
    && (Slot(orig, off) ==>
          match img.marks[i]
          case None => Get(img.mem, off) == Get(orig, off)
          case Some(how) => FromOriginal(m, i, Get(orig, off), how, Get(img.mem, off), passes))
  }

  /**
    Every slot holds its original word while unmarked, and otherwise the value computed once from that
    original word; every byte outside the slots is untouched.
   */
  ghost predicate Sound(m: Module, orig: Memory, img: Image, passes: seq<Pass>) {
    && WellFormed(m, img) && |img.mem| == |orig|
    && (forall i :: 0 <= i < |Entries(m)| ==> EntryOk(m, orig, img, i, passes))
    && (forall x :: 0 <= x < |orig| && Outside(m, x) ==> img.mem[x] == orig[x])
  }

  /** Storing the value of an unmarked entry keeps the image sound. */
  lemma StoreSound(m: Module, orig: Memory, img: Image, passes: seq<Pass>, i: nat, p: Pass, how: How, value: Word)
    requires Apart(m) && Sound(m, orig, img, passes) && p in passes && i < |Entries(m)|
    requires Slot(img.mem, Offset(m, i)) && img.marks[i].None?
    requires Compute(m, i, Get(img.mem, Offset(m, i)), p) == Returns(Some((how, value)))
    ensures Sound(m, orig, Image(Put(img.mem, Offset(m, i), value), img.marks[i := Some(how)]), passes)
  {
    var off := Offset(m, i);
    var after := Image(Put(img.mem, off, value), img.marks[i := Some(how)]);
    assert EntryOk(m, orig, img, i, passes);
    forall j | 0 <= j < |Entries(m)| ensures EntryOk(m, orig, after, j, passes) {
      assert EntryOk(m, orig, img, j, passes);
      if j == i {
        PutGet(img.mem, off, value);
        var k :| 0 <= k < |passes| && passes[k] == p;
        assert Compute(m, i, Get(orig, off), passes[k]) == Returns(Some((how, value)));
      } else if Slot(orig, Offset(m, j)) {
        assert j < i ==> Words.Clear(Offset(m, j), off);
        PutElsewhere(img.mem, off, value, Offset(m, j));
      }
    }
    forall x | 0 <= x < |orig| && Outside(m, x) ensures after.mem[x] == orig[x] {
      assert !(off <= x < off + 8);
      PutByte(img.mem, off, value, x);
    }
  }

  lemma StepSound(m: Module, orig: Memory, img: Image, passes: seq<Pass>, i: nat, p: Pass)
    requires Apart(m) && Sound(m, orig, img, passes) && p in passes && i < |Entries(m)|
    ensures var r := EntryStep(m, img, i, p);
            r.Returns? ==> Sound(m, orig, r.value.0, passes)
  {
    var r := EntryStep(m, img, i, p);
    if r.Returns? && r.value.0 != img {
      var c := Compute(m, i, Get(img.mem, Offset(m, i)), p).value.value;
      StoreSound(m, orig, img, passes, i, p, c.0, c.1);
    }
  }

  lemma {:induction false} LoopSound(m: Module, orig: Memory, img: Image, passes: seq<Pass>, i: nat, end: nat, p: Pass)
    requires Apart(m) && Sound(m, orig, img, passes) && p in passes && i <= end <= |Entries(m)|
    ensures var r := Loop(m, img, i, end, p);
            r.Returns? ==> Sound(m, orig, r.value.0, passes)
    decreases end - i
  {
    if i < end {
      StepSound(m, orig, img, passes, i, p);
      var r := EntryStep(m, img, i, p);
      if r.Returns? && r.value.1 == Continue {
        LoopSound(m, orig, r.value.0, passes, i + 1, end, p);
      }
    }
  }

  lemma MorePasses(m: Module, orig: Memory, img: Image, passes: seq<Pass>, p: Pass)
    requires Sound(m, orig, img, passes)
    ensures Sound(m, orig, img, passes + [p])
  {
    forall i | 0 <= i < |Entries(m)| ensures EntryOk(m, orig, img, i, passes + [p]) {
      assert EntryOk(m, orig, img, i, passes);
      if Slot(orig, Offset(m, i)) && img.marks[i].Some? {
        var k :| 0 <= k < |passes| && Compute(m, i, Get(orig, Offset(m, i)), passes[k]) == Returns(Some((img.marks[i].value, Get(img.mem, Offset(m, i)))));
        assert (passes + [p])[k] == passes[k];
      }
    }
  }

  lemma PassSound(m: Module, orig: Memory, img: Image, passes: seq<Pass>, p: Pass)
    requires Apart(m) && Sound(m, orig, img, passes)
    ensures var r := Relocate(m, img, p);
            r.Returns? ==> Sound(m, orig, r.value.0, passes + [p])
  {
    MorePasses(m, orig, img, passes, p);
    LoopSound(m, orig, img, passes + [p], 0, |m.relocs|, p);
    var a := Loop(m, img, 0, |m.relocs|, p);
    if a.Returns? && a.value.1.None? && !p.jmpslotsDone {
      LoopSound(m, orig, a.value.0, passes + [p], |m.relocs|, |Entries(m)|, p);
    }
  }

  function Fresh(m: Module, mem: Memory): Image {
    Image(mem, seq(|Entries(m)|, _ => None))
  }

  /** Any number of passes, each with its own resolution results; an error does not undo what came before it. */
  function Passes(m: Module, mem: Memory, passes: seq<Pass>): (r: Run<Image>)
    ensures r.Returns? ==> WellFormed(m, r.value)
  {
    if passes == [] then Returns(Fresh(m, mem))
    else
      var before :- Passes(m, mem, passes[..|passes| - 1]);
      match Relocate(m, before, passes[|passes| - 1])
      case Aborts(f) => Aborts(f)
      case Returns((after, _)) => Returns(after)
  }

  lemma {:induction false} PassesKeep(m: Module, mem: Memory, passes: seq<Pass>)
    requires Apart(m)
    ensures Passes(m, mem, passes).Returns? ==> Sound(m, mem, Passes(m, mem, passes).value, passes)
  {
    if passes != [] && Passes(m, mem, passes).Returns? {
      var n := |passes| - 1;
      PassesKeep(m, mem, passes[..n]);
      PassSound(m, mem, Passes(m, mem, passes[..n]).value, passes[..n], passes[n]);
      assert passes[..n] + [passes[n]] == passes;
    }
  }

  // ---- Entries are relocated once; repeating a pass changes nothing ----

  /** Two images agree on an entry: same mark, same word. */
  predicate SameEntry(m: Module, a: Image, b: Image, j: nat)
    requires WellFormed(m, a) && WellFormed(m, b) && |a.mem| == |b.mem| && j < |Entries(m)|
  {
    a.marks[j] == b.marks[j] && (Slot(a.mem, Offset(m, j)) ==> Get(a.mem, Offset(m, j)) == Get(b.mem, Offset(m, j)))
  }

  predicate Same(m: Module, a: Image, b: Image, lo: nat, hi: nat)
    requires hi <= |Entries(m)|
  {
    && WellFormed(m, a) && WellFormed(m, b) && |a.mem| == |b.mem|
    && forall j :: lo <= j < hi ==> SameEntry(m, a, b, j)
  }

  lemma StepElsewhere(m: Module, img: Image, i: nat, p: Pass, j: nat)
    requires Apart(m) && WellFormed(m, img) && i < |Entries(m)| && j < |Entries(m)|
    requires EntryStep(m, img, i, p).Returns? && (i != j || img.marks[j].Some?)
    ensures var after := EntryStep(m, img, i, p).value.0;
            WellFormed(m, after) && |after.mem| == |img.mem| && SameEntry(m, img, after, j)
  {
    var after := EntryStep(m, img, i, p).value.0;
    if after != img && Slot(img.mem, Offset(m, j)) {
      var off := Offset(m, i);
      var c := Compute(m, i, Get(img.mem, off), p).value.value;
      assert i < j ==> Words.Clear(off, Offset(m, j));
      assert j < i ==> Words.Clear(Offset(m, j), off);
      PutElsewhere(img.mem, off, c.1, Offset(m, j));
    }
  }

  /** A loop leaves alone the entries outside its bounds, and those already marked. */
  lemma {:induction false} LoopElsewhere(m: Module, img: Image, i: nat, end: nat, p: Pass, j: nat)
    requires Apart(m) && WellFormed(m, img) && i <= end <= |Entries(m)| && j < |Entries(m)|
    requires Loop(m, img, i, end, p).Returns? && (j < i || end <= j || img.marks[j].Some?)
    ensures var after := Loop(m, img, i, end, p).value.0;
            |after.mem| == |img.mem| && SameEntry(m, img, after, j)
    decreases end - i
  {
    if i < end {
      StepElsewhere(m, img, i, p, j);
      var r := EntryStep(m, img, i, p).value;
      if r.1 == Continue {
        LoopElsewhere(m, r.0, i + 1, end, p, j);
      }
    }
  }

  /** A pass leaves a mark and its word alone. */
  lemma MarkedOnce(m: Module, img: Image, p: Pass, j: nat)
    requires Apart(m) && WellFormed(m, img) && j < |Entries(m)| && img.marks[j].Some?
    requires Relocate(m, img, p).Returns?
    ensures var after := Relocate(m, img, p).value.0;
            |after.mem| == |img.mem| && SameEntry(m, img, after, j)
  {
    LoopElsewhere(m, img, 0, |m.relocs|, p, j);
    var a := Loop(m, img, 0, |m.relocs|, p).value;
    if a.1.None? && !p.jmpslotsDone {
      LoopElsewhere(m, a.0, |m.relocs|, |Entries(m)|, p, j);
    }
  }

  // ---- Which pass an entry owes its value to ----

  /** An entry that is marked between two images got its mark and its word from pass `p` and its word before. */
  predicate MarkedFrom(m: Module, before: Image, after: Image, p: Pass, j: nat)
    requires WellFormed(m, before) && WellFormed(m, after) && |before.mem| == |after.mem| && j < |Entries(m)|
  {
    var off := Offset(m, j);
    && before.marks[j].None? && after.marks[j].Some? && Slot(before.mem, off)
    && Get(after.mem, off) < U64
    && Compute(m, j, Get(before.mem, off), p) == Returns(Some((after.marks[j].value, Get(after.mem, off))))
  }

  lemma StepMarks(m: Module, img: Image, i: nat, p: Pass)
    requires WellFormed(m, img) && i < |Entries(m)| && EntryStep(m, img, i, p).Returns?
    requires img.marks[i].None? && EntryStep(m, img, i, p).value.0.marks[i].Some?
    ensures MarkedFrom(m, img, EntryStep(m, img, i, p).value.0, p, i)
  {
    var off := Offset(m, i);
    var c := Compute(m, i, Get(img.mem, off), p).value.value;
    PutGet(img.mem, off, c.1);
  }

  lemma {:induction false} LoopMarks(m: Module, img: Image, i: nat, end: nat, p: Pass, j: nat, after: Image)
    requires Apart(m) && WellFormed(m, img) && i <= end <= |Entries(m)| && j < |Entries(m)|
    requires Loop(m, img, i, end, p).Returns? && after == Loop(m, img, i, end, p).value.0
    requires img.marks[j].None? && after.marks[j].Some?
    ensures |after.mem| == |img.mem| && MarkedFrom(m, img, after, p, j)
    decreases end - i
  {
    LoopLength(m, img, i, end, p);
    if i < end {
      var r := EntryStep(m, img, i, p).value;
      StepLength(m, img, i, p);
      if i != j {
        StepElsewhere(m, img, i, p, j);
        if r.1 == Continue {
          LoopMarks(m, r.0, i + 1, end, p, j, after);
        }
      } else {
        if r.1 == Continue {
          LoopElsewhere(m, r.0, i + 1, end, p, j);
        }
        StepMarks(m, img, i, p);
      }
    }
  }

  /** An entry that a pass marks gets its mark and its word from that pass and the word it found. */
  lemma PassMarks(m: Module, img: Image, p: Pass, j: nat, after: Image)
    requires Apart(m) && WellFormed(m, img) && j < |Entries(m)|
    requires Relocate(m, img, p).Returns? && after == Relocate(m, img, p).value.0
    requires img.marks[j].None? && after.marks[j].Some?
    ensures |after.mem| == |img.mem| && MarkedFrom(m, img, after, p, j)
  {
    var n := |m.relocs|;
    var a := Loop(m, img, 0, n, p).value;
    LoopLength(m, img, 0, n, p);
    if a.0.marks[j].Some? {
      LoopMarks(m, img, 0, n, p, j, a.0);
      if a.1.None? && !p.jmpslotsDone {
        LoopElsewhere(m, a.0, n, |Entries(m)|, p, j);
      }
    } else {
      SecondLoopMarks(m, img, p, j, a.0, after);
    }
  }

  lemma SecondLoopMarks(m: Module, img: Image, p: Pass, j: nat, mid: Image, after: Image)
    requires Apart(m) && WellFormed(m, img) && WellFormed(m, mid) && j < |Entries(m)|
    requires Loop(m, img, 0, |m.relocs|, p) == Returns((mid, None)) && !p.jmpslotsDone
    requires Loop(m, mid, |m.relocs|, |Entries(m)|, p).Returns? && after == Loop(m, mid, |m.relocs|, |Entries(m)|, p).value.0
    requires img.marks[j].None? && mid.marks[j].None? && after.marks[j].Some?
    ensures |after.mem| == |img.mem| && MarkedFrom(m, img, after, p, j)
  {
    var n := |m.relocs|;
    LoopMarks(m, mid, n, |Entries(m)|, p, j, after);
    if j < n {
      LoopElsewhere(m, mid, n, |Entries(m)|, p, j);
    } else {
      LoopElsewhere(m, img, 0, n, p, j);
    }
  }

  lemma {:induction false} PassesPrefix(m: Module, mem: Memory, passes: seq<Pass>, n: nat)
    requires n <= |passes| && Passes(m, mem, passes).Returns?
    ensures Passes(m, mem, passes[..n]).Returns?
  {
    if n < |passes| {
      PassesPrefix(m, mem, passes[..|passes| - 1], n);
      assert passes[..|passes| - 1][..n] == passes[..n];
    } else {
      assert passes[..n] == passes;
    }
  }

  lemma {:induction false} PassesLength(m: Module, mem: Memory, passes: seq<Pass>)
    requires Passes(m, mem, passes).Returns?
    ensures |Passes(m, mem, passes).value.mem| == |mem|
  {
    if passes != [] {
      var n := |passes| - 1;
      PassesLength(m, mem, passes[..n]);
      var img := Passes(m, mem, passes[..n]).value;
      var a := Loop(m, img, 0, |m.relocs|, passes[n]).value;
      LoopLength(m, img, 0, |m.relocs|, passes[n]);
      if a.1.None? && !passes[n].jmpslotsDone {
        LoopLength(m, a.0, |m.relocs|, |Entries(m)|, passes[n]);
      }
    }
  }

  /** The image after the first `n` passes. */
  function After(m: Module, mem: Memory, passes: seq<Pass>, n: nat): (img: Image)
    requires n <= |passes| && Passes(m, mem, passes).Returns?
    ensures WellFormed(m, img) && |img.mem| == |mem|
  {
    PassesPrefix(m, mem, passes, n);
    PassesLength(m, mem, passes[..n]);
    Passes(m, mem, passes[..n]).value
  }

  lemma AfterNext(m: Module, mem: Memory, passes: seq<Pass>, n: nat)
    requires n < |passes| && Passes(m, mem, passes).Returns?
    ensures var r := Relocate(m, After(m, mem, passes, n), passes[n]);
            r.Returns? && r.value.0 == After(m, mem, passes, n + 1)
  {
    PassesPrefix(m, mem, passes, n + 1);
    assert passes[..n + 1][..n] == passes[..n];
  }

  /** Once marked, an entry keeps its mark and its word through every later pass. */
  lemma {:induction false} MarkedForever(m: Module, mem: Memory, passes: seq<Pass>, k: nat, n: nat, j: nat)
    requires Apart(m) && k <= n <= |passes| && j < |Entries(m)| && Passes(m, mem, passes).Returns?
    requires After(m, mem, passes, k).marks[j].Some?
    ensures SameEntry(m, After(m, mem, passes, k), After(m, mem, passes, n), j)
    decreases n
  {
    if k < n {
      MarkedForever(m, mem, passes, k, n - 1, j);
      AfterNext(m, mem, passes, n - 1);
      MarkedOnce(m, After(m, mem, passes, n - 1), passes[n - 1], j);
    }
  }

  /**
    Pass `k` is the one that marked entry `j`: unmarked until then, computed by that pass from the
    word the slot held at the very start, and kept by every later pass.
   */
  ghost predicate MarkedBy(m: Module, mem: Memory, passes: seq<Pass>, j: nat, k: nat)
    requires Passes(m, mem, passes).Returns? && j < |Entries(m)| && k < |passes|
  {
    var off := Offset(m, j);
    var now := After(m, mem, passes, k + 1);
    && (forall i :: 0 <= i <= k ==> After(m, mem, passes, i).marks[j].None?)
    && now.marks[j].Some? && Slot(mem, off) && Get(now.mem, off) < U64
    && Compute(m, j, Get(mem, off), passes[k]) == Returns(Some((now.marks[j].value, Get(now.mem, off))))
    && (forall n :: k < n <= |passes| ==> SameEntry(m, now, After(m, mem, passes, n), j))
  }

  /** The pass that marked an entry, among the first `n`. */
  lemma {:induction false} FindMarking(m: Module, mem: Memory, passes: seq<Pass>, j: nat, n: nat) returns (k: nat)
    requires Apart(m) && n <= |passes| && j < |Entries(m)| && Passes(m, mem, passes).Returns?
    requires After(m, mem, passes, n).marks[j].Some?
    ensures k < n && MarkedBy(m, mem, passes, j, k)
    decreases n
  {
    if n == 0 {
      assert false;
    } else if After(m, mem, passes, n - 1).marks[j].Some? {
      k := FindMarking(m, mem, passes, j, n - 1);
    } else {
      k := n - 1;
      MarkingPass(m, mem, passes, j, k);
    }
  }

  lemma OriginalWord(m: Module, orig: Memory, img: Image, passes: seq<Pass>, j: nat)
    requires Sound(m, orig, img, passes) && j < |Entries(m)| && img.marks[j].None? && Slot(orig, Offset(m, j))
    ensures Get(img.mem, Offset(m, j)) == Get(orig, Offset(m, j))
  {
    assert EntryOk(m, orig, img, j, passes);
  }

  lemma MarkingPass(m: Module, mem: Memory, passes: seq<Pass>, j: nat, k: nat)
    requires Apart(m) && k < |passes| && j < |Entries(m)| && Passes(m, mem, passes).Returns?
    requires After(m, mem, passes, k).marks[j].None? && After(m, mem, passes, k + 1).marks[j].Some?
    ensures MarkedBy(m, mem, passes, j, k)
  {
    var before, now := After(m, mem, passes, k), After(m, mem, passes, k + 1);
    AfterNext(m, mem, passes, k);
    PassMarks(m, before, passes[k], j, now);
    assert Get(before.mem, Offset(m, j)) == Get(mem, Offset(m, j)) by {
      PassesPrefix(m, mem, passes, k);
      PassesKeep(m, mem, passes[..k]);
      OriginalWord(m, mem, before, passes[..k], j);
    }
    forall i | 0 <= i <= k ensures After(m, mem, passes, i).marks[j].None? {
      if After(m, mem, passes, i).marks[j].Some? {
        MarkedForever(m, mem, passes, i, k, j);
      }
    }
    forall n | k < n <= |passes| ensures SameEntry(m, now, After(m, mem, passes, n), j) {
      MarkedForever(m, mem, passes, k + 1, n, j);
    }
  }

  /**
    After any number of passes with changing symbols: an unmarked slot holds its original word, a
    marked one what the pass that marked it computed from that word, and no other byte has changed.
   */
  lemma PassesSound(m: Module, mem: Memory, passes: seq<Pass>)
    requires Apart(m) && Passes(m, mem, passes).Returns?
    ensures Sound(m, mem, Passes(m, mem, passes).value, passes)
    ensures forall j :: 0 <= j < |Entries(m)| && Passes(m, mem, passes).value.marks[j].Some? ==>
              exists k :: 0 <= k < |passes| && MarkedBy(m, mem, passes, j, k)
  {
    PassesKeep(m, mem, passes);
    assert passes[..|passes|] == passes;
    forall j | 0 <= j < |Entries(m)| && Passes(m, mem, passes).value.marks[j].Some?
      ensures exists k :: 0 <= k < |passes| && MarkedBy(m, mem, passes, j, k)
    {
      var k := FindMarking(m, mem, passes, j, |passes|);
    }
  }

  // ---- Where a pass gets to ----

  /** Entry `i` is of a kind its loop can relocate. */
  predicate Plain(m: Module, i: nat)
    requires i < |Entries(m)|
  {
    var kind := Entries(m)[i].kind;
    if i < |m.relocs| then kind in {Abs64, GlobDat, Relative, DtpMod64, DtpOff64} else kind == JumpSlot
  }

  /** The first entry from `i` on that is not, or `end`. */
  function StopAt(m: Module, i: nat, end: nat): (s: nat)
    requires i <= end <= |Entries(m)|
    ensures i <= s <= end && (forall j :: i <= j < s ==> Plain(m, j)) && (s < end ==> !Plain(m, s))
    decreases end - i
  {
    if i == end || !Plain(m, i) then i else StopAt(m, i + 1, end)
  }

  /** The error of a loop that stops at `s`: none at `R_X86_64_NONE` of the first loop, or at its end. */
  function StopError(m: Module, s: nat, end: nat): Option<Kind>
    requires s <= end <= |Entries(m)|
  {
    if s == end || (s < |m.relocs| && Entries(m)[s].kind == Nothing) then None else Some(Entries(m)[s].kind)
  }

  /** The symbol of entry `i` resolves during the pass; a relative entry has none. */
  predicate Resolves(m: Module, p: Pass, i: nat)
    requires i < |Entries(m)|
  {
    Entries(m)[i].kind == Relative || p.resolve(Entries(m)[i].sym, i >= |m.relocs|).Some?
  }

  /**
    What makes the pass abort at entry `i`: a slot outside the memory, except that of a PLT entry
    which is left alone; a relative address in no segment; a TLS sum above 64 bits; a TLS symbol
    that its module lacks.
   */
  predicate Faulty(m: Module, mem: Memory, p: Pass, i: nat)
    requires i < |Entries(m)|
  {
    var r, plt := Entries(m)[i], i >= |m.relocs|;
    var t := p.resolve(r.sym, plt);
    if plt then r.kind == JumpSlot && t.Some? && !Slot(mem, Offset(m, i))
    else
      || !Slot(mem, Offset(m, i))
      || (r.kind == Relative && m.relative(r.addend).None?)
      || (r.kind == DtpMod64 && t.Some? && Get(mem, Offset(m, i)) + t.value.tlsIndex >= U64)
      || (r.kind == DtpOff64 && t.Some? &&
            (t.value.symbolValue.None? || Get(mem, Offset(m, i)) + t.value.symbolValue.value >= U64))
  }

  predicate PlainMarks(m: Module, img: Image) {
    WellFormed(m, img) && forall i :: 0 <= i < |Entries(m)| && img.marks[i].Some? ==> Plain(m, i)
  }

  /** One step: it aborts exactly if the entry is faulty, and marks exactly an entry that resolves. */
  lemma StepFate(m: Module, img: Image, i: nat, p: Pass)
    requires PlainMarks(m, img) && i < |Entries(m)|
    ensures var r := EntryStep(m, img, i, p);
            && (r.Aborts? <==> img.marks[i].None? && Faulty(m, img.mem, p, i))
            && (r.Returns? ==>
                  && PlainMarks(m, r.value.0)
                  && r.value.1 == (if Plain(m, i) then Continue else if i < |m.relocs| && Entries(m)[i].kind == Nothing then Break else Fail(Entries(m)[i].kind))
                  && (r.value.0.marks[i].Some? <==> img.marks[i].Some? || (Plain(m, i) && Resolves(m, p, i)))
                  && (forall j :: 0 <= j < |Entries(m)| && j != i ==> r.value.0.marks[j] == img.marks[j]))
  {
  }

  /** What a pass would do with another entry does not depend on a step. */
  lemma FaultyElsewhere(m: Module, img: Image, i: nat, p: Pass, j: nat)
    requires Apart(m) && WellFormed(m, img) && i < |Entries(m)| && j < |Entries(m)| && i != j
    requires EntryStep(m, img, i, p).Returns?
    ensures Faulty(m, EntryStep(m, img, i, p).value.0.mem, p, j) <==> Faulty(m, img.mem, p, j)
  {
    StepElsewhere(m, img, i, p, j);
  }

  /** Some entry that a loop stopping at `s` gets to is unmarked and faulty. */
  predicate Fails(m: Module, img: Image, i: nat, s: nat, end: nat, p: Pass)
    requires WellFormed(m, img) && end <= |Entries(m)|
  {
    exists j :: i <= j < end && j <= s && img.marks[j].None? && Faulty(m, img.mem, p, j)
  }

  lemma FailsNext(m: Module, img: Image, i: nat, s: nat, end: nat, p: Pass, after: Image)
    requires Apart(m) && PlainMarks(m, img) && i < end <= |Entries(m)| && i <= s
    requires EntryStep(m, img, i, p) == Returns((after, Continue))
    ensures WellFormed(m, after) && (Fails(m, img, i, s, end, p) <==> Fails(m, after, i + 1, s, end, p))
  {
    StepFate(m, img, i, p);
    forall j | i < j < end ensures Faulty(m, after.mem, p, j) <==> Faulty(m, img.mem, p, j) {
      FaultyElsewhere(m, img, i, p, j);
    }
    if Fails(m, img, i, s, end, p) {
      var j :| i <= j < end && j <= s && img.marks[j].None? && Faulty(m, img.mem, p, j);
      assert j != i;
      assert after.marks[j].None? && Faulty(m, after.mem, p, j);
    }
    if Fails(m, after, i + 1, s, end, p) {
      var j :| i + 1 <= j < end && j <= s && after.marks[j].None? && Faulty(m, after.mem, p, j);
      assert img.marks[j].None? && Faulty(m, img.mem, p, j);
    }
  }

  /** A loop aborts exactly if it fails, ends with the error of its stop, and marks what resolves in front of it. */
  lemma {:induction false} LoopFate(m: Module, img: Image, i: nat, end: nat, p: Pass, s: nat)
    requires Apart(m) && PlainMarks(m, img) && i <= end <= |Entries(m)| && s == StopAt(m, i, end)
    ensures var r := Loop(m, img, i, end, p);
            && (r.Aborts? <==> Fails(m, img, i, s, end, p))
            && (r.Returns? ==>
                  && PlainMarks(m, r.value.0) && r.value.1 == StopError(m, s, end)
                  && forall j :: 0 <= j < |Entries(m)| ==>
                       (r.value.0.marks[j].Some? <==> img.marks[j].Some? || (i <= j < s && Resolves(m, p, j))))
    decreases end - i
  {
    if i < end {
      StepFate(m, img, i, p);
      var r := EntryStep(m, img, i, p);
      if r.Aborts? {
        assert Fails(m, img, i, s, end, p);
      } else if Plain(m, i) {
        FailsNext(m, img, i, s, end, p, r.value.0);
        LoopFate(m, r.value.0, i + 1, end, p, s);
      }
    }
  }

  /** Where the two loops stop, whatever the symbols. */
  function FirstStop(m: Module): nat {
    StopAt(m, 0, |m.relocs|)
  }

  function SecondStop(m: Module): nat {
    StopAt(m, |m.relocs|, |Entries(m)|)
  }

  /** The PLT is processed: it is not done yet, and the first loop has met no error. */
  predicate SecondRuns(m: Module, p: Pass) {
    !p.jmpslotsDone && StopError(m, FirstStop(m), |m.relocs|).None?
  }

  /** The pass gets to entry `j`. */
  predicate Visits(m: Module, p: Pass, j: nat) {
    if j < |m.relocs| then j <= FirstStop(m) else SecondRuns(m, p) && j <= SecondStop(m)
  }

  /** The pass relocates entry `j`, unless an earlier one has. */
  predicate Settles(m: Module, p: Pass, j: nat)
    requires j < |Entries(m)|
  {
    Visits(m, p, j) && Plain(m, j) && Resolves(m, p, j)
  }

  /** The error of a pass. */
  function PassError(m: Module, p: Pass): Option<Kind> {
    if StopError(m, FirstStop(m), |m.relocs|).Some? then StopError(m, FirstStop(m), |m.relocs|)
    else if p.jmpslotsDone then None
    else StopError(m, SecondStop(m), |Entries(m)|)
  }

  /** The pass is bound to abort on the image. */
  predicate Aborting(m: Module, img: Image, p: Pass)
    requires WellFormed(m, img)
  {
    exists j :: 0 <= j < |Entries(m)| && Visits(m, p, j) && img.marks[j].None? && Faulty(m, img.mem, p, j)
  }

  /** The PLT entries are unmarked and faulty after the first loop exactly if they were before it. */
  lemma SecondFails(m: Module, img: Image, p: Pass, mid: Image)
    requires Apart(m) && PlainMarks(m, img) && WellFormed(m, mid)
    requires Loop(m, img, 0, |m.relocs|, p).Returns? && mid == Loop(m, img, 0, |m.relocs|, p).value.0
    ensures Fails(m, mid, |m.relocs|, SecondStop(m), |Entries(m)|, p) <==>
            Fails(m, img, |m.relocs|, SecondStop(m), |Entries(m)|, p)
  {
    var n, s := |m.relocs|, SecondStop(m);
    LoopLength(m, img, 0, n, p);
    forall j | n <= j < |Entries(m)| ensures SameEntry(m, img, mid, j) {
      LoopElsewhere(m, img, 0, n, p, j);
    }
    forall j | n <= j < |Entries(m)| ensures Faulty(m, mid.mem, p, j) <==> Faulty(m, img.mem, p, j) {
      assert SameEntry(m, img, mid, j);
    }
    if Fails(m, mid, n, s, |Entries(m)|, p) {
      var j :| n <= j < |Entries(m)| && j <= s && mid.marks[j].None? && Faulty(m, mid.mem, p, j);
      assert SameEntry(m, img, mid, j);
      assert img.marks[j].None? && Faulty(m, img.mem, p, j);
    }
    if Fails(m, img, n, s, |Entries(m)|, p) {
      var j :| n <= j < |Entries(m)| && j <= s && img.marks[j].None? && Faulty(m, img.mem, p, j);
      assert SameEntry(m, img, mid, j);
      assert mid.marks[j].None? && Faulty(m, mid.mem, p, j);
    }
  }

  lemma AbortingIs(m: Module, img: Image, p: Pass)
    requires WellFormed(m, img)
    ensures Aborting(m, img, p) <==>
              || Fails(m, img, 0, FirstStop(m), |m.relocs|, p)
              || (SecondRuns(m, p) && Fails(m, img, |m.relocs|, SecondStop(m), |Entries(m)|, p))
  {
    if Aborting(m, img, p) {
      var j :| 0 <= j < |Entries(m)| && Visits(m, p, j) && img.marks[j].None? && Faulty(m, img.mem, p, j);
    }
    if Fails(m, img, 0, FirstStop(m), |m.relocs|, p) {
      var j :| 0 <= j < |m.relocs| && j <= FirstStop(m) && img.marks[j].None? && Faulty(m, img.mem, p, j);
      assert Visits(m, p, j);
    }
    if SecondRuns(m, p) && Fails(m, img, |m.relocs|, SecondStop(m), |Entries(m)|, p) {
      var j :| |m.relocs| <= j < |Entries(m)| && j <= SecondStop(m) && img.marks[j].None? && Faulty(m, img.mem, p, j);
      assert Visits(m, p, j);
    }
  }

  /** A pass aborts exactly if it is bound to, reports the first entry it cannot handle, and marks what it settles. */
  lemma PassFate(m: Module, img: Image, p: Pass)
    requires Apart(m) && PlainMarks(m, img)
    ensures var r := Relocate(m, img, p);
            && (r.Aborts? <==> Aborting(m, img, p))
            && (r.Returns? ==>
                  && PlainMarks(m, r.value.0) && r.value.1 == PassError(m, p)
                  && forall j :: 0 <= j < |Entries(m)| ==>
                       (r.value.0.marks[j].Some? <==> img.marks[j].Some? || Settles(m, p, j)))
  {
    var n := |m.relocs|;
    AbortingIs(m, img, p);
    LoopFate(m, img, 0, n, p, FirstStop(m));
    var a := Loop(m, img, 0, n, p);
    if a.Returns? && SecondRuns(m, p) {
      SecondFails(m, img, p, a.value.0);
      LoopFate(m, a.value.0, n, |Entries(m)|, p, SecondStop(m));
    }
  }

  // ---- What a run of passes leaves ----

  /** One of the first `n` passes settles entry `j`. */
  predicate SettledBefore(m: Module, passes: seq<Pass>, n: nat, j: nat)
    requires n <= |passes| && j < |Entries(m)|
  {
    exists k :: 0 <= k < n && Settles(m, passes[k], j)
  }

  /** A run aborts in pass `k`: it gets to a faulty entry that no earlier pass has settled. */
  predicate AbortsIn(m: Module, mem: Memory, passes: seq<Pass>, k: nat)
    requires k < |passes|
  {
    exists j :: 0 <= j < |Entries(m)| && Visits(m, passes[k], j) && Faulty(m, mem, passes[k], j) && !SettledBefore(m, passes, k, j)
  }

  /** The marks of an image are those of the entries the first `n` passes settle. */
  predicate MarksAre(m: Module, img: Image, passes: seq<Pass>, n: nat)
    requires WellFormed(m, img) && n <= |passes|
  {
    forall j :: 0 <= j < |Entries(m)| ==> (img.marks[j].Some? <==> SettledBefore(m, passes, n, j))
  }

  lemma MarksNext(m: Module, img: Image, after: Image, passes: seq<Pass>, n: nat)
    requires WellFormed(m, img) && WellFormed(m, after) && n < |passes| && MarksAre(m, img, passes, n)
    requires forall j :: 0 <= j < |Entries(m)| ==> (after.marks[j].Some? <==> img.marks[j].Some? || Settles(m, passes[n], j))
    ensures MarksAre(m, after, passes, n + 1)
  {
    forall j | 0 <= j < |Entries(m)| ensures after.marks[j].Some? <==> SettledBefore(m, passes, n + 1, j) {
      assert SettledBefore(m, passes, n + 1, j) <==> SettledBefore(m, passes, n, j) || Settles(m, passes[n], j);
    }
  }

  lemma AbortsHere(m: Module, mem: Memory, img: Image, passes: seq<Pass>, n: nat)
    requires n < |passes| && Sound(m, mem, img, passes[..n]) && MarksAre(m, img, passes, n)
    ensures Aborting(m, img, passes[n]) <==> AbortsIn(m, mem, passes, n)
  {
    var p := passes[n];
    forall j | 0 <= j < |Entries(m)| && img.marks[j].None? ensures Faulty(m, img.mem, p, j) <==> Faulty(m, mem, p, j) {
      assert EntryOk(m, mem, img, j, passes[..n]);
    }
    if Aborting(m, img, p) {
      var j :| 0 <= j < |Entries(m)| && Visits(m, p, j) && img.marks[j].None? && Faulty(m, img.mem, p, j);
      assert !SettledBefore(m, passes, n, j);
    }
    if AbortsIn(m, mem, passes, n) {
      var j :| 0 <= j < |Entries(m)| && Visits(m, p, j) && Faulty(m, mem, p, j) && !SettledBefore(m, passes, n, j);
      assert img.marks[j].None? && Faulty(m, img.mem, p, j);
    }
  }

  /** A run finishes exactly if no pass aborts, and then exactly the entries that some pass settles are marked. */
  lemma {:induction false} PassesFate(m: Module, mem: Memory, passes: seq<Pass>, n: nat)
    requires Apart(m) && n <= |passes|
    ensures var r := Passes(m, mem, passes[..n]);
            && (r.Returns? <==> forall k :: 0 <= k < n ==> !AbortsIn(m, mem, passes, k))
            && (r.Returns? ==> PlainMarks(m, r.value) && MarksAre(m, r.value, passes, n))
    decreases n
  {
    if n > 0 {
      PassesFate(m, mem, passes, n - 1);
      assert passes[..n][..n - 1] == passes[..n - 1] && passes[..n][n - 1] == passes[n - 1];
      var before := Passes(m, mem, passes[..n - 1]);
      if before.Returns? {
        PassesKeep(m, mem, passes[..n - 1]);
        AbortsHere(m, mem, before.value, passes, n - 1);
        PassFate(m, before.value, passes[n - 1]);
        var r := Relocate(m, before.value, passes[n - 1]);
        if r.Returns? {
          MarksNext(m, before.value, r.value.0, passes, n - 1);
        }
      }
    }
  }

  /**
    What an entry holds once it is relocated, kind by kind, for the word its slot held at the start,
    what its symbol resolves to and, for a relative entry, what is at its address.
   */
  predicate Holds(r: Reloc, word: nat, t: Option<Target>, at: Option<How>, how: How, value: nat) {
    match r.kind
    case Abs64 => t.Some? && how == t.value.how && value == (t.value.addr + r.addend) % U64
    case JumpSlot => t.Some? && how == t.value.how && value == (t.value.addr + r.addend) % U64
    case GlobDat => t.Some? && how == t.value.how && value == t.value.addr
    case Relative => at == Some(how) && value < U64 && (how == Executable(value) || how == Data(value) || how == Tls(value))
    case DtpMod64 => t.Some? && how == Tls(t.value.tlsIndex) && value == word + t.value.tlsIndex < U64
    case DtpOff64 =>
      && t.Some? && t.value.symbolValue.Some? && word + t.value.symbolValue.value < U64
      && value == (word + t.value.symbolValue.value + r.addend) % U64 && how == Data(value)
    case Nothing => false
    case Other(_) => false
  }

  lemma ComputeHolds(m: Module, i: nat, word: nat, p: Pass, how: How, value: Word)
    requires i < |Entries(m)| && Compute(m, i, word, p) == Returns(Some((how, value)))
    ensures var r := Entries(m)[i];
            Holds(r, word, p.resolve(r.sym, i >= |m.relocs|), m.relative(r.addend), how, value)
  {
  }

  /**
    After any number of passes with changing symbols, an entry holds what the first pass that settles
    it gives for the word of the slot at the start; if no pass does, the slot is as it was.
   */
  lemma FinalWords(m: Module, mem: Memory, passes: seq<Pass>, img: Image, j: nat)
    requires Apart(m) && Passes(m, mem, passes) == Returns(img) && j < |Entries(m)|
    ensures |img.mem| == |mem|
    ensures forall k :: 0 <= k < |passes| && Settles(m, passes[k], j) && !SettledBefore(m, passes, k, j) ==>
              var r := Entries(m)[j];
              && Slot(mem, Offset(m, j)) && img.marks[j].Some?
              && Holds(r, Get(mem, Offset(m, j)), passes[k].resolve(r.sym, j >= |m.relocs|), m.relative(r.addend),
                       img.marks[j].value, Get(img.mem, Offset(m, j)))
    ensures !SettledBefore(m, passes, |passes|, j) ==>
              img.marks[j].None? && (Slot(mem, Offset(m, j)) ==> Get(img.mem, Offset(m, j)) == Get(mem, Offset(m, j)))
  {
    assert passes[..|passes|] == passes;
    PassesLength(m, mem, passes);
    PassesFate(m, mem, passes, |passes|);
    PassesKeep(m, mem, passes);
    assert EntryOk(m, mem, img, j, passes);
    forall k | 0 <= k < |passes| && Settles(m, passes[k], j) && !SettledBefore(m, passes, k, j)
      ensures Slot(mem, Offset(m, j)) && img.marks[j].Some?
      ensures var r := Entries(m)[j];
              Holds(r, Get(mem, Offset(m, j)), passes[k].resolve(r.sym, j >= |m.relocs|), m.relative(r.addend),
                    img.marks[j].value, Get(img.mem, Offset(m, j)))
    {
      SettlingPass(m, mem, passes, j, k);
    }
  }

  lemma SettlingPass(m: Module, mem: Memory, passes: seq<Pass>, j: nat, k: nat)
    requires Apart(m) && Passes(m, mem, passes).Returns? && j < |Entries(m)| && k < |passes|
    requires Settles(m, passes[k], j) && !SettledBefore(m, passes, k, j)
    ensures var r, img := Entries(m)[j], After(m, mem, passes, |passes|);
            && Slot(mem, Offset(m, j)) && img.marks[j].Some?
            && Holds(r, Get(mem, Offset(m, j)), passes[k].resolve(r.sym, j >= |m.relocs|), m.relative(r.addend),
                     img.marks[j].value, Get(img.mem, Offset(m, j)))
  {
    PassesPrefix(m, mem, passes, k);
    PassesPrefix(m, mem, passes, k + 1);
    PassesFate(m, mem, passes, k);
    PassesFate(m, mem, passes, k + 1);
    assert SettledBefore(m, passes, k + 1, j);
    MarkingPass(m, mem, passes, j, k);
    var now := After(m, mem, passes, k + 1);
    assert SameEntry(m, now, After(m, mem, passes, |passes|), j);
    ComputeHolds(m, j, Get(mem, Offset(m, j)), passes[k], now.marks[j].value, Get(now.mem, Offset(m, j)));
  }

  // ---- Repeating a pass changes nothing ----

  /** An entry that a step has dealt with makes the same step on any image that agrees on it do nothing. */
  lemma StepAgain(m: Module, img: Image, i: nat, p: Pass, fin: Image)
    requires WellFormed(m, img) && i < |Entries(m)| && EntryStep(m, img, i, p).Returns?
    requires Same(m, EntryStep(m, img, i, p).value.0, fin, i, i + 1)
    requires |img.mem| == |fin.mem|
    ensures EntryStep(m, fin, i, p) == Returns((fin, EntryStep(m, img, i, p).value.1))
  {
    assert SameEntry(m, EntryStep(m, img, i, p).value.0, fin, i);
  }

  /** Running a loop again on an image that agrees with its result changes nothing and ends the same way. */
  lemma {:induction false} LoopAgain(m: Module, img: Image, i: nat, end: nat, p: Pass, fin: Image)
    requires Apart(m) && WellFormed(m, img) && i <= end <= |Entries(m)|
    requires Loop(m, img, i, end, p).Returns?
    requires Same(m, Loop(m, img, i, end, p).value.0, fin, i, end)
    ensures Loop(m, fin, i, end, p) == Returns((fin, Loop(m, img, i, end, p).value.1))
    decreases end - i
  {
    if i < end {
      var r := EntryStep(m, img, i, p).value;
      var after := Loop(m, img, i, end, p).value.0;
      StepLength(m, img, i, p);
      if r.1 == Continue {
        LoopElsewhere(m, r.0, i + 1, end, p, i);
        LoopAgain(m, r.0, i + 1, end, p, fin);
      }
      assert SameEntry(m, after, fin, i);
      StepAgain(m, img, i, p, fin);
    }
  }

  lemma StepLength(m: Module, img: Image, i: nat, p: Pass)
    requires WellFormed(m, img) && i < |Entries(m)| && EntryStep(m, img, i, p).Returns?
    ensures |EntryStep(m, img, i, p).value.0.mem| == |img.mem|
  {
  }

  /** Repeating a pass with the same resolution results is a no-op and reports the same error. */
  lemma PassAgain(m: Module, img: Image, p: Pass)
    requires Apart(m) && WellFormed(m, img) && Relocate(m, img, p).Returns?
    ensures var r := Relocate(m, img, p).value;
            Relocate(m, r.0, p) == Returns(r)
  {
    var n := |m.relocs|;
    var a := Loop(m, img, 0, n, p).value;
    var fin := Relocate(m, img, p).value.0;
    if a.1.None? && !p.jmpslotsDone {
      forall j | 0 <= j < n ensures |a.0.mem| == |fin.mem| && SameEntry(m, a.0, fin, j) {
        LoopElsewhere(m, a.0, n, |Entries(m)|, p, j);
      }
      LoopLength(m, a.0, n, |Entries(m)|, p);
      LoopAgain(m, img, 0, n, p, fin);
      LoopAgain(m, a.0, n, |Entries(m)|, p, fin);
    } else {
      LoopAgain(m, img, 0, n, p, fin);
    }
  }

  lemma {:induction false} LoopLength(m: Module, img: Image, i: nat, end: nat, p: Pass)
    requires WellFormed(m, img) && i <= end <= |Entries(m)| && Loop(m, img, i, end, p).Returns?
    ensures |Loop(m, img, i, end, p).value.0.mem| == |img.mem|
    decreases end - i
  {
    if i < end {
      StepLength(m, img, i, p);
      var r := EntryStep(m, img, i, p).value;
      if r.1 == Continue {
        LoopLength(m, r.0, i + 1, end, p);
      }
    }
  }

  // ---- In place ----

  /** One entry, as both loops treat it. */
  method ApplyEntry(m: Module, i: nat, p: Pass, mem: array<nat>, marks: array<Option<How>>) returns (r: Run<Flow>)
    requires marks.Length == |Entries(m)| && i < |Entries(m)|
    modifies mem, marks
    ensures match r
            case Returns(flow) => EntryStep(m, old(Image(mem[..], marks[..])), i, p) == Returns((Image(mem[..], marks[..]), flow))
            case Aborts(f) => EntryStep(m, old(Image(mem[..], marks[..])), i, p) == Aborts(f)
  {
    if marks[i].Some? {
      return Returns(Continue);
    }
    var e := Entries(m)[i];
    var plt := i >= |m.relocs|;
    if plt && e.kind != JumpSlot {
      return Returns(Fail(e.kind));
    }
    if plt && p.resolve(e.sym, true).None? {
      return Returns(Continue);
    }
    var off := Offset(m, i);
    if off + 8 > mem.Length {
      return Aborts(OutOfBounds);
    }
    if e.kind == Nothing {
      return Returns(Break);
    }
    if e.kind.Other? || (!plt && e.kind == JumpSlot) {
      return Returns(Fail(e.kind));
    }
    var c := Compute(m, i, Get(mem[..], off), p);
    match c
    case Aborts(f) => return Aborts(f);
    case Returns(None) => return Returns(Continue);
    case Returns(Some((how, value))) =>
      Write(mem, off, value);
      marks[i] := Some(how);
      return Returns(Continue);
  }

  /** `relocate_rela` and `relocate_plt` are this loop over their part of the entries. */
  method RunLoop(m: Module, begin: nat, end: nat, p: Pass, mem: array<nat>, marks: array<Option<How>>)
    returns (r: Run<Option<Kind>>)
    requires marks.Length == |Entries(m)| && begin <= end <= |Entries(m)|
    modifies mem, marks
    ensures match r
            case Returns(e) => Loop(m, old(Image(mem[..], marks[..])), begin, end, p) == Returns((Image(mem[..], marks[..]), e))
            case Aborts(f) => Loop(m, old(Image(mem[..], marks[..])), begin, end, p) == Aborts(f)
  {
    ghost var start := Image(mem[..], marks[..]);
    var i := begin;
    while i < end
      invariant begin <= i <= end
      invariant Loop(m, start, begin, end, p) == Loop(m, Image(mem[..], marks[..]), i, end, p)
    {
      var flow := ApplyEntry(m, i, p, mem, marks);
      match flow {
        case Aborts(f) => return Aborts(f);
        case Returns(Break) => return Returns(None);
        case Returns(Fail(k)) => return Returns(Some(k));
        case Returns(Continue) =>
      }
      i := i + 1;
    }
    return Returns(None);
  }

  /** `relocate_single`. */
  method RelocateSingle(m: Module, p: Pass, mem: array<nat>, marks: array<Option<How>>) returns (r: Run<Option<Kind>>)
    requires marks.Length == |Entries(m)|
    modifies mem, marks
    ensures match r
            case Returns(e) => Relocate(m, old(Image(mem[..], marks[..])), p) == Returns((Image(mem[..], marks[..]), e))
            case Aborts(f) => Relocate(m, old(Image(mem[..], marks[..])), p) == Aborts(f)
  {
    r := RunLoop(m, 0, |m.relocs|, p, mem, marks);
    if r == Returns(None) && !p.jmpslotsDone {
      r := RunLoop(m, |m.relocs|, |Entries(m)|, p, mem, marks);
    }
  }
}
