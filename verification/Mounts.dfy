/**
  The list of mounted filesystems and the identifiers it hands out: a search that starts at a
  global 16-bit counter and packs each candidate with the filesystem type into 32 bits.
 */
module Mounts {
  import opened Machine

  /** A filesystem identifier, `f_fsid`: a packed word and the filesystem type. */
  type Id = (nat, nat)

  // ---- The word of an identifier ----

  /** `(v2 << 24) | 0xff00` on 32 bits. */
  function TypeBits(ty: nat): nat {
    Or((ty * 0x1000000) % 0x1_0000_0000, 0xff00)
  }

  /** The word tried first. */
  function Pack(base: nat, ty: nat): nat {
    Or(Or(base * 256, base), TypeBits(ty))
  }

  /** The same word, as it is put together on later tries. */
  function PackAgain(base: nat, ty: nat): nat {
    Or(Or(TypeBits(ty), base), base * 256)
  }

  lemma {:induction false} OrZero(x: nat)
    ensures Or(0, x) == x && Or(x, 0) == x
  {
    if x != 0 {
      OrZero(x / 2);
    }
  }

  lemma {:induction false} OrCommutes(x: nat, y: nat)
    ensures Or(x, y) == Or(y, x)
    decreases x + y
  {
    if x + y != 0 {
      OrCommutes(x / 2, y / 2);
    }
  }

  lemma OrSplit(x: nat, y: nat)
    ensures Or(x, y) / 2 == Or(x / 2, y / 2)
    ensures Or(x, y) % 2 == (if x % 2 == 1 || y % 2 == 1 then 1 else 0)
  {
  }

  lemma {:induction false} OrAssociates(x: nat, y: nat, z: nat)
    ensures Or(Or(x, y), z) == Or(x, Or(y, z))
    decreases x + y + z
  {
    if x + y + z != 0 {
      OrAssociates(x / 2, y / 2, z / 2);
      OrSplit(x, y);
      OrSplit(y, z);
      OrSplit(Or(x, y), z);
      OrSplit(x, Or(y, z));
    } else {
      assert Or(0, 0) == 0;
    }
  }

  /** Both ways of writing the word agree. */
  lemma PackAgrees(base: nat, ty: nat)
    ensures PackAgain(base, ty) == Pack(base, ty)
  {
    var t := TypeBits(ty);
    OrCommutes(Or(t, base), base * 256);
    OrCommutes(t, base);
    OrAssociates(base * 256, base, t);
  }

  lemma HalveDiv(x: nat, a: nat)
    requires a > 0 && a % 2 == 0
    ensures x / a == (x / 2) / (a / 2)
  {
    HalveMod(x, a);
    var h, q := a / 2, (x / 2) / (a / 2);
    assert x / 2 == q * h + (x / 2) % h;
    assert q * a == 2 * (q * h);
    assert x % a < a;
    DivModUnique(x, a, q, x % a);
  }

  function Quot(x: nat, a: nat): nat
    requires a > 0
  {
    x / a
  }

  /** Dropping low bits, and keeping only them, goes through `|`. */
  lemma {:induction false} OrDiv(x: nat, y: nat, a: nat)
    requires IsPow2(a)
    ensures Quot(Or(x, y), a) == Or(Quot(x, a), Quot(y, a))
  {
    if a > 1 {
      OrSplit(x, y);
      OrDiv(x / 2, y / 2, a / 2);
      HalveDiv(x, a);
      HalveDiv(y, a);
      HalveDiv(Or(x, y), a);
    }
  }

  lemma {:induction false} OrMod(x: nat, y: nat, a: nat)
    requires IsPow2(a)
    ensures Or(x, y) % a == Or(x % a, y % a)
  {
    if a == 1 {
      OrZero(0);
    } else {
      OrSplit(x, y);
      OrMod(x / 2, y / 2, a / 2);
      HalveMod(x, a);
      HalveMod(y, a);
      HalveMod(Or(x, y), a);
      OrSplit(x % a, y % a);
    }
  }

  /** A field that only one of the operands has anything in. */
  lemma OrField(a: nat, b: nat, c: nat, d: nat, m: nat)
    requires IsPow2(m) && a % m == 0 && c % m == 0 && d % m == 0
    ensures Or(Or(a, b), Or(c, d)) % m == b % m
  {
    OrMod(Or(a, b), Or(c, d), m);
    OrMod(a, b, m);
    OrMod(c, d, m);
    OrZero(0);
    OrZero(b % m);
  }

  lemma OrHighField(a: nat, b: nat, c: nat, d: nat, m: nat)
    requires IsPow2(m) && Quot(b, m) == 0 && Quot(d, m) == 0
    ensures Quot(Or(Or(a, b), Or(c, d)), m) == Or(Quot(a, m), Quot(c, m))
  {
    OrDiv(Or(a, b), Or(c, d), m);
    OrDiv(a, b, m);
    OrDiv(c, d, m);
    OrZero(Quot(a, m));
    OrZero(Quot(c, m));
  }

  lemma ByteIsPow2()
    ensures IsPow2(256) && IsPow2(0x1_0000)
  {
    Times256(1);
    Times256(256);
  }

  /** The low byte of the word is the low byte of the counter. */
  lemma PackLow(base: nat, ty: nat)
    ensures Pack(base, ty) % 256 == base % 256
  {
    ByteIsPow2();
    var t := (ty * 0x1000000) % 0x1_0000_0000;
    assert t % 256 == 0;
    OrField(base * 256, base, t, 0xff00, 256);
  }

  /** Shifted to the top of 32 bits, only the low byte of the type is left. */
  lemma TypeShifted(ty: nat)
    ensures (ty * 0x1000000) % 0x1_0000_0000 == ty % 256 * 0x1000000
  {
    var q, r := ty / 256, ty % 256;
    assert ty == 256 * q + r;
    DivModUnique(ty * 0x1000000, 0x1_0000_0000, q, r * 0x1000000);
  }

  /** The third byte of the word is the high byte of the counter. */
  lemma PackHigh(base: nat, ty: nat)
    requires base < 0x1_0000
    ensures Pack(base, ty) / 0x1_0000 % 256 == base / 256
  {
    var t := (ty * 0x1000000) % 0x1_0000_0000;
    TypeShifted(ty);
    OrThird(base * 256, base, t, 0xff00, base / 256, ty % 256 * 256);
  }

  lemma OrThird(a: nat, b: nat, c: nat, d: nat, h: nat, u: nat)
    requires Quot(b, 0x1_0000) == 0 && Quot(d, 0x1_0000) == 0 && Quot(a, 0x1_0000) == h && Quot(c, 0x1_0000) == u
    requires h < 256 && u % 256 == 0
    ensures Quot(Or(Or(a, b), Or(c, d)), 0x1_0000) % 256 == h
  {
    ByteIsPow2();
    OrHighField(a, b, c, d, 0x1_0000);
    LowerField(h, u);
  }

  lemma LowerField(h: nat, u: nat)
    requires h < 256 && u % 256 == 0
    ensures Or(h, u) % 256 == h
  {
    assert Or(h, u) % 256 == Or(h % 256, u % 256) by {
      ByteIsPow2();
      OrMod(h, u, 256);
    }
    assert h % 256 == h;
    OrZero(h);
  }

  lemma {:induction false} OrOnes(x: nat, m: nat)
    requires IsPow2(m) && x < m
    ensures Or(x, m - 1) == m - 1
  {
    if m == 1 {
      OrZero(0);
    } else {
      OrOnes(x / 2, m / 2);
      OrSplit(x, m - 1);
      assert (m - 1) / 2 == m / 2 - 1 && (m - 1) % 2 == 1;
    }
  }

  /** A byte that one operand fills. */
  lemma OrFills(u: nat, c: nat, d: nat, ones: nat)
    requires c % 256 == 0 && d == ones == 0xff
    ensures Or(u, Or(c, d)) % 256 == ones
  {
    ByteIsPow2();
    OrMod(c, d, 256);
    OrZero(d);
    OrMod(u, Or(c, d), 256);
    OrOnes(u % 256, 256);
  }

  lemma OrMiddle(u: nat, t: nat, d: nat)
    requires Quot(t, 256) % 256 == 0 && Quot(d, 256) == 0xff
    ensures Quot(Or(u, Or(t, d)), 256) % 256 == 0xff
  {
    ByteIsPow2();
    OrDiv(u, Or(t, d), 256);
    OrDiv(t, d, 256);
    OrFills(Quot(u, 256), Quot(t, 256), Quot(d, 256), 0xff);
  }

  /** The second byte of the word is all ones. */
  lemma PackMiddle(base: nat, ty: nat)
    ensures Pack(base, ty) / 256 % 256 == 0xff
  {
    TypeShifted(ty);
    OrMiddle(Or(base * 256, base), (ty * 0x1000000) % 0x1_0000_0000, 0xff00);
  }

  lemma OrTop(a: nat, b: nat, c: nat, d: nat, u: nat, m: nat)
    requires IsPow2(m) && Quot(a, m) == 0 && Quot(b, m) == 0 && Quot(c, m) == u && Quot(d, m) == 0
    ensures Quot(Or(Or(a, b), Or(c, d)), m) == u
  {
    OrHighField(a, b, c, d, m);
    OrZero(u);
  }

  /** The top byte of the word is the low byte of the type. */
  lemma PackTop(base: nat, ty: nat)
    requires base < 0x1_0000
    ensures Pack(base, ty) / 0x1000000 == ty % 256
  {
    assert IsPow2(0x1000000) by {
      Times256(1);
      Times256(0x100);
      Times256(0x1_0000);
    }
    TypeShifted(ty);
    OrTop(base * 256, base, ty % 256 * 0x1000000, 0xff00, ty % 256, 0x1000000);
  }

  lemma FourBytes(x: nat)
    ensures x == x / 0x1000000 * 0x1000000 + x / 0x1_0000 % 256 * 0x1_0000 + x / 256 % 256 * 256 + x % 256
  {
  }

  /** The whole word, byte by byte. */
  lemma PackIs(base: nat, ty: nat)
    requires base < 0x1_0000
    ensures Pack(base, ty) == ty % 256 * 0x1000000 + base / 256 * 0x1_0000 + 0xff00 + base % 256
  {
    PackLow(base, ty);
    PackMiddle(base, ty);
    PackHigh(base, ty);
    PackTop(base, ty);
    FourBytes(Pack(base, ty));
  }

  /** The word is injective in the counter. */
  lemma PackInjective(b1: nat, b2: nat, ty: nat)
    requires b1 < 0x1_0000 && b2 < 0x1_0000 && Pack(b1, ty) == Pack(b2, ty)
    ensures b1 == b2
  {
    PackLow(b1, ty);
    PackLow(b2, ty);
    PackHigh(b1, ty);
    PackHigh(b2, ty);
  }

  // ---- The search ----

  /** `wrapping_add(1)` on 16 bits, and what `n` of them give. */
  function Next(base: nat): nat {
    if base == 0xffff then 0 else base + 1
  }

  function After(base: nat, n: nat): nat {
    if n == 0 then base else Next(After(base, n - 1))
  }

  lemma {:induction false} AfterWraps(base: nat, n: nat)
    requires base < 0x1_0000
    ensures After(base, n) == (base + n) % 0x1_0000
  {
    if n > 0 {
      AfterWraps(base, n - 1);
    }
  }

  /** The identifier the loop looks at after `n` others, for a counter that wraps at 16 bits. */
  function Candidate(base: nat, ty: nat, n: nat): Id {
    (Pack(After(base, n), ty), ty)
  }

  /** How many candidates are taken before the first free one, or nothing if all of them are taken. */
  function Search(ids: seq<Id>, base: nat, ty: nat, n: nat): (r: Option<nat>)
    requires n <= 0x1_0000
    ensures r.Some? ==>
              && n <= r.value < 0x1_0000
              && Candidate(base, ty, r.value) !in ids
              && forall m :: n <= m < r.value ==> Candidate(base, ty, m) in ids
    ensures r.None? ==> forall m :: n <= m < 0x1_0000 ==> Candidate(base, ty, m) in ids
    decreases 0x1_0000 - n
  {
    if n == 0x1_0000 then None
    else if Candidate(base, ty, n) !in ids then Some(n)
    else Search(ids, base, ty, n + 1)
  }

  ghost predicate SomeFree(ids: seq<Id>, ty: nat) {
    exists b :: 0 <= b < 0x1_0000 && Candidate(b, ty, 0) !in ids
  }

  lemma FreeIsFound(ids: seq<Id>, base: nat, ty: nat, b: nat)
    requires base < 0x1_0000 && b < 0x1_0000 && Candidate(b, ty, 0) !in ids
    ensures Search(ids, base, ty, 0).Some?
  {
    var n := if base <= b then b - base else b + 0x1_0000 - base;
    assert After(base, n) == b by {
      AfterWraps(base, n);
    }
    SameCandidate(base, ty, n);
  }

  lemma SameCandidate(base: nat, ty: nat, n: nat)
    ensures Candidate(base, ty, n) == Candidate(After(base, n), ty, 0)
  {
  }

  /** The loop ends if and only if some identifier of the type is free; otherwise no candidate ever is. */
  lemma SearchEnds(ids: seq<Id>, base: nat, ty: nat)
    requires base < 0x1_0000
    ensures Search(ids, base, ty, 0).Some? <==> SomeFree(ids, ty)
    ensures !SomeFree(ids, ty) ==> forall n: nat :: Candidate(base, ty, n) in ids
  {
    if SomeFree(ids, ty) {
      var b :| 0 <= b < 0x1_0000 && Candidate(b, ty, 0) !in ids;
      FreeIsFound(ids, base, ty, b);
    } else {
      forall n: nat ensures Candidate(base, ty, n) in ids {
        AfterWraps(base, n);
        SameCandidate(base, ty, n);
      }
    }
  }

  /** The first `n` identifiers of a type. */
  ghost function Firsts(ty: nat, n: nat): set<Id>
    requires n <= 0x1_0000
  {
    set b: nat | b < n :: Candidate(b, ty, 0)
  }

  lemma {:induction false} FirstsSize(ty: nat, n: nat)
    requires n <= 0x1_0000
    ensures |Firsts(ty, n)| == n
  {
    if n == 0 {
      assert Firsts(ty, 0) == {};
    } else {
      FirstsSize(ty, n - 1);
      var last := Candidate(n - 1, ty, 0);
      FirstsNext(ty, n - 1, last);
    }
  }

  lemma FirstsNext(ty: nat, n: nat, last: Id)
    requires n < 0x1_0000 && last == Candidate(n, ty, 0)
    ensures Firsts(ty, n + 1) == Firsts(ty, n) + {last} && last !in Firsts(ty, n)
  {
    forall b: nat | b < n ensures Candidate(b, ty, 0) != last {
      Distinct(b, n, ty);
    }
  }

  lemma Distinct(b1: nat, b2: nat, ty: nat)
    requires b1 < b2 < 0x1_0000
    ensures Candidate(b1, ty, 0) != Candidate(b2, ty, 0)
  {
    if Pack(b1, ty) == Pack(b2, ty) {
      PackInjective(b1, b2, ty);
    }
  }

  lemma {:induction false} SetBound(ids: seq<Id>, s: set<Id>)
    requires forall x :: x in s ==> x in ids
    ensures |s| <= |ids|
    decreases |ids|
  {
    if s != {} {
      var n := |ids| - 1;
      SetBound(ids[..n], s - {ids[n]});
    }
  }

  /** With fewer than 65536 mounts some identifier is free, whatever the type. */
  lemma Pigeonhole(ids: seq<Id>, ty: nat)
    requires |ids| < 0x1_0000
    ensures SomeFree(ids, ty)
  {
    if !SomeFree(ids, ty) {
      forall x | x in Firsts(ty, 0x1_0000) ensures x in ids {
        var b: nat :| b < 0x1_0000 && x == Candidate(b, ty, 0);
      }
      SetBound(ids, Firsts(ty, 0x1_0000));
      FirstsSize(ty, 0x1_0000);
    }
  }

  // ---- Any sequence of operations ----

  predicate Unique<T(==)>(s: seq<T>) {
    forall i, j :: 0 <= i < j < |s| ==> s[i] != s[j]
  }

  function Without<T>(s: seq<T>, i: nat): seq<T>
    requires i < |s|
  {
    s[..i] + s[i + 1..]
  }

  function Swapped<T>(s: seq<T>, a: nat, b: nat): seq<T>
    requires a < |s| && b < |s|
  {
    s[a := s[b]][b := s[a]]
  }

  datatype Op = Push(ty: nat) | Remove(i: nat) | Swap(a: nat, b: nat)

  datatype State = State(ids: seq<Id>, base: nat)

  /** One operation on the identifiers; nothing if it does not end or is out of range. */
  function Step(s: State, op: Op): Option<State> {
    match op
    case Push(ty) =>
      (match Search(s.ids, s.base, ty, 0)
       case None => None
       case Some(n) => Some(State(s.ids + [Candidate(s.base, ty, n)], After(s.base, n + 1))))
    case Remove(i) => if i < |s.ids| then Some(State(Without(s.ids, i), s.base)) else None
    case Swap(a, b) => if a < |s.ids| && b < |s.ids| then Some(State(Swapped(s.ids, a, b), s.base)) else None
  }

  /** A removal closes the gap and a swap exchanges two identifiers; neither touches the others or the counter. */
  lemma ListSteps(s: State, op: Op, t: State, k: nat)
    requires Step(s, op) == Some(t) && !op.Push? && k < |t.ids|
    ensures t.base == s.base
    ensures op.Remove? ==> |t.ids| == |s.ids| - 1 && t.ids[k] == s.ids[if k < op.i then k else k + 1]
    ensures op.Swap? ==> |t.ids| == |s.ids| && t.ids[k] == s.ids[if k == op.a then op.b else if k == op.b then op.a else k]
  {
  }

  function Exec(s: State, ops: seq<Op>): Option<State> {
    if ops == [] then Some(s)
    else
      var m := Exec(s, ops[..|ops| - 1]);
      if m.None? then None else Step(m.value, ops[|ops| - 1])
  }

  lemma StepKeepsDistinct(s: State, op: Op, t: State)
    requires Unique(s.ids) && s.base < 0x1_0000 && Step(s, op) == Some(t)
    ensures Unique(t.ids) && t.base < 0x1_0000
  {
    match op
    case Push(ty) => AfterWraps(s.base, Search(s.ids, s.base, ty, 0).value + 1);
    case Remove(i) => UniqueWithout(s.ids, i);
    case Swap(a, b) => UniqueSwapped(s.ids, a, b);
  }

  /** All identifiers stay pairwise distinct over any sequence of pushes, removals and swaps. */
  lemma {:induction false} RunKeepsDistinct(s: State, ops: seq<Op>, t: State)
    requires Unique(s.ids) && s.base < 0x1_0000 && Exec(s, ops) == Some(t)
    ensures Unique(t.ids) && t.base < 0x1_0000
  {
    if ops != [] {
      var m := Exec(s, ops[..|ops| - 1]).value;
      RunKeepsDistinct(s, ops[..|ops| - 1], m);
      StepKeepsDistinct(m, ops[|ops| - 1], t);
    }
  }

  /** With fewer than 65536 mounts a push always ends, whatever the counter and the type. */
  lemma PushEnds(s: State, ty: nat)
    requires s.base < 0x1_0000 && |s.ids| < 0x1_0000
    ensures Step(s, Op.Push(ty)).Some?
  {
    Pigeonhole(s.ids, ty);
    SearchEnds(s.ids, s.base, ty);
  }

  // ---- The run that uses up all identifiers of a type ----

  function Pushes(ty: nat, n: nat): (ops: seq<Op>)
    ensures |ops| == n
  {
    if n == 0 then [] else Pushes(ty, n - 1) + [Op.Push(ty)]
  }

  /** Every identifier is one of the type's. */
  ghost predicate OfType(ids: seq<Id>, ty: nat) {
    forall i :: 0 <= i < |ids| ==> ids[i] in Firsts(ty, 0x1_0000)
  }

  lemma CandidateOfType(base: nat, ty: nat, n: nat)
    requires base < 0x1_0000
    ensures Candidate(base, ty, n) in Firsts(ty, 0x1_0000)
  {
    var b := After(base, n);
    assert b < 0x1_0000 by {
      AfterWraps(base, n);
    }
    SameCandidate(base, ty, n);
    assert Candidate(b, ty, 0) in Firsts(ty, 0x1_0000);
  }

  lemma PushOfType(s: State, ty: nat, t: State)
    requires OfType(s.ids, ty) && s.base < 0x1_0000 && Step(s, Op.Push(ty)) == Some(t)
    ensures OfType(t.ids, ty) && |t.ids| == |s.ids| + 1
  {
    var n := Search(s.ids, s.base, ty, 0).value;
    CandidateOfType(s.base, ty, n);
  }

  lemma {:induction false} PushesRun(base: nat, ty: nat, n: nat) returns (t: State)
    requires base < 0x1_0000 && n <= 0x1_0000
    ensures Exec(State([], base), Pushes(ty, n)) == Some(t)
    ensures |t.ids| == n && Unique(t.ids) && OfType(t.ids, ty) && t.base < 0x1_0000
  {
    if n == 0 {
      t := State([], base);
    } else {
      var m := PushesRun(base, ty, n - 1);
      PushEnds(m, ty);
      t := Step(m, Op.Push(ty)).value;
      assert Pushes(ty, n)[..n - 1] == Pushes(ty, n - 1);
      StepKeepsDistinct(m, Op.Push(ty), t);
      PushOfType(m, ty, t);
    }
  }

  lemma {:induction false} UniqueSize(ids: seq<Id>)
    requires Unique(ids)
    ensures |set x | x in ids| == |ids|
  {
    var all := set x | x in ids;
    if ids == [] {
      assert all == {};
    } else {
      var n := |ids| - 1;
      UniqueSize(ids[..n]);
      assert all == (set x | x in ids[..n]) + {ids[n]};
    }
  }

  lemma SameSize(a: set<Id>, b: set<Id>)
    requires a <= b && |a| == |b|
    ensures a == b
  {
    assert |b - a| == |b| - |a|;
  }

  /** After 65536 pushes of one type, from any counter, no identifier of it is left and the next push never ends. */
  lemma Exhausted(base: nat, ty: nat) returns (t: State)
    requires base < 0x1_0000
    ensures Exec(State([], base), Pushes(ty, 0x1_0000)) == Some(t)
    ensures !SomeFree(t.ids, ty) && Step(t, Op.Push(ty)) == None
  {
    t := PushesRun(base, ty, 0x1_0000);
    AllTaken(t.ids, ty);
    SearchEnds(t.ids, t.base, ty);
  }

  lemma AllTaken(ids: seq<Id>, ty: nat)
    requires |ids| == 0x1_0000 && Unique(ids) && OfType(ids, ty)
    ensures !SomeFree(ids, ty)
  {
    var all := set x | x in ids;
    UniqueSize(ids);
    FirstsSize(ty, 0x1_0000);
    SameSize(all, Firsts(ty, 0x1_0000));
    forall b | 0 <= b < 0x1_0000 ensures Candidate(b, ty, 0) in ids {
      assert Candidate(b, ty, 0) in Firsts(ty, 0x1_0000);
    }
  }

  /** What a search from counter `base` settles on, and the counter it leaves. */
  predicate Picks(ids: seq<Id>, base: nat, ty: nat, id: Id, next: nat) {
    var n := Search(ids, base, ty, 0);
    n.Some? && id == Candidate(base, ty, n.value) && next == After(base, n.value + 1)
  }

  lemma PicksSteps(ids: seq<Id>, base: nat, ty: nat, id: Id, next: nat)
    requires Picks(ids, base, ty, id, next)
    ensures Step(State(ids, base), Op.Push(ty)) == Some(State(ids + [id], next))
    ensures id.1 == ty && id !in ids
  {
  }

  // ---- The list of mounts ----

  class Mount {
    const ty: nat
    var id: Id

    constructor (ty: nat)
      ensures this.ty == ty && id == (0, 0)
    {
      this.ty := ty;
      id := (0, 0);
    }
  }

  /** `MOUNT_ID`, the counter shared by all pushes. */
  class Counter {
    var base: nat

    constructor ()
      ensures base == 0
    {
      base := 0;
    }
  }

  /** The identifiers of a list of mounts. */
  ghost function Ids(list: seq<Mount>): (ids: seq<Id>)
    reads list
    ensures |ids| == |list|
    ensures forall i :: 0 <= i < |list| ==> ids[i] == list[i].id
  {
    if list == [] then [] else Ids(list[..|list| - 1]) + [list[|list| - 1].id]
  }

  lemma IdsSnoc(list: seq<Mount>, front: seq<Mount>, m: Mount)
    requires list == front + [m]
    ensures Ids(list) == Ids(front) + [m.id]
  {
    assert list[..|list| - 1] == front;
  }

  lemma UniqueSnoc<T>(s: seq<T>, x: T)
    requires Unique(s) && x !in s
    ensures Unique(s + [x])
  {
  }

  lemma UniqueWithout<T>(s: seq<T>, i: nat)
    requires Unique(s) && i < |s|
    ensures Unique(Without(s, i)) && s[i] !in Without(s, i)
  {
  }

  lemma UniqueSwapped<T>(s: seq<T>, a: nat, b: nat)
    requires Unique(s) && a < |s| && b < |s|
    ensures Unique(Swapped(s, a, b))
  {
  }

  lemma {:induction false} IdsWithout(list: seq<Mount>, i: nat)
    requires i < |list|
    ensures Ids(Without(list, i)) == Without(Ids(list), i)
  {
    var u := Without(list, i);
    var a, b := Ids(u), Without(Ids(list), i);
    forall k | 0 <= k < |u| ensures a[k] == b[k] {
      assert u[k] == list[if k < i then k else k + 1];
    }
  }

  lemma {:induction false} IdsSwapped(list: seq<Mount>, a: nat, b: nat)
    requires a < |list| && b < |list|
    ensures Ids(Swapped(list, a, b)) == Swapped(Ids(list), a, b)
  {
  }

  method Repack(base: nat, ty: nat) returns (v1: nat)
    ensures v1 == Pack(base, ty)
  {
    PackAgrees(base, ty);
    v1 := PackAgain(base, ty);
  }

  class Mounts {
    var list: seq<Mount>

    ghost predicate Valid()
      reads this, list
    {
      Unique(list) && Unique(Ids(list))
    }

    constructor ()
      ensures Valid() && list == []
    {
      list := [];
    }

    method IsTaken(id: Id) returns (taken: bool)
      ensures taken <==> id in Ids(list)
    {
      var i := 0;
      while i < |list|
        invariant 0 <= i <= |list|
        invariant forall k :: 0 <= k < i ==> Ids(list)[k] != id
      {
        if list[i].id == id {
          assert Ids(list)[i] == id;
          return true;
        }
        i := i + 1;
      }
      return false;
    }

    /** The loop of `set_id`: the identifier it settles on and the counter it leaves. */
    method FindId(ty: nat, start: nat) returns (id: Id, base: nat)
      requires start < 0x1_0000 && Search(Ids(list), start, ty, 0).Some?
      ensures base < 0x1_0000 && Picks(Ids(list), start, ty, id, base)
    {
      ghost var n := 0;
      base := start;
      var v1 := Pack(base, ty);
      while true
        invariant base < 0x1_0000 && base == After(start, n)
        invariant 0 <= n < 0x1_0000 && v1 == Pack(base, ty)
        invariant Search(Ids(list), start, ty, 0) == Search(Ids(list), start, ty, n)
        decreases 0x1_0000 - n
      {
        base := Next(base);
        var taken := IsTaken((v1, ty));
        if !taken {
          return (v1, ty), base;
        }
        v1 := Repack(base, ty);
        n := n + 1;
      }
    }

    /** `set_id`: the first free candidate from the counter on; the counter ends up one past it. */
    method SetId(m: Mount, counter: Counter)
      requires m !in list && counter.base < 0x1_0000 && SomeFree(Ids(list), m.ty)
      modifies m, counter
      ensures counter.base < 0x1_0000
      ensures Picks(old(Ids(list)), old(counter.base), m.ty, m.id, counter.base)
    {
      assert Search(Ids(list), counter.base, m.ty, 0).Some? by {
        SearchEnds(Ids(list), counter.base, m.ty);
      }
      var id, base := FindId(m.ty, counter.base);
      counter.base := base;
      m.id := id;
    }

    /** `push`, where the search ends: one step on the identifiers. */
    method Push(m: Mount, counter: Counter)
      requires Valid() && m !in list && counter.base < 0x1_0000 && SomeFree(Ids(list), m.ty)
      modifies this, m, counter
      ensures Valid() && list == old(list) + [m] && m.id.1 == m.ty && counter.base < 0x1_0000
      ensures Step(State(old(Ids(list)), old(counter.base)), Op.Push(m.ty)) == Some(State(Ids(list), counter.base))
    {
      ghost var ids, base := Ids(list), counter.base;
      SetId(m, counter);
      assert Ids(list) == ids;
      list := list + [m];
      IdsSnoc(list, old(list), m);
      PicksSteps(ids, base, m.ty, m.id, counter.base);
      UniqueSnoc(ids, m.id);
      UniqueSnoc(old(list), m);
    }

    /** `remove`, by object identity. */
    method Remove(m: Mount) returns (i: nat)
      requires Valid() && m in list
      modifies this
      ensures Valid() && m !in list && i < |old(list)| && old(list)[i] == m
      ensures list == Without(old(list), i) && Ids(list) == Without(old(Ids(list)), i)
    {
      i := 0;
      while list[i] != m
        invariant 0 <= i < |list| && m !in list[..i]
        decreases |list| - i
      {
        i := i + 1;
      }
      UniqueWithout(list, i);
      UniqueWithout(Ids(list), i);
      IdsWithout(list, i);
      list := list[..i] + list[i + 1..];
    }

    method Swap(a: nat, b: nat)
      requires Valid() && a < |list| && b < |list|
      modifies this
      ensures Valid() && list == Swapped(old(list), a, b) && Ids(list) == Swapped(old(Ids(list)), a, b)
    {
      UniqueSwapped(list, a, b);
      UniqueSwapped(Ids(list), a, b);
      IdsSwapped(list, a, b);
      list := list[a := list[b]][b := list[a]];
    }
  }
}
