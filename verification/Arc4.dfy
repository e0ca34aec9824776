/** The random byte generator: a 256-entry box that is shuffled by one swap per byte. */
module Arc4 {
  newtype Byte = x: int | 0 <= x < 256

  const SIZE := 256

  function Add(a: Byte, b: Byte): Byte {
    ((a as int + b as int) % SIZE) as Byte
  }

  function Sub(a: Byte, b: Byte): Byte {
    ((a as int - b as int) % SIZE) as Byte
  }

  lemma AddSub(a: Byte, b: Byte)
    ensures Sub(Add(a, b), b) == a && Add(Sub(a, b), b) == a
  {
  }

  type Box = b: seq<Byte> | |b| == SIZE witness seq(SIZE, _ => 0)

  datatype State = State(i: Byte, j: Byte, sbox: Box)

  function Swap(b: Box, i: Byte, j: Byte): Box {
    b[i as int := b[j as int]][j as int := b[i as int]]
  }

  lemma SwapAt(b: Box, i: Byte, j: Byte, k: Byte)
    ensures Swap(b, i, j)[k as int] == if k == i then b[j as int] else if k == j then b[i as int] else b[k as int]
  {
  }

  lemma SwapTwice(b: Box, i: Byte, j: Byte)
    ensures Swap(Swap(b, i, j), i, j) == b
  {
  }

  /** The state after one byte. */
  function Step(s: State): State {
    var i := Add(s.i, 1);
    var j := Add(s.j, s.sbox[i as int]);
    State(i, j, Swap(s.sbox, i, j))
  }

  /** The byte a step yields, read from the state after it. */
  function Output(s: State): Byte {
    s.sbox[Add(s.sbox[s.i as int], s.sbox[s.j as int]) as int]
  }

  /** The state before the step that led to `s`. */
  function Unstep(s: State): State {
    var was := Swap(s.sbox, s.i, s.j);
    State(Sub(s.i, 1), Sub(s.j, was[s.i as int]), was)
  }

  function Repeat<S>(f: S -> S, s: S, n: nat): S {
    if n == 0 then s else f(Repeat(f, s, n - 1))
  }

  function Run(s: State, n: nat): State {
    Repeat(Step, s, n)
  }

  /** The bytes of `n` steps, in order. */
  function Stream(s: State, n: nat): seq<Byte> {
    Emit(Step, Output, s, n)
  }

  function Emit<S, B>(f: S -> S, out: S -> B, s: S, n: nat): seq<B> {
    if n == 0 then [] else Emit(f, out, s, n - 1) + [out(Repeat(f, s, n))]
  }

  /** The byte of a step, in terms of the state before it. */
  lemma StepOutput(s: State)
    ensures var i := (s.i as int + 1) % SIZE;
            var j := (s.j as int + s.sbox[i] as int) % SIZE;
            var k := (s.sbox[i] as int + s.sbox[j] as int) % SIZE;
            Output(Step(s)) == if k == i then s.sbox[j] else if k == j then s.sbox[i] else s.sbox[k]
  {
    var t := Step(s);
    SwapAt(s.sbox, t.i, t.j, t.i);
    SwapAt(s.sbox, t.i, t.j, t.j);
    SwapAt(s.sbox, t.i, t.j, Add(s.sbox[t.j as int], s.sbox[t.i as int]));
  }

  // ---- No two states merge ----

  lemma StepUndone(s: State)
    ensures Unstep(Step(s)) == s
  {
    var t := Step(s);
    SwapTwice(s.sbox, t.i, t.j);
    AddSub(s.i, 1);
    AddSub(s.j, s.sbox[t.i as int]);
  }

  lemma UnstepRedone(s: State)
    ensures Step(Unstep(s)) == s
  {
    var t := Unstep(s);
    SwapTwice(s.sbox, s.i, s.j);
    AddSub(s.i, 1);
    AddSub(s.j, t.sbox[s.i as int]);
  }

  /** Runs of the same length from different states end in different states. */
  lemma {:induction false} RunInjective(s: State, t: State, n: nat)
    ensures Run(s, n) == Run(t, n) <==> s == t
  {
    if n > 0 {
      StepUndone(Run(s, n - 1));
      StepUndone(Run(t, n - 1));
      RunInjective(s, t, n - 1);
    }
  }

  /** Every state is where some run of the given length ends. */
  lemma {:induction false} RunOnto(t: State, n: nat) returns (s: State)
    ensures Run(s, n) == t
    decreases n
  {
    if n == 0 {
      s := t;
    } else {
      s := RunOnto(Unstep(t), n - 1);
      UnstepRedone(t);
    }
  }

  /** If a run meets a state twice, it has come back to where it started. */
  lemma {:induction false} FirstRepeatIsStart(s: State, m: nat, n: nat)
    requires m <= n && Run(s, m) == Run(s, n)
    ensures Run(s, n - m) == s
    decreases m
  {
    if m > 0 {
      StepUndone(Run(s, m - 1));
      StepUndone(Run(s, n - 1));
      FirstRepeatIsStart(s, m - 1, n - 1);
    }
  }

  // ---- The box stays a permutation ----

  /** Every byte value stands in the box at exactly one place. */
  predicate Permutation(b: Box) {
    && (forall v: Byte :: v in b)
    && forall k, m :: 0 <= k < m < SIZE ==> b[k] != b[m]
  }

  lemma SwapPermutes(b: Box, i: Byte, j: Byte)
    requires Permutation(b)
    ensures Permutation(Swap(b, i, j))
  {
    var c := Swap(b, i, j);
    forall v: Byte ensures v in c {
      assert v in b;
      var k :| 0 <= k < SIZE && b[k] == v;
      var at := if k == i as int then j as int else if k == j as int then i as int else k;
      assert c[at] == v;
    }
    forall k, m | 0 <= k < m < SIZE ensures c[k] != c[m] {
      SwapAt(b, i, j, k as Byte);
      SwapAt(b, i, j, m as Byte);
    }
  }

  lemma {:induction false} RunPermutes(s: State, n: nat)
    requires Permutation(s.sbox)
    ensures Permutation(Run(s, n).sbox)
  {
    if n > 0 {
      RunPermutes(s, n - 1);
      var t := Run(s, n - 1);
      SwapPermutes(t.sbox, Step(t).i, Step(t).j);
    }
  }

  // ---- The initial state and its orbit ----

  function Identity(): Box {
    seq(SIZE, (k: nat) requires k < SIZE => k as Byte)
  }

  function Initial(): State {
    State(0, 0, Identity())
  }

  /** The first bytes that the generator, which is never seeded, gives out. */
  lemma FirstBytes()
    ensures Stream(Initial(), 3) == [2, 5, 7]
  {
    var s := Initial();
    var one, two := Run(s, 1), Run(s, 2);
    assert one.i == 1 && one.j == 1 && one.sbox == Identity();
    assert Output(one) == 2;
    assert two == Step(one) && two.i == 2 && two.j == 3;
    assert two.sbox == Swap(Identity(), 2, 3);
    assert Output(two) == 5;
    StepOutput(two);
    assert Run(s, 3) == Step(two);
    assert Stream(s, 1) == [2];
    assert Stream(s, 2) == [2, 5];
  }

  lemma IdentityPermutes()
    ensures Permutation(Identity())
  {
    forall v: Byte ensures v in Identity() {
      assert Identity()[v as int] == v;
    }
  }

  /** After any number of bytes the box is a permutation and `i` has counted them. */
  lemma ReachableIsSound(n: nat)
    ensures Permutation(Run(Initial(), n).sbox)
    ensures Run(Initial(), n).i as int == n % SIZE
  {
    IdentityPermutes();
    RunPermutes(Initial(), n);
    RunCounts(n);
  }

  lemma {:induction false} RunCounts(n: nat)
    ensures Run(Initial(), n).i as int == n % SIZE
  {
    if n > 0 {
      RunCounts(n - 1);
      var t := Run(Initial(), n - 1);
      assert Run(Initial(), n).i == Add(t.i, 1);
      CountUp(n, t.i);
    }
  }

  lemma CountUp(n: nat, i: Byte)
    requires n > 0 && i as int == (n - 1) % SIZE
    ensures Add(i, 1) as int == n % SIZE
  {
  }

  /** The states of the generator's short cycles, in which a 1 is carried along in front of `i`. */
  predicate Short(s: State) {
    s.j == Add(s.i, 1) && s.sbox[s.j as int] == 1
  }

  /** A short cycle is entered only from a short cycle, and never left. */
  lemma ShortStays(s: State)
    ensures Short(Step(s)) <==> Short(s)
  {
    var t := Step(s);
    if Short(t) {
      StepUndone(s);
      SwapAt(t.sbox, t.i, t.j, t.i);
      assert s.sbox[t.i as int] == 1;
    }
    if Short(s) {
      SwapAt(s.sbox, t.i, t.j, t.j);
      assert t.j == Add(t.i, 1);
    }
  }

  /** The generator never gets into one of the short cycles. */
  lemma {:induction false} NeverShort(n: nat)
    ensures !Short(Run(Initial(), n))
  {
    if n > 0 {
      NeverShort(n - 1);
      ShortStays(Run(Initial(), n - 1));
    }
  }

  // ---- Filling buffers ----

  lemma {:induction false} RepeatSplits<S>(f: S -> S, s: S, n: nat, m: nat)
    ensures Repeat(f, s, n + m) == Repeat(f, Repeat(f, s, n), m)
  {
    if m > 0 {
      RepeatSplits(f, s, n, m - 1);
    }
  }

  lemma {:induction false} EmitSplits<S, B>(f: S -> S, out: S -> B, s: S, n: nat, m: nat)
    ensures Emit(f, out, s, n + m) == Emit(f, out, s, n) + Emit(f, out, Repeat(f, s, n), m)
  {
    if m > 0 {
      EmitSplits(f, out, s, n, m - 1);
      RepeatSplits(f, s, n, m);
    }
  }

  /** Filling `n` and then `m` bytes gives the bytes and the state that filling `n + m` gives. */
  lemma FillSplits(s: State, n: nat, m: nat)
    ensures Run(s, n + m) == Run(Run(s, n), m)
    ensures Stream(s, n + m) == Stream(s, n) + Stream(Run(s, n), m)
  {
    RepeatSplits(Step, s, n, m);
    EmitSplits(Step, Output, s, n, m);
  }

  class Generator {
    var i: Byte
    var j: Byte
    const sbox: array<Byte>

    ghost predicate Valid() {
      sbox.Length == SIZE
    }

    ghost function Now(): State
      requires Valid()
      reads this, sbox
    {
      State(i, j, sbox[..])
    }

    constructor ()
      ensures Valid() && fresh(sbox) && Now() == Initial()
    {
      i, j := 0, 0;
      sbox := new Byte[SIZE];
      new;
      var k := 0;
      while k < SIZE
        invariant 0 <= k <= SIZE && i == j == 0
        invariant forall m :: 0 <= m < k ==> sbox[m] as int == m
      {
        sbox[k] := k as Byte;
        k := k + 1;
      }
      assert sbox[..] == Identity();
    }

    method RandByte() returns (b: Byte)
      requires Valid()
      modifies this, sbox
      ensures Now() == Step(old(Now())) && b == Output(Now())
    {
      i := Add(i, 1);
      j := Add(j, sbox[i as int]);
      sbox[i as int], sbox[j as int] := sbox[j as int], sbox[i as int];
      assert sbox[..] == Swap(old(sbox[..]), i, j);
      b := sbox[Add(sbox[i as int], sbox[j as int]) as int];
    }

    method RandBytes(buf: array<Byte>)
      requires Valid() && buf != sbox
      modifies this, sbox, buf
      ensures Now() == Run(old(Now()), buf.Length)
      ensures buf[..] == Stream(old(Now()), buf.Length)
    {
      ghost var start := Now();
      var k := 0;
      while k < buf.Length
        invariant 0 <= k <= buf.Length
        invariant Now() == Run(start, k) && buf[..k] == Stream(start, k)
      {
        var b := RandByte();
        buf[k] := b;
        k := k + 1;
        assert buf[..k] == buf[..k - 1] + [b];
      }
      assert buf[..k] == buf[..];
    }
  }
}
