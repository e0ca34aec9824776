/** Little-endian 64-bit words in byte memory, read and written at any offset. */
module Words {
  import opened Machine

  type Memory = seq<nat>

  /** A 64-bit word. */
  type Word = w: nat | w < U64

  function ToBytes(w: nat, n: nat): (s: seq<nat>)
    ensures |s| == n
  {
    if n == 0 then [] else [w % 256] + ToBytes(w / 256, n - 1)
  }

  function FromBytes(s: seq<nat>): nat {
    if s == [] then 0 else s[0] + 256 * FromBytes(s[1..])
  }

  function Bound(n: nat): nat {
    if n == 0 then 1 else 256 * Bound(n - 1)
  }

  lemma {:induction false} BytesRoundTrip(w: nat, n: nat)
    requires w < Bound(n)
    ensures FromBytes(ToBytes(w, n)) == w
  {
    if n > 0 {
      BytesRoundTrip(w / 256, n - 1);
      assert ToBytes(w, n)[1..] == ToBytes(w / 256, n - 1);
    }
  }

  predicate Slot(mem: Memory, off: nat) {
    off + 8 <= |mem|
  }

  /** The word at an offset. */
  function Get(mem: Memory, off: nat): nat
    requires Slot(mem, off)
  {
    FromBytes(mem[off..off + 8])
  }

  /** The memory with a word written at an offset. */
  function Put(mem: Memory, off: nat, w: Word): (r: Memory)
    requires Slot(mem, off)
    ensures |r| == |mem|
  {
    mem[..off] + ToBytes(w, 8) + mem[off + 8..]
  }

  lemma PutGet(mem: Memory, off: nat, w: Word)
    requires Slot(mem, off)
    ensures Get(Put(mem, off, w), off) == w
  {
    assert Put(mem, off, w)[off..off + 8] == ToBytes(w, 8);
    assert Bound(8) == U64;
    BytesRoundTrip(w, 8);
  }

  predicate Clear(a: nat, b: nat) {
    a + 8 <= b || b + 8 <= a
  }

  lemma PutElsewhere(mem: Memory, off: nat, w: Word, other: nat)
    requires Slot(mem, off) && Slot(mem, other) && Clear(off, other)
    ensures Get(Put(mem, off, w), other) == Get(mem, other)
  {
    assert Put(mem, off, w)[other..other + 8] == mem[other..other + 8];
  }

  lemma PutByte(mem: Memory, off: nat, w: Word, x: nat)
    requires Slot(mem, off) && x < |mem| && !(off <= x < off + 8)
    ensures Put(mem, off, w)[x] == mem[x]
  {
  }

  /** Writes a word in place. */
  method Write(mem: array<nat>, off: nat, w: Word)
    requires Slot(mem[..], off)
    modifies mem
    ensures mem[..] == Put(old(mem[..]), off, w)
  {
    var bytes := ToBytes(w, 8);
    forall k | 0 <= k < 8 {
      mem[off + k] := bytes[k];
    }
  }

  /** `wrapping_add_signed` on 64 bits. */
  function WrapAdd(w: Word, d: int): Word {
    (w + d) % U64
  }
}
