/** Lists of half-open address ranges, the abstract value of every map and table of the boot code. */
module Ranges {

  datatype Range = Range(start: nat, end: nat)

  predicate Holds(r: Range, x: int) {
    r.start <= x < r.end
  }

  /** Whether some range of the list holds address `x`. */
  ghost predicate Has(rs: seq<Range>, x: int) {
    exists k :: 0 <= k < |rs| && Holds(rs[k], x)
  }

  predicate Ordered(rs: seq<Range>) {
    forall k :: 0 <= k < |rs| ==> rs[k].start <= rs[k].end
  }

  /** No range is empty. */
  predicate Solid(rs: seq<Range>) {
    forall k :: 0 <= k < |rs| ==> rs[k].start < rs[k].end
  }

  predicate Below(a: Range, b: Range) {
    a.end <= b.start
  }

  predicate Clear(a: Range, b: Range) {
    Below(a, b) || Below(b, a)
  }

  /** Pairwise disjoint, in any order. */
  predicate Apart(rs: seq<Range>) {
    && Ordered(rs)
    && forall i, j :: 0 <= i < j < |rs| ==> Clear(rs[i], rs[j])
  }

  /** Pairwise disjoint and in increasing order of address. */
  predicate Sorted(rs: seq<Range>) {
    && Ordered(rs)
    && forall i, j :: 0 <= i < j < |rs| ==> Below(rs[i], rs[j])
  }

  function Bytes(rs: seq<Range>): int {
    if rs == [] then 0 else Bytes(rs[..|rs| - 1]) + rs[|rs| - 1].end - rs[|rs| - 1].start
  }

  lemma {:induction false} BytesConcat(a: seq<Range>, b: seq<Range>)
    ensures Bytes(a + b) == Bytes(a) + Bytes(b)
  {
    if b == [] {
      assert a + b == a;
    } else {
      BytesConcat(a, b[..|b| - 1]);
      assert (a + b)[..|a + b| - 1] == a + b[..|b| - 1];
    }
  }

  lemma {:induction false} BytesNonNegative(rs: seq<Range>)
    requires Ordered(rs)
    ensures Bytes(rs) >= 0
  {
    if rs != [] {
      BytesNonNegative(rs[..|rs| - 1]);
    }
  }

  /** What is left of `r` once `[lo, hi)` has been cut out of it. */
  function Pieces(r: Range, lo: nat, hi: nat): seq<Range> {
    (if r.start < lo then [Range(r.start, lo)] else []) +
    (if hi < r.end then [Range(hi, r.end)] else [])
  }

  function Carve(rs: seq<Range>, k: nat, lo: nat, hi: nat): seq<Range>
    requires k < |rs|
  {
    rs[..k] + Pieces(rs[k], lo, hi) + rs[k + 1..]
  }

  lemma HasConcat(a: seq<Range>, b: seq<Range>, x: int)
    ensures Has(a + b, x) <==> Has(a, x) || Has(b, x)
  {
    if Has(a, x) {
      var k :| 0 <= k < |a| && Holds(a[k], x);
      assert Holds((a + b)[k], x);
    }
    if Has(b, x) {
      var k :| 0 <= k < |b| && Holds(b[k], x);
      assert Holds((a + b)[|a| + k], x);
    }
  }

  lemma PiecesHas(r: Range, lo: nat, hi: nat, x: int)
    requires r.start <= lo <= hi <= r.end
    ensures Has(Pieces(r, lo, hi), x) <==> Holds(r, x) && !(lo <= x < hi)
  {
    var a := if r.start < lo then [Range(r.start, lo)] else [];
    var b := if hi < r.end then [Range(hi, r.end)] else [];
    HasConcat(a, b, x);
    if r.start <= x < lo {
      assert Holds(a[0], x);
    }
    if hi <= x < r.end {
      assert Holds(b[0], x);
    }
  }

  /** Carving `[lo, hi)` out of entry `k` removes exactly those addresses. */
  lemma CarveHas(rs: seq<Range>, k: nat, lo: nat, hi: nat, x: int)
    requires Apart(rs) && k < |rs|
    requires rs[k].start <= lo <= hi <= rs[k].end
    ensures Has(Carve(rs, k, lo, hi), x) <==> Has(rs, x) && !(lo <= x < hi)
  {
    HasConcat(rs[..k] + Pieces(rs[k], lo, hi), rs[k + 1..], x);
    HasConcat(rs[..k], Pieces(rs[k], lo, hi), x);
    PiecesHas(rs[k], lo, hi, x);
    SplitHas(rs, k, x);
  }

  /** An address of the list lies before, in or after entry `k`, and in only one of them. */
  lemma SplitHas(rs: seq<Range>, k: nat, x: int)
    requires Apart(rs) && k < |rs|
    ensures Has(rs, x) <==> Has(rs[..k], x) || Holds(rs[k], x) || Has(rs[k + 1..], x)
    ensures Holds(rs[k], x) ==> !Has(rs[..k], x) && !Has(rs[k + 1..], x)
  {
    if Has(rs[..k], x) {
      var i :| 0 <= i < k && Holds(rs[..k][i], x);
      assert Holds(rs[i], x) && Clear(rs[i], rs[k]);
    }
    if Has(rs[k + 1..], x) {
      var i :| 0 <= i < |rs| - k - 1 && Holds(rs[k + 1..][i], x);
      assert Holds(rs[k + 1 + i], x) && Clear(rs[k], rs[k + 1 + i]);
    }
    if Has(rs, x) {
      var i :| 0 <= i < |rs| && Holds(rs[i], x);
      assert i < k ==> Holds(rs[..k][i], x);
      assert i > k ==> Holds(rs[k + 1..][i - k - 1], x);
    }
  }

  /** Every entry of a carved list is part of an entry of the old one. */
  lemma CarveOrigin(rs: seq<Range>, k: nat, lo: nat, hi: nat, i: nat) returns (o: nat)
    requires k < |rs| && rs[k].start <= lo <= hi <= rs[k].end
    requires i < |Carve(rs, k, lo, hi)|
    ensures o < |rs|
    ensures o < k ==> o == i && Carve(rs, k, lo, hi)[i] == rs[o]
    ensures o > k ==> o == i + 1 - |Pieces(rs[k], lo, hi)| && Carve(rs, k, lo, hi)[i] == rs[o]
    ensures o == k ==> k <= i < k + |Pieces(rs[k], lo, hi)| && Carve(rs, k, lo, hi)[i] == Pieces(rs[k], lo, hi)[i - k]
  {
    var n := |Pieces(rs[k], lo, hi)|;
    o := if i < k then i else if i < k + n then k else i + 1 - n;
  }

  lemma CarveApart(rs: seq<Range>, k: nat, lo: nat, hi: nat)
    requires Apart(rs) && k < |rs|
    requires rs[k].start <= lo <= hi <= rs[k].end
    ensures Apart(Carve(rs, k, lo, hi))
  {
    var c := Carve(rs, k, lo, hi);
    forall i | 0 <= i < |c| ensures c[i].start <= c[i].end {
      var o := CarveOrigin(rs, k, lo, hi, i);
    }
    forall i, j | 0 <= i < j < |c| ensures Clear(c[i], c[j]) {
      var p := CarveOrigin(rs, k, lo, hi, i);
      var q := CarveOrigin(rs, k, lo, hi, j);
      assert p < q ==> Clear(rs[p], rs[q]);
    }
  }

  lemma CarveSorted(rs: seq<Range>, k: nat, lo: nat, hi: nat)
    requires Sorted(rs) && k < |rs|
    requires rs[k].start <= lo <= hi <= rs[k].end
    ensures Sorted(Carve(rs, k, lo, hi))
  {
    var c := Carve(rs, k, lo, hi);
    forall i | 0 <= i < |c| ensures c[i].start <= c[i].end {
      var o := CarveOrigin(rs, k, lo, hi, i);
    }
    forall i, j | 0 <= i < j < |c| ensures Below(c[i], c[j]) {
      var p := CarveOrigin(rs, k, lo, hi, i);
      var q := CarveOrigin(rs, k, lo, hi, j);
      assert p < q ==> Below(rs[p], rs[q]);
    }
  }

  lemma BytesOne(r: Range)
    ensures Bytes([r]) == r.end - r.start
  {
    assert [r][..0] == [];
  }

  lemma PiecesBytes(r: Range, lo: nat, hi: nat)
    requires r.start <= lo <= hi <= r.end
    ensures Bytes(Pieces(r, lo, hi)) == Bytes([r]) - (hi - lo)
  {
    var a := if r.start < lo then [Range(r.start, lo)] else [];
    var b := if hi < r.end then [Range(hi, r.end)] else [];
    BytesConcat(a, b);
    BytesOne(r);
    BytesOne(Range(r.start, lo));
    BytesOne(Range(hi, r.end));
  }

  lemma BytesSplice(a: seq<Range>, m: seq<Range>, b: seq<Range>)
    ensures Bytes(a + m + b) == Bytes(a) + Bytes(m) + Bytes(b)
  {
    BytesConcat(a, m);
    BytesConcat(a + m, b);
  }

  lemma BytesReplace(rs: seq<Range>, k: nat, r: Range)
    requires k < |rs|
    ensures Bytes(rs[k := r]) == Bytes(rs) - (rs[k].end - rs[k].start) + (r.end - r.start)
  {
    BytesSplice(rs[..k], [rs[k]], rs[k + 1..]);
    BytesSplice(rs[..k], [r], rs[k + 1..]);
    assert rs == rs[..k] + [rs[k]] + rs[k + 1..];
    assert rs[k := r] == rs[..k] + [r] + rs[k + 1..];
    BytesOne(r);
    BytesOne(rs[k]);
  }

  lemma CarveBytes(rs: seq<Range>, k: nat, lo: nat, hi: nat)
    requires k < |rs| && rs[k].start <= lo <= hi <= rs[k].end
    ensures Bytes(Carve(rs, k, lo, hi)) == Bytes(rs) - (hi - lo)
  {
    var a, r, b := rs[..k], rs[k], rs[k + 1..];
    assert Bytes(rs) == Bytes(a) + Bytes([r]) + Bytes(b) by {
      assert rs == a + [r] + b;
      BytesSplice(a, [r], b);
    }
    PiecesBytes(r, lo, hi);
    BytesSplice(a, Pieces(r, lo, hi), b);
  }

  lemma {:induction false} BytesBelow(rs: seq<Range>)
    requires Sorted(rs) && rs != []
    ensures Bytes(rs) <= rs[|rs| - 1].end
  {
    var n := |rs| - 1;
    if n > 0 {
      BytesBelow(rs[..n]);
      assert Below(rs[n - 1], rs[n]);
    } else {
      BytesOne(rs[0]);
      assert rs == [rs[0]];
    }
  }

  lemma SortedApart(rs: seq<Range>)
    requires Sorted(rs)
    ensures Apart(rs)
  {
    forall i, j | 0 <= i < j < |rs| ensures Clear(rs[i], rs[j]) {
      assert Below(rs[i], rs[j]);
    }
  }

  /** In a sorted list starts and ends grow with the index. */
  lemma SortedGrows(rs: seq<Range>, i: nat, j: nat)
    requires Sorted(rs) && i <= j < |rs|
    ensures rs[i].start <= rs[j].start && rs[i].end <= rs[j].end
  {
    if i < j {
      assert Below(rs[i], rs[j]);
    }
  }
}
