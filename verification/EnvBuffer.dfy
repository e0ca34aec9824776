/**
  The environment buffer that the GUI fills and the kernel reads: entries of a key, a separator, a
  value and an end mark, where both marks are bytes that cannot occur in UTF-8.
 */
module EnvBuffer {
  import opened Machine
  import opened Search

  const ENV_END: nat := 0xF8
  const END_SEP: nat := 0xF9
  const CAPACITY: nat := 132096

  type Bytes = seq<nat>

  datatype Entry = Entry(key: Bytes, value: Bytes)

  // ---- UTF-8, section 4 of RFC 3629 ----

  predicate Tail(b: nat) {
    0x80 <= b <= 0xBF
  }

  /** The length of the character at the front, or 0 if there is none. */
  function CharLength(s: Bytes): nat {
    if s == [] then 0
    else if s[0] <= 0x7F then 1
    else if 0xC2 <= s[0] <= 0xDF && |s| > 1 && Tail(s[1]) then 2
    else if |s| > 2 && Tail(s[1]) && Tail(s[2]) &&
            (s[0] == 0xE0 ==> 0xA0 <= s[1]) && (s[0] == 0xED ==> s[1] <= 0x9F) && 0xE0 <= s[0] <= 0xEF then 3
    else if |s| > 3 && Tail(s[1]) && Tail(s[2]) && Tail(s[3]) &&
            (s[0] == 0xF0 ==> 0x90 <= s[1]) && (s[0] == 0xF4 ==> s[1] <= 0x8F) && 0xF0 <= s[0] <= 0xF4 then 4
    else 0
  }

  predicate Utf8(s: Bytes) {
    var n := CharLength(s);
    s == [] || (0 < n <= |s| && Utf8(s[n..]))
  }

  /** No byte of a UTF-8 string is one of the marks. */
  lemma {:induction false} Utf8Unmarked(s: Bytes)
    requires Utf8(s)
    ensures forall i :: 0 <= i < |s| ==> s[i] < 0xF5
  {
    if s != [] {
      var n := CharLength(s);
      Utf8Unmarked(s[n..]);
      forall i | 0 <= i < |s| ensures s[i] < 0xF5 {
        if i >= n {
          assert s[n..][i - n] == s[i];
        }
      }
    }
  }

  predicate Clean(es: seq<Entry>) {
    forall i :: 0 <= i < |es| ==> Utf8(es[i].key) && Utf8(es[i].value)
  }

  // ---- Reading ----

  /** One call of `EnvIter::next`: the entry, if there is one, and the rest of the buffer. */
  function Next(rem: Bytes): (r: Run<Option<(Entry, Bytes)>>)
    ensures r.Returns? && r.value.Some? ==> |r.value.value.1| < |rem|
  {
    if rem == [] then Returns(None)
    else
      var i := Index(rem, ENV_END);
      if i == |rem| then Aborts(Panic)
      else if i == 0 then Returns(None)
      else
        var v := rem[..i];
        var j := Index(v, END_SEP);
        if j == |v| || !Utf8(v[..j]) || !Utf8(v[j + 1..]) then Aborts(Panic)
        else Returns(Some((Entry(v[..j], v[j + 1..]), rem[i + 1..])))
  }

  /** Everything the iterator yields. */
  function Decode(rem: Bytes): Run<seq<Entry>>
    decreases |rem|
  {
    var n :- Next(rem);
    if n.None? then Returns([])
    else
      var es :- Decode(n.value.1);
      Returns([n.value.0] + es)
  }

  // ---- Writing ----

  function Encode(e: Entry): Bytes {
    e.key + [END_SEP] + e.value + [ENV_END]
  }

  function EncodeAll(es: seq<Entry>): Bytes {
    if es == [] then [] else EncodeAll(es[..|es| - 1]) + Encode(es[|es| - 1])
  }

  /** How many leading entries fit into `space` bytes. */
  function Fitting(space: nat, es: seq<Entry>): (n: nat)
    ensures n <= |es|
  {
    if es == [] || |Encode(es[0])| > space then 0
    else 1 + Fitting(space - |Encode(es[0])|, es[1..])
  }

  /** A buffer holds `es` if it starts with their encoding and nothing readable follows. */
  predicate Holds(buf: Bytes, es: seq<Entry>) {
    var n := |EncodeAll(es)|;
    && Clean(es)
    && n <= |buf| && buf[..n] == EncodeAll(es)
    && (n < |buf| ==> buf[n] == ENV_END)
  }

  /** `s` written at `begin`, with an end mark behind it if there is room. */
  function Marked(buf: Bytes, begin: nat, s: Bytes): Bytes
    requires begin + |s| <= |buf|
  {
    var end := begin + |s|;
    buf[..begin] + s + (if end < |buf| then [ENV_END] + buf[end + 1..] else [])
  }

  /** The buffer after `extend_env` has written some entries at `begin`. */
  function Written(buf: Bytes, begin: nat, es: seq<Entry>): Bytes
    requires begin + |EncodeAll(es)| <= |buf|
  {
    if es == [] then buf else Marked(buf, begin, EncodeAll(es))
  }

  lemma Regroup(x: Bytes, y: Bytes, z: Bytes)
    ensures x + (y + z) == x + y + z
  {
  }

  lemma {:induction false} EncodeConcat(a: seq<Entry>, b: seq<Entry>)
    ensures EncodeAll(a + b) == EncodeAll(a) + EncodeAll(b)
  {
    if b == [] {
      assert a + b == a;
    } else {
      var n := |b| - 1;
      EncodeConcat(a, b[..n]);
      assert (a + b)[..|a + b| - 1] == a + b[..n];
      assert (a + b)[|a + b| - 1] == b[n];
      Regroup(EncodeAll(a), EncodeAll(b[..n]), Encode(b[n]));
    }
  }

  lemma EncodeOne(e: Entry)
    ensures EncodeAll([e]) == Encode(e)
  {
    assert [e][..0] == [];
  }

  lemma EncodeFirst(es: seq<Entry>)
    requires es != []
    ensures EncodeAll(es) == Encode(es[0]) + EncodeAll(es[1..])
  {
    EncodeConcat([es[0]], es[1..]);
    EncodeOne(es[0]);
    assert [es[0]] + es[1..] == es;
  }

  /** An entry at the front of a buffer is read back, and leaves what follows it. */
  lemma NextReads(e: Entry, rest: Bytes)
    requires Utf8(e.key) && Utf8(e.value)
    ensures Next(Encode(e) + rest) == Returns(Some((e, rest)))
    ensures Index(Encode(e) + rest, ENV_END) == |Encode(e)| - 1
  {
    var s := Encode(e) + rest;
    var body := e.key + [END_SEP] + e.value;
    var i := |body|;
    Utf8Unmarked(e.key);
    Utf8Unmarked(e.value);
    assert s == body + ([ENV_END] + rest);
    assert s[..i] == body && s[i] == ENV_END && s[i + 1..] == rest;
    forall k | 0 <= k < i ensures s[k] != ENV_END {
      assert s[k] == body[k];
    }
    IndexIs(s, ENV_END, i);
    IndexIs(body, END_SEP, |e.key|);
    assert body[..|e.key|] == e.key && body[|e.key| + 1..] == e.value;
  }

  /**
    And nothing else is: what is read off the front of any buffer is what its bytes encode, the buffer
    ends where it is empty or starts with the end mark, and any other front is an error.
   */
  lemma NextInverse(rem: Bytes)
    ensures match Next(rem)
            case Returns(Some((e, rest))) => rem == e.key + [0xF9] + e.value + [0xF8] + rest && Utf8(e.key) && Utf8(e.value)
            case Returns(None) => rem == [] || rem[0] == 0xF8
            case Aborts(f) => f == Panic && rem != [] && rem[0] != 0xF8
  {
    if rem != [] {
      var i := Index(rem, ENV_END);
      if i < |rem| {
        assert rem == rem[..i] + [rem[i]] + rem[i + 1..];
        var v := rem[..i];
        var j := Index(v, END_SEP);
        if j < |v| {
          assert v == v[..j] + [v[j]] + v[j + 1..];
        }
      }
    }
  }

  /** Behind its first entry, a buffer holds the other entries. */
  lemma HeldTail(buf: Bytes, es: seq<Entry>)
    requires Holds(buf, es) && es != []
    ensures |Encode(es[0])| <= |buf| && buf[..|Encode(es[0])|] == Encode(es[0])
    ensures Holds(buf[|Encode(es[0])|..], es[1..])
  {
    var n, m := |Encode(es[0])|, |EncodeAll(es[1..])|;
    EncodeFirst(es);
    assert buf[..n + m] == Encode(es[0]) + EncodeAll(es[1..]);
    assert buf[..n] == buf[..n + m][..n];
    assert buf[n..][..m] == buf[..n + m][n..];
  }

  /** A buffer that holds some entries is read back as those entries. */
  lemma {:induction false} DecodeHeld(buf: Bytes, es: seq<Entry>)
    requires Holds(buf, es)
    ensures Decode(buf) == Returns(es)
    decreases |es|
  {
    if es == [] {
      if buf != [] {
        IndexIs(buf, ENV_END, 0);
      }
    } else {
      HeldTail(buf, es);
      var rest := buf[|Encode(es[0])|..];
      assert buf == Encode(es[0]) + rest;
      NextReads(es[0], rest);
      DecodeHeld(rest, es[1..]);
      assert [es[0]] + es[1..] == es;
    }
  }

  // ---- extend_env ----

  /** The number of entries that fit is as large as it can be. */
  lemma {:induction false} FittingExact(space: nat, es: seq<Entry>)
    ensures var n := Fitting(space, es);
            && |EncodeAll(es[..n])| <= space
            && (n < |es| ==> space < |EncodeAll(es[..n + 1])|)
    decreases |es|
  {
    var n := Fitting(space, es);
    if es == [] {
    } else if n == 0 {
      assert es[..1] == [es[0]];
      EncodeOne(es[0]);
    } else {
      FittingExact(space - |Encode(es[0])|, es[1..]);
      EncodeFirst(es[..n]);
      assert es[..n][1..] == es[1..][..n - 1];
      if n < |es| {
        EncodeFirst(es[..n + 1]);
        assert es[..n + 1][1..] == es[1..][..n];
      }
    }
  }

  /** `extend_env`: the new buffer and the entries that did not fit. */
  function Extend(buf: Bytes, vars: seq<Entry>): Run<(Bytes, Option<seq<Entry>>)> {
    var end := Index(buf, ENV_END);
    if end == |buf| then Aborts(Panic)
    else
      var begin := Begin(buf);
      var n := Fitting(|buf| - begin, vars);
      FittingExact(|buf| - begin, vars);
      Returns((Written(buf, begin, vars[..n]), if n == |vars| then None else Some(vars[n..])))
  }

  /** What the buffer held before the place where `extend_env` starts writing. */
  function Kept(es: seq<Entry>): seq<Entry> {
    if es == [] then [] else [es[0]]
  }

  function Begin(buf: Bytes): nat {
    var end := Index(buf, ENV_END);
    if end == 0 then 0 else end + 1
  }

  lemma BeginIs(buf: Bytes, es: seq<Entry>)
    requires Holds(buf, es) && buf != []
    ensures Index(buf, ENV_END) < |buf|
    ensures Begin(buf) == |EncodeAll(Kept(es))| <= |buf| && buf[..Begin(buf)] == EncodeAll(Kept(es))
  {
    if es == [] {
      IndexIs(buf, ENV_END, 0);
    } else {
      HeldTail(buf, es);
      EncodeOne(es[0]);
      BeginAfter(es[0], buf);
    }
  }

  lemma BeginAfter(e: Entry, buf: Bytes)
    requires Utf8(e.key) && Utf8(e.value) && |Encode(e)| <= |buf| && buf[..|Encode(e)|] == Encode(e)
    ensures Index(buf, ENV_END) == |Encode(e)| - 1 > 0
  {
    var rest := buf[|Encode(e)|..];
    assert buf == Encode(e) + rest;
    NextReads(e, rest);
  }

  lemma WrittenHolds(buf: Bytes, kept: seq<Entry>, ws: seq<Entry>)
    requires Clean(kept) && Clean(ws) && ws != []
    requires |EncodeAll(kept)| + |EncodeAll(ws)| <= |buf| && buf[..|EncodeAll(kept)|] == EncodeAll(kept)
    ensures Holds(Written(buf, |EncodeAll(kept)|, ws), kept + ws)
  {
    EncodeConcat(kept, ws);
    var after := Written(buf, |EncodeAll(kept)|, ws);
    var n := |EncodeAll(kept + ws)|;
    assert after[..n] == EncodeAll(kept + ws);
  }

  /** What a buffer holds after `extend_env`: entries after the first are lost as soon as one is written. */
  function Extended(es: seq<Entry>, ws: seq<Entry>): seq<Entry> {
    if ws == [] then es else Kept(es) + ws
  }

  lemma ExtendWrites(buf: Bytes, vars: seq<Entry>) returns (n: nat, after: Bytes)
    requires Index(buf, ENV_END) < |buf| && Begin(buf) <= |buf|
    ensures n == Fitting(|buf| - Begin(buf), vars)
    ensures n <= |vars| && Begin(buf) + |EncodeAll(vars[..n])| <= |buf|
    ensures n < |vars| ==> |buf| < Begin(buf) + |EncodeAll(vars[..n + 1])|
    ensures after == Written(buf, Begin(buf), vars[..n]) && |after| == |buf|
    ensures Extend(buf, vars) == Returns((after, if n == |vars| then None else Some(vars[n..])))
  {
    n := Fitting(|buf| - Begin(buf), vars);
    FittingExact(|buf| - Begin(buf), vars);
    after := Written(buf, Begin(buf), vars[..n]);
  }

  /**
    Extending a buffer writes exactly the longest prefix of the new entries that fits behind the first
    old entry, and hands back the rest.
   */
  lemma ExtendHolds(buf: Bytes, es: seq<Entry>, vars: seq<Entry>) returns (n: nat, after: Bytes)
    requires Holds(buf, es) && buf != [] && Clean(vars)
    ensures n <= |vars| && |after| == |buf|
    ensures |EncodeAll(Kept(es))| + |EncodeAll(vars[..n])| <= |buf|
    ensures n < |vars| ==> |buf| < |EncodeAll(Kept(es))| + |EncodeAll(vars[..n + 1])|
    ensures Extend(buf, vars) == Returns((after, if n == |vars| then None else Some(vars[n..])))
    ensures Holds(after, Extended(es, vars[..n]))
  {
    BeginIs(buf, es);
    n, after := ExtendWrites(buf, vars);
    WrittenExtended(buf, es, vars[..n], after);
  }

  lemma WrittenExtended(buf: Bytes, es: seq<Entry>, ws: seq<Entry>, after: Bytes)
    requires Holds(buf, es) && Clean(ws)
    requires |EncodeAll(Kept(es))| + |EncodeAll(ws)| <= |buf| && buf[..|EncodeAll(Kept(es))|] == EncodeAll(Kept(es))
    requires after == Written(buf, |EncodeAll(Kept(es))|, ws)
    ensures Holds(after, Extended(es, ws))
  {
    if ws == [] {
      assert after == buf;
    } else {
      WrittenHolds(buf, Kept(es), ws);
    }
  }

  /**
    Nothing is lost, that is the iterator yields the old entries followed by those written, if and
    only if there was at most one old entry, or there is no new one that fits behind the first.
   */
  lemma ExtendKeepsAll(buf: Bytes, es: seq<Entry>, vars: seq<Entry>) returns (n: nat, after: Bytes)
    requires Holds(buf, es) && buf != [] && Clean(vars)
    ensures n <= |vars| && Extend(buf, vars) == Returns((after, if n == |vars| then None else Some(vars[n..])))
    ensures Decode(after) == Returns(es + vars[..n]) <==>
            |es| <= 1 || vars == [] || |buf| < |EncodeAll(Kept(es))| + |Encode(vars[0])|
  {
    n, after := ExtendHolds(buf, es, vars);
    assert n == 0 <==> vars == [] || |buf| < |EncodeAll(Kept(es))| + |Encode(vars[0])| by {
      FirstFits(vars, n, |EncodeAll(Kept(es))|, |buf|);
    }
    assert Decode(after) == Returns(Extended(es, vars[..n])) by {
      DecodeHeld(after, Extended(es, vars[..n]));
    }
    if |es| <= 1 {
      assert Kept(es) == es;
    }
    if n == 0 {
      assert es + vars[..0] == es;
    }
  }

  /** Two entries and then a third: whichever they are, the second is gone as long as all three would fit. */
  lemma SecondIsLost(size: nat, e1: Entry, e2: Entry, e3: Entry) returns (mid: Bytes, after: Bytes)
    requires Clean([e1, e2, e3]) && |Encode(e1)| + |Encode(e2)| + |Encode(e3)| <= size
    ensures Extend(Cleared(size), [e1, e2]) == Returns((mid, None)) && Decode(mid) == Returns([e1, e2])
    ensures Extend(mid, [e3]) == Returns((after, None)) && Decode(after) == Returns([e1, e3])
  {
    assert Clean([e1, e2]) && Clean([e3]) by {
      assert forall i :: 0 <= i < 2 ==> [e1, e2][i] == [e1, e2, e3][i];
      assert [e3][0] == [e1, e2, e3][2];
    }
    var two := [e1, e2];
    EncodeTwo(e1, e2);
    EncodeOne(e1);
    EncodeOne(e3);
    mid := ExtendAll(Cleared(size), [], two);
    assert Extended([], two) == two;
    after := ExtendAll(mid, two, [e3]);
    assert Extended(two, [e3]) == [e1, e3];
    DecodeHeld(mid, two);
    DecodeHeld(after, [e1, e3]);
  }

  lemma EncodeTwo(e1: Entry, e2: Entry)
    ensures EncodeAll([e1, e2]) == Encode(e1) + Encode(e2)
  {
    assert [e1, e2] == [e1] + [e2];
    EncodeConcat([e1], [e2]);
    EncodeOne(e1);
    EncodeOne(e2);
  }

  /** Where all new entries fit, all are written. */
  lemma ExtendAll(buf: Bytes, es: seq<Entry>, vars: seq<Entry>) returns (after: Bytes)
    requires Holds(buf, es) && buf != [] && Clean(vars) && |EncodeAll(Kept(es))| + |EncodeAll(vars)| <= |buf|
    ensures Extend(buf, vars) == Returns((after, None)) && |after| == |buf| && Holds(after, Extended(es, vars))
  {
    var n;
    n, after := ExtendHolds(buf, es, vars);
    assert vars[..|vars|] == vars;
    if n < |vars| {
      EncodeGrows(vars, n + 1, |vars|);
    }
  }

  /** Something is written exactly if the first entry fits. */
  lemma FirstFits(vars: seq<Entry>, n: nat, used: nat, size: nat)
    requires n <= |vars| && used + |EncodeAll(vars[..n])| <= size
    requires n < |vars| ==> size < used + |EncodeAll(vars[..n + 1])|
    ensures n == 0 <==> vars == [] || size < used + |Encode(vars[0])|
  {
    if vars != [] {
      assert vars[..1] == [vars[0]];
      EncodeOne(vars[0]);
      if n > 0 {
        EncodeGrows(vars, 1, n);
      }
    }
  }

  /** The buffer that `clear_env` leaves. */
  function Cleared(n: nat): Bytes {
    seq(n, _ => ENV_END)
  }

  /** Clearing and extending is read back as the longest prefix that fits, and the rest is handed back. */
  lemma RoundTrip(size: nat, vars: seq<Entry>) returns (n: nat, after: Bytes)
    requires size > 0 && Clean(vars)
    ensures n <= |vars| && Extend(Cleared(size), vars) == Returns((after, if n == |vars| then None else Some(vars[n..])))
    ensures Decode(after) == Returns(vars[..n])
    ensures |EncodeAll(vars[..n])| <= size && (n < |vars| ==> size < |EncodeAll(vars[..n + 1])|)
  {
    n, after := ExtendHolds(Cleared(size), [], vars);
    assert Extended([], vars[..n]) == vars[..n];
    DecodeHeld(after, vars[..n]);
  }

  // ---- The kernel's view ----

  /** The value of the first entry with a key. */
  function Lookup(es: seq<Entry>, name: Bytes): (r: Option<Bytes>)
    ensures match r
            case Some(v) =>
              exists i :: 0 <= i < |es| && es[i] == Entry(name, v) && forall k :: 0 <= k < i ==> es[k].key != name
            case None => forall k :: 0 <= k < |es| ==> es[k].key != name
  {
    if es == [] then None
    else if es[0].key == name then Some(es[0].value)
    else
      var r := Lookup(es[1..], name);
      assert r.Some? ==> exists i :: 0 < i < |es| && es[i] == Entry(name, r.value) && forall k :: 0 <= k < i ==> es[k].key != name by {
        if r.Some? {
          var i :| 0 <= i < |es[1..]| && es[1..][i] == Entry(name, r.value) && forall k :: 0 <= k < i ==> es[1..][k].key != name;
          assert es[i + 1] == Entry(name, r.value);
          forall k | 0 <= k < i + 1 ensures es[k].key != name {
            assert k > 0 ==> es[k] == es[1..][k - 1];
          }
        }
      }
      assert r.None? ==> forall k :: 0 <= k < |es| ==> es[k].key != name by {
        forall k | 0 < k < |es| ensures es[k] == es[1..][k - 1] {
        }
      }
      r
  }

  // ---- The array ----

  /** `s` copied into a buffer at `pos`. */
  function Stored(buf: Bytes, pos: nat, s: Bytes): Bytes
    requires pos + |s| <= |buf|
  {
    buf[..pos] + s + buf[pos + |s|..]
  }

  method Store(a: array<nat>, pos: nat, s: Bytes)
    requires pos + |s| <= a.Length
    modifies a
    ensures a[..] == Stored(old(a[..]), pos, s)
  {
    forall k | 0 <= k < |s| {
      a[pos + k] := s[k];
    }
  }

  lemma StoredTwice(buf: Bytes, pos: nat, s: Bytes, t: Bytes)
    requires pos + |s| + |t| <= |buf|
    ensures Stored(Stored(buf, pos, s), pos + |s|, t) == Stored(buf, pos, s + t)
  {
    var a, b := Stored(Stored(buf, pos, s), pos + |s|, t), Stored(buf, pos, s + t);
    assert |a| == |b|;
    forall i | 0 <= i < |a| ensures a[i] == b[i] {
    }
  }

  /** Copies `t` behind `s`, which has been copied to `pos` already. */
  method StoreNext(a: array<nat>, pos: nat, next: nat, t: Bytes, ghost was: Bytes, ghost s: Bytes)
    requires pos + |s| + |t| <= |was| && next == pos + |s| && a[..] == Stored(was, pos, s)
    modifies a
    ensures a[..] == Stored(was, pos, s + t)
  {
    assert a.Length == |was| by {
      assert |a[..]| == |was|;
    }
    Store(a, next, t);
    StoredTwice(was, pos, s, t);
  }

  /** Key, separator, value and end mark, one after the other. */
  method PutEntry(a: array<nat>, pos: nat, e: Entry)
    requires pos + |Encode(e)| <= a.Length
    modifies a
    ensures a[..] == Stored(old(a[..]), pos, Encode(e))
  {
    ghost var was: Bytes := a[..];
    var k, v := e.key, e.value;
    Store(a, pos, k);
    StoreNext(a, pos, pos + |k|, [END_SEP], was, k);
    StoreNext(a, pos, pos + |k| + 1, v, was, k + [END_SEP]);
    StoreNext(a, pos, pos + |k| + 1 + |v|, [ENV_END], was, k + [END_SEP] + v);
  }

  /** One entry written at `pos`, with an end mark behind it if there is room. */
  function PutMarked(buf: Bytes, pos: nat, s: Bytes): Bytes
    requires pos + |s| <= |buf|
  {
    var put := Stored(buf, pos, s);
    if pos + |s| < |buf| then put[pos + |s| := ENV_END] else put
  }

  /** Writing more and moving the mark behind it. */
  lemma MarkedNext(buf: Bytes, mid: Bytes, begin: nat, x: Bytes, y: Bytes)
    requires begin + |x| + |y| <= |buf| && y != []
    requires (mid == buf && x == []) || mid == Marked(buf, begin, x)
    ensures PutMarked(mid, begin + |x|, y) == Marked(buf, begin, x + y)
  {
    var pos := begin + |x|;
    var after, w := PutMarked(mid, pos, y), Marked(buf, begin, x + y);
    assert |after| == |w|;
    forall i | 0 <= i < |w| ensures after[i] == w[i] {
      if i < begin {
        assert w[i] == buf[i];
      } else if i < pos {
        assert w[i] == x[i - begin];
      } else if i < pos + |y| {
        assert w[i] == y[i - pos];
      }
    }
  }

  lemma EncodeSnoc(es: seq<Entry>, e: Entry)
    ensures EncodeAll(es + [e]) == EncodeAll(es) + Encode(e)
  {
    assert (es + [e])[..|es|] == es;
  }

  lemma WrittenNext(buf: Bytes, mid: Bytes, begin: nat, es: seq<Entry>, e: Entry, y: Bytes)
    requires y == Encode(e) && begin + |EncodeAll(es)| + |y| <= |buf| && mid == Written(buf, begin, es)
    ensures |EncodeAll(es + [e])| == |EncodeAll(es)| + |y|
    ensures PutMarked(mid, begin + |EncodeAll(es)|, y) == Written(buf, begin, es + [e])
  {
    EncodeSnoc(es, e);
    MarkedNext(buf, mid, begin, EncodeAll(es), y);
  }

  /** A count is the number of fitting entries if they fit and one more does not. */
  lemma {:induction false} FittingIs(space: nat, es: seq<Entry>, n: nat)
    requires n <= |es| && |EncodeAll(es[..n])| <= space
    requires n < |es| ==> space < |EncodeAll(es[..n + 1])|
    ensures Fitting(space, es) == n
  {
    FittingExact(space, es);
    var m := Fitting(space, es);
    if m < n {
      EncodeGrows(es, m + 1, n);
    } else if n < m {
      EncodeGrows(es, n + 1, m);
    }
  }

  lemma EncodeGrows(es: seq<Entry>, m: nat, n: nat)
    requires m <= n <= |es|
    ensures |EncodeAll(es[..m])| <= |EncodeAll(es[..n])|
  {
    assert es[..n] == es[..m] + es[m..n];
    EncodeConcat(es[..m], es[m..n]);
  }

  lemma ExtendIs(buf: Bytes, vars: seq<Entry>, n: nat, after: Bytes)
    requires Index(buf, ENV_END) < |buf| && n <= |vars| && Begin(buf) + |EncodeAll(vars[..n])| <= |buf|
    requires n < |vars| ==> |buf| < Begin(buf) + |EncodeAll(vars[..n + 1])|
    requires after == Written(buf, Begin(buf), vars[..n])
    ensures Extend(buf, vars) == Returns((after, if n == |vars| then None else Some(vars[n..])))
  {
    FittingIs(|buf| - Begin(buf), vars, n);
    var m, written := ExtendWrites(buf, vars);
  }

  class Config {
    const envVars: array<nat>

    constructor ()
      ensures fresh(envVars) && envVars[..] == Cleared(CAPACITY)
    {
      envVars := new nat[CAPACITY](_ => ENV_END);
    }

    method ClearEnv()
      modifies envVars
      ensures envVars[..] == Cleared(envVars.Length)
    {
      forall i | 0 <= i < envVars.Length {
        envVars[i] := ENV_END;
      }
    }

    /** `extend_env`: returns the entries from the first one that does not fit. */
    method ExtendEnv(vars: seq<Entry>) returns (r: Run<Option<seq<Entry>>>)
      modifies envVars
      ensures match r
              case Returns(rest) => Extend(old(envVars[..]), vars) == Returns((envVars[..], rest))
              case Aborts(f) => Extend(old(envVars[..]), vars) == Aborts(f)
    {
      ghost var was: Bytes := envVars[..];
      var end := Position(envVars[..], ENV_END);
      if end == envVars.Length {
        return Aborts(Panic);
      }
      var begin := if end == 0 then 0 else end + 1;
      var n := WriteFrom(begin, vars);
      ExtendIs(was, vars, n, envVars[..]);
      return Returns(if n == |vars| then None else Some(vars[n..]));
    }

    /** The loop of `extend_env`: how many entries it writes. */
    method WriteFrom(begin: nat, vars: seq<Entry>) returns (n: nat)
      requires begin <= envVars.Length
      modifies envVars
      ensures n <= |vars| && begin + |EncodeAll(vars[..n])| <= envVars.Length
      ensures n < |vars| ==> envVars.Length < begin + |EncodeAll(vars[..n + 1])|
      ensures envVars[..] == Written(old(envVars[..]), begin, vars[..n])
    {
      ghost var was: Bytes := envVars[..];
      ghost var done: seq<Entry> := [];
      var pos := begin;
      n := 0;
      while n < |vars|
        invariant 0 <= n <= |vars| && done == vars[..n]
        invariant pos == begin + |EncodeAll(done)| <= |was| && envVars[..] == Written(was, begin, done)
      {
        ghost var next := done + [vars[n]];
        assert next == vars[..n + 1];
        var ok := Append(vars[n], pos, was, begin, done, next);
        if !ok {
          return;
        }
        pos, n, done := pos + |vars[n].key| + 1 + |vars[n].value| + 1, n + 1, next;
      }
    }

    /** One iteration of the loop: writes an entry if there is space for it. */
    method Append(e: Entry, pos: nat, ghost was: Bytes, ghost begin: nat, ghost es: seq<Entry>, ghost next: seq<Entry>)
      returns (ok: bool)
      requires pos == begin + |EncodeAll(es)| <= |was| && envVars[..] == Written(was, begin, es) && next == es + [e]
      modifies envVars
      ensures |EncodeAll(next)| == |EncodeAll(es)| + |e.key| + 1 + |e.value| + 1
      ensures ok == (begin + |EncodeAll(next)| <= |was|)
      ensures envVars[..] == if ok then Written(was, begin, next) else old(envVars[..])
    {
      var l := |e.key| + 1 + |e.value| + 1;
      assert |envVars[..]| == |was|;
      EncodeSnoc(es, e);
      if pos + l > envVars.Length {
        return false;
      }
      ghost var mid: Bytes := envVars[..];
      PutEntry(envVars, pos, e);
      ghost var put: Bytes := envVars[..];
      if pos + l < envVars.Length {
        envVars[pos + l] := ENV_END;
        assert envVars[..] == put[pos + l := ENV_END];
      }
      assert envVars[..] == PutMarked(mid, pos, Encode(e));
      WrittenNext(was, mid, begin, es, e, Encode(e));
      return true;
    }
  }

  /** What has been read already, followed by what is read from the rest. */
  function Behind(es: seq<Entry>, r: Run<seq<Entry>>): Run<seq<Entry>> {
    match r
    case Returns(more) => Returns(es + more)
    case Aborts(f) => Aborts(f)
  }

  lemma BehindNext(es: seq<Entry>, rem: Bytes, e: Entry, rest: Bytes)
    requires Next(rem) == Returns(Some((e, rest))) && |rest| < |rem|
    ensures Behind(es, Decode(rem)) == Behind(es + [e], Decode(rest))
  {
    var more := Decode(rest);
    if more.Returns? {
      assert es + ([e] + more.value) == es + [e] + more.value;
    }
  }

  lemma NothingBehind(r: Run<seq<Entry>>)
    ensures Behind([], r) == r
  {
    if r.Returns? {
      assert [] + r.value == r.value;
    }
  }

  /** `load_env`: collects the iterator over the buffer. */
  method LoadEnv(buf: Bytes) returns (r: Run<seq<Entry>>)
    ensures r == Decode(buf)
  {
    var rem := buf;
    var es: seq<Entry> := [];
    NothingBehind(Decode(buf));
    while true
      invariant Decode(buf) == Behind(es, Decode(rem))
      decreases |rem|
    {
      var n := Next(rem);
      if n.Aborts? {
        return Aborts(n.fault);
      }
      if n.value.None? {
        assert es + [] == es;
        return Returns(es);
      }
      BehindNext(es, rem, n.value.value.0, n.value.value.1);
      es, rem := es + [n.value.value.0], n.value.value.1;
    }
  }

  /** The kernel's `env`. */
  method Env(es: seq<Entry>, name: Bytes) returns (r: Option<Bytes>)
    ensures r == Lookup(es, name)
  {
    var i := 0;
    assert es[0..] == es;
    while i < |es|
      invariant 0 <= i <= |es| && Lookup(es, name) == Lookup(es[i..], name)
    {
      assert es[i..][0] == es[i] && es[i..][1..] == es[i + 1..];
      if es[i].key == name {
        return Some(es[i].value);
      }
      i := i + 1;
    }
    return None;
  }

  /**
    From the GUI to the kernel: of a list of any length, the longest prefix that fits is handed over,
    and a name set in it is found with its first value.
   */
  lemma EndToEnd(vars: seq<Entry>, name: Bytes) returns (n: nat, after: Bytes)
    requires Clean(vars)
    ensures n <= |vars| && Extend(Cleared(CAPACITY), vars) == Returns((after, if n == |vars| then None else Some(vars[n..])))
    ensures |EncodeAll(vars[..n])| <= CAPACITY && (n < |vars| ==> CAPACITY < |EncodeAll(vars[..n + 1])|)
    ensures Decode(after).Returns? && Lookup(Decode(after).value, name) == Lookup(vars[..n], name)
    ensures |EncodeAll(vars)| <= CAPACITY ==> n == |vars| && Lookup(Decode(after).value, name) == Lookup(vars, name)
  {
    n, after := RoundTrip(CAPACITY, vars);
    assert vars[..|vars|] == vars;
    if n < |vars| {
      EncodeGrows(vars, n + 1, |vars|);
    }
  }
}
