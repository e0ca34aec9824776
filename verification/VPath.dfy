/** Absolute paths of the virtual filesystem: building, taking apart and checking them. */
module VPath {
  import opened Machine
  import opened Search

  // ---- Paths and their components ----

  /** The path with the given components; no components is the root. */
  function Render(cs: seq<string>): string {
    if cs == [] then "/" else Slashed(cs)
  }

  function Slashed(cs: seq<string>): string {
    if cs == [] then "" else Slashed(cs[..|cs| - 1]) + "/" + cs[|cs| - 1]
  }

  /** Not empty and without a separator. */
  predicate Plain(c: string) {
    c != "" && '/' !in c
  }

  /** What `push` accepts. */
  predicate Allowed(c: string) {
    Plain(c) && c != "." && c != ".."
  }

  /** The last position of `c`, counted as `rfind` does, or the length. */
  function RFind(s: string, c: char): (i: nat)
    ensures i <= |s|
    ensures i < |s| ==> s[i] == c && forall k :: i < k < |s| ==> s[k] != c
    ensures i == |s| ==> c !in s
  {
    if s == "" then 0
    else if s[|s| - 1] == c then |s| - 1
    else
      var i := RFind(s[..|s| - 1], c);
      if i == |s| - 1 then |s| else i
  }

  /** What the component iterator yields for the text after the leading separator. */
  function Parts(rest: string): seq<string>
    decreases |rest|
  {
    if rest == "" then []
    else
      var end := Index(rest, '/');
      [rest[..end]] + Parts(if end == |rest| then "" else rest[end + 1..])
  }

  function Components(p: string): seq<string>
    requires p != ""
  {
    Parts(p[1..])
  }

  datatype PushError = Empty | Forbidden | HasPathSeparator

  datatype Pushed = Path(path: string) | Refused(error: PushError)

  function Push(p: string, c: string): Pushed {
    if c == "" then Refused(Empty)
    else if c == "." || c == ".." then Refused(Forbidden)
    else if '/' in c then Refused(HasPathSeparator)
    else Path((if |p| != 1 then p + "/" else p) + c)
  }

  function Parent(p: string): Option<string> {
    if |p| == 1 then None
    else
      var end := RFind(p, '/');
      Some(if end == 0 then "/" else p[..end])
  }

  function FileName(p: string): Option<string> {
    if |p| == 1 then None
    else
      var sep := RFind(p, '/');
      if sep == |p| then None else Some(p[sep + 1..])
  }

  // ---- Pushing and its inverses ----

  lemma SlashedLonger(cs: seq<string>)
    requires cs != [] && Plain(cs[|cs| - 1])
    ensures |Slashed(cs)| > 1
  {
  }

  /** A push onto a rendered path is the path with one more component, or an error. */
  lemma PushRenders(cs: seq<string>, c: string)
    requires forall i :: 0 <= i < |cs| ==> Plain(cs[i])
    ensures Allowed(c) ==> Push(Render(cs), c) == Path(Render(cs + [c]))
    ensures c == "" ==> Push(Render(cs), c) == Refused(Empty)
    ensures c == "." || c == ".." ==> Push(Render(cs), c) == Refused(Forbidden)
    ensures '/' in c ==> Push(Render(cs), c) == Refused(HasPathSeparator)
  {
    assert (cs + [c])[..|cs|] == cs;
    if cs != [] {
      SlashedLonger(cs);
    }
  }

  lemma RFindIs(s: string, c: char, i: nat)
    requires i < |s| && s[i] == c && forall k :: i < k < |s| ==> s[k] != c
    ensures RFind(s, c) == i
  {
  }

  /** `parent` and `file_name` undo a push. */
  lemma PushUndone(cs: seq<string>, c: string)
    requires (forall i :: 0 <= i < |cs| ==> Plain(cs[i])) && Plain(c)
    ensures Parent(Render(cs + [c])) == Some(Render(cs))
    ensures FileName(Render(cs + [c])) == Some(c)
  {
    assert (cs + [c])[..|cs|] == cs;
    var p := Slashed(cs) + "/" + c;
    assert Render(cs + [c]) == p;
    var i := |Slashed(cs)|;
    assert p[..i] == Slashed(cs) && p[i] == '/' && p[i + 1..] == c;
    forall k | i < k < |p| ensures p[k] != '/' {
      assert p[k] == c[k - i - 1];
    }
    RFindIs(p, '/', i);
    if cs != [] {
      SlashedLonger(cs);
    }
  }

  lemma {:induction false} SlashedConcat(a: seq<string>, b: seq<string>)
    ensures Slashed(a + b) == Slashed(a) + Slashed(b)
  {
    if b == [] {
      assert a + b == a;
    } else {
      var n := |b| - 1;
      SlashedConcat(a, b[..n]);
      assert (a + b)[..|a + b| - 1] == a + b[..n];
      assert Slashed(a) + (Slashed(b[..n]) + "/" + b[n]) == Slashed(a) + Slashed(b[..n]) + "/" + b[n];
    }
  }

  lemma SlashedOne(c: string)
    ensures Slashed([c]) == "/" + c
  {
    assert [c][..0] == [];
  }

  lemma Regroup(c: string, tail: string)
    ensures "/" + c + ("/" + tail) == "/" + (c + "/" + tail)
  {
  }

  lemma SlashedFirst(cs: seq<string>)
    requires cs != []
    ensures Slashed(cs) == "/" + cs[0] + Slashed(cs[1..])
  {
    SlashedConcat([cs[0]], cs[1..]);
    assert [cs[0]] + cs[1..] == cs;
    assert [cs[0]][..0] == [];
    assert Slashed([cs[0]]) == "/" + cs[0];
  }

  lemma PartsCons(c: string, tail: string)
    requires Plain(c) && (tail == "" || tail[0] == '/')
    ensures Parts(c + tail) == [c] + (if tail == "" then [] else Parts(tail[1..]))
  {
    var rest := c + tail;
    assert Index(rest, '/') == |c| by {
      IndexIs(rest, '/', |c|);
    }
    PartsFind(rest, |c|);
    assert rest[..|c|] == c;
    if tail != "" {
      DropBoth(c, tail);
    }
  }

  lemma PartsFind(rest: string, end: nat)
    requires rest != "" && Index(rest, '/') == end
    ensures Parts(rest) == [rest[..end]] + (if end == |rest| then [] else Parts(rest[end + 1..]))
  {
  }

  lemma DropBoth(c: string, tail: string)
    requires tail != ""
    ensures (c + tail)[|c| + 1..] == tail[1..]
  {
  }

  /** The iterator yields the components a path was rendered from. */
  lemma {:induction false} PartsOfSlashed(cs: seq<string>)
    requires cs != [] && forall i :: 0 <= i < |cs| ==> Plain(cs[i])
    ensures Slashed(cs) != "" && Slashed(cs)[0] == '/' && Parts(Slashed(cs)[1..]) == cs
    decreases |cs|
  {
    var c, ts := cs[0], cs[1..];
    assert Plain(c) && cs == [c] + ts;
    SlashedFirst(cs);
    var tail := Slashed(ts);
    assert Slashed(cs)[1..] == c + tail;
    if ts != [] {
      PartsOfSlashed(ts);
    }
    PartsCons(c, tail);
  }

  lemma ComponentsOfRendered(cs: seq<string>)
    requires forall i :: 0 <= i < |cs| ==> Plain(cs[i])
    ensures Components(Render(cs)) == cs
  {
    if cs != [] {
      PartsOfSlashed(cs);
    }
  }

  /** A path built from the root by pushing each of `cs`, as far as the pushes succeed. */
  function Build(cs: seq<string>): string {
    if cs == [] then "/"
    else
      match Push(Build(cs[..|cs| - 1]), cs[|cs| - 1])
      case Path(p) => p
      case Refused(_) => Build(cs[..|cs| - 1])
  }

  function Accepted(cs: seq<string>): seq<string> {
    if cs == [] then []
    else Accepted(cs[..|cs| - 1]) + (if Allowed(cs[|cs| - 1]) then [cs[|cs| - 1]] else [])
  }

  lemma {:induction false} AcceptedPlain(cs: seq<string>)
    ensures forall i :: 0 <= i < |Accepted(cs)| ==> Allowed(Accepted(cs)[i])
  {
    if cs != [] {
      AcceptedPlain(cs[..|cs| - 1]);
    }
  }

  /** Whatever is pushed, the components of the result are the accepted names, in order. */
  lemma {:induction false} BuildComponents(cs: seq<string>)
    ensures Build(cs) == Render(Accepted(cs)) && Components(Build(cs)) == Accepted(cs)
  {
    AcceptedPlain(cs);
    if cs != [] {
      var n := |cs| - 1;
      BuildComponents(cs[..n]);
      AcceptedPlain(cs[..n]);
      PushRenders(Accepted(cs[..n]), cs[n]);
      assert Accepted(cs[..n]) + [] == Accepted(cs[..n]);
    }
    ComponentsOfRendered(Accepted(cs));
  }

  // ---- is_valid ----

  predicate Checked(c: string) {
    c != "" && c != "." && c != ".."
  }

  /** What `is_valid` accepts: the last component is not looked at. */
  predicate IsValid(s: string) {
    && s != "" && s[0] == '/' && s[|s| - 1] != '/'
    && AllButLast(Components(s))
  }

  /** Text that does not end in a separator is its parts, each behind a separator. */
  lemma {:induction false} PartsRestore(rest: string, cs: seq<string>)
    requires rest != "" && rest[|rest| - 1] != '/' && cs == Parts(rest)
    ensures Restored(rest, cs)
    decreases |rest|
  {
    if Index(rest, '/') == |rest| {
      PartsLast(rest, cs);
    } else {
      var c, tail, ts := PartsMore(rest, cs);
      PartsRestore(tail, ts);
      RestoreStep(rest, c, tail, ts, cs);
    }
  }

  predicate Restored(rest: string, cs: seq<string>) {
    cs != [] && Slashed(cs) == "/" + rest && cs[|cs| - 1] != ""
  }

  lemma PartsLast(rest: string, cs: seq<string>)
    requires rest != "" && Index(rest, '/') == |rest| && cs == Parts(rest)
    ensures Restored(rest, cs)
  {
    assert rest[..|rest|] == rest && Parts("") == [];
    assert cs == [rest];
    SlashedOne(rest);
  }

  lemma PartsMore(rest: string, cs: seq<string>) returns (c: string, tail: string, ts: seq<string>)
    requires rest != "" && rest[|rest| - 1] != '/' && Index(rest, '/') < |rest| && cs == Parts(rest)
    ensures rest == c + "/" + tail && tail != "" && tail[|tail| - 1] != '/' && |tail| < |rest|
    ensures ts == Parts(tail) && cs == [c] + ts
  {
    var end := Index(rest, '/');
    SplitAt(rest, end);
    c, tail := rest[..end], rest[end + 1..];
    ts := Parts(tail);
  }

  lemma SplitAt(s: string, i: nat)
    requires i < |s| && s[i] == '/'
    ensures s == s[..i] + "/" + s[i + 1..]
  {
  }

  lemma RestoreStep(rest: string, c: string, tail: string, ts: seq<string>, cs: seq<string>)
    requires rest == c + "/" + tail && cs == [c] + ts && Restored(tail, ts)
    ensures Restored(rest, cs)
  {
    assert cs[1..] == ts && cs[|cs| - 1] == ts[|ts| - 1];
    SlashedFirst(cs);
    Regroup(c, tail);
  }

  lemma {:induction false} PartsPlain(rest: string, cs: seq<string>)
    requires cs == Parts(rest)
    ensures forall i :: 0 <= i < |cs| ==> '/' !in cs[i]
    decreases |rest|
  {
    if rest != "" {
      var end := Index(rest, '/');
      var tail := if end == |rest| then "" else rest[end + 1..];
      PartsPlain(tail, Parts(tail));
      assert cs == [rest[..end]] + Parts(tail);
      forall i | 0 <= i < |cs| ensures '/' !in cs[i] {
        assert i > 0 ==> cs[i] == Parts(tail)[i - 1];
      }
    }
  }

  /** The strings made of plain components of which all but the last may be pushed. */
  predicate WellFormed(cs: seq<string>) {
    && cs != []
    && (forall i :: 0 <= i < |cs| ==> Plain(cs[i]))
    && forall i :: 0 <= i < |cs| - 1 ==> Allowed(cs[i])
  }

  /** A valid string is the separator-joined list of its own components. */
  lemma ValidIsRendered(s: string)
    requires IsValid(s)
    ensures s == Render(Components(s)) && WellFormed(Components(s))
  {
    assert s == "/" + s[1..];
    PartsRestore(s[1..], Components(s));
    PartsPlain(s[1..], Components(s));
  }

  /** Every such list renders to a valid string. */
  lemma RenderedIsValid(cs: seq<string>)
    requires WellFormed(cs)
    ensures IsValid(Render(cs))
  {
    ComponentsOfRendered(cs);
    SlashedFirst(cs);
    var n := |cs| - 1;
    assert Plain(cs[n]);
    var p := Render(cs);
    assert p[|p| - 1] == cs[n][|cs[n]| - 1];
  }

  /** A valid string is one that some pushes can build exactly if its last component is not `.` or `..`. */
  lemma ValidIsBuilt(s: string)
    requires IsValid(s)
    ensures var cs := Components(s);
            (exists names :: Build(names) == s) <==> cs[|cs| - 1] != "." && cs[|cs| - 1] != ".."
  {
    var cs := Components(s);
    ValidIsRendered(s);
    var n := |cs| - 1;
    if cs[n] != "." && cs[n] != ".." {
      AllAccepted(cs);
      BuildComponents(cs);
    }
    if names :| Build(names) == s {
      BuildComponents(names);
      AcceptedPlain(names);
      assert Allowed(cs[n]);
    }
  }

  lemma {:induction false} AllAccepted(cs: seq<string>)
    requires forall i :: 0 <= i < |cs| ==> Allowed(cs[i])
    ensures Accepted(cs) == cs
  {
    if cs != [] {
      AllAccepted(cs[..|cs| - 1]);
      assert cs == cs[..|cs| - 1] + [cs[|cs| - 1]];
    }
  }

  /**
    The parent of an accepted string of more than one component is accepted; that of one with a
    single component is the root, which is not.
   */
  lemma ParentValid(s: string)
    requires IsValid(s)
    ensures Parent(s).Some?
    ensures if |Components(s)| > 1 then IsValid(Parent(s).value) else Parent(s).value == "/" && !IsValid(Parent(s).value)
  {
    ValidIsRendered(s);
    var cs := Components(s);
    var n := |cs| - 1;
    assert cs == cs[..n] + [cs[n]];
    PushUndone(cs[..n], cs[n]);
    if n > 0 {
      RenderedIsValid(cs[..n]);
    }
  }

  /** The checks let a path end in `..`, and refuse the root, which is where every path starts. */
  lemma ValidSurprises()
    ensures IsValid("/..") && Components("/..") == [".."] && !IsValid(Build([]))
  {
    assert ("/..")[1..] == "..";
    LastPart("/..", 0);
  }

  // ---- The methods ----

  /** The loop of `is_valid`, which checks a component when it meets the separator behind it. */
  method CheckPath(data: string) returns (valid: bool)
    ensures valid == IsValid(data)
  {
    if data == "" || data[0] != '/' || data[|data| - 1] == '/' {
      return false;
    }
    valid := CheckNames(data);
  }

  predicate AllButLast(cs: seq<string>) {
    forall i :: 0 <= i < |cs| - 1 ==> Checked(cs[i])
  }

  predicate AllChecked(cs: seq<string>) {
    cs == [] || (AllChecked(cs[..|cs| - 1]) && Checked(cs[|cs| - 1]))
  }

  lemma {:induction false} AllCheckedAt(cs: seq<string>, i: nat)
    requires AllChecked(cs) && i < |cs|
    ensures Checked(cs[i])
  {
    if i < |cs| - 1 {
      AllCheckedAt(cs[..|cs| - 1], i);
    }
  }

  lemma AllButLastIs(done: seq<string>, last: string)
    requires AllChecked(done)
    ensures AllButLast(done + [last])
  {
    forall i | 0 <= i < |done| ensures Checked((done + [last])[i]) {
      AllCheckedAt(done, i);
    }
  }

  lemma AllCheckedSnoc(done: seq<string>, c: string)
    requires AllChecked(done) && Checked(c)
    ensures AllChecked(done + [c])
  {
    assert (done + [c])[..|done|] == done;
  }

  /** No separator from `lo` up to `hi`. */
  predicate NoSep(data: string, lo: nat, hi: nat)
    requires hi <= |data|
  {
    forall k :: lo <= k < hi ==> data[k] != '/'
  }

  /** The parts of `data` behind position `sep`, named so that the loop need not unfold them. */
  function After(data: string, sep: nat): seq<string>
    requires sep < |data|
  {
    Parts(data[sep + 1..])
  }

  method CheckNames(data: string) returns (valid: bool)
    requires data != "" && data[0] == '/' && data[|data| - 1] != '/'
    ensures valid == AllButLast(Components(data))
  {
    var sep := 0;
    ghost var done: seq<string> := [];
    ghost var cs := Components(data);
    var i := 1;
    while i < |data|
      invariant 0 <= sep < i <= |data| && data[sep] == '/' && NoSep(data, sep + 1, i)
      invariant AllChecked(done)
      invariant cs == done + After(data, sep)
    {
      if data[i] == '/' {
        var com := data[sep + 1..i];
        PartAt(data, sep, i);
        NextPart(cs, done, com, After(data, i));
        if !Checked(com) {
          return false;
        }
        AllCheckedSnoc(done, com);
        sep, done := i, done + [com];
      }
      i := i + 1;
    }
    LastPart(data, sep);
    AllButLastIs(done, data[sep + 1..]);
    return true;
  }

  lemma PartAt(data: string, sep: nat, i: nat)
    requires sep < i < |data| && data[i] == '/' && data[|data| - 1] != '/' && NoSep(data, sep + 1, i)
    ensures After(data, sep) == [data[sep + 1..i]] + After(data, i) && After(data, i) != []
  {
    var rest := data[sep + 1..];
    IndexIs(rest, '/', i - sep - 1);
    assert rest[..i - sep - 1] == data[sep + 1..i] && rest[i - sep..] == data[i + 1..];
  }

  lemma NextPart(cs: seq<string>, done: seq<string>, com: string, more: seq<string>)
    requires cs == done + ([com] + more) && more != []
    ensures cs == done + [com] + more
    ensures !Checked(com) ==> !AllButLast(cs)
  {
    assert cs[|done|] == com;
  }

  lemma LastPart(data: string, sep: nat)
    requires sep < |data| && data[|data| - 1] != '/' && data[sep] == '/' && NoSep(data, sep + 1, |data|)
    ensures After(data, sep) == [data[sep + 1..]]
  {
    var rest := data[sep + 1..];
    IndexIs(rest, '/', |rest|);
    assert rest[..|rest|] == rest && Parts("") == [];
  }

  class VPathBuf {
    var path: string

    constructor ()
      ensures path == "/"
    {
      path := "/";
    }

    method PushName(c: string) returns (error: Option<PushError>)
      modifies this
      ensures match Push(old(path), c)
              case Path(p) => error == None && path == p
              case Refused(e) => error == Some(e) && path == old(path)
    {
      if c == "" {
        return Some(Empty);
      }
      if c == "." || c == ".." {
        return Some(Forbidden);
      }
      if '/' in c {
        return Some(HasPathSeparator);
      }
      if |path| != 1 {
        path := path + "/";
      }
      path := path + c;
      return None;
    }
  }

  /** The component iterator. */
  class ComponentIter {
    var rest: string

    constructor (path: string)
      requires path != ""
      ensures Parts(rest) == Components(path)
    {
      rest := path[1..];
    }

    method Next() returns (c: Option<string>)
      modifies this
      ensures Parts(old(rest)) == match c case None => [] case Some(name) => [name] + Parts(rest)
    {
      if rest == "" {
        return None;
      }
      var end := Index(rest, '/');
      c := Some(rest[..end]);
      rest := if end == |rest| then rest[end..] else rest[end + 1..];
    }
  }
}
