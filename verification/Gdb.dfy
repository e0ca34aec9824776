/**
  The GDB remote session of the VMM: packet framing with checksums, the acknowledgment mode, and
  the replies. Bytes are characters; the functions say what the session methods compute.
 */
module Gdb {
  import opened Machine
  import opened Search

  // ---- Checksums and hexadecimal ----

  /** `get_checksum`: the sum of the bytes, wrapping at 8 bits. */
  function Checksum(data: string): (r: nat)
    ensures r < 256
  {
    if data == [] then 0 else (Checksum(data[..|data| - 1]) + data[|data| - 1] as int) % 256
  }

  const DIGITS := "0123456789abcdef"

  function HexByte(b: nat): string
    requires b < 256
  {
    [DIGITS[b / 16], DIGITS[b % 16]]
  }

  function HexDigit(c: char): Option<nat> {
    if '0' <= c <= '9' then Some((c - '0') as int)
    else if 'a' <= c <= 'f' then Some((c - 'a') as int + 10)
    else if 'A' <= c <= 'F' then Some((c - 'A') as int + 10)
    else None
  }

  /** `hex::decode` of two digits, in either case. */
  function Unhex(hi: char, lo: char): Option<nat> {
    if HexDigit(hi).None? || HexDigit(lo).None? then None
    else Some(16 * HexDigit(hi).value + HexDigit(lo).value)
  }

  lemma DigitRoundTrip(d: nat)
    requires d < 16
    ensures HexDigit(DIGITS[d]) == Some(d)
  {
    assert d == 0 || d == 1 || d == 2 || d == 3 || d == 4 || d == 5 || d == 6 || d == 7 ||
           d == 8 || d == 9 || d == 10 || d == 11 || d == 12 || d == 13 || d == 14 || d == 15;
  }

  lemma HexRoundTrip(b: nat)
    requires b < 256
    ensures Unhex(HexByte(b)[0], HexByte(b)[1]) == Some(b)
  {
    DigitRoundTrip(b / 16);
    DigitRoundTrip(b % 16);
  }

  // ---- Framing ----

  datatype Frame =
    | Incomplete
    | BadHex(digits: string, rest: string)
    | BadSum(got: nat, wanted: nat, rest: string)
    | Packet(data: string, rest: string)

  /** Takes one packet off the front of the request buffer. */
  function Unframe(req: string): Frame
    requires req != [] && req[0] == '$'
  {
    var i := Index(req, '#');
    if i + 3 > |req| then Incomplete
    else
      var rest := req[i + 3..];
      var sum := Unhex(req[i + 1], req[i + 2]);
      if sum.None? then BadHex(req[i + 1..i + 3], rest)
      else
        var data := req[1..i];
        if sum.value != Checksum(data) then BadSum(sum.value, Checksum(data), rest) else Packet(data, rest)
  }

  /** A packet as it is sent. */
  function Reply(payload: string): string {
    "$" + payload + "#" + HexByte(Checksum(payload))
  }

  /** Whatever is sent is read back by the same framing and checksum rules. */
  lemma ReplyIsRead(payload: string, rest: string)
    requires '#' !in payload
    ensures Unframe(Reply(payload) + rest) == Packet(payload, rest)
  {
    var s := Reply(payload) + rest;
    var i := 1 + |payload|;
    assert s == "$" + payload + ("#" + HexByte(Checksum(payload)) + rest);
    forall k | 0 <= k < i ensures s[k] != '#' {
      assert k > 0 ==> s[k] == payload[k - 1];
    }
    assert s[i..] == "#" + HexByte(Checksum(payload)) + rest;
    IndexIs(s, '#', i);
    HexRoundTrip(Checksum(payload));
    assert s[1..i] == payload;
    assert s[i + 1] == HexByte(Checksum(payload))[0] && s[i + 2] == HexByte(Checksum(payload))[1];
    assert s[i + 3..] == rest;
  }

  /** More input does not change how a complete packet is taken off. */
  lemma UnframeExtends(req: string, more: string)
    requires req != [] && req[0] == '$' && Unframe(req) != Incomplete
    ensures Unframe(req + more) ==
            match Unframe(req)
            case BadHex(d, rest) => BadHex(d, rest + more)
            case BadSum(g, e, rest) => BadSum(g, e, rest + more)
            case Packet(data, rest) => Packet(data, rest + more)
            case Incomplete => Incomplete
  {
    var i := Index(req, '#');
    IndexIs(req + more, '#', i);
    assert (req + more)[i + 3..] == req[i + 3..] + more;
    SliceOfPrefix(req, more, 1, i);
    SliceOfPrefix(req, more, i + 1, i + 3);
  }

  lemma SliceOfPrefix(a: string, b: string, lo: nat, hi: nat)
    requires lo <= hi <= |a|
    ensures (a + b)[lo..hi] == a[lo..hi]
  {
  }

  // ---- Commands ----

  datatype Arch = Aarch64 | X86_64

  /** The acknowledgment mode: on, being turned off, or off. */
  datatype State = State(noAck: Option<bool>, threadSuffix: bool)

  predicate StartsWith(s: string, p: string) {
    |p| <= |s| && s[..|p|] == p
  }

  /** What one feature of the client adds to the reply; nothing if the code does not handle it. */
  function Feature(feat: string, arch: Arch): Option<string> {
    if StartsWith(feat, "xmlRegisters=") then
      Some(";xmlRegisters=" + (match arch case Aarch64 => "arm" case X86_64 => "i386"))
    else if StartsWith(feat, "multiprocess") then Some("")
    else if StartsWith(feat, "fork-events") then Some("")
    else if StartsWith(feat, "vfork-events") then Some("")
    else if StartsWith(feat, "swbreak") then Some(if feat == "swbreak+" then ";swbreak+" else "")
    else if StartsWith(feat, "hwbreak") then Some("")
    else None
  }

  function Split(s: string): (parts: seq<string>)
    ensures |parts| > 0
    decreases |s|
  {
    var i := Index(s, ';');
    if i == |s| then [s] else [s[..i]] + Split(s[i + 1..])
  }

  /** The answers `f` gives to a list of features, in order; nothing if it lacks one. */
  function Answers(feats: seq<string>, f: string -> Option<string>): Option<string> {
    if feats == [] then Some("")
    else
      var before := Answers(feats[..|feats| - 1], f);
      var last := f(feats[|feats| - 1]);
      if before.None? || last.None? then None else Some(before.value + last.value)
  }

  /** The payload of the reply to `qSupported`. */
  function Supported(req: string, arch: Arch): Option<string> {
    if !StartsWith(req, ":") then Some("QStartNoAckMode+")
    else
      var a := Answers(Split(req[1..]), feat => Feature(feat, arch));
      if a.None? then None else Some("QStartNoAckMode+" + a.value)
  }

  /** Runs a command: the payload of its reply and the new state. */
  function Execute(data: string, st: State, arch: Arch): Option<(string, State)> {
    if data == "QStartNoAckMode" then Some(("OK", st.(noAck := Some(false))))
    else if StartsWith(data, "qSupported") then
      (var p := Supported(data[10..], arch); if p.None? then None else Some((p.value, st)))
    else if data == "QThreadSuffixSupported" then Some(("OK", st.(threadSuffix := true)))
    else None
  }

  lemma {:induction false} AnswersPlain(feats: seq<string>, f: string -> Option<string>)
    requires forall feat :: f(feat).Some? ==> '#' !in f(feat).value
    ensures Answers(feats, f).Some? ==> '#' !in Answers(feats, f).value
  {
    if feats != [] {
      AnswersPlain(feats[..|feats| - 1], f);
    }
  }

  lemma FeaturePlain(feat: string, arch: Arch)
    ensures Feature(feat, arch).Some? ==> '#' !in Feature(feat, arch).value
  {
  }

  /** No payload holds the character that ends a packet. */
  lemma PayloadPlain(data: string, st: State, arch: Arch)
    ensures Execute(data, st, arch).Some? ==> '#' !in Execute(data, st, arch).value.0
  {
    if StartsWith(data, "qSupported") && StartsWith(data[10..], ":") {
      var f := feat => Feature(feat, arch);
      forall feat ensures f(feat).Some? ==> '#' !in f(feat).value {
        FeaturePlain(feat, arch);
      }
      AnswersPlain(Split(data[10..][1..]), f);
    }
  }

  // ---- Pumping the session ----

  datatype Error =
    | UnknownPacketPrefix(c: char)
    | UnexpectedAck
    | MissingAck
    | DecodeChecksum(digits: string)
    | InvalidChecksum(got: nat, wanted: nat)

  /** One pump: nothing to do yet, a response that may be empty, an error, or an unhandled request. */
  datatype Event = NeedMore | Response(bytes: string) | Failure(error: Error) | Unhandled

  datatype Pumped = Pumped(event: Event, req: string, st: State)

  /** A packet that fails its check. */
  function Reject(error: Error, rest: string, st: State): Pumped {
    match st.noAck
    case Some(true) => Pumped(Failure(error), rest, st)
    case Some(false) => Pumped(Failure(MissingAck), rest, st)
    case None => Pumped(Response("-"), rest, st)
  }

  function Pump(req: string, st: State, arch: Arch): Pumped {
    if req == "" then Pumped(NeedMore, req, st)
    else if req[0] == '+' then
      if st.noAck == Some(true) then Pumped(Failure(UnexpectedAck), req, st)
      else if st.noAck == Some(false) then Pumped(Response(""), req[1..], st.(noAck := Some(true)))
      else Pumped(Response(""), req[1..], st)
    else if req[0] != '$' then Pumped(Failure(UnknownPacketPrefix(req[0])), req, st)
    else
      match Unframe(req)
      case Incomplete => Pumped(NeedMore, req, st)
      case BadHex(digits, rest) => Reject(DecodeChecksum(digits), rest, st)
      case BadSum(got, wanted, rest) => Reject(InvalidChecksum(got, wanted), rest, st)
      case Packet(data, rest) =>
        if st.noAck == Some(false) then Pumped(Failure(MissingAck), rest, st)
        else
          var r := Execute(data, st, arch);
          if r.None? then Pumped(Unhandled, rest, st)
          else Pumped(Response((if st.noAck.None? then "+" else "") + Reply(r.value.0)), rest, r.value.1)
  }

  /** Every response consumes input. */
  lemma PumpConsumes(req: string, st: State, arch: Arch)
    ensures Pump(req, st, arch).event.Response? ==> |Pump(req, st, arch).req| < |req|
    ensures Pump(req, st, arch).event.NeedMore? ==> Pump(req, st, arch) == Pumped(NeedMore, req, st)
  {
  }

  /** A pump that does something does the same with more input behind. */
  lemma PumpExtends(req: string, more: string, st: State, arch: Arch)
    requires !Pump(req, st, arch).event.NeedMore?
    ensures Pump(req + more, st, arch) == Pump(req, st, arch).(req := Pump(req, st, arch).req + more)
  {
    assert (req + more)[0] == req[0];
    if req[0] == '$' {
      UnframeExtends(req, more);
    } else {
      assert (req + more)[1..] == req[1..] + more;
    }
  }

  datatype End = Open | Failed(error: Error) | Stuck

  /** The responses sent so far, what is left in the buffer, the state, and whether the session goes on. */
  datatype Session = Session(out: seq<string>, req: string, st: State, end: End)

  /** Pumps until nothing is left to do; a failed session keeps no input. */
  function Drain(req: string, st: State, arch: Arch): Session
    decreases |req|
  {
    PumpConsumes(req, st, arch);
    var p := Pump(req, st, arch);
    match p.event
    case NeedMore => Session([], req, st, Open)
    case Failure(e) => Session([], "", p.st, Failed(e))
    case Unhandled => Session([], "", p.st, Stuck)
    case Response(b) =>
      var s := Drain(p.req, p.st, arch);
      s.(out := [b] + s.out)
  }

  /** What goes out over the connection: empty responses are not sent. */
  function Sent(out: seq<string>): seq<string> {
    if out == [] then [] else (if out[0] == "" then [] else [out[0]]) + Sent(out[1..])
  }

  /** The bytes of the responses, in order. */
  function Bytes(out: seq<string>): string {
    if out == [] then "" else out[0] + Bytes(out[1..])
  }

  /** Leaving out the empty ones does not change the bytes. */
  lemma {:induction false} SentBytes(out: seq<string>)
    ensures Bytes(Sent(out)) == Bytes(out) && "" !in Sent(out)
    decreases |out|
  {
    if out != [] {
      SentBytes(out[1..]);
      var more := Sent(out[1..]);
      if out[0] == "" {
        assert Sent(out) == more && "" + Bytes(out[1..]) == Bytes(out[1..]);
      } else {
        assert Sent(out) == [out[0]] + more && ([out[0]] + more)[1..] == more;
      }
    }
  }

  /** Input arriving on a session. */
  function Feed(s: Session, data: string, arch: Arch): Session {
    if s.end != Open then s
    else
      var d := Drain(s.req + data, s.st, arch);
      d.(out := s.out + d.out)
  }

  /** Draining in two instalments is draining at once. */
  lemma {:induction false} DrainSplits(a: string, b: string, st: State, arch: Arch)
    ensures Feed(Drain(a, st, arch), b, arch) == Drain(a + b, st, arch)
    decreases |a|
  {
    PumpConsumes(a, st, arch);
    var p := Pump(a, st, arch);
    if p.event.NeedMore? {
      var d := Drain(a + b, st, arch);
      assert [] + d.out == d.out;
    } else {
      PumpExtends(a, b, st, arch);
      if p.event.Response? {
        DrainSplits(p.req, b, p.st, arch);
        DrainOnce(a, st, arch);
        DrainOnce(a + b, st, arch);
        FeedPrefix(p.event.bytes, Drain(p.req, p.st, arch), b, arch);
      }
    }
  }

  lemma DrainOnce(req: string, st: State, arch: Arch)
    requires Pump(req, st, arch).event.Response?
    ensures var p := Pump(req, st, arch);
            var s := Drain(p.req, p.st, arch);
            Drain(req, st, arch) == s.(out := [p.event.bytes] + s.out)
  {
  }

  lemma FeedPrefix(r: string, s: Session, b: string, arch: Arch)
    ensures Feed(s.(out := [r] + s.out), b, arch) == Feed(s, b, arch).(out := [r] + Feed(s, b, arch).out)
  {
    if s.end == Open {
      var d := Drain(s.req + b, s.st, arch);
      assert [r] + s.out + d.out == [r] + (s.out + d.out);
    }
  }

  function Join(chunks: seq<string>): string {
    if chunks == [] then "" else Join(chunks[..|chunks| - 1]) + chunks[|chunks| - 1]
  }

  /** A connection that delivers its input in chunks. */
  function Receive(st: State, chunks: seq<string>, arch: Arch): Session {
    if chunks == [] then Session([], "", st, Open)
    else Feed(Receive(st, chunks[..|chunks| - 1], arch), chunks[|chunks| - 1], arch)
  }

  /** However the input is cut up, the responses, the state, the remaining input and the error are the same. */
  lemma {:induction false} ChunkingIrrelevant(st: State, chunks: seq<string>, arch: Arch)
    ensures Receive(st, chunks, arch) == Drain(Join(chunks), st, arch)
  {
    if chunks != [] {
      var n := |chunks| - 1;
      ChunkingIrrelevant(st, chunks[..n], arch);
      DrainSplits(Join(chunks[..n]), chunks[n], st, arch);
    }
  }

  // ---- Acknowledgments ----

  predicate NoAcks(out: seq<string>) {
    forall i :: 0 <= i < |out| ==> out[i] == "" || out[i][0] == '$'
  }

  /** Once no-acknowledgment mode has been accepted, it stays accepted and nothing sent starts with `+` or `-`. */
  lemma {:induction false} NoAckForever(req: string, st: State, arch: Arch)
    requires st.noAck.Some?
    ensures Drain(req, st, arch).st.noAck.Some? && NoAcks(Drain(req, st, arch).out)
    decreases |req|
  {
    PumpConsumes(req, st, arch);
    var p := Pump(req, st, arch);
    if p.event.Response? {
      NoAckForever(p.req, p.st, arch);
      DrainOnce(req, st, arch);
    }
  }

  /** Every response is empty, a request to send again, or a packet that reads back, acknowledged in ack mode. */
  lemma ResponseShape(req: string, st: State, arch: Arch, rest: string) returns (payload: string)
    requires Pump(req, st, arch).event.Response?
    ensures var b := Pump(req, st, arch).event.bytes;
            || b == ""
            || (b == "-" && st.noAck.None?)
            || (b == (if st.noAck.None? then "+" else "") + Reply(payload) && Unframe(Reply(payload) + rest) == Packet(payload, rest))
  {
    payload := "";
    if req[0] == '$' && Unframe(req).Packet? {
      var data := Unframe(req).data;
      PayloadPlain(data, st, arch);
      payload := Execute(data, st, arch).value.0;
      ReplyIsRead(payload, rest);
    }
  }

  /** The request starts with an intact packet with this content. */
  predicate Asks(req: string, data: string) {
    req != "" && req[0] == '$' && Unframe(req).Packet? && Unframe(req).data == data
  }

  /**
    The mode is left exactly by an intact `QStartNoAckMode` with no acknowledgment missing, and settled
    exactly by the next `+`; the other flag is set exactly by `QThreadSuffixSupported`.
   */
  lemma ModeChanges(req: string, st: State, arch: Arch)
    ensures Pump(req, st, arch).st.noAck ==
            if st.noAck != Some(false) && Asks(req, "QStartNoAckMode") then Some(false)
            else if st.noAck == Some(false) && req != "" && req[0] == '+' then Some(true)
            else st.noAck
    ensures Pump(req, st, arch).st.threadSuffix <==>
            st.threadSuffix || (st.noAck != Some(false) && Asks(req, "QThreadSuffixSupported"))
  {
    if req != "" && req[0] == '$' && Unframe(req).Packet? {
      CommandsAre(Unframe(req).data, st, arch);
    }
  }

  // ---- What the commands answer ----

  /** The sum of the bytes. */
  function Sum(data: string): nat {
    if data == [] then 0 else data[0] as int + Sum(data[1..])
  }

  lemma {:induction false} SumLast(data: string, c: char)
    ensures Sum(data + [c]) == Sum(data) + c as int
  {
    if data == [] {
      assert data + [c] == [c] && [c][1..] == [];
    } else {
      SumLast(data[1..], c);
      assert (data + [c])[1..] == data[1..] + [c];
    }
  }

  /** The checksum is the sum of all bytes modulo 256, whatever the order in which they are added. */
  lemma {:induction false} ChecksumIsSum(data: string)
    ensures Checksum(data) == Sum(data) % 256
  {
    if data != [] {
      var n := |data| - 1;
      ChecksumIsSum(data[..n]);
      SumLast(data[..n], data[n]);
      assert data[..n] + [data[n]] == data;
    }
  }

  /** What goes out for the answer to two of the commands. */
  lemma OkBytes()
    ensures Reply("OK") == "$OK#9a"
  {
    assert Checksum("O") == 79 by {
      assert "O"[..0] == "";
    }
    assert Checksum("OK") == 154 by {
      assert "OK"[..1] == "O";
    }
  }

  /** Parts with a semicolon between each two. */
  function JoinParts(parts: seq<string>): string
    requires parts != []
  {
    var n := |parts| - 1;
    if n == 0 then parts[0] else JoinParts(parts[..n]) + ";" + parts[n]
  }

  lemma {:induction false} SplitLast(s: string, t: string, all: string)
    requires ';' !in t && all == s + ";" + t
    ensures Split(all) == Split(s) + [t]
    decreases |s|
  {
    var i := Index(s, ';');
    IndexIs(all, ';', i);
    assert all[..i] == s[..i];
    if i == |s| {
      assert all[i + 1..] == t && s[..i] == s;
      IndexIs(t, ';', |t|);
    } else {
      var rest := s[i + 1..];
      assert all[i + 1..] == rest + ";" + t;
      SplitLast(rest, t, all[i + 1..]);
      PrependRegroup(s[..i], Split(rest), t);
    }
  }

  lemma PrependRegroup(a: string, b: seq<string>, c: string)
    ensures [a] + (b + [c]) == [a] + b + [c]
  {
  }

  /** Parts that hold no semicolon are read back from what they are joined to. */
  lemma {:induction false} SplitJoined(parts: seq<string>)
    requires parts != [] && forall i :: 0 <= i < |parts| ==> ';' !in parts[i]
    ensures Split(JoinParts(parts)) == parts
  {
    var n := |parts| - 1;
    if n == 0 {
      IndexIs(parts[0], ';', |parts[0]|);
    } else {
      SplitJoined(parts[..n]);
      SplitLast(JoinParts(parts[..n]), parts[n], JoinParts(parts));
      assert parts[..n] + [parts[n]] == parts;
    }
  }

  /** A feature the code handles. */
  predicate Known(feat: string) {
    || StartsWith(feat, "xmlRegisters=") || StartsWith(feat, "multiprocess") || StartsWith(feat, "fork-events")
    || StartsWith(feat, "vfork-events") || StartsWith(feat, "swbreak") || StartsWith(feat, "hwbreak")
  }

  /** What the reply says about a feature, if anything. */
  function Mention(feat: string, arch: Arch): seq<string> {
    if StartsWith(feat, "xmlRegisters=") then [if arch == X86_64 then "xmlRegisters=i386" else "xmlRegisters=arm"]
    else if feat == "swbreak+" then ["swbreak+"]
    else []
  }

  function Mentions(feats: seq<string>, arch: Arch): seq<string> {
    if feats == [] then [] else Mentions(feats[..|feats| - 1], arch) + Mention(feats[|feats| - 1], arch)
  }

  lemma FeatureKnown(feat: string, arch: Arch)
    ensures Feature(feat, arch).Some? <==> Known(feat)
  {
  }

  /** What a part adds to a reply in which the parts have semicolons between them. */
  function Added(last: seq<string>): string {
    if last == [] then "" else ";" + last[0]
  }

  lemma FeatureMentions(feat: string, arch: Arch)
    requires Known(feat)
    ensures Feature(feat, arch) == Some(Added(Mention(feat, arch)))
  {
    if StartsWith(feat, "xmlRegisters=") {
      assert ";xmlRegisters=" + "i386" == ";" + "xmlRegisters=i386";
      assert ";xmlRegisters=" + "arm" == ";" + "xmlRegisters=arm";
    } else if feat == "swbreak+" {
      SwbreakOnly(feat);
      assert ";" + "swbreak+" == ";swbreak+";
    }
  }

  lemma SwbreakOnly(feat: string)
    requires feat == "swbreak+"
    ensures StartsWith(feat, "swbreak") && !StartsWith(feat, "multiprocess")
    ensures !StartsWith(feat, "fork-events") && !StartsWith(feat, "vfork-events")
  {
  }

  lemma {:induction false} AnswersKnown(feats: seq<string>, arch: Arch, f: string -> Option<string>)
    requires f == (feat => Feature(feat, arch))
    ensures Answers(feats, f).Some? <==> forall i :: 0 <= i < |feats| ==> Known(feats[i])
  {
    if feats != [] {
      var n := |feats| - 1;
      AnswersKnown(feats[..n], arch, f);
      FeatureKnown(feats[n], arch);
      assert f(feats[n]).Some? <==> Known(feats[n]);
    }
  }

  lemma {:induction false} AnswersAre(head: string, feats: seq<string>, arch: Arch, f: string -> Option<string>)
    requires f == (feat => Feature(feat, arch)) && Answers(feats, f).Some?
    ensures head + Answers(feats, f).value == JoinParts([head] + Mentions(feats, arch))
  {
    if feats == [] {
      assert [head] + Mentions(feats, arch) == [head] && head + "" == head;
    } else {
      var n := |feats| - 1;
      var before, last := Answers(feats[..n], f).value, Mention(feats[n], arch);
      AnswersAre(head, feats[..n], arch, f);
      FeatureKnown(feats[n], arch);
      FeatureMentions(feats[n], arch);
      assert f(feats[n]) == Some(Added(last));
      JoinMention(head, before, Mentions(feats[..n], arch), last, [head] + (Mentions(feats[..n], arch) + last));
    }
  }

  lemma JoinMention(head: string, before: string, ms: seq<string>, last: seq<string>, all: seq<string>)
    requires head + before == JoinParts([head] + ms) && |last| <= 1 && all == [head] + (ms + last)
    ensures head + (before + Added(last)) == JoinParts(all)
  {
    if last == [] {
      assert all == [head] + ms && before + "" == before;
    } else {
      assert all[..|all| - 1] == [head] + ms && all[|all| - 1] == last[0];
      assert head + (before + (";" + last[0])) == head + before + ";" + last[0];
    }
  }

  lemma AnswersSplit(head: string, feats: seq<string>, arch: Arch, f: string -> Option<string>)
    requires f == (feat => Feature(feat, arch)) && ';' !in head && Answers(feats, f).Some?
    ensures Split(head + Answers(feats, f).value) == [head] + Mentions(feats, arch)
  {
    AnswersAre(head, feats, arch, f);
    MentionsPlain(feats, arch);
    SplitJoined([head] + Mentions(feats, arch));
  }

  /**
    `qSupported` with a list of features: answered exactly if all of them are known, with the fixed
    feature first and then, in the order of the request, those that the reply takes up.
   */
  lemma SupportedReplies(feats: seq<string>, arch: Arch, req: string)
    requires feats != [] && forall i :: 0 <= i < |feats| ==> ';' !in feats[i]
    requires req == ":" + JoinParts(feats)
    ensures Supported(req, arch).Some? <==> forall i :: 0 <= i < |feats| ==> Known(feats[i])
    ensures Supported(req, arch).Some? ==> Split(Supported(req, arch).value) == ["QStartNoAckMode+"] + Mentions(feats, arch)
  {
    var f := feat => Feature(feat, arch);
    assert req[1..] == JoinParts(feats) && req[..1] == ":";
    SplitJoined(feats);
    AnswersKnown(feats, arch, f);
    if Answers(feats, f).Some? {
      AnswersSplit("QStartNoAckMode+", feats, arch, f);
    }
  }

  lemma {:induction false} MentionsPlain(feats: seq<string>, arch: Arch)
    ensures forall i :: 0 <= i < |Mentions(feats, arch)| ==> ';' !in Mentions(feats, arch)[i]
  {
    if feats != [] {
      MentionsPlain(feats[..|feats| - 1], arch);
    }
  }

  /** The acknowledgment in front of a reply. */
  function Ack(st: State): string {
    if st.noAck.None? then "+" else ""
  }

  /** What the commands do, one by one; nothing else is handled. */
  lemma CommandsAre(data: string, st: State, arch: Arch)
    ensures data == "QStartNoAckMode" ==> Execute(data, st, arch) == Some(("OK", State(Some(false), st.threadSuffix)))
    ensures data == "QThreadSuffixSupported" ==> Execute(data, st, arch) == Some(("OK", State(st.noAck, true)))
    ensures StartsWith(data, "qSupported") ==>
              match Supported(data[10..], arch)
              case Some(payload) => Execute(data, st, arch) == Some((payload, st))
              case None => Execute(data, st, arch) == None
    ensures data != "QStartNoAckMode" && data != "QThreadSuffixSupported" && !StartsWith(data, "qSupported") ==>
              Execute(data, st, arch) == None
  {
    if StartsWith(data, "qSupported") {
      assert data[0] == 'q';
    }
  }

  /** Without a list of features the reply to `qSupported` is the fixed feature. */
  lemma SupportedAlone(req: string, arch: Arch)
    requires req == "" || req[0] != ':'
    ensures Supported(req, arch) == Some("QStartNoAckMode+")
  {
  }

  /** An intact packet is answered with what its command says, unless an acknowledgment is missing. */
  lemma PacketAnswered(req: string, data: string, rest: string, st: State, arch: Arch)
    requires req != "" && req[0] == '$' && Unframe(req) == Packet(data, rest)
    ensures Pump(req, st, arch) ==
            if st.noAck == Some(false) then Pumped(Failure(MissingAck), rest, st)
            else match Execute(data, st, arch)
                 case None => Pumped(Unhandled, rest, st)
                 case Some((payload, after)) => Pumped(Response(Ack(st) + Reply(payload)), rest, after)
  {
  }

  /** A damaged packet is dropped and changes nothing; it is asked for again only in ack mode. */
  lemma DamagedDropped(req: string, st: State, arch: Arch)
    requires req != "" && req[0] == '$' && (Unframe(req).BadHex? || Unframe(req).BadSum?)
    ensures var p := Pump(req, st, arch);
            && p.st == st && p.req == req[Index(req, '#') + 3..]
            && (st.noAck.None? <==> p.event == Response("-"))
            && (st.noAck == Some(false) ==> p.event == Failure(MissingAck))
            && (st.noAck == Some(true) ==> p.event.Failure? && p.event.error != MissingAck)
  {
  }

  lemma NoAckAsked(ask: string, more: string, st: State, arch: Arch)
    requires ask == Reply("QStartNoAckMode") && st.noAck != Some(false)
    ensures Pump(ask + more, st, arch) == Pumped(Response(Ack(st) + Reply("OK")), more, State(Some(false), st.threadSuffix))
  {
    assert '#' !in "QStartNoAckMode";
    ReplyIsRead("QStartNoAckMode", more);
    PacketAnswered(ask + more, "QStartNoAckMode", more, st, arch);
    CommandsAre("QStartNoAckMode", st, arch);
  }

  /** An acknowledgment is taken silently, settles the mode if it is being left, and is an error afterwards. */
  lemma AckTaken(b: string, st: State, arch: Arch)
    ensures Pump("+" + b, st, arch) ==
            match st.noAck
            case None => Pumped(Response(""), b, st)
            case Some(false) => Pumped(Response(""), b, State(Some(true), st.threadSuffix))
            case Some(true) => Pumped(Failure(UnexpectedAck), "+" + b, st)
  {
    assert ("+" + b)[1..] == b;
  }

  lemma DrainTwo(req: string, st: State, arch: Arch, p: Pumped, q: Pumped, e: Session)
    requires Pump(req, st, arch) == p && Pump(p.req, p.st, arch) == q && p.event.Response? && q.event.Response?
    requires e == Drain(q.req, q.st, arch)
    ensures Drain(req, st, arch) == e.(out := [p.event.bytes, q.event.bytes] + e.out)
  {
    DrainOnce(req, st, arch);
    DrainOnce(p.req, p.st, arch);
    assert [p.event.bytes] + ([q.event.bytes] + e.out) == [p.event.bytes, q.event.bytes] + e.out;
  }

  /**
    The handshake, at any point of any session where a packet is due: the request is answered with an
    acknowledgment only if acknowledgments were still in use, the next `+` is taken silently, and
    whatever follows is answered without any.
   */
  lemma Handshake(a: string, ask: string, b: string, st: State, arch: Arch, d: Session, e: Session)
    requires d == Drain(a, st, arch) && d.end == Open && d.req == "" && d.st.noAck != Some(false)
    requires ask == Reply("QStartNoAckMode") && e == Drain(b, State(Some(true), d.st.threadSuffix), arch)
    ensures Drain(a + (ask + ("+" + b)), st, arch) == e.(out := d.out + ([Ack(d.st) + Reply("OK"), ""] + e.out))
    ensures NoAcks(e.out) && e.st.noAck.Some?
  {
    var more := ask + ("+" + b);
    DrainSplits(a, more, st, arch);
    assert "" + more == more;
    NoAckAsked(ask, "+" + b, d.st, arch);
    AckTaken(b, State(Some(false), d.st.threadSuffix), arch);
    DrainTwo(more, d.st, arch, Pump(more, d.st, arch), Pump("+" + b, State(Some(false), d.st.threadSuffix), arch), e);
    NoAckForever(b, State(Some(true), d.st.threadSuffix), arch);
  }

  // ---- The session object ----

  method GetChecksum(data: string) returns (r: nat)
    ensures r == Checksum(data)
  {
    r := 0;
    for i := 0 to |data|
      invariant r == Checksum(data[..i])
    {
      assert data[..i + 1][..i] == data[..i];
      r := (r + data[i] as int) % 256;
    }
    assert data[..|data|] == data;
  }

  /** The loop over the features of `parse_supported`. */
  method Collect(feats: seq<string>, f: string -> Option<string>) returns (r: Option<string>)
    ensures r == Answers(feats, f)
  {
    var res := "";
    for i := 0 to |feats|
      invariant Answers(feats[..i], f) == Some(res)
    {
      assert feats[..i + 1][..i] == feats[..i];
      var answer := f(feats[i]);
      if answer.None? {
        NoAnswer(feats, i + 1, f);
        return None;
      }
      res := res + answer.value;
    }
    assert feats[..|feats|] == feats;
    return Some(res);
  }

  class GdbSession {
    var req: string
    var res: string
    var state: State
    const arch: Arch

    constructor (arch: Arch)
      ensures req == "" && res == "" && state == State(None, false) && this.arch == arch
    {
      req, res, state := "", "", State(None, false);
      this.arch := arch;
    }

    /** `dispatch_client` buffers what has been read. */
    method Dispatch(data: string)
      modifies this`req
      ensures req == old(req) + data
    {
      req := req + data;
    }

    /** `parse_supported`: appends to the response; false where a feature is not handled. */
    method ParseSupported(data: string) returns (ok: bool)
      modifies this`res
      ensures ok == Supported(data, arch).Some?
      ensures ok ==> res == old(res) + Supported(data, arch).value
    {
      res := res + "QStartNoAckMode+";
      if !StartsWith(data, ":") {
        return true;
      }
      var answers := Collect(Split(data[1..]), feat => Feature(feat, arch));
      if answers.None? {
        return false;
      }
      Regroup(old(res), "QStartNoAckMode+", answers.value);
      res := res + answers.value;
      return true;
    }

    /** The command part of `pump`: appends the payload and updates the state. */
    method Command(data: string) returns (ok: bool)
      modifies this`res, this`state
      ensures ok == Execute(data, old(state), arch).Some?
      ensures ok ==> res == old(res) + Execute(data, old(state), arch).value.0 && state == Execute(data, old(state), arch).value.1
      ensures !ok ==> state == old(state)
    {
      ok := true;
      if data == "QStartNoAckMode" {
        state := state.(noAck := Some(false));
        res := res + "OK";
      } else if StartsWith(data, "qSupported") {
        ok := ParseSupported(data[10..]);
      } else if data == "QThreadSuffixSupported" {
        state := state.(threadSuffix := true);
        res := res + "OK";
      } else {
        ok := false;
      }
    }

    /** `pump`: one step on the buffered input; the response buffer is drained into the result. */
    method Step() returns (e: Event)
      requires res == ""
      modifies this
      ensures Pumped(e, req, state) == Pump(old(req), old(state), arch)
      ensures !e.Unhandled? ==> res == ""
    {
      if req == "" {
        return NeedMore;
      }
      if req[0] == '+' {
        match state.noAck {
          case Some(true) => return Failure(UnexpectedAck);
          case Some(false) => state := state.(noAck := Some(true));
          case None =>
        }
        req := req[1..];
        return Response("");
      }
      if req[0] != '$' {
        return Failure(UnknownPacketPrefix(req[0]));
      }

      var i := Position(req, '#');
      if i + 3 > |req| {
        return NeedMore;
      }
      var cmd := req[..i + 3];
      req := req[i + 3..];
      var sum := Unhex(cmd[i + 1], cmd[i + 2]);
      if sum.None? {
        e := Rejected(DecodeChecksum(cmd[i + 1..]));
        return;
      }
      var data := cmd[1..i];
      var wanted := GetChecksum(data);
      assert data == old(req)[1..i] && cmd[i + 1..] == old(req)[i + 1..i + 3];
      if sum.value != wanted {
        e := Rejected(InvalidChecksum(sum.value, wanted));
        return;
      }
      e := Answer(data);
    }

    /** `dispatch_gdb`: buffers a chunk, then pumps and sends until nothing is left to do. */
    method Serve(data: string) returns (out: seq<string>, end: End)
      requires res == ""
      modifies this
      ensures var d := Drain(old(req) + data, old(state), arch);
              && out == Sent(d.out) && end == d.end && state == d.st
              && (end == Open ==> req == d.req && res == "")
    {
      Dispatch(data);
      ghost var all := Drain(req, state, arch);
      out, end := [], Open;
      while true
        invariant res == ""
        invariant var d := Drain(req, state, arch);
                  Sent(all.out) == out + Sent(d.out) && all == d.(out := all.out)
        decreases |req|
      {
        PumpConsumes(req, state, arch);
        var e := Step();
        match e {
          case NeedMore => return;
          case Failure(error) => return out, Failed(error);
          case Unhandled => return out, Stuck;
          case Response(bytes) =>
            SentNext(out, bytes, Drain(req, state, arch).out);
            if bytes != "" {
              out := out + [bytes];
            }
        }
      }
    }

    method Rejected(error: Error) returns (e: Event)
      ensures Pumped(e, req, state) == Reject(error, req, state)
    {
      match state.noAck
      case Some(true) => e := Failure(error);
      case Some(false) => e := Failure(MissingAck);
      case None => e := Response("-");
    }

    /** The reply to an intact packet. */
    method Answer(data: string) returns (e: Event)
      requires res == ""
      modifies this`res, this`state
      ensures var r := Execute(data, old(state), arch);
              if old(state).noAck == Some(false) then e == Failure(MissingAck) && state == old(state) && res == ""
              else if r.None? then e == Unhandled && state == old(state)
              else e == Response((if old(state).noAck.None? then "+" else "") + Reply(r.value.0)) && state == r.value.1 && res == ""
    {
      match state.noAck {
        case Some(false) => return Failure(MissingAck);
        case Some(true) =>
        case None => res := res + "+";
      }
      res := res + "$";
      var off := |res|;
      ghost var head := res;
      var ok := Command(data);
      if !ok {
        return Unhandled;
      }
      ghost var payload := Execute(data, old(state), arch).value.0;
      assert res[off..] == payload;
      var sum := GetChecksum(res[off..]);
      res := res + "#" + HexByte(sum);
      AckedReply(head, payload, old(state).noAck.None?);
      e := Response(res);
      res := "";
    }
  }

  lemma Regroup(a: string, b: string, c: string)
    ensures a + b + c == a + (b + c)
  {
  }

  lemma SentNext(out: seq<string>, bytes: string, more: seq<string>)
    ensures out + Sent([bytes] + more) == (if bytes == "" then out else out + [bytes]) + Sent(more)
  {
    assert ([bytes] + more)[1..] == more;
  }

  lemma AckedReply(head: string, payload: string, acked: bool)
    requires head == (if acked then "+$" else "$")
    ensures head + payload + "#" + HexByte(Checksum(payload)) == (if acked then "+" else "") + Reply(payload)
  {
  }

  lemma {:induction false} NoAnswer(feats: seq<string>, n: nat, f: string -> Option<string>)
    requires n <= |feats| && Answers(feats[..n], f).None?
    ensures Answers(feats, f).None?
    decreases |feats|
  {
    if n == |feats| {
      assert feats[..n] == feats;
    } else {
      assert feats[..|feats| - 1][..n] == feats[..n];
      NoAnswer(feats[..|feats| - 1], n, f);
    }
  }
}
