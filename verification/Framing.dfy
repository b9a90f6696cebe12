/** The length-prefixed messages of chap-16: the frames that
    tcp_explicit_length_client.c builds and what read_message of
    tcp_explicit_length_server.c makes of any prefix of them. */
module Framing {
  import opened Common

  const WORD: nat := 0x1_0000_0000
  const HEADER: nat := 8

  /** htonl: most significant byte first. */
  function Be32(n: nat): (b: Bytes)
    requires n < WORD
    ensures |b| == 4
  {
    [n / 0x100_0000, n / 0x1_0000 % 0x100, n / 0x100 % 0x100, n % 0x100]
  }

  /** ntohl */
  function FromBe32(b: Bytes): (n: nat)
    requires |b| == 4
    ensures n < WORD
  {
    var (b0: int, b1: int, b2: int, b3: int) := (b[0], b[1], b[2], b[3]);
    b0 * 0x100_0000 + b1 * 0x1_0000 + b2 * 0x100 + b3
  }

  /** Dividing by 256 twice and three times. */
  lemma ByteShifts(n: nat, q1: nat, q2: nat)
    requires q1 == n / 0x100 && q2 == q1 / 0x100
    ensures n / 0x1_0000 == q2 && n / 0x100_0000 == q2 / 0x100
  {
  }

  lemma Be32RoundTrip(n: nat)
    requires n < WORD
    ensures FromBe32(Be32(n)) == n
  {
    var q1 := n / 0x100;
    var q2 := q1 / 0x100;
    var q3 := q2 / 0x100;
    var (r0, r1, r2) := (n % 0x100, q1 % 0x100, q2 % 0x100);
    ByteShifts(n, q1, q2);
    assert Be32(n) == [q3, r2, r1, r0];
    assert n == q1 * 0x100 + r0 && q1 == q2 * 0x100 + r1 && q2 == q3 * 0x100 + r2;
    assert FromBe32([q3, r2, r1, r0]) == q3 * 0x100_0000 + r2 * 0x1_0000 + r1 * 0x100 + r0;
  }

  /** The number that four bytes stand for when the first counts most. */
  function Number(b0: int, b1: int, b2: int, b3: int): int {
    ((b0 * 0x100 + b1) * 0x100 + b2) * 0x100 + b3
  }

  /** Network order. */
  lemma MostSignificantFirst(n: nat)
    requires n < WORD
    ensures var b := Be32(n); Number(b[0], b[1], b[2], b[3]) == n
  {
    assert FromBe32(Be32(n)) == n by { Be32RoundTrip(n); }
    FromBytes(Be32(n));
  }

  /** And an example. */
  lemma OneTwoThreeFour()
    ensures Be32(0x0102_0304) == [1, 2, 3, 4]
  {
  }

  lemma FromBytes(b: Bytes)
    requires |b| == 4
    ensures FromBe32(b) == Number(b[0], b[1], b[2], b[3])
  {
    var (b0: int, b1: int, b2: int, b3: int) := (b[0], b[1], b[2], b[3]);
    assert FromBe32(b) == b0 * 0x100_0000 + b1 * 0x1_0000 + b2 * 0x100 + b3;
  }

  /** The four bytes of `type`, which the receiver reads and ignores. */
  type TypeField = t: Bytes | |t| == 4 witness [1, 0, 0, 0]

  function Frame(m: Bytes, t: TypeField): Bytes
    requires |m| < WORD
  {
    Be32(|m|) + t + m
  }

  predicate Encodable(msgs: seq<Bytes>) { forall m :: m in msgs ==> |m| < WORD }

  function EncodeAll(msgs: seq<Bytes>, t: TypeField): Bytes
    requires Encodable(msgs)
  {
    if msgs == [] then [] else Frame(msgs[0], t) + EncodeAll(msgs[1..], t)
  }

  /** What one call of read_message returns from a stream that ends with `data`,
      the payload it leaves in the buffer, and what stays unread. */
  datatype Parsed = Parsed(rc: int, payload: Bytes, rest: Bytes)

  function Parse(data: Bytes, limit: nat): Parsed {
    if |data| < HEADER then Parsed(0, [], [])
    else
      var n := FromBe32(data[..4]);
      if n > limit then Parsed(-1, [], data[HEADER..])
      else if |data| - HEADER < n then Parsed(0, [], [])
      else Parsed(n, data[HEADER..HEADER + n], data[HEADER + n..])
  }

  /** The server loop: messages until a call returns 0 or -1, and that code. */
  function DecodeAll(data: Bytes, limit: nat): (seq<Bytes>, int)
    decreases |data|
  {
    var p := Parse(data, limit);
    if p.rc <= 0 then ([], p.rc)
    else
      var (ms, rc) := DecodeAll(p.rest, limit);
      ([p.payload] + ms, rc)
  }

  /** The messages whose frames end at or before byte `cut`. */
  function Complete(msgs: seq<Bytes>, cut: nat): seq<Bytes> {
    if msgs == [] || cut < HEADER + |msgs[0]| then []
    else [msgs[0]] + Complete(msgs[1..], cut - HEADER - |msgs[0]|)
  }

  predicate Fits(m: Bytes, limit: nat) { 1 <= |m| <= limit }

  lemma ParseFrame(m: Bytes, t: TypeField, more: Bytes, limit: nat)
    requires |m| < WORD
    ensures Parse(Frame(m, t) + more, limit) ==
      if |m| > limit then Parsed(-1, [], m + more) else Parsed(|m|, m, more)
  {
    var d := Frame(m, t) + more;
    Be32RoundTrip(|m|);
    assert d[..4] == Be32(|m|);
    assert d[HEADER..] == m + more;
    if |m| <= limit {
      assert d[HEADER..HEADER + |m|] == m;
      assert d[HEADER + |m|..] == more;
    }
  }

  /** The frame on the wire: the length, most significant byte first, the type, the
      message. */
  lemma FrameOnWire(m: Bytes, t: TypeField)
    requires |m| < WORD
    ensures var f := Frame(m, t);
      && |f| == 8 + |m| && f[4..8] == t && f[8..] == m
      && Number(f[0], f[1], f[2], f[3]) == |m|
  {
    MostSignificantFirst(|m|);
  }

  /** What a call makes of any bytes on the wire: 0 for less than a header, -1 for a
      length over the limit, 0 for less than the payload, the payload otherwise; the
      four bytes of the type play no part. */
  lemma ParseOnWire(data: Bytes, limit: nat)
    ensures |data| < 8 ==> Parse(data, limit) == Parsed(0, [], [])
    ensures |data| >= 8 ==>
      var n := Number(data[0], data[1], data[2], data[3]);
      Parse(data, limit) ==
        if n > limit then Parsed(-1, [], data[8..])
        else if |data| < 8 + n then Parsed(0, [], [])
        else Parsed(n, data[8..8 + n], data[8 + n..])
  {
    if |data| >= 8 {
      FromBytes(data[..4]);
      assert forall i :: 0 <= i < 4 ==> data[..4][i] == data[i];
    }
  }

  /** A stream that is cut inside a frame yields no part of its message. */
  lemma ParseCut(m: Bytes, t: TypeField, data: Bytes, limit: nat)
    requires Fits(m, limit) && |m| < WORD && data <= Frame(m, t) && |data| < HEADER + |m|
    ensures Parse(data, limit) == Parsed(0, [], [])
  {
    if |data| >= HEADER {
      Be32RoundTrip(|m|);
      assert data[..4] == Frame(m, t)[..4] == Be32(|m|);
    }
  }

  lemma CutFirst(f: Bytes, tail: Bytes, cut: nat)
    requires cut <= |f| + |tail|
    ensures (f + tail)[..cut] == if cut < |f| then f[..cut] else f + tail[..cut - |f|]
  {
  }

  /** Cut anywhere, the stream decodes to exactly the messages that are complete
      before the cut, then to "closed": never to part of a message. */
  lemma {:induction false} CutRoundTrip(msgs: seq<Bytes>, t: TypeField, cut: nat, limit: nat)
    requires Encodable(msgs) && (forall m :: m in msgs ==> Fits(m, limit)) && cut <= |EncodeAll(msgs, t)|
    ensures DecodeAll(EncodeAll(msgs, t)[..cut], limit) == (Complete(msgs, cut), 0)
    decreases |msgs|
  {
    if msgs != [] {
      var m, f, tail := msgs[0], Frame(msgs[0], t), EncodeAll(msgs[1..], t);
      CutFirst(f, tail, cut);
      if cut < |f| {
        ParseCut(m, t, f[..cut], limit);
      } else {
        ParseFrame(m, t, tail[..cut - |f|], limit);
        CutRoundTrip(msgs[1..], t, cut - |f|, limit);
      }
    }
  }

  lemma {:induction false} CompleteAll(msgs: seq<Bytes>, t: TypeField)
    requires Encodable(msgs)
    ensures Complete(msgs, |EncodeAll(msgs, t)|) == msgs
  {
    if msgs != [] { CompleteAll(msgs[1..], t); }
  }

  /** The messages come back, followed by "closed", if and only if each of them has
      at least one byte and fits the receiver's buffer: an empty message reads as a
      closed connection, a long one as an error. */
  lemma {:induction false} RoundTripExact(msgs: seq<Bytes>, t: TypeField, limit: nat)
    requires Encodable(msgs)
    ensures DecodeAll(EncodeAll(msgs, t), limit) == (msgs, 0) <==> forall m :: m in msgs ==> Fits(m, limit)
    decreases |msgs|
  {
    var all := EncodeAll(msgs, t);
    if forall m :: m in msgs ==> Fits(m, limit) {
      CutRoundTrip(msgs, t, |all|, limit);
      CompleteAll(msgs, t);
      assert all[..|all|] == all;
    } else {
      ParseFrame(msgs[0], t, EncodeAll(msgs[1..], t), limit);
      if Fits(msgs[0], limit) {
        RoundTripExact(msgs[1..], t, limit);
        var (ms, rc) := DecodeAll(EncodeAll(msgs[1..], t), limit);
        assert ([msgs[0]] + ms)[1..] == ms;
      }
    }
  }

  // ---- the code ----

  /** What a read() does: hand over at most n bytes, or fail with EINTR or another
      error.  When the list of events is used up a read hands over all it can. */
  datatype ReadEvent = Give(n: nat) | Eintr | Fail

  /** A connected socket whose peer has sent `data` and closed. */
  class Socket {
    var data: Bytes
    var events: seq<ReadEvent>

    constructor (data: Bytes, events: seq<ReadEvent>)
      ensures this.data == data && this.events == events
    {
      this.data, this.events := data, events;
    }

    /** read(): -1 with or without EINTR, 0 at the end, or some bytes. */
    method Read(length: nat) returns (r: int, eintr: bool, got: Bytes)
      requires length > 0
      modifies this
      ensures events == if old(events) == [] then [] else old(events)[1..]
      ensures r == -1 || 0 <= r <= length
      ensures r == -1 ==> old(events) != [] && old(events)[0] == (if eintr then Eintr else Fail)
      ensures r == -1 ==> data == old(data) && got == []
      ensures r >= 0 ==> |got| == r && old(data) == got + data && (r == 0 ==> data == [])
    {
      eintr, got := false, [];
      var e := if events == [] then Give(length) else events[0];
      if events != [] { events := events[1..]; }
      match e {
        case Eintr => return -1, true, [];
        case Fail => return -1, false, [];
        case Give(n) =>
          var k := if n == 0 then 1 else n;
          k := if k > length then length else k;
          k := if k > |data| then |data| else k;
          r, got := k, data[..k];
          data := data[k..];
      }
    }
  }

  predicate Failing(events: seq<ReadEvent>) { Fail in events }

  function Min(a: nat, b: nat): nat { if a < b then a else b }

  /** Bytes that arrive behind the first `at` of a stream. */
  lemma Arrived(all: Bytes, at: nat, got: Bytes, rest: Bytes)
    requires at <= |all| && all[at..] == got + rest
    ensures at + |got| <= |all| && all[..at] + got == all[..at + |got|] && all[at + |got|..] == rest
  {
    assert all[..at + |got|] == all[..at] + all[at..][..|got|];
    assert all[at + |got|..] == all[at..][|got|..];
  }

  method Fill(buffer: array<Byte>, at: nat, got: Bytes)
    requires at + |got| <= buffer.Length
    modifies buffer
    ensures buffer[..at + |got|] == old(buffer[..at]) + got
  {
    forall i | 0 <= i < |got| { buffer[at + i] := got[i]; }
  }

  /** readn: retry on EINTR, stop at the end of the stream. */
  method Readn(s: Socket, buffer: array<Byte>, size: nat) returns (rc: int)
    requires size <= buffer.Length
    modifies s, buffer
    ensures Failing(s.events) ==> Failing(old(s.events))
    ensures rc == -1 ==> Failing(old(s.events))
    ensures rc != -1 ==>
      && rc == Min(size, |old(s.data)|)
      && buffer[..rc] == old(s.data)[..rc] && s.data == old(s.data)[rc..]
  {
    var length := size;
    ghost var all := s.data;
    while length > 0
      invariant 0 <= length <= size && size - length <= |all|
      invariant buffer[..size - length] == all[..size - length] && s.data == all[size - length..]
      invariant Failing(s.events) ==> Failing(old(s.events))
      decreases length, |s.events|
    {
      var result, eintr, got := s.Read(length);
      if result < 0 {
        if eintr { continue; }
        return -1;
      } else if result == 0 {
        break;
      }
      Arrived(all, size - length, got, s.data);
      Fill(buffer, size - length, got);
      length := length - result;
    }
    rc := size - length;
  }

  /** One call got what the front of the stream parses to. */
  predicate Delivered(rc: int, got: Bytes, rest: Bytes, p: Parsed) {
    rc == p.rc && (rc > 0 ==> got == p.payload && rest == p.rest)
  }

  lemma HeaderAndPayload(all: Bytes, n: nat)
    requires |all| >= HEADER + n
    ensures all[4..][..4] == all[4..HEADER] && all[4..][4..] == all[HEADER..]
    ensures all[HEADER..][..n] == all[HEADER..HEADER + n] && all[HEADER..][n..] == all[HEADER + n..]
  {
  }

  /** read_message: header, limit, payload; 0 when the peer closed, -1 for a message
      that is too long or a read that fails. */
  method ReadMessage(s: Socket, buffer: array<Byte>) returns (rc: int)
    requires buffer.Length < WORD
    modifies s, buffer
    ensures Failing(s.events) ==> Failing(old(s.events))
    ensures -1 <= rc <= buffer.Length
    ensures Delivered(rc, if rc > 0 then buffer[..rc] else [], s.data, Parse(old(s.data), buffer.Length))
      || (rc == -1 && Failing(old(s.events)))
  {
    ghost var all := s.data;
    var word := new Byte[4](_ => 0);
    rc := Readn(s, word, 4);
    if rc != 4 { return if rc < 0 then -1 else 0; }
    assert word[..] == all[..4];
    var msgLength := FromBe32(word[..]);
    rc := Readn(s, word, 4);
    if rc != 4 { return if rc < 0 then -1 else 0; }
    HeaderAndPayload(all, 0);
    if msgLength > buffer.Length { return -1; }
    rc := Readn(s, buffer, msgLength);
    if rc != msgLength { return if rc < 0 then -1 else 0; }
    HeaderAndPayload(all, msgLength);
  }

  /** The outcome of a connection: the whole decoding, or, when a read fails, the
      messages in front of it and -1. */
  predicate Outcome(msgs: seq<Bytes>, rc: int, whole: (seq<Bytes>, int), failing: bool) {
    (msgs, rc) == whole || (failing && rc == -1 && msgs <= whole.0)
  }

  lemma OneMoreMessage(msgs: seq<Bytes>, data: Bytes, limit: nat)
    ensures var p := Parse(data, limit);
      msgs + DecodeAll(data, limit).0 == if p.rc <= 0 then msgs else msgs + [p.payload] + DecodeAll(p.rest, limit).0
  {
    var p := Parse(data, limit);
    if p.rc <= 0 {
      AppendNone(msgs);
    } else {
      AppendAssoc(msgs, [p.payload], DecodeAll(p.rest, limit).0);
    }
  }

  /** The loop of the server's main over one connection.  The amount of data bounds
      the number of messages. */
  method Serve(s: Socket, limit: nat) returns (msgs: seq<Bytes>, rc: int)
    requires limit < WORD
    modifies s
    ensures Outcome(msgs, rc, DecodeAll(old(s.data), limit), Failing(old(s.events)))
  {
    var buf := new Byte[limit](_ => 0);
    msgs := [];
    ghost var goal := DecodeAll(s.data, limit);
    AppendNone(goal.0);
    while true
      invariant Failing(s.events) ==> Failing(old(s.events))
      invariant var d := DecodeAll(s.data, limit); goal == (msgs + d.0, d.1)
      decreases |s.data|
    {
      OneMoreMessage(msgs, s.data, limit);
      rc := ReadMessage(s, buf);
      if rc <= 0 { return; }
      msgs := msgs + [buf[..rc]];
    }
  }

  /** The client loop: every line becomes one frame. */
  method SendAll(lines: seq<Bytes>, t: TypeField) returns (stream: Bytes)
    requires Encodable(lines)
    ensures stream == EncodeAll(lines, t)
  {
    stream := [];
    assert lines[0..] == lines;
    AppendNone(EncodeAll(lines, t));
    for i := 0 to |lines|
      invariant stream + EncodeAll(lines[i..], t) == EncodeAll(lines, t)
    {
      assert lines[i..][1..] == lines[i + 1..];
      ghost var f, more := Frame(lines[i], t), EncodeAll(lines[i + 1..], t);
      AppendAssoc(stream, f, more);
      stream := stream + Frame(lines[i], t);
    }
    AppendNone(stream);
  }

  /** Client and server together: any list of messages of 1 to `limit` bytes, any
      cut of the stream, any chunking of the reads, any interruptions and failures. */
  method Conversation(lines: seq<Bytes>, t: TypeField, cut: nat, events: seq<ReadEvent>, limit: nat)
    returns (msgs: seq<Bytes>, rc: int)
    requires limit < WORD && forall m :: m in lines ==> Fits(m, limit)
    ensures Encodable(lines)
    ensures var whole := if cut < |EncodeAll(lines, t)| then Complete(lines, cut) else lines;
      Outcome(msgs, rc, (whole, 0), Failing(events))
  {
    assert Encodable(lines) by { forall m | m in lines ensures |m| < WORD { assert Fits(m, limit); } }
    var stream := SendAll(lines, t);
    var k := if cut < |stream| then cut else |stream|;
    var s := new Socket(stream[..k], events);
    CutRoundTrip(lines, t, k, limit);
    CompleteAll(lines, t);
    msgs, rc := Serve(s, limit);
  }
}
