/** One connection of chap-22/nonblocking_io_select_server.c: a 4096-byte buffer
    that is filled by on_socket_readable and drained by on_socket_writable, under
    any chunking of recv, any partial sends and any EAGAIN. */
module EchoBuffer {
  import opened Common

  const MAX_LINE: nat := 4096
  const NEWLINE: Byte := 10

  /** rot13_char, on character codes. */
  function Rot13(c: Byte): (r: Byte)
    ensures r == NEWLINE <==> c == NEWLINE
    ensures 97 <= c <= 122 ==> r == 97 + (c - 97 + 13) % 26
    ensures 65 <= c <= 90 ==> r == 65 + (c - 65 + 13) % 26
    ensures !(97 <= c <= 122) && !(65 <= c <= 90) ==> r == c
  {
    if 97 <= c <= 109 || 65 <= c <= 77 then c + 13
    else if 110 <= c <= 122 || 78 <= c <= 90 then c - 13
    else c
  }

  function Rot13s(s: seq<Byte>): (r: seq<Byte>)
    ensures |r| == |s|
  {
    seq(|s|, i requires 0 <= i < |s| => Rot13(s[i]))
  }

  /** struct buffer: `data` is buf up to write_idx. */
  datatype Buf = Buf(data: seq<Byte>, readIdx: nat, readable: bool)

  const FRESH := Buf([], 0, false)

  // ---- the handlers on values ----

  /** One byte of the inner loop of on_socket_readable. */
  function Put(b: Buf, c: Byte): Buf {
    Buf(if |b.data| < MAX_LINE then b.data + [Rot13(c)] else b.data, b.readIdx, b.readable || c == NEWLINE)
  }

  function Receive(b: Buf, bytes: seq<Byte>): Buf {
    if bytes == [] then b else Put(Receive(b, bytes[..|bytes| - 1]), bytes[|bytes| - 1])
  }

  /** send() of len bytes takes at least one of them. */
  function Accepted(n: nat, len: nat): (k: nat)
    requires len > 0
    ensures 1 <= k <= len
  {
    if n == 0 then 1 else if n > len then len else n
  }

  /** Bytes taken from `len` pending ones by sends that accept sends[0], sends[1]
      and so on; behind the last of them the socket is full or fails. */
  function Taken(sends: seq<nat>, len: nat): (k: nat)
    ensures k <= len
    decreases |sends|
  {
    if sends == [] || len == 0 then 0
    else var k := Accepted(sends[0], len); k + Taken(sends[1..], len - k)
  }

  function Pending(b: Buf): seq<Byte>
    requires b.readIdx <= |b.data|
  {
    b.data[b.readIdx..]
  }

  lemma TakenStep(sends: seq<nat>, j: nat, len: nat)
    requires j < |sends| && len > 0
    ensures var k := Accepted(sends[j], len); Taken(sends[j..], len) == k + Taken(sends[j + 1..], len - k)
  {
    assert sends[j..][1..] == sends[j + 1..];
  }

  /** on_socket_writable: what is left. */
  function Write(b: Buf, sends: seq<nat>): Buf
    requires b.readIdx <= |b.data|
  {
    var k := Taken(sends, |b.data| - b.readIdx);
    if b.readIdx + k == |b.data| then FRESH else b.(readIdx := b.readIdx + k)
  }

  // ---- a connection with its history ----

  /** Epochs are what arrived between complete flushes, the current one last. */
  datatype Link = Link(b: Buf, epochs: seq<seq<Byte>>, sent: seq<Byte>)

  datatype Event = Readable(chunks: seq<seq<Byte>>) | Writable(sends: seq<nat>)

  predicate WellFormed(l: Link) { |l.epochs| > 0 && l.b.readIdx <= |l.b.data| }

  function Current(l: Link): seq<Byte>
    requires WellFormed(l)
  {
    l.epochs[|l.epochs| - 1]
  }

  function Step(l: Link, e: Event): Link
    requires WellFormed(l)
  {
    match e
    case Readable(chunks) =>
      Link(Receive(l.b, Concat(chunks)), l.epochs[|l.epochs| - 1 := Current(l) + Concat(chunks)], l.sent)
    case Writable(sends) =>
      var k := Taken(sends, |l.b.data| - l.b.readIdx);
      Link(Write(l.b, sends),
           if l.b.readIdx + k == |l.b.data| then l.epochs + [[]] else l.epochs,
           l.sent + Pending(l.b)[..k])
  }

  function First(s: seq<Byte>): (r: seq<Byte>)
  {
    if |s| <= MAX_LINE then s else s[..MAX_LINE]
  }

  /** The stream that reaches the client in the end: of every epoch the first 4096
      bytes, translated. */
  function Kept(epochs: seq<seq<Byte>>): seq<Byte> {
    if epochs == [] then [] else Kept(epochs[..|epochs| - 1]) + Rot13s(First(epochs[|epochs| - 1]))
  }

  predicate Inv(l: Link) {
    && WellFormed(l)
    && l.b.data == Rot13s(First(Current(l)))
    && (l.b.readIdx < |l.b.data| || l.b.data == [])
    && (l.b.readable <==> NEWLINE in Current(l))
    && l.sent == Kept(l.epochs[..|l.epochs| - 1]) + l.b.data[..l.b.readIdx]
  }

  lemma {:induction false} ReceiveAdds(b: Buf, old_: seq<Byte>, bytes: seq<Byte>)
    requires b.data == Rot13s(First(old_)) && (b.readable <==> NEWLINE in old_)
    ensures var r := Receive(b, bytes);
      && r.data == Rot13s(First(old_ + bytes)) && r.readIdx == b.readIdx
      && (r.readable <==> NEWLINE in old_ + bytes)
    decreases |bytes|
  {
    if bytes == [] {
      assert old_ + bytes == old_;
    } else {
      var front, c := bytes[..|bytes| - 1], bytes[|bytes| - 1];
      ReceiveAdds(b, old_, front);
      var s := old_ + front;
      assert old_ + bytes == s + [c];
      if |s| < MAX_LINE {
        assert Rot13s(First(s + [c])) == Rot13s(s) + [Rot13(c)];
      } else {
        assert First(s + [c]) == First(s);
      }
    }
  }

  lemma ReadableInv(l: Link, chunks: seq<seq<Byte>>)
    requires Inv(l)
    ensures Inv(Step(l, Readable(chunks)))
  {
    var n, r := |l.epochs| - 1, Step(l, Readable(chunks));
    assert r.epochs[..n] == l.epochs[..n];
    ReceiveAdds(l.b, Current(l), Concat(chunks));
    assert r.b.data[..l.b.readIdx] == l.b.data[..l.b.readIdx] by { FirstGrows(Current(l), Concat(chunks)); }
  }

  lemma FirstGrows(s: seq<Byte>, t: seq<Byte>)
    ensures Rot13s(First(s)) <= Rot13s(First(s + t))
  {
  }

  lemma FlushedInv(epochs: seq<seq<Byte>>, sent: seq<Byte>)
    requires sent == Kept(epochs)
    ensures Inv(Link(FRESH, epochs + [[]], sent))
  {
    var r := Link(FRESH, epochs + [[]], sent);
    assert r.epochs[..|epochs|] == epochs && Current(r) == [];
    assert FRESH.data[..0] == [];
  }

  /** What is sent grows by the front of what waits. */
  lemma SentGrows(front: seq<Byte>, d: seq<Byte>, i: nat, k: nat)
    requires i + k <= |d|
    ensures front + d[..i] + d[i..][..k] == front + d[..i + k]
  {
    assert d[..i] + d[i..][..k] == d[..i + k];
    AppendAssoc(front, d[..i], d[i..][..k]);
  }

  lemma WritableInv(l: Link, sends: seq<nat>)
    requires Inv(l)
    ensures Inv(Step(l, Writable(sends)))
  {
    var front, d, i := Kept(l.epochs[..|l.epochs| - 1]), l.b.data, l.b.readIdx;
    var k := Taken(sends, |d| - i);
    var sent := l.sent + Pending(l.b)[..k];
    assert sent == front + d[..i + k] by { SentGrows(front, d, i, k); }
    if i + k == |d| {
      assert sent == Kept(l.epochs) by { assert d[..i + k] == d; }
      FlushedInv(l.epochs, sent);
    } else {
      assert Step(l, Writable(sends)) == Link(l.b.(readIdx := i + k), l.epochs, sent);
    }
  }

  lemma StepInv(l: Link, e: Event)
    requires Inv(l)
    ensures Inv(Step(l, e))
  {
    match e
    case Readable(chunks) => ReadableInv(l, chunks);
    case Writable(sends) => WritableInv(l, sends);
  }

  function Run(l: Link, events: seq<Event>): Link
    requires Inv(l)
    decreases |events|
  {
    if events == [] then l else StepInv(l, events[0]); Run(Step(l, events[0]), events[1..])
  }

  lemma {:induction false} RunInv(l: Link, events: seq<Event>)
    requires Inv(l)
    ensures Inv(Run(l, events))
    decreases |events|
  {
    if events != [] {
      StepInv(l, events[0]);
      RunInv(Step(l, events[0]), events[1..]);
    }
  }

  const OPENED := Link(FRESH, [[]], [])

  lemma NothingKept()
    ensures Kept([[]]) == []
  {
    var none: seq<seq<Byte>> := [[]];
    assert none[..0] == [] && Kept(none) == Kept(none[..0]) + Rot13s(First(none[0]));
  }

  /** The bytes that arrive in an event, and over a run of events. */
  function Got(e: Event): seq<Byte> { if e.Readable? then Concat(e.chunks) else [] }

  function Received(events: seq<Event>): seq<Byte> {
    if events == [] then [] else Got(events[0]) + Received(events[1..])
  }

  lemma StepReceives(l: Link, e: Event)
    requires WellFormed(l)
    ensures Concat(Step(l, e).epochs) == Concat(l.epochs) + Got(e)
  {
    var n, r := |l.epochs| - 1, Step(l, e);
    if e.Readable? {
      assert r.epochs[..n] == l.epochs[..n];
      AppendAssoc(Concat(l.epochs[..n]), Current(l), Got(e));
    } else {
      assert (l.epochs + [[]])[..n + 1] == l.epochs;
      AppendNone(Concat(l.epochs));
    }
  }

  /** The epochs are the bytes received, cut at the complete flushes. */
  lemma {:induction false} RunReceives(l: Link, events: seq<Event>)
    requires Inv(l)
    ensures Concat(Run(l, events).epochs) == Concat(l.epochs) + Received(events)
    decreases |events|
  {
    if events == [] {
      AppendNone(Concat(l.epochs));
    } else {
      StepInv(l, events[0]);
      StepReceives(l, events[0]);
      RunReceives(Step(l, events[0]), events[1..]);
      AppendAssoc(Concat(l.epochs), Got(events[0]), Received(events[1..]));
    }
  }

  lemma SentAndPending(l: Link)
    requires Inv(l)
    ensures l.b.readIdx <= |l.b.data| <= MAX_LINE && l.sent + Pending(l.b) == Kept(l.epochs)
  {
    var front, d, i := Kept(l.epochs[..|l.epochs| - 1]), l.b.data, l.b.readIdx;
    SplitAt(d, i);
    AppendAssoc(front, d[..i], d[i..]);
  }

  /** Whatever is sent together with what still waits in the buffer is the
      translation of what was received, without exactly those bytes that came when
      4096 had arrived since the last complete flush. */
  lemma StreamConserved(events: seq<Event>)
    ensures Inv(OPENED)
    ensures var l := Run(OPENED, events);
      && l.b.readIdx <= |l.b.data| <= MAX_LINE
      && l.sent + Pending(l.b) == Kept(l.epochs)
      && Concat(l.epochs) == Received(events)
  {
    NothingKept();
    RunInv(OPENED, events);
    SentAndPending(Run(OPENED, events));
    RunReceives(OPENED, events);
    var none: seq<seq<Byte>> := [[]];
    assert none[..0] == [] && Concat(none) == Concat(none[..0]) + none[0] == [];
    assert [] + Received(events) == Received(events);
  }

  // ---- lines 174-177: a slot is closed and used again ----

  /** The next connection on a slot, which keeps the buffer of the last one. */
  function Reopened(b: Buf): Link { Link(b, [[]], []) }

  function Plain(l: Link, events: seq<Event>): Link
    requires WellFormed(l)
    ensures WellFormed(Plain(l, events))
    decreases |events|
  {
    if events == [] then l
    else
      match events[0]
      case Readable(chunks) => ReceiveKeeps(l.b, Concat(chunks)); Plain(Step(l, events[0]), events[1..])
      case Writable(_) => Plain(Step(l, events[0]), events[1..])
  }

  lemma {:induction false} ReceiveKeeps(b: Buf, bytes: seq<Byte>)
    ensures b.data <= Receive(b, bytes).data && Receive(b, bytes).readIdx == b.readIdx
    decreases |bytes|
  {
    if bytes != [] { ReceiveKeeps(b, bytes[..|bytes| - 1]); }
  }

  lemma {:induction false} PlainIsRun(l: Link, events: seq<Event>)
    requires Inv(l)
    ensures Plain(l, events) == Run(l, events)
    decreases |events|
  {
    if events != [] {
      StepInv(l, events[0]);
      PlainIsRun(Step(l, events[0]), events[1..]);
    }
  }

  /** What main asks of its slots: a waiting line is flagged, and the flag means that
      something waits. */
  predicate Sane(b: Buf) {
    && b.readIdx <= |b.data| <= MAX_LINE && (b.readIdx < |b.data| || b.data == [])
    && (NEWLINE in Pending(b) ==> b.readable) && (b.readable ==> b.readIdx < |b.data|)
  }

  lemma {:induction false} ReceiveSane(b: Buf, bytes: seq<Byte>)
    requires Sane(b)
    ensures Sane(Receive(b, bytes))
    decreases |bytes|
  {
    if bytes != [] {
      var r, c := Receive(b, bytes[..|bytes| - 1]), bytes[|bytes| - 1];
      ReceiveSane(b, bytes[..|bytes| - 1]);
      if |r.data| < MAX_LINE {
        assert (r.data + [Rot13(c)])[r.readIdx..] == Pending(r) + [Rot13(c)];
      }
    }
  }

  lemma WriteSane(b: Buf, sends: seq<nat>)
    requires Sane(b)
    ensures Sane(Write(b, sends))
  {
    var k := Taken(sends, |b.data| - b.readIdx);
    assert b.data[b.readIdx + k..] == Pending(b)[k..];
  }

  lemma {:induction false} PlainSane(l: Link, events: seq<Event>)
    requires WellFormed(l) && Sane(l.b)
    ensures Sane(Plain(l, events).b)
    decreases |events|
  {
    if events != [] {
      match events[0] {
        case Readable(chunks) => ReceiveSane(l.b, Concat(chunks));
        case Writable(sends) => WriteSane(l.b, sends);
      }
      PlainSane(Step(l, events[0]), events[1..]);
    }
  }

  /** One slot over all the connections that use it, one after the other. */
  function Reused(b: Buf, conns: seq<seq<Event>>): Buf
    requires b.readIdx <= |b.data|
    decreases |conns|
  {
    if conns == [] then b else Reused(Plain(Reopened(b), conns[0]).b, conns[1..])
  }

  lemma {:induction false} ReusedSane(b: Buf, conns: seq<seq<Event>>)
    requires Sane(b)
    ensures Sane(Reused(b, conns))
    decreases |conns|
  {
    if conns != [] {
      PlainSane(Reopened(b), conns[0]);
      ReusedSane(Plain(Reopened(b), conns[0]).b, conns[1..]);
    }
  }

  /** Between handler calls an unsent line keeps `readable` set, so that main
      registers the descriptor for writing; and `readable` means there is something
      to write: on every slot, however often it has been closed and used again. */
  lemma NoLineStranded(conns: seq<seq<Event>>)
    ensures var b := Reused(FRESH, conns);
      && b.readIdx <= |b.data|
      && (NEWLINE in Pending(b) ==> b.readable)
      && (b.readable ==> b.readIdx < |b.data|)
  {
    ReusedSane(FRESH, conns);
  }

  /** main calls on_socket_writable only while `readable` is set. */
  predicate Scheduled(l: Link, events: seq<Event>)
    requires WellFormed(l)
    decreases |events|
  {
    events == [] ||
    (&& (events[0].Writable? ==> l.b.readable)
     && WellFormed(Step(l, events[0])) && Scheduled(Step(l, events[0]), events[1..]))
  }

  /** What is sent on the next connection belongs to its own stream. */
  predicate EchoesAfter(b: Buf, events: seq<Event>)
    requires b.readIdx <= |b.data|
  {
    var l := Plain(Reopened(b), events);
    l.sent <= Kept(l.epochs)
  }

  predicate Possible(b: Buf, events: seq<Event>)
    requires b.readIdx <= |b.data|
  {
    Scheduled(Reopened(b), events)
  }

  lemma CleanEchoes(events: seq<Event>)
    ensures EchoesAfter(FRESH, events)
  {
    StreamConserved(events);
    PlainIsRun(OPENED, events);
    assert Reopened(FRESH) == OPENED;
  }

  /** A short line whose first byte is not what waits in front. */
  function Probe(b: Buf): seq<Byte>
  {
    if b.readIdx < |b.data| && b.data[b.readIdx] == Rot13(97) then [98, NEWLINE] else [97, NEWLINE]
  }

  function ProbeRun(b: Buf): seq<Event>
    requires b.readIdx <= |b.data|
  {
    [Readable([Probe(b)]), Writable([MAX_LINE])]
  }

  lemma OneChunk(s: seq<Byte>)
    ensures Concat([s]) == s
  {
    var one: seq<seq<Byte>> := [s];
    assert one[..0] == [] && [] + s == s;
  }

  /** A line is received and everything that waits is sent. */
  lemma ProbeSends(b: Buf)
    requires Sane(b) && Pending(b) != []
    ensures Possible(b, ProbeRun(b))
    ensures var l := Plain(Reopened(b), ProbeRun(b));
      && |l.sent| >= |Pending(b)| && l.sent[0] == b.data[b.readIdx]
      && l.epochs == [Probe(b), []]
  {
    var l, e0, e1 := Reopened(b), Readable([Probe(b)]), Writable([MAX_LINE]);
    var p := Probe(b);
    OneChunk(p);
    ReceiveKeeps(b, p);
    ReceiveSane(b, p);
    assert p == [p[0]] + [NEWLINE] && p[..1] == [p[0]];
    assert Receive(b, p) == Put(Receive(b, p[..1]), NEWLINE);
    var l1 := Step(l, e0);
    assert l1.b == Receive(b, p) && l1.epochs == [p] by { assert [] + p == p; }
    var n := |l1.b.data| - l1.b.readIdx;
    assert Taken([MAX_LINE], n) == n;
    var l2 := Step(l1, e1);
    assert l2.epochs == [p, []] && l2.sent == Pending(l1.b) by { assert [] + Pending(l1.b)[..n] == Pending(l1.b); }
    assert ProbeRun(b)[1..] == [e1] && [e1][1..] == [];
    assert Plain(l, ProbeRun(b)) == Plain(l1, [e1]) == l2;
  }

  lemma TwoEpochs(p: seq<Byte>)
    requires 0 < |p| <= MAX_LINE
    ensures Kept([p, []]) == Rot13s(p)
  {
    var none: seq<Byte> := [];
    var one: seq<seq<Byte>> := [p];
    var two := [p, none];
    assert two[..1] == one && one[..0] == [];
    assert Rot13s(First(none)) == [] && Kept(one) == [] + Rot13s(p) == Rot13s(p);
    assert Kept(two) == Kept(one) + [];
  }

  lemma SaneClean(b: Buf)
    requires Sane(b) && Pending(b) == []
    ensures b == FRESH
  {
  }

  /** A slot sends its next connection nothing but that connection's own stream, under
      every schedule of main, if and only if nothing was pending when it was closed. */
  lemma ReuseOf(b: Buf)
    requires Sane(b)
    ensures (forall events :: Possible(b, events) ==> EchoesAfter(b, events)) <==> Pending(b) == []
  {
    if Pending(b) == [] {
      SaneClean(b);
      forall events ensures EchoesAfter(b, events) { CleanEchoes(events); }
    } else {
      ProbeSends(b);
      TwoEpochs(Probe(b));
      assert Rot13s(Probe(b))[0] == Rot13(Probe(b)[0]) != b.data[b.readIdx];
      assert !EchoesAfter(b, ProbeRun(b));
    }
  }

  /** That holds of every slot, however often it has been used before. */
  lemma ReuseExact(conns: seq<seq<Event>>)
    ensures var b := Reused(FRESH, conns);
      && b.readIdx <= |b.data|
      && ((forall events :: Possible(b, events) ==> EchoesAfter(b, events)) <==> Pending(b) == [])
  {
    ReusedSane(FRESH, conns);
    ReuseOf(Reused(FRESH, conns));
  }

  /** Otherwise the first write on the new connection sends what was left over. */
  lemma LeftoverSent(conns: seq<seq<Event>>)
    ensures var b := Reused(FRESH, conns);
      && b.readIdx <= |b.data|
      && (Pending(b) != [] ==> Plain(Reopened(b), [Writable([MAX_LINE])]).sent == Pending(b))
  {
    var b, e := Reused(FRESH, conns), Writable([MAX_LINE]);
    ReusedSane(FRESH, conns);
    var n := |b.data| - b.readIdx;
    if n > 0 {
      assert Taken([MAX_LINE], n) == n;
      assert Plain(Reopened(b), [e]) == Step(Reopened(b), e);
    }
  }
}
