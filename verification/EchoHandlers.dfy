/** struct buffer of chap-22/nonblocking_io_select_server.c in place, and the two
    handlers that main calls on it.  What recv and send do is a parameter. */
module EchoHandlers {
  import opened Common
  import opened EchoBuffer

  /** What ends the recv loop. */
  datatype RecvEnd = Eof | Again | Failed

  class Buffer {
    var fd: int
    const buf: array<Byte>
    var readIdx: nat
    var writeIdx: nat
    var readable: bool

    ghost predicate Valid()
      reads this
    {
      buf.Length == MAX_LINE && readIdx <= writeIdx <= MAX_LINE
    }

    ghost function View(): Buf
      requires Valid()
      reads this, buf
    {
      Buf(buf[..writeIdx], readIdx, readable)
    }

    /** alloc_buffer */
    constructor ()
      ensures Valid() && fresh(buf) && fd == 0 && View() == FRESH
    {
      fd, readIdx, writeIdx, readable := 0, 0, 0, false;
      buf := new Byte[MAX_LINE](_ => 0);
    }

    /** Lines 55-60: one chunk from recv. */
    method TakeChunk(chunk: seq<Byte>)
      requires Valid()
      modifies this`writeIdx, this`readable, buf
      ensures Valid() && View() == Receive(old(View()), chunk)
    {
      ghost var b := View();
      for i := 0 to |chunk|
        invariant Valid() && View() == Receive(b, chunk[..i])
      {
        var c := chunk[i];
        assert chunk[..i + 1][..i] == chunk[..i];
        ghost var before := buf[..writeIdx];
        if writeIdx < buf.Length {
          buf[writeIdx] := Rot13(c);
          writeIdx := writeIdx + 1;
          assert buf[..writeIdx] == before + [Rot13(c)];
        }
        if c == NEWLINE { readable := true; }
      }
      assert chunk[..|chunk|] == chunk;
    }

    /** on_socket_readable: recv hands over the chunks, each as large as its buffer
        allows, and then reports `end`. */
    method OnReadable(chunks: seq<seq<Byte>>, end: RecvEnd) returns (err: int)
      requires Valid() && forall c :: c in chunks ==> 1 <= |c| <= MAX_LINE
      modifies this`writeIdx, this`readable, buf
      ensures Valid() && View() == Receive(old(View()), Concat(chunks))
      ensures err == match end case Eof => 1 case Again => 0 case Failed => -1
    {
      ghost var b := View();
      for i := 0 to |chunks|
        invariant Valid() && View() == Receive(b, Concat(chunks[..i]))
      {
        assert chunks[..i + 1][..i] == chunks[..i];
        ReceiveConcat(b, Concat(chunks[..i]), chunks[i]);
        TakeChunk(chunks[i]);
      }
      assert chunks[..|chunks|] == chunks;
      err := match end case Eof => 1 case Again => 0 case Failed => -1;
    }

    /** Lines 73-78: send until everything is out or send reports an error. */
    method Drain(sends: seq<nat>) returns (out: seq<Byte>)
      requires Valid()
      modifies this`readIdx
      ensures var k := Taken(sends, writeIdx - old(readIdx));
        readIdx == old(readIdx) + k <= writeIdx && out == Pending(old(View()))[..k]
    {
      ghost var d, i0 := buf[..writeIdx], readIdx;
      ghost var total := Taken(sends, writeIdx - readIdx);
      var j := 0;
      out := [];
      while readIdx < writeIdx && j < |sends|
        invariant i0 <= readIdx <= writeIdx && j <= |sends|
        invariant readIdx - i0 + Taken(sends[j..], writeIdx - readIdx) == total
        invariant out == d[i0..readIdx]
        decreases |sends| - j
      {
        var k := Accepted(sends[j], writeIdx - readIdx);
        TakenStep(sends, j, writeIdx - readIdx);
        assert d[i0..readIdx] + buf[readIdx..readIdx + k] == d[i0..readIdx + k];
        out := out + buf[readIdx..readIdx + k];
        readIdx, j := readIdx + k, j + 1;
      }
      assert d[i0..readIdx] == d[i0..][..readIdx - i0];
    }

    /** on_socket_writable: the sends take what `sends` allows; behind the last one
        send reports EAGAIN, or another error when `failed`. */
    method OnWritable(sends: seq<nat>, failed: bool) returns (err: int, out: seq<Byte>)
      requires Valid()
      modifies this`readIdx, this`writeIdx, this`readable
      ensures Valid() && View() == Write(old(View()), sends)
      ensures out == Pending(old(View()))[..Taken(sends, old(writeIdx - readIdx))]
      ensures err == if |out| < old(writeIdx - readIdx) && failed then -1 else 0
    {
      out := Drain(sends);
      if readIdx < writeIdx { return if failed then -1 else 0, out; }
      readIdx, writeIdx, readable := 0, 0, false;
      assert buf[..0] == [];
      err := 0;
    }

    /** Lines 170-177 for one descriptor: read, then write unless reading failed,
        and give up the slot on any error.  The indices and the flag stay. */
    method Pass(canRead: bool, chunks: seq<seq<Byte>>, end: RecvEnd, canWrite: bool, sends: seq<nat>, failed: bool)
      returns (out: seq<Byte>)
      requires Valid() && forall c :: c in chunks ==> 1 <= |c| <= MAX_LINE
      modifies this, buf
      ensures Valid()
      ensures var b := if canRead then Receive(old(View()), Concat(chunks)) else old(View());
        var writing := canWrite && !(canRead && !end.Again?);
        && ReceivedIn(old(View()), b)
        && View() == (if writing then Write(b, sends) else b)
        && out == (if writing then Pending(b)[..Taken(sends, |b.data| - b.readIdx)] else [])
        && fd == (if (canRead && !end.Again?) || (writing && |out| < |Pending(b)| && failed) then 0 else old(fd))
    {
      out := [];
      var err := 0;
      ReceiveKeeps(View(), Concat(chunks));
      if canRead { err := OnReadable(chunks, end); }
      if err == 0 && canWrite { err, out := OnWritable(sends, failed); }
      if err != 0 { fd := 0; }
    }
  }

  /** One slot of main's table. */
  datatype Slot = Slot(fd: int, b: Buf)

  predicate LineWaits(b: Buf) { b.readIdx <= |b.data| && NEWLINE in Pending(b) }

  /** The descriptors of the open slots, and of those with `readable` set. */
  function Readers(slots: seq<Slot>): set<int> { set s | s in slots && s.fd > 0 :: s.fd }
  function Writers(slots: seq<Slot>): set<int> { set s | s in slots && s.fd > 0 && s.b.readable :: s.fd }

  lemma OneSlotMore(slots: seq<Slot>, i: nat)
    requires i < |slots|
    ensures Readers(slots[..i + 1]) == Readers(slots[..i]) + (if slots[i].fd > 0 then {slots[i].fd} else {})
    ensures Writers(slots[..i + 1]) ==
      Writers(slots[..i]) + (if slots[i].fd > 0 && slots[i].b.readable then {slots[i].fd} else {})
  {
    assert slots[..i + 1] == slots[..i] + [slots[i]];
  }

  /** Lines 125-140: the descriptors that main hands to select, and the largest. */
  method Collect(listenFd: int, slots: seq<Slot>) returns (maxFd: int, readFds: set<int>, writeFds: set<int>)
    ensures readFds == {listenFd} + Readers(slots) && writeFds == Writers(slots)
    ensures forall fd :: fd in readFds <==> fd == listenFd || (fd > 0 && exists s :: s in slots && s.fd == fd)
    ensures forall fd :: fd in writeFds <==> fd > 0 && exists s :: s in slots && s.fd == fd && s.b.readable
    ensures maxFd in readFds && forall fd :: fd in readFds ==> fd <= maxFd
  {
    maxFd, readFds, writeFds := listenFd, {listenFd}, {};
    for i := 0 to |slots|
      invariant maxFd in readFds && forall fd :: fd in readFds ==> fd <= maxFd
      invariant readFds == {listenFd} + Readers(slots[..i]) && writeFds == Writers(slots[..i])
    {
      OneSlotMore(slots, i);
      var s := slots[i];
      if s.fd <= 0 { continue; }
      if s.fd > maxFd { maxFd := s.fd; }
      readFds := readFds + {s.fd};
      if s.b.readable { writeFds := writeFds + {s.fd}; }
    }
    assert slots[..|slots|] == slots;
  }

  /** The slots as main leaves them, each after any connections that have used it. */
  ghost predicate Used(slots: seq<Slot>) {
    forall s :: s in slots ==> exists conns :: s.b == Reused(FRESH, conns)
  }

  /** A pending line of an open slot is always registered for writing, and a slot with
      an empty buffer never is. */
  lemma LinesRegistered(slots: seq<Slot>)
    requires Used(slots)
    ensures forall s :: s in slots && s.fd > 0 && LineWaits(s.b) ==> s.fd in Writers(slots)
    ensures forall fd :: fd in Writers(slots) ==> exists s :: s in slots && s.fd == fd && s.b.readIdx < |s.b.data|
  {
    forall s | s in slots
      ensures (LineWaits(s.b) ==> s.b.readable) && (s.b.readable ==> s.b.readIdx < |s.b.data|)
    {
      var conns :| s.b == Reused(FRESH, conns);
      NoLineStranded(conns);
    }
  }

  /** Reading leaves the part of the buffer that was filled as it is. */
  ghost predicate ReceivedIn(b: Buf, r: Buf) {
    b.data <= r.data && r.readIdx == b.readIdx <= |b.data|
  }

  lemma {:induction false} ReceiveConcat(b: Buf, s: seq<Byte>, t: seq<Byte>)
    ensures Receive(Receive(b, s), t) == Receive(b, s + t)
    decreases |t|
  {
    if t == [] {
      assert s + t == s;
    } else {
      var front, c := t[..|t| - 1], t[|t| - 1];
      ReceiveConcat(b, s, front);
      assert (s + t)[..|s + t| - 1] == s + front;
    }
  }
}
