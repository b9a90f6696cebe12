/** read_line and parse_header of chap-16/tcp_http_server.c: CRLF, CR and LF all end
    a line and are stored as LF.  (A bare CR does not end a line in section 2.2 of
    RFC 9112; the code lets it.) */
module HttpReader {
  import opened Common

  const CR: Byte := 13
  const LF: Byte := 10
  const MAX_LINE: nat := 4096

  /** What recv reports behind the last byte: 0 or -1. */
  datatype End = Closed | Error

  // ---- what lines are ----

  /** The bytes behind the line end at the front of s. */
  function SkipEnd(s: Bytes): (r: Bytes)
    requires s != []
    ensures |r| < |s|
  {
    if s[0] == CR && |s| > 1 && s[1] == LF then s[2..] else s[1..]
  }

  /** The stream with every line end turned into LF. */
  function Norm(s: Bytes): Bytes
    decreases |s|
  {
    if s == [] then []
    else if s[0] == CR then [LF] + Norm(SkipEnd(s))
    else [s[0]] + Norm(s[1..])
  }

  predicate Line(l: Bytes) { |l| > 0 && l[|l| - 1] == LF && LF !in l[..|l| - 1] }

  /** The first line of a normalised stream. */
  function FirstLine(n: Bytes): (l: Bytes)
    requires LF in n
    ensures Line(l) && l <= n
    decreases |n|
  {
    if n[0] == LF then [LF]
    else
      assert n == [n[0]] + n[1..];
      var l := FirstLine(n[1..]);
      assert ([n[0]] + l)[..|l|] == [n[0]] + l[..|l| - 1];
      [n[0]] + l
  }

  lemma {:induction false} FirstLineUnique(n: Bytes, l: Bytes)
    requires Line(l) && l <= n
    ensures LF in n && FirstLine(n) == l
    decreases |n|
  {
    assert n[|l| - 1] == l[|l| - 1];
    if |l| > 1 {
      assert n[0] == l[0] && l[0] in l[..|l| - 1];
      var k := l[1..];
      assert k[..|k| - 1] == l[..|l| - 1][1..];
      FirstLineUnique(n[1..], k);
    } else {
      assert l == [LF] && n[0] == LF;
    }
  }

  // ---- read_line ----

  /** read_line with `room` bytes left, after storing c: what it stores, and what
      stays unread.  Behind the end of a closed stream it stores c again and again. */
  function Take(s: Bytes, end: End, room: nat, c: Byte): (Bytes, Bytes)
    decreases room
  {
    if room == 0 || c == LF then ([], s)
    else if s == [] then
      if end.Error? then ([], s) else var (l, r) := Take(s, end, room - 1, c); ([c] + l, r)
    else if s[0] == CR then ([LF], SkipEnd(s))
    else var (l, r) := Take(s[1..], end, room - 1, s[0]); ([s[0]] + l, r)
  }

  /** What read_line owes to its caller: l is the next line if that fits, or else
      the first `room` bytes of it. */
  predicate Front(n: Bytes, room: nat, l: Bytes) {
    if LF in n && |FirstLine(n)| <= room then l == FirstLine(n) else |l| == room && LF !in l
  }

  lemma FrontGrows(x: Byte, t: Bytes, room: nat, l: Bytes)
    requires x != LF && Front(t, room, l)
    ensures Front([x] + t, room + 1, [x] + l)
  {
    var n := [x] + t;
    assert n[1..] == t;
    if LF in t { assert n[|t|] in n && n[0] == x; }
    assert LF in n <==> LF in t;
  }

  lemma TakePlain(s: Bytes, end: End, room: nat, c: Byte)
    requires room > 0 && c != LF && s != [] && s[0] != CR
    ensures Norm(s) == [s[0]] + Norm(s[1..])
    ensures Take(s, end, room, c) ==
      ([s[0]] + Take(s[1..], end, room - 1, s[0]).0, Take(s[1..], end, room - 1, s[0]).1)
  {
  }

  lemma TakeEnd(s: Bytes, end: End, room: nat, c: Byte)
    requires room > 0 && c != LF && s != [] && s[0] == CR
    ensures Norm(s) == [LF] + Norm(SkipEnd(s)) && Take(s, end, room, c) == ([LF], SkipEnd(s))
  {
  }

  lemma FrontLast(t: Bytes, room: nat)
    requires room > 0
    ensures Front([LF] + t, room, [LF])
  {
    assert ([LF] + t)[0] == LF;
  }

  /** The stream holds a whole line, or enough bytes to fill the buffer. */
  predicate Enough(n: Bytes, room: nat) { LF in n || |n| >= room }

  lemma EnoughTail(x: Byte, t: Bytes, room: nat)
    requires room > 0 && x != LF && Enough([x] + t, room)
    ensures Enough(t, room - 1)
  {
    if LF in [x] + t { assert LF in t; }
  }

  /** One byte in front, other than CR. */
  lemma PlainFront(x: Byte, l: Bytes, n: Bytes, t: Bytes)
    requires t == l + n
    ensures [x] + t == [x] + l + n
  {
    AppendAssoc([x], l, n);
  }

  /** read_line moves the front of the normalised stream to the buffer and leaves
      the rest as it is. */
  lemma {:induction false} TakeMovesFront(s: Bytes, end: End, room: nat, c: Byte)
    requires c != LF && Enough(Norm(s), room)
    ensures var (l, r) := Take(s, end, room, c); Norm(s) == l + Norm(r)
    decreases room
  {
    if room == 0 {
      AppendNone(Norm(s));
    } else if s[0] != CR {
      var x, t, left := s[0], Norm(s[1..]), Take(s[1..], end, room - 1, s[0]);
      TakePlain(s, end, room, c);
      assert t == left.0 + Norm(left.1) by {
        if x != LF {
          EnoughTail(x, t, room);
          TakeMovesFront(s[1..], end, room - 1, x);
        } else {
          AppendNone(t);
        }
      }
      PlainFront(x, left.0, Norm(left.1), t);
    }
  }

  /** What the first byte says about the stream and about what is stored, n and l: the
      line ends, or x stands in front of the rest, t and k. */
  lemma TakeFirst(s: Bytes, end: End, room: nat, c: Byte, n: Bytes, l: Bytes) returns (x: Byte, t: Bytes, k: Bytes)
    requires room > 0 && c != LF && s != [] && n == Norm(s) && l == Take(s, end, room, c).0
    ensures n == [x] + t && (x == LF ==> l == [LF])
    ensures x != LF ==>
      s[0] == x && t == Norm(s[1..]) && k == Take(s[1..], end, room - 1, x).0 && l == [x] + k
  {
    if s[0] == CR {
      TakeEnd(s, end, room, c);
      x, t, k := LF, Norm(SkipEnd(s)), [];
    } else {
      TakePlain(s, end, room, c);
      x, t, k := s[0], Norm(s[1..]), Take(s[1..], end, room - 1, s[0]).0;
      if x == LF { AppendNone([LF]); }
    }
  }

  lemma FrontNone(n: Bytes)
    ensures Front(n, 0, [])
  {
  }

  /** What is moved is the next line if that fits, or else its first `room` bytes. */
  lemma {:induction false} TakeTakesLine(s: Bytes, end: End, room: nat, c: Byte, n: Bytes, l: Bytes)
    requires c != LF && n == Norm(s) && Enough(n, room) && l == Take(s, end, room, c).0
    ensures Front(n, room, l)
    decreases room
  {
    if room == 0 {
      FrontNone(n);
    } else {
      var x, t, k := TakeFirst(s, end, room, c, n, l);
      if x == LF {
        FrontLast(t, room);
      } else {
        EnoughTail(x, t, room);
        TakeTakesLine(s[1..], end, room - 1, x, t, k);
        FrontGrows(x, t, room - 1, k);
      }
    }
  }

  /** A call returns the next line of the stream if and only if that line, with its
      LF, fits into size - 1 bytes; otherwise it returns a piece without LF. */
  lemma ReadLineExact(s: Bytes, end: End, room: nat)
    requires LF in Norm(s)
    ensures Norm(s) == Take(s, end, room, 0).0 + Norm(Take(s, end, room, 0).1)
    ensures Take(s, end, room, 0).0 == FirstLine(Norm(s)) <==> |FirstLine(Norm(s))| <= room
  {
    TakeMovesFront(s, end, room, 0);
    TakeTakesLine(s, end, room, 0, Norm(s), Take(s, end, room, 0).0);
  }

  /** A line one byte too long comes out in two pieces, of which the second looks
      like the empty line that ends the headers. */
  lemma OverlongLine(s: Bytes, end: End, room: nat)
    requires room > 0 && LF in Norm(s) && |FirstLine(Norm(s))| == room + 1
    ensures var (l, r) := Take(s, end, room, 0);
      l == FirstLine(Norm(s))[..room] && Take(r, end, room, 0).0 == [LF]
  {
    var (l, r) := Take(s, end, room, 0);
    var f := FirstLine(Norm(s));
    TakeMovesFront(s, end, room, 0);
    TakeTakesLine(s, end, room, 0, Norm(s), Take(s, end, room, 0).0);
    assert Norm(s)[..room] == l && f[..room] == Norm(s)[..room];
    assert Norm(r)[0] == Norm(s)[room] == f[room] == LF;
    ReadLineExact(r, end, room);
  }

  // ---- the bytes on the wire ----

  /** No line end inside. */
  predicate Plain(x: Bytes) { CR !in x && LF !in x }

  /** The stream s is x, a CRLF, LF or CR that ends the line, and t. */
  predicate Splits(s: Bytes, x: Bytes, t: Bytes) {
    || s == x + [CR, LF] + t
    || s == x + [LF] + t
    || (s == x + [CR] + t && (t == [] || t[0] != LF))
  }

  /** Bytes without a line end are stored as they are. */
  lemma {:induction false} TakePlainBytes(x: Bytes, t: Bytes, end: End, room: nat, c: Byte) returns (d: Byte)
    requires Plain(x) && |x| <= room && c != LF
    ensures d != LF && (x != [] ==> d == x[|x| - 1]) && (x == [] ==> d == c)
    ensures var (l, r) := Take(t, end, room - |x|, d); Take(x + t, end, room, c) == (x + l, r)
    decreases |x|
  {
    d := c;
    var y := x + t;
    if x == [] {
      assert y == t;
      AppendNone(Take(t, end, room, c).0);
    } else {
      assert y[0] == x[0] && y[1..] == x[1..] + t;
      d := TakePlainBytes(x[1..], t, end, room - 1, x[0]);
      TakePlain(y, end, room, c);
      var l := Take(t, end, room - |x|, d).0;
      AppendAssoc([x[0]], x[1..], l);
      assert [x[0]] + x[1..] == x;
    }
  }

  lemma TakeLineEnd(u: Bytes, t: Bytes, end: End, room: nat, c: Byte)
    requires Splits(u, [], t) && room > 0 && c != LF
    ensures Take(u, end, room, c) == ([LF], t)
  {
    if u == [] + [CR, LF] + t {
      assert u[0] == CR && u[1] == LF && u[2..] == t;
    } else if u == [] + [LF] + t {
      assert u[0] == LF && u[1..] == t;
      TakePlain(u, end, room, c);
      assert Take(t, end, room - 1, LF) == ([], t) && [LF] + [] == [LF];
    } else {
      assert u[0] == CR && u[1..] == t;
    }
  }

  lemma SplitsBehind(s: Bytes, x: Bytes, t: Bytes) returns (u: Bytes)
    requires Splits(s, x, t)
    ensures s == x + u && Splits(u, [], t)
  {
    u := if s == x + [CR, LF] + t then [CR, LF] + t else if s == x + [LF] + t then [LF] + t else [CR] + t;
    AppendAssoc(x, [CR, LF], t);
    AppendAssoc(x, [LF], t);
    AppendAssoc(x, [CR], t);
    AppendNone([CR, LF]);
    assert [] + [CR, LF] == [CR, LF] && [] + [LF] == [LF] && [] + [CR] == [CR];
  }

  /** A line that fits comes out with one LF for its end, whichever of the three that
      is, and nothing behind the end is touched. */
  lemma RawLine(s: Bytes, x: Bytes, t: Bytes, end: End, room: nat)
    requires Splits(s, x, t) && Plain(x) && |x| + 1 <= room
    ensures Take(s, end, room, 0) == (x + [LF], t)
  {
    var u := SplitsBehind(s, x, t);
    var d := TakePlainBytes(x, u, end, room, 0);
    TakeLineEnd(u, t, end, room - |x|, d);
  }

  /** A line that does not fit comes out cut. */
  lemma RawPiece(x: Bytes, t: Bytes, end: End, room: nat)
    requires Plain(x) && |x| == room
    ensures Take(x + t, end, room, 0) == (x, t)
  {
    var d := TakePlainBytes(x, t, end, room, 0);
    AppendNone(x);
  }

  function Repeat(d: Byte, n: nat): (r: Bytes)
    ensures |r| == n && forall i :: 0 <= i < n ==> r[i] == d
  {
    seq(n, _ => d)
  }

  lemma {:induction false} TakePads(room: nat, d: Byte)
    requires d != LF
    ensures Take([], Closed, room, d) == (Repeat(d, room), [])
  {
    if room > 0 {
      TakePads(room - 1, d);
      assert [d] + Repeat(d, room - 1) == Repeat(d, room);
    }
  }

  /** At the end of the stream: a failing one yields what is left, a closed one fills
      the buffer with the last byte, or with NUL if there was none. */
  lemma RawEnd(x: Bytes, end: End, room: nat)
    requires Plain(x) && |x| < room
    ensures Take(x, end, room, 0) ==
      (if end.Error? then x else x + Repeat(if x == [] then 0 else x[|x| - 1], room - |x|), [])
  {
    var d := TakePlainBytes(x, [], end, room, 0);
    AppendNone(x);
    if end.Closed? { TakePads(room - |x|, d); }
  }

  /** A connection whose peer has sent `data`. */
  class Conn {
    var data: Bytes
    const end: End

    constructor (data: Bytes, end: End)
      ensures this.data == data && this.end == end
    {
      this.data, this.end := data, end;
    }

    /** recv of one byte into c. */
    method Recv(c: Byte) returns (rc: int, d: Byte)
      modifies this
      ensures old(data) != [] ==> rc == 1 && d == old(data)[0] && data == old(data)[1..]
      ensures old(data) == [] ==> rc == (if end.Error? then -1 else 0) && d == c && data == []
    {
      if data == [] { return if end.Error? then -1 else 0, c; }
      rc, d := 1, data[0];
      data := data[1..];
    }

    /** recv of one byte into c with MSG_PEEK. */
    method Peek(c: Byte) returns (rc: int, d: Byte)
      ensures data != [] ==> rc == 1 && d == data[0]
      ensures data == [] ==> rc == (if end.Error? then -1 else 0) && d == c
    {
      if data == [] { return if end.Error? then -1 else 0, c; }
      return 1, data[0];
    }
  }

  /** Lines 48-56: the next character of the line; false when recv fails. */
  method NextChar(fd: Conn, c: Byte, ghost room: nat) returns (ok: bool, d: Byte)
    requires c != LF && c != CR && room > 0
    modifies fd
    ensures d != CR
    ensures var left := Take(old(fd.data), fd.end, room, c);
      if ok then left == ([d] + Take(fd.data, fd.end, room - 1, d).0, Take(fd.data, fd.end, room - 1, d).1)
      else d == LF && left == ([], fd.data)
  {
    ghost var s := fd.data;
    var rc;
    rc, d := fd.Recv(c);
    if rc < 0 { return false, LF; }
    ok := true;
    if d == CR {
      var pk;
      pk, d := fd.Peek(d);
      if pk > 0 && d == LF {
        rc, d := fd.Recv(d);
      } else {
        d := LF;
      }
      assert fd.data == SkipEnd(s) && [LF] + [] == [LF];
    }
  }

  method ReadLine(fd: Conn, buf: array<Byte>, size: nat) returns (i: nat)
    requires size <= buf.Length
    modifies fd, buf
    ensures var (l, r) := Take(old(fd.data), fd.end, if size > 0 then size - 1 else 0, 0);
      i == |l| <= buf.Length && buf[..i] == l && fd.data == r
    ensures forall x, t :: Splits(old(fd.data), x, t) && Plain(x) && |x| + 1 < size ==>
      i == |x| + 1 && buf[..i] == x + [LF] && fd.data == t
  {
    ghost var room := if size > 0 then size - 1 else 0;
    ghost var s := fd.data;
    ghost var goal := Take(fd.data, fd.end, room, 0);
    ghost var l := goal.0;
    var c: Byte := 0;
    var ok;
    i := 0;
    AppendNone(l);
    assert buf[..0] == [];
    while i + 1 < size && c != LF
      invariant i <= room && i <= buf.Length && c != CR
      invariant (l, goal.1) == Take(fd.data, fd.end, room - i, c) && goal.0 == buf[..i] + l
      decreases room - i, c != LF
    {
      ghost var before := buf[..i];
      ok, c := NextChar(fd, c, room - i);
      if !ok { continue; }
      ghost var more := Take(fd.data, fd.end, room - i - 1, c).0;
      AppendAssoc(before, [c], more);
      l := more;
      buf[i] := c;
      i := i + 1;
      assert buf[..i] == before + [c];
    }
    AppendNone(buf[..i]);
    forall x, t | Splits(s, x, t) && Plain(x) && |x| + 1 < size ensures goal == (x + [LF], t) {
      RawLine(s, x, t, fd.end, room);
    }
  }

  // ---- parse_header ----

  /** What ends the scan: the empty line, a call that reads nothing, or nothing at
      all: behind the end of a closed stream every call fills the buffer. */
  datatype HeaderEnd = EmptyLine | ReadFailed | Forever

  type Scan = (seq<Bytes>, Bytes, HeaderEnd)

  /** Lines 74-80: what successive calls return, and what stays unread. */
  function Pieces(s: Bytes, end: End): Scan
    decreases |s|
  {
    var (l, r) := Take(s, end, MAX_LINE - 1, 0);
    if l == [] then ([], r, ReadFailed)
    else if l == [LF] then ([l], r, EmptyLine)
    else if |r| >= |s| then ([], r, Forever)
    else
      var (ls, t, h) := Pieces(r, end);
      ([l] + ls, t, h)
  }

  /** parse_header: the request line, then the pieces. */
  function Header(s: Bytes, end: End): Scan {
    var (l, r) := Take(s, end, MAX_LINE - 1, 0);
    if l == [] then ([], r, ReadFailed)
    else
      var (ls, t, h) := Pieces(r, end);
      ([l] + ls, t, h)
  }

  ghost predicate Suffix(r: Bytes, s: Bytes) { exists u: Bytes :: u + r == s }

  lemma {:induction false} TakeConsumes(s: Bytes, end: End, room: nat, c: Byte) returns (u: Bytes)
    ensures u + Take(s, end, room, c).1 == s
    ensures room > 0 && c != LF && s != [] ==> u != []
    decreases room
  {
    u := [];
    if room == 0 || c == LF {
    } else if s == [] {
      if !end.Error? { u := TakeConsumes(s, end, room - 1, c); }
    } else if s[0] == CR {
      u := if |s| > 1 && s[1] == LF then s[..2] else s[..1];
    } else {
      u := TakeConsumes(s[1..], end, room - 1, s[0]);
      AppendAssoc([s[0]], u, Take(s[1..], end, room - 1, s[0]).1);
      u := [s[0]] + u;
    }
  }

  lemma SuffixTrans(r: Bytes, s: Bytes, t: Bytes)
    requires Suffix(r, s) && Suffix(s, t)
    ensures Suffix(r, t)
  {
    var u: Bytes :| u + r == s;
    var v: Bytes :| v + s == t;
    AppendAssoc(v, u, r);
  }

  /** A closed stream never fails, a failing one never goes on for ever. */
  lemma {:induction false} PiecesEnd(s: Bytes, end: End)
    ensures end.Closed? ==> !Pieces(s, end).2.ReadFailed?
    ensures end.Error? ==> !Pieces(s, end).2.Forever?
    decreases |s|
  {
    var (l, r) := Take(s, end, MAX_LINE - 1, 0);
    if s != [] {
      var u := TakeConsumes(s, end, MAX_LINE - 1, 0);
      if l != [] && l != [LF] { PiecesEnd(r, end); }
    }
  }

  predicate Fits(l: Bytes) { |l| <= MAX_LINE - 1 }

  /** Lines of any length, of which the last is the first empty one. */
  predicate EndsEmpty(lines: seq<Bytes>) {
    && |lines| >= 1 && lines[|lines| - 1] == [LF]
    && (forall i :: 0 <= i < |lines| ==> Line(lines[i]))
    && (forall i :: 0 <= i < |lines| - 1 ==> lines[i] != [LF])
  }

  /** One call at the front of a line l: the whole of it if and only if it fits. */
  lemma TakeNext(s: Bytes, end: End, l: Bytes, more: Bytes)
    requires Line(l) && Norm(s) == l + more
    ensures var (k, r) := Take(s, end, MAX_LINE - 1, 0);
      && k != [] && |r| < |s| && Suffix(r, s)
      && (k == l <==> Fits(l)) && (Fits(l) ==> Norm(r) == more) && (!Fits(l) ==> k != [LF])
  {
    assert s != [];
    FirstLineUnique(Norm(s), l);
    ReadLineExact(s, end, MAX_LINE - 1);
    TakeTakesLine(s, end, MAX_LINE - 1, 0, Norm(s), Take(s, end, MAX_LINE - 1, 0).0);
    var u := TakeConsumes(s, end, MAX_LINE - 1, 0);
    var (k, r) := Take(s, end, MAX_LINE - 1, 0);
    assert |u| + |r| == |s|;
    if Fits(l) { assert (l + more)[|l|..] == more && (k + Norm(r))[|k|..] == Norm(r); }
  }

  /** The scan returns the lines it stands in front of if and only if each of them
      fits; then it stops behind the first empty one. */
  lemma {:induction false} PiecesExact(s: Bytes, end: End, lines: seq<Bytes>, tail: Bytes)
    requires EndsEmpty(lines) && Norm(s) == Concat(lines) + tail
    ensures Pieces(s, end).0 == lines <==> forall i :: 0 <= i < |lines| ==> Fits(lines[i])
    ensures Pieces(s, end).0 == lines ==>
      var (ls, r, h) := Pieces(s, end); h == EmptyLine && Norm(r) == tail && Suffix(r, s)
    decreases |lines|
  {
    var l, more := lines[0], Concat(lines[1..]) + tail;
    ConcatFirst(lines);
    AppendAssoc(l, Concat(lines[1..]), tail);
    TakeNext(s, end, l, more);
    var (k, r) := Take(s, end, MAX_LINE - 1, 0);
    if !Fits(l) {
      assert Pieces(s, end).0[0] == k != lines[0];
    } else if l == [LF] {
      assert lines == [l] && Concat(lines[1..]) == [];
      AppendNone(tail);
    } else {
      assert Pieces(s, end).0 == [l] + Pieces(r, end).0;
      assert lines == [l] + lines[1..];
      PiecesExact(r, end, lines[1..], tail);
      OneLineMore(s, end, r, lines);
    }
  }

  lemma OneLineMore(s: Bytes, end: End, r: Bytes, lines: seq<Bytes>)
    requires |lines| > 1 && Fits(lines[0]) && Suffix(r, s)
    requires Pieces(s, end) == ([lines[0]] + Pieces(r, end).0, Pieces(r, end).1, Pieces(r, end).2)
    requires Pieces(r, end).0 == lines[1..] <==> forall i :: 0 <= i < |lines[1..]| ==> Fits(lines[1..][i])
    requires Pieces(r, end).0 == lines[1..] ==> Suffix(Pieces(r, end).1, r)
    ensures Pieces(s, end).0 == lines <==> forall i :: 0 <= i < |lines| ==> Fits(lines[i])
    ensures Pieces(s, end).0 == lines ==> Pieces(r, end).0 == lines[1..] && Suffix(Pieces(s, end).1, s)
  {
    var ls := Pieces(r, end).0;
    assert ([lines[0]] + ls)[1..] == ls && lines == [lines[0]] + lines[1..];
    if ls == lines[1..] {
      SuffixTrans(Pieces(r, end).1, r, s);
      forall i | 0 <= i < |lines| ensures Fits(lines[i]) {
        if i > 0 { assert lines[1..][i - 1] == lines[i]; }
      }
    }
  }

  /** parse_header on a stream that begins with a request line, any headers and an
      empty line: the lines come out one by one, whatever ends them, if and only if
      each of them fits into 4095 bytes with its LF; then the scan stops at the first
      empty line and no byte behind it is consumed. */
  lemma HeaderExact(s: Bytes, end: End, request: Bytes, lines: seq<Bytes>, tail: Bytes)
    requires Line(request) && EndsEmpty(lines) && Norm(s) == request + (Concat(lines) + tail)
    ensures var (got, r, h) := Header(s, end);
      && (got == [request] + lines <==> Fits(request) && forall i :: 0 <= i < |lines| ==> Fits(lines[i]))
      && (got == [request] + lines ==> h == EmptyLine && Norm(r) == tail && Suffix(r, s))
  {
    TakeNext(s, end, request, Concat(lines) + tail);
    var (k, r) := Take(s, end, MAX_LINE - 1, 0);
    var ls := Pieces(r, end).0;
    assert ([k] + ls)[0] == k && ([k] + ls)[1..] == ls;
    assert ([request] + lines)[0] == request && ([request] + lines)[1..] == lines;
    if Fits(request) {
      PiecesExact(r, end, lines, tail);
      if ls == lines { SuffixTrans(Pieces(r, end).1, r, s); }
    }
  }

  // ---- lines of any length ----

  /** The pieces in which a line is read. */
  function Chop(l: Bytes): seq<Bytes>
    decreases |l|
  {
    if Fits(l) then [l] else [l[..MAX_LINE - 1]] + Chop(l[MAX_LINE - 1..])
  }

  function ChopAll(lines: seq<Bytes>): seq<Bytes> {
    if lines == [] then [] else Chop(lines[0]) + ChopAll(lines[1..])
  }

  /** The last piece of the line is its LF alone. */
  predicate LooksEmpty(l: Bytes) { |l| % (MAX_LINE - 1) == 1 }

  /** The first such line, or the number of lines. */
  function FirstEmpty(lines: seq<Bytes>): (c: nat)
    ensures c <= |lines| && (c < |lines| ==> LooksEmpty(lines[c])) && forall i :: 0 <= i < c ==> !LooksEmpty(lines[i])
  {
    if lines == [] || LooksEmpty(lines[0]) then 0 else 1 + FirstEmpty(lines[1..])
  }

  predicate AllLines(lines: seq<Bytes>) { forall i :: 0 <= i < |lines| ==> Line(lines[i]) }

  /** One call at the front of a line that does not fit. */
  lemma TakePiece(s: Bytes, end: End, l: Bytes, more: Bytes)
    requires Line(l) && !Fits(l) && Norm(s) == l + more
    ensures var (k, r) := Take(s, end, MAX_LINE - 1, 0);
      var rest := l[MAX_LINE - 1..];
      && k == l[..MAX_LINE - 1] && |r| < |s| && Suffix(r, s)
      && Norm(r) == rest + more && Line(rest) && (LooksEmpty(rest) <==> LooksEmpty(l))
  {
    TakeNext(s, end, l, more);
    FirstLineUnique(Norm(s), l);
    ReadLineExact(s, end, MAX_LINE - 1);
    TakeTakesLine(s, end, MAX_LINE - 1, 0, Norm(s), Take(s, end, MAX_LINE - 1, 0).0);
    var (k, r) := Take(s, end, MAX_LINE - 1, 0);
    SamePieces(l, more, k, Norm(r));
    RestOfLine(l, MAX_LINE - 1);
  }

  /** What is left of a line is a line, and looks as empty as the whole. */
  lemma RestOfLine(l: Bytes, n: nat)
    requires Line(l) && 0 < n < |l|
    ensures Line(l[n..]) && |l[n..]| % n == |l| % n
  {
    var rest := l[n..];
    assert rest[..|rest| - 1] == l[..|l| - 1][n..];
    var q := |rest| / n;
    assert |l| == (q + 1) * n + |rest| % n;
    ModUnique(|l|, n, q + 1, |rest| % n);
  }

  lemma SamePieces(l: Bytes, more: Bytes, k: Bytes, n: Bytes)
    requires l + more == k + n && |k| <= |l|
    ensures k == l[..|k|] && n == l[|k|..] + more
  {
    assert k == (k + n)[..|k|] && (l + more)[..|k|] == l[..|k|];
    assert n == (k + n)[|k|..] && (l + more)[|k|..] == l[|k|..] + more;
  }

  /** The scan p of s has read the lines piece by piece and has stopped behind the first
      that looks empty. */
  ghost predicate Stopped(p: Scan, s: Bytes, lines: seq<Bytes>, tail: Bytes) {
    var c := FirstEmpty(lines);
    && c < |lines| && p.0 == ChopAll(lines[..c + 1]) && p.2 == EmptyLine
    && Norm(p.1) == Concat(lines[c + 1..]) + tail && Suffix(p.1, s)
  }

  lemma ChopFirst(lines: seq<Bytes>, j: nat)
    requires 1 <= j <= |lines|
    ensures ChopAll(lines[..j]) == Chop(lines[0]) + ChopAll(lines[1..][..j - 1])
  {
    assert lines[..j][1..] == lines[1..][..j - 1];
  }

  /** Behind a line that fits and is not empty. */
  lemma StoppedLater(p: Scan, q: Scan, s: Bytes, lines: seq<Bytes>, tail: Bytes, r: Bytes)
    requires lines != [] && !LooksEmpty(lines[0]) && Fits(lines[0]) && Stopped(q, r, lines[1..], tail)
    requires p == ([lines[0]] + q.0, q.1, q.2) && Suffix(r, s)
    ensures Stopped(p, s, lines, tail)
  {
    var c := FirstEmpty(lines[1..]);
    assert FirstEmpty(lines) == c + 1;
    DropFirst(lines, c + 1);
    ChopFirst(lines, c + 2);
    SuffixTrans(q.1, r, s);
  }

  lemma DropFirst(lines: seq<Bytes>, j: nat)
    requires 1 + j <= |lines|
    ensures lines[1..][j..] == lines[j + 1..]
  {
  }

  /** Behind a piece of a line that does not fit. */
  lemma StoppedMid(p: Scan, q: Scan, s: Bytes, lines: seq<Bytes>, tail: Bytes, r: Bytes, later: seq<Bytes>)
    requires lines != [] && !Fits(lines[0]) && later == [lines[0][MAX_LINE - 1..]] + lines[1..]
    requires (LooksEmpty(later[0]) <==> LooksEmpty(lines[0])) && Stopped(q, r, later, tail) && Suffix(r, s)
    requires p == ([lines[0][..MAX_LINE - 1]] + q.0, q.1, q.2)
    ensures Stopped(p, s, lines, tail)
  {
    var c := FirstEmpty(later);
    assert later[1..] == lines[1..];
    assert FirstEmpty(lines) == c;
    DropFirst(lines, c);
    DropFirst(later, c);
    assert ChopAll(lines[..c + 1]) == [lines[0][..MAX_LINE - 1]] + ChopAll(later[..c + 1]) by {
      ChopFirst(lines, c + 1);
      ChopFirst(later, c + 1);
      AppendAssoc([lines[0][..MAX_LINE - 1]], Chop(later[0]), ChopAll(lines[1..][..c]));
    }
    SuffixTrans(q.1, r, s);
  }

  lemma StoppedHere(p: Scan, s: Bytes, lines: seq<Bytes>, tail: Bytes)
    requires lines != [] && lines[0] == [LF] && p.0 == [[LF]] && p.2 == EmptyLine && Suffix(p.1, s)
    requires Norm(p.1) == Concat(lines[1..]) + tail
    ensures Stopped(p, s, lines, tail)
  {
    ChopFirst(lines, 1);
    assert lines[1..][..0] == [] && FirstEmpty(lines) == 0;
    AppendNone(Chop([LF]));
  }

  /** What the scan does with lines of any lengths, one of which looks empty. */
  lemma {:induction false} PiecesStop(s: Bytes, end: End, lines: seq<Bytes>, tail: Bytes)
    requires AllLines(lines) && FirstEmpty(lines) < |lines| && Norm(s) == Concat(lines) + tail
    ensures Stopped(Pieces(s, end), s, lines, tail)
    decreases |s|
  {
    var l, more := lines[0], Concat(lines[1..]) + tail;
    assert Norm(s) == l + more by {
      ConcatFirst(lines);
      AppendAssoc(l, Concat(lines[1..]), tail);
    }
    var r := Take(s, end, MAX_LINE - 1, 0).1;
    TakeNext(s, end, l, more);
    if l == [LF] {
      StoppedHere(Pieces(s, end), s, lines, tail);
    } else if Fits(l) {
      ShortLine(l);
      PiecesStop(r, end, lines[1..], tail);
      StoppedLater(Pieces(s, end), Pieces(r, end), s, lines, tail, r);
    } else {
      TakePiece(s, end, l, more);
      var later := [l[MAX_LINE - 1..]] + lines[1..];
      assert Norm(r) == Concat(later) + tail by {
        ConcatFirst(later);
        assert later[1..] == lines[1..];
        AppendAssoc(later[0], Concat(lines[1..]), tail);
      }
      if !LooksEmpty(l) { assert later[1..] == lines[1..]; }
      PiecesStop(r, end, later, tail);
      StoppedMid(Pieces(s, end), Pieces(r, end), s, lines, tail, r, later);
    }
  }

  lemma ShortLine(l: Bytes)
    requires Line(l) && l != [LF] && Fits(l)
    ensures !LooksEmpty(l)
  {
    if |l| == MAX_LINE - 1 { ModUnique(|l|, MAX_LINE - 1, 1, 0); } else { ModUnique(|l|, MAX_LINE - 1, 0, |l|); }
  }

  /** A line other than the empty one whose last piece looks empty. */
  predicate EndsEarly(l: Bytes) { |l| > 1 && LooksEmpty(l) }

  /** A header line of any such length ends the scan: its last byte, the LF, passes for
      the empty line, and all headers behind it stay unread. */
  lemma OverlongHeader(s: Bytes, end: End, l: Bytes, more: Bytes)
    requires Line(l) && EndsEarly(l) && Norm(s) == l + more
    ensures var (ls, r, h) := Pieces(s, end); ls == Chop(l) && h == EmptyLine && Norm(r) == more
  {
    OneLine([l], more);
    PiecesStop(s, end, [l], more);
  }

  lemma OneLine(lines: seq<Bytes>, more: Bytes)
    requires |lines| == 1
    ensures Concat(lines) == lines[0] && ChopAll(lines[..1]) == Chop(lines[0]) && Concat(lines[1..]) + more == more
    ensures FirstEmpty(lines) == if LooksEmpty(lines[0]) then 0 else 1
  {
    ConcatFirst(lines);
    AppendNone(lines[0]);
    AppendNone(more);
    ChopFirst(lines, 1);
    AppendNone(Chop(lines[0]));
    assert lines[1..] == [] && lines[1..][..0] == [];
  }

  lemma NothingBehind(lines: seq<Bytes>, tail: Bytes)
    requires AllLines(lines)
    ensures Concat(lines) + tail == tail <==> lines == []
  {
    if lines == [] {
      AppendNone(tail);
    } else {
      ConcatFirst(lines);
      assert |Concat(lines)| > 0;
    }
  }

  /** The scan of the header lines stops at the empty one exactly when no line before
      it looks empty. */
  lemma LinesStop(s: Bytes, end: End, lines: seq<Bytes>, tail: Bytes)
    requires AllLines(lines) && lines != [] && lines[|lines| - 1] == [LF] && Norm(s) == Concat(lines) + tail
    ensures var (ls, r, h) := Pieces(s, end);
      && h == EmptyLine && Suffix(r, s)
      && (Norm(r) == tail <==> forall i :: 0 <= i < |lines| - 1 ==> !LooksEmpty(lines[i]))
  {
    assert LooksEmpty(lines[|lines| - 1]);
    var c := FirstEmpty(lines);
    PiecesStop(s, end, lines, tail);
    NothingBehind(lines[c + 1..], tail);
  }

  /** parse_header on a stream that begins with a request line, any headers and an
      empty line: whatever their lengths, the scan comes to an end, and it stops
      exactly behind the empty line if and only if no line but the empty one has a
      length of 1 modulo 4095. */
  lemma HeaderStopsExactly(s: Bytes, end: End, request: Bytes, lines: seq<Bytes>, tail: Bytes)
    requires Line(request) && EndsEmpty(lines) && Norm(s) == request + (Concat(lines) + tail)
    ensures var (got, r, h) := Header(s, end);
      && h == EmptyLine && Suffix(r, s)
      && (Norm(r) == tail <==> !EndsEarly(request) && forall i :: 0 <= i < |lines| ==> !EndsEarly(lines[i]))
  {
    TakeNext(s, end, request, Concat(lines) + tail);
    var (k, r) := Take(s, end, MAX_LINE - 1, 0);
    forall i | 0 <= i < |lines| ensures EndsEarly(lines[i]) <==> i < |lines| - 1 && LooksEmpty(lines[i]) {
      if |lines[i]| == 1 { assert lines[i] == [LF]; }
    }
    if Fits(request) {
      if request != [LF] { ShortLine(request); }
      LinesStop(r, end, lines, tail);
    } else {
      TakePiece(s, end, request, Concat(lines) + tail);
      var rest := request[MAX_LINE - 1..];
      var later := [rest] + lines;
      ConcatFirst(later);
      assert later[1..] == lines;
      AppendAssoc(rest, Concat(lines), tail);
      LinesStop(r, end, later, tail);
      assert forall i :: 0 <= i < |lines| ==> later[i + 1] == lines[i];
      assert forall i :: 0 < i < |later| ==> later[i] == lines[i - 1];
    }
    SuffixTrans(Pieces(r, end).1, r, s);
  }

  // ---- requests on the wire ----

  datatype Ending = CrLf | Lf | Cr

  /** A line as it is sent. */
  datatype Raw = Raw(text: Bytes, ending: Ending)

  function EndBytes(e: Ending): Bytes { match e case CrLf => [CR, LF] case Lf => [LF] case Cr => [CR] }

  /** The lines one behind the other, and what follows them. */
  function Wire(lines: seq<Raw>, tail: Bytes): Bytes {
    if lines == [] then tail else lines[0].text + EndBytes(lines[0].ending) + Wire(lines[1..], tail)
  }

  /** A CR is the end of a line of its own unless an LF comes next. */
  predicate WireOk(lines: seq<Raw>, tail: Bytes) {
    lines == [] ||
    (&& Plain(lines[0].text) && WireOk(lines[1..], tail)
     && (lines[0].ending.Cr? ==> Wire(lines[1..], tail) == [] || Wire(lines[1..], tail)[0] != LF))
  }

  /** The lines as they are stored. */
  function Stored(lines: seq<Raw>): (r: seq<Bytes>)
    ensures |r| == |lines| && forall i :: 0 <= i < |r| ==> r[i] == lines[i].text + [LF]
  {
    if lines == [] then [] else [lines[0].text + [LF]] + Stored(lines[1..])
  }

  /** Header lines that fit, up to the first empty one. */
  predicate HeaderLines(lines: seq<Raw>) {
    && lines != [] && lines[|lines| - 1].text == []
    && (forall i :: 0 <= i < |lines| ==> |lines[i].text| + 1 <= MAX_LINE - 1)
    && (forall i :: 0 <= i < |lines| - 1 ==> lines[i].text != [])
  }

  lemma WireSplits(lines: seq<Raw>, tail: Bytes)
    requires lines != [] && WireOk(lines, tail)
    ensures Splits(Wire(lines, tail), lines[0].text, Wire(lines[1..], tail)) && Plain(lines[0].text)
  {
  }

  lemma {:induction false} RawPieces(s: Bytes, end: End, lines: seq<Raw>, tail: Bytes)
    requires HeaderLines(lines) && WireOk(lines, tail) && s == Wire(lines, tail)
    ensures Pieces(s, end) == (Stored(lines), tail, EmptyLine)
    decreases |lines|
  {
    var x, t := lines[0].text, Wire(lines[1..], tail);
    WireSplits(lines, tail);
    RawLine(s, x, t, end, MAX_LINE - 1);
    if |lines| == 1 {
      assert x == [] && x + [LF] == [LF] && t == tail;
      assert |Stored(lines)| == 1 && Stored(lines)[0] == [LF];
      assert Stored(lines) == [[LF]];
    } else {
      assert x + [LF] != [LF] by { assert |x + [LF]| > 1; }
      assert |t| < |s| by { assert |s| == |x| + |EndBytes(lines[0].ending)| + |t|; }
      RawPieces(t, end, lines[1..], tail);
    }
  }

  /** The stream begins with a request line and the header lines on the wire. */
  predicate RequestOnWire(s: Bytes, request: Raw, lines: seq<Raw>, tail: Bytes) {
    && |request.text| + 1 <= MAX_LINE - 1 && HeaderLines(lines)
    && WireOk([request] + lines, tail) && s == Wire([request] + lines, tail)
  }

  /** Every line of a request comes out with one LF for its CRLF, LF or CR, and the
      byte behind the empty line is the next one to be read. */
  lemma RawHeader(s: Bytes, end: End, request: Raw, lines: seq<Raw>, tail: Bytes)
    requires RequestOnWire(s, request, lines, tail)
    ensures Header(s, end) == ([request.text + [LF]] + Stored(lines), tail, EmptyLine)
  {
    var all := [request] + lines;
    assert all[0] == request && all[1..] == lines;
    WireSplits(all, tail);
    RawLine(s, request.text, Wire(lines, tail), end, MAX_LINE - 1);
    RawPieces(Wire(lines, tail), end, lines, tail);
  }

  /** What the normal form of a stream is: every line end on the wire becomes one LF. */
  lemma {:induction false} NormOfWire(lines: seq<Raw>, tail: Bytes)
    requires WireOk(lines, tail)
    ensures Norm(Wire(lines, tail)) == Concat(Stored(lines)) + Norm(tail)
  {
    if lines == [] {
      AppendNone(Norm(tail));
    } else {
      var x, t := lines[0].text, Wire(lines[1..], tail);
      WireSplits(lines, tail);
      var u := SplitsBehind(Wire(lines, tail), x, t);
      NormPlain(x, u);
      NormLineEnd(u, t);
      NormOfWire(lines[1..], tail);
      ConcatFirst(Stored(lines));
      assert Stored(lines)[1..] == Stored(lines[1..]);
      AppendAssoc(x, [LF], Norm(t));
      AppendAssoc(x + [LF], Concat(Stored(lines[1..])), Norm(tail));
    }
  }

  lemma {:induction false} NormPlain(x: Bytes, u: Bytes)
    requires Plain(x)
    ensures Norm(x + u) == x + Norm(u)
  {
    var y := x + u;
    if x == [] {
      assert y == u;
      AppendNone(Norm(u));
    } else {
      assert y[0] == x[0] && y[1..] == x[1..] + u;
      NormPlain(x[1..], u);
      AppendAssoc([x[0]], x[1..], Norm(u));
      assert [x[0]] + x[1..] == x;
    }
  }

  lemma NormLineEnd(u: Bytes, t: Bytes)
    requires Splits(u, [], t)
    ensures Norm(u) == [LF] + Norm(t)
  {
    if u == [] + [CR, LF] + t {
      assert u[0] == CR && u[1] == LF && u[2..] == t;
    } else if u == [] + [LF] + t {
      assert u[0] == LF && u[1..] == t;
    } else {
      assert u[0] == CR && u[1..] == t;
    }
  }

  /** parse_header on any stream on which its loop ends. */
  method ParseHeader(fd: Conn) returns (n: int, got: seq<Bytes>)
    requires !Header(fd.data, fd.end).2.Forever?
    modifies fd
    ensures var (ls, r, h) := Header(old(fd.data), fd.end);
      got == ls && fd.data == r && n == if h == EmptyLine then 1 else 0
    ensures forall request, lines, tail :: RequestOnWire(old(fd.data), request, lines, tail) ==>
      n == 1 && got == [request.text + [LF]] + Stored(lines) && fd.data == tail
  {
    forall request, lines, tail | RequestOnWire(fd.data, request, lines, tail)
      ensures Header(fd.data, fd.end) == ([request.text + [LF]] + Stored(lines), tail, EmptyLine)
    {
      RawHeader(fd.data, fd.end, request, lines, tail);
    }
    var buf := new Byte[MAX_LINE](_ => 0);
    ghost var goal := Header(fd.data, fd.end);
    got := [];
    n := ReadLine(fd, buf, MAX_LINE);
    if n <= 0 { return 0, got; }
    got := [buf[..n]];
    while true
      invariant var (ls, r, h) := Pieces(fd.data, fd.end); goal == (got + ls, r, h)
      decreases |fd.data|
    {
      ghost var s := fd.data;
      n := ReadLine(fd, buf, MAX_LINE);
      if n <= 0 {
        AppendNone(got);
        break;
      }
      if n == 1 && buf[0] == LF {
        assert buf[..n] == [LF];
        got := got + [buf[..n]];
        break;
      }
      assert buf[..n] != [LF] by { assert n == 1 ==> buf[..n][0] != LF; }
      AppendAssoc(got, [buf[..n]], Pieces(fd.data, fd.end).0);
      got := got + [buf[..n]];
    }
  }
}
