/** One pass of the loop of chap-21/poll_server.c over its table of descriptors. */
module PollLoop {

  const POLL_FD_SIZE: nat := 128

  /** revents: POLLRDNORM, POLLERR and anything else. */
  datatype Revents = Revents(readable: bool, error: bool, other: bool)

  const QUIET := Revents(false, false, false)

  /** read(): data that is echoed, an end or reset, or an error that ends the program. */
  datatype Outcome = Echo | Gone | Fatal

  /** The test of line 82. */
  predicate Due(r: Revents) { r.readable || r.error }

  /** Entries from i on with some event: what poll counts. */
  function Count(rev: seq<Revents>, i: nat): (n: nat)
    requires i <= |rev|
    decreases |rev| - i
  {
    if i == |rev| then 0 else (if rev[i] != QUIET then 1 else 0) + Count(rev, i + 1)
  }

  /** The clients in slots 1 to n - 1 that are due in this pass, in slot order. */
  function ServedTo(fds: seq<int>, rev: seq<Revents>, n: nat): seq<nat>
    requires n <= |fds| == |rev|
  {
    if n <= 1 then []
    else if fds[n - 1] >= 0 && Due(rev[n - 1]) then ServedTo(fds, rev, n - 1) + [n - 1]
    else ServedTo(fds, rev, n - 1)
  }

  lemma {:induction false} ServedExactly(fds: seq<int>, rev: seq<Revents>, n: nat, i: nat)
    requires n <= |fds| == |rev|
    ensures i in ServedTo(fds, rev, n) <==> 1 <= i < n && fds[i] >= 0 && (rev[i].readable || rev[i].error)
    ensures forall j, k :: 0 <= j < k < |ServedTo(fds, rev, n)| ==>
      ServedTo(fds, rev, n)[j] < ServedTo(fds, rev, n)[k] < n
  {
    if n > 1 { ServedExactly(fds, rev, n - 1, i); ServedBelow(fds, rev, n - 1); }
  }

  lemma {:induction false} ServedBelow(fds: seq<int>, rev: seq<Revents>, n: nat)
    requires n <= |fds| == |rev|
    ensures forall j :: 0 <= j < |ServedTo(fds, rev, n)| ==> ServedTo(fds, rev, n)[j] < n
  {
    if n > 1 { ServedBelow(fds, rev, n - 1); }
  }

  /** Nobody is due behind slot i when nothing there has an event. */
  lemma {:induction false} NoneLeft(fds: seq<int>, rev: seq<Revents>, i: nat, n: nat)
    requires 1 <= i <= n <= |fds| == |rev| && Count(rev, i) == 0
    ensures ServedTo(fds, rev, n) == ServedTo(fds, rev, i)
    ensures forall j :: i <= j < |rev| ==> rev[j] == QUIET
    decreases |rev| - i, n - i
  {
    AllQuiet(rev, i);
    if i < n {
      assert !Due(rev[n - 1]);
      NoneLeft(fds, rev, i, n - 1);
    }
  }

  lemma {:induction false} AllQuiet(rev: seq<Revents>, i: nat)
    requires i <= |rev| && Count(rev, i) == 0
    ensures forall j :: i <= j < |rev| ==> rev[j] == QUIET
    decreases |rev| - i
  {
    if i < |rev| { AllQuiet(rev, i + 1); }
  }

  /** The free slot of lines 63-69, or the table size. */
  function FreeSlot(fds: seq<int>, i: nat): (k: nat)
    requires i <= |fds|
    ensures i <= k <= |fds| && (k < |fds| ==> fds[k] < 0)
    ensures forall j :: i <= j < k ==> fds[j] >= 0
    decreases |fds| - i
  {
    if i == |fds| || fds[i] < 0 then i else FreeSlot(fds, i + 1)
  }

  /** Every open descriptor stands in one slot. */
  predicate Distinct(fds: seq<int>) {
    forall i, j :: 0 <= i < j < |fds| && fds[i] >= 0 && fds[j] >= 0 ==> fds[i] != fds[j]
  }

  predicate Leaves(fds: seq<int>, rev: seq<Revents>, outcomes: seq<Outcome>, i: nat)
    requires i < |fds| == |rev| == |outcomes|
  {
    i >= 1 && fds[i] >= 0 && Due(rev[i]) && outcomes[i] == Gone
  }

  /** The table when slots 1 to n - 1 have been served. */
  predicate DroppedTo(was: seq<int>, rev: seq<Revents>, outcomes: seq<Outcome>, n: int, now: seq<int>)
    requires |was| == |rev| == |outcomes| == |now|
  {
    forall j :: 0 <= j < |now| ==> now[j] == if j < n && Leaves(was, rev, outcomes, j) then -1 else was[j]
  }

  lemma DropNext(was: seq<int>, rev: seq<Revents>, outcomes: seq<Outcome>, i: nat, now: seq<int>, next: seq<int>)
    requires 1 <= i < |was| == |rev| == |outcomes| == |now| && DroppedTo(was, rev, outcomes, i, now)
    requires next == if now[i] >= 0 && Due(rev[i]) && outcomes[i] == Gone then now[i := -1] else now
    ensures DroppedTo(was, rev, outcomes, i + 1, next)
  {
    assert now[i] == was[i];
  }

  /** With nothing left to count, slots i and up need no visit. */
  lemma RestQuiet(was: seq<int>, rev: seq<Revents>, outcomes: seq<Outcome>, i: nat, now: seq<int>)
    requires 1 <= i <= |was| == |rev| == |outcomes| == |now| && Count(rev, i) == 0
    requires DroppedTo(was, rev, outcomes, i, now)
    ensures ServedTo(was, rev, |was|) == ServedTo(was, rev, i) && DroppedTo(was, rev, outcomes, |was|, now)
  {
    NoneLeft(was, rev, i, |was|);
  }

  /** The table after a pass: what was accepted comes in, who is gone goes out. */
  predicate Updated(fds: seq<int>, rev: seq<Revents>, conn: int, outcomes: seq<Outcome>, r: seq<int>)
    requires |fds| == |rev| == |outcomes| == |r| && |fds| > 0
  {
    forall i :: 0 <= i < |r| ==>
      r[i] == if Leaves(fds, rev, outcomes, i) then -1
              else if rev[0].readable && i == FreeSlot(fds, 1) then conn
              else fds[i]
  }

  /** A descriptor that came in has no events yet and is not served. */
  lemma {:induction false} ServedUnlessNew(fds: seq<int>, rev: seq<Revents>, k: nat, conn: int, n: nat)
    requires n <= |fds| == |rev| && k < |fds| && fds[k] < 0 && rev[k] == QUIET
    ensures ServedTo(fds[k := conn], rev, n) == ServedTo(fds, rev, n)
  {
    if n > 1 { ServedUnlessNew(fds, rev, k, conn, n - 1); }
  }

  class PollServer {
    const fds: array<int>

    ghost predicate Valid()
      reads this, fds
    {
      fds.Length == POLL_FD_SIZE && fds[0] >= 0 && Distinct(fds[..])
    }

    constructor (listenFd: int)
      requires listenFd >= 0
      ensures Valid() && fresh(fds) && fds[0] == listenFd && forall i :: 1 <= i < fds.Length ==> fds[i] == -1
    {
      fds := new int[POLL_FD_SIZE](i => if i == 0 then listenFd else -1);
    }

    /** Lines 63-69: an accepted descriptor goes to the first free slot, if any. */
    method Accept(conn: int)
      requires Valid() && (conn >= 0 ==> conn !in fds[..])
      modifies fds
      ensures Valid()
      ensures var k := FreeSlot(old(fds[..]), 1);
        fds[..] == if k < POLL_FD_SIZE then old(fds[..])[k := conn] else old(fds[..])
    {
      ghost var was := fds[..];
      var i := 1;
      while i < POLL_FD_SIZE
        invariant 1 <= i <= POLL_FD_SIZE && fds[..] == was
        invariant FreeSlot(was, i) == FreeSlot(was, 1)
      {
        if fds[i] < 0 {
          fds[i] := conn;
          assert fds[..] == was[i := conn];
          return;
        }
        i := i + 1;
      }
    }

    /** Lines 80-91 for one slot: a client that is due is read, and dropped if it is
        gone. */
    method Visit(i: nat, r: Revents, o: Outcome) returns (due: bool)
      requires Valid() && 1 <= i < POLL_FD_SIZE
      modifies fds
      ensures Valid() && (due <==> old(fds[i]) >= 0 && (r.readable || r.error))
      ensures fds[..] == if due && o == Gone then old(fds[..])[i := -1] else old(fds[..])
    {
      due := fds[i] >= 0 && Due(r);
      if due && o == Gone { fds[i] := -1; }
    }

    /** Lines 79-97: serve who is due until ready_num says that nobody is left. */
    method ServeClients(rev: seq<Revents>, readyNum: int, outcomes: seq<Outcome>)
      returns (served: seq<nat>, fatal: bool)
      requires Valid() && |rev| == |outcomes| == POLL_FD_SIZE && Count(rev, 1) <= readyNum
      modifies fds
      ensures Valid()
      ensures served <= ServedTo(old(fds[..]), rev, POLL_FD_SIZE)
      ensures !fatal ==>
        && served == ServedTo(old(fds[..]), rev, POLL_FD_SIZE)
        && DroppedTo(old(fds[..]), rev, outcomes, POLL_FD_SIZE, fds[..])
    {
      ghost var was := fds[..];
      var ready := readyNum;
      served, fatal := [], false;
      var i := 1;
      while i < POLL_FD_SIZE
        invariant 1 <= i <= POLL_FD_SIZE && Valid()
        invariant Count(rev, i) <= ready && served == ServedTo(was, rev, i)
        invariant DroppedTo(was, rev, outcomes, i, fds[..])
        decreases POLL_FD_SIZE - i
      {
        ghost var now := fds[..];
        assert now[i] == was[i];
        var due := Visit(i, rev[i], outcomes[i]);
        DropNext(was, rev, outcomes, i, now, fds[..]);
        if due {
          ServedPrefix(was, rev, i + 1, POLL_FD_SIZE);
          served := served + [i];
          if outcomes[i] == Fatal { return served, true; }
          ready := ready - 1;
          if ready <= 0 {
            RestQuiet(was, rev, outcomes, i + 1, fds[..]);
            return;
          }
        }
        i := i + 1;
      }
    }

    /** Lines 59-97.  poll has reported `rev`, with no events for free slots, and the
        number of entries that have some; conn is what accept returned, a descriptor
        that was not open before.  Leaving the loop when ready_num reaches 0 skips no
        client that is due, and a client accepted in this pass is not read in it. */
    method Pass(rev: seq<Revents>, readyNum: int, conn: int, outcomes: seq<Outcome>)
      returns (served: seq<nat>, fatal: bool)
      requires Valid() && |rev| == |outcomes| == POLL_FD_SIZE
      requires readyNum == Count(rev, 0) && forall i :: 0 <= i < POLL_FD_SIZE && fds[i] < 0 ==> rev[i] == QUIET
      requires conn >= 0 ==> conn !in fds[..]
      modifies fds
      ensures Valid()
      ensures served <= ServedTo(old(fds[..]), rev, POLL_FD_SIZE)
      ensures !fatal ==>
        && served == ServedTo(old(fds[..]), rev, POLL_FD_SIZE)
        && Updated(old(fds[..]), rev, conn, outcomes, fds[..])
    {
      ghost var was := fds[..];
      ghost var k := FreeSlot(was, 1);
      var ready := readyNum;
      if rev[0].readable {
        Accept(conn);
        if k < POLL_FD_SIZE { ServedUnlessNew(was, rev, k, conn, POLL_FD_SIZE); }
        ready := ready - 1;
        if ready <= 0 {
          NoneLeft(was, rev, 1, POLL_FD_SIZE);
          return [], false;
        }
      }
      served, fatal := ServeClients(rev, ready, outcomes);
    }
  }

  lemma {:induction false} ServedPrefix(fds: seq<int>, rev: seq<Revents>, i: nat, n: nat)
    requires i <= n <= |fds| == |rev|
    ensures ServedTo(fds, rev, i) <= ServedTo(fds, rev, n)
    decreases n - i
  {
    if i < n { ServedPrefix(fds, rev, i, n - 1); }
  }
}
