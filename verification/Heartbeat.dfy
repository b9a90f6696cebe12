/** The heartbeat of chap-12: the timer of ping_client.c on its own, and client and
    server together.  Time is in microseconds; select writes back the time it did
    not sleep. */
module Heartbeat {
  import opened Common

  const SEC: nat := 1_000_000
  const KEEP_ALIVE_TIME: nat := 10
  const KEEP_ALIVE_INTERVAL: nat := 3
  const KEEP_ALIVE_PROBE_TIMES: nat := 3

  /** `heartbeats`, and tv as one number of microseconds. */
  datatype Client = Client(beats: nat, tv: nat)

  const START := Client(0, KEEP_ALIVE_TIME * SEC)

  /** Lines 61-73, with the timer run down. */
  function Probe(c: Client): Client { Client(c.beats + 1, KEEP_ALIVE_INTERVAL * SEC) }

  /** Lines 87-88: the seconds are set, the microseconds stay. */
  function Heard(c: Client): Client { Client(0, KEEP_ALIVE_TIME * SEC + c.tv % SEC) }

  predicate GivesUp(c: Client) { c.beats + 1 > KEEP_ALIVE_PROBE_TIMES }

  // ---- the client alone ----

  /** One return of select: a timeout, or data after so many microseconds. */
  datatype Event = Expire | Receive(after: nat)

  /** `since` is the time of the last receive, or of the start; `pings` are those
      sent in the silence since then; `heard` whether there was a receive. */
  datatype History = History(c: Client, now: nat, since: nat, pings: nat, heard: bool, dead: bool)

  const BEGIN := History(START, 0, 0, 0, false, false)

  predicate Possible(h: History, e: Event) { !h.dead && (e.Receive? ==> e.after <= h.c.tv) }

  function Next(h: History, e: Event): History
    requires Possible(h, e)
  {
    match e
    case Expire =>
      if GivesUp(h.c) then h.(now := h.now + h.c.tv, dead := true)
      else h.(c := Probe(h.c), now := h.now + h.c.tv, pings := h.pings + 1)
    case Receive(d) =>
      History(Heard(h.c.(tv := h.c.tv - d)), h.now + d, h.now + d, 0, true, false)
  }

  predicate Valid(events: seq<Event>)
    decreases |events|, 0
  {
    events == [] || (Valid(events[..|events| - 1]) && Possible(Play(events[..|events| - 1]), events[|events| - 1]))
  }

  function Play(events: seq<Event>): History
    requires Valid(events)
    decreases |events|, 1
  {
    if events == [] then BEGIN else Next(Play(events[..|events| - 1]), events[|events| - 1])
  }

  /** How many timeouts in a row the run ends with. */
  function Timeouts(events: seq<Event>): nat {
    if events == [] || events[|events| - 1] != Expire then 0 else Timeouts(events[..|events| - 1]) + 1
  }

  /** The silence so far and the timer add up to the time of the next decision. */
  predicate OnTime(h: History, k: nat) {
    var spent := h.now - h.since;
    && h.now >= h.since
    && if h.dead then
         k == KEEP_ALIVE_PROBE_TIMES + 1 && h.pings == KEEP_ALIVE_PROBE_TIMES
         && 19 * SEC <= spent < 20 * SEC && (!h.heard ==> spent == 19 * SEC && h.since == 0)
       else
         k == h.pings == h.c.beats <= KEEP_ALIVE_PROBE_TIMES
         && 10 * SEC + 3 * SEC * k <= spent + h.c.tv < 11 * SEC + 3 * SEC * k
         && (!h.heard ==> spent + h.c.tv == 10 * SEC + 3 * SEC * k && h.since == 0)
  }

  lemma {:induction false} AlwaysOnTime(events: seq<Event>)
    requires Valid(events)
    ensures OnTime(Play(events), Timeouts(events))
    decreases |events|
  {
    if events != [] {
      var front, e := events[..|events| - 1], events[|events| - 1];
      AlwaysOnTime(front);
    }
  }

  /** For any timing of events the client gives up exactly at the fourth timeout in
      a row, after three pings in that silence, at least 19 s and less than 20 s
      after the last receive, or 19 s after the start. */
  lemma GivesUpExactly(events: seq<Event>)
    requires Valid(events)
    ensures var h := Play(events);
      && (h.dead <==> Timeouts(events) == 4) && Timeouts(events) <= 4
      && (h.dead ==> h.pings == 3 && 19 * SEC <= h.now - h.since < 20 * SEC)
      && (h.dead && !h.heard ==> h.now == 19 * SEC)
  {
    AlwaysOnTime(events);
  }

  /** A receive, and k timeouts in a row behind it. */
  function Silence(d: nat, k: nat): seq<Event> { [Receive(d)] + seq(k, _ => Expire) }

  lemma PlayNext(events: seq<Event>, e: Event)
    requires Valid(events) && Possible(Play(events), e)
    ensures Valid(events + [e]) && Play(events + [e]) == Next(Play(events), e)
  {
    assert (events + [e])[..|events|] == events;
  }

  /** Data came at time `at`, with `rest` left of a second in tv, and k timeouts since. */
  predicate Silent(h: History, at: nat, rest: nat, k: nat) {
    && h.since == at && h.heard && h.now - at == (if k == 0 then 0 else (7 + 3 * k) * SEC + rest)
    && h.pings == (if k < 4 then k else 3) && (h.dead <==> k == 4)
    && (k < 4 ==> h.c == Client(k, if k == 0 then 10 * SEC + rest else 3 * SEC))
  }

  lemma SilentStart(h: History, d: nat)
    requires Possible(h, Receive(d))
    ensures Silent(Next(h, Receive(d)), h.now + d, (h.c.tv - d) % SEC, 0)
  {
  }

  lemma SilentNext(h: History, at: nat, rest: nat, k: nat)
    requires k < 4 && Silent(h, at, rest, k)
    ensures Possible(h, Expire) && Silent(Next(h, Expire), at, rest, k + 1)
  {
  }

  lemma SilenceStarts(events: seq<Event>, h: History, d: nat)
    requires Valid(events) && h == Play(events) && Possible(h, Receive(d))
    ensures Valid(events + Silence(d, 0))
    ensures Silent(Play(events + Silence(d, 0)), h.now + d, (h.c.tv - d) % SEC, 0)
  {
    assert events + Silence(d, 0) == events + [Receive(d)];
    PlayNext(events, Receive(d));
    SilentStart(h, d);
  }

  lemma SilenceGoesOn(before: seq<Event>, h: History, now: seq<Event>, at: nat, rest: nat, k: nat)
    requires Valid(before) && h == Play(before) && now == before + [Expire]
    requires k < 4 && Silent(h, at, rest, k)
    ensures Valid(now) && Silent(Play(now), at, rest, k + 1)
  {
    SilentNext(h, at, rest, k);
    PlayNext(before, Expire);
  }

  lemma SilenceLonger(events: seq<Event>, d: nat, k: nat)
    requires k > 0
    ensures events + Silence(d, k) == events + Silence(d, k - 1) + [Expire]
  {
  }

  /** What the client does in the silence behind a receive, to the microsecond: the
      part of a second that is left in tv when the data comes is waited out once more
      in front of the first timeout, because line 88 sets the seconds only.  Pings go
      out after 10, 13 and 16 s and that rest, and it gives up after 19 s and the rest. */
  lemma {:induction false} SilenceExact(events: seq<Event>, h: History, d: nat, k: nat)
    requires Valid(events) && h == Play(events) && Possible(h, Receive(d)) && k <= 4
    ensures Valid(events + Silence(d, k))
    ensures Silent(Play(events + Silence(d, k)), h.now + d, (h.c.tv - d) % SEC, k)
    decreases k
  {
    if k == 0 {
      SilenceStarts(events, h, d);
    } else {
      var before := events + Silence(d, k - 1);
      SilenceExact(events, h, d, k - 1);
      SilenceLonger(events, d, k);
      SilenceGoesOn(before, Play(before), events + Silence(d, k), h.now + d, (h.c.tv - d) % SEC, k - 1);
    }
  }

  /** The loop of main over the returns of select, with tv as two fields; true when
      it ends with "connection dead".  `now` is the time that has passed. */
  method ClientLoop(events: seq<Event>) returns (dead: bool, pings: nat, now: nat)
    requires Valid(events)
    ensures dead == Play(events).dead && pings == Play(events).pings && now == Play(events).now
  {
    var heartbeats, sec, usec := 0, KEEP_ALIVE_TIME, 0;
    dead, pings, now := false, 0, 0;
    assert events[..|events|] == events;
    assert events[..0] == [];
    for i := 0 to |events|
      invariant Valid(events[..i])
      invariant var h := Play(events[..i]);
        dead == h.dead && pings == h.pings && heartbeats == h.c.beats && now == h.now
      invariant !dead ==> sec * SEC + usec == Play(events[..i]).c.tv && usec < SEC
    {
      PrefixValid(events, i + 1);
      assert events[..i + 1][..i] == events[..i];
      match events[i] {
        case Expire =>
          now := now + sec * SEC + usec;
          sec, usec := 0, 0;
          if heartbeats + 1 > KEEP_ALIVE_PROBE_TIMES {
            dead := true;
          } else {
            heartbeats := heartbeats + 1;
            pings := pings + 1;
            sec := KEEP_ALIVE_INTERVAL;
          }
        case Receive(d) =>
          now := now + d;
          var left := sec * SEC + usec - d;
          sec, usec := left / SEC, left % SEC;
          heartbeats, pings := 0, 0;
          sec := KEEP_ALIVE_TIME;
      }
    }
  }

  lemma {:induction false} PrefixValid(events: seq<Event>, n: nat)
    requires Valid(events) && n <= |events|
    ensures Valid(events[..n])
    decreases |events|
  {
    if n == |events| {
      assert events[..n] == events;
    } else {
      var front := events[..|events| - 1];
      assert front[..n] == events[..n];
      PrefixValid(front, n);
    }
  }

  // ---- client and server together ----

  /** Upper bounds: a ping is under way at most `up`, a pong at most `down`; the
      server sleeps exactly `nap` for every ping. */
  datatype Delays = Delays(up: nat, nap: nat, down: nat)

  /** Messages under way, in order, each with the time it may still take; pings that
      wait in the server's socket; the rest of the server's sleep. */
  datatype Net = Net(c: Client, dead: bool, pings: seq<nat>, queued: nat, busy: Option<nat>, pongs: seq<nat>)

  datatype Action = Elapse(d: nat) | Timeout | PingArrives | ReadPing | SendPong | PongsArrive(n: nat)

  const QUIET := Net(START, false, [], 0, None, [])

  predicate AllAtLeast(s: seq<nat>, d: nat) { forall i :: 0 <= i < |s| ==> s[i] >= d }

  /** Time stands still while something is due: a deadline of 0, an expired timer, or
      a ping in front of an idle server. */
  predicate Enabled(n: Net, a: Action) {
    && !n.dead
    && match a
       case Elapse(d) =>
         && d <= n.c.tv && AllAtLeast(n.pings, d) && AllAtLeast(n.pongs, d)
         && (n.busy.Some? ==> d <= n.busy.value) && (n.busy.None? && n.queued > 0 ==> d == 0)
       case Timeout => n.c.tv == 0
       case PingArrives => n.pings != []
       case ReadPing => n.busy.None? && n.queued > 0
       case SendPong => n.busy == Some(0)
       case PongsArrive(k) => 1 <= k <= |n.pongs|
  }

  function Sooner(s: seq<nat>, d: nat): (r: seq<nat>)
    requires AllAtLeast(s, d)
    ensures |r| == |s|
  {
    seq(|s|, i requires 0 <= i < |s| => s[i] - d)
  }

  function Apply(n: Net, a: Action, x: Delays): Net
    requires Enabled(n, a)
  {
    match a
    case Elapse(d) =>
      n.(c := n.c.(tv := n.c.tv - d), pings := Sooner(n.pings, d), pongs := Sooner(n.pongs, d),
         busy := if n.busy.Some? then Some(n.busy.value - d) else None)
    case Timeout =>
      if GivesUp(n.c) then n.(dead := true) else n.(c := Probe(n.c), pings := n.pings + [x.up])
    case PingArrives => n.(pings := n.pings[1..], queued := n.queued + 1)
    case ReadPing => n.(queued := n.queued - 1, busy := Some(x.nap))
    case SendPong => n.(busy := None, pongs := n.pongs + [x.down])
    case PongsArrive(k) => n.(c := Heard(n.c), pongs := n.pongs[k..])
  }

  predicate ValidRun(n: Net, run: seq<Action>, x: Delays)
    decreases |run|
  {
    run == [] || (Enabled(n, run[0]) && ValidRun(Apply(n, run[0], x), run[1..], x))
  }

  function After(n: Net, run: seq<Action>, x: Delays): Net
    requires ValidRun(n, run, x)
    decreases |run|
  {
    if run == [] then n else After(Apply(n, run[0], x), run[1..], x)
  }

  // ---- the client in the network is the client alone ----

  /** The client of n has seen `events`, and w microseconds have passed since. */
  predicate Follows(n: Net, events: seq<Event>, w: nat) {
    && Valid(events)
    && var h := Play(events);
       n.dead == h.dead && (!n.dead ==> w <= h.c.tv && n.c == h.c.(tv := h.c.tv - w))
  }

  lemma StepFollows(n: Net, a: Action, x: Delays, events: seq<Event>, w: nat)
    returns (more: seq<Event>, v: nat)
    requires Enabled(n, a) && Follows(n, events, w)
    ensures Follows(Apply(n, a, x), more, v)
    ensures more == events + (match a case Timeout => [Expire] case PongsArrive(_) => [Receive(w)] case _ => [])
    ensures v == match a case Elapse(d) => w + d case Timeout => 0 case PongsArrive(_) => 0 case _ => w
  {
    match a {
      case Elapse(d) => more, v := events, w + d;
      case Timeout =>
        more, v := events + [Expire], 0;
        PlayNext(events, Expire);
      case PongsArrive(_) =>
        more, v := events + [Receive(w)], 0;
        PlayNext(events, Receive(w));
      case _ => more, v := events, w;
    }
  }

  lemma {:induction false} RunFollows(n: Net, run: seq<Action>, x: Delays, events: seq<Event>, w: nat)
    returns (more: seq<Event>, v: nat)
    requires ValidRun(n, run, x) && Follows(n, events, w)
    ensures Follows(After(n, run, x), more, v)
    decreases |run|
  {
    more, v := events, w;
    if run != [] {
      more, v := StepFollows(n, run[0], x, events, w);
      more, v := RunFollows(Apply(n, run[0], x), run[1..], x, more, v);
    }
  }

  /** Every run with a server and a network is, for the client, one of the runs of
      events that GivesUpExactly and SilenceExact speak of. */
  lemma NetworkFollows(run: seq<Action>, x: Delays) returns (events: seq<Event>, w: nat)
    requires ValidRun(QUIET, run, x)
    ensures Follows(After(QUIET, run, x), events, w)
  {
    events, w := RunFollows(QUIET, run, x, [], 0);
  }

  // ---- no message is lost or made up ----

  /** Pings that have been sent and not answered yet, wherever they are. */
  function Outstanding(n: Net): nat {
    |n.pings| + n.queued + (if n.busy.Some? then 1 else 0) + |n.pongs|
  }

  /** Pings that the client sends, and pongs that it receives, in a run. */
  function Sent(n: Net, run: seq<Action>, x: Delays): nat
    requires ValidRun(n, run, x)
    decreases |run|
  {
    if run == [] then 0
    else (if run[0].Timeout? && n.c.beats < 3 then 1 else 0) + Sent(Apply(n, run[0], x), run[1..], x)
  }

  function Heeded(run: seq<Action>): nat {
    if run == [] then 0 else (if run[0].PongsArrive? then run[0].n else 0) + Heeded(run[1..])
  }

  lemma StepCounts(n: Net, a: Action, x: Delays)
    requires Enabled(n, a)
    ensures Outstanding(Apply(n, a, x)) == Outstanding(n)
      + (if a.Timeout? && n.c.beats < 3 then 1 else 0) - (if a.PongsArrive? then a.n else 0)
  {
  }

  lemma {:induction false} RunCounts(n: Net, run: seq<Action>, x: Delays)
    requires ValidRun(n, run, x)
    ensures Sent(n, run, x) + Outstanding(n) == Outstanding(After(n, run, x)) + Heeded(run)
    decreases |run|
  {
    if run != [] {
      StepCounts(n, run[0], x);
      RunCounts(Apply(n, run[0], x), run[1..], x);
    }
  }

  /** In every run the pings sent are those under way, queued, in service and being
      answered, and the pongs received. */
  lemma PingsConserved(run: seq<Action>, x: Delays)
    requires ValidRun(QUIET, run, x)
    ensures var n := After(QUIET, run, x);
      Sent(QUIET, run, x) == |n.pings| + n.queued + (if n.busy.Some? then 1 else 0) + |n.pongs| + Heeded(run)
  {
    RunCounts(QUIET, run, x);
  }

  /** Silence that is left until the client gives up. */
  function Left(c: Client): int { c.tv + KEEP_ALIVE_INTERVAL * SEC * (KEEP_ALIVE_PROBE_TIMES - c.beats) }

  predicate Bounded(n: Net, x: Delays) {
    && n.c.beats <= KEEP_ALIVE_PROBE_TIMES
    && (forall i :: 0 <= i < |n.pings| ==> n.pings[i] <= x.up)
    && (forall i :: 0 <= i < |n.pongs| ==> n.pongs[i] <= x.down)
    && (n.busy.Some? ==> n.busy.value <= x.nap)
  }

  /** Some pong is certain to arrive before the client gives up, whichever stage it
      is in; older pings in front of it only make it come sooner. */
  predicate Answered(n: Net, x: Delays) {
    var left := Left(n.c);
    || (exists i :: 0 <= i < |n.pongs| && n.pongs[i] < left)
    || (n.busy.Some? && n.busy.value + x.down < left)
    || (n.busy.None? && n.queued > 0 && x.nap + x.down < left)
    || (exists i :: 0 <= i < |n.pings| && n.pings[i] + x.nap + x.down < left)
  }

  predicate Alive(n: Net, x: Delays) {
    !n.dead && Bounded(n, x) && (n.c.beats >= 1 ==> Answered(n, x))
  }

  lemma ElapseAnswered(n: Net, d: nat, x: Delays)
    requires Enabled(n, Elapse(d)) && Answered(n, x)
    ensures Answered(Apply(n, Elapse(d), x), x)
  {
    var r := Apply(n, Elapse(d), x);
    if i :| 0 <= i < |n.pongs| && n.pongs[i] < Left(n.c) {
      assert r.pongs[i] < Left(r.c);
    } else if i :| 0 <= i < |n.pings| && n.pings[i] + x.nap + x.down < Left(n.c) {
      assert r.pings[i] + x.nap + x.down < Left(r.c);
    }
  }

  lemma MoveAnswered(n: Net, a: Action, x: Delays)
    requires Enabled(n, a) && (a.PingArrives? || a.ReadPing? || a.SendPong?)
    requires Bounded(n, x) && Answered(n, x)
    ensures Answered(Apply(n, a, x), x)
  {
    var r, left := Apply(n, a, x), Left(n.c);
    if i :| 0 <= i < |n.pongs| && n.pongs[i] < left {
      assert r.pongs[i] < left;
    } else if i :| 0 <= i < |n.pings| && n.pings[i] + x.nap + x.down < left {
      if !a.PingArrives? {
        assert r.pings[i] + x.nap + x.down < left;
      } else if i > 0 {
        assert r.pings[i - 1] + x.nap + x.down < left;
      }
    } else if a.SendPong? && n.busy.value + x.down < left {
      assert r.pongs[|n.pongs|] < left;
    }
  }

  lemma TimeoutAlive(n: Net, x: Delays)
    requires Alive(n, x) && Enabled(n, Timeout)
    requires x.up + x.nap + x.down < 9 * SEC
    ensures Alive(Apply(n, Timeout, x), x)
  {
    var r := Apply(n, Timeout, x);
    if n.c.beats == 0 {
      assert r.pings[|n.pings|] + x.nap + x.down < Left(r.c);
    } else {
      assert Left(n.c) == 3 * SEC * (3 - n.c.beats);
      if i :| 0 <= i < |n.pings| && n.pings[i] + x.nap + x.down < Left(n.c) {
        assert r.pings[i] == n.pings[i];
      }
      assert Left(r.c) == Left(n.c);
    }
  }

  lemma StepAlive(n: Net, a: Action, x: Delays)
    requires Alive(n, x) && Enabled(n, a) && x.up + x.nap + x.down < 9 * SEC
    ensures Alive(Apply(n, a, x), x)
  {
    match a
    case Elapse(d) => if n.c.beats >= 1 { ElapseAnswered(n, d, x); }
    case Timeout => TimeoutAlive(n, x);
    case PongsArrive(_) =>
    case _ => if n.c.beats >= 1 { MoveAnswered(n, a, x); }
  }

  lemma {:induction false} RunAlive(n: Net, run: seq<Action>, x: Delays)
    requires Alive(n, x) && ValidRun(n, run, x) && x.up + x.nap + x.down < 9 * SEC
    ensures Alive(After(n, run, x), x)
    decreases |run|
  {
    if run != [] {
      StepAlive(n, run[0], x);
      RunAlive(Apply(n, run[0], x), run[1..], x);
    }
  }

  // ---- and no bound above 9 seconds would do ----

  /** Nothing can reach the client before it gives up, if every delay is drawn out. */
  predicate Late(n: Net, x: Delays) {
    var left := Left(n.c);
    && !n.dead && Bounded(n, x) && 1 <= n.c.beats && left <= 9 * SEC
    && (forall i :: 0 <= i < |n.pongs| ==> n.pongs[i] >= left)
    && (n.busy.Some? ==> n.busy.value + x.down >= left)
    && (n.queued > 0 ==> x.nap + x.down >= left)
    && (forall i :: 0 <= i < |n.pings| ==> n.pings[i] + x.nap + x.down >= left)
    && (forall i, j :: 0 <= i < j < |n.pings| ==> n.pings[i] <= n.pings[j])
  }

  /** The next thing a dragging network does. */
  function Drag(n: Net): Action {
    if n.c.tv == 0 then Timeout
    else if n.pings != [] && n.pings[0] == 0 then PingArrives
    else if n.busy == Some(0) then SendPong
    else if n.busy.None? && n.queued > 0 then ReadPing
    else Elapse(1)
  }

  function Stages(n: Net): nat { 3 * |n.pings| + 2 * n.queued + if n.busy.Some? then 1 else 0 }

  /** The dragging network always has a move, and only finitely many before the
      timer runs down. */
  lemma DragMoves(n: Net, x: Delays)
    requires Late(n, x)
    ensures Enabled(n, Drag(n))
    ensures var r := Apply(n, Drag(n), x);
      || r.dead || r.c.beats > n.c.beats || (r.c.beats == n.c.beats && r.c.tv < n.c.tv)
      || (r.c == n.c && Stages(r) < Stages(n))
  {
  }

  lemma TimeoutStaysLate(n: Net, x: Delays)
    requires Late(n, x) && n.c.tv == 0 && x.up + x.nap + x.down >= 9 * SEC
    ensures var r := Apply(n, Timeout, x); r.dead || Late(r, x)
  {
    assert !GivesUp(n.c) ==> Left(Probe(n.c)) == Left(n.c);
  }

  lemma DragStaysLate(n: Net, x: Delays)
    requires Late(n, x) && Enabled(n, Drag(n)) && x.up + x.nap + x.down >= 9 * SEC
    ensures var r := Apply(n, Drag(n), x); r.dead || Late(r, x)
  {
    if n.c.tv == 0 { TimeoutStaysLate(n, x); }
  }

  lemma {:induction false} DragToDeath(n: Net, x: Delays) returns (run: seq<Action>)
    requires Late(n, x) && x.up + x.nap + x.down >= 9 * SEC
    ensures ValidRun(n, run, x) && After(n, run, x).dead
    decreases KEEP_ALIVE_PROBE_TIMES - n.c.beats, n.c.tv, Stages(n)
  {
    DragMoves(n, x);
    DragStaysLate(n, x);
    var a := Drag(n);
    var r := Apply(n, a, x);
    var rest: seq<Action> := [];
    if !r.dead { rest := DragToDeath(r, x); }
    run := [a] + rest;
    assert run[1..] == rest;
  }

  /** A run at the end of which the client has reported a dead connection. */
  predicate Kills(run: seq<Action>, x: Delays) { ValidRun(QUIET, run, x) && After(QUIET, run, x).dead }

  /** The client reports a dead connection in no run at all if and only if the
      server's sleep and the two latencies stay under 9 s together, whatever pings
      pile up in front of the serial server. */
  lemma NeverDeadExactly(x: Delays)
    ensures (forall run :: !Kills(run, x)) <==> x.up + x.nap + x.down < 9 * SEC
  {
    if x.up + x.nap + x.down < 9 * SEC {
      forall run ensures !Kills(run, x) {
        if ValidRun(QUIET, run, x) { RunAlive(QUIET, run, x); }
      }
    } else {
      var e := Elapse(10 * SEC);
      var n1 := Apply(QUIET, e, x);
      assert Enabled(n1, Timeout);
      var n2 := Apply(n1, Timeout, x);
      assert Late(n2, x);
      var rest := DragToDeath(n2, x);
      var run := [e] + ([Timeout] + rest);
      assert run[1..] == [Timeout] + rest && ([Timeout] + rest)[1..] == rest;
      assert ValidRun(n1, run[1..], x) && After(n1, run[1..], x) == After(n2, rest, x);
      assert ValidRun(QUIET, run, x) && After(QUIET, run, x) == After(n1, run[1..], x);
      assert Kills(run, x);
    }
  }
}
