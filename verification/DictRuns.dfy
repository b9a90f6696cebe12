/** Whole runs of the dictionary as it is written: exactly which calls do what a
    plain map would, and runs from an empty dictionary in which they do not. */
module DictRuns {
  import opened Common
  import opened Words
  import opened DictModel
  import opened DictTheorems
  import opened DictAsWritten

  /** What the code relies on to index its tables. */
  predicate Usable(s: State) {
    && (if Rehashing(s) then s.rehashidx >= 0 && |s.ht0.slots| > 0 && |s.ht1.slots| > 0 else s.ht1 == EMPTY_TABLE)
    && (|s.ht0.slots| == 0 ==> s.ht0.used == 0)
  }

  lemma ExpandUsable(s: State, size: nat)
    requires Usable(s)
    ensures Usable(Expand(s, size).0) && (Expand(s, size).1 ==> Searchable(Expand(s, size).0))
  {
    NextPowerLeast(size);
  }

  lemma {:induction false} LoopUsable(s: State, n: int, left: int)
    requires Usable(s) && Rehashing(s)
    ensures var r := LoopAsWritten(s, n, left); r.Some? ==> Usable(r.value)
    decreases |s.ht0.slots| - s.rehashidx
  {
    if n != 0 && s.ht0.used != 0 {
      match Scan(s.ht0.slots, s.rehashidx, left)
      case Exhausted(_) =>
      case Found(i, l) =>
        var u := MoveBucketAsWritten(s.(rehashidx := i));
        if u.Some? { LoopUsable(u.value, n - 1, l); }
    }
  }

  // ---- the operations as written ----

  /** dictAdd */
  function AddAsWritten(s: State, e: Entry): (r: (State, bool))
    requires Usable(s)
    ensures Usable(r.0)
  {
    var s1 := StepAsWritten(s);
    ExpandUsable(s1, INITIAL_SIZE);
    ExpandUsable(s1, s1.ht0.used * 2 % WORD64);
    var (s2, ok) := ExpandIfNeeded(s1);
    if ok then AddBody(s2, e) else (s2, false)
  }

  /** dictGet */
  function GetAsWritten(s: State, text: Text): (r: (State, Option<Entry>))
    requires Usable(s)
    ensures Usable(r.0)
  {
    if Size(s) == 0 then (s, None) else (StepAsWritten(s), FindBoth(StepAsWritten(s), text))
  }

  /** dictDel */
  function DelAsWritten(s: State, key: Key): (r: (State, Option<Entry>))
    requires Usable(s)
    ensures Usable(r.0)
  {
    if Size(s) == 0 then (s, None) else DelBodyAsWritten(StepAsWritten(s), key)
  }

  /** One call; None is a write outside the tables. */
  function ApplyAsWritten(s: State, op: Op): (r: Option<(State, Out)>)
    requires Usable(s)
    ensures r.Some? ==> Usable(r.value.0)
  {
    match op
    case OpAdd(k, v) => var (t, ok) := AddAsWritten(s, Entry(k, v)); Some((t, Added(ok)))
    case OpGet(text) => var (t, r) := GetAsWritten(s, text); Some((t, Got(r)))
    case OpDel(key) => var (t, r) := DelAsWritten(s, key); Some((t, Got(r)))
    case OpExpand(size) => ExpandUsable(s, size); Some((Expand(s, size).0, Quiet))
    case OpRehash(n) =>
      if !Rehashing(s) then Some((s, Quiet))
      else
        LoopUsable(s, n - 1, 10 * n);
        match RehashAsWritten(s, n)
        case None => None
        case Some(t) => Some((t, Quiet))
  }

  type Result = Option<(State, seq<Out>)>

  /** The rest of a run, behind what its beginning answered. */
  function Behind(outs: seq<Out>, r: Result): Result {
    if r.None? then None else Some((r.value.0, outs + r.value.1))
  }

  function RunAsWritten(s: State, ops: seq<Op>): (r: Result)
    requires Usable(s)
    ensures r.Some? ==> Usable(r.value.0)
    decreases |ops|
  {
    if ops == [] then Some((s, []))
    else
      match ApplyAsWritten(s, ops[0])
      case None => None
      case Some((t, o)) => Behind([o], RunAsWritten(t, ops[1..]))
  }

  // ---- exactly when a call does what was meant ----

  lemma InvUsable(s: State, m: Bindings)
    requires Inv(s, m)
    ensures Usable(s) && (Size(s) > 0 ==> Searchable(StepAsWritten(s)))
  {
  }

  /** Line 146: the automatic step moves nothing, but insertion is still correct. */
  lemma AddAsWrittenRight(s: State, m: Bindings, e: Entry)
    requires Inv(s, m) && Size(s) <= LONG_MAX
    ensures Usable(s)
    ensures var (t, ok) := AddAsWritten(s, e);
      && (ok <==> e.key.text !in m)
      && Inv(t, if ok then m[e.key.text := e] else m)
      && Size(t) == Size(s) + if ok then 1 else 0
  {
    var s1 := StepAsWritten(s);
    StepShape(s);
    GrowthSucceeds(s1);
    ExpandIfNeededKeeps(s1);
    AddBodyRight(ExpandIfNeeded(s1).0, m, e);
  }

  lemma GetAsWrittenRight(s: State, m: Bindings, text: Text)
    requires Inv(s, m)
    ensures Usable(s)
    ensures var (t, r) := GetAsWritten(s, text); r == Find(m, text) && Inv(t, m) && Size(t) == Size(s)
  {
    InvUsable(s, m);
    StepShape(s);
    if Size(s) == 0 { EmptyHoldsNothing(s, m, text); } else { FindBothRight(StepAsWritten(s), m, text); }
  }

  /** Lines 38, 62 and 87 as written: every insertion, and every lookup or deletion in a
      dictionary that is not empty, promotes a drained table 0; while table 0 holds
      entries, none of them moves the cursor. */
  lemma CallsPromote(s: State, m: Bindings, op: Op)
    requires Inv(s, m) && Rehashing(s) && Basic(op) && (op.OpAdd? || Size(s) > 0) && Size(s) <= LONG_MAX
    ensures Usable(s) && ApplyAsWritten(s, op).Some?
    ensures var t := ApplyAsWritten(s, op).value.0;
      if s.ht0.used == 0 then Promoted(s, t) && (!op.OpAdd? ==> !Rehashing(t))
      else t.rehashidx == s.rehashidx && |t.ht0.slots| == |s.ht0.slots| && |t.ht1.slots| == |s.ht1.slots|
    ensures op.OpGet? && s.ht0.used > 0 ==> ApplyAsWritten(s, op).value.0 == s
  {
    InvUsable(s, m);
    var r := StepAsWritten(s);
    StepShape(s);
    match op {
      case OpAdd(k, v) => AddKeepsCursor(r, Entry(k, v));
      case OpGet(_) =>
      case OpDel(key) => DelKeepsCursor(r, key);
    }
  }

  lemma AddKeepsCursor(r: State, e: Entry)
    requires Shape(r, false)
    ensures var (t, ok) := ExpandIfNeeded(r);
      && (ok ==> Searchable(t))
      && var u := if ok then AddBody(t, e).0 else t;
         if Rehashing(r) then
           u.rehashidx == r.rehashidx && |u.ht0.slots| == |r.ht0.slots| && |u.ht1.slots| == |r.ht1.slots|
         else
           (r.ht0.slots != [] ==> |u.ht0.slots| == |r.ht0.slots|) && (!Rehashing(u) || u.rehashidx == 0)
  {
    ExpandIfNeededKeeps(r);
    var (t, ok) := ExpandIfNeeded(r);
    if ok { BodiesKeepCursor(t, e, e.key.text); }
  }

  lemma DelKeepsCursor(s: State, key: Key)
    requires Searchable(s)
    ensures var t := DelBodyAsWritten(s, key).0;
      && t.rehashidx == s.rehashidx && |t.ht0.slots| == |s.ht0.slots| && |t.ht1.slots| == |s.ht1.slots|
      && t.ht0.used <= s.ht0.used && t.ht1.used <= s.ht1.used
  {
  }

  /** A drained table 0 has no chain for prevEntry to come from. */
  lemma StepKeepsStale(s: State, key: Key)
    requires Shape(s, false)
    ensures StalePrev(StepAsWritten(s), key) <==> StalePrev(s, key)
    ensures StalePrev(s, key) ==> StepAsWritten(s) == s
  {
    if Rehashing(s) && s.ht0.used == 0 { PromoteExactly(s); }
  }

  lemma EmptyNotStale(s: State, key: Key)
    requires Shape(s, false) && Size(s) == 0
    ensures !StalePrev(s, key)
  {
    if StalePrev(s, key) {
      var i1 := Slot(s.hash, key.text, |s.ht1.slots|);
      ItemsIn(s.ht1.slots, s.ht1.slots[i1][0]);
    }
  }

  /** The entry that a stale deletion hands out still hangs in table 1. */
  lemma StaleKeepsEntry(s: State, m: Bindings, key: Key)
    requires Inv(s, m) && Searchable(s) && StalePrev(s, key) && key.text in m && m[key.text].key == key
    ensures var (t, r) := DelBodyAsWritten(s, key); r == Some(m[key.text]) && !Inv(t, m - {key.text})
  {
    var i1 := Slot(s.hash, key.text, |s.ht1.slots|);
    var t := DelBodyAsWritten(s, key).0;
    var e := s.ht1.slots[i1][0];
    assert e in s.ht1.slots[i1];
    ItemsIn(s.ht1.slots, e);
    Bound(All(s), m, e);
    if Inv(t, m - {key.text}) { Bound(All(t), m - {key.text}, e); }
  }

  lemma {:induction false} FindInBoth(a: Chain, b: Chain, text: Text)
    ensures FindIn(a + b, text) == if FindIn(a, text).Some? then FindIn(a, text) else FindIn(b, text)
  {
    if a == [] {
      AppendNone(b);
    } else {
      assert (a + b)[1..] == a[1..] + b;
      FindInBoth(a[1..], b, text);
    }
  }

  /** The key at the head of a chain of table 1 does not come again behind it. */
  lemma HeadAlone(s: State, m: Bindings, i: nat)
    requires Represents(All(s), m) && i < |s.ht1.slots| && s.ht1.slots[i] != []
    ensures FindIn(s.ht1.slots[i][1..], s.ht1.slots[i][0].key.text).None?
  {
    var c := s.ht1.slots[i];
    var r := FindIn(c[1..], c[0].key.text);
    FindInRight(c[1..], c[0].key.text);
    if r.Some? {
      var j :| 0 <= j < |c[1..]| && c[1..][j] == r.value;
      assert multiset(c) <= Items(s.ht1.slots) by { ItemsUpdate(s.ht1.slots, i, []); }
      assert c[j + 1] == r.value && c[0] in multiset(c) && c[j + 1] in multiset(c);
      SameText(s, m, c[0], c[j + 1]);
      Twice(c, 0, j + 1);
    }
  }

  /** What a stale deletion leaves: the chain of table 0 runs on into the rest of that
      of table 1, and nothing else moves. */
  lemma StaleResult(s: State, m: Bindings, key: Key, i0: nat, i1: nat)
    requires Inv(s, m) && StalePrev(s, key)
    requires i0 == Slot(s.hash, key.text, |s.ht0.slots|) && i1 == Slot(s.hash, key.text, |s.ht1.slots|)
    ensures Searchable(s) && DelBodyAsWritten(s, key) ==
      (s.(ht0 := s.ht0.(slots := s.ht0.slots[i0 := s.ht0.slots[i0] + s.ht1.slots[i1][1..]]),
          ht1 := s.ht1.(used := OneLess(s.ht1.used))), Some(s.ht1.slots[i1][0]))
    ensures s.ht0.used > 0
  {
    ItemsIn(s.ht0.slots, s.ht0.slots[i0][0]);
  }

  /** Lines 83 and 104, in every state in which prevEntry is stale and the caller holds
      the stored pointer: dictDel hands the entry out, and dictGet still finds it. */
  lemma StaleStillFound(s: State, m: Bindings, key: Key)
    requires Inv(s, m) && StalePrev(s, key) && key.text in m && m[key.text].key == key
    ensures Usable(s)
    ensures var (t, r) := DelAsWritten(s, key);
      r == Some(m[key.text]) && GetAsWritten(t, key.text).1 == Some(m[key.text])
  {
    InvUsable(s, m);
    if Size(s) == 0 { EmptyNotStale(s, key); }
    StepKeepsStale(s, key);
    var i0, i1 := Slot(s.hash, key.text, |s.ht0.slots|), Slot(s.hash, key.text, |s.ht1.slots|);
    var c0, c1 := s.ht0.slots[i0], s.ht1.slots[i1];
    StaleResult(s, m, key, i0, i1);
    assert c1[0] == m[key.text] by { StaleKeepsEntry(s, m, key); }
    assert FindIn(c0 + c1[1..], key.text).None? by {
      SearchesAgree(s, m, key, s.ht0.slots, m[key.text]);
      HeadAlone(s, m, i1);
      FindInBoth(c0, c1[1..], key.text);
    }
  }

  /** Lines 95, 83 and 104: dictDel answers and removes what the map says if and
      only if the key is absent, or the caller holds the very pointer that was
      stored and the key does not head its chain in table 1 behind a chain of
      table 0. */
  lemma DelAsWrittenExact(s: State, m: Bindings, key: Key)
    requires Inv(s, m)
    ensures Usable(s)
    ensures var (t, r) := DelAsWritten(s, key);
      && (r == Find(m, key.text) && Inv(t, m - {key.text}) <==>
          (key.text !in m || (m[key.text].key == key && !StalePrev(s, key))))
      && (r == Find(m, key.text) && Inv(t, m - {key.text}) ==> Size(t) <= Size(s))
  {
    InvUsable(s, m);
    StepShape(s);
    StepKeepsStale(s, key);
    if Size(s) == 0 {
      EmptyHoldsNothing(s, m, key.text);
      assert m - {key.text} == m;
    } else {
      var s1 := StepAsWritten(s);
      DelBodyExact(s1, m, key);
      DelBodyRight(s1, m, key.text);
      if key.text in m && m[key.text].key != key {
        OtherPointerFindsNothing(s1, m, key);
      } else if key.text in m && StalePrev(s1, key) {
        StaleKeepsEntry(s1, m, key);
      }
    }
  }

  /** What a caller can check before the call. */
  ghost predicate Meets(s: State, m: Bindings, op: Op)
    requires Usable(s)
  {
    match op
    case OpDel(key) => key.text !in m || (m[key.text].key == key && !StalePrev(s, key))
    case OpRehash(n) => Rehashing(s) ==> AllSurvive(s, StopOf(s, n))
    case _ => true
  }

  ghost predicate AsMeant(r: Option<(State, Out)>, m: Bindings, op: Op) {
    r.Some? && r.value.1 == MapApply(m, op).1 && Inv(r.value.0, MapApply(m, op).0)
  }

  /** Every call, as written, does what the map does if and only if it meets its
      condition. */
  lemma ApplyExact(s: State, m: Bindings, op: Op)
    requires Inv(s, m) && Size(s) <= LONG_MAX
    ensures Usable(s) && (AsMeant(ApplyAsWritten(s, op), m, op) <==> Meets(s, m, op))
    ensures Meets(s, m, op) ==> Size(ApplyAsWritten(s, op).value.0) <= Size(s) + 1
  {
    InvUsable(s, m);
    match op {
      case OpAdd(k, v) => AddAsWrittenRight(s, m, Entry(k, v));
      case OpGet(text) => GetAsWrittenRight(s, m, text);
      case OpDel(key) => DelAsWrittenExact(s, m, key);
      case OpExpand(size) => ExpandKeeps(s, size);
      case OpRehash(n) =>
        if Rehashing(s) {
          RehashAsWrittenExact(s, m, n);
          RehashSize(s, n);
        }
    }
  }

  lemma RehashSize(s: State, n: int)
    requires Shape(s, false) && Rehashing(s)
    ensures var r := RehashAsWritten(s, n);
      r.Some? && Shape(r.value, false) && All(r.value) == All(s) ==> Size(r.value) == Size(s)
  {
    var r := RehashAsWritten(s, n);
    if r.Some? && Shape(r.value, false) && All(r.value) == All(s) {
      var t := r.value;
      assert |All(t)| == t.ht0.used + |Items(t.ht1.slots)|;
      assert |All(s)| == s.ht0.used + |Items(s.ht1.slots)|;
      assert Items([]) == multiset{};
    }
  }

  /** Every call of the run meets its condition at its turn. */
  ghost predicate AllMeet(s: State, m: Bindings, ops: seq<Op>)
    requires Usable(s)
    decreases |ops|
  {
    ops == [] ||
    (&& Meets(s, m, ops[0]) && ApplyAsWritten(s, ops[0]).Some?
     && AllMeet(ApplyAsWritten(s, ops[0]).value.0, MapApply(m, ops[0]).0, ops[1..]))
  }

  /** Then the dictionary as written answers as one map. */
  lemma {:induction false} RunAsMeant(s: State, m: Bindings, ops: seq<Op>)
    requires Inv(s, m) && Size(s) + |ops| <= LONG_MAX + 1
    requires Usable(s) && AllMeet(s, m, ops)
    ensures var r := RunAsWritten(s, ops);
      r.Some? && r.value.1 == MapRun(m, ops).1 && Inv(r.value.0, MapRun(m, ops).0)
    decreases |ops|
  {
    if ops != [] {
      ApplyExact(s, m, ops[0]);
      RunAsMeant(ApplyAsWritten(s, ops[0]).value.0, MapApply(m, ops[0]).0, ops[1..]);
    }
  }

  /** Every call of the run does, at its turn, what the map does. */
  ghost predicate EachAsMeant(s: State, m: Bindings, ops: seq<Op>)
    requires Usable(s)
    decreases |ops|
  {
    ops == [] ||
    (&& AsMeant(ApplyAsWritten(s, ops[0]), m, ops[0])
     && EachAsMeant(ApplyAsWritten(s, ops[0]).value.0, MapApply(m, ops[0]).0, ops[1..]))
  }

  /** A run goes as meant, call by call, if and only if every call meets its condition. */
  lemma {:induction false} RunExact(s: State, m: Bindings, ops: seq<Op>)
    requires Inv(s, m) && Size(s) + |ops| <= LONG_MAX + 1
    ensures Usable(s) && (EachAsMeant(s, m, ops) <==> AllMeet(s, m, ops))
    decreases |ops|
  {
    InvUsable(s, m);
    if ops != [] {
      ApplyExact(s, m, ops[0]);
      if Meets(s, m, ops[0]) {
        RunExact(ApplyAsWritten(s, ops[0]).value.0, MapApply(m, ops[0]).0, ops[1..]);
      }
    }
  }

  // ---- line 146 over whole runs: the pacing that ends ----

  predicate AddsAndGets(ops: seq<Op>) { forall op :: op in ops ==> op.OpAdd? || op.OpGet? }

  /** The tables after insertions of k different keys into an empty dictionary, with
      any lookups and repeated insertions in between: the migration that begins
      with the fifth key, or with a repeated one before it, never moves. */
  ghost predicate Stage(s: State, k: nat) {
    if k == 0 then s == Create(s.hash)
    else if !Rehashing(s) then k <= 4 && |s.ht0.slots| == 4 && s.ht0.used == k && s.ht1 == EMPTY_TABLE
    else
      && k >= 4 && s.rehashidx == 0 && |s.ht0.slots| == 4 && s.ht0.used == 4
      && |s.ht1.slots| == 8 && s.ht1.used == k - 4
  }

  /** The growth test, before key k + 1 is linked. */
  lemma StageExpand(s: State, k: nat)
    requires Stage(s, k)
    ensures StepAsWritten(s) == s
    ensures var (t, ok) := ExpandIfNeeded(s);
      && ok && t.hash == s.hash && |t.ht0.slots| == 4
      && (if Rehashing(t) then
            k >= 4 && t.rehashidx == 0 && t.ht0.used == 4 && |t.ht1.slots| == 8 && t.ht1.used == k - 4
          else k < 4 && t.ht0.used == k && t.ht1 == EMPTY_TABLE)
      && (k == 4 ==> t.ht0 == s.ht0)
  {
    assert NextPower(4) == 4 && NextPower(8) == 8;
  }

  lemma StageAdd(s: State, m: Bindings, k: nat, e: Entry)
    requires Inv(s, m) && Stage(s, k) && k <= LONG_MAX
    ensures Usable(s) && Size(s) == k
    ensures Stage(AddAsWritten(s, e).0, if e.key.text in m then k else k + 1)
  {
    InvUsable(s, m);
    StageExpand(s, k);
    var t := ExpandIfNeeded(s).0;
    assert Inv(t, m) by { ExpandIfNeededKeeps(s); }
    FindBothRight(t, m, e.key.text);
    if e.key.text in m {
      if k == 0 { EmptyHoldsNothing(s, m, e.key.text); }
    }
  }

  /** One insertion or lookup. */
  lemma StageCall(s: State, m: Bindings, op: Op)
    requires Inv(s, m) && Stage(s, |m|) && |m| <= LONG_MAX && (op.OpAdd? || op.OpGet?)
    ensures Usable(s) && AsMeant(ApplyAsWritten(s, op), m, op)
    ensures var (t, n) := (ApplyAsWritten(s, op).value.0, MapApply(m, op).0);
      Stage(t, |n|) && |n| <= |m| + 1 && t.hash == s.hash
  {
    InvUsable(s, m);
    if op.OpAdd? {
      StageCallAdd(s, m, Entry(op.key, op.val));
    } else {
      StageCallGet(s, m, op.text);
    }
  }

  lemma StageCallAdd(s: State, m: Bindings, e: Entry)
    requires Inv(s, m) && Stage(s, |m|) && |m| <= LONG_MAX
    ensures Usable(s)
    ensures var (t, ok) := AddAsWritten(s, e);
      var n := if ok then m[e.key.text := e] else m;
      && (ok <==> e.key.text !in m) && Inv(t, n) && Stage(t, |n|) && t.hash == s.hash
  {
    var (t, ok) := AddAsWritten(s, e);
    assert Size(s) == |m| && Stage(t, if e.key.text in m then |m| else |m| + 1) by { StageAdd(s, m, |m|, e); }
    assert (ok <==> e.key.text !in m) && Inv(t, if ok then m[e.key.text := e] else m) by {
      AddAsWrittenRight(s, m, e);
    }
    assert t.hash == s.hash by { StageExpand(s, |m|); }
  }

  lemma StageCallGet(s: State, m: Bindings, text: Text)
    requires Inv(s, m) && Stage(s, |m|)
    ensures Usable(s) && GetAsWritten(s, text) == (s, Find(m, text))
  {
    InvUsable(s, m);
    assert GetAsWritten(s, text).1 == Find(m, text) by { GetAsWrittenRight(s, m, text); }
    assert StepAsWritten(s) == s by { StageExpand(s, |m|); }
  }

  lemma {:induction false} StagesReached(s: State, m: Bindings, ops: seq<Op>)
    requires Inv(s, m) && Stage(s, |m|) && |m| + |ops| <= LONG_MAX + 1 && AddsAndGets(ops)
    ensures Usable(s) && RunAsWritten(s, ops).Some?
    ensures var (t, outs) := RunAsWritten(s, ops).value;
      var n := MapRun(m, ops).0;
      outs == MapRun(m, ops).1 && t.hash == s.hash && Inv(t, n) && Stage(t, |n|)
    decreases |ops|
  {
    InvUsable(s, m);
    if ops != [] {
      assert ops[0] in ops;
      StageCall(s, m, ops[0]);
      StagesReached(ApplyAsWritten(s, ops[0]).value.0, MapApply(m, ops[0]).0, ops[1..]);
    }
  }

  lemma StageLoad(s: State, k: nat)
    requires Stage(s, k)
    ensures Size(s) == k
    ensures Capacity(s) == if k == 0 then 0 else if Rehashing(s) then 8 else 4
    ensures Paced(s, 0) <==> k <= 5
    ensures Size(s) <= Capacity(s) <==> k <= 8
  {
  }

  /** Line 146, over runs of insertions and lookups, repeated keys included: the
      answers are those of a map, but the table stays at 8 slots, so that of the two
      bounds of LoadNeverExceedsOne one holds exactly up to 5 different keys and the
      other exactly up to 8. */
  lemma LoadAsWritten(h: HashFn, ops: seq<Op>)
    requires AddsAndGets(ops) && |ops| <= LONG_MAX
    ensures var r, m := RunAsWritten(Create(h), ops), MapRun(map[], ops).0;
      && r.Some? && r.value.1 == MapRun(map[], ops).1 && Inv(r.value.0, m)
      && var s := r.value.0;
         && Size(s) == |m| && Capacity(s) <= 8
         && (Rehashing(s) ==> s.rehashidx == 0)
         && (Paced(s, 0) <==> |m| <= 5)
         && (Size(s) <= Capacity(s) <==> |m| <= 8)
  {
    CreateInv(h);
    StagesReached(Create(h), map[], ops);
    StageLoad(RunAsWritten(Create(h), ops).value.0, |MapRun(map[], ops).0|);
  }

  // ---- lines 146 and 160 over repeated calls: the migrations that end ----

  function Calls(n: int, k: nat): seq<Op> { seq(k, _ => OpRehash(n)) }

  /** k calls of dictRehash(d, n) in a row end the migration. */
  ghost predicate Ended(s: State, n: int, k: nat)
    requires Usable(s)
  {
    var r := RunAsWritten(s, Calls(n, k)); r.Some? && !Rehashing(r.value.0)
  }

  lemma CallsFirst(s: State, n: int, k: nat)
    requires Usable(s) && k > 0
    ensures var r := ApplyAsWritten(s, OpRehash(n)); Ended(s, n, k) <==> r.Some? && Ended(r.value.0, n, k - 1)
  {
    assert Calls(n, k)[0] == OpRehash(n) && Calls(n, k)[1..] == Calls(n, k - 1);
  }

  /** As many calls as table 0 has slots left end a growing migration. */
  lemma {:induction false} GrowingEnds(s: State, m: Bindings, n: int, k: nat)
    requires Usable(s) && (Rehashing(s) ==> Loose(s, false)) && Represents(All(s), m) && n != 1
    requires Rehashing(s) ==> k >= |s.ht0.slots| - s.rehashidx
    ensures Ended(s, n, k)
    decreases k
  {
    if k > 0 {
      if Rehashing(s) { LooseAdvances(s, m, n); }
      var t := ApplyAsWritten(s, OpRehash(n)).value.0;
      CallsFirst(s, n, k);
      GrowingEnds(t, m, n, k - 1);
    }
  }

  lemma {:induction false} IdleForEver(s: State, k: nat)
    requires Usable(s) && Rehashing(s) && s.ht0.used > 0
    ensures !Ended(s, 1, k)
  {
    if k > 0 {
      assert RehashAsWritten(s, 1) == Some(s);
      CallsFirst(s, 1, k);
      IdleForEver(s, k - 1);
    }
  }

  /** A call of a shrinking migration leaves the tables as they are, or writes outside
      the new one. */
  lemma ShrinkingStays(s: State, m: Bindings, n: int)
    requires Inv(s, m) && Rehashing(s) && |s.ht1.slots| < |s.ht0.slots| && s.ht0.used > 0
    ensures var r := RehashAsWritten(s, n);
      r.Some? ==> r.value == s.(rehashidx := r.value.rehashidx) && r.value.rehashidx >= 0 && Inv(r.value, m)
  {
    ShrinkingExact(s, m, n);
    if n != 1 {
      ScanForward(s.ht0.slots, s.rehashidx, 10 * n);
      match Scan(s.ht0.slots, s.rehashidx, 10 * n)
      case Exhausted(_) =>
      case Found(j, l) => ShrinkingFound(s, m, n - 1, 10 * n, j, l);
    } else {
      assert RehashAsWritten(s, n) == Some(s);
    }
  }

  lemma ScanForward(slots: seq<Chain>, i: nat, left: int)
    ensures Scan(slots, i, left).at >= i
  {
  }

  lemma {:induction false} ShrinkingNeverEnds(s: State, m: Bindings, n: int, k: nat)
    requires Usable(s) && Inv(s, m) && Rehashing(s) && |s.ht1.slots| < |s.ht0.slots| && s.ht0.used > 0
    ensures !Ended(s, n, k)
    decreases k
  {
    if k > 0 {
      CallsFirst(s, n, k);
      ShrinkingStays(s, m, n);
      var r := RehashAsWritten(s, n);
      if r.Some? { ShrinkingNeverEnds(r.value, m, n, k - 1); }
    }
  }

  /** Line 146, for every migration and every n: repeated calls of dictRehash(d, n) end
      it if and only if table 0 is drained, or n is not 1 and the new table is not the
      smaller one; then at most as many are needed as table 0 has slots left. */
  lemma EndsExactly(s: State, m: Bindings, n: int)
    requires Inv(s, m) && Rehashing(s)
    ensures Usable(s)
    ensures (exists k :: Ended(s, n, k)) <==> (s.ht0.used == 0 || (n != 1 && |s.ht0.slots| <= |s.ht1.slots|))
    ensures (exists k :: Ended(s, n, k)) ==> Ended(s, n, |s.ht0.slots| - s.rehashidx)
  {
    InvUsable(s, m);
    var k := |s.ht0.slots| - s.rehashidx;
    if s.ht0.used == 0 {
      StepShape(s);
      assert RehashAsWritten(s, n) == Some(Promote(s));
      CallsFirst(s, n, k);
      StaysEnded(Promote(s), n, k - 1);
    } else if |s.ht1.slots| < |s.ht0.slots| {
      forall j: nat ensures !Ended(s, n, j) { ShrinkingNeverEnds(s, m, n, j); }
    } else if n != 1 {
      GrowingIsLoose(s, m);
      GrowingEnds(s, m, n, k);
    } else {
      forall j: nat ensures !Ended(s, n, j) { IdleForEver(s, j); }
    }
  }

  lemma {:induction false} StaysEnded(s: State, n: int, k: nat)
    requires Usable(s) && !Rehashing(s)
    ensures Ended(s, n, k)
  {
    if k > 0 {
      CallsFirst(s, n, k);
      StaysEnded(s, n, k - 1);
    }
  }

  // ---- runs that fail ----

  lemma BehindBoth(o: seq<Out>, q: seq<Out>, r: Result)
    ensures Behind(o, Behind(q, r)) == Behind(o + q, r)
  {
    if r.Some? { assert o + (q + r.value.1) == o + q + r.value.1; }
  }

  lemma {:induction false} RunAppend(s: State, a: seq<Op>, b: seq<Op>)
    requires Usable(s) && RunAsWritten(s, a).Some?
    ensures var (t, outs) := RunAsWritten(s, a).value;
      RunAsWritten(s, a + b) == Behind(outs, RunAsWritten(t, b))
    decreases |a|
  {
    var (t, outs) := RunAsWritten(s, a).value;
    if a == [] {
      assert a + b == b;
      var r := RunAsWritten(s, b);
      assert Behind([], r) == r by { if r.Some? { assert [] + r.value.1 == r.value.1; } }
    } else {
      var (u, o) := ApplyAsWritten(s, a[0]).value;
      assert (a + b)[0] == a[0] && (a + b)[1..] == a[1..] + b;
      RunAppend(u, a[1..], b);
      BehindBoth([o], RunAsWritten(u, a[1..]).value.1, RunAsWritten(t, b));
    }
  }

  /** One more call. */
  lemma RunLast(s: State, ops: seq<Op>, op: Op, t: State, outs: seq<Out>)
    requires Usable(s) && RunAsWritten(s, ops) == Some((t, outs))
    ensures var a := ApplyAsWritten(t, op);
      RunAsWritten(s, ops + [op]) == if a.None? then None else Some((a.value.0, outs + [a.value.1]))
  {
    RunAppend(s, ops, [op]);
    var a := ApplyAsWritten(t, op);
    assert [op][1..] == [];
    if a.Some? {
      var r := RunAsWritten(a.value.0, []);
      assert RunAsWritten(t, [op]) == Behind([a.value.1], r) && [a.value.1] + [] == [a.value.1];
    }
  }

  lemma {:induction false} MapLast(m: Bindings, ops: seq<Op>, op: Op)
    ensures var (n, outs) := MapRun(m, ops);
      MapRun(m, ops + [op]) == (MapApply(n, op).0, outs + [MapApply(n, op).1])
    decreases |ops|
  {
    if ops == [] {
      var (n, o) := MapApply(m, op);
      assert ops + [op] == [op] && [op][1..] == [] && MapRun(n, []) == (n, []) && [o] + [] == [o] == [] + [o];
    } else {
      assert (ops + [op])[0] == ops[0] && (ops + [op])[1..] == ops[1..] + [op];
      var (k, o) := MapApply(m, ops[0]);
      var (n, outs) := MapRun(k, ops[1..]);
      MapLast(k, ops[1..], op);
      assert [o] + (outs + [MapApply(n, op).1]) == [o] + outs + [MapApply(n, op).1];
    }
  }

  /** From an empty dictionary: the run answers like a map so far. */
  ghost predicate Follows(h: HashFn, ops: seq<Op>, s: State, m: Bindings) {
    && Inv(s, m) && RunAsWritten(Create(h), ops) == Some((s, MapRun(map[], ops).1))
    && m == MapRun(map[], ops).0
  }

  lemma FollowsNone(h: HashFn)
    ensures Follows(h, [], Create(h), map[])
  {
    CreateInv(h);
  }

  /** One more call that does what it should. */
  lemma FollowsOne(h: HashFn, ops: seq<Op>, s: State, m: Bindings, op: Op)
    requires Follows(h, ops, s, m) && Usable(s) && AsMeant(ApplyAsWritten(s, op), m, op)
    ensures Follows(h, ops + [op], ApplyAsWritten(s, op).value.0, MapApply(m, op).0)
  {
    RunLast(Create(h), ops, op, s, MapRun(map[], ops).1);
    MapLast(map[], ops, op);
  }

  lemma FollowsExpand(h: HashFn, ops: seq<Op>, s: State, m: Bindings, size: nat)
    requires Follows(h, ops, s, m)
    ensures Follows(h, ops + [OpExpand(size)], Expand(s, size).0, m)
  {
    InvUsable(s, m);
    ExpandKeeps(s, size);
    FollowsOne(h, ops, s, m, OpExpand(size));
  }

  lemma FollowsAdd(h: HashFn, ops: seq<Op>, s: State, m: Bindings, e: Entry)
    requires Follows(h, ops, s, m) && Size(s) <= LONG_MAX && e.key.text !in m
    ensures Usable(s) && Follows(h, ops + [OpAdd(e.key, e.val)], AddAsWritten(s, e).0, m[e.key.text := e])
  {
    InvUsable(s, m);
    AddAsWrittenRight(s, m, e);
    FollowsOne(h, ops, s, m, OpAdd(e.key, e.val));
  }

  /** The run answers like a map up to its last call, which fails. */
  ghost predicate FailsAt(h: HashFn, ops: seq<Op>, op: Op, got: Option<Entry>, meant: Option<Entry>) {
    && (exists s :: RunAsWritten(Create(h), ops + [op]) == Some((s, MapRun(map[], ops).1 + [Got(got)])))
    && MapRun(map[], ops + [op]).1 == MapRun(map[], ops).1 + [Got(meant)]
    && got != meant
  }

  lemma Fails(h: HashFn, ops: seq<Op>, op: Op, s: State, m: Bindings, got: Option<Entry>, meant: Option<Entry>)
    requires RunAsWritten(Create(h), ops) == Some((s, MapRun(map[], ops).1)) && m == MapRun(map[], ops).0 && Usable(s)
    requires ApplyAsWritten(s, op).Some? && ApplyAsWritten(s, op).value.1 == Got(got)
    requires MapApply(m, op).1 == Got(meant) && got != meant
    ensures FailsAt(h, ops, op, got, meant)
  {
    RunLast(Create(h), ops, op, s, MapRun(map[], ops).1);
    MapLast(map[], ops, op);
  }

  /** Line 95: deleting with the same text at another address finds nothing. */
  lemma OtherPointer(h: HashFn, key: Key, other: Key, val: int)
    requires key.text == other.text && key != other
    ensures FailsAt(h, [OpAdd(key, val)], OpDel(other), None, Some(Entry(key, val)))
  {
    var e, add, del := Entry(key, val), OpAdd(key, val), OpDel(other);
    var s := Create(h);
    FollowsNone(h);
    StageCall(s, map[], add);
    FollowsOne(h, [], s, map[], add);
    assert [] + [add] == [add];
    var t := ApplyAsWritten(s, add).value.0;
    var m := MapApply(map[], add).0;
    InvUsable(t, m);
    StageExpand(t, 1);
    OtherPointerFindsNothing(t, m, other);
    Fails(h, [add], del, t, m, None, Some(e));
  }

  // ---- line 160 in runs ----

  /** A table whose one entry e hangs in slot b. */
  predicate OnlyEntry(slots: seq<Chain>, b: nat, e: Entry) {
    b < |slots| && slots[b] == [e] && forall i :: 0 <= i < |slots| && i != b ==> slots[i] == []
  }

  lemma {:induction false} ScanToOnly(slots: seq<Chain>, b: nat, e: Entry, i: nat, left: int)
    requires OnlyEntry(slots, b, e) && i <= b && b - i < left
    ensures Scan(slots, i, left) == Found(b, left - (b - i))
    decreases b - i
  {
    if i < b { ScanToOnly(slots, b, e, i + 1, left - 1); }
  }

  lemma FirstKey(r: State, e: Entry) returns (s: State)
    requires Inv(r, map[]) && r == State(r.hash, FreshTable(|r.ht0.slots|), EMPTY_TABLE, -1) && |r.ht0.slots| > 0
    ensures Inv(s, map[e.key.text := e]) && OnlyEntry(s.ht0.slots, Slot(r.hash, e.key.text, |r.ht0.slots|), e)
    ensures Usable(r) && AddAsWritten(r, e) == (s, true)
    ensures s == State(r.hash, Table(s.ht0.slots, 1), EMPTY_TABLE, -1) && |s.ht0.slots| == |r.ht0.slots|
  {
    s := AddAsWritten(r, e).0;
    assert ExpandIfNeeded(r) == (r, true);
    assert AddAsWritten(r, e).1 && Inv(s, map[e.key.text := e]) by {
      var m: Bindings := map[];
      AddAsWrittenRight(r, m, e);
      assert m[e.key.text := e] == map[e.key.text := e];
    }
  }

  /** A dictionary with one entry, in a first table of n slots, that begins to
      migrate to a table of another size. */
  lemma OneEntry(h: HashFn, n: nat, e: Entry, size: nat) returns (s: State, t: State)
    requires n in {4, 8} && NextPower(size) != n
    ensures var b := Slot(h, e.key.text, n);
      && Inv(s, map[e.key.text := e]) && Inv(t, map[e.key.text := e])
      && s == State(h, Table(s.ht0.slots, 1), EMPTY_TABLE, -1) && |s.ht0.slots| == n && OnlyEntry(s.ht0.slots, b, e)
      && t == State(h, s.ht0, FreshTable(NextPower(size)), 0) && Expand(s, size) == (t, true)
    ensures var r := Expand(Create(h), n).0; Usable(r) && Size(r) == 0 && AddAsWritten(r, e) == (s, true)
  {
    assert NextPower(4) == 4 && NextPower(8) == 8;
    var r := State(h, FreshTable(n), EMPTY_TABLE, -1);
    assert Expand(Create(h), n) == (r, true);
    assert Inv(r, map[]) by {
      CreateInv(h);
      ExpandKeeps(Create(h), n);
    }
    s := FirstKey(r, e);
    t := Expand(s, size).0;
    assert Inv(t, map[e.key.text := e]) by { ExpandKeeps(s, size); }
  }

  function Begin(n: nat, e: Entry, size: nat): seq<Op> { [OpExpand(n), OpAdd(e.key, e.val), OpExpand(size)] }

  lemma FirstFollows(h: HashFn, n: nat, r: State)
    requires Expand(Create(h), n).0 == r
    ensures Follows(h, [OpExpand(n)], r, map[])
  {
    FollowsNone(h);
    FollowsExpand(h, [], Create(h), map[], n);
    assert [] + [OpExpand(n)] == [OpExpand(n)];
  }

  lemma SecondFollows(h: HashFn, n: nat, r: State, e: Entry, s: State)
    requires Expand(Create(h), n).0 == r && Usable(r) && Size(r) == 0 && AddAsWritten(r, e).0 == s
    ensures Follows(h, [OpExpand(n), OpAdd(e.key, e.val)], s, map[e.key.text := e])
  {
    FirstFollows(h, n, r);
    var m: Bindings := map[];
    FollowsAdd(h, [OpExpand(n)], r, m, e);
    assert m[e.key.text := e] == map[e.key.text := e];
    assert [OpExpand(n)] + [OpAdd(e.key, e.val)] == [OpExpand(n), OpAdd(e.key, e.val)];
  }

  lemma BeginFollows(h: HashFn, n: nat, e: Entry, size: nat) returns (t: State)
    requires n in {4, 8} && NextPower(size) != n
    ensures var b := Slot(h, e.key.text, n);
      && Follows(h, Begin(n, e, size), t, map[e.key.text := e]) && OnlyEntry(t.ht0.slots, b, e) && |t.ht0.slots| == n
      && t == State(h, Table(t.ht0.slots, 1), FreshTable(NextPower(size)), 0)
  {
    var s;
    s, t := OneEntry(h, n, e, size);
    var two, c := [OpExpand(n), OpAdd(e.key, e.val)], OpExpand(size);
    assert two + [c] == Begin(n, e, size);
    assert Follows(h, two + [c], t, map[e.key.text := e]) by {
      SecondFollows(h, n, Expand(Create(h), n).0, e, s);
      FollowsExpand(h, two, s, map[e.key.text := e], size);
    }
  }

  /** The only entry of a table of 4 slots is moved to slot 3 of 8, and the new table
      takes over. */
  lemma OnlyEntryMoves(t: State, e: Entry)
    requires t.rehashidx == 0 && t.ht0.used == 1 && |t.ht0.slots| == 4 && t.ht1 == FreshTable(8)
    requires OnlyEntry(t.ht0.slots, Slot(t.hash, e.key.text, 4), e)
    ensures RehashAsWritten(t, 2) == Some(State(t.hash, Table(FreshTable(8).slots[3 := [e]], 1), EMPTY_TABLE, -1))
  {
    var b := Slot(t.hash, e.key.text, 4);
    var slots1 := FreshTable(8).slots;
    ScanToOnly(t.ht0.slots, b, e, 0, 20);
    var r := t.(rehashidx := b);
    FirstFound(t.hash, t.ht0.slots, b, slots1, [e], 3);
    assert [e][1..] == [] && [e] + slots1[3] == [e];
    var u := MoveBucketAsWritten(r).value;
    assert u.ht0.used == 0 && u.ht1 == Table(slots1[3 := [e]], 1);
    assert LoopAsWritten(u, 0, 20 - b) == Some(Promote(u));
    assert LoopAsWritten(t, 1, 20) == LoopAsWritten(u, 0, 20 - b);
  }

  /** Line 160: the first migration of a lone key loses it, unless it belongs in the
      last slot of the old size. */
  lemma FirstMigration(h: HashFn, e: Entry)
    requires Slot(h, e.key.text, 8) != 3
    ensures FailsAt(h, Begin(4, e, 8) + [OpRehash(2)], OpGet(e.key.text), None, Some(e))
  {
    assert NextPower(8) == 8;
    var t := BeginFollows(h, 4, e, 8);
    OnlyEntryMoves(t, e);
    var u := RehashAsWritten(t, 2).value;
    RunLast(Create(h), Begin(4, e, 8), OpRehash(2), t, MapRun(map[], Begin(4, e, 8)).1);
    MapLast(map[], Begin(4, e, 8), OpRehash(2));
    assert Usable(u);
    assert FindBoth(u, e.key.text) == None;
    Fails(h, Begin(4, e, 8) + [OpRehash(2)], OpGet(e.key.text), u, map[e.key.text := e], None, Some(e));
  }

  /** With the hash of lib/dict.c the key "c" is lost. */
  lemma KeyLost()
    ensures var e := Entry(Key(0, [99]), 7);
      FailsAt(Hash, Begin(4, e, 8) + [OpRehash(2)], OpGet([99]), None, Some(e))
  {
    var text: Text := [99];
    assert text[..0] == [];
    assert Hash(text) == 177672;
    assert Slot(Hash, text, 8) == 0;
    FirstMigration(Hash, Entry(Key(0, text), 7));
  }

  /** Line 162: a migration from 8 slots to 4 writes outside the new table as soon
      as it moves a key, whatever the hash. */
  lemma OutsideTable(h: HashFn, e: Entry)
    ensures RunAsWritten(Create(h), Begin(8, e, 4) + [OpRehash(2)]).None?
  {
    assert NextPower(4) == 4;
    var t := BeginFollows(h, 8, e, 4);
    var b := Slot(h, e.key.text, 8);
    ScanToOnly(t.ht0.slots, b, e, 0, 20);
    StopBehind(t.ht0.slots, b + 1, 0, 20 - b, 0);
    ShrinkingExact(t, map[e.key.text := e], 2);
    assert StopOf(t, 2) >= b + 1 && t.ht0.slots[b] != [];
    RunLast(Create(h), Begin(8, e, 4), OpRehash(2), t, MapRun(map[], Begin(8, e, 4)).1);
  }

  // ---- lines 83 and 104 in runs ----

  /** The fifth key, in a slot of table 0 that is occupied, heads a chain of table 1
      with prevEntry stale; deleting it leaves it where it is. */
  lemma FifthKeyStale(s: State, m: Bindings, e: Entry)
    requires Inv(s, m) && Stage(s, 4) && e.key.text !in m
    requires s.ht0.slots[Slot(s.hash, e.key.text, 4)] != []
    ensures Usable(s)
    ensures var t := AddAsWritten(s, e).0;
      && Searchable(t) && StalePrev(t, e.key)
      && DelBodyAsWritten(t, e.key) != DelBody(t, e.key.text)
      && DelAsWritten(t, e.key).1 == Some(e)
      && GetAsWritten(DelAsWritten(t, e.key).0, e.key.text).1 == Some(e)
  {
    InvUsable(s, m);
    StageExpand(s, 4);
    var r := ExpandIfNeeded(s).0;
    assert Inv(r, m) by { ExpandIfNeededKeeps(s); }
    assert FindBoth(r, e.key.text).None? by { FindBothRight(r, m, e.key.text); }
    var t, n := AddAsWritten(s, e).0, m[e.key.text := e];
    assert Inv(t, n) by { AddAsWrittenRight(s, m, e); }
    assert StalePrev(t, e.key) by { SearchesAgree(r, m, e.key, r.ht0.slots, e); }
    DelBodyExact(t, n, e.key);
    StaleStillFound(t, n, e.key);
  }

  lemma SlotOccupied(s: State, m: Bindings, text: Text)
    requires Inv(s, m) && Stage(s, 4) && text in m
    ensures s.ht0.slots[Slot(s.hash, text, 4)] != []
  {
    Bound(All(s), m, m[text]);
    assert |Items(s.ht1.slots)| == 0 && Items([]) == multiset{};
    ItemsIn(s.ht0.slots, m[text]);
  }

  lemma StageFollows(h: HashFn, ops: seq<Op>) returns (s: State)
    requires AddsAndGets(ops) && |ops| <= LONG_MAX
    ensures var m := MapRun(map[], ops).0;
      Follows(h, ops, s, m) && Stage(s, |m|) && s.hash == h && Usable(s) && Size(s) == |m|
  {
    CreateInv(h);
    StagesReached(Create(h), map[], ops);
    s := RunAsWritten(Create(h), ops).value.0;
    StageLoad(s, |MapRun(map[], ops).0|);
  }

  lemma StaleRun(h: HashFn, ops: seq<Op>, s: State, m: Bindings, e: Entry, t: State, u: State)
    requires Follows(h, ops, s, m) && e.key.text !in m && Size(s) <= LONG_MAX && Usable(s)
    requires t == AddAsWritten(s, e).0 && DelAsWritten(t, e.key) == (u, Some(e))
    ensures var run := ops + [OpAdd(e.key, e.val)] + [OpDel(e.key)];
      && RunAsWritten(Create(h), run) == Some((u, MapRun(map[], run).1))
      && MapRun(map[], run).0 == m[e.key.text := e] - {e.key.text}
  {
    var add, del := OpAdd(e.key, e.val), OpDel(e.key);
    FollowsAdd(h, ops, s, m, e);
    RunLast(Create(h), ops + [add], del, t, MapRun(map[], ops + [add]).1);
    MapLast(map[], ops + [add], del);
  }

  /** Lines 83 and 104, for every hash: after four keys, with any lookups in between,
      a fifth one that shares its slot of table 0 with one of them is deleted, and
      still found. */
  lemma StaleDelete(h: HashFn, ops: seq<Op>, e: Entry, text: Text)
    requires AddsAndGets(ops) && |ops| <= LONG_MAX && |MapRun(map[], ops).0| == 4
    requires e.key.text !in MapRun(map[], ops).0 && text in MapRun(map[], ops).0
    requires Slot(h, e.key.text, 4) == Slot(h, text, 4)
    ensures FailsAt(h, ops + [OpAdd(e.key, e.val)] + [OpDel(e.key)], OpGet(e.key.text), Some(e), None)
  {
    var m := MapRun(map[], ops).0;
    var s := StageFollows(h, ops);
    SlotOccupied(s, m, text);
    FifthKeyStale(s, m, e);
    var t := AddAsWritten(s, e).0;
    var u := DelAsWritten(t, e.key).0;
    var run := ops + [OpAdd(e.key, e.val)] + [OpDel(e.key)];
    StaleRun(h, ops, s, m, e, t, u);
    Fails(h, run, OpGet(e.key.text), u, m[e.key.text := e] - {e.key.text}, Some(e), None);
  }

  /** The key "x" at address x, for one byte x. */
  function One(x: Byte): Key { Key(x, [x]) }

  lemma FourKeys(x: Byte, y: Byte, z: Byte, w: Byte)
    requires x != y && x != z && x != w && y != z && y != w && z != w
    ensures var m := MapRun(map[], [OpAdd(One(x), 0), OpAdd(One(y), 0), OpAdd(One(z), 0), OpAdd(One(w), 0)]).0;
      |m| == 4 && m.Keys == {[x], [y], [z], [w]}
  {
    var a, b, c, d := OpAdd(One(x), 0), OpAdd(One(y), 0), OpAdd(One(z), 0), OpAdd(One(w), 0);
    assert [] + [a] == [a] && [a] + [b] == [a, b] && [a, b] + [c] == [a, b, c] && [a, b, c] + [d] == [a, b, c, d];
    MapLast(map[], [], a);
    MapLast(map[], [a], b);
    MapLast(map[], [a, b], c);
    MapLast(map[], [a, b, c], d);
    assert [x][0] == x && [y][0] == y && [z][0] == z && [w][0] == w;
    assert MapRun(map[], [a]).0.Keys == {[x]};
    assert MapRun(map[], [a, b]).0.Keys == {[x], [y]};
    assert MapRun(map[], [a, b, c]).0.Keys == {[x], [y], [z]};
  }

  /** With the hash of lib/dict.c: add "c", "d", "e", "f" and "g", delete "g", and "g"
      is still found. */
  lemma DeletedKeyFound()
    ensures var ops := [OpAdd(One(99), 0), OpAdd(One(100), 0), OpAdd(One(101), 0), OpAdd(One(102), 0)];
      FailsAt(Hash, ops + [OpAdd(One(103), 7)] + [OpDel(One(103))], OpGet([103]), Some(Entry(One(103), 7)), None)
  {
    FourKeys(99, 100, 101, 102);
    var c, g: Text := [99], [103];
    assert c[..0] == [] && g[..0] == [] && g[0] == 103;
    assert Hash(c) == 177672 && Hash(g) == 177676;
    var ops := [OpAdd(One(99), 0), OpAdd(One(100), 0), OpAdd(One(101), 0), OpAdd(One(102), 0)];
    assert Slot(Hash, c, 4) == 0 && Slot(Hash, g, 4) == 0;
    StaleDelete(Hash, ops, Entry(One(103), 7), c);
  }
}
