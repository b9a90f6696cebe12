/** How the dictionary as written keeps pace: the automatic step of line 146 moves
    nothing, so a migration stands still until deletions have drained table 0.  For
    every insertion, lookup and deletion, and for whole runs of them, exactly when the
    two bounds of DictTheorems.LoadNeverExceedsOne go on holding. */
module DictPacing {
  import opened Common
  import opened Words
  import opened DictModel
  import opened DictTheorems
  import opened DictAsWritten
  import opened DictRuns

  /** A migration into a table of twice the size, with the cursor where it began. */
  predicate Parked(s: State) {
    Rehashing(s) ==> s.rehashidx == 0 && |s.ht1.slots| == 2 * |s.ht0.slots|
  }

  /** The two bounds: as many entries as slots, or, with `pace`, no more than the old
      size and one for each slot the cursor has passed. */
  ghost predicate Within(s: State, pace: bool) {
    if pace then Paced(s, 0) else Size(s) <= Capacity(s)
  }

  /** The call that breaks a bound: a new key comes while table 0 still holds entries
      and the bound is used up. */
  predicate Overtakes(s: State, m: Bindings, op: Op, pace: bool) {
    && op.OpAdd? && op.key.text !in m && Rehashing(s) && s.ht0.used > 0
    && (if pace then Size(s) > |s.ht0.slots| else Size(s) >= |s.ht1.slots|)
  }

  lemma PaceFits(s: State)
    requires Shape(s, false) && Parked(s) && Paced(s, 0)
    ensures Size(s) <= Capacity(s)
  {
  }

  /** The automatic step: nothing, or a drained table 0 gives way. */
  lemma ParkedStep(s: State, pace: bool)
    requires Shape(s, false) && Parked(s) && Size(s) <= Capacity(s) && Within(s, pace)
    ensures var t := StepAsWritten(s);
      && Parked(t) && Size(t) == Size(s) && Capacity(t) == Capacity(s) && Within(t, pace)
      && (if Rehashing(s) && s.ht0.used > 0 then t == s else !Rehashing(t))
  {
  }

  /** The growth test: a table grows when it is exactly full, to twice its size. */
  lemma ParkedGrowth(s: State, pace: bool)
    requires Shape(s, false) && Parked(s) && Size(s) <= Capacity(s) && Size(s) <= LONG_MAX && Within(s, pace)
    ensures var (t, ok) := ExpandIfNeeded(s);
      && ok && Searchable(t) && Parked(t) && Size(t) == Size(s) && Size(t) <= Capacity(t) && Within(t, pace)
      && (if Rehashing(s) then t == s
          else if Rehashing(t) then Size(t) == |t.ht0.slots|
          else Size(t) < |t.ht0.slots|)
  {
    var n := |s.ht0.slots|;
    if !Rehashing(s) && n == 0 {
      FirstTable(s);
    } else if !Rehashing(s) && n <= s.ht0.used {
      FullTable(s, n);
    }
  }

  lemma FirstTable(s: State)
    requires !Rehashing(s) && |s.ht0.slots| == 0
    ensures ExpandIfNeeded(s) == (s.(ht0 := FreshTable(INITIAL_SIZE)), true)
  {
    assert NextPower(INITIAL_SIZE) == INITIAL_SIZE;
  }

  lemma FullTable(s: State, n: nat)
    requires !Rehashing(s) && |s.ht0.slots| == n == s.ht0.used && IsPow2(n) && INITIAL_SIZE <= n <= LONG_MAX
    ensures ExpandIfNeeded(s) == (s.(ht1 := FreshTable(2 * n), rehashidx := 0), true)
  {
    NextPowerOfDouble(n);
  }

  /** A new entry in the newest table. */
  lemma ParkedLink(s: State, e: Entry, pace: bool)
    requires Shape(s, false) && Searchable(s) && Parked(s) && FindBoth(s, e.key.text).None?
    requires Size(s) <= Capacity(s) && Within(s, pace) && (!Rehashing(s) ==> Size(s) < |s.ht0.slots|)
    ensures var t := AddBody(s, e).0;
      && Parked(t) && Size(t) == Size(s) + 1
      && (Within(t, pace) <==>
          (Rehashing(s) ==> if pace then Size(s) <= |s.ht0.slots| else Size(s) < |s.ht1.slots|))
  {
  }

  lemma DelPace(s: State, m: Bindings, key: Key, pace: bool)
    requires Inv(s, m) && Parked(s) && Size(s) <= Capacity(s) && Within(s, pace)
    ensures Usable(s)
    ensures var t := DelAsWritten(s, key).0; Parked(t) && Within(t, pace)
  {
    InvUsable(s, m);
    ParkedStep(s, pace);
    if Size(s) > 0 { DelKeepsCursor(StepAsWritten(s), key); }
  }

  /** Growth test and insertion, behind the step. */
  lemma RestPace(s: State, m: Bindings, e: Entry, pace: bool)
    requires Inv(s, m) && Size(s) <= LONG_MAX && Parked(s) && Size(s) <= Capacity(s) && Within(s, pace)
    ensures var (t, ok) := ExpandIfNeeded(s);
      && ok && Searchable(t)
      && var u := AddBody(t, e).0;
         Parked(u) && (Within(u, pace) <==>
           !(e.key.text !in m && Rehashing(s) && if pace then Size(s) > |s.ht0.slots| else Size(s) >= |s.ht1.slots|))
  {
    ParkedGrowth(s, pace);
    var t := ExpandIfNeeded(s).0;
    assert Inv(t, m) by { ExpandIfNeededKeeps(s); }
    assert FindBoth(t, e.key.text).None? <==> e.key.text !in m by { FindBothRight(t, m, e.key.text); }
    if e.key.text !in m { ParkedLink(t, e, pace); }
  }

  lemma AddPace(s: State, m: Bindings, e: Entry, pace: bool)
    requires Inv(s, m) && Size(s) <= LONG_MAX && Parked(s) && Size(s) <= Capacity(s) && Within(s, pace)
    ensures Usable(s)
    ensures var t := AddAsWritten(s, e).0;
      Parked(t) && (Within(t, pace) <==> !Overtakes(s, m, OpAdd(e.key, e.val), pace))
  {
    InvUsable(s, m);
    var r := StepAsWritten(s);
    assert Inv(r, m) by { StepShape(s); }
    ParkedStep(s, pace);
    RestPace(r, m, e, pace);
  }

  /** Line 146, for every insertion, lookup and deletion in a state within a bound: it
      stays within it if and only if it is not a new key that comes while table 0 still
      holds entries and the bound is used up; and the cursor stays where it was, or the
      migration is over. */
  lemma CallPaced(s: State, m: Bindings, op: Op, pace: bool)
    requires Inv(s, m) && Size(s) <= LONG_MAX && Basic(op)
    requires Parked(s) && Size(s) <= Capacity(s) && Within(s, pace)
    ensures Usable(s) && ApplyAsWritten(s, op).Some?
    ensures var t := ApplyAsWritten(s, op).value.0;
      Parked(t) && (Within(t, pace) <==> !Overtakes(s, m, op, pace))
  {
    InvUsable(s, m);
    match op {
      case OpAdd(k, v) => AddPace(s, m, Entry(k, v), pace);
      case OpGet(_) => ParkedStep(s, pace);
      case OpDel(key) => DelPace(s, m, key, pace);
    }
  }

  // ---- whole runs ----

  /** The bound holds before and after every call. */
  ghost predicate WithinAlong(s: State, ops: seq<Op>, pace: bool)
    requires Usable(s)
    decreases |ops|
  {
    && Within(s, pace)
    && (ops == [] ||
        (ApplyAsWritten(s, ops[0]).Some? && WithinAlong(ApplyAsWritten(s, ops[0]).value.0, ops[1..], pace)))
  }

  /** No call breaks it at its turn. */
  ghost predicate NoneOvertakes(s: State, m: Bindings, ops: seq<Op>, pace: bool)
    requires Usable(s)
    decreases |ops|
  {
    ops == [] ||
    (&& !Overtakes(s, m, ops[0], pace) && ApplyAsWritten(s, ops[0]).Some?
     && NoneOvertakes(ApplyAsWritten(s, ops[0]).value.0, MapApply(m, ops[0]).0, ops[1..], pace))
  }

  predicate AllBasic(ops: seq<Op>) { forall op :: op in ops ==> Basic(op) }

  lemma {:induction false} RunPacedFrom(s: State, m: Bindings, ops: seq<Op>, pace: bool)
    requires Inv(s, m) && Size(s) + |ops| <= LONG_MAX + 1 && AllBasic(ops)
    requires Parked(s) && Size(s) <= Capacity(s) && Within(s, pace)
    requires Usable(s) && AllMeet(s, m, ops)
    ensures WithinAlong(s, ops, pace) <==> NoneOvertakes(s, m, ops, pace)
    decreases |ops|
  {
    if ops != [] {
      assert ops[0] in ops;
      CallPaced(s, m, ops[0], pace);
      ApplyExact(s, m, ops[0]);
      var t := ApplyAsWritten(s, ops[0]).value.0;
      if Within(t, pace) {
        if pace { PaceFits(t); }
        RunPacedFrom(t, MapApply(m, ops[0]).0, ops[1..], pace);
      }
    }
  }

  /** Over any run of insertions, lookups and deletions that go as meant, either bound
      holds all along if and only if no call breaks it at its turn. */
  lemma RunPacedExact(h: HashFn, ops: seq<Op>, pace: bool)
    requires |ops| <= LONG_MAX && AllBasic(ops) && AllMeet(Create(h), map[], ops)
    ensures WithinAlong(Create(h), ops, pace) <==> NoneOvertakes(Create(h), map[], ops, pace)
  {
    CreateInv(h);
    RunPacedFrom(Create(h), map[], ops, pace);
  }
}
