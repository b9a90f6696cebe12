/** Whole runs of the dictionary: the two tables behave as one map, incremental
    rehashing keeps pace with insertion, and every migration ends. */
module DictTheorems {
  import opened Common
  import opened Words
  import opened DictModel

  datatype Op =
    | OpAdd(key: Key, val: int)
    | OpGet(text: Text)
    | OpDel(key: Key)
    | OpExpand(size: nat)
    | OpRehash(n: int)

  /** What the caller sees; the return codes of expand and rehash speak of
      tables, not of contents, and are not observed. */
  datatype Out = Added(ok: bool) | Got(entry: Option<Entry>) | Quiet

  ghost function Apply(s: State, op: Op): (State, Out)
    requires Shape(s, false)
  {
    match op
    case OpAdd(k, v) => var (t, ok) := Add(s, Entry(k, v)); (t, Added(ok))
    case OpGet(text) => var (t, r) := Get(s, text); (t, Got(r))
    case OpDel(key) => var (t, r) := Del(s, key.text); (t, Got(r))
    case OpExpand(size) => (Expand(s, size).0, Quiet)
    case OpRehash(n) => (Rehash(s, n), Quiet)
  }

  type Bindings = map<Text, Entry>

  function Find(m: Bindings, text: Text): Option<Entry> {
    if text in m then Some(m[text]) else None
  }

  /** The same operation on a plain map. */
  function MapApply(m: Bindings, op: Op): (Bindings, Out) {
    match op
    case OpAdd(k, v) => if k.text in m then (m, Added(false)) else (m[k.text := Entry(k, v)], Added(true))
    case OpGet(text) => (m, Got(Find(m, text)))
    case OpDel(key) => (m - {key.text}, Got(Find(m, key.text)))
    case OpExpand(_) => (m, Quiet)
    case OpRehash(_) => (m, Quiet)
  }

  /** One operation, from any state that represents m. */
  lemma ApplyRight(s: State, m: Bindings, op: Op)
    requires Inv(s, m) && Size(s) <= LONG_MAX
    ensures Apply(s, op).1 == MapApply(m, op).1
    ensures Inv(Apply(s, op).0, MapApply(m, op).0)
    ensures Size(Apply(s, op).0) <= Size(s) + 1
  {
    match op {
      case OpAdd(k, v) => AddRight(s, m, Entry(k, v));
      case OpGet(text) => GetRight(s, m, text);
      case OpDel(key) => DelRight(s, m, key.text);
      case OpExpand(size) => ExpandKeeps(s, size);
      case OpRehash(n) => RehashKeeps(s, n);
    }
  }

  ghost predicate Ready(s: State, n: nat) {
    exists m: Bindings :: Inv(s, m) && Size(s) + n <= LONG_MAX + 1
  }

  ghost function Run(s: State, ops: seq<Op>): (State, seq<Out>)
    requires Ready(s, |ops|)
    decreases |ops|
  {
    if ops == [] then (s, [])
    else
      var m: Bindings :| Inv(s, m);
      ApplyRight(s, m, ops[0]);
      var (t, o) := Apply(s, ops[0]);
      assert Inv(t, MapApply(m, ops[0]).0);
      var (u, outs) := Run(t, ops[1..]);
      (u, [o] + outs)
  }

  function MapRun(m: Bindings, ops: seq<Op>): (Bindings, seq<Out>)
    decreases |ops|
  {
    if ops == [] then (m, [])
    else
      var (n, o) := MapApply(m, ops[0]);
      var (q, outs) := MapRun(n, ops[1..]);
      (q, [o] + outs)
  }

  lemma CreateInv(h: HashFn)
    ensures Inv(Create(h), map[])
  {
    assert Items([]) == multiset{};
  }

  lemma {:induction false} RunRight(s: State, m: Bindings, ops: seq<Op>)
    requires Inv(s, m) && Size(s) + |ops| <= LONG_MAX + 1
    ensures Ready(s, |ops|)
    ensures Run(s, ops).1 == MapRun(m, ops).1
    ensures Inv(Run(s, ops).0, MapRun(m, ops).0)
    decreases |ops|
  {
    assert Ready(s, |ops|);
    if ops != [] {
      ApplyRight(s, m, ops[0]);
      RunRight(Apply(s, ops[0]).0, MapApply(m, ops[0]).0, ops[1..]);
    }
  }

  /** Over any run of add, get, del, expand and rehash, with any key hash, the
      dictionary answers exactly as one map would: migration is invisible. */
  lemma RefinesMap(h: HashFn, ops: seq<Op>)
    requires |ops| <= LONG_MAX
    ensures Ready(Create(h), |ops|)
    ensures Run(Create(h), ops).1 == MapRun(map[], ops).1
    ensures Inv(Run(Create(h), ops).0, MapRun(map[], ops).0)
  {
    CreateInv(h);
    RunRight(Create(h), map[], ops);
  }

  /** In every state of any run an entry hangs at its hash under the mask of its table. */
  lemma StoredAtMask(h: HashFn, ops: seq<Op>, i: nat, e: Entry)
    requires |ops| <= LONG_MAX
    ensures Ready(Create(h), |ops|)
    ensures var s := Run(Create(h), ops).0;
      && (i < |s.ht0.slots| && e in s.ht0.slots[i] ==> i == BitAnd(s.hash(e.key.text), |s.ht0.slots| - 1))
      && (i < |s.ht1.slots| && e in s.ht1.slots[i] ==> i == BitAnd(s.hash(e.key.text), |s.ht1.slots| - 1))
  {
    RefinesMap(h, ops);
    var s := Run(Create(h), ops).0;
    if i < |s.ht0.slots| && e in s.ht0.slots[i] { HangsAtMask(s.hash, s.ht0, i, e); }
    if i < |s.ht1.slots| && e in s.ht1.slots[i] { HangsAtMask(s.hash, s.ht1, i, e); }
  }

  // ---- every migration ends ----

  /** A call that is asked to move at least one bucket promotes or advances the
      cursor; it moves at most n buckets and looks at most at 10n empty ones. */
  lemma RehashAdvances(s: State, n: int)
    requires Shape(s, false) && Rehashing(s) && n >= 1
    ensures var r := RehashLoop(s, n, 10 * n);
      && r.s == Rehash(s, n) && r.moved <= n && r.empties <= 10 * n
    ensures var t := Rehash(s, n);
      if Rehashing(t) then t.rehashidx > s.rehashidx && |t.ht0.slots| == |s.ht0.slots| && |t.ht1.slots| == |s.ht1.slots|
      else t.ht0.slots != [] && |t.ht0.slots| == |s.ht1.slots|
  {
    RehashLoopCost(s, n, 10 * n);
  }

  ghost function Repeat(s: State, n: int, k: nat): State
    requires Shape(s, false)
    decreases k
  {
    RehashKeeps(s, n);
    if k == 0 then s else Repeat(Rehash(s, n), n, k - 1)
  }

  /** As many calls as table 0 has slots left finish any migration. */
  lemma {:induction false} RehashFinishes(s: State, n: int, k: nat)
    requires Shape(s, false) && n >= 1
    requires Rehashing(s) ==> k >= |s.ht0.slots| - s.rehashidx
    ensures !Rehashing(Repeat(s, n, k))
    decreases k
  {
    RehashKeeps(s, n);
    if k > 0 {
      if Rehashing(s) { RehashAdvances(s, n); }
      RehashFinishes(Rehash(s, n), n, k - 1);
    }
  }

  /** Insertions, lookups and deletions. */
  predicate Basic(op: Op) { op.OpAdd? || op.OpGet? || op.OpDel? }

  /** The same migration, with the cursor further on. */
  predicate MovedOn(s: State, t: State) {
    && Rehashing(t) && t.rehashidx > s.rehashidx
    && |t.ht0.slots| == |s.ht0.slots| && |t.ht1.slots| == |s.ht1.slots|
  }

  /** Table 1 has taken the place of table 0; an insertion may have begun to grow it. */
  predicate Promoted(s: State, t: State) {
    |t.ht0.slots| == |s.ht1.slots| && (!Rehashing(t) || t.rehashidx == 0)
  }

  lemma StepMovesOn(s: State)
    requires Shape(s, false) && Rehashing(s)
    ensures var t := Rehash(s, 1); MovedOn(s, t) || (Promoted(s, t) && !Rehashing(t))
  {
    RehashAdvances(s, 1);
  }

  /** Linking or unlinking an entry behind the step leaves the migration where it is. */
  lemma BodiesKeepCursor(s: State, e: Entry, text: Text)
    requires Searchable(s)
    ensures var t := AddBody(s, e).0;
      t.rehashidx == s.rehashidx && |t.ht0.slots| == |s.ht0.slots| && |t.ht1.slots| == |s.ht1.slots|
    ensures var t := DelBody(s, text).0;
      t.rehashidx == s.rehashidx && |t.ht0.slots| == |s.ht0.slots| && |t.ht1.slots| == |s.ht1.slots|
  {
  }

  /** Lines 38, 62 and 87: every insertion, and every lookup or deletion in a dictionary
      that is not empty, advances a migration or promotes. */
  lemma CallMovesOn(s: State, op: Op)
    requires Shape(s, false) && Rehashing(s) && Basic(op) && (op.OpAdd? || Size(s) > 0)
    ensures MovedOn(s, Apply(s, op).0) || Promoted(s, Apply(s, op).0)
    ensures !op.OpAdd? ==> MovedOn(s, Apply(s, op).0) || !Rehashing(Apply(s, op).0)
  {
    var r := Rehash(s, 1);
    StepMovesOn(s);
    StepKeeps(s);
    match op {
      case OpAdd(k, v) =>
        ExpandIfNeededKeeps(r);
        var (t, ok) := ExpandIfNeeded(r);
        if ok { BodiesKeepCursor(t, Entry(k, v), k.text); }
      case OpGet(_) =>
      case OpDel(key) => BodiesKeepCursor(r, Entry(key, 0), key.text);
    }
  }

  /** Outside a migration, and in an empty dictionary, lookups leave everything as it is. */
  lemma LookupIdle(s: State, text: Text)
    requires Shape(s, false) && (!Rehashing(s) || Size(s) == 0)
    ensures Get(s, text).0 == s && (Size(s) == 0 ==> Del(s, text) == (s, None))
  {
  }

  /** The migration of s is over within this run. */
  ghost predicate EndsWithin(s: State, ops: seq<Op>)
    requires Ready(s, |ops|)
    decreases |ops|
  {
    ops != [] &&
    (var m: Bindings :| Inv(s, m);
     ApplyRight(s, m, ops[0]);
     var t := Apply(s, ops[0]).0;
     assert Inv(t, MapApply(m, ops[0]).0);
     Promoted(s, t) || EndsWithin(t, ops[1..]))
  }

  /** No lookup or deletion meets an empty dictionary. */
  predicate Occupied(m: Bindings, ops: seq<Op>)
    decreases |ops|
  {
    ops == [] || ((ops[0].OpAdd? || m != map[]) && Occupied(MapApply(m, ops[0]).0, ops[1..]))
  }

  /** Migrations end by use alone: as many insertions, lookups and deletions of a
      dictionary that does not run empty as table 0 has slots left finish any of them. */
  lemma {:induction false} UseEndsMigration(s: State, m: Bindings, ops: seq<Op>)
    requires Inv(s, m) && Rehashing(s) && Size(s) + |ops| <= LONG_MAX + 1
    requires (forall op :: op in ops ==> Basic(op)) && Occupied(m, ops)
    requires |ops| >= |s.ht0.slots| - s.rehashidx
    ensures Ready(s, |ops|) && EndsWithin(s, ops)
    decreases |ops|
  {
    assert Ready(s, |ops|);
    var op := ops[0];
    assert op in ops;
    if !op.OpAdd? && Size(s) == 0 {
      var text :| text in m;
      EmptyHoldsNothing(s, m, text);
    }
    CallMovesOn(s, op);
    ApplyRight(s, m, op);
    var t := Apply(s, op).0;
    if !Promoted(s, t) { UseEndsMigration(t, MapApply(m, op).0, ops[1..]); }
  }

  /** When the new table is a multiple of the old one, whatever left bucket b
      hangs in a slot congruent to b. */
  lemma BucketCongruent(s: State, e: Entry, b: nat, i: nat, q: nat)
    requires Shape(s, false) && |s.ht1.slots| == |s.ht0.slots| * q && q > 0
    requires b < |s.ht0.slots| && Slot(s.hash, e.key.text, |s.ht0.slots|) == b
    requires i < |s.ht1.slots| && e in s.ht1.slots[i]
    ensures i % |s.ht0.slots| == b
  {
    SlotCongruent(s.hash(e.key.text), |s.ht0.slots|, q);
    assert Slot(s.hash, e.key.text, |s.ht1.slots|) == i;
  }

  // ---- incremental rehashing keeps pace ----

  /** Slots of the table that insertions go to. */
  function Capacity(s: State): nat {
    if Rehashing(s) then |s.ht1.slots| else |s.ht0.slots|
  }

  /** No table is over-full; while migrating, the entries also stay within the old
      size plus one for each slot the cursor has passed. */
  ghost predicate Paced(s: State, slack: nat) {
    if Rehashing(s) then
      && |s.ht1.slots| == 2 * |s.ht0.slots| && s.ht0.used <= |s.ht0.slots|
      && Size(s) + slack <= |s.ht0.slots| + s.rehashidx + 1
    else
      s.ht0.used <= |s.ht0.slots|
  }

  /** The capacity stays, starts at 4, or exactly doubles. */
  predicate Doubles(s: State, t: State) {
    || Capacity(t) == Capacity(s)
    || (Capacity(s) == 0 && Capacity(t) == INITIAL_SIZE)
    || Capacity(t) == 2 * Capacity(s)
  }

  lemma StepPaced(s: State)
    requires Shape(s, false) && Paced(s, 0)
    ensures Paced(Rehash(s, 1), 1) && Capacity(Rehash(s, 1)) == Capacity(s)
  {
    StepKeeps(s);
    if Rehashing(s) { RehashAdvances(s, 1); }
  }

  lemma ExpandPaced(s: State)
    requires Shape(s, false) && Paced(s, 1) && Size(s) <= LONG_MAX
    ensures var t := ExpandIfNeeded(s).0;
      && Paced(t, 1) && (Rehashing(t) || t.ht0.used < |t.ht0.slots|)
      && Doubles(s, t)
  {
    var n := |s.ht0.slots|;
    if !Rehashing(s) && n > 0 && s.ht0.used >= n { NextPowerOfDouble(n); }
    assert NextPower(INITIAL_SIZE) == INITIAL_SIZE;
    GrowthSucceeds(s);
  }

  lemma AddBodyPaced(s: State, e: Entry)
    requires Searchable(s) && Paced(s, 1) && (Rehashing(s) || s.ht0.used < |s.ht0.slots|)
    ensures Paced(AddBody(s, e).0, 0) && Capacity(AddBody(s, e).0) == Capacity(s)
  {
  }

  lemma AddPaced(s: State, e: Entry)
    requires Shape(s, false) && Paced(s, 0) && Size(s) <= LONG_MAX
    ensures var t := Add(s, e).0;
      && Paced(t, 0)
      && Doubles(s, t)
  {
    var s1 := Rehash(s, 1);
    StepKeeps(s);
    StepPaced(s);
    ExpandPaced(s1);
    ExpandIfNeededKeeps(s1);
    GrowthSucceeds(s1);
    AddBodyPaced(ExpandIfNeeded(s1).0, e);
  }

  lemma DelBodyPaced(s: State, text: Text)
    requires Searchable(s) && Paced(s, 0)
    ensures Paced(DelBody(s, text).0, 0) && Capacity(DelBody(s, text).0) == Capacity(s)
  {
  }

  lemma DelPaced(s: State, text: Text)
    requires Shape(s, false) && Paced(s, 0)
    ensures Paced(Del(s, text).0, 0) && Capacity(Del(s, text).0) == Capacity(s)
  {
    StepKeeps(s);
    StepPaced(s);
    if Size(s) > 0 { DelBodyPaced(Rehash(s, 1), text); }
  }

  lemma ApplyPaced(s: State, op: Op)
    requires Shape(s, false) && Paced(s, 0) && Size(s) <= LONG_MAX && Basic(op)
    ensures var t := Apply(s, op).0;
      && Paced(t, 0)
      && Doubles(s, t)
  {
    match op {
      case OpAdd(k, v) => AddPaced(s, Entry(k, v));
      case OpGet(_) => StepPaced(s);
      case OpDel(key) => DelPaced(s, key.text);
    }
  }

  lemma {:induction false} RunPaced(s: State, m: Bindings, ops: seq<Op>)
    requires Inv(s, m) && Size(s) + |ops| <= LONG_MAX + 1
    requires Paced(s, 0) && forall op :: op in ops ==> Basic(op)
    ensures Ready(s, |ops|) && Paced(Run(s, ops).0, 0)
    decreases |ops|
  {
    assert Ready(s, |ops|);
    if ops != [] {
      ApplyRight(s, m, ops[0]);
      ApplyPaced(s, ops[0]);
      RunPaced(Apply(s, ops[0]).0, MapApply(m, ops[0]).0, ops[1..]);
    }
  }

  /** In any run of add, get and del alone there is never more than one entry
      per slot, migration always doubles, and it never falls behind. */
  lemma LoadNeverExceedsOne(h: HashFn, ops: seq<Op>)
    requires |ops| <= LONG_MAX && forall op :: op in ops ==> Basic(op)
    ensures Ready(Create(h), |ops|)
    ensures var s := Run(Create(h), ops).0;
      && Paced(s, 0) && Size(s) <= Capacity(s)
      && s.ht0.used <= |s.ht0.slots| && s.ht1.used <= |s.ht1.slots|
      && (Rehashing(s) ==> |s.ht1.slots| == 2 * |s.ht0.slots| && Size(s) <= |s.ht0.slots| + s.rehashidx + 1)
  {
    CreateInv(h);
    RunRight(Create(h), map[], ops);
    RunPaced(Create(h), map[], ops);
  }
}
