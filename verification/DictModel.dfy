/** The dictionary on values: two tables of chains, a rehash cursor, and every
    operation of lib/dict.c as a function from state to state.  The class in
    Dict.dfy is proved to compute exactly these functions; what the dictionary
    is for is proved here, about the functions.

    Four lines of lib/dict.c depart from what the rest of the file relies on.
    This module follows the evident intent; DictAsWritten.dfy states what the
    lines do as written and exactly when the two agree:
      146      `--n` tests the budget after the decrement, so a budget of 1 moves nothing;
      160      the slot is `_dictKeyIndex(..) & ht[0].mask`, not the hash under `ht[1].mask`;
      95       keys are compared by pointer, not by content as in lines 70 and 203;
      83, 104  `prevEntry` survives from the scan of ht[0] into the scan of ht[1]. */
module DictModel {
  import opened Common
  import opened Words

  /** A key as the C code holds it: where the string lives and what it says. */
  datatype Key = Key(addr: nat, text: Text)
  datatype Entry = Entry(key: Key, val: int)
  type Chain = seq<Entry>

  /** dictht: size is |slots|, mask is |slots| - 1, a NULL table has no slots. */
  datatype Table = Table(slots: seq<Chain>, used: nat)
  /** The hash is part of the state, so that what is proved holds for every
      hash; lib/dict.c fixes it to Words.Hash. */
  type HashFn = Text -> nat
  datatype State = State(hash: HashFn, ht0: Table, ht1: Table, rehashidx: int)

  const EMPTY_TABLE := Table([], 0)

  function Create(h: HashFn): State { State(h, EMPTY_TABLE, EMPTY_TABLE, -1) }

  predicate Rehashing(s: State) { s.rehashidx != -1 }

  function Size(s: State): nat { s.ht0.used + s.ht1.used }

  function Slot(h: HashFn, text: Text, size: nat): (i: nat)
    requires size > 0
    ensures i < size
  {
    h(text) % size
  }

  // ---- chains and tables ----

  function FindIn(c: Chain, text: Text): Option<Entry> {
    if c == [] then None else if c[0].key.text == text then Some(c[0]) else FindIn(c[1..], text)
  }

  function Without(c: Chain, text: Text): Chain {
    if c == [] then [] else if c[0].key.text == text then c[1..] else [c[0]] + Without(c[1..], text)
  }

  function Lookup(h: HashFn, t: Table, text: Text): Option<Entry>
    requires |t.slots| > 0
  {
    FindIn(t.slots[Slot(h, text, |t.slots|)], text)
  }

  /** Link e at the head of the chain of slot i. */
  function PushSlot(slots: seq<Chain>, i: nat, e: Entry): (r: seq<Chain>)
    requires i < |slots|
    ensures |r| == |slots|
  {
    slots[i := [e] + slots[i]]
  }

  function Insert(h: HashFn, t: Table, e: Entry): Table
    requires |t.slots| > 0
  {
    Table(PushSlot(t.slots, Slot(h, e.key.text, |t.slots|), e), t.used + 1)
  }

  function Remove(h: HashFn, t: Table, text: Text): Table
    requires |t.slots| > 0
  {
    var i := Slot(h, text, |t.slots|);
    Table(t.slots[i := Without(t.slots[i], text)], if t.used > 0 then t.used - 1 else 0)
  }

  /** Relink a chain of ht[0], front to back, into the slots of ht[1]. */
  function Relink(h: HashFn, c: Chain, slots: seq<Chain>): (r: seq<Chain>)
    requires |slots| > 0
    ensures |r| == |slots|
  {
    if c == [] then slots
    else Relink(h, c[1..], PushSlot(slots, Slot(h, c[0].key.text, |slots|), c[0]))
  }

  // ---- invariants ----

  /** The entries of a table, with multiplicity. */
  ghost function Items(slots: seq<Chain>): multiset<Entry> {
    if slots == [] then multiset{} else Items(slots[..|slots| - 1]) + multiset(slots[|slots| - 1])
  }

  ghost function All(s: State): multiset<Entry> { Items(s.ht0.slots) + Items(s.ht1.slots) }

  /** Every entry hangs in the slot its hash selects. */
  ghost predicate Placed(h: HashFn, slots: seq<Chain>) {
    forall i, e :: 0 <= i < |slots| && e in slots[i] ==> Slot(h, e.key.text, |slots|) == i
  }

  ghost predicate TableOk(h: HashFn, t: Table) {
    && t.used == |Items(t.slots)|
    && Placed(h, t.slots)
    && (|t.slots| == 0 || (IsPow2(|t.slots|) && INITIAL_SIZE <= |t.slots| <= LONG_MAX + 1))
  }

  ghost predicate EmptyBelow(slots: seq<Chain>, n: int) {
    forall i :: 0 <= i < n && i < |slots| ==> slots[i] == []
  }

  /** What holds between operations; the cursor may stand at the end of ht[0]
      only inside the rehash loop (`mid`). */
  ghost predicate Shape(s: State, mid: bool) {
    && TableOk(s.hash, s.ht0) && TableOk(s.hash, s.ht1)
    && if Rehashing(s) then
         && 0 <= s.rehashidx <= |s.ht0.slots| && (mid || s.rehashidx < |s.ht0.slots|)
         && EmptyBelow(s.ht0.slots, s.rehashidx)
         && |s.ht0.slots| > 0 && |s.ht1.slots| > 0
       else
         s.ht1 == EMPTY_TABLE
  }

  /** The two tables together hold exactly the bindings of m, each once. */
  ghost predicate Represents(all: multiset<Entry>, m: map<Text, Entry>) {
    && (forall text :: text in m ==> m[text].key.text == text)
    && forall e {:trigger all[e]} :: all[e] == if e.key.text in m && m[e.key.text] == e then 1 else 0
  }

  ghost predicate Inv(s: State, m: map<Text, Entry>) {
    Shape(s, false) && Represents(All(s), m)
  }

  // ---- rehashing ----

  datatype ScanResult = Found(at: nat, left: int) | Exhausted(at: nat)

  /** Skip empty buckets from i; `left` empty visits remain.  CursorHasWork says
      that the scan of a table that still counts entries never runs out of slots. */
  function Scan(slots: seq<Chain>, i: nat, left: int): (r: ScanResult)
    ensures i <= r.at && (r.Found? ==> r.at < |slots| && slots[r.at] != [])
    decreases |slots| - i
  {
    if i >= |slots| then Exhausted(i)
    else if slots[i] != [] then Found(i, left)
    else if left - 1 == 0 then Exhausted(i + 1)
    else Scan(slots, i + 1, left - 1)
  }

  /** What the scan passes over is empty, and each visit is paid for. */
  lemma {:induction false} ScanSkips(slots: seq<Chain>, i: nat, left: int)
    requires (exists j :: i <= j < |slots| && slots[j] != []) && EmptyBelow(slots, i)
    ensures var r := Scan(slots, i, left);
      && i <= r.at < |slots| && EmptyBelow(slots, r.at)
      && (if r.Found? then left - r.left == r.at - i && (left > 0 ==> r.left > 0) else left == r.at - i > 0)
    decreases |slots| - i
  {
    if slots[i] == [] && left - 1 != 0 { ScanSkips(slots, i + 1, left - 1); }
  }

  /** The bucket at the cursor moves to ht[1] and the cursor steps past it. */
  function MoveBucket(s: State): State
    requires 0 <= s.rehashidx < |s.ht0.slots| && |s.ht1.slots| > 0
  {
    var c := s.ht0.slots[s.rehashidx];
    State(s.hash, Table(s.ht0.slots[s.rehashidx := []], if s.ht0.used >= |c| then s.ht0.used - |c| else 0),
          Table(Relink(s.hash, c, s.ht1.slots), s.ht1.used + |c|),
          s.rehashidx + 1)
  }

  /** A drained ht[0] is replaced by ht[1]. */
  function Promote(s: State): State {
    if s.ht0.used == 0 then State(s.hash, s.ht1, EMPTY_TABLE, -1) else s
  }

  /** Where a rehash call leaves the dictionary, and what it cost. */
  datatype Outcome = Outcome(s: State, empties: nat, moved: nat)

  lemma {:induction false} ItemsIn(slots: seq<Chain>, e: Entry)
    ensures e in Items(slots) <==> exists i :: 0 <= i < |slots| && e in slots[i]
  {
    if slots != [] {
      var front, last := slots[..|slots| - 1], slots[|slots| - 1];
      ItemsIn(front, e);
      if e in Items(front) {
        var i :| 0 <= i < |front| && e in front[i];
        assert e in slots[i];
      }
      assert e in multiset(last) <==> e in last;
      if i :| 0 <= i < |slots| && e in slots[i] && e !in last {
        assert e in front[i];
      }
    }
  }

  lemma {:induction false} ItemsUpdate(slots: seq<Chain>, i: nat, c: Chain)
    requires i < |slots|
    ensures multiset(slots[i]) <= Items(slots)
    ensures Items(slots[i := c]) == Items(slots) - multiset(slots[i]) + multiset(c)
  {
    var n, t := |slots| - 1, slots[i := c];
    var x, y, m, k := Items(slots[..n]), multiset(slots[n]), multiset(slots[i]), multiset(c);
    assert Items(slots) == x + y;
    if i < n {
      assert m <= x && Items(t) == x - m + k + y by {
        ItemsUpdate(slots[..n], i, c);
        assert t[..n] == slots[..n][i := c];
      }
      ReplacePart(x, y, m, k);
    } else {
      assert Items(t) == x + k by { assert t[..n] == slots[..n]; }
      ReplaceLast(x, m, k);
    }
  }

  lemma ReplacePart(x: multiset<Entry>, y: multiset<Entry>, m: multiset<Entry>, k: multiset<Entry>)
    requires m <= x
    ensures m <= x + y && x - m + k + y == x + y - m + k
  {
  }

  lemma ReplaceLast(x: multiset<Entry>, m: multiset<Entry>, k: multiset<Entry>)
    ensures m <= x + m && x + k == x + m - m + k
  {
  }

  lemma {:induction false} ItemsOfEmpty(slots: seq<Chain>)
    requires forall i :: 0 <= i < |slots| ==> slots[i] == []
    ensures Items(slots) == multiset{}
  {
    if slots != [] { ItemsOfEmpty(slots[..|slots| - 1]); }
  }

  /** A table that still counts entries has a bucket at or after the cursor to
      move: the scan of line 150 never leaves table 0 and the assertion of
      line 149 never fires. */
  lemma CursorHasWork(t: Table, i: int)
    requires t.used == |Items(t.slots)| && t.used > 0 && 0 <= i <= |t.slots| && EmptyBelow(t.slots, i)
    ensures i < |t.slots| && exists j :: i <= j < |t.slots| && t.slots[j] != []
  {
    if forall j :: i <= j < |t.slots| ==> t.slots[j] == [] {
      ItemsOfEmpty(t.slots);
    }
  }

  lemma ItemsPush(h: HashFn, slots: seq<Chain>, i: nat, e: Entry)
    requires i < |slots|
    ensures Items(PushSlot(slots, i, e)) == Items(slots) + multiset{e}
    ensures Placed(h, slots) && Slot(h, e.key.text, |slots|) == i ==> Placed(h, PushSlot(slots, i, e))
  {
    ItemsUpdate(slots, i, [e] + slots[i]);
    assert multiset([e] + slots[i]) == multiset{e} + multiset(slots[i]);
  }

  lemma {:induction false} RelinkItems(h: HashFn, c: Chain, slots: seq<Chain>)
    requires |slots| > 0
    ensures Items(Relink(h, c, slots)) == Items(slots) + multiset(c)
    ensures Placed(h, slots) ==> Placed(h, Relink(h, c, slots))
  {
    if c != [] {
      var i := Slot(h, c[0].key.text, |slots|);
      var t, r := PushSlot(slots, i, c[0]), Relink(h, c, slots);
      var x, y, w := Items(slots), multiset{c[0]}, multiset(c[1..]);
      assert Items(t) == x + y && (Placed(h, slots) ==> Placed(h, t)) by { ItemsPush(h, slots, i, c[0]); }
      assert Items(r) == Items(t) + w && (Placed(h, t) ==> Placed(h, r)) by { RelinkItems(h, c[1..], t); }
      assert multiset(c) == y + w by { assert c == [c[0]] + c[1..]; }
      assert x + y + w == x + (y + w);
    }
  }

  lemma ClearSlot(h: HashFn, t: Table, i: nat)
    requires TableOk(h, t) && i < |t.slots|
    ensures |t.slots[i]| <= t.used
    ensures TableOk(h, Table(t.slots[i := []], t.used - |t.slots[i]|))
    ensures Items(t.slots[i := []]) + multiset(t.slots[i]) == Items(t.slots)
  {
    ItemsUpdate(t.slots, i, []);
    var rest := Items(t.slots[i := []]);
    assert rest + multiset(t.slots[i]) == Items(t.slots);
    assert |Items(t.slots)| == |rest| + |t.slots[i]|;
  }

  lemma RelinkTable(h: HashFn, c: Chain, t: Table)
    requires TableOk(h, t) && |t.slots| > 0
    ensures TableOk(h, Table(Relink(h, c, t.slots), t.used + |c|))
    ensures Items(Relink(h, c, t.slots)) == Items(t.slots) + multiset(c)
  {
    RelinkItems(h, c, t.slots);
    assert |multiset(c)| == |c|;
  }

  lemma MoveBucketKeeps(s: State)
    requires Shape(s, true) && Rehashing(s) && s.rehashidx < |s.ht0.slots|
    ensures Shape(MoveBucket(s), true)
    ensures All(MoveBucket(s)) == All(s) && Size(MoveBucket(s)) == Size(s)
  {
    var t := MoveBucket(s);
    var c := s.ht0.slots[s.rehashidx];
    var x, y, m := Items(t.ht0.slots), Items(s.ht1.slots), multiset(c);
    assert |c| <= s.ht0.used && TableOk(s.hash, t.ht0) && x + m == Items(s.ht0.slots) by {
      ClearSlot(s.hash, s.ht0, s.rehashidx);
    }
    assert TableOk(s.hash, t.ht1) && Items(t.ht1.slots) == y + m by { RelinkTable(s.hash, c, s.ht1); }
    assert EmptyBelow(t.ht0.slots, t.rehashidx);
  }

  /** The cursor stands in ht[0] and there is a table to move to. */
  predicate Migrating(s: State) { s.rehashidx >= 0 && |s.ht1.slots| > 0 }

  /** The loop of dictRehash with a budget of n buckets and `left` empty visits,
      and the promotion behind it.  A negative budget is never used up. */
  function RehashLoop(s: State, n: int, left: int): Outcome
    requires Migrating(s)
    decreases |s.ht0.slots| - s.rehashidx
  {
    if n == 0 || s.ht0.used == 0 then Outcome(Promote(s), 0, 0)
    else
      match Scan(s.ht0.slots, s.rehashidx, left)
      case Exhausted(i) => Outcome(s.(rehashidx := i), i - s.rehashidx, 0)
      case Found(i, l) =>
        var r := RehashLoop(MoveBucket(s.(rehashidx := i)), n - 1, l);
        Outcome(r.s, i - s.rehashidx + r.empties, r.moved + 1)
  }

  /** One pass of the loop: either the visits run out, or a bucket moves. */
  lemma OnePass(s: State, n: int, left: int)
    requires Shape(s, true) && Rehashing(s) && s.ht0.used > 0 && n != 0
    ensures exists j :: s.rehashidx <= j < |s.ht0.slots| && s.ht0.slots[j] != []
    ensures var r := Scan(s.ht0.slots, s.rehashidx, left);
      var t := s.(rehashidx := r.at);
      && Shape(t, false)
      && if r.Exhausted? then RehashLoop(s, n, left) == Outcome(t, r.at - s.rehashidx, 0)
         else
           var u := MoveBucket(t);
           && Shape(u, true) && Rehashing(u) && All(u) == All(s) && Size(u) == Size(s) && u.hash == s.hash
           && RehashLoop(s, n, left).s == RehashLoop(u, n - 1, r.left).s
  {
    CursorHasWork(s.ht0, s.rehashidx);
    ScanSkips(s.ht0.slots, s.rehashidx, left);
    var r := Scan(s.ht0.slots, s.rehashidx, left);
    if r.Found? { MoveBucketKeeps(s.(rehashidx := r.at)); }
  }

  lemma PromoteKeeps(s: State)
    requires Shape(s, true) && Rehashing(s)
    ensures Shape(Promote(s), false) && All(Promote(s)) == All(s) && Size(Promote(s)) == Size(s)
  {
    if s.ht0.used > 0 {
      CursorHasWork(s.ht0, s.rehashidx);
    } else {
      assert TableOk(s.hash, s.ht0) && |Items(s.ht0.slots)| == 0;
    }
  }

  /** Rehashing conserves the entries and their number, and leaves every table
      well placed; the last bucket out promotes ht[1] to a single table. */
  lemma {:induction false} RehashLoopKeeps(s: State, n: int, left: int)
    requires Shape(s, true) && Rehashing(s)
    ensures var t := RehashLoop(s, n, left).s;
      Shape(t, false) && All(t) == All(s) && Size(t) == Size(s) && t.hash == s.hash
    decreases |s.ht0.slots| - s.rehashidx
  {
    if n == 0 || s.ht0.used == 0 {
      PromoteKeeps(s);
    } else {
      match Scan(s.ht0.slots, s.rehashidx, left)
      case Exhausted(i) => OnePass(s, n, left);
      case Found(i, l) =>
        assert s.rehashidx <= i < |s.ht0.slots| by { OnePass(s, n, left); }
        var u := MoveBucket(s.(rehashidx := i));
        assert Shape(u, true) && Rehashing(u) && All(u) == All(s) && Size(u) == Size(s) && u.hash == s.hash by {
          OnePass(s, n, left);
        }
        RehashLoopKeeps(u, n - 1, l);
    }
  }

  /** A call moves at most n buckets and visits at most `left` empty ones, the
      cursor advances by exactly what was visited and moved, and the call stops
      short of both limits only by promoting. */
  lemma {:induction false} RehashLoopCost(s: State, n: nat, left: int)
    requires Shape(s, true) && Rehashing(s) && left > 0
    ensures Advanced(s, RehashLoop(s, n, left), n, left)
    decreases |s.ht0.slots| - s.rehashidx
  {
    if n == 0 || s.ht0.used == 0 {
    } else {
      CursorHasWork(s.ht0, s.rehashidx);
      ScanSkips(s.ht0.slots, s.rehashidx, left);
      match Scan(s.ht0.slots, s.rehashidx, left)
      case Exhausted(i) =>
      case Found(i, l) =>
        var t := s.(rehashidx := i);
        MoveBucketKeeps(t);
        RehashLoopCost(MoveBucket(t), n - 1, l);
    }
  }

  ghost predicate Advanced(s: State, r: Outcome, n: nat, left: int) {
    && r.moved <= n && r.empties <= left
    && if Rehashing(r.s) then
         && r.s.rehashidx == s.rehashidx + r.empties + r.moved
         && (r.moved == n || r.empties == left) && r.s.ht0.used <= s.ht0.used
         && |r.s.ht0.slots| == |s.ht0.slots| && |r.s.ht1.slots| == |s.ht1.slots|
       else
         |r.s.ht0.slots| == |s.ht1.slots|
  }

  // ---- the operations ----

  /** dictRehash */
  function Rehash(s: State, n: int): State
    requires Rehashing(s) ==> Migrating(s)
  {
    if !Rehashing(s) then s else RehashLoop(s, n, 10 * n).s
  }

  function FreshTable(size: nat): Table { Table(seq(size, _ => []), 0) }

  /** dictExpand; false is DICT_ERR. */
  function Expand(s: State, size: nat): (State, bool) {
    var r := NextPower(size);
    if Rehashing(s) then (s, true)
    else if r == |s.ht0.slots| then (s, false)
    else if |s.ht0.slots| == 0 then (s.(ht0 := FreshTable(r)), true)
    else (s.(ht1 := FreshTable(r), rehashidx := 0), true)
  }

  /** _dictExpandIfNeeded, with the 64-bit product `used * 2`.  Resizing is
      always allowed: dict_can_resize is 1 and never assigned. */
  function ExpandIfNeeded(s: State): (State, bool) {
    if Rehashing(s) then (s, true)
    else if |s.ht0.slots| == 0 then Expand(s, INITIAL_SIZE)
    else if s.ht0.used >= |s.ht0.slots| then Expand(s, s.ht0.used * 2 % WORD64)
    else (s, true)
  }

  predicate Searchable(s: State) {
    |s.ht0.slots| > 0 && (Rehashing(s) ==> |s.ht1.slots| > 0)
  }

  /** The search of dictGet and _dictKeyIndex: ht[0], then ht[1] while rehashing. */
  function FindBoth(s: State, text: Text): Option<Entry>
    requires Searchable(s)
  {
    var r := Lookup(s.hash, s.ht0, text);
    if r.Some? || !Rehashing(s) then r else Lookup(s.hash, s.ht1, text)
  }

  /** dictAdd behind its rehash step and expansion: link into the newest table. */
  function AddBody(s: State, e: Entry): (State, bool)
    requires Searchable(s)
  {
    if FindBoth(s, e.key.text).Some? then (s, false)
    else if Rehashing(s) then (s.(ht1 := Insert(s.hash, s.ht1, e)), true)
    else (s.(ht0 := Insert(s.hash, s.ht0, e)), true)
  }

  /** dictAdd behind its rehash step. */
  ghost function AddRest(s: State, e: Entry): (State, bool)
    requires Shape(s, false)
  {
    var (t, ok) := ExpandIfNeeded(s);
    if ok then
      ExpandIfNeededKeeps(s);
      AddBody(t, e)
    else (t, false)
  }

  ghost function Add(s: State, e: Entry): (State, bool)
    requires Shape(s, false)
  {
    StepKeeps(s);
    AddRest(Rehash(s, 1), e)
  }

  /** dictDel behind its rehash step: unlink from the table that has the key. */
  function DelBody(s: State, text: Text): (State, Option<Entry>)
    requires Searchable(s)
  {
    var r0 := Lookup(s.hash, s.ht0, text);
    if r0.Some? then (s.(ht0 := Remove(s.hash, s.ht0, text)), r0)
    else if !Rehashing(s) then (s, None)
    else
      var r1 := Lookup(s.hash, s.ht1, text);
      if r1.Some? then (s.(ht1 := Remove(s.hash, s.ht1, text)), r1) else (s, None)
  }

  /** What _dictKeyIndex leaves and answers: a slot of the newest table for a new
      key, -1 for a stored one or a failed expansion. */
  ghost predicate Indexed(s: State, t: State, text: Text, idx: int) {
    && t == ExpandIfNeeded(s).0 && (ExpandIfNeeded(s).1 ==> Searchable(t))
    && if ExpandIfNeeded(s).1 && FindBoth(t, text).None? then
         idx == Slot(t.hash, text, if Rehashing(t) then |t.ht1.slots| else |t.ht0.slots|)
       else idx == -1
  }

  /** AddRest, with the index that _dictKeyIndex hands over. */
  lemma AddUnfolded(s: State, e: Entry, t: State, idx: int, u: State)
    requires Shape(s, false) && Indexed(s, t, e.key.text, idx)
    requires u == if idx == -1 then t else Linked(t, idx, e)
    ensures (u, idx != -1) == AddRest(s, e)
  {
  }

  /** An entry at the head of slot i of the newest table. */
  function Linked(s: State, i: nat, e: Entry): State
    requires i < if Rehashing(s) then |s.ht1.slots| else |s.ht0.slots|
  {
    if Rehashing(s) then s.(ht1 := Table(PushSlot(s.ht1.slots, i, e), s.ht1.used + 1))
    else s.(ht0 := Table(PushSlot(s.ht0.slots, i, e), s.ht0.used + 1))
  }

  ghost function Get(s: State, text: Text): (State, Option<Entry>)
    requires Shape(s, false)
  {
    if Size(s) == 0 then (s, None)
    else
      StepKeeps(s);
      (Rehash(s, 1), FindBoth(Rehash(s, 1), text))
  }

  ghost function Del(s: State, text: Text): (State, Option<Entry>)
    requires Shape(s, false)
  {
    if Size(s) == 0 then (s, None)
    else
      StepKeeps(s);
      DelBody(Rehash(s, 1), text)
  }

  // ---- each operation against a map ----

  lemma StepKeeps(s: State)
    requires Shape(s, false)
    ensures Shape(Rehash(s, 1), false) && Size(Rehash(s, 1)) == Size(s)
    ensures All(Rehash(s, 1)) == All(s)
    ensures Size(s) > 0 ==> Searchable(Rehash(s, 1))
  {
    RehashKeeps(s, 1);
  }

  lemma RehashKeeps(s: State, n: int)
    requires Shape(s, false)
    ensures var t := Rehash(s, n);
      Shape(t, false) && All(t) == All(s) && Size(t) == Size(s) && t.hash == s.hash
    ensures Size(s) > 0 ==> Searchable(Rehash(s, n))
  {
    if Rehashing(s) { RehashLoopKeeps(s, n, 10 * n); }
  }

  lemma FreshTableOk(h: HashFn, size: nat)
    requires IsPow2(size) && INITIAL_SIZE <= size <= LONG_MAX + 1
    ensures TableOk(h, FreshTable(size)) && Items(FreshTable(size).slots) == multiset{}
  {
    ItemsOfEmpty(FreshTable(size).slots);
  }

  lemma ExpandKeeps(s: State, size: nat)
    requires Shape(s, false)
    ensures var (t, ok) := Expand(s, size);
      && Shape(t, false) && All(t) == All(s) && Size(t) == Size(s) && t.hash == s.hash
      && (!ok ==> t == s) && (ok ==> Searchable(t))
  {
    var r := NextPower(size);
    assert IsPow2(r) && INITIAL_SIZE <= r <= LONG_MAX + 1 by { NextPowerLeast(size); }
    var f := FreshTable(r);
    assert TableOk(s.hash, f) && Items(f.slots) == multiset{} && |f.slots| == r by { FreshTableOk(s.hash, r); }
  }

  lemma LeastUnique(r: nat, q: nat, size: nat)
    requires IsLeastPow2(r, size) && IsLeastPow2(q, size)
    ensures r == q
  {
  }

  /** Expansion fails exactly when the table already has the size asked for; otherwise
      it installs an empty table of that size, as the first one or as the one to
      migrate to, unless a migration is under way. */
  ghost predicate Expanded(s: State, size: nat, t: State, ok: bool) {
    && (!ok <==> !Rehashing(s) && IsLeastPow2(|s.ht0.slots|, size))
    && (Rehashing(s) || !ok ==> t == s)
    && (!Rehashing(s) && ok ==>
         var n := if s.ht0.slots == [] then t.ht0 else t.ht1;
         && IsLeastPow2(|n.slots|, size) && n.used == 0 && EmptyBelow(n.slots, |n.slots|)
         && (Rehashing(t) <==> s.ht0.slots != [])
         && (Rehashing(t) ==> t.rehashidx == 0 && t.ht0 == s.ht0))
  }

  lemma ExpandExactly(s: State, size: nat)
    requires Shape(s, false) && size <= LONG_MAX + 1
    ensures var (t, ok) := Expand(s, size); Expanded(s, size, t, ok)
  {
    NextPowerLeast(size);
    if IsLeastPow2(|s.ht0.slots|, size) { LeastUnique(NextPower(size), |s.ht0.slots|, size); }
  }

  /** The growth test: a migration begins exactly when the table is full, and the
      first table gets its four slots. */
  lemma GrowthExactly(s: State)
    requires Shape(s, false) && s.ht0.used <= LONG_MAX
    ensures var (t, ok) := ExpandIfNeeded(s);
      && ok && (Rehashing(t) <==> Rehashing(s) || 0 < |s.ht0.slots| <= s.ht0.used)
      && (t != s ==>
           && (s.ht0.slots == [] ==> |t.ht0.slots| == 4 && !Rehashing(t))
           && (s.ht0.slots != [] ==>
                && t.ht0 == s.ht0 && t.rehashidx == 0 && t.ht1.used == 0
                && (2 * s.ht0.used <= LONG_MAX + 1 ==> IsLeastPow2(|t.ht1.slots|, 2 * s.ht0.used))))
  {
    GrowthSucceeds(s);
    ExpandExactly(s, INITIAL_SIZE);
    NextPowerLeast(s.ht0.used * 2 % WORD64);
    assert NextPower(INITIAL_SIZE) == INITIAL_SIZE;
  }

  lemma ExpandIfNeededKeeps(s: State)
    requires Shape(s, false)
    ensures var (t, ok) := ExpandIfNeeded(s);
      && Shape(t, false) && All(t) == All(s) && Size(t) == Size(s) && t.hash == s.hash
      && (!ok ==> t == s) && (ok ==> Searchable(t))
  {
    ExpandKeeps(s, INITIAL_SIZE);
    ExpandKeeps(s, s.ht0.used * 2 % WORD64);
  }

  /** Growing never fails: doubling the count of a full table cannot round to
      the size the table already has. */
  lemma GrowthSucceeds(s: State)
    requires Shape(s, false) && s.ht0.used <= LONG_MAX
    ensures ExpandIfNeeded(s).1
  {
    var n, u := |s.ht0.slots|, s.ht0.used;
    if !Rehashing(s) && 0 < n <= u {
      Pow2Of63();
      NextPowerLeast(2 * u);
      Pow2Gap(n, LONG_MAX + 1);
    }
    NextPowerLeast(INITIAL_SIZE);
  }

  lemma {:induction false} FindInRight(c: Chain, text: Text)
    ensures FindIn(c, text).Some? ==> FindIn(c, text).value in c && FindIn(c, text).value.key.text == text
    ensures FindIn(c, text).None? ==> forall e :: e in c ==> e.key.text != text
  {
    if c != [] && c[0].key.text != text {
      FindInRight(c[1..], text);
      forall e | e in c && FindIn(c, text).None? ensures e.key.text != text {
        assert e == c[0] || e in c[1..];
      }
    }
  }

  /** A search that has passed k entries and stops there. */
  lemma {:induction false} FindAt(c: Chain, text: Text, k: nat)
    requires k <= |c| && (forall j :: 0 <= j < k ==> c[j].key.text != text) && (k < |c| ==> c[k].key.text == text)
    ensures FindIn(c, text) == if k < |c| then Some(c[k]) else None
    ensures k < |c| ==> Without(c, text) == c[..k] + c[k + 1..]
  {
    if k > 0 {
      FindAt(c[1..], text, k - 1);
      if k < |c| { assert [c[0]] + (c[1..][..k - 1] + c[1..][k..]) == c[..k] + c[k + 1..]; }
    } else if c != [] {
      assert c[..0] + c[1..] == c[1..];
    }
  }

  /** Every stored entry hangs at its hash under the mask of its table. */
  lemma HangsAtMask(h: HashFn, t: Table, i: nat, e: Entry)
    requires TableOk(h, t) && i < |t.slots| && e in t.slots[i]
    ensures i == BitAnd(h(e.key.text), |t.slots| - 1)
  {
    MaskOfPow2(h(e.key.text), |t.slots|);
  }

  /** From `was` to `now` the entry e has been put in front of the chain at its hash
      under the mask of the table, and nothing else has moved. */
  ghost predicate HeadIn(h: HashFn, was: Table, now: Table, e: Entry) {
    && 0 < |was.slots| == |now.slots| && now.used == was.used + 1
    && forall i :: 0 <= i < |now.slots| ==>
         now.slots[i] == (if i == BitAnd(h(e.key.text), |now.slots| - 1) then [e] else []) + was.slots[i]
  }

  lemma InsertHeads(h: HashFn, was: Table, e: Entry)
    requires TableOk(h, was) && |was.slots| > 0
    ensures HeadIn(h, was, Insert(h, was, e), e)
  {
    MaskOfPow2(h(e.key.text), |was.slots|);
    forall i | 0 <= i < |was.slots| ensures [] + was.slots[i] == was.slots[i] { AppendNone(was.slots[i]); }
  }

  /** From r to t the newest table has e as a new head, and the rest is as it was. */
  ghost predicate HeadAdded(r: State, t: State, e: Entry) {
    && t.rehashidx == r.rehashidx && t.hash == r.hash
    && if Rehashing(r) then t.ht0 == r.ht0 && HeadIn(r.hash, r.ht1, t.ht1, e)
       else t.ht1 == r.ht1 && HeadIn(r.hash, r.ht0, t.ht0, e)
  }

  lemma BodyHeads(r: State, e: Entry)
    requires Shape(r, false) && Searchable(r) && AddBody(r, e).1
    ensures HeadAdded(r, AddBody(r, e).0, e)
  {
    InsertHeads(r.hash, if Rehashing(r) then r.ht1 else r.ht0, e);
  }

  /** A new entry heads its chain in the newest table, behind step and growth. */
  lemma AddHeads(s: State, e: Entry)
    requires Shape(s, false) && Add(s, e).1
    ensures HeadAdded(ExpandIfNeeded(Rehash(s, 1)).0, Add(s, e).0, e)
  {
    RehashKeeps(s, 1);
    ExpandIfNeededKeeps(Rehash(s, 1));
    BodyHeads(ExpandIfNeeded(Rehash(s, 1)).0, e);
  }

  /** The entries of a chain that belong in slot i, last one first. */
  function Landing(h: HashFn, c: Chain, i: nat, n: nat): Chain
    requires n > 0
  {
    if c == [] then []
    else Landing(h, c[1..], i, n) + if Slot(h, c[0].key.text, n) == i then [c[0]] else []
  }

  /** Relinking a chain turns the order round: in every slot, what lands there comes
      in reverse in front of what was there. */
  lemma {:induction false} RelinkReverses(h: HashFn, c: Chain, slots: seq<Chain>, i: nat)
    requires i < |slots|
    ensures Relink(h, c, slots)[i] == Landing(h, c, i, |slots|) + slots[i]
  {
    if c == [] {
      AppendNone(slots[i]);
    } else {
      var j := Slot(h, c[0].key.text, |slots|);
      var t := PushSlot(slots, j, c[0]);
      RelinkReverses(h, c[1..], t, i);
      if i == j {
        AppendAssoc(Landing(h, c[1..], i, |slots|), [c[0]], slots[i]);
      } else {
        AppendNone(Landing(h, c[1..], i, |slots|));
      }
    }
  }

  lemma LookupRight(h: HashFn, t: Table, text: Text)
    requires Placed(h, t.slots) && |t.slots| > 0
    ensures Lookup(h, t, text).Some? ==>
      Lookup(h, t, text).value in Items(t.slots) && Lookup(h, t, text).value.key.text == text
    ensures Lookup(h, t, text).None? ==> forall e :: e in Items(t.slots) ==> e.key.text != text
  {
    var i := Slot(h, text, |t.slots|);
    FindInRight(t.slots[i], text);
    if Lookup(h, t, text).Some? {
      ItemsIn(t.slots, Lookup(h, t, text).value);
    } else {
      forall e | e in Items(t.slots) ensures e.key.text != text { ItemsIn(t.slots, e); }
    }
  }

  lemma Bound(all: multiset<Entry>, m: map<Text, Entry>, e: Entry)
    requires Represents(all, m)
    ensures e in all <==> e.key.text in m && m[e.key.text] == e
  {
    assert all[e] == if e.key.text in m && m[e.key.text] == e then 1 else 0;
  }

  lemma BindOne(all: multiset<Entry>, m: map<Text, Entry>, e: Entry)
    requires Represents(all, m) && e.key.text !in m
    ensures Represents(all + multiset{e}, m[e.key.text := e])
  {
  }

  lemma UnbindOne(all: multiset<Entry>, rest: multiset<Entry>, m: map<Text, Entry>, e: Entry)
    requires Represents(all, m) && all == rest + multiset{e}
    ensures Represents(rest, m - {e.key.text})
  {
    Bound(all, m, e);
    forall x ensures rest[x] == if x.key.text in m - {e.key.text} && (m - {e.key.text})[x.key.text] == x then 1 else 0 {
      assert all[x] == rest[x] + multiset{e}[x];
    }
  }

  lemma FindBothAmong(s: State, text: Text)
    requires Shape(s, false) && Searchable(s)
    ensures var r := FindBoth(s, text);
      && (r.Some? ==> r.value in All(s) && r.value.key.text == text)
      && (r.None? ==> forall e :: e in All(s) ==> e.key.text != text)
  {
    LookupRight(s.hash, s.ht0, text);
    if Rehashing(s) { LookupRight(s.hash, s.ht1, text); }
  }

  /** A search answers what the map says, in either table. */
  lemma FindBothRight(s: State, m: map<Text, Entry>, text: Text)
    requires Inv(s, m) && Searchable(s)
    ensures FindBoth(s, text) == if text in m then Some(m[text]) else None
  {
    var all, r := All(s), FindBoth(s, text);
    FindBothAmong(s, text);
    if r.Some? {
      Bound(all, m, r.value);
    } else if text in m {
      Bound(all, m, m[text]);
    }
  }

  lemma InsertKeeps(h: HashFn, t: Table, e: Entry)
    requires TableOk(h, t) && |t.slots| > 0
    ensures TableOk(h, Insert(h, t, e))
    ensures Items(Insert(h, t, e).slots) == Items(t.slots) + multiset{e}
  {
    ItemsPush(h, t.slots, Slot(h, e.key.text, |t.slots|), e);
  }

  lemma {:induction false} WithoutItems(c: Chain, text: Text)
    requires FindIn(c, text).Some?
    ensures multiset(c) == multiset(Without(c, text)) + multiset{FindIn(c, text).value}
    ensures forall e :: e in Without(c, text) ==> e in c
  {
    assert c == [c[0]] + c[1..];
    if c[0].key.text != text { WithoutItems(c[1..], text); }
  }

  lemma RemoveKeeps(h: HashFn, t: Table, text: Text)
    requires TableOk(h, t) && |t.slots| > 0 && Lookup(h, t, text).Some?
    ensures TableOk(h, Remove(h, t, text))
    ensures Items(t.slots) == Items(Remove(h, t, text).slots) + multiset{Lookup(h, t, text).value}
    ensures t.used == Remove(h, t, text).used + 1
  {
    var i := Slot(h, text, |t.slots|);
    var c := t.slots[i];
    WithoutItems(c, text);
    var rest := Items(t.slots[i := Without(c, text)]);
    assert Items(t.slots) == rest + multiset{Lookup(h, t, text).value} by {
      ItemsUpdate(t.slots, i, Without(c, text));
    }
    assert |Items(t.slots)| == |rest| + 1;
    assert Placed(h, t.slots[i := Without(c, text)]);
  }

  lemma AddBodyKeeps(s: State, e: Entry)
    requires Shape(s, false) && Searchable(s) && FindBoth(s, e.key.text).None?
    ensures var t := AddBody(s, e).0;
      Shape(t, false) && All(t) == All(s) + multiset{e} && Size(t) == Size(s) + 1 && t.hash == s.hash
  {
    InsertKeeps(s.hash, if Rehashing(s) then s.ht1 else s.ht0, e);
  }

  lemma AddBodyRight(s: State, m: map<Text, Entry>, e: Entry)
    requires Inv(s, m) && Searchable(s)
    ensures var (t, ok) := AddBody(s, e);
      && (ok <==> e.key.text !in m)
      && Inv(t, if ok then m[e.key.text := e] else m)
      && Size(t) == Size(s) + (if ok then 1 else 0)
  {
    FindBothRight(s, m, e.key.text);
    if e.key.text !in m {
      BindOne(All(s), m, e);
      AddBodyKeeps(s, e);
    }
  }

  lemma DelBodyKeeps(s: State, text: Text)
    requires Shape(s, false) && Searchable(s) && FindBoth(s, text).Some?
    ensures var (t, r) := DelBody(s, text);
      && r == FindBoth(s, text) && t.hash == s.hash
      && Shape(t, false) && All(s) == All(t) + multiset{r.value} && Size(s) == Size(t) + 1
  {
    if Lookup(s.hash, s.ht0, text).Some? {
      var t := Remove(s.hash, s.ht0, text);
      assert TableOk(s.hash, t) && s.ht0.used == t.used + 1 by { RemoveKeeps(s.hash, s.ht0, text); }
      assert Items(s.ht0.slots) == Items(t.slots) + multiset{FindBoth(s, text).value} by {
        RemoveKeeps(s.hash, s.ht0, text);
      }
      RemoveKeepsEmpty(s.ht0.slots, Slot(s.hash, text, |s.ht0.slots|), text, s.rehashidx);
    } else {
      RemoveKeeps(s.hash, s.ht1, text);
    }
  }

  lemma RemoveKeepsEmpty(slots: seq<Chain>, i: nat, text: Text, n: int)
    requires i < |slots|
    ensures EmptyBelow(slots, n) ==> EmptyBelow(slots[i := Without(slots[i], text)], n)
  {
  }

  lemma DelBodyRight(s: State, m: map<Text, Entry>, text: Text)
    requires Inv(s, m) && Searchable(s)
    ensures var (t, r) := DelBody(s, text);
      && r == (if text in m then Some(m[text]) else None)
      && Inv(t, m - {text})
      && Size(t) == Size(s) - (if r.Some? then 1 else 0)
  {
    FindBothRight(s, m, text);
    if text in m {
      DelBodyKeeps(s, text);
      Bound(All(s), m, m[text]);
      UnbindOne(All(s), All(DelBody(s, text).0), m, m[text]);
    } else {
      assert m - {text} == m;
    }
  }

  /** Add succeeds only on a new key, and fails on a new key only past 2^63
      entries; either way the dictionary goes on representing a map. */
  lemma AddRight(s: State, m: map<Text, Entry>, e: Entry)
    requires Inv(s, m)
    ensures var (t, ok) := Add(s, e);
      && (ok ==> e.key.text !in m)
      && (Size(s) <= LONG_MAX && e.key.text !in m ==> ok)
      && Inv(t, if ok then m[e.key.text := e] else m)
      && Size(t) <= Size(s) + 1
  {
    var s1 := Rehash(s, 1);
    StepKeeps(s);
    if Size(s) <= LONG_MAX { GrowthSucceeds(s1); }
    ExpandIfNeededKeeps(s1);
    var (s2, ok) := ExpandIfNeeded(s1);
    if ok { AddBodyRight(s2, m, e); }
  }

  lemma EmptyHoldsNothing(s: State, m: map<Text, Entry>, text: Text)
    requires Inv(s, m) && Size(s) == 0
    ensures text !in m
  {
    if text in m { Bound(All(s), m, m[text]); }
  }

  /** A lookup or deletion advances a migration or ends it, unless the dictionary is
      empty, which it leaves as it is. */
  predicate StepTaken(s: State, t: State) {
    && (Size(s) == 0 ==> t.rehashidx == s.rehashidx && t.ht0 == s.ht0 && t.ht1 == s.ht1)
    && (Size(s) > 0 && Rehashing(s) && Rehashing(t) ==> t.rehashidx > s.rehashidx)
    && (!Rehashing(s) ==> !Rehashing(t) && |t.ht0.slots| == |s.ht0.slots|)
  }

  lemma StepAdvances(s: State)
    requires Shape(s, false)
    ensures var t := Rehash(s, 1);
      (Rehashing(s) && Rehashing(t) ==> t.rehashidx > s.rehashidx) && (!Rehashing(s) ==> t == s)
  {
    if Rehashing(s) { RehashLoopCost(s, 1, 10); }
  }

  lemma DelSteps(s: State, r: State, text: Text)
    requires Shape(s, false) && Size(s) > 0 && r == Rehash(s, 1) && Searchable(r)
    ensures StepTaken(s, DelBody(r, text).0)
  {
    StepAdvances(s);
  }

  /** Del answers with what the map held and removes that key only. */
  lemma DelRight(s: State, m: map<Text, Entry>, text: Text)
    requires Inv(s, m)
    ensures var (t, r) := Del(s, text);
      && r == (if text in m then Some(m[text]) else None)
      && Inv(t, m - {text}) && StepTaken(s, t)
      && Size(t) == Size(s) - (if r.Some? then 1 else 0)
  {
    if Size(s) == 0 {
      EmptyHoldsNothing(s, m, text);
      assert m - {text} == m;
    } else {
      var r := Rehash(s, 1);
      assert Inv(r, m) && Size(r) == Size(s) && Searchable(r) by { StepKeeps(s); }
      DelBodyRight(r, m, text);
      DelSteps(s, r, text);
    }
  }

  /** Get answers with what the map holds. */
  lemma GetRight(s: State, m: map<Text, Entry>, text: Text)
    requires Inv(s, m)
    ensures var (t, r) := Get(s, text);
      && r == (if text in m then Some(m[text]) else None)
      && Inv(t, m) && Size(t) == Size(s) && StepTaken(s, t)
  {
    StepKeeps(s);
    StepAdvances(s);
    if Size(s) == 0 { EmptyHoldsNothing(s, m, text); } else { FindBothRight(Rehash(s, 1), m, text); }
  }
}
