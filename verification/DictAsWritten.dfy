/** The four lines of lib/dict.c that depart from the rest of the file, as they
    are written, and for each the exact condition under which they do what
    DictModel.dfy proves. */
module DictAsWritten {
  import opened Common
  import opened Words
  import opened DictModel
  import opened DictTheorems

  // ---- lines 146 and 160: dictRehash ----

  /** _dictKeyIndex while migrating bucket b, for the key of an entry still to be
      moved.  `seen` is the chain that hangs from ht[0].table[b] at that moment.
      The growth test is off during a migration, so -1 means the key was found. */
  function KeyIndex(h: HashFn, slots0: seq<Chain>, b: nat, seen: Chain, slots1: seq<Chain>, text: Text): int
    requires b < |slots0| && |slots1| > 0
  {
    var i0, i1 := Slot(h, text, |slots0|), Slot(h, text, |slots1|);
    if FindIn(if i0 == b then seen else slots0[i0], text).Some? then -1
    else if FindIn(slots1[i1], text).Some? then -1
    else i1
  }

  /** The result of KeyIndex under the mask of a table of n slots; all bits of
      -1 are set. */
  function Masked(i: int, n: nat): (r: nat)
    requires i >= -1 && n > 0
    ensures r < n
  {
    if i == -1 then n - 1 else i % n
  }

  /** Lines 155-166.  The head of the bucket stays linked from ht[0] until line
      167, but its `next` already leads into ht[1]: from the second entry on, the
      search of line 160 walks the first entry and what followed it there.  None
      is a write past the end of ht[1].table in line 162. */
  function Relinked(h: HashFn, slots0: seq<Chain>, b: nat, first: bool, seen: Chain, c: Chain, slots1: seq<Chain>)
    : (r: Option<seq<Chain>>)
    requires b < |slots0| && |slots1| > 0
    ensures r.Some? ==> |r.value| == |slots1|
    decreases |c|
  {
    if c == [] then Some(slots1)
    else
      var at := Masked(KeyIndex(h, slots0, b, seen, slots1, c[0].key.text), |slots0|);
      if at >= |slots1| then None
      else
        Relinked(h, slots0, b, false, if first then [c[0]] + slots1[at] else seen, c[1..], PushSlot(slots1, at, c[0]))
  }

  /** One pass of lines 156-166. */
  lemma RelinkedStep(h: HashFn, slots0: seq<Chain>, b: nat, first: bool, seen: Chain, c: Chain, slots1: seq<Chain>,
                     at: nat)
    requires b < |slots0| && |slots1| > 0 && c != []
    requires at == Masked(KeyIndex(h, slots0, b, seen, slots1, c[0].key.text), |slots0|)
    ensures Relinked(h, slots0, b, first, seen, c, slots1) ==
      if at >= |slots1| then None
      else
        Relinked(h, slots0, b, false, if first then [c[0]] + slots1[at] else seen, c[1..], PushSlot(slots1, at, c[0]))
  {
  }

  function MoveBucketAsWritten(s: State): (r: Option<State>)
    requires 0 <= s.rehashidx < |s.ht0.slots| && |s.ht1.slots| > 0
    ensures r.Some? ==> r.value.rehashidx == s.rehashidx + 1 && |r.value.ht0.slots| == |s.ht0.slots|
    ensures r.Some? ==> |r.value.ht1.slots| == |s.ht1.slots|
  {
    var b := s.rehashidx;
    var c := s.ht0.slots[b];
    var r := Relinked(s.hash, s.ht0.slots, b, true, c, c, s.ht1.slots);
    if r.None? then None
    else
      Some(State(s.hash, Table(s.ht0.slots[b := []], if s.ht0.used >= |c| then s.ht0.used - |c| else 0),
                 Table(r.value, s.ht1.used + |c|), b + 1))
  }

  /** MoveBucketAsWritten from the result of the loop over the bucket. */
  lemma MovedAsWritten(s: State, c: Chain, r: Option<seq<Chain>>)
    requires 0 <= s.rehashidx < |s.ht0.slots| && |s.ht1.slots| > 0
    requires c == s.ht0.slots[s.rehashidx] && s.ht0.used >= |c|
    requires r == Relinked(s.hash, s.ht0.slots, s.rehashidx, true, c, c, s.ht1.slots)
    ensures MoveBucketAsWritten(s) ==
      if r.None? then None
      else Some(State(s.hash, Table(s.ht0.slots[s.rehashidx := []], s.ht0.used - |c|),
                      Table(r.value, s.ht1.used + |c|), s.rehashidx + 1))
  {
  }

  ghost predicate DistinctTexts(c: Chain) {
    forall i, j :: 0 <= i < j < |c| ==> c[i].key.text != c[j].key.text
  }

  ghost predicate Absent(text: Text, c: Chain) {
    forall e :: e in c ==> e.key.text != text
  }

  /** Slots of the larger table project onto those of the smaller one. */
  ghost predicate SlotsRefine(h: HashFn, n0: nat, n1: nat)
    requires n0 > 0 && n1 > 0
  {
    forall text {:trigger Slot(h, text, n1)} :: Slot(h, text, n1) % n0 == Slot(h, text, n0)
  }

  lemma PlacedPush(h: HashFn, slots: seq<Chain>, i: nat, e: Entry)
    requires i < |slots|
    ensures Items(PushSlot(slots, i, e)) == Items(slots) + multiset{e}
    ensures Placed(h, PushSlot(slots, i, e)) <==> (Placed(h, slots) && Slot(h, e.key.text, |slots|) == i)
  {
    ItemsPush(h, slots, i, e);
    var t := PushSlot(slots, i, e);
    if Placed(h, t) {
      assert e in t[i];
      forall j, x: Entry | 0 <= j < |slots| && x in slots[j] ensures Slot(h, x.key.text, |slots|) == j {
        assert x in t[j];
      }
    }
  }

  ghost predicate AllIn(h: HashFn, c: Chain, i: int, n: nat)
    requires n > 0
  {
    forall e :: e in c ==> Slot(h, e.key.text, n) == i
  }

  /** The key is in neither table: what line 160 computes is the bucket's own number. */
  lemma SearchMisses(h: HashFn, slots0: seq<Chain>, b: nat, seen: Chain, slots1: seq<Chain>, text: Text)
    requires b < |slots0| <= |slots1| && SlotsRefine(h, |slots0|, |slots1|) && Slot(h, text, |slots0|) == b
    requires Absent(text, seen) && forall i :: 0 <= i < |slots1| ==> Absent(text, slots1[i])
    ensures Masked(KeyIndex(h, slots0, b, seen, slots1, text), |slots0|) == b
  {
    var i1 := Slot(h, text, |slots1|);
    FindInRight(seen, text);
    FindInRight(slots1[i1], text);
    assert i1 % |slots0| == b;
  }

  lemma RestPremises(h: HashFn, b: nat, n: nat, seen: Chain, c: Chain, slots1: seq<Chain>)
    requires c != [] && b < |slots1| && n > 0
    requires DistinctTexts(c) && AllIn(h, c, b, n) && forall e :: e in c ==> Absent(e.key.text, seen)
    requires forall e, i :: e in c && 0 <= i < |slots1| ==> Absent(e.key.text, slots1[i])
    ensures Slot(h, c[0].key.text, n) == b && Absent(c[0].key.text, seen)
    ensures forall i :: 0 <= i < |slots1| ==> Absent(c[0].key.text, slots1[i])
    ensures DistinctTexts(c[1..]) && AllIn(h, c[1..], b, n) && forall e :: e in c[1..] ==> Absent(e.key.text, seen)
    ensures forall e, i :: e in c[1..] && 0 <= i < |slots1| ==> Absent(e.key.text, PushSlot(slots1, b, c[0])[i])
  {
    assert c[0] in c && forall x :: x in c[1..] ==> x in c && x.key.text != c[0].key.text;
    forall x, i | x in c[1..] && 0 <= i < |slots1| ensures Absent(x.key.text, PushSlot(slots1, b, c[0])[i]) {
      assert Absent(x.key.text, slots1[i]);
    }
  }

  lemma RestAdds(h: HashFn, b: nat, c: Chain, slots1: seq<Chain>, t: seq<Chain>, r: seq<Chain>)
    requires c != [] && b < |slots1| && t == PushSlot(slots1, b, c[0])
    requires Items(r) == Items(t) + multiset(c[1..])
    requires Placed(h, r) <==> (Placed(h, t) && AllIn(h, c[1..], b, |slots1|))
    ensures Items(r) == Items(slots1) + multiset(c)
    ensures Placed(h, r) <==> (Placed(h, slots1) && AllIn(h, c, b, |slots1|))
  {
    var x, y, w := Items(slots1), multiset{c[0]}, multiset(c[1..]);
    PlacedPush(h, slots1, b, c[0]);
    assert c == [c[0]] + c[1..];
    assert multiset(c) == y + w && x + y + w == x + (y + w);
  }

  /** From the second entry on: every search of line 160 misses, and what it
      returns, masked by the old size, is the bucket's own number. */
  lemma {:induction false} RelinkedRest(h: HashFn, slots0: seq<Chain>, b: nat, seen: Chain, c: Chain,
                                        slots1: seq<Chain>)
    requires b < |slots0| <= |slots1| && SlotsRefine(h, |slots0|, |slots1|)
    requires DistinctTexts(c) && AllIn(h, c, b, |slots0|) && forall e :: e in c ==> Absent(e.key.text, seen)
    requires forall e, i :: e in c && 0 <= i < |slots1| ==> Absent(e.key.text, slots1[i])
    ensures var r := Relinked(h, slots0, b, false, seen, c, slots1);
      && r.Some? && Items(r.value) == Items(slots1) + multiset(c)
      && (Placed(h, r.value) <==> (Placed(h, slots1) && AllIn(h, c, b, |slots1|)))
    decreases |c|
  {
    if c != [] {
      var t := PushSlot(slots1, b, c[0]);
      RestPremises(h, b, |slots0|, seen, c, slots1);
      var r := Relinked(h, slots0, b, false, seen, c[1..], t);
      assert Relinked(h, slots0, b, false, seen, c, slots1) == r by {
        SearchMisses(h, slots0, b, seen, slots1, c[0].key.text);
        RelinkedStep(h, slots0, b, false, seen, c, slots1, b);
      }
      RelinkedRest(h, slots0, b, seen, c[1..], t);
      RestAdds(h, b, c, slots1, t, r.value);
    }
  }

  /** The bucket survives lines 155-166: its first entry belongs in the last slot
      of the old size and every other one in the slot of the same number. */
  ghost predicate Survives(h: HashFn, c: Chain, b: int, n0: nat, n1: nat)
    requires n0 > 0 && n1 > 0
  {
    c != [] ==> Slot(h, c[0].key.text, n1) == n0 - 1 && AllIn(h, c[1..], b, n1)
  }

  lemma TailDistinct(h: HashFn, c: Chain, slots1: seq<Chain>, z: nat, seen: Chain, t: seq<Chain>)
    requires c != [] && DistinctTexts(c) && z < |slots1|
    requires forall e, i :: e in c && 0 <= i < |slots1| ==> Absent(e.key.text, slots1[i])
    requires seen == [c[0]] + slots1[z] && t == PushSlot(slots1, z, c[0])
    ensures DistinctTexts(c[1..]) && forall e :: e in c[1..] ==> e in c && Absent(e.key.text, seen)
    ensures forall e, i :: e in c[1..] && 0 <= i < |t| ==> Absent(e.key.text, t[i])
  {
    forall x | x in c[1..] ensures x in c && x.key.text != c[0].key.text && Absent(x.key.text, seen) {
      assert Absent(x.key.text, slots1[z]);
    }
    forall x, i | x in c[1..] && 0 <= i < |slots1| ensures Absent(x.key.text, t[i]) {
      assert Absent(x.key.text, slots1[i]);
    }
  }

  lemma FirstThenRest(h: HashFn, slots0: seq<Chain>, b: nat, slots1: seq<Chain>, c: Chain, z: nat, seen: Chain,
                      t: seq<Chain>, r: Option<seq<Chain>>)
    requires b < |slots0| <= |slots1| && SlotsRefine(h, |slots0|, |slots1|)
    requires slots0[b] == c && c != [] && DistinctTexts(c) && AllIn(h, c, b, |slots0|)
    requires forall e, i :: e in c && 0 <= i < |slots1| ==> Absent(e.key.text, slots1[i])
    requires z == |slots0| - 1 && seen == [c[0]] + slots1[z] && t == PushSlot(slots1, z, c[0])
    requires r == Relinked(h, slots0, b, false, seen, c[1..], t)
    ensures r.Some? && Items(r.value) == Items(slots1) + multiset(c)
    ensures Placed(h, r.value) <==> (Placed(h, slots1) && Survives(h, c, b, |slots0|, |slots1|))
  {
    var x, y, w := Items(slots1), multiset{c[0]}, multiset(c[1..]);
    assert && r.Some? && Items(r.value) == Items(t) + w
           && (Placed(h, r.value) <==> (Placed(h, t) && AllIn(h, c[1..], b, |slots1|))) by {
      TailDistinct(h, c, slots1, z, seen, t);
      RelinkedRest(h, slots0, b, seen, c[1..], t);
    }
    assert Items(t) == x + y && (Placed(h, t) <==> (Placed(h, slots1) && Slot(h, c[0].key.text, |slots1|) == z)) by {
      PlacedPush(h, slots1, z, c[0]);
    }
    assert multiset(c) == y + w by { assert c == [c[0]] + c[1..]; }
    assert x + y + w == x + (y + w);
  }

  /** The search of line 160 finds the first entry of the bucket itself, and -1
      under the old mask is the last slot of the old size. */
  lemma FirstFound(h: HashFn, slots0: seq<Chain>, b: nat, slots1: seq<Chain>, c: Chain, z: nat)
    requires b < |slots0| && |slots1| > 0 && c != [] && Slot(h, c[0].key.text, |slots0|) == b && z == |slots0| - 1
    ensures Relinked(h, slots0, b, true, c, c, slots1) ==
      if z >= |slots1| then None
      else Relinked(h, slots0, b, false, [c[0]] + slots1[z], c[1..], PushSlot(slots1, z, c[0]))
  {
    assert FindIn(c, c[0].key.text) == Some(c[0]);
    assert KeyIndex(h, slots0, b, c, slots1, c[0].key.text) == -1;
  }

  /** What lines 155-166 amount to: the search finds the first entry of the bucket
      and answers -1, which selects the last slot of the old size; all others go to
      slot b.  A smaller new table has no such slot.  Otherwise no entry is lost,
      and placement survives exactly when those are the slots the hashes select. */
  lemma RelinkedBucket(h: HashFn, slots0: seq<Chain>, b: nat, slots1: seq<Chain>)
    requires b < |slots0| && |slots1| > 0 && (|slots0| <= |slots1| ==> SlotsRefine(h, |slots0|, |slots1|))
    requires slots0[b] != [] && DistinctTexts(slots0[b]) && AllIn(h, slots0[b], b, |slots0|)
    requires forall e, i :: e in slots0[b] && 0 <= i < |slots1| ==> Absent(e.key.text, slots1[i])
    ensures var c := slots0[b];
      var r := Relinked(h, slots0, b, true, c, c, slots1);
      && (r.None? <==> |slots1| < |slots0|)
      && (r.Some? ==> Items(r.value) == Items(slots1) + multiset(c))
      && (r.Some? ==> (Placed(h, r.value) <==> (Placed(h, slots1) && Survives(h, c, b, |slots0|, |slots1|))))
  {
    var c, z := slots0[b], |slots0| - 1;
    var r := Relinked(h, slots0, b, true, c, c, slots1);
    if z >= |slots1| {
      assert r.None? by { FirstFound(h, slots0, b, slots1, c, z); }
    } else {
      var t, seen := PushSlot(slots1, z, c[0]), [c[0]] + slots1[z];
      assert r == Relinked(h, slots0, b, false, seen, c[1..], t) by { FirstFound(h, slots0, b, slots1, c, z); }
      assert && r.Some? && Items(r.value) == Items(slots1) + multiset(c)
             && (Placed(h, r.value) <==> (Placed(h, slots1) && Survives(h, c, b, |slots0|, |slots1|))) by {
        FirstThenRest(h, slots0, b, slots1, c, z, seen, t, r);
      }
    }
  }

  /** Shape without the claim that ht[1] is well placed, for a growing table. */
  ghost predicate Loose(s: State, mid: bool) {
    && TableOk(s.hash, s.ht0) && s.ht1.used == |Items(s.ht1.slots)| && Rehashing(s)
    && 0 <= s.rehashidx <= |s.ht0.slots| && (mid || s.rehashidx < |s.ht0.slots|)
    && EmptyBelow(s.ht0.slots, s.rehashidx)
    && 0 < |s.ht0.slots| <= |s.ht1.slots| && SlotsRefine(s.hash, |s.ht0.slots|, |s.ht1.slots|)
  }

  lemma Twice(c: Chain, i: nat, j: nat)
    requires i < j < |c| && c[i] == c[j]
    ensures multiset(c)[c[i]] >= 2
  {
    assert c == c[..j] + c[j..];
    assert c[i] in c[..j] && c[j] in c[j..];
  }

  lemma TwiceInAll(s: State, b: nat, i: nat, j: nat)
    requires b < |s.ht0.slots| && i < j < |s.ht0.slots[b]| && s.ht0.slots[b][i] == s.ht0.slots[b][j]
    ensures All(s)[s.ht0.slots[b][i]] >= 2
  {
    Twice(s.ht0.slots[b], i, j);
    ItemsUpdate(s.ht0.slots, b, []);
  }

  lemma InBoth(s: State, b: nat, e: Entry, i: int)
    requires b < |s.ht0.slots| && e in s.ht0.slots[b]
    requires 0 <= i < |s.ht1.slots| && e in s.ht1.slots[i]
    ensures All(s)[e] >= 2
  {
    ItemsIn(s.ht0.slots, e);
    ItemsIn(s.ht1.slots, e);
  }

  lemma SameText(s: State, m: Bindings, e: Entry, x: Entry)
    requires Represents(All(s), m) && e in All(s) && x in All(s) && e.key.text == x.key.text
    ensures e == x && All(s)[e] == 1
  {
    Bound(All(s), m, e);
    Bound(All(s), m, x);
  }

  /** Distinct keys, as the closed form of the relinking needs them. */
  lemma BucketDistinct(s: State, m: Bindings, b: nat)
    requires Represents(All(s), m) && b < |s.ht0.slots|
    ensures DistinctTexts(s.ht0.slots[b])
    ensures forall e, i :: e in s.ht0.slots[b] && 0 <= i < |s.ht1.slots| ==> Absent(e.key.text, s.ht1.slots[i])
  {
    var c := s.ht0.slots[b];
    assert forall e :: e in c ==> e in Items(s.ht0.slots) by { ItemsUpdate(s.ht0.slots, b, []); }
    forall i, j | 0 <= i < j < |c| ensures c[i].key.text != c[j].key.text {
      if c[i].key.text == c[j].key.text {
        SameText(s, m, c[i], c[j]);
        TwiceInAll(s, b, i, j);
      }
    }
    forall e, i | e in c && 0 <= i < |s.ht1.slots| ensures Absent(e.key.text, s.ht1.slots[i]) {
      forall x | x in s.ht1.slots[i] ensures x.key.text != e.key.text {
        ItemsIn(s.ht1.slots, x);
        if x.key.text == e.key.text {
          SameText(s, m, e, x);
          InBoth(s, b, e, i);
        }
      }
    }
  }

  lemma MoveAsWritten(s: State, m: Bindings)
    requires Loose(s, true) && Represents(All(s), m)
    requires s.rehashidx < |s.ht0.slots| && s.ht0.slots[s.rehashidx] != []
    ensures MoveBucketAsWritten(s).Some?
    ensures var t := MoveBucketAsWritten(s).value;
      && Loose(t, true) && All(t) == All(s) && Size(t) == Size(s)
      && (Placed(s.hash, t.ht1.slots) <==>
          (Placed(s.hash, s.ht1.slots) &&
           Survives(s.hash, s.ht0.slots[s.rehashidx], s.rehashidx, |s.ht0.slots|, |s.ht1.slots|)))
  {
    var c := s.ht0.slots[s.rehashidx];
    BucketDistinct(s, m, s.rehashidx);
    RelinkedBucket(s.hash, s.ht0.slots, s.rehashidx, s.ht1.slots);
    var t := MoveBucketAsWritten(s).value;
    var x, y, w := Items(t.ht0.slots), Items(s.ht1.slots), multiset(c);
    assert |c| <= s.ht0.used && TableOk(s.hash, t.ht0) && x + w == Items(s.ht0.slots) by {
      ClearSlot(s.hash, s.ht0, s.rehashidx);
    }
    assert Items(t.ht1.slots) == y + w && |w| == |c|;
    assert All(t) == All(s);
    assert EmptyBelow(t.ht0.slots, t.rehashidx);
  }

  /** The loop of dictRehash as written; `n` counts the passes its guard lets
      through. */
  function LoopAsWritten(s: State, n: int, left: int): Option<State>
    requires Migrating(s)
    decreases |s.ht0.slots| - s.rehashidx
  {
    if n == 0 || s.ht0.used == 0 then Some(Promote(s))
    else
      match Scan(s.ht0.slots, s.rehashidx, left)
      case Exhausted(i) => Some(s.(rehashidx := i))
      case Found(i, l) =>
        match MoveBucketAsWritten(s.(rehashidx := i))
        case None => None
        case Some(u) => LoopAsWritten(u, n - 1, l)
  }

  /** The bucket at which the loop stops, from what is known before the call: the
      slots and count of ht[0], the cursor and the two budgets. */
  function Stop(slots: seq<Chain>, i: nat, n: int, left: int, used: nat): (end: nat)
    decreases |slots| - i
  {
    if used == 0 then |slots|
    else if n == 0 then i
    else
      match Scan(slots, i, left)
      case Exhausted(j) => j
      case Found(j, l) => Stop(slots, j + 1, n - 1, l, if used >= |slots[j]| then used - |slots[j]| else 0)
  }

  lemma GrowthRefines(h: HashFn, n0: nat, n1: nat)
    requires IsPow2(n0) && IsPow2(n1) && 0 < n0 <= n1
    ensures SlotsRefine(h, n0, n1)
  {
    var j: nat :| n0 == Pow2(j);
    var k: nat :| n1 == Pow2(k);
    var q := Pow2Divides(j, k);
    forall text {:trigger Slot(h, text, n1)} ensures Slot(h, text, n1) % n0 == Slot(h, text, n0) {
      SlotCongruent(h(text), n0, q);
    }
  }

  ghost predicate Growing(s: State, m: Bindings) {
    Inv(s, m) && Rehashing(s) && |s.ht0.slots| <= |s.ht1.slots|
  }

  lemma GrowingIsLoose(s: State, m: Bindings)
    requires Growing(s, m)
    ensures Loose(s, false)
  {
    GrowthRefines(s.hash, |s.ht0.slots|, |s.ht1.slots|);
  }

  /** dictRehash as written, during a migration: the guard is `--n`, the visit
      budget is 10n. */
  function RehashAsWritten(s: State, n: int): Option<State>
    requires Migrating(s)
  {
    LoopAsWritten(s, n - 1, 10 * n)
  }

  function StopOf(s: State, n: int): nat
    requires s.rehashidx >= 0
  {
    Stop(s.ht0.slots, s.rehashidx, n - 1, 10 * n, s.ht0.used)
  }

  /** The automatic step, dictRehash(d, 1), as written. */
  function StepAsWritten(s: State): State {
    if Rehashing(s) then Promote(s) else s
  }

  function Newest(t: State): Table { if Rehashing(t) then t.ht1 else t.ht0 }

  function Reached(s: State, t: State): int { if Rehashing(t) then t.rehashidx else |s.ht0.slots| }

  ghost predicate AllSurvive(s: State, end: int)
    requires |s.ht0.slots| > 0 && |s.ht1.slots| > 0
  {
    forall b :: 0 <= s.rehashidx <= b < end && b < |s.ht0.slots| ==>
      Survives(s.hash, s.ht0.slots[b], b, |s.ht0.slots|, |s.ht1.slots|)
  }

  /** What a call from s leaves in t: nothing is lost, and the table that
      receives the entries is well placed exactly when it was and every bucket
      passed over survives. */
  ghost predicate Exact(s: State, t: State)
    requires |s.ht0.slots| > 0 && |s.ht1.slots| > 0
  {
    && All(t) == All(s) && t.hash == s.hash
    && (if Rehashing(t) then Loose(t, false) else t.ht1 == EMPTY_TABLE && t.ht0.used == |Items(t.ht0.slots)|)
    && |Newest(t).slots| == |s.ht1.slots|
    && (Placed(s.hash, Newest(t).slots) <==> (Placed(s.hash, s.ht1.slots) && AllSurvive(s, Reached(s, t))))
  }

  lemma PromoteExact(s: State)
    requires Loose(s, true) && s.ht0.used == 0
    ensures Exact(s, Promote(s))
  {
    assert |Items(s.ht0.slots)| == 0;
    forall b | 0 <= b < |s.ht0.slots| ensures s.ht0.slots[b] == [] { ItemsUpdate(s.ht0.slots, b, []); }
    assert Items([]) == multiset{};
  }

  lemma SurviveStep(s: State, u: State, i: int, end: int)
    requires 0 <= s.rehashidx <= i < |s.ht0.slots| && |s.ht1.slots| > 0 && i < end
    requires EmptyBelow(s.ht0.slots, i) && u.hash == s.hash && u.rehashidx == i + 1
    requires u.ht0.slots == s.ht0.slots[i := []] && |u.ht1.slots| == |s.ht1.slots|
    ensures AllSurvive(s, end) <==>
      (Survives(s.hash, s.ht0.slots[i], i, |s.ht0.slots|, |s.ht1.slots|) && AllSurvive(u, end))
  {
    if AllSurvive(s, end) {
      forall b | i + 1 <= b < end && b < |s.ht0.slots|
        ensures Survives(u.hash, u.ht0.slots[b], b, |u.ht0.slots|, |u.ht1.slots|)
      {
        assert u.ht0.slots[b] == s.ht0.slots[b];
      }
    }
    if AllSurvive(u, end) && Survives(s.hash, s.ht0.slots[i], i, |s.ht0.slots|, |s.ht1.slots|) {
      forall b | s.rehashidx <= b < end && b < |s.ht0.slots|
        ensures Survives(s.hash, s.ht0.slots[b], b, |s.ht0.slots|, |s.ht1.slots|)
      {
        if b > i { assert u.ht0.slots[b] == s.ht0.slots[b]; }
      }
    }
  }

  lemma ExactAfterMove(s: State, i: int, u: State, t: State)
    requires Loose(s, true) && s.rehashidx <= i < |s.ht0.slots| && EmptyBelow(s.ht0.slots, i)
    requires |u.ht1.slots| == |s.ht1.slots| && u.ht0.slots == s.ht0.slots[i := []]
    requires u.hash == s.hash && u.rehashidx == i + 1 && All(u) == All(s)
    requires Placed(s.hash, u.ht1.slots) <==>
      (Placed(s.hash, s.ht1.slots) && Survives(s.hash, s.ht0.slots[i], i, |s.ht0.slots|, |s.ht1.slots|))
    requires Exact(u, t) && Reached(u, t) >= u.rehashidx
    ensures Exact(s, t) && Reached(s, t) == Reached(u, t)
  {
    SurviveStep(s, u, i, Reached(s, t));
  }

  lemma StopExact(s: State, i: int)
    requires Loose(s, true) && s.rehashidx <= i < |s.ht0.slots| && EmptyBelow(s.ht0.slots, i)
    ensures Exact(s, s.(rehashidx := i))
  {
  }

  lemma {:induction false} ScanIgnores(slots: seq<Chain>, b: nat, i: nat, left: int)
    requires b < i && b < |slots|
    ensures Scan(slots[b := []], i, left) == Scan(slots, i, left)
    decreases |slots| - i
  {
    if i < |slots| && slots[i] == [] && left - 1 != 0 { ScanIgnores(slots, b, i + 1, left - 1); }
  }

  /** Buckets behind the cursor play no part. */
  lemma {:induction false} StopIgnores(slots: seq<Chain>, b: nat, i: nat, n: int, left: int, used: nat)
    requires b < i && b < |slots|
    ensures Stop(slots[b := []], i, n, left, used) == Stop(slots, i, n, left, used)
    decreases |slots| - i
  {
    if used != 0 && n != 0 {
      ScanIgnores(slots, b, i, left);
      match Scan(slots, i, left)
      case Exhausted(j) =>
      case Found(j, l) => StopIgnores(slots, b, j + 1, n - 1, l, if used >= |slots[j]| then used - |slots[j]| else 0);
    }
  }

  /** One pass that moves a bucket. */
  lemma PassUnfolds(s: State, n: int, left: int, i: nat, l: int, u: State)
    requires Migrating(s) && s.ht0.used > 0 && n != 0 && Scan(s.ht0.slots, s.rehashidx, left) == Found(i, l)
    requires MoveBucketAsWritten(s.(rehashidx := i)) == Some(u)
    ensures LoopAsWritten(s, n, left) == LoopAsWritten(u, n - 1, l)
    ensures Stop(s.ht0.slots, s.rehashidx, n, left, s.ht0.used) == Stop(u.ht0.slots, u.rehashidx, n - 1, l, u.ht0.used)
  {
    assert LoopAsWritten(s, n, left) == LoopAsWritten(u, n - 1, l) by { LoopUnfolds(s, n, left, i, l, u); }
    assert Stop(s.ht0.slots, s.rehashidx, n, left, s.ht0.used) == Stop(u.ht0.slots, u.rehashidx, n - 1, l, u.ht0.used)
    by {
      StopUnfolds(s.ht0.slots, s.rehashidx, n, left, s.ht0.used, i, l);
      assert u.rehashidx == i + 1 && u.ht0.slots == s.ht0.slots[i := []];
    }
  }

  lemma LoopUnfolds(s: State, n: int, left: int, i: nat, l: int, u: State)
    requires Migrating(s) && s.ht0.used > 0 && n != 0 && Scan(s.ht0.slots, s.rehashidx, left) == Found(i, l)
    requires MoveBucketAsWritten(s.(rehashidx := i)) == Some(u)
    ensures LoopAsWritten(s, n, left) == LoopAsWritten(u, n - 1, l)
  {
  }

  lemma StopUnfolds(slots: seq<Chain>, at: nat, n: int, left: int, used: nat, i: nat, l: int)
    requires used > 0 && n != 0 && Scan(slots, at, left) == Found(i, l) && i < |slots|
    ensures Stop(slots, at, n, left, used) ==
      Stop(slots[i := []], i + 1, n - 1, l, if used >= |slots[i]| then used - |slots[i]| else 0)
  {
    StopIgnores(slots, i, i + 1, n - 1, l, if used >= |slots[i]| then used - |slots[i]| else 0);
  }

  lemma MoveAt(s: State, m: Bindings, i: nat)
    requires Loose(s, true) && Represents(All(s), m) && s.rehashidx <= i < |s.ht0.slots|
    requires EmptyBelow(s.ht0.slots, i) && s.ht0.slots[i] != []
    ensures MoveBucketAsWritten(s.(rehashidx := i)).Some?
    ensures var u := MoveBucketAsWritten(s.(rehashidx := i)).value;
      && Loose(u, true) && All(u) == All(s) && u.rehashidx == i + 1 && u.hash == s.hash
      && u.ht0.slots == s.ht0.slots[i := []] && |u.ht1.slots| == |s.ht1.slots|
      && (Placed(s.hash, u.ht1.slots) <==>
          (Placed(s.hash, s.ht1.slots) && Survives(s.hash, s.ht0.slots[i], i, |s.ht0.slots|, |s.ht1.slots|)))
  {
    var r := s.(rehashidx := i);
    assert Loose(r, true) && All(r) == All(s);
    MoveAsWritten(r, m);
  }

  /** In a growing migration the loop as written never leaves the tables; it ends
      where Stop says, and Exact says in what state. */
  lemma {:induction false} LoopAsWrittenExact(s: State, m: Bindings, n: int, left: int)
    requires Loose(s, true) && Represents(All(s), m)
    ensures LoopAsWritten(s, n, left).Some?
    ensures var t := LoopAsWritten(s, n, left).value;
      && Exact(s, t) && Reached(s, t) >= s.rehashidx
      && Reached(s, t) == Stop(s.ht0.slots, s.rehashidx, n, left, s.ht0.used)
    decreases |s.ht0.slots| - s.rehashidx
  {
    if s.ht0.used == 0 {
      PromoteExact(s);
    } else {
      var at := Scan(s.ht0.slots, s.rehashidx, left);
      assert s.rehashidx < |s.ht0.slots| && s.rehashidx <= at.at < |s.ht0.slots| && EmptyBelow(s.ht0.slots, at.at) by {
        CursorHasWork(s.ht0, s.rehashidx);
        ScanSkips(s.ht0.slots, s.rehashidx, left);
      }
      if n == 0 {
        StopExact(s, s.rehashidx);
        assert s.(rehashidx := s.rehashidx) == s;
      } else if at.Exhausted? {
        StopExact(s, at.at);
      } else {
        MoveAt(s, m, at.at);
        var u := MoveBucketAsWritten(s.(rehashidx := at.at)).value;
        PassUnfolds(s, n, left, at.at, at.left, u);
        LoopAsWrittenExact(u, m, n - 1, at.left);
        ExactAfterMove(s, at.at, u, LoopAsWritten(u, n - 1, at.left).value);
      }
    }
  }

  /** What the loop as written keeps of table 0, wherever it puts the entries. */
  ghost predicate Drainable(s: State) {
    && TableOk(s.hash, s.ht0) && 0 <= s.rehashidx <= |s.ht0.slots| && EmptyBelow(s.ht0.slots, s.rehashidx)
    && |s.ht0.slots| > 0 && |s.ht1.slots| > 0 && IsPow2(|s.ht1.slots|)
  }

  lemma MoveKeepsDrainable(s: State)
    requires Drainable(s) && s.rehashidx < |s.ht0.slots|
    ensures s.ht0.used >= |s.ht0.slots[s.rehashidx]|
    ensures var r := MoveBucketAsWritten(s); r.Some? ==> Drainable(r.value)
  {
    var b := s.rehashidx;
    var c := s.ht0.slots[b];
    assert s.ht0.used >= |c| by { ClearSlot(s.hash, s.ht0, b); }
    var t := Table(s.ht0.slots[b := []], s.ht0.used - |c|);
    assert TableOk(s.hash, t) by { ClearSlot(s.hash, s.ht0, b); }
    var r := MoveBucketAsWritten(s);
    if r.Some? {
      assert r.value.ht0 == t && r.value.rehashidx == b + 1;
      assert EmptyBelow(t.slots, b + 1);
    }
  }

  /** One pass of the loop as written: the visits run out, or a bucket moves. */
  lemma OnePassAsWritten(s: State, n: int, left: int)
    requires Drainable(s) && s.ht0.used > 0 && n != 0
    ensures exists j :: s.rehashidx <= j < |s.ht0.slots| && s.ht0.slots[j] != []
    ensures var r := Scan(s.ht0.slots, s.rehashidx, left);
      var t := s.(rehashidx := r.at);
      && Drainable(t) && t.rehashidx < |t.ht0.slots| && t.ht0.used >= |t.ht0.slots[t.rehashidx]|
      && LoopAsWritten(s, n, left) ==
           if r.Exhausted? then Some(t)
           else if MoveBucketAsWritten(t).None? then None
           else LoopAsWritten(MoveBucketAsWritten(t).value, n - 1, r.left)
  {
    CursorHasWork(s.ht0, s.rehashidx);
    ScanSkips(s.ht0.slots, s.rehashidx, left);
    MoveKeepsDrainable(s.(rehashidx := Scan(s.ht0.slots, s.rehashidx, left).at));
  }

  /** Buckets from i up to j that are not empty. */
  function Busy(slots: seq<Chain>, i: nat, j: nat): nat
    requires j <= |slots|
  {
    if j <= i then 0 else Busy(slots, i, j - 1) + if slots[j - 1] != [] then 1 else 0
  }

  lemma {:induction false} BusyFrom(slots: seq<Chain>, i: nat, b: nat, j: nat)
    requires i <= b < j <= |slots| && EmptyBelow(slots, b) && slots[b] != []
    ensures Busy(slots, i, j) == 1 + Busy(slots[b := []], b + 1, j)
    decreases j
  {
    if j - 1 > b {
      BusyFrom(slots, i, b, j - 1);
    } else {
      BusyNone(slots, i, b);
    }
  }

  lemma {:induction false} BusyNone(slots: seq<Chain>, i: nat, j: nat)
    requires j <= |slots| && EmptyBelow(slots, j)
    ensures Busy(slots, i, j) == 0
    decreases j
  {
    if j > i { BusyNone(slots, i, j - 1); }
  }

  /** What a call as written has done when it leaves the cursor at e: it has moved at
      most n buckets and looked at most at `left` empty ones, and stops short of both
      only by promoting or by leaving the tables. */
  ghost predicate WithinBudget(s: State, e: int, n: nat, left: int) {
    && 0 <= s.rehashidx <= e <= |s.ht0.slots|
    && var busy := Busy(s.ht0.slots, s.rehashidx, e);
       && busy <= n && e - s.rehashidx - busy <= left
       && (busy == n || e - s.rehashidx - busy == left)
  }

  lemma BudgetAfterMove(s: State, u: State, j: nat, l: int, e: int, n: nat, left: int)
    requires n > 0 && 0 <= s.rehashidx <= j < |s.ht0.slots| && EmptyBelow(s.ht0.slots, j) && s.ht0.slots[j] != []
    requires u.rehashidx == j + 1 && u.ht0.slots == s.ht0.slots[j := []] && left - l == j - s.rehashidx
    requires WithinBudget(u, e, n - 1, l)
    ensures WithinBudget(s, e, n, left)
  {
    BusyFrom(s.ht0.slots, s.rehashidx, j, e);
  }

  ghost predicate Cheap(s: State, r: Option<State>, n: nat, left: int) {
    r.Some? && Rehashing(r.value) ==> WithinBudget(s, r.value.rehashidx, n, left)
  }

  lemma CheapAfterMove(s: State, u: State, j: nat, l: int, r: Option<State>, n: nat, left: int)
    requires n > 0 && 0 <= s.rehashidx <= j < |s.ht0.slots| && EmptyBelow(s.ht0.slots, j) && s.ht0.slots[j] != []
    requires |s.ht1.slots| > 0 && MoveBucketAsWritten(s.(rehashidx := j)) == Some(u)
    requires left - l == j - s.rehashidx && Cheap(u, r, n - 1, l)
    ensures Cheap(s, r, n, left)
  {
    if r.Some? && Rehashing(r.value) { BudgetAfterMove(s, u, j, l, r.value.rehashidx, n, left); }
  }

  lemma {:induction false} LoopAsWrittenCost(s: State, n: nat, left: int)
    requires Drainable(s) && left > 0
    ensures Cheap(s, LoopAsWritten(s, n, left), n, left)
    decreases |s.ht0.slots| - s.rehashidx
  {
    if n > 0 && s.ht0.used > 0 {
      var at := Scan(s.ht0.slots, s.rehashidx, left);
      var t := s.(rehashidx := at.at);
      assert && s.rehashidx <= at.at < |s.ht0.slots| && EmptyBelow(s.ht0.slots, at.at) && Drainable(t)
             && if at.Found? then left - at.left == at.at - s.rehashidx && at.left > 0 else left == at.at - s.rehashidx
      by {
        OnePassAsWritten(s, n, left);
        ScanSkips(s.ht0.slots, s.rehashidx, left);
      }
      if at.Exhausted? {
        assert LoopAsWritten(s, n, left) == Some(t) by { OnePassAsWritten(s, n, left); }
        BusyNone(s.ht0.slots, s.rehashidx, at.at);
      } else if MoveBucketAsWritten(t).Some? {
        var u := MoveBucketAsWritten(t).value;
        assert Drainable(u) by { MoveKeepsDrainable(t); }
        LoopAsWrittenCost(u, n - 1, at.left);
        assert LoopAsWritten(s, n, left) == LoopAsWritten(u, n - 1, at.left) by { OnePassAsWritten(s, n, left); }
        CheapAfterMove(s, u, at.at, at.left, LoopAsWritten(u, n - 1, at.left), n, left);
      }
    }
  }

  /** Lines 142 and 146: dictRehash(d, n) as written moves n - 1 buckets and looks at 10n
      empty ones at most. */
  lemma RehashAsWrittenCost(s: State, m: Bindings, n: nat)
    requires Inv(s, m) && Rehashing(s) && n >= 1
    ensures var r := RehashAsWritten(s, n);
      r.Some? && Rehashing(r.value) ==> WithinBudget(s, r.value.rehashidx, n - 1, 10 * n)
  {
    LoopAsWrittenCost(s, n - 1, 10 * n);
  }

  // ---- what a caller sees of line 160 ----

  ghost predicate Answers(t: State, m: Bindings)
    requires Searchable(t)
  {
    forall text :: FindBoth(t, text) == Find(m, text)
  }

  /** Some stored key is no longer found. */
  ghost predicate Loses(t: State, m: Bindings)
    requires Searchable(t)
  {
    exists text :: text in m && FindBoth(t, text).None?
  }

  lemma {:induction false} InTwoSlots(slots: seq<Chain>, e: Entry, i: nat, j: nat)
    requires i < j < |slots| && e in slots[i] && e in slots[j]
    ensures Items(slots)[e] >= 2
  {
    var n := |slots| - 1;
    if j == n {
      ItemsIn(slots[..n], e);
      assert slots[..n][i] == slots[i];
    } else {
      InTwoSlots(slots[..n], e, i, j);
    }
  }

  /** An entry that hangs in a wrong slot of the receiving table is lost. */
  lemma MisplacedIsLost(t: State, m: Bindings, i: nat, e: Entry)
    requires Represents(All(t), m) && Searchable(t) && (Rehashing(t) ==> Placed(t.hash, t.ht0.slots))
    requires !Rehashing(t) ==> t.ht1 == EMPTY_TABLE
    requires i < |Newest(t).slots| && e in Newest(t).slots[i]
    requires Slot(t.hash, e.key.text, |Newest(t).slots|) != i
    ensures FindBoth(t, e.key.text).None? && e.key.text in m
  {
    var slots := Newest(t).slots;
    var at := Slot(t.hash, e.key.text, |slots|);
    ItemsIn(slots, e);
    assert Items([]) == multiset{};
    Bound(All(t), m, e);
    assert All(t)[e] == 1;
    if x: Entry :| x in slots[at] && x.key.text == e.key.text {
      ItemsIn(slots, x);
      SameText(t, m, e, x);
      InTwoSlots(slots, e, if i < at then i else at, if i < at then at else i);
    }
    FindInRight(slots[at], e.key.text);
    if Rehashing(t) {
      LookupRight(t.hash, t.ht0, e.key.text);
      var r := Lookup(t.hash, t.ht0, e.key.text);
      if r.Some? { SameText(t, m, e, r.value); }
    }
  }

  lemma InvAnswers(t: State, m: Bindings)
    requires Inv(t, m) && Searchable(t)
    ensures Answers(t, m) && !Loses(t, m)
  {
    forall text ensures FindBoth(t, text) == Find(m, text) { FindBothRight(t, m, text); }
  }

  lemma AnswersIfPlaced(s: State, m: Bindings, t: State)
    requires Growing(s, m) && Exact(s, t)
    ensures Searchable(t)
    ensures Answers(t, m) <==> Placed(t.hash, Newest(t).slots)
    ensures Answers(t, m) <==> Inv(t, m)
    ensures !Answers(t, m) ==> Loses(t, m)
  {
    if Placed(t.hash, Newest(t).slots) {
      assert Inv(t, m);
      InvAnswers(t, m);
    } else {
      var slots := Newest(t).slots;
      var i: int, e: Entry :| 0 <= i < |slots| && e in slots[i] && Slot(t.hash, e.key.text, |slots|) != i;
      MisplacedIsLost(t, m, i, e);
      assert FindBoth(t, e.key.text) != Find(m, e.key.text);
      if Inv(t, m) { InvAnswers(t, m); }
    }
  }

  /** The call finds no entry to move. */
  ghost predicate MovesNothing(s: State, end: nat) {
    forall b :: 0 <= s.rehashidx <= b < end && b < |s.ht0.slots| ==> s.ht0.slots[b] == []
  }

  /** What a call leaves behind: None is a write outside the tables. */
  ghost predicate KeepsAnswers(r: Option<State>, m: Bindings) {
    r.Some? && Searchable(r.value) && Answers(r.value, m)
  }

  /** A call that moves no bucket leaves the bindings as they are. */
  lemma QuietCall(s: State, m: Bindings, t: State)
    requires Inv(s, m) && Rehashing(s) && All(t) == All(s) && Shape(t, false)
    requires |t.ht0.slots| > 0 && (Rehashing(t) ==> |t.ht1.slots| > 0)
    ensures Inv(t, m) && Searchable(t) && Answers(t, m)
  {
    InvAnswers(t, m);
  }

  lemma {:induction false} StopBehind(slots: seq<Chain>, i: nat, n: int, left: int, used: nat)
    requires i <= |slots|
    ensures Stop(slots, i, n, left, used) >= i
    decreases |slots| - i
  {
    if used != 0 && n != 0 {
      match Scan(slots, i, left)
      case Exhausted(j) =>
      case Found(j, l) => StopBehind(slots, j + 1, n - 1, l, if used >= |slots[j]| then used - |slots[j]| else 0);
    }
  }

  lemma PromoteExactly(s: State)
    requires Shape(s, false) && Rehashing(s) && s.ht0.used == 0
    ensures Shape(Promote(s), false) && All(Promote(s)) == All(s)
    ensures forall b :: 0 <= b < |s.ht0.slots| ==> s.ht0.slots[b] == []
  {
    PromoteKeeps(s);
    assert |Items(s.ht0.slots)| == 0;
    forall b | 0 <= b < |s.ht0.slots| ensures s.ht0.slots[b] == [] { ItemsUpdate(s.ht0.slots, b, []); }
  }

  /** A bucket found by the first scan of a shrinking migration is written outside. */
  lemma ShrinkingFound(s: State, m: Bindings, n: int, left: int, j: nat, l: int)
    requires Inv(s, m) && Rehashing(s) && |s.ht1.slots| < |s.ht0.slots| && s.ht0.used > 0 && n != 0
    requires s.rehashidx <= j && Scan(s.ht0.slots, s.rehashidx, left) == Found(j, l)
    ensures LoopAsWritten(s, n, left).None?
    ensures Stop(s.ht0.slots, s.rehashidx, n, left, s.ht0.used) > j
  {
    assert MoveBucketAsWritten(s.(rehashidx := j)).None? by {
      BucketDistinct(s, m, j);
      RelinkedBucket(s.hash, s.ht0.slots, j, s.ht1.slots);
    }
    var c := s.ht0.slots[j];
    StopBehind(s.ht0.slots, j + 1, n - 1, l, if s.ht0.used >= |c| then s.ht0.used - |c| else 0);
  }

  /** In a smaller table no first entry of a bucket finds its slot. */
  lemma ShrinkingSurvive(s: State, end: nat)
    requires |s.ht0.slots| > |s.ht1.slots| > 0
    ensures AllSurvive(s, end) <==> MovesNothing(s, end)
  {
    forall b | 0 <= b < |s.ht0.slots|
      ensures Survives(s.hash, s.ht0.slots[b], b, |s.ht0.slots|, |s.ht1.slots|) <==> s.ht0.slots[b] == []
    {
    }
  }

  /** A migration into a smaller table, which dictExpand accepts: the first entry
      that a call moves is written past the end of ht[1].table. */
  lemma ShrinkingExact(s: State, m: Bindings, n: int)
    requires Inv(s, m) && Rehashing(s) && |s.ht1.slots| < |s.ht0.slots|
    ensures RehashAsWritten(s, n).Some? <==> MovesNothing(s, StopOf(s, n))
    ensures RehashAsWritten(s, n).Some? ==>
      Inv(RehashAsWritten(s, n).value, m) && KeepsAnswers(RehashAsWritten(s, n), m)
  {
    var i := s.rehashidx;
    if s.ht0.used == 0 {
      PromoteExactly(s);
      QuietCall(s, m, Promote(s));
    } else if n - 1 == 0 {
      QuietCall(s, m, s);
    } else {
      CursorHasWork(s.ht0, i);
      ScanSkips(s.ht0.slots, i, 10 * n);
      match Scan(s.ht0.slots, i, 10 * n)
      case Exhausted(j) => QuietCall(s, m, s.(rehashidx := j));
      case Found(j, l) =>
        ShrinkingFound(s, m, n - 1, 10 * n, j, l);
        assert s.ht0.slots[j] != [];
    }
  }

  /** Line 160, for every migration and every n: after the call every lookup still
      answers as before if and only if, in each bucket up to the one at which the
      call stops, the first entry belongs in the last slot of the old size and every
      other entry in the slot with the bucket's own number.  Otherwise a stored key
      is no longer found, or, when the table shrinks and there is a bucket to move,
      the call writes outside ht[1].table. */
  lemma RehashAsWrittenExact(s: State, m: Bindings, n: int)
    requires Inv(s, m) && Rehashing(s)
    ensures var r, end := RehashAsWritten(s, n), StopOf(s, n);
      && (KeepsAnswers(r, m) <==> AllSurvive(s, end))
      && (r.None? <==> |s.ht1.slots| < |s.ht0.slots| && !MovesNothing(s, end))
      && (r.Some? ==> Searchable(r.value) && All(r.value) == All(s) && (Answers(r.value, m) || Loses(r.value, m)))
      && (KeepsAnswers(r, m) <==> r.Some? && Inv(r.value, m))
  {
    if |s.ht1.slots| < |s.ht0.slots| {
      ShrinkingExact(s, m, n);
      ShrinkingSurvive(s, StopOf(s, n));
    } else {
      GrowingIsLoose(s, m);
      LoopAsWrittenExact(s, m, n - 1, 10 * n);
      AnswersIfPlaced(s, m, RehashAsWritten(s, n).value);
    }
  }

  // ---- what a caller sees of line 146 ----

  lemma StepShape(s: State)
    requires Shape(s, false)
    ensures var t := StepAsWritten(s);
      Shape(t, false) && All(t) == All(s) && Size(t) == Size(s) && t.hash == s.hash
  {
    if Rehashing(s) { PromoteKeeps(s); }
  }

  /** A call with n = 1, which is every automatic step, moves nothing; it does what
      was meant exactly when there is nothing left to move. */
  lemma StepMovesNothing(s: State)
    requires Shape(s, false) && Rehashing(s)
    ensures RehashAsWritten(s, 1) == Some(StepAsWritten(s))
    ensures StepAsWritten(s) == Rehash(s, 1) <==> s.ht0.used == 0
  {
    if s.ht0.used > 0 { RehashAdvances(s, 1); }
  }

  /** The cursor moves on, or the migration ends. */
  predicate Progress(s: State, t: State) { !Rehashing(t) || t.rehashidx > s.rehashidx }

  lemma StopAdvances(slots: seq<Chain>, i: nat, n: int, left: int, used: nat)
    requires n != 0 && (exists j :: i <= j < |slots| && slots[j] != []) && EmptyBelow(slots, i)
    ensures Stop(slots, i, n, left, used) > i
  {
    if used != 0 {
      ScanSkips(slots, i, left);
      match Scan(slots, i, left)
      case Exhausted(_) =>
      case Found(j, l) => StopBehind(slots, j + 1, n - 1, l, if used >= |slots[j]| then used - |slots[j]| else 0);
    }
  }

  /** A call of a growing migration with n other than 1 moves the cursor on or
      promotes, whatever has been misplaced before. */
  lemma LooseAdvances(s: State, m: Bindings, n: int)
    requires Loose(s, false) && Represents(All(s), m) && n != 1
    ensures RehashAsWritten(s, n).Some?
    ensures var t := RehashAsWritten(s, n).value;
      && All(t) == All(s)
      && (Rehashing(t) ==> Loose(t, false) && t.rehashidx > s.rehashidx && |t.ht0.slots| == |s.ht0.slots|)
  {
    var r := RehashAsWritten(s, n);
    assert r.Some? && Exact(s, r.value) && Reached(s, r.value) == StopOf(s, n) by {
      LoopAsWrittenExact(s, m, n - 1, 10 * n);
    }
    assert Rehashing(r.value) ==> |r.value.ht0.slots| == |s.ht0.slots| by { LoopSizes(s, n - 1, 10 * n); }
    assert StopOf(s, n) > s.rehashidx by {
      if s.ht0.used > 0 {
        CursorHasWork(s.ht0, s.rehashidx);
        StopAdvances(s.ht0.slots, s.rehashidx, n - 1, 10 * n, s.ht0.used);
      }
    }
  }

  lemma {:induction false} LoopSizes(s: State, n: int, left: int)
    requires Migrating(s)
    ensures var r := LoopAsWritten(s, n, left);
      r.Some? && Rehashing(r.value) ==> |r.value.ht0.slots| == |s.ht0.slots|
    decreases |s.ht0.slots| - s.rehashidx
  {
    if n != 0 && s.ht0.used != 0 {
      match Scan(s.ht0.slots, s.rehashidx, left)
      case Exhausted(_) =>
      case Found(i, l) =>
        var u := MoveBucketAsWritten(s.(rehashidx := i));
        if u.Some? { LoopSizes(u.value, n - 1, l); }
    }
  }

  /** Line 146, for every migration and every n: a call makes progress if and only if
      table 0 is drained, or n is not 1 and no entry has to go to a smaller table. */
  lemma ProgressExact(s: State, m: Bindings, n: int)
    requires Inv(s, m) && Rehashing(s)
    ensures var r := RehashAsWritten(s, n);
      r.Some? && Progress(s, r.value) <==>
        (s.ht0.used == 0 || (n != 1 && (|s.ht0.slots| <= |s.ht1.slots| || MovesNothing(s, StopOf(s, n)))))
  {
    if n != 1 && s.ht0.used > 0 {
      if |s.ht1.slots| < |s.ht0.slots| {
        ShrinkingExact(s, m, n);
        CursorHasWork(s.ht0, s.rehashidx);
        ScanSkips(s.ht0.slots, s.rehashidx, 10 * n);
        match Scan(s.ht0.slots, s.rehashidx, 10 * n)
        case Exhausted(_) =>
        case Found(j, l) => ShrinkingFound(s, m, n - 1, 10 * n, j, l);
      } else {
        GrowingIsLoose(s, m);
        LooseAdvances(s, m, n);
      }
    }
  }

  // ---- lines 95, 83 and 104: dictDel ----

  /** The chain search of line 94 with the pointer comparison of line 95: two
      pointers are equal exactly when the Key values are. */
  function FindKey(c: Chain, key: Key): Option<Entry> {
    if c == [] then None else if c[0].key == key then Some(c[0]) else FindKey(c[1..], key)
  }

  function WithoutKey(c: Chain, key: Key): Chain {
    if c == [] then [] else if c[0].key == key then c[1..] else [c[0]] + WithoutKey(c[1..], key)
  }

  lemma {:induction false} FindKeyIn(c: Chain, key: Key)
    ensures FindKey(c, key).Some? ==> FindKey(c, key).value in c
  {
    if c != [] && c[0].key != key { FindKeyIn(c[1..], key); }
  }

  /** A table in which the search finds something counts entries. */
  lemma KeyCounted(t: Table, i: nat, key: Key)
    requires t.used == |Items(t.slots)| && i < |t.slots| && FindKey(t.slots[i], key).Some?
    ensures t.used > 0
  {
    FindKeyIn(t.slots[i], key);
    ItemsIn(t.slots, FindKey(t.slots[i], key).value);
  }

  /** A search that has passed k entries and stops there. */
  lemma {:induction false} FindKeyAt(c: Chain, key: Key, k: nat)
    requires k <= |c| && (forall j :: 0 <= j < k ==> c[j].key != key) && (k < |c| ==> c[k].key == key)
    ensures FindKey(c, key) == if k < |c| then Some(c[k]) else None
    ensures k < |c| ==> WithoutKey(c, key) == c[..k] + c[k + 1..]
  {
    if k > 0 {
      FindKeyAt(c[1..], key, k - 1);
      if k < |c| { assert [c[0]] + (c[1..][..k - 1] + c[1..][k..]) == c[..k] + c[k + 1..]; }
    } else if c != [] {
      assert c[..0] + c[1..] == c[1..];
    }
  }

  function OneLess(n: nat): nat { if n > 0 then n - 1 else 0 }

  /** dictDel behind its rehash step, as written.  When the scan of ht[0] comes
      to an end, `prevEntry` is the last entry of that chain; if the key then heads
      its chain in ht[1], line 97 hangs the rest of that chain behind this entry,
      and ht[1] keeps pointing at the entry that line 101 frees. */
  function DelBodyAsWritten(s: State, key: Key): (State, Option<Entry>)
    requires Searchable(s)
  {
    var i0 := Slot(s.hash, key.text, |s.ht0.slots|);
    var c0 := s.ht0.slots[i0];
    if FindKey(c0, key).Some? then
      (s.(ht0 := Table(s.ht0.slots[i0 := WithoutKey(c0, key)], OneLess(s.ht0.used))), FindKey(c0, key))
    else if !Rehashing(s) then (s, None)
    else
      var i1 := Slot(s.hash, key.text, |s.ht1.slots|);
      var c1 := s.ht1.slots[i1];
      if FindKey(c1, key).None? then (s, None)
      else if c1[0].key == key && c0 != [] then
        (s.(ht0 := s.ht0.(slots := s.ht0.slots[i0 := c0 + c1[1..]]), ht1 := s.ht1.(used := OneLess(s.ht1.used))),
         FindKey(c1, key))
      else
        (s.(ht1 := Table(s.ht1.slots[i1 := WithoutKey(c1, key)], OneLess(s.ht1.used))), FindKey(c1, key))
  }

  lemma {:induction false} KeySearch(c: Chain, key: Key, e: Entry)
    requires forall x :: x in c && x.key.text == key.text ==> x == e
    ensures FindKey(c, key) == if e.key == key then FindIn(c, key.text) else None
    ensures FindKey(c, key).Some? ==> WithoutKey(c, key) == Without(c, key.text)
  {
    if c != [] {
      assert c[0] in c;
      KeySearch(c[1..], key, e);
    }
  }

  /** The state in which `prevEntry` does harm: the key heads its chain in ht[1]
      and its chain in ht[0] is not empty. */
  predicate StalePrev(s: State, key: Key) {
    && Rehashing(s) && |s.ht0.slots| > 0 && |s.ht1.slots| > 0
    && var c0 := s.ht0.slots[Slot(s.hash, key.text, |s.ht0.slots|)];
       var c1 := s.ht1.slots[Slot(s.hash, key.text, |s.ht1.slots|)];
       FindKey(c0, key).None? && c0 != [] && c1 != [] && c1[0].key == key
  }

  lemma ChainUnique(s: State, m: Bindings, text: Text, slots: seq<Chain>, i: nat, e: Entry)
    requires Represents(All(s), m) && (text in m ==> e == m[text])
    requires (slots == s.ht0.slots || slots == s.ht1.slots) && i < |slots|
    ensures forall x :: x in slots[i] && x.key.text == text ==> x == e
  {
    forall x | x in slots[i] && x.key.text == text ensures x == e {
      ItemsIn(slots, x);
      Bound(All(s), m, x);
    }
  }

  lemma SearchesAgree(s: State, m: Bindings, key: Key, slots: seq<Chain>, e: Entry)
    requires Represents(All(s), m) && (key.text in m ==> e == m[key.text])
    requires (slots == s.ht0.slots || slots == s.ht1.slots) && |slots| > 0
    ensures var c := slots[Slot(s.hash, key.text, |slots|)];
      && FindKey(c, key) == (if e.key == key then FindIn(c, key.text) else None)
      && (FindKey(c, key).Some? ==> WithoutKey(c, key) == Without(c, key.text))
  {
    var i := Slot(s.hash, key.text, |slots|);
    ChainUnique(s, m, key.text, slots, i, e);
    KeySearch(slots[i], key, e);
  }

  lemma OtherPointerFindsNothing(s: State, m: Bindings, key: Key)
    requires Inv(s, m) && Searchable(s) && (key.text in m ==> m[key.text].key != key)
    ensures DelBodyAsWritten(s, key) == (s, None)
  {
    var e := if key.text in m then m[key.text] else Entry(Key(key.addr + 1, key.text), 0);
    SearchesAgree(s, m, key, s.ht0.slots, e);
    if Rehashing(s) { SearchesAgree(s, m, key, s.ht1.slots, e); }
  }

  /** The search of ht[0] with the stored pointer. */
  lemma DelFirst(s: State, m: Bindings, key: Key)
    requires Inv(s, m) && Searchable(s) && key.text in m && m[key.text].key == key
    ensures var c0 := s.ht0.slots[Slot(s.hash, key.text, |s.ht0.slots|)];
      && FindKey(c0, key) == Lookup(s.hash, s.ht0, key.text)
      && (FindKey(c0, key).Some? ==> DelBodyAsWritten(s, key) == DelBody(s, key.text))
  {
    SearchesAgree(s, m, key, s.ht0.slots, m[key.text]);
  }

  /** The search of ht[1], when both comparisons agree on it. */
  lemma SecondSearch(s: State, key: Key, c0: Chain, c1: Chain)
    requires Searchable(s) && Rehashing(s)
    requires c0 == s.ht0.slots[Slot(s.hash, key.text, |s.ht0.slots|)]
    requires c1 == s.ht1.slots[Slot(s.hash, key.text, |s.ht1.slots|)]
    requires FindIn(c0, key.text).None? && FindKey(c0, key).None? && FindKey(c1, key) == FindIn(c1, key.text)
    requires FindKey(c1, key).Some? ==> WithoutKey(c1, key) == Without(c1, key.text)
    ensures DelBodyAsWritten(s, key) == DelBody(s, key.text) <==> !StalePrev(s, key)
  {
    WithoutShorter(c1, key.text);
  }

  /** The search of ht[1] with the stored pointer. */
  lemma DelSecond(s: State, m: Bindings, key: Key)
    requires Inv(s, m) && Searchable(s) && key.text in m && m[key.text].key == key
    requires Lookup(s.hash, s.ht0, key.text).None?
    requires FindKey(s.ht0.slots[Slot(s.hash, key.text, |s.ht0.slots|)], key).None?
    ensures DelBodyAsWritten(s, key) == DelBody(s, key.text) <==> !StalePrev(s, key)
  {
    assert Rehashing(s) by { FindBothRight(s, m, key.text); }
    SearchesAgree(s, m, key, s.ht1.slots, m[key.text]);
    SecondSearch(s, key, s.ht0.slots[Slot(s.hash, key.text, |s.ht0.slots|)],
                 s.ht1.slots[Slot(s.hash, key.text, |s.ht1.slots|)]);
  }

  lemma {:induction false} WithoutShorter(c: Chain, text: Text)
    ensures FindIn(c, text).Some? ==> |Without(c, text)| == |c| - 1
  {
    if c != [] { WithoutShorter(c[1..], text); }
  }

  /** Lines 91-111 as written unlink what was meant if and only if the key is
      absent, or the caller holds the very pointer that was stored and `prevEntry`
      is not stale. */
  lemma DelBodyExact(s: State, m: Bindings, key: Key)
    requires Inv(s, m) && Searchable(s)
    ensures DelBodyAsWritten(s, key) == DelBody(s, key.text) <==>
      (key.text !in m || (m[key.text].key == key && !StalePrev(s, key)))
  {
    FindBothRight(s, m, key.text);
    if key.text !in m || m[key.text].key != key {
      OtherPointerFindsNothing(s, m, key);
    } else {
      DelFirst(s, m, key);
      if Lookup(s.hash, s.ht0, key.text).None? { DelSecond(s, m, key); }
    }
  }
}
