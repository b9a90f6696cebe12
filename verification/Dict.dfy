/** lib/dict.c in place: buckets of linked entries, two tables, a cursor.  Every
    method is proved to compute the function of DictModel.dfy with its name, and
    so, through the ghost map `contents`, the operation on one plain map. */
module Dictionary {
  import opened Common
  import opened Words
  import opened DictModel
  import R = DictRuns
  import W = DictAsWritten

  /** dictEntry.  The ghost fields say where the entry hangs; `rank` counts from
      the end of the chain, so that linking at the head changes no other entry. */
  class Node {
    const entry: Entry
    var next: Node?
    ghost var home: array<Node?>
    ghost var slot: int
    ghost var rank: int

    constructor (entry: Entry, next: Node?, ghost home: array<Node?>, ghost slot: int, ghost rank: int)
      ensures this.entry == entry && this.next == next
      ensures this.home == home && this.slot == slot && this.rank == rank
    {
      this.entry, this.next := entry, next;
      this.home, this.slot, this.rank := home, slot, rank;
    }
  }

  function Vals(chain: seq<Node>): (c: Chain)
    ensures |c| == |chain|
  {
    seq(|chain|, k requires 0 <= k < |chain| => chain[k].entry)
  }

  function AllVals(chains: seq<seq<Node>>): (slots: seq<Chain>)
    ensures |slots| == |chains|
  {
    seq(|chains|, i requires 0 <= i < |chains| => Vals(chains[i]))
  }

  lemma ValsTail(chain: seq<Node>)
    requires chain != []
    ensures Vals(chain)[1..] == Vals(chain[1..])
  {
  }

  lemma ValsWithout(chain: seq<Node>, k: nat)
    requires k < |chain|
    ensures Vals(chain[..k] + chain[k + 1..]) == Vals(chain)[..k] + Vals(chain)[k + 1..]
  {
  }

  lemma AllValsUpdate(chains: seq<seq<Node>>, i: nat, chain: seq<Node>)
    requires i < |chains|
    ensures AllVals(chains[i := chain]) == AllVals(chains)[i := Vals(chain)]
  {
  }

  lemma AllValsPush(chains: seq<seq<Node>>, i: nat, n: Node)
    requires i < |chains|
    ensures AllVals(chains[i := [n] + chains[i]]) == PushSlot(AllVals(chains), i, n.entry)
  {
    assert Vals([n] + chains[i]) == [n.entry] + Vals(chains[i]);
  }

  class Dict {
    const hash: HashFn
    var table0: array<Node?>
    var used0: nat
    var table1: array<Node?>
    var used1: nat
    var rehashidx: int

    ghost var chains0: seq<seq<Node>>
    ghost var chains1: seq<seq<Node>>
    ghost var contents: map<Text, Entry>
    ghost var Repr: set<object>

    ghost function View(): State
      reads this`chains0, this`chains1, this`used0, this`used1, this`rehashidx
    {
      State(hash, Table(AllVals(chains0), used0), Table(AllVals(chains1), used1), rehashidx)
    }

    /** Entry k of chain i hangs where the chain says. */
    ghost predicate NodeOk(table: array<Node?>, chains: seq<seq<Node>>, i: int, k: int)
      requires 0 <= i < |chains| && 0 <= k < |chains[i]|
      reads this`Repr, Repr
    {
      && chains[i][k] in Repr
      && chains[i][k].home == table && chains[i][k].slot == i
      && chains[i][k].rank == |chains[i]| - 1 - k
      && chains[i][k].next == if k + 1 < |chains[i]| then chains[i][k + 1] else null
    }

    ghost predicate NodesOk(table: array<Node?>, chains: seq<seq<Node>>)
      reads this`Repr, Repr
    {
      forall i, k :: 0 <= i < |chains| && 0 <= k < |chains[i]| ==> NodeOk(table, chains, i, k)
    }

    /** Every bucket but `skip` points at the head of its chain. */
    ghost predicate HeadsOk(table: array<Node?>, chains: seq<seq<Node>>, skip: int)
      reads table
    {
      && table.Length == |chains|
      && forall i :: 0 <= i < |chains| && i != skip ==> table[i] == Head(chains[i])
    }

    static ghost function Head(chain: seq<Node>): Node? {
      if chain == [] then null else chain[0]
    }

    /** The pointer structure, with bucket `skip` of table 0 in the making. */
    ghost predicate Linkage(skip: int)
      reads this`table0, this`table1, this`chains0, this`chains1, this`Repr, Repr
    {
      && this !in Repr && table0 in Repr && table1 in Repr && table0 != table1
      && HeadsOk(table0, chains0, skip) && HeadsOk(table1, chains1, -1)
      && NodesOk(table0, chains0) && NodesOk(table1, chains1)
    }

    ghost predicate Valid()
      reads this, Repr
    {
      Linkage(-1) && Inv(View(), contents)
    }

    constructor (hash: HashFn)
      ensures Valid() && fresh(Repr) && View() == Create(hash) && contents == map[]
    {
      this.hash := hash;
      var t0 := new Node?[0];
      var t1 := new Node?[0];
      table0, table1 := t0, t1;
      used0, used1, rehashidx := 0, 0, -1;
      chains0, chains1, contents, Repr := [], [], map[], {t0, t1};
      new;
      assert Items([]) == multiset{};
      assert View() == Create(hash);
    }

    /** The hash of a key under the mask of a table. */
    method SlotOf(text: Text, size: nat) returns (i: nat)
      requires size > 0 && IsPow2(size)
      ensures i == Slot(hash, text, size)
    {
      MaskOfPow2(hash(text), size);
      i := BitAnd(hash(text), size - 1);
    }

    /** An entry becomes the head of slot h of t. */
    static method PutFirst(de: Node, h: nat, t: array<Node?>, ghost rank: int)
      requires h < t.Length
      modifies t, de
      ensures de.next == old(t[h]) && t[h] == de && de.home == t && de.slot == h && de.rank == rank
      ensures forall i :: 0 <= i < t.Length && i != h ==> t[i] == old(t[i])
    {
      de.next := t[h];
      t[h] := de;
      de.home, de.slot, de.rank := t, h, rank;
    }

    /** Lines 161-162: the first entry of bucket b, in the making, is linked at
        the head of slot h of table 1. */
    method LinkAcross(de: Node, h: nat, ghost b: nat)
      requires Linkage(b) && b < |chains0| && chains0[b] != [] && chains0[b][0] == de
      requires h < |chains1|
      modifies this`chains0, this`chains1, table1, de
      ensures Linkage(b)
      ensures chains0 == old(chains0)[b := old(chains0)[b][1..]]
      ensures chains1 == old(chains1)[h := [de] + old(chains1)[h]]
    {
      assert NodeOk(table0, chains0, b, 0);
      ghost var c0, c1 := chains0, chains1;
      PutFirst(de, h, table1, |c1[h]|);
      chains0 := c0[b := c0[b][1..]];
      chains1 := c1[h := [de] + c1[h]];
      forall i, k | 0 <= i < |chains0| && 0 <= k < |chains0[i]| ensures NodeOk(table0, chains0, i, k) {
        var j := if i == b then k + 1 else k;
        assert old(NodeOk(table0, c0, i, j));
        assert chains0[i][k] == c0[i][j];
        assert c0[i][j] != de by { assert old(c0[i][j].slot) == i && old(c0[i][j].rank) == |c0[i]| - 1 - j; }
      }
      forall i, k | 0 <= i < |chains1| && 0 <= k < |chains1[i]| ensures NodeOk(table1, chains1, i, k) {
        if i == h && k > 0 {
          assert old(NodeOk(table1, c1, i, k - 1)) && chains1[i][k] == c1[i][k - 1];
        } else if i != h {
          assert old(NodeOk(table1, c1, i, k)) && chains1[i][k] == c1[i][k];
        } else {
          assert chains1[i][k] == de;
        }
      }
    }

    /** One pass of lines 156-166, with the slot of line 160 as line 199 computes it. */
    method RelinkOne(de: Node, ghost b: nat)
      requires Linkage(b) && b < |chains0| && chains0[b] != [] && chains0[b][0] == de
      requires used0 > 0 && |chains1| > 0 && IsPow2(|chains1|)
      modifies this`chains0, this`chains1, this`used0, this`used1, table1, de
      ensures Linkage(b) && chains0 == old(chains0)[b := old(chains0)[b][1..]]
      ensures AllVals(chains1) ==
        PushSlot(old(AllVals(chains1)), Slot(hash, de.entry.key.text, |old(chains1)|), de.entry)
      ensures used0 == old(used0) - 1 && used1 == old(used1) + 1
    {
      var h := SlotOf(de.entry.key.text, table1.Length);
      ghost var c1 := chains1;
      LinkAcross(de, h, b);
      assert AllVals(chains1) == PushSlot(AllVals(c1), h, de.entry) by { AllValsPush(c1, h, de); }
      used0 := used0 - 1;
      used1 := used1 + 1;
    }

    /** Lines 155-166: the whole chain of bucket b. */
    method RelinkAll(b: nat)
      requires Linkage(-1) && b < |chains0| && used0 >= |chains0[b]|
      requires |chains1| > 0 && IsPow2(|chains1|)
      modifies this`chains0, this`chains1, this`used0, this`used1, Repr
      ensures Linkage(b) && chains0 == old(chains0)[b := []]
      ensures AllVals(chains1) == Relink(hash, Vals(old(chains0)[b]), old(AllVals(chains1)))
      ensures used0 == old(used0) - |old(chains0)[b]| && used1 == old(used1) + |old(chains0)[b]|
    {
      ghost var c, slots1 := chains0[b], AllVals(chains1);
      var de := table0[b];
      ghost var rest := c;
      while de != null
        invariant Linkage(b) && chains0 == old(chains0)[b := rest] && de == Head(rest)
        invariant |chains1| == |slots1|
        invariant Relink(hash, Vals(rest), AllVals(chains1)) == Relink(hash, Vals(c), slots1)
        invariant used0 == old(used0) - |c| + |rest| && used1 == old(used1) + |c| - |rest|
        decreases |rest|
      {
        assert NodeOk(table0, chains0, b, 0);
        var nextde := de.next;
        ValsTail(rest);
        RelinkOne(de, b);
        rest := rest[1..];
        de := nextde;
      }
    }

    /** Line 167. */
    method ClearHead(b: nat)
      requires Linkage(b) && b < |chains0| && chains0[b] == []
      modifies table0
      ensures Linkage(-1)
    {
      table0[b] := null;
      forall i, k | 0 <= i < |chains0| && 0 <= k < |chains0[i]| ensures NodeOk(table0, chains0, i, k) {
        assert old(NodeOk(table0, chains0, i, k));
      }
      forall i, k | 0 <= i < |chains1| && 0 <= k < |chains1[i]| ensures NodeOk(table1, chains1, i, k) {
        assert old(NodeOk(table1, chains1, i, k));
      }
    }

    /** Lines 155-168: the bucket under the cursor moves, entry by entry. */
    method MoveOne()
      requires Linkage(-1) && Shape(View(), true) && Rehashing(View())
      requires rehashidx < |chains0|
      modifies this`chains0, this`chains1, this`used0, this`used1, this`rehashidx, Repr
      ensures Linkage(-1) && View() == MoveBucket(old(View()))
    {
      assert |chains0[rehashidx]| <= used0 by { ClearSlot(hash, View().ht0, rehashidx); }
      RelinkAll(rehashidx);
      ClearHead(rehashidx);
      assert AllVals(chains0) == AllVals(old(chains0))[rehashidx := []] by {
        AllValsUpdate(old(chains0), rehashidx, []);
      }
      rehashidx := rehashidx + 1;
    }

    /** Lines 150-153: skip empty buckets, of which j is known not to be one;
        false when the visits are used up. */
    method SkipEmpty(empty: int, ghost j: int) returns (found: bool, left: int)
      requires HeadsOk(table0, chains0, -1) && 0 <= rehashidx <= j < |chains0| && AllVals(chains0)[j] != []
      modifies this`rehashidx
      ensures var r := Scan(old(AllVals(chains0)), old(rehashidx), empty);
        && rehashidx == r.at
        && (if found then r == Found(rehashidx, left) else r == Exhausted(rehashidx))
    {
      ghost var slots := AllVals(chains0);
      ghost var r := Scan(slots, rehashidx, empty);
      left := empty;
      while table0[rehashidx] == null
        invariant 0 <= rehashidx <= j
        invariant Scan(slots, rehashidx, left) == r
        decreases j - rehashidx
      {
        assert slots[rehashidx] == [];
        rehashidx := rehashidx + 1;
        left := left - 1;
        if left == 0 { return false, left; }
      }
      assert slots[rehashidx] != [];
      return true, left;
    }

    /** One pass of the loop of dictRehash, with m passes and `empty` visits left. */
    method Pass(m: int, empty: int, ghost v: State) returns (found: bool, left: int)
      requires Linkage(-1) && View() == v && Shape(v, true) && Rehashing(v) && used0 > 0 && m != 0
      modifies this`chains0, this`chains1, this`used0, this`used1, this`rehashidx, Repr
      ensures Linkage(-1)
      ensures found ==>
        && Shape(View(), true) && Rehashing(View())
        && RehashLoop(View(), m - 1, left).s == RehashLoop(v, m, empty).s
        && |chains0| == |old(chains0)| && old(rehashidx) < rehashidx <= |chains0|
      ensures !found ==> View() == RehashLoop(v, m, empty).s
    {
      OnePass(v, m, empty);
      ghost var j :| rehashidx <= j < |v.ht0.slots| && v.ht0.slots[j] != [];
      found, left := SkipEmpty(empty, j);
      assert View() == v.(rehashidx := rehashidx);
      if found { MoveOne(); }
    }

    /** Lines 171-177: a drained table 0 is replaced by table 1. */
    method PromoteTable()
      requires Linkage(-1) && used0 == 0
      modifies this
      ensures Linkage(-1) && View() == Promote(old(View()))
      ensures contents == old(contents) && fresh(Repr - old(Repr))
    {
      var empty := new Node?[0];
      table0, used0 := table1, used1;
      table1, used1 := empty, 0;
      rehashidx := -1;
      chains0, chains1 := chains1, [];
      Repr := Repr + {empty};
      assert AllVals(chains1) == [];
      forall i, k | 0 <= i < |chains0| && 0 <= k < |chains0[i]| ensures NodeOk(table0, chains0, i, k) {
        assert old(NodeOk(table1, chains1, i, k));
      }
    }

    /** Lines 146-169; `whole` unless the visits ran out. */
    method RunPasses(n: int, visits: int, ghost start: State, ghost goal: State) returns (whole: bool)
      requires Linkage(-1) && View() == start && Shape(start, true) && Rehashing(start)
      requires RehashLoop(start, n, visits).s == goal
      modifies this`chains0, this`chains1, this`used0, this`used1, this`rehashidx, Repr
      ensures Linkage(-1)
      ensures goal == if whole then Promote(View()) else View()
    {
      var m, empty := n, visits;
      ghost var v := start;
      while true
        invariant Linkage(-1) && View() == v
        invariant Shape(v, true) && Rehashing(v) && RehashLoop(v, m, empty).s == goal
        decreases |chains0| - rehashidx
      {
        if m == 0 || used0 == 0 { return true; }
        whole, empty := Pass(m, empty, v);
        if !whole { return; }
        v := View();
        m := m - 1;
      }
    }

    /** Lines 146-177. */
    method Migrate(n: int, ghost s: State, ghost goal: State)
      requires Linkage(-1) && View() == s && Shape(s, true) && Rehashing(s) && goal == RehashLoop(s, n, 10 * n).s
      modifies this, Repr
      ensures Linkage(-1) && View() == goal
      ensures contents == old(contents) && fresh(Repr - old(Repr))
    {
      var whole := RunPasses(n, 10 * n, s, goal);
      if whole && used0 == 0 { PromoteTable(); }
    }

    /** dictRehash; the guard of line 146 as meant, up to n buckets in a call. */
    method RehashBuckets(n: int) returns (more: bool)
      requires Valid()
      modifies this, Repr
      ensures Valid() && View() == Rehash(old(View()), n)
      ensures contents == old(contents) && fresh(Repr - old(Repr))
      ensures more <==> old(Rehashing(View()))
    {
      ghost var s := View();
      more := rehashidx != -1;
      if more { Migrate(n, s, RehashLoop(s, n, 10 * n).s); }
      assert View() == Rehash(s, n);
      assert Inv(View(), contents) by { RehashKeeps(s, n); }
    }

    // ---- chains ----

    /** Walk a chain to the first entry with this key. */
    method Search(head: Node?, ghost table: array<Node?>, ghost chains: seq<seq<Node>>, ghost i: int, text: Text)
      returns (prev: Node?, cur: Node?, ghost k: nat)
      requires 0 <= i < |chains| && NodesOk(table, chains) && head == Head(chains[i])
      ensures k <= |chains[i]| && cur == (if k < |chains[i]| then chains[i][k] else null)
      ensures prev == if k > 0 then chains[i][k - 1] else null
      ensures FindIn(Vals(chains[i]), text) == if cur != null then Some(cur.entry) else None
      ensures cur != null ==> Without(Vals(chains[i]), text) == Vals(chains[i][..k] + chains[i][k + 1..])
    {
      ghost var c := chains[i];
      prev, cur, k := null, head, 0;
      while cur != null && cur.entry.key.text != text
        invariant k <= |c| && cur == (if k < |c| then c[k] else null)
        invariant prev == if k > 0 then c[k - 1] else null
        invariant forall j :: 0 <= j < k ==> c[j].entry.key.text != text
        decreases |c| - k
      {
        assert NodeOk(table, chains, i, k);
        prev, cur, k := cur, cur.next, k + 1;
      }
      FindAt(Vals(c), text, k);
      if cur != null { ValsWithout(c, k); }
    }

    /** The two tables that Linkage speaks of, either one first. */
    ghost predicate Pair(t: array<Node?>, cs: seq<seq<Node>>, u: array<Node?>, ds: seq<seq<Node>>)
      reads this`Repr, Repr, t, u
    {
      && t != u && t in Repr && u in Repr && this !in Repr
      && HeadsOk(t, cs, -1) && NodesOk(t, cs) && HeadsOk(u, ds, -1) && NodesOk(u, ds)
    }

    /** Lines 46-50: a new entry at the head of slot i. */
    method LinkNew(e: Entry, i: nat, t: array<Node?>, ghost cs: seq<seq<Node>>,
                   ghost u: array<Node?>, ghost ds: seq<seq<Node>>)
      returns (ghost r: seq<seq<Node>>)
      requires Pair(t, cs, u, ds) && i < |cs|
      modifies this`Repr, t
      ensures Pair(t, r, u, ds) && fresh(Repr - old(Repr)) && old(Repr) <= Repr
      ensures |r| == |cs| && AllVals(r) == PushSlot(AllVals(cs), i, e)
    {
      var n := new Node(e, t[i], t, i, |cs[i]|);
      t[i] := n;
      Repr := Repr + {n};
      r := cs[i := [n] + cs[i]];
      AllValsPush(cs, i, n);
      forall j, k | 0 <= j < |r| && 0 <= k < |r[j]| ensures NodeOk(t, r, j, k) {
        if j == i && k > 0 {
          assert old(NodeOk(t, cs, j, k - 1));
        } else if j != i {
          assert old(NodeOk(t, cs, j, k));
        }
      }
      forall j, k | 0 <= j < |ds| && 0 <= k < |ds[j]| ensures NodeOk(u, ds, j, k) {
        assert old(NodeOk(u, ds, j, k));
      }
    }

    /** The entries in front of entry k count one step less to the end. */
    ghost method Rerank(c: seq<Node>, k: nat, i: int, t: array<Node?>)
      requires k < |c|
      requires forall j :: 0 <= j <= k ==> c[j] in Repr && c[j].rank == |c| - 1 - j && c[j].slot == i && c[j].home == t
      modifies set j | 0 <= j < k :: c[j]
      ensures forall j :: 0 <= j < k ==> c[j].rank == |c| - 2 - j
      ensures forall n: Node | old(allocated(n)) ::
        n.next == old(n.next) && n.slot == old(n.slot) && n.home == old(n.home)
      ensures forall n: Node | old(allocated(n)) ::
        n.slot != i || n.home != t || old(n.rank) <= |c| - 1 - k ==> n.rank == old(n.rank)
    {
      forall j | 0 <= j < k { c[j].rank := |c| - 2 - j; }
    }

    /** Line 97 or 99, with the ranks that go with it. */
    method Bypass(prev: Node?, cur: Node, ghost k: nat, i: nat, t: array<Node?>, ghost c: seq<Node>)
      requires k < |c| && c[k] == cur && i < t.Length && this !in Repr && t in Repr
      requires prev == if k > 0 then c[k - 1] else null
      requires forall j :: 0 <= j < |c| ==> c[j] in Repr && c[j].rank == |c| - 1 - j && c[j].slot == i && c[j].home == t
      modifies c, t
      ensures forall j :: 0 <= j < |c| && j != k ==>
        c[j].rank == (if j < k then |c| - 2 - j else |c| - 1 - j) && c[j].slot == i && c[j].home == t
      ensures forall j :: 0 <= j < |c| && j != k - 1 ==> c[j].next == old(c[j].next)
      ensures k > 0 ==> c[k - 1].next == old(cur.next)
      ensures forall x :: 0 <= x < t.Length ==> t[x] == if k == 0 && x == i then old(cur.next) else old(t[x])
      ensures forall n: Node | old(allocated(n)) && !(old(n.home) == t && old(n.slot) == i) ::
        n.next == old(n.next) && n.slot == old(n.slot) && n.home == old(n.home) && n.rank == old(n.rank)
    {
      Rerank(c, k, i, t);
      if prev != null {
        prev.next := cur.next;
      } else {
        t[i] := cur.next;
      }
    }

    /** Lines 96-99: entry k of slot i is unlinked behind `prev`. */
    method Unlink(prev: Node?, cur: Node, ghost k: nat, i: nat, t: array<Node?>, ghost cs: seq<seq<Node>>,
                  ghost u: array<Node?>, ghost ds: seq<seq<Node>>)
      returns (ghost r: seq<seq<Node>>)
      requires Pair(t, cs, u, ds) && i < |cs| && k < |cs[i]| && cs[i][k] == cur
      requires prev == if k > 0 then cs[i][k - 1] else null
      modifies Repr
      ensures Pair(t, r, u, ds)
      ensures r == cs[i := cs[i][..k] + cs[i][k + 1..]]
      ensures AllVals(r) == AllVals(cs)[i := Vals(cs[i][..k] + cs[i][k + 1..])]
    {
      ghost var c := cs[i];
      forall j | 0 <= j < |c|
        ensures c[j] in Repr && c[j].rank == |c| - 1 - j && c[j].slot == i && c[j].home == t
      {
        assert NodeOk(t, cs, i, j);
      }
      assert cur.next == (if k + 1 < |c| then c[k + 1] else null) by { assert NodeOk(t, cs, i, k); }
      Bypass(prev, cur, k, i, t, c);
      r := cs[i := c[..k] + c[k + 1..]];
      AllValsUpdate(cs, i, c[..k] + c[k + 1..]);
      forall l | 0 <= l < |r[i]| ensures NodeOk(t, r, i, l) {
        var p := if l < k then l else l + 1;
        assert old(NodeOk(t, cs, i, p)) && r[i][l] == c[p];
        assert l + 1 < |r[i]| ==> r[i][l + 1] == if l + 1 < k then c[l + 1] else c[l + 2];
      }
      forall j, l | 0 <= j < |r| && 0 <= l < |r[j]| ensures NodeOk(t, r, j, l) {
        if j != i { assert old(NodeOk(t, cs, j, l)) && r[j][l] == cs[j][l]; }
      }
      forall j, l | 0 <= j < |ds| && 0 <= l < |ds[j]| ensures NodeOk(u, ds, j, l) {
        assert old(NodeOk(u, ds, j, l));
      }
    }

    // ---- the operations ----

    /** Lines 124-127: a table of empty buckets. */
    method NewTable(size: nat) returns (t: array<Node?>, ghost cs: seq<seq<Node>>)
      ensures fresh(t) && t.Length == size && HeadsOk(t, cs, -1)
      ensures AllVals(cs) == FreshTable(size).slots && forall i :: 0 <= i < |cs| ==> cs[i] == []
    {
      t := new Node?[size](_ => null);
      cs := seq(size, _ => []);
    }

    /** Lines 131-137: the first table, or the one to migrate to. */
    method Install(t: array<Node?>, ghost cs: seq<seq<Node>>)
      requires Linkage(-1) && chains1 == [] && HeadsOk(t, cs, -1) && t !in Repr && this !in Repr
      requires forall i :: 0 <= i < |cs| ==> cs[i] == []
      modifies this
      ensures Linkage(-1) && Repr == old(Repr) + {t} && contents == old(contents)
      ensures if |old(chains0)| == 0 then
          used0 == 0 && chains0 == cs && chains1 == old(chains1) && used1 == old(used1) && rehashidx == old(rehashidx)
        else
          used0 == old(used0) && chains0 == old(chains0) && chains1 == cs && used1 == 0 && rehashidx == 0
    {
      Repr := Repr + {t};
      if table0.Length == 0 {
        table0, used0, chains0 := t, 0, cs;
      } else {
        table1, used1, chains1, rehashidx := t, 0, cs, 0;
        forall i, k | 0 <= i < |chains0| && 0 <= k < |chains0[i]| ensures NodeOk(table0, chains0, i, k) {
          assert old(NodeOk(table0, chains0, i, k));
        }
      }
    }

    /** dictExpand */
    method ExpandTo(size: nat) returns (ok: bool)
      requires Valid() && size < WORD64
      modifies this
      ensures Valid() && (View(), ok) == Expand(old(View()), size)
      ensures size <= LONG_MAX + 1 ==> Expanded(old(View()), size, View(), ok)
      ensures contents == old(contents) && fresh(Repr - old(Repr)) && old(Repr) <= Repr
    {
      ghost var s := View();
      assert size <= LONG_MAX + 1 ==> Expanded(s, size, Expand(s, size).0, Expand(s, size).1) by {
        if size <= LONG_MAX + 1 { ExpandExactly(s, size); }
      }
      if rehashidx != -1 { return true; }
      var realsize := ComputeNextPower(size);
      if realsize == table0.Length { return false; }
      ghost var cs;
      var t;
      t, cs := NewTable(realsize);
      Install(t, cs);
      assert View() == Expand(s, size).0;
      assert Inv(View(), contents) by { ExpandKeeps(s, size); }
      return true;
    }

    /** _dictExpandIfNeeded */
    method ExpandWhenFull() returns (ok: bool)
      requires Valid()
      modifies this
      ensures Valid() && (View(), ok) == ExpandIfNeeded(old(View()))
      ensures contents == old(contents) && fresh(Repr - old(Repr)) && old(Repr) <= Repr
    {
      if rehashidx != -1 { return true; }
      if table0.Length == 0 {
        ok := ExpandTo(INITIAL_SIZE);
      } else if used0 >= table0.Length {
        ok := ExpandTo(used0 * 2 % WORD64);
      } else {
        ok := true;
      }
    }

    /** The search of both tables: the entry, the table it hangs in and where. */
    method Find(text: Text) returns (second: bool, i: nat, prev: Node?, cur: Node?, ghost k: nat)
      requires Linkage(-1) && |chains0| > 0 && IsPow2(|chains0|)
      requires rehashidx != -1 ==> |chains1| > 0 && IsPow2(|chains1|)
      ensures FindBoth(View(), text) == if cur != null then Some(cur.entry) else None
      ensures var cs := if second then chains1 else chains0;
        && i < |cs| && i == Slot(hash, text, |cs|) && k <= |cs[i]|
        && (second <==> Rehashing(View()) && Lookup(hash, View().ht0, text).None?)
        && cur == (if k < |cs[i]| then cs[i][k] else null)
        && prev == (if k > 0 then cs[i][k - 1] else null)
        && FindIn(Vals(cs[i]), text) == (if cur != null then Some(cur.entry) else None)
        && (cur != null ==> Without(Vals(cs[i]), text) == Vals(cs[i][..k] + cs[i][k + 1..]))
    {
      i := SlotOf(text, table0.Length);
      prev, cur, k := Search(table0[i], table0, chains0, i, text);
      second := false;
      if cur == null && rehashidx != -1 {
        second := true;
        i := SlotOf(text, table1.Length);
        prev, cur, k := Search(table1[i], table1, chains1, i, text);
      }
    }

    /** _dictRehashStep, when migrating. */
    method Step()
      requires Valid()
      modifies this, Repr
      ensures Valid() && View() == Rehash(old(View()), 1)
      ensures contents == old(contents) && fresh(Repr - old(Repr))
    {
      if rehashidx != -1 { var _ := RehashBuckets(1); }
    }

    lemma SearchableTables()
      requires Valid() && Searchable(View())
      ensures |chains0| > 0 && IsPow2(|chains0|)
      ensures rehashidx != -1 ==> |chains1| > 0 && IsPow2(|chains1|)
    {
    }

    /** _dictKeyIndex: the slot for a new key in the newest table, or -1. */
    method KeyIndex(text: Text) returns (idx: int)
      requires Valid()
      modifies this
      ensures Valid() && contents == old(contents) && fresh(Repr - old(Repr)) && old(Repr) <= Repr
      ensures Indexed(old(View()), View(), text, idx)
    {
      ghost var s := View();
      var ok := ExpandWhenFull();
      if !ok { return -1; }
      assert Searchable(View()) by { ExpandIfNeededKeeps(s); }
      SearchableTables();
      var second, i, prev, cur, k := Find(text);
      return if cur != null then -1 else i;
    }

    /** Lines 44-51: the entry goes into the newest table. */
    method LinkNewest(e: Entry, i: nat)
      requires Linkage(-1) && i < if Rehashing(View()) then |chains1| else |chains0|
      modifies this, table0, table1
      ensures Linkage(-1) && fresh(Repr - old(Repr)) && contents == old(contents)
      ensures View() == Linked(old(View()), i, e)
    {
      if rehashidx != -1 {
        chains1 := LinkNew(e, i, table1, chains1, table0, chains0);
        used1 := used1 + 1;
      } else {
        chains0 := LinkNew(e, i, table0, chains0, table1, chains1);
        used0 := used0 + 1;
      }
    }

    /** Lines 40-53, behind the rehash step. */
    method AddNew(e: Entry, ghost s: State) returns (ok: bool)
      requires Valid() && View() == s
      modifies this, Repr
      ensures Linkage(-1) && (View(), ok) == AddRest(s, e)
      ensures contents == old(contents) && fresh(Repr - old(Repr))
    {
      var idx := KeyIndex(e.key.text);
      ghost var t := View();
      ok := idx != -1;
      if ok { LinkNewest(e, idx); }
      AddUnfolded(s, e, t, idx, View());
    }

    /** dictAdd, on the tables. */
    method AddEntry(e: Entry, ghost s: State) returns (ok: bool)
      requires Valid() && View() == s
      modifies this, Repr
      ensures Linkage(-1) && (View(), ok) == Add(s, e)
      ensures contents == old(contents) && fresh(Repr - old(Repr))
    {
      Step();
      ok := AddNew(e, Rehash(s, 1));
    }

    /** The map that the tables stand for from now on. */
    ghost method Bind(m: map<Text, Entry>)
      requires Linkage(-1) && Inv(View(), m)
      modifies this`contents
      ensures Valid() && View() == old(View()) && contents == m
    {
      contents := m;
    }

    /** dictAdd */
    method DictAdd(key: Key, val: int) returns (ok: bool)
      requires Valid()
      modifies this, Repr
      ensures Valid() && (View(), ok) == Add(old(View()), Entry(key, val)) && fresh(Repr - old(Repr))
      ensures old(Size(View())) <= LONG_MAX ==> (ok <==> key.text !in old(contents))
      ensures contents == if ok then old(contents)[key.text := Entry(key, val)] else old(contents)
    {
      var e := Entry(key, val);
      ghost var s, m := View(), contents;
      ok := AddEntry(e, s);
      ghost var n := if ok then m[key.text := e] else m;
      assert Inv(View(), n) && (Size(s) <= LONG_MAX ==> (ok <==> key.text !in m)) by { AddRight(s, m, e); }
      Bind(n);
    }

    /** dictGet */
    method DictGet(text: Text) returns (r: Node?)
      requires Valid()
      modifies this, Repr
      ensures Valid() && contents == old(contents) && fresh(Repr - old(Repr))
      ensures (View(), if r == null then None else Some(r.entry)) == Get(old(View()), text)
      ensures StepTaken(old(View()), View())
      ensures r == null <==> text !in contents
      ensures r != null ==> r.entry == contents[text]
    {
      ghost var s, m := View(), contents;
      if used0 + used1 == 0 {
        EmptyHoldsNothing(s, m, text);
        return null;
      }
      StepKeeps(s);
      StepAdvances(s);
      Step();
      SearchableTables();
      var second, i, prev, cur, k := Find(text);
      FindBothRight(View(), m, text);
      return cur;
    }

    lemma Counted(text: Text)
      requires Valid() && Searchable(View())
      ensures Lookup(hash, View().ht0, text).Some? ==> used0 > 0
      ensures Rehashing(View()) && Lookup(hash, View().ht1, text).Some? ==> used1 > 0
    {
      LookupRight(hash, View().ht0, text);
      if Rehashing(View()) { LookupRight(hash, View().ht1, text); }
    }

    /** Lines 96-100, for an entry of table 0. */
    method UnlinkFirst(i: nat, prev: Node?, cur: Node, ghost k: nat)
      requires Linkage(-1) && used0 > 0 && i < |chains0| && k < |chains0[i]| && chains0[i][k] == cur
      requires prev == if k > 0 then chains0[i][k - 1] else null
      modifies this`chains0, this`used0, Repr
      ensures Linkage(-1)
      ensures var s, c := old(View()), old(Vals(chains0[i][..k] + chains0[i][k + 1..]));
        View() == s.(ht0 := Table(s.ht0.slots[i := c], s.ht0.used - 1))
    {
      chains0 := Unlink(prev, cur, k, i, table0, chains0, table1, chains1);
      used0 := used0 - 1;
    }

    /** Lines 96-100, for an entry of table 1. */
    method UnlinkSecond(i: nat, prev: Node?, cur: Node, ghost k: nat)
      requires Linkage(-1) && used1 > 0 && i < |chains1| && k < |chains1[i]| && chains1[i][k] == cur
      requires prev == if k > 0 then chains1[i][k - 1] else null
      modifies this`chains1, this`used1, Repr
      ensures Linkage(-1)
      ensures var s, c := old(View()), old(Vals(chains1[i][..k] + chains1[i][k + 1..]));
        View() == s.(ht1 := Table(s.ht1.slots[i := c], s.ht1.used - 1))
    {
      chains1 := Unlink(prev, cur, k, i, table1, chains1, table0, chains0);
      used1 := used1 - 1;
    }

    /** Lines 91-111 with the repairs: compare contents, forget `prev` between tables. */
    method UnlinkFound(text: Text) returns (r: Option<Entry>)
      requires Linkage(-1) && |chains0| > 0 && IsPow2(|chains0|)
      requires rehashidx != -1 ==> |chains1| > 0 && IsPow2(|chains1|)
      requires Lookup(hash, View().ht0, text).Some? ==> used0 > 0
      requires Rehashing(View()) && Lookup(hash, View().ht1, text).Some? ==> used1 > 0
      modifies this`chains0, this`chains1, this`used0, this`used1, Repr
      ensures Linkage(-1) && (View(), r) == DelBody(old(View()), text)
    {
      var second, i, prev, cur, k := Find(text);
      if cur == null { return None; }
      if second {
        UnlinkSecond(i, prev, cur, k);
      } else {
        UnlinkFirst(i, prev, cur, k);
      }
      r := Some(cur.entry);
    }

    /** dictDel, on the tables. */
    method DelEntry(text: Text, ghost s: State) returns (r: Option<Entry>)
      requires Valid() && View() == s
      modifies this, Repr
      ensures Linkage(-1) && (View(), r) == Del(s, text)
      ensures contents == old(contents) && fresh(Repr - old(Repr))
    {
      if used0 + used1 == 0 { return None; }
      StepKeeps(s);
      Step();
      SearchableTables();
      Counted(text);
      r := UnlinkFound(text);
    }

    /** dictDel; the entry that lines 101-102 free and return is its value here. */
    method DictDel(text: Text) returns (r: Option<Entry>)
      requires Valid()
      modifies this, Repr
      ensures Valid() && (View(), r) == Del(old(View()), text) && fresh(Repr - old(Repr))
      ensures r == (if text in old(contents) then Some(old(contents)[text]) else None) && StepTaken(old(View()), View())
      ensures contents == old(contents) - {text}
    {
      ghost var s, m := View(), contents;
      r := DelEntry(text, s);
      assert && Inv(View(), m - {text}) && r == (if text in m then Some(m[text]) else None)
             && StepTaken(s, View()) by {
        DelRight(s, m, text);
      }
      Bind(m - {text});
    }

    // ---- lines 155-166 as they are written ----

    static ghost predicate NextOk(c: seq<Node>, k: nat)
      requires k < |c|
      reads c
    {
      c[k].next == if k + 1 < |c| then c[k + 1] else null
    }

    /** A chain from `head` on, wherever its entries hang. */
    static ghost predicate Chained(head: Node?, c: seq<Node>)
      reads c
    {
      head == Head(c) && forall k :: 0 <= k < |c| ==> NextOk(c, k)
    }

    lemma ChainedSlot(table: array<Node?>, chains: seq<seq<Node>>, i: int)
      requires NodesOk(table, chains) && 0 <= i < |chains|
      ensures Chained(Head(chains[i]), chains[i])
      ensures forall k :: 0 <= k < |chains[i]| ==> chains[i][k] in Repr && chains[i][k].home == table
    {
      forall k | 0 <= k < |chains[i]|
        ensures chains[i][k] in Repr && chains[i][k].home == table
        ensures NextOk(chains[i], k)
      {
        assert NodeOk(table, chains, i, k);
      }
    }

    static method Holds(head: Node?, ghost c: seq<Node>, text: Text) returns (found: bool)
      requires Chained(head, c)
      ensures found <==> FindIn(Vals(c), text).Some?
    {
      var he := head;
      ghost var k := 0;
      while he != null && he.entry.key.text != text
        invariant k <= |c| && he == (if k < |c| then c[k] else null)
        invariant forall j :: 0 <= j < k ==> c[j].entry.key.text != text
        decreases |c| - k
      {
        assert NextOk(c, k);
        he, k := he.next, k + 1;
      }
      FindAt(Vals(c), text, k);
      found := he != null;
    }

    /** _dictKeyIndex for the key of an entry still to be moved: the bucket head in
        table 0 is stale, and `seen` is the chain that hangs from it. */
    method KeyIndexAsWritten(text: Text, ghost b: nat, ghost seen: seq<Node>, ghost slots0: seq<Chain>)
      returns (idx: int)
      requires Linkage(b) && b < |chains0| && |chains1| > 0 && IsPow2(|chains0|) && IsPow2(|chains1|)
      requires Chained(table0[b], seen)
      requires |slots0| == |chains0| && forall i :: 0 <= i < |slots0| && i != b ==> slots0[i] == Vals(chains0[i])
      ensures idx == W.KeyIndex(hash, slots0, b, Vals(seen), AllVals(chains1), text)
    {
      var i0 := SlotOf(text, table0.Length);
      ChainedSlot(table0, chains0, i0);
      var found := Holds(table0[i0], if i0 == b then seen else chains0[i0], text);
      if found { return -1; }
      var i1 := SlotOf(text, table1.Length);
      ChainedSlot(table1, chains1, i1);
      found := Holds(table1[i1], chains1[i1], text);
      return if found then -1 else i1;
    }

    /** The mask of line 160. */
    method MaskedAsWritten(idx: int, n: nat) returns (at: nat)
      requires idx >= -1 && n > 0 && IsPow2(n)
      ensures at == W.Masked(idx, n)
    {
      if idx == -1 { return n - 1; }
      MaskOfPow2(idx, n);
      at := BitAnd(idx, n - 1);
    }

    /** What hangs from the stale bucket head: the bucket itself before its first
        entry has moved, then that entry and what followed it in table 1. */
    ghost predicate SeenOk(b: nat, first: bool, seen: seq<Node>)
      reads this`table0, this`table1, this`chains0, this`Repr, table0, Repr, seen
    {
      && b < |chains0| && b < table0.Length && Chained(table0[b], seen)
      && (first ==> seen == chains0[b])
      && (!first ==> forall k :: 0 <= k < |seen| ==> seen[k] in Repr && seen[k].home == table1)
    }

    /** The slot that line 160 computes. */
    method SlotAsWritten(text: Text, ghost b: nat, ghost seen: seq<Node>, ghost slots0: seq<Chain>)
      returns (at: nat)
      requires Linkage(b) && b < |chains0| && |chains1| > 0 && IsPow2(|chains0|) && IsPow2(|chains1|)
      requires Chained(table0[b], seen)
      requires |slots0| == |chains0| && forall i :: 0 <= i < |slots0| && i != b ==> slots0[i] == Vals(chains0[i])
      ensures at == W.Masked(W.KeyIndex(hash, slots0, b, Vals(seen), AllVals(chains1), text), |slots0|)
    {
      var idx := KeyIndexAsWritten(text, b, seen, slots0);
      at := MaskedAsWritten(idx, table0.Length);
    }

    /** Lines 161-162 with the slot of line 160: what hangs from the stale head then. */
    method LinkAsWritten(de: Node, at: nat, b: nat, ghost first: bool, ghost seen: seq<Node>)
      returns (ghost seen': seq<Node>)
      requires Linkage(b) && SeenOk(b, first, seen) && chains0[b] != [] && chains0[b][0] == de && at < |chains1|
      modifies this`chains0, this`chains1, table1, de
      ensures Linkage(b) && chains0 == old(chains0)[b := old(chains0)[b][1..]] && SeenOk(b, false, seen')
      ensures AllVals(chains1) == PushSlot(old(AllVals(chains1)), at, de.entry)
      ensures Vals(seen') == if first then [de.entry] + old(AllVals(chains1))[at] else Vals(seen)
    {
      ghost var c1 := chains1;
      ChainedSlot(table1, chains1, at);
      assert NodeOk(table0, chains0, b, 0);
      LinkAcross(de, at, b);
      AllValsPush(c1, at, de);
      seen' := if first then [de] + c1[at] else seen;
      ChainedSlot(table1, chains1, at);
      assert chains1[at] == [de] + c1[at];
    }

    /** One pass of lines 156-166 as written; false instead of the write of line 162
        when its slot lies outside table 1. */
    method RelinkOneAsWritten(de: Node, b: nat, ghost first: bool, ghost seen: seq<Node>, ghost slots0: seq<Chain>)
      returns (inside: bool, ghost seen': seq<Node>)
      requires Linkage(b) && SeenOk(b, first, seen) && chains0[b] != [] && chains0[b][0] == de && used0 > 0
      requires |chains1| > 0 && IsPow2(|chains0|) && IsPow2(|chains1|)
      requires |slots0| == |chains0| && forall i :: 0 <= i < |slots0| && i != b ==> slots0[i] == Vals(chains0[i])
      modifies this`chains0, this`chains1, this`used0, this`used1, table1, de
      ensures inside ==>
        && Linkage(b) && chains0 == old(chains0)[b := old(chains0)[b][1..]] && SeenOk(b, false, seen')
        && used0 == old(used0) - 1 && used1 == old(used1) + 1 && |chains1| == |old(chains1)|
      ensures W.Relinked(hash, slots0, b, first, Vals(seen), old(Vals(chains0[b])), old(AllVals(chains1))) ==
        if inside then W.Relinked(hash, slots0, b, false, Vals(seen'), Vals(chains0[b]), AllVals(chains1)) else None
    {
      ghost var c, slots1 := chains0[b], AllVals(chains1);
      var at := SlotAsWritten(de.entry.key.text, b, seen, slots0);
      W.RelinkedStep(hash, slots0, b, first, Vals(seen), Vals(c), slots1, at);
      if at >= table1.Length { return false, []; }
      seen' := LinkAsWritten(de, at, b, first, seen);
      ValsTail(c);
      used0 := used0 - 1;
      used1 := used1 + 1;
      inside := true;
    }

    /** Lines 155-166 as written: on the linked entries themselves, with the stale
        bucket head in place, the loop leaves in table 1 what W.Relinked says. */
    method RelinkAllAsWritten(b: nat, ghost slots0: seq<Chain>, ghost v: Chain, ghost slots1: seq<Chain>)
      returns (inside: bool)
      requires slots0 == AllVals(chains0) && slots1 == AllVals(chains1)
      requires Linkage(-1) && b < |chains0| && |chains1| > 0 && IsPow2(|chains0|) && IsPow2(|chains1|)
      requires used0 >= |chains0[b]| && v == slots0[b]
      modifies this`chains0, this`chains1, this`used0, this`used1, Repr
      ensures W.Relinked(hash, slots0, b, true, v, v, slots1) == if inside then Some(AllVals(chains1)) else None
      ensures inside ==>
        && Linkage(b) && chains0 == old(chains0)[b := []]
        && used0 == old(used0) - |old(chains0)[b]| && used1 == old(used1) + |old(chains0)[b]|
    {
      ghost var c := chains0[b];
      ghost var goal := W.Relinked(hash, slots0, b, true, v, v, slots1);
      ChainedSlot(table0, chains0, b);
      var de := table0[b];
      ghost var first, seen, rest := true, c, c;
      inside := true;
      while de != null
        invariant Linkage(b) && chains0 == old(chains0)[b := rest] && de == Head(rest)
        invariant |chains1| == |old(chains1)|
        invariant SeenOk(b, first, seen)
        invariant used0 == old(used0) - |c| + |rest| && used1 == old(used1) + |c| - |rest|
        invariant W.Relinked(hash, slots0, b, first, Vals(seen), Vals(rest), AllVals(chains1)) == goal
        decreases |rest|
      {
        assert NodeOk(table0, chains0, b, 0);
        var nextde := de.next;
        inside, seen := RelinkOneAsWritten(de, b, first, seen, slots0);
        if !inside { return; }
        first, rest, de := false, rest[1..], nextde;
      }
    }

    /** Lines 155-167 as written. */
    method MoveChainAsWritten(ghost s: State, ghost c: Chain) returns (inside: bool, ghost r: Option<seq<Chain>>)
      requires Linkage(-1) && 0 <= rehashidx < |chains0| && |chains1| > 0 && IsPow2(|chains0|) && IsPow2(|chains1|)
      requires s == View() && c == s.ht0.slots[rehashidx] && used0 >= |c|
      modifies this`chains0, this`chains1, this`used0, this`used1, Repr
      ensures r == W.Relinked(hash, s.ht0.slots, rehashidx, true, c, c, s.ht1.slots) && (inside <==> r.Some?)
      ensures inside ==>
        && Linkage(-1)
        && View() == State(hash, Table(s.ht0.slots[rehashidx := []], s.ht0.used - |c|),
                           Table(r.value, s.ht1.used + |c|), rehashidx)
    {
      ghost var c0 := chains0;
      inside := RelinkAllAsWritten(rehashidx, s.ht0.slots, c, s.ht1.slots);
      r := if inside then Some(AllVals(chains1)) else None;
      if !inside { return; }
      ClearHead(rehashidx);
      AllValsUpdate(c0, rehashidx, []);
    }

    /** Lines 155-168 as written, for tables of any sizes. */
    method MoveOneAsWritten() returns (inside: bool)
      requires Linkage(-1) && 0 <= rehashidx < |chains0| && |chains1| > 0 && IsPow2(|chains0|) && IsPow2(|chains1|)
      requires used0 >= |chains0[rehashidx]|
      modifies this`chains0, this`chains1, this`used0, this`used1, this`rehashidx, Repr
      ensures W.MoveBucketAsWritten(old(View())) == if inside then Some(View()) else None
      ensures inside ==> Linkage(-1)
    {
      ghost var s := View();
      ghost var c := s.ht0.slots[rehashidx];
      ghost var r;
      inside, r := MoveChainAsWritten(s, c);
      W.MovedAsWritten(s, c, r);
      if inside { rehashidx := rehashidx + 1; }
    }

    /** One pass of lines 146-169 as written, with m passes and `empty` visits left. */
    method PassAsWritten(m: int, empty: int, ghost v: State) returns (found: bool, inside: bool, left: int)
      requires Linkage(-1) && View() == v && W.Drainable(v) && used0 > 0 && m != 0
      modifies this`chains0, this`chains1, this`used0, this`used1, this`rehashidx, Repr
      ensures inside ==> Linkage(-1) && W.Drainable(View())
      ensures inside && found ==> |chains0| == |old(chains0)| && old(rehashidx) < rehashidx <= |chains0|
      ensures W.LoopAsWritten(v, m, empty) ==
        if !inside then None else if found then W.LoopAsWritten(View(), m - 1, left) else Some(View())
    {
      W.OnePassAsWritten(v, m, empty);
      ghost var j :| rehashidx <= j < |v.ht0.slots| && v.ht0.slots[j] != [];
      found, left := SkipEmpty(empty, j);
      inside := true;
      ghost var t := View();
      assert t == v.(rehashidx := rehashidx);
      if found {
        W.MoveKeepsDrainable(t);
        inside := MoveOneAsWritten();
      }
    }

    /** Lines 146-169 as written; `whole` unless the visits ran out. */
    method RunPassesAsWritten(n: int, visits: int, ghost start: State, ghost goal: Option<State>)
      returns (whole: bool, inside: bool)
      requires Linkage(-1) && View() == start && W.Drainable(start) && W.LoopAsWritten(start, n, visits) == goal
      modifies this`chains0, this`chains1, this`used0, this`used1, this`rehashidx, Repr
      ensures inside ==> Linkage(-1)
      ensures goal == if inside then Some(if whole then Promote(View()) else View()) else None
    {
      var m, empty := n, visits;
      ghost var v := start;
      while true
        invariant Linkage(-1) && View() == v
        invariant W.Drainable(v) && W.LoopAsWritten(v, m, empty) == goal
        decreases |chains0| - rehashidx
      {
        if m == 0 || used0 == 0 { return true, true; }
        whole, inside, empty := PassAsWritten(m, empty, v);
        if !whole || !inside { return; }
        v := View();
        m := m - 1;
      }
    }

    /** dictRehash as written; not `inside` when a write of line 162 would leave table 1. */
    method RehashAsWritten(n: int) returns (more: bool, inside: bool)
      requires Valid()
      modifies this, Repr
      ensures more <==> old(Rehashing(View()))
      ensures !more ==> inside && Valid() && View() == old(View())
      ensures more ==> W.RehashAsWritten(old(View()), n) == if inside then Some(View()) else None
      ensures inside ==> Linkage(-1)
    {
      more, inside := rehashidx != -1, true;
      if !more { return; }
      ghost var s := View();
      var whole;
      whole, inside := RunPassesAsWritten(n - 1, 10 * n, s, W.LoopAsWritten(s, n - 1, 10 * n));
      if inside && whole && used0 == 0 { PromoteTable(); }
    }

    // ---- lines 91-111 as they are written ----

    /** Lines 94-106: compare pointers, starting with the `prev` of the last search. */
    method SearchKey(head: Node?, ghost table: array<Node?>, ghost chains: seq<seq<Node>>, ghost i: int,
                     key: Key, start: Node?)
      returns (prev: Node?, cur: Node?, ghost k: nat)
      requires 0 <= i < |chains| && NodesOk(table, chains) && head == Head(chains[i])
      ensures k <= |chains[i]| && cur == (if k < |chains[i]| then chains[i][k] else null)
      ensures prev == if k > 0 then chains[i][k - 1] else start
      ensures W.FindKey(Vals(chains[i]), key) == if cur != null then Some(cur.entry) else None
      ensures cur != null ==> W.WithoutKey(Vals(chains[i]), key) == Vals(chains[i][..k] + chains[i][k + 1..])
      ensures cur != null ==> (k == 0 <==> chains[i][0].entry.key == key)
    {
      ghost var c := chains[i];
      prev, cur, k := start, head, 0;
      while cur != null && cur.entry.key != key
        invariant k <= |c| && cur == (if k < |c| then c[k] else null)
        invariant prev == if k > 0 then c[k - 1] else start
        invariant forall j :: 0 <= j < k ==> c[j].entry.key != key
        decreases |c| - k
      {
        assert NodeOk(table, chains, i, k);
        prev, cur, k := cur, cur.next, k + 1;
      }
      W.FindKeyAt(Vals(c), key, k);
      if cur != null { ValsWithout(c, k); }
    }

    /** Line 97 with a `prev` from table 0: nothing in table 1 changes, and the chain
        of table 0 runs on into the rest of the chain of table 1. */
    method CrossLink(prev: Node, cur: Node, i0: nat, i1: nat)
      requires Linkage(-1) && i0 < |chains0| && i1 < |chains1| && chains0[i0] != [] && chains1[i1] != []
      requires prev == chains0[i0][|chains0[i0]| - 1] && cur == chains1[i1][0]
      modifies prev`next
      ensures Chained(table0[i0], chains0[i0] + chains1[i1][1..])
      ensures Chained(table1[i1], chains1[i1]) && table1[i1] == cur
    {
      ChainedSlot(table0, chains0, i0);
      ChainedSlot(table1, chains1, i1);
      ghost var c0, c1 := chains0[i0], chains1[i1];
      forall k | 0 <= k < |c0| - 1 ensures c0[k] != prev {
        assert NodeOk(table0, chains0, i0, k) && NodeOk(table0, chains0, i0, |c0| - 1);
      }
      assert prev.home == table0 && forall k :: 0 <= k < |c1| ==> c1[k] != prev;
      assert cur.next == (if 1 < |c1| then c1[1] else null) by { assert NodeOk(table1, chains1, i1, 0); }
      prev.next := cur.next;
      ghost var c := c0 + c1[1..];
      forall k | 0 <= k < |c| ensures NextOk(c, k) {
        if k >= |c0| {
          var j := k - |c0| + 1;
          assert old(NodeOk(table1, chains1, i1, j));
          assert c[k] == c1[j] && (k + 1 < |c| ==> c[k + 1] == c1[j + 1]);
        } else if k < |c0| - 1 {
          assert old(NodeOk(table0, chains0, i0, k));
          assert c[k] == c0[k] && c[k + 1] == c0[k + 1];
        } else {
          assert c[k] == prev && (k + 1 < |c| ==> c[k + 1] == c1[1]);
        }
      }
      assert table0[i0] == Head(c) by { assert c[0] == c0[0]; }
      assert Chained(table0[i0], c);
      assert c == chains0[i0] + chains1[i1][1..];
    }

    /** Lines 92-105 as written, on table 1: `prev` is what the search of table 0
        left behind. */
    method DelSecondAsWritten(prev0: Node?, i0: nat, key: Key) returns (cur: Node?)
      requires Linkage(-1) && i0 < |chains0| && |chains1| > 0 && IsPow2(|chains1|)
      requires prev0 == if chains0[i0] == [] then null else chains0[i0][|chains0[i0]| - 1]
      requires W.FindKey(AllVals(chains1)[Slot(hash, key.text, |chains1|)], key).Some? ==> used1 > 0
      modifies this`chains0, this`chains1, this`used0, this`used1, Repr
      ensures var i1, s := Slot(hash, key.text, |old(chains1)|), old(View());
        var c0, c1 := s.ht0.slots[i0], s.ht1.slots[i1];
        && W.FindKey(c1, key) == (if cur == null then None else Some(cur.entry))
        && if cur != null && c0 != [] && c1[0].key == key then
             && chains0 == old(chains0) && chains1 == old(chains1) && used0 == old(used0) && used1 == old(used1) - 1
             && cur == table1[i1] && cur == chains1[i1][0]
             && Chained(table0[i0], chains0[i0] + chains1[i1][1..]) && Chained(table1[i1], chains1[i1])
           else
             && Linkage(-1)
             && View() == if cur == null then s
                          else s.(ht1 := Table(s.ht1.slots[i1 := W.WithoutKey(c1, key)], s.ht1.used - 1))
    {
      var i1 := SlotOf(key.text, table1.Length);
      var prev;
      ghost var k;
      prev, cur, k := SearchKey(table1[i1], table1, chains1, i1, key, prev0);
      if cur == null { return; }
      assert NodeOk(table1, chains1, i1, k) && NodeOk(table1, chains1, i1, 0);
      assert k == 0 <==> cur == table1[i1];
      if cur == table1[i1] && prev != null {
        assert NodeOk(table0, chains0, i0, |chains0[i0]| - 1);
        CrossLink(prev, cur, i0, i1);
        used1 := used1 - 1;
      } else {
        UnlinkSecond(i1, prev, cur, k);
      }
    }

    /** Table 1 still heads its chain with the entry, and the chain of table 0 runs on
        into what follows it there. */
    ghost predicate Crossed(cur: Node?, key: Key)
      reads *
    {
      && 0 < |chains0| == table0.Length && 0 < |chains1| == table1.Length
      && var i0, i1 := Slot(hash, key.text, |chains0|), Slot(hash, key.text, |chains1|);
         && chains1[i1] != [] && cur == chains1[i1][0] && cur == table1[i1]
         && Chained(table0[i0], chains0[i0] + chains1[i1][1..]) && Chained(table1[i1], chains1[i1])
    }

    /** Lines 91-111 as written.  Unless `prev` is stale the pointer structure is
        that of W.DelBodyAsWritten; if it is, table 1 still holds the entry that
        line 101 frees, and the two chains run together. */
    method DelAsWritten(key: Key) returns (cur: Node?)
      requires Linkage(-1) && |chains0| > 0 && IsPow2(|chains0|)
      requires rehashidx != -1 ==> |chains1| > 0 && IsPow2(|chains1|)
      requires W.FindKey(View().ht0.slots[Slot(hash, key.text, |chains0|)], key).Some? ==> used0 > 0
      requires rehashidx != -1 ==>
        (W.FindKey(View().ht1.slots[Slot(hash, key.text, |chains1|)], key).Some? ==> used1 > 0)
      modifies this`chains0, this`chains1, this`used0, this`used1, Repr
      ensures !W.StalePrev(old(View()), key) ==>
        Linkage(-1) && (View(), if cur == null then None else Some(cur.entry)) == W.DelBodyAsWritten(old(View()), key)
      ensures W.StalePrev(old(View()), key) ==>
        && chains0 == old(chains0) && chains1 == old(chains1) && used0 == old(used0) && used1 == old(used1) - 1
        && Crossed(cur, key)
    {
      var i0 := SlotOf(key.text, table0.Length);
      var prev;
      ghost var k;
      prev, cur, k := SearchKey(table0[i0], table0, chains0, i0, key, null);
      if cur != null {
        UnlinkFirst(i0, prev, cur, k);
      } else if rehashidx != -1 {
        cur := DelSecondAsWritten(prev, i0, key);
      }
    }

    /** dictRehash(d, 1) as written. */
    method StepAsWritten()
      requires Linkage(-1)
      modifies this
      ensures Linkage(-1) && View() == W.StepAsWritten(old(View()))
      ensures old(View()) == View() ==> chains0 == old(chains0) && chains1 == old(chains1)
      ensures fresh(Repr - old(Repr))
    {
      if rehashidx != -1 && used0 == 0 { PromoteTable(); }
    }

    /** What the searches of dictDel rely on. */
    lemma KeysCounted(key: Key)
      requires Shape(View(), false) && Searchable(View())
      ensures |chains0| > 0 && IsPow2(|chains0|) && (rehashidx != -1 ==> |chains1| > 0 && IsPow2(|chains1|))
      ensures W.FindKey(View().ht0.slots[Slot(hash, key.text, |chains0|)], key).Some? ==> used0 > 0
      ensures rehashidx != -1 ==>
        (W.FindKey(View().ht1.slots[Slot(hash, key.text, |chains1|)], key).Some? ==> used1 > 0)
    {
      var i0 := Slot(hash, key.text, |chains0|);
      if W.FindKey(View().ht0.slots[i0], key).Some? { W.KeyCounted(View().ht0, i0, key); }
      if rehashidx != -1 {
        var i1 := Slot(hash, key.text, |chains1|);
        if W.FindKey(View().ht1.slots[i1], key).Some? { W.KeyCounted(View().ht1, i1, key); }
      }
    }

    /** dictDel as written: the size test, the step that moves nothing, and lines
        91-111. */
    method DictDelAsWritten(key: Key) returns (cur: Node?)
      requires Valid()
      modifies this, Repr
      ensures R.Usable(old(View()))
      ensures !W.StalePrev(old(View()), key) ==>
        && Linkage(-1)
        && (View(), if cur == null then None else Some(cur.entry)) == R.DelAsWritten(old(View()), key)
      ensures W.StalePrev(old(View()), key) ==>
        chains0 == old(chains0) && chains1 == old(chains1) && Crossed(cur, key)
    {
      ghost var s := View();
      R.InvUsable(s, contents);
      if used0 + used1 == 0 {
        R.EmptyNotStale(s, key);
        return null;
      }
      assert Shape(W.StepAsWritten(s), false) by { W.StepShape(s); }
      R.StepKeepsStale(s, key);
      StepAsWritten();
      KeysCounted(key);
      cur := DelAsWritten(key);
    }
  }

  /** dictCreate, with the hash of lib/dict.c. */
  method DictCreate() returns (d: Dict)
    ensures d.Valid() && fresh(d) && fresh(d.Repr) && d.hash == Hash && d.contents == map[]
  {
    d := new Dict(Hash);
  }
}
