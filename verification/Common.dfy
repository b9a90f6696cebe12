/** What several modules share: optional results and bytes. */
module Common {
  datatype Option<T> = None | Some(value: T)

  type Byte = b: int | 0 <= b < 256
  type Bytes = seq<Byte>

  // ---- quotients and remainders ----

  lemma {:induction false} DivUnique(d: nat, a: nat, t: nat, q: nat, r: nat)
    requires t < d && r < d && a * d + t == q * d + r
    ensures a == q && t == r
    decreases a
  {
    if a > 0 && q > 0 {
      assert a * d == (a - 1) * d + d && q * d == (q - 1) * d + d;
      DivUnique(d, a - 1, t, q - 1, r);
    }
  }

  lemma ModUnique(x: nat, d: nat, q: nat, r: nat)
    requires r < d && x == q * d + r
    ensures x % d == r && x / d == q
  {
    var a, t := x / d, x % d;
    DivUnique(d, a, t, q, r);
  }

  // ---- sequences, away from what they are about ----

  /** The parts one behind the other. */
  function Concat<T>(parts: seq<seq<T>>): seq<T> {
    if parts == [] then [] else Concat(parts[..|parts| - 1]) + parts[|parts| - 1]
  }

  lemma {:induction false} ConcatFirst<T>(parts: seq<seq<T>>)
    requires parts != []
    ensures Concat(parts) == parts[0] + Concat(parts[1..])
    decreases |parts|
  {
    var n := |parts| - 1;
    if n == 0 {
      AppendNone(parts[0]);
    } else {
      ConcatFirst(parts[..n]);
      assert parts[..n][1..] == parts[1..][..n - 1];
      AppendAssoc(parts[0], Concat(parts[1..][..n - 1]), parts[n]);
    }
  }

  lemma AppendAssoc<T>(a: seq<T>, b: seq<T>, c: seq<T>)
    ensures a + (b + c) == a + b + c
  {
  }

  lemma AppendNone<T>(a: seq<T>)
    ensures a + [] == a == [] + a
  {
  }

  lemma SplitAt<T>(s: seq<T>, i: nat)
    requires i <= |s|
    ensures s[..i] + s[i..] == s
  {
  }
}
