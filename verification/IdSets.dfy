/** Ascending walks over 16-bit packet ids: the order of a std::map, the gaps in it, and
    how the two share out the ids 1 to n. */
module IdSets {
  import opened Bytes

  const IDS := 0x1_0000

  /** The members of s from `from` up to but not including `to`, in ascending order. */
  function Ascending(s: set<Word>, from: nat, to: nat): seq<Word>
    requires to <= IDS
    decreases (to as int) - from
  {
    if from >= to then [] else (if from in s then [from] else []) + Ascending(s, from + 1, to)
  }

  /** The order in which a std::map with these keys is walked. */
  function KeyOrder(s: set<Word>): seq<Word> {
    Ascending(s, 0, IDS)
  }

  /** The ids from `from` to n that are not in s, in ascending order. */
  function MissingFrom(s: set<Word>, from: nat, n: nat): seq<Word>
    requires n < IDS
    decreases (n as int) + 1 - from
  {
    if from > n then [] else (if from in s then [] else [from]) + MissingFrom(s, from + 1, n)
  }

  function Missing(s: set<Word>, n: nat): seq<Word>
    requires n < IDS
  {
    MissingFrom(s, 1, n)
  }

  /** What a walk finds that counts from `next` to total and steps through keys beside it,
      moving on in keys only on a match. */
  function Gaps(keys: seq<Word>, next: nat, total: nat): seq<Word>
    requires total < IDS
    decreases (total as int) + 1 - next
  {
    if next > total then []
    else if keys != [] && keys[0] == next then Gaps(keys[1..], next + 1, total)
    else [next] + Gaps(keys, next + 1, total)
  }

  function RemoveFirst(ids: seq<Word>, x: Word): seq<Word> {
    if ids == [] then [] else if ids[0] == x then ids[1..] else [ids[0]] + RemoveFirst(ids[1..], x)
  }

  ghost predicate StrictlyAscending(ids: seq<Word>) {
    forall i, j :: 0 <= i < j < |ids| ==> ids[i] < ids[j]
  }

  ghost predicate Within(s: set<Word>, n: nat) {
    forall k :: k in s ==> 1 <= k <= n
  }

  lemma Prepend(x: Word, rest: seq<Word>)
    requires StrictlyAscending(rest) && forall k :: k in rest ==> x < k
    ensures StrictlyAscending([x] + rest)
  {
    var all := [x] + rest;
    forall i, j | 0 <= i < j < |all|
      ensures all[i] < all[j]
    {
      assert all[j] == rest[j - 1] && rest[j - 1] in rest;
      if i > 0 {
        assert all[i] == rest[i - 1];
      }
    }
  }

  lemma {:induction false} AscendingMembers(s: set<Word>, from: nat, to: nat)
    requires to <= IDS
    ensures forall k :: k in Ascending(s, from, to) <==> k in s && from <= k < to
    ensures StrictlyAscending(Ascending(s, from, to))
    decreases (to as int) - from
  {
    if from < to {
      AscendingMembers(s, from + 1, to);
      Prepend(from, Ascending(s, from + 1, to));
    }
  }

  lemma {:induction false} MissingMembers(s: set<Word>, from: nat, n: nat)
    requires n < IDS
    ensures forall k :: k in MissingFrom(s, from, n) <==> k !in s && from <= k <= n
    ensures StrictlyAscending(MissingFrom(s, from, n))
    decreases (n as int) + 1 - from
  {
    if from <= n {
      MissingMembers(s, from + 1, n);
      Prepend(from, MissingFrom(s, from + 1, n));
    }
  }

  /** The walk finds the missing ids, because a map is walked in ascending order and holds
      no id below the one the count starts from. */
  lemma {:induction false} GapsAreMissing(s: set<Word>, next: nat, total: nat)
    requires total < IDS && next <= total + 1
    ensures Gaps(Ascending(s, next, IDS), next, total) == MissingFrom(s, next, total)
    decreases (total as int) + 1 - next
  {
    if next <= total {
      var keys := Ascending(s, next, IDS);
      GapsAreMissing(s, next + 1, total);
      if next in s {
        assert keys[0] == next && keys[1..] == Ascending(s, next + 1, IDS);
      } else {
        assert keys == Ascending(s, next + 1, IDS);
        AscendingMembers(s, next + 1, IDS);
        assert keys == [] || keys[0] in keys;
      }
    }
  }

  lemma {:induction false} OrderIsWhole(s: set<Word>, from: nat, to: nat)
    requires to <= IDS
    ensures |Ascending(s, from, to)| == |set k | k in s && from <= k < to|
    decreases (to as int) - from
  {
    var here := set k | k in s && from <= k < to;
    if from < to {
      OrderIsWhole(s, from + 1, to);
      var rest := set k | k in s && from + 1 <= k < to;
      if from in s {
        assert here == rest + {from};
      } else {
        assert here == rest;
      }
    } else {
      assert here == {};
    }
  }

  lemma {:induction false} PresentAndMissing(s: set<Word>, from: nat, n: nat)
    requires n < IDS && from <= n + 1
    ensures |Ascending(s, from, n + 1)| + |MissingFrom(s, from, n)| == n as int + 1 - from
    decreases (n as int) + 1 - from
  {
    if from <= n {
      PresentAndMissing(s, from + 1, n);
    }
  }

  /** Of n ids, those present and those missing make n: none is missing exactly when there
      are n present. */
  lemma PresentPlusMissing(s: set<Word>, n: nat)
    requires n < IDS && Within(s, n)
    ensures |s| + |Missing(s, n)| == n
    ensures |s| == n <==> (forall k :: 1 <= k <= n ==> k in s)
  {
    PresentAndMissing(s, 1, n);
    OrderIsWhole(s, 1, n + 1);
    assert s == set k | k in s && 1 <= k < n + 1;
    MissingMembers(s, 1, n);
    if |s| == n {
      assert Missing(s, n) == [];
      forall k | 1 <= k <= n
        ensures k in s
      {
        assert k !in Missing(s, n);
      }
    } else {
      var k := Missing(s, n)[0];
      assert k in Missing(s, n);
    }
  }

  /** The ids 1 to n in order. */
  function UpTo(from: nat, n: nat): seq<Word>
    requires n < IDS
    decreases (n as int) + 1 - from
  {
    if from > n then [] else [from] + UpTo(from + 1, n)
  }

  lemma {:induction false} FullOrder(s: set<Word>, from: nat, n: nat)
    requires n < IDS && Within(s, n) && forall k :: 1 <= k <= n ==> k in s
    requires 1 <= from <= n + 1
    ensures Ascending(s, from, IDS) == UpTo(from, n)
    decreases (n as int) + 1 - from
  {
    if from <= n {
      FullOrder(s, from + 1, n);
    } else {
      OrderIsWhole(s, from, IDS);
      assert (set k | k in s && from <= k < IDS) == {};
    }
  }

  /** Filling one gap takes exactly that id off the list of missing ones. */
  lemma {:induction false} FillingAGap(s: set<Word>, k: Word, from: nat, n: nat)
    requires n < IDS
    ensures MissingFrom(s + {k}, from, n) == RemoveFirst(MissingFrom(s, from, n), k)
    decreases (n as int) + 1 - from
  {
    if from <= n {
      FillingAGap(s, k, from + 1, n);
      var m, t := MissingFrom(s, from, n), MissingFrom(s, from + 1, n);
      if from in s {
        assert m == t;
      } else {
        assert m[0] == from && m[1..] == t;
        if from == k {
          MissingMembers(s, from + 1, n);
          NothingToRemove(t, k);
        }
      }
    }
  }

  lemma {:induction false} NothingToRemove(ids: seq<Word>, x: Word)
    requires x !in ids
    ensures RemoveFirst(ids, x) == ids
  {
    if ids != [] {
      NothingToRemove(ids[1..], x);
    }
  }

  /** Only the first occurrence goes. */
  lemma {:induction false} RemoveFirstIs(a: seq<Word>, x: Word, b: seq<Word>)
    requires x !in a
    ensures RemoveFirst(a + [x] + b, x) == a + b
  {
    var ids := a + [x] + b;
    if a == [] {
      assert ids[1..] == b && a + b == b;
    } else {
      assert ids[1..] == a[1..] + [x] + b;
      RemoveFirstIs(a[1..], x, b);
      assert [a[0]] + (a[1..] + b) == a + b;
    }
  }

  lemma {:induction false} UpToIs(from: nat, n: nat)
    requires n < IDS && from <= n + 1
    ensures |UpTo(from, n)| == n + 1 - from && forall i :: 0 <= i < |UpTo(from, n)| ==> UpTo(from, n)[i] == from + i
    decreases n + 1 - from
  {
    if from <= n {
      UpToIs(from + 1, n);
    }
  }

  /** A packet kept under number 0 stops the walk at its first step: then every id counts as
      missing, whatever else is held. */
  lemma GapsExactly(s: set<Word>, total: nat)
    requires total < IDS
    ensures Gaps(KeyOrder(s), 1, total) == if 0 in s then UpTo(1, total) else Missing(s, total)
  {
    hide Gaps;
    if 0 in s {
      assert KeyOrder(s)[0] == 0;
      StuckAtZero(KeyOrder(s), 1, total);
    } else {
      assert KeyOrder(s) == Ascending(s, 1, IDS);
      GapsAreMissing(s, 1, total);
    }
  }

  lemma {:induction false} StuckAtZero(keys: seq<Word>, next: nat, total: nat)
    requires total < IDS && next >= 1 && keys != [] && keys[0] == 0
    ensures Gaps(keys, next, total) == UpTo(next, total)
    decreases (total as int) + 1 - next
  {
    if next <= total {
      StuckAtZero(keys, next + 1, total);
    }
  }

  /** The scan that looks for an id in a list and erases the first match. */
  method EraseFirst(ids: seq<Word>, x: Word) returns (rest: seq<Word>)
    ensures rest == RemoveFirst(ids, x)
  {
    var i := 0;
    while i < |ids|
      invariant 0 <= i <= |ids|
      invariant RemoveFirst(ids, x) == ids[..i] + RemoveFirst(ids[i..], x)
    {
      if ids[i] == x {
        assert RemoveFirst(ids[i..], x) == ids[i + 1..];
        return ids[..i] + ids[i + 1..];
      }
      assert ids[i..][1..] == ids[i + 1..];
      assert ids[..i + 1] == ids[..i] + [ids[i]];
      i := i + 1;
    }
    assert ids[i..] == [];
    return ids;
  }

  /** The two-pointer loop over the packet map and the expected ids. */
  method CollectGaps(keys: seq<Word>, total: Word) returns (ids: seq<Word>)
    requires total < 0xFFFF
    ensures ids == Gaps(keys, 1, total)
  {
    ids := [];
    var sequence, i := 1, 0;
    while sequence <= total
      invariant 1 <= sequence <= total + 1 && 0 <= i <= |keys|
      invariant ids + Gaps(keys[i..], sequence, total) == Gaps(keys, 1, total)
    {
      if i < |keys| && keys[i] == sequence {
        assert keys[i..][1..] == keys[i + 1..];
        i := i + 1;
      } else {
        assert ids + ([sequence] + Gaps(keys[i..], sequence + 1, total))
            == (ids + [sequence]) + Gaps(keys[i..], sequence + 1, total);
        ids := ids + [sequence];
      }
      sequence := sequence + 1;
    }
  }
}
