/**
  Python's stable sort of entities by `position[0]`, ascending
  (`entities.sort(key=...)`) and with `reverse=True`
  (`sorted(..., reverse=True)`), which keeps entities with equal starts in
  their original order in both directions.

  The sort is specified three ways and the three are proved to agree: the
  result is ordered by the key, it is a permutation of the input, and for
  every key value it lists the entities with that key in input order; any
  sequence that is ordered and keeps every key's group in input order is the
  sort's result.
 */
module Ordering {
  import opened Entities

  /** The sort key: the start of the span, negated for a descending sort. */
  function Key(e: Entity, descending: bool): int
  {
    if descending then -(e.start as int) else e.start
  }

  /** `s` is in non-decreasing key order. */
  predicate Sorted(s: seq<Entity>, descending: bool)
  {
    forall i, j :: 0 <= i < j < |s| ==> Key(s[i], descending) <= Key(s[j], descending)
  }

  /** Puts `x`, which came before every element of `s` in the input, in front
      of the first element whose key is not smaller than its own. */
  function Insert(x: Entity, s: seq<Entity>, descending: bool): seq<Entity>
  {
    if s == [] || Key(x, descending) <= Key(s[0], descending) then [x] + s
    else [s[0]] + Insert(x, s[1..], descending)
  }

  /** Insertion adds `x` and loses nothing. */
  lemma {:induction false} InsertPermutes(x: Entity, s: seq<Entity>, descending: bool)
    ensures multiset(Insert(x, s, descending)) == multiset(s) + multiset{x}
  {
    if s != [] && Key(x, descending) > Key(s[0], descending) {
      InsertPermutes(x, s[1..], descending);
      assert s == [s[0]] + s[1..];
    }
  }

  /** Every key of `s` is at least `b`. */
  predicate KeysAtLeast(s: seq<Entity>, b: int, descending: bool)
  {
    forall i :: 0 <= i < |s| ==> b <= Key(s[i], descending)
  }

  lemma {:induction false} InsertKeysAtLeast(x: Entity, s: seq<Entity>, b: int, descending: bool)
    requires KeysAtLeast(s, b, descending) && b <= Key(x, descending)
    ensures KeysAtLeast(Insert(x, s, descending), b, descending)
  {
    if s != [] && Key(x, descending) > Key(s[0], descending) {
      InsertKeysAtLeast(x, s[1..], b, descending);
    }
  }

  /** A sequence is sorted when its head is a lower bound of its sorted tail. */
  lemma ConsSorted(y: Entity, t: seq<Entity>, descending: bool)
    requires Sorted(t, descending) && KeysAtLeast(t, Key(y, descending), descending)
    ensures Sorted([y] + t, descending)
  {
    var r := [y] + t;
    forall i, j | 0 <= i < j < |r| ensures Key(r[i], descending) <= Key(r[j], descending) {
      assert r[j] == t[j - 1];
      if i > 0 {
        assert r[i] == t[i - 1];
      }
    }
  }

  lemma {:induction false} InsertSorted(x: Entity, s: seq<Entity>, descending: bool)
    requires Sorted(s, descending)
    ensures Sorted(Insert(x, s, descending), descending)
  {
    if s == [] || Key(x, descending) <= Key(s[0], descending) {
      ConsSorted(x, s, descending);
    } else {
      var rest := Insert(x, s[1..], descending);
      assert Sorted(s[1..], descending);
      InsertSorted(x, s[1..], descending);
      InsertKeysAtLeast(x, s[1..], Key(s[0], descending), descending);
      ConsSorted(s[0], rest, descending);
    }
  }

  /** The stable sort of `s` by `Key`. */
  function SortBy(s: seq<Entity>, descending: bool): (r: seq<Entity>)
    ensures Sorted(r, descending)
    ensures multiset(r) == multiset(s)
  {
    if s == [] then []
    else
      var rest := SortBy(s[1..], descending);
      assert s == [s[0]] + s[1..];
      InsertSorted(s[0], rest, descending);
      InsertPermutes(s[0], rest, descending);
      Insert(s[0], rest, descending)
  }

  /** The elements of `s` whose key is `k`, in the order of `s`. */
  function WithKey(s: seq<Entity>, k: int, descending: bool): seq<Entity>
  {
    if s == [] then []
    else (if Key(s[0], descending) == k then [s[0]] else []) + WithKey(s[1..], k, descending)
  }

  lemma {:induction false} InsertWithKey(x: Entity, s: seq<Entity>, k: int, descending: bool)
    ensures WithKey(Insert(x, s, descending), k, descending) ==
            (if Key(x, descending) == k then [x] else []) + WithKey(s, k, descending)
  {
    if s == [] || Key(x, descending) <= Key(s[0], descending) {
      WithKeyCons(x, s, k, descending);
    } else {
      var rest := Insert(x, s[1..], descending);
      InsertWithKey(x, s[1..], k, descending);
      WithKeyCons(s[0], rest, k, descending);
      WithKeyCons(s[0], s[1..], k, descending);
      assert [s[0]] + s[1..] == s;
      // x and s[0] have different keys, so at most one of them is in the group
      assert Key(x, descending) != k || Key(s[0], descending) != k;
    }
  }

  /** The group of a sequence with a given head. */
  lemma WithKeyCons(y: Entity, t: seq<Entity>, k: int, descending: bool)
    ensures WithKey([y] + t, k, descending) == (if Key(y, descending) == k then [y] else []) + WithKey(t, k, descending)
  {
    assert ([y] + t)[1..] == t;
  }

  /** The sort is stable: for every key, the entities with that key keep the
      order they had in the input. */
  lemma {:induction false} SortStable(s: seq<Entity>, k: int, descending: bool)
    ensures WithKey(SortBy(s, descending), k, descending) == WithKey(s, k, descending)
  {
    if s != [] {
      SortStable(s[1..], k, descending);
      InsertWithKey(s[0], SortBy(s[1..], descending), k, descending);
    }
  }

  /** Some element of `s` has key `k` exactly when its group is not empty. */
  lemma {:induction false} WithKeyEmpty(s: seq<Entity>, k: int, descending: bool)
    ensures WithKey(s, k, descending) == [] <==>
            forall i :: 0 <= i < |s| ==> Key(s[i], descending) != k
  {
    if s != [] {
      WithKeyEmpty(s[1..], k, descending);
      assert forall i :: 1 <= i < |s| ==> s[i] == s[1..][i - 1];
    }
  }

  /** Dropping the head of `s` drops it from its group and from no other. */
  lemma WithKeyTail(s: seq<Entity>, k: int, descending: bool)
    requires s != []
    ensures WithKey(s[1..], k, descending) ==
            if Key(s[0], descending) == k then WithKey(s, k, descending)[1..] else WithKey(s, k, descending)
  {
  }

  /** Two sorted sequences with the same group for every key are equal. */
  lemma {:induction false} SortedGroupsDetermine(t: seq<Entity>, u: seq<Entity>, descending: bool)
    requires Sorted(t, descending) && Sorted(u, descending)
    requires forall k :: WithKey(t, k, descending) == WithKey(u, k, descending)
    ensures t == u
  {
    if t == [] || u == [] {
      var w := if t == [] then u else t;
      if w != [] {
        var k := Key(w[0], descending);
        WithKeyEmpty(t, k, descending);
        WithKeyEmpty(u, k, descending);
      }
    } else {
      SortedHeadsAgree(t, u, descending);
      forall k ensures WithKey(t[1..], k, descending) == WithKey(u[1..], k, descending) {
        WithKeyTail(t, k, descending);
        WithKeyTail(u, k, descending);
      }
      SortedGroupsDetermine(t[1..], u[1..], descending);
      assert t == [t[0]] + t[1..] && u == [u[0]] + u[1..];
    }
  }

  /** Two non-empty sorted sequences with the same groups start alike: the
      smallest key of each occurs in the other, so the two smallest keys
      coincide, and their common group starts with both heads. */
  lemma SortedHeadsAgree(t: seq<Entity>, u: seq<Entity>, descending: bool)
    requires t != [] && u != []
    requires Sorted(t, descending) && Sorted(u, descending)
    requires forall k :: WithKey(t, k, descending) == WithKey(u, k, descending)
    ensures t[0] == u[0]
  {
    var kt, ku := Key(t[0], descending), Key(u[0], descending);
    assert WithKey(t, kt, descending) == [t[0]] + WithKey(t[1..], kt, descending);
    assert WithKey(u, ku, descending) == [u[0]] + WithKey(u[1..], ku, descending);
    WithKeyEmpty(t, ku, descending);
    WithKeyEmpty(u, kt, descending);
    assert kt == ku;
    assert WithKey(t, kt, descending) == WithKey(u, kt, descending);
    assert WithKey(t, kt, descending)[0] == t[0];
  }

  /** The sort is the only ordering of `s` that is sorted and stable. */
  lemma SortUnique(s: seq<Entity>, t: seq<Entity>, descending: bool)
    requires Sorted(t, descending)
    requires forall k :: WithKey(t, k, descending) == WithKey(s, k, descending)
    ensures t == SortBy(s, descending)
  {
    forall k ensures WithKey(t, k, descending) == WithKey(SortBy(s, descending), k, descending) {
      SortStable(s, k, descending);
    }
    SortedGroupsDetermine(t, SortBy(s, descending), descending);
  }

  /** `s` reversed. */
  function Reverse(s: seq<Entity>): (r: seq<Entity>)
    ensures |r| == |s|
  {
    if s == [] then [] else Reverse(s[1..]) + [s[0]]
  }

  /** Starts strictly increase along `s`. */
  predicate StrictlyAscending(s: seq<Entity>)
  {
    forall i, j :: 0 <= i < j < |s| ==> s[i].start < s[j].start
  }

  /** An element that starts before every element of `s` goes to the end of
      a descending insertion. */
  lemma {:induction false} InsertLast(x: Entity, s: seq<Entity>)
    requires forall i :: 0 <= i < |s| ==> x.start < s[i].start
    ensures Insert(x, s, true) == s + [x]
  {
    if s != [] {
      InsertLast(x, s[1..]);
      assert s == [s[0]] + s[1..];
    }
  }

  lemma {:induction false} ReverseElements(s: seq<Entity>)
    ensures forall e :: e in Reverse(s) <==> e in s
  {
    if s != [] {
      ReverseElements(s[1..]);
      assert s == [s[0]] + s[1..];
    }
  }

  /** When no two entities share a start, sorting the ascending list in
      descending order reverses it. */
  lemma {:induction false} DescendingIsReverse(asc: seq<Entity>)
    requires StrictlyAscending(asc)
    ensures SortBy(asc, true) == Reverse(asc)
  {
    if asc != [] {
      var rest := asc[1..];
      DescendingIsReverse(rest);
      ReverseElements(rest);
      forall i | 0 <= i < |Reverse(rest)| ensures asc[0].start < Reverse(rest)[i].start {
        assert Reverse(rest)[i] in rest;
      }
      InsertLast(asc[0], Reverse(rest));
    }
  }
}
