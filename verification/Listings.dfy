/** Sets of texts listed in ascending order, as a sorted tree set iterates over them, and the items
    picked out of a list. */
module Listings {
  import Text

  /** Every text of the set, each once, ascending. */
  ghost predicate Sorted(l: seq<string>, s: set<string>) {
    && (forall x :: x in l <==> x in s)
    && (forall i, j :: 0 <= i < j < |l| ==> l[i] != l[j] && Text.LexLe(l[i], l[j]))
  }

  lemma {:induction false} SortedLength(l: seq<string>, s: set<string>)
    requires Sorted(l, s)
    ensures |l| == |s|
    decreases |l|
  {
    hide Text.LexLe;
    if l == [] {
      assert s == {};
    } else {
      assert l[0] in l;
      WithoutFirst(l, s);
      SortedLength(l[1..], s - {l[0]});
    }
  }

  lemma WithoutFirst(l: seq<string>, s: set<string>)
    requires Sorted(l, s) && l != []
    ensures Sorted(l[1..], s - {l[0]})
  {
    hide Text.LexLe;
    var rest := l[1..];
    forall x ensures x in rest <==> x in s - {l[0]} {
      if x in s - {l[0]} {
        var i :| 0 <= i < |l| && l[i] == x;
        assert rest[i - 1] == x;
      }
      if x in rest {
        var i :| 0 <= i < |rest| && rest[i] == x;
        assert l[i + 1] == x;
      }
    }
  }

  method ToSorted(s: set<string>) returns (l: seq<string>)
    ensures Sorted(l, s)
  {
    hide SortedSoFar;
    l := [];
    var left := s;
    NothingSorted(s);
    while left != {}
      invariant left <= s && SortedSoFar(l, s, left)
      decreases left
    {
      var first := Smallest(left);
      OneSorted(l, s, left, first);
      l := l + [first];
      left := left - {first};
    }
    AllSorted(l, s);
  }

  method Smallest(s: set<string>) returns (first: string)
    requires s != {}
    ensures first in s && forall y <- s :: Text.LexLe(first, y)
  {
    hide Text.LexLe;
    first :| first in s;
    var left := s - {first};
    Text.LexTotal(first, first);
    while left != {}
      invariant left <= s && first in s && first !in left
      invariant forall y <- s - left :: Text.LexLe(first, y)
      decreases left
    {
      var y :| y in left;
      left := left - {y};
      Text.LexTotal(first, y);
      if !Text.LexLe(first, y) {
        forall z <- s - left ensures Text.LexLe(y, z) {
          Text.LexTotal(y, y);
          if z != y {
            Text.LexTransitive(y, first, z);
          }
        }
        first := y;
      }
    }
  }

  ghost predicate SortedSoFar(l: seq<string>, s: set<string>, left: set<string>) {
    && (forall x :: x in l <==> x in s - left)
    && (forall i, j :: 0 <= i < j < |l| ==> l[i] != l[j] && Text.LexLe(l[i], l[j]))
    && (forall x, y | x in l && y in left :: Text.LexLe(x, y))
  }

  lemma NothingSorted(s: set<string>)
    ensures SortedSoFar([], s, s)
  {
  }

  lemma OneSorted(l: seq<string>, s: set<string>, left: set<string>, first: string)
    requires left <= s && SortedSoFar(l, s, left) && first in left && forall y <- left :: Text.LexLe(first, y)
    ensures SortedSoFar(l + [first], s, left - {first})
  {
    hide Text.LexLe;
    forall i | 0 <= i < |l| ensures l[i] != first && Text.LexLe(l[i], first) {
      assert l[i] in l;
    }
  }

  lemma AllSorted(l: seq<string>, s: set<string>)
    requires SortedSoFar(l, s, {})
    ensures Sorted(l, s)
  {
    hide Text.LexLe;
  }

  // ---------------------------------------------------------------------------------------------
  // Items picked out of a list

  /** The items are those at the positions `at` of the list, which are in order. */
  ghost predicate PickedAt<T>(items: seq<T>, all: seq<T>, at: seq<nat>) {
    && |items| == |at|
    && (forall i :: 0 <= i < |at| ==> at[i] < |all| && items[i] == all[at[i]])
    && (forall i, j :: 0 <= i < j < |at| ==> at[i] < at[j])
  }

  lemma OneMorePicked<T>(items: seq<T>, all: seq<T>, at: seq<nat>)
    requires all != [] && PickedAt(items, all[..|all| - 1], at)
    ensures PickedAt(items, all, at) && PickedAt(items + [all[|all| - 1]], all, at + [|all| - 1])
    ensures |all| - 1 !in at
    ensures forall i :: i in at + [|all| - 1] <==> i in at || i == |all| - 1
  {
    var last: nat := |all| - 1;
    var more := at + [last];
    assert forall i :: 0 <= i < |at| ==> more[i] == at[i];
    assert more[|at|] == last;
  }

  /** The items of the list that meet a condition, each as often as the list has it, in its order. */
  ghost predicate Picks<T>(items: seq<T>, all: seq<T>, keep: T -> bool) {
    exists at :: PickedAt(items, all, at) && forall i :: 0 <= i < |all| ==> (i in at <==> keep(all[i]))
  }

  lemma PicksNothing<T>(keep: T -> bool)
    ensures Picks([], [], keep)
  {
    var none: seq<nat> := [];
    assert PickedAt<T>([], [], none);
  }

  lemma OneMorePick<T>(items: seq<T>, all: seq<T>, keep: T -> bool)
    requires all != [] && Picks(items, all[..|all| - 1], keep)
    ensures Picks(if keep(all[|all| - 1]) then items + [all[|all| - 1]] else items, all, keep)
  {
    hide PickedAt;
    var front, last := all[..|all| - 1], |all| - 1;
    var at :| PickedAt(items, front, at) && forall i :: 0 <= i < |front| ==> (i in at <==> keep(front[i]));
    OneMorePicked(items, all, at);
    var more := if keep(all[last]) then at + [last] else at;
    forall i | 0 <= i < |all| ensures i in more <==> keep(all[i]) {
      assert i < last ==> all[i] == front[i];
    }
  }
}
