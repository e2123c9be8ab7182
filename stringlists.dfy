/**
  The list utilities of utils.go: removing duplicates, testing membership,
  and removing a set of items, on lists of strings.
*/
module StringLists {
  import opened GoSort

  /** Strictly increasing: sorted and without repeated entries. */
  predicate StrictlySorted(s: seq<string>) {
    forall i, j :: 0 <= i < j < |s| ==> Less(s[i], s[j])
  }

  /**
    `DeduplicateList(list)`: every string of `list` once, in increasing
    order. The loop keeps a map of the strings already seen and the list of
    their first occurrences; the list is sorted at the end.
  */
  method DeduplicateList(list: seq<string>) returns (newList: seq<string>)
    ensures StrictlySorted(newList)
    ensures forall x :: x in newList <==> x in list
  {
    var itemsInList: map<string, bool> := map[];
    newList := [];
    for i := 0 to |list|
      invariant forall x :: x in itemsInList <==> x in list[..i]
      invariant forall x :: multiset(newList)[x] == if x in itemsInList then 1 else 0
    {
      var entry := list[i];
      assert list[..i + 1] == list[..i] + [entry];
      if entry !in itemsInList {
        itemsInList := itemsInList[entry := true];
        newList := newList + [entry];
      }
    }
    assert list[..|list|] == list;
    var unsorted := newList;
    newList := Sort(newList);
    forall i, j | 0 <= i < j < |newList| ensures Less(newList[i], newList[j]) {
      RepeatedEntry(newList, i, j);
    }
    forall x ensures x in newList <==> x in list {
      assert x in newList <==> x in multiset(newList);
      assert x in unsorted <==> x in multiset(unsorted);
    }
  }

  /** Two positions of a sorted list whose entries occur once each hold strings in strict order. */
  lemma RepeatedEntry(s: seq<string>, i: int, j: int)
    requires 0 <= i < j < |s| && Sorted(s)
    requires forall x :: multiset(s)[x] <= 1
    ensures Less(s[i], s[j])
  {
    assert s == s[..j] + [s[j]] + s[j + 1..];
    assert s[i] in s[..j];
    assert multiset(s)[s[j]] == multiset(s[..j])[s[j]] + 1 + multiset(s[j + 1..])[s[j]];
  }

  /**
    The output of `DeduplicateList` is determined by its set of strings:
    two strictly increasing lists with the same strings are equal.
  */
  lemma {:induction false} StrictlySortedUnique(a: seq<string>, b: seq<string>)
    requires StrictlySorted(a) && StrictlySorted(b)
    requires forall x :: x in a <==> x in b
    ensures a == b
    decreases |a|
  {
    if a != [] {
      assert a[0] in b;
    }
    if b != [] {
      assert b[0] in a;
    }
    if a != [] && b != [] {
      var k :| 0 <= k < |b| && b[k] == a[0];
      var l :| 0 <= l < |a| && a[l] == b[0];
      if k > 0 && l > 0 {
        LessEqAntisymmetric(a[0], b[0]);
      }
      assert a[0] == b[0];
      assert a == [a[0]] + a[1..] && b == [b[0]] + b[1..];
      forall x ensures x in a[1..] <==> x in b[1..] {
        if x in a[1..] {
          var m :| 0 <= m < |a| - 1 && a[1..][m] == x;
          assert Less(a[0], a[m + 1]);
          assert x in b && x != b[0];
          var n :| 0 <= n < |b| && b[n] == x;
          assert b[1..][n - 1] == x;
        }
        if x in b[1..] {
          var m :| 0 <= m < |b| - 1 && b[1..][m] == x;
          assert Less(b[0], b[m + 1]);
          assert x in a && x != a[0];
          var n :| 0 <= n < |a| && a[n] == x;
          assert a[1..][n - 1] == x;
        }
      }
      StrictlySortedUnique(a[1..], b[1..]);
      assert a == [a[0]] + a[1..] && b == [b[0]] + b[1..];
    }
  }

  /** `IsInStringArr(list, item)`: whether `item` is an entry of `list`. */
  method IsInStringArr(list: seq<string>, item: string) returns (isInArr: bool)
    ensures isInArr <==> item in list
  {
    isInArr := false;
    var i := 0;
    while i < |list|
      invariant 0 <= i <= |list|
      invariant !isInArr
      invariant forall j :: 0 <= j < i ==> list[j] != item
    {
      if list[i] == item {
        isInArr := true;
        break;
      }
      i := i + 1;
    }
  }

  /** The entries of `list` that are not among `items`, in their order in `list`. */
  function Without(list: seq<string>, items: seq<string>): (r: seq<string>)
    ensures |r| <= |list|
  {
    if list == [] then []
    else (if list[0] in items then [] else [list[0]]) + Without(list[1..], items)
  }

  /** An entry survives the filter exactly when it is in `list` and not in `items`. */
  lemma {:induction false} WithoutMembers(list: seq<string>, items: seq<string>, x: string)
    ensures x in Without(list, items) <==> x in list && x !in items
    decreases |list|
  {
    if list != [] {
      WithoutMembers(list[1..], items, x);
      assert list == [list[0]] + list[1..];
    }
  }

  /** Filtering keeps order: it distributes over concatenation. */
  lemma {:induction false} WithoutAppend(a: seq<string>, b: seq<string>, items: seq<string>)
    ensures Without(a + b, items) == Without(a, items) + Without(b, items)
    decreases |a|
  {
    if a == [] {
      assert a + b == b;
    } else {
      assert (a + b)[0] == a[0] && (a + b)[1..] == a[1..] + b;
      WithoutAppend(a[1..], b, items);
    }
  }

  /** Removing nothing keeps the list. */
  lemma {:induction false} WithoutNothing(list: seq<string>)
    ensures Without(list, []) == list
    decreases |list|
  {
    if list != [] {
      WithoutNothing(list[1..]);
      assert list == [list[0]] + list[1..];
    }
  }

  /** Removing the same items twice is removing them once. */
  lemma {:induction false} WithoutIdempotent(list: seq<string>, items: seq<string>)
    ensures Without(Without(list, items), items) == Without(list, items)
    decreases |list|
  {
    if list != [] {
      var head := if list[0] in items then [] else [list[0]];
      WithoutAppend(head, Without(list[1..], items), items);
      WithoutIdempotent(list[1..], items);
      if list[0] !in items {
        assert Without(head, items) == head by {
          assert head[1..] == [];
        }
      } else {
        assert head == [];
      }
    }
  }

  /**
    `RemoveFromStringArr(list, items)`: the entries of `list` not among
    `items`, in their original order. For each entry the inner loop looks
    for it among `items` and, when found, records it in a map of removed
    strings; the entry is kept when the map does not hold it.
  */
  method RemoveFromStringArr(list: seq<string>, items: seq<string>) returns (newList: seq<string>)
    ensures newList == Without(list, items)
    ensures forall x :: x in newList <==> x in list && x !in items
  {
    var itemsList: map<string, bool> := map[];
    newList := [];
    for i := 0 to |list|
      invariant forall x :: x in itemsList ==> x in items
      invariant newList == Without(list[..i], items)
    {
      var item := list[i];
      var k := 0;
      while k < |items|
        invariant 0 <= k <= |items|
        invariant forall x :: x in itemsList ==> x in items
        invariant forall m :: 0 <= m < k ==> items[m] != item
      {
        if items[k] == item {
          itemsList := itemsList[items[k] := true];
          break;
        }
        k := k + 1;
      }
      assert item in itemsList <==> item in items;
      assert list[..i + 1] == list[..i] + [item];
      WithoutAppend(list[..i], [item], items);
      if item !in itemsList {
        newList := newList + [item];
      }
    }
    assert list[..|list|] == list;
    forall x ensures x in newList <==> x in list && x !in items {
      WithoutMembers(list, items, x);
    }
  }
}
