/** Sorting by an order that may tie, as `std::sort` demands one: shared by the cached readers and the
    candidates. */
module Sorting {

  /** Nothing is before itself or before what is before it, and ties are transitive. */
  ghost predicate WeakOrder<T(!new)>(before: (T, T) -> bool) {
    && (forall a, b :: before(a, b) ==> !before(b, a))
    && (forall a, b, c :: !before(b, a) && !before(c, b) ==> !before(c, a))
  }

  lemma Chain<T(!new)>(before: (T, T) -> bool, a: T, b: T, c: T)
    requires WeakOrder(before) && !before(b, a) && !before(c, b)
    ensures !before(c, a)
  {
  }

  lemma Asymmetric<T(!new)>(before: (T, T) -> bool, a: T, b: T)
    requires WeakOrder(before) && before(a, b)
    ensures !before(b, a)
  {
  }

  /** None is before an earlier one. */
  ghost predicate Sorted<T>(before: (T, T) -> bool, items: seq<T>) {
    forall i, j :: 0 <= i < j < |items| ==> !before(items[j], items[i])
  }

  /** Before the first item that it comes before. */
  function Insert<T>(before: (T, T) -> bool, item: T, items: seq<T>): (r: seq<T>)
    ensures multiset(r) == multiset(items) + multiset{item}
  {
    if items == [] || before(item, items[0]) then [item] + items
    else
      assert items == [items[0]] + items[1..];
      [items[0]] + Insert(before, item, items[1..])
  }

  /** All the items in order. */
  function SortedList<T>(before: (T, T) -> bool, items: seq<T>): (r: seq<T>)
    ensures multiset(r) == multiset(items) && |r| == |items|
  {
    if items == [] then []
    else
      assert items == items[..|items| - 1] + [items[|items| - 1]];
      var r := Insert(before, items[|items| - 1], SortedList(before, items[..|items| - 1]));
      assert |multiset(r)| == |multiset(items)|;
      r
  }

  lemma {:induction false} InsertSorts<T(!new)>(before: (T, T) -> bool, item: T, items: seq<T>)
    requires WeakOrder(before) && Sorted(before, items)
    ensures Sorted(before, Insert(before, item, items))
  {
    hide WeakOrder;
    var r := Insert(before, item, items);
    if items == [] {
    } else if before(item, items[0]) {
      Asymmetric(before, item, items[0]);
      forall i, j | 0 <= i < j < |r| ensures !before(r[j], r[i]) {
        if i == 0 && j > 1 {
          Chain(before, item, items[0], items[j - 1]);
        }
      }
    } else {
      var rest := Insert(before, item, items[1..]);
      InsertSorts(before, item, items[1..]);
      forall j | 0 <= j < |rest| ensures !before(rest[j], items[0]) {
        assert rest[j] in multiset(rest);
        assert rest[j] == item || rest[j] in items[1..];
      }
    }
  }

  lemma {:induction false} SortedListIsSorted<T(!new)>(before: (T, T) -> bool, items: seq<T>)
    requires WeakOrder(before)
    ensures Sorted(before, SortedList(before, items))
  {
    hide WeakOrder, Insert;
    if items != [] {
      SortedListIsSorted(before, items[..|items| - 1]);
      InsertSorts(before, items[|items| - 1], SortedList(before, items[..|items| - 1]));
    }
  }

  /** `std::sort`: the same items, none before an earlier one; how ties come out is nobody's promise. */
  method Sort<T(!new)>(before: (T, T) -> bool, items: seq<T>) returns (sorted: seq<T>)
    requires WeakOrder(before)
    ensures multiset(sorted) == multiset(items) && Sorted(before, sorted)
  {
    hide WeakOrder, Insert;
    sorted := [];
    for n := 0 to |items|
      invariant multiset(sorted) == multiset(items[..n]) && Sorted(before, sorted)
    {
      InsertSorts(before, items[n], sorted);
      sorted := Insert(before, items[n], sorted);
      assert items[..n + 1] == items[..n] + [items[n]];
    }
    assert items[..|items|] == items;
  }

  // ---------------------------------------------------------------- one order only

  /** Items that tie are the same. */
  ghost predicate NoTies<T(!new)>(before: (T, T) -> bool, items: multiset<T>) {
    forall a, b :: a in items && b in items && !before(a, b) && !before(b, a) ==> a == b
  }

  /** Items that do not tie have one order only, however they were sorted. */
  lemma {:induction false} SortedIsUnique<T(!new)>(before: (T, T) -> bool, a: seq<T>, b: seq<T>)
    requires WeakOrder(before) && Sorted(before, a) && Sorted(before, b)
    requires multiset(a) == multiset(b) && NoTies(before, multiset(a))
    ensures a == b
  {
    hide *;
    SameLength(a, b);
    if a != [] {
      SameFirst(before, a, b);
      TailItems(before, a);
      TailItems(before, b);
      SortedIsUnique(before, a[1..], b[1..]);
      Rebuilt(a);
      Rebuilt(b);
    } else {
      assert a == b;
    }
  }

  lemma SameLength<T>(a: seq<T>, b: seq<T>)
    requires multiset(a) == multiset(b)
    ensures |a| == |b|
  {
    assert |multiset(a)| == |a| && |multiset(b)| == |b|;
  }

  lemma Rebuilt<T>(items: seq<T>)
    requires items != []
    ensures items == [items[0]] + items[1..]
  {
  }

  lemma SameFirst<T(!new)>(before: (T, T) -> bool, a: seq<T>, b: seq<T>)
    requires WeakOrder(before) && Sorted(before, a) && Sorted(before, b) && a != [] && b != []
    requires multiset(a) == multiset(b) && NoTies(before, multiset(a))
    ensures a[0] == b[0]
  {
    hide WeakOrder;
    assert a[0] in multiset(a) && b[0] in multiset(b);
    FirstIsLeast(before, a, b[0]);
    FirstIsLeast(before, b, a[0]);
  }

  lemma FirstIsLeast<T(!new)>(before: (T, T) -> bool, items: seq<T>, item: T)
    requires WeakOrder(before) && Sorted(before, items) && item in multiset(items)
    ensures !before(item, items[0])
  {
    if before(item, item) {
      Asymmetric(before, item, item);
    }
    hide WeakOrder;
  }

  lemma TailItems<T(!new)>(before: (T, T) -> bool, items: seq<T>)
    requires items != []
    ensures multiset(items[1..]) == multiset(items) - multiset{items[0]}
    ensures Sorted(before, items) ==> Sorted(before, items[1..])
    ensures NoTies(before, multiset(items)) ==> NoTies(before, multiset(items[1..]))
  {
    assert items == [items[0]] + items[1..];
  }
}
