/**
 Sorted listings without repeats, and the order strings sort in.

 `sort` followed by `dedup` is a library call in the source; `Listing` is its result,
 and `ListingIsUnique` says that nothing else is a sorted listing of the same items.
 */
module Sorting {

  ghost predicate StrictOrder<T(!new)>(less: (T, T) -> bool) {
    && (forall a :: !less(a, a))
    && (forall a, b :: a != b ==> less(a, b) || less(b, a))
    && (forall a, b, c :: less(a, b) && less(b, c) ==> less(a, c))
  }

  predicate SortedBy<T>(less: (T, T) -> bool, s: seq<T>) {
    forall i, j :: 0 <= i < j < |s| ==> less(s[i], s[j])
  }

  function Place<T(==)>(less: (T, T) -> bool, sorted: seq<T>, x: T): seq<T> {
    if sorted == [] then [x]
    else if sorted[0] == x then sorted
    else if less(x, sorted[0]) then [x] + sorted
    else [sorted[0]] + Place(less, sorted[1..], x)
  }

  function Listing<T(==)>(less: (T, T) -> bool, items: seq<T>): seq<T> {
    if items == [] then []
    else Place(less, Listing(less, items[..|items| - 1]), items[|items| - 1])
  }

  lemma {:induction false} PlaceKeeps<T(!new)>(less: (T, T) -> bool, sorted: seq<T>, x: T)
    requires StrictOrder(less) && SortedBy(less, sorted)
    ensures SortedBy(less, Place(less, sorted, x))
    ensures forall y :: y in Place(less, sorted, x) <==> y == x || y in sorted
  {
    if sorted != [] {
      var rest := Place(less, sorted[1..], x);
      assert sorted == [sorted[0]] + sorted[1..];
      if sorted[0] != x && !less(x, sorted[0]) {
        PlaceKeeps(less, sorted[1..], x);
        forall j | 0 <= j < |rest| ensures less(sorted[0], rest[j]) {
          assert rest[j] in rest;
          if rest[j] != x {
            var k :| 0 <= k < |sorted[1..]| && sorted[1..][k] == rest[j];
            assert sorted[k + 1] == rest[j];
          }
        }
      }
    }
  }

  /** A listing is strictly sorted and holds exactly the items. */
  lemma {:induction false} ListingIsSorted<T(!new)>(less: (T, T) -> bool, items: seq<T>)
    requires StrictOrder(less)
    ensures SortedBy(less, Listing(less, items))
    ensures forall y :: y in Listing(less, items) <==> y in items
  {
    if items != [] {
      var last := items[|items| - 1];
      assert items == items[..|items| - 1] + [last];
      ListingIsSorted(less, items[..|items| - 1]);
      PlaceKeeps(less, Listing(less, items[..|items| - 1]), last);
    }
  }

  lemma NothingIn<T(!new)>(s: seq<T>)
    ensures s == [] <==> forall y :: y !in s
  {
    if s != [] {
      assert s[0] in s;
    }
  }

  /** Only one strictly sorted sequence holds a given set of items. */
  lemma {:induction false} SortedIsUnique<T(!new)>(less: (T, T) -> bool, a: seq<T>, b: seq<T>)
    requires StrictOrder(less) && SortedBy(less, a) && SortedBy(less, b)
    requires forall y :: y in a <==> y in b
    ensures a == b
  {
    if a == [] {
      NothingIn(b);
    } else {
      assert a[0] in a;
      assert b != [] && b[0] in b;
      HeadIsLeast(less, a, b[0]);
      HeadIsLeast(less, b, a[0]);
      assert a[0] == b[0];
      forall y ensures y in a[1..] <==> y in b[1..] {
        InTail(less, a, y);
        InTail(less, b, y);
      }
      SortedIsUnique(less, a[1..], b[1..]);
    }
  }

  lemma HeadIsLeast<T(!new)>(less: (T, T) -> bool, s: seq<T>, y: T)
    requires SortedBy(less, s) && y in s
    ensures y == s[0] || less(s[0], y)
  {
    var k :| 0 <= k < |s| && s[k] == y;
  }

  lemma InTail<T(!new)>(less: (T, T) -> bool, s: seq<T>, y: T)
    requires StrictOrder(less) && SortedBy(less, s) && s != []
    ensures y in s[1..] <==> y in s && y != s[0]
  {
    assert s == [s[0]] + s[1..];
    if y in s[1..] {
      var k :| 0 <= k < |s[1..]| && s[1..][k] == y;
      assert less(s[0], s[k + 1]);
    }
  }

  /// Strings, compared byte by byte
  /// ------------------------------

  predicate Less(a: string, b: string) {
    b != [] && (a == [] || a[0] < b[0] || (a[0] == b[0] && Less(a[1..], b[1..])))
  }

  lemma {:induction false} LessIsIrreflexive(a: string)
    ensures !Less(a, a)
  {
    if a != [] {
      LessIsIrreflexive(a[1..]);
    }
  }

  lemma {:induction false} LessIsTotal(a: string, b: string)
    requires a != b
    ensures Less(a, b) || Less(b, a)
  {
    if a != [] && b != [] && a[0] == b[0] {
      assert a == [a[0]] + a[1..] && b == [b[0]] + b[1..];
      LessIsTotal(a[1..], b[1..]);
    }
  }

  lemma {:induction false} LessIsTransitive(a: string, b: string, c: string)
    requires Less(a, b) && Less(b, c)
    ensures Less(a, c)
  {
    if a != [] && a[0] == b[0] && b[0] == c[0] {
      LessIsTransitive(a[1..], b[1..], c[1..]);
    }
  }

  lemma LessIsStrictOrder()
    ensures StrictOrder(Less)
  {
    forall a ensures !Less(a, a) {
      LessIsIrreflexive(a);
    }
    forall a, b | a != b ensures Less(a, b) || Less(b, a) {
      LessIsTotal(a, b);
    }
    forall a, b, c | Less(a, b) && Less(b, c) ensures Less(a, c) {
      LessIsTransitive(a, b, c);
    }
  }
}
