/** The byte-wise order of names, and stable sorting by name. */
module Sorting {
  predicate Less(a: string, b: string) {
    b != "" && (a == "" || a[0] < b[0] || (a[0] == b[0] && Less(a[1..], b[1..])))
  }

  /** The names agree before `k`, where the first one ends or has the smaller character. */
  predicate SmallerAt(a: string, b: string, k: nat) {
    k <= |a| && k < |b| && a[..k] == b[..k] && (k == |a| || a[k] < b[k])
  }

  /** One name is before another exactly if it is smaller where they first differ. */
  lemma {:induction false} LessIff(a: string, b: string)
    ensures Less(a, b) <==> exists k: nat :: SmallerAt(a, b, k)
  {
    if b != "" && (a == "" || a[0] < b[0]) {
      assert SmallerAt(a, b, 0);
    } else if b != "" && a[0] == b[0] {
      LessIff(a[1..], b[1..]);
      if k: nat :| SmallerAt(a[1..], b[1..], k) {
        SmallerShifts(a, b, k);
      }
      if k: nat :| SmallerAt(a, b, k) {
        SmallerShifts(a, b, k - 1);
      }
    }
  }

  lemma SmallerShifts(a: string, b: string, k: int)
    requires k >= 0 && a != "" && b != "" && a[0] == b[0]
    ensures SmallerAt(a[1..], b[1..], k) <==> SmallerAt(a, b, k + 1)
  {
    if k + 1 <= |a| && k + 1 < |b| {
      assert a[1..][..k] == a[1..k + 1] && b[1..][..k] == b[1..k + 1];
      assert a[..k + 1] == [a[0]] + a[1..k + 1] && b[..k + 1] == [b[0]] + b[1..k + 1];
      if a[..k + 1] == b[..k + 1] {
        assert a[1..k + 1] == a[..k + 1][1..] && b[1..k + 1] == b[..k + 1][1..];
      }
    }
  }

  lemma {:induction false} LessIsStrict(a: string, b: string)
    requires Less(a, b)
    ensures a != b && !Less(b, a)
  {
    if a != "" && a[0] == b[0] {
      LessIsStrict(a[1..], b[1..]);
    }
  }

  lemma {:induction false} LessIsTotal(a: string, b: string)
    ensures a == b || Less(a, b) || Less(b, a)
  {
    if a != "" && b != "" && a[0] == b[0] {
      LessIsTotal(a[1..], b[1..]);
      assert a == [a[0]] + a[1..] && b == [b[0]] + b[1..];
    }
  }

  lemma {:induction false} LessIsTransitive(a: string, b: string, c: string)
    requires Less(a, b) && Less(b, c)
    ensures Less(a, c)
  {
    if a != "" && a[0] == b[0] == c[0] {
      LessIsTransitive(a[1..], b[1..], c[1..]);
    }
  }

  predicate Ascends<T>(items: seq<T>, key: T -> string) {
    forall i, j :: 0 <= i < j < |items| ==> Less(key(items[i]), key(items[j]))
  }

  ghost predicate DistinctKeys<T>(items: seq<T>, key: T -> string) {
    forall i, j :: 0 <= i < j < |items| ==> key(items[i]) != key(items[j])
  }

  function InsertBy<T>(x: T, items: seq<T>, key: T -> string): seq<T> {
    if items == [] || !Less(key(items[0]), key(x)) then [x] + items else [items[0]] + InsertBy(x, items[1..], key)
  }

  /** Insertion from the right keeps items of equal name in their order. */
  function SortBy<T>(items: seq<T>, key: T -> string): seq<T> {
    if items == [] then [] else InsertBy(items[0], SortBy(items[1..], key), key)
  }

  lemma {:induction false} InsertKeeps<T>(x: T, items: seq<T>, key: T -> string)
    ensures |InsertBy(x, items, key)| == |items| + 1
    ensures multiset(InsertBy(x, items, key)) == multiset(items) + multiset{x}
  {
    if !(items == [] || !Less(key(items[0]), key(x))) {
      InsertKeeps(x, items[1..], key);
      assert items == [items[0]] + items[1..];
    }
  }

  lemma {:induction false} SortKeeps<T>(items: seq<T>, key: T -> string)
    ensures |SortBy(items, key)| == |items|
    ensures multiset(SortBy(items, key)) == multiset(items)
  {
    if items != [] {
      SortKeeps(items[1..], key);
      InsertKeeps(items[0], SortBy(items[1..], key), key);
      assert items == [items[0]] + items[1..];
    }
  }

  lemma SortHasSame<T>(items: seq<T>, key: T -> string, x: T)
    ensures x in SortBy(items, key) <==> x in items
  {
    SortKeeps(items, key);
    assert x in SortBy(items, key) <==> x in multiset(SortBy(items, key));
  }

  lemma {:induction false} InsertAscends<T>(x: T, items: seq<T>, key: T -> string)
    requires Ascends(items, key) && forall i :: 0 <= i < |items| ==> key(items[i]) != key(x)
    ensures Ascends(InsertBy(x, items, key), key)
  {
    if items == [] {
    } else if Less(key(items[0]), key(x)) {
      var rest := InsertBy(x, items[1..], key);
      InsertAscends(x, items[1..], key);
      InsertKeeps(x, items[1..], key);
      forall j | 0 <= j < |rest|
        ensures Less(key(items[0]), key(rest[j]))
      {
        assert rest[j] in multiset(rest);
      }
    } else {
      LessIsTotal(key(items[0]), key(x));
      forall j | 0 < j < |items|
        ensures Less(key(x), key(items[j]))
      {
        LessIsTransitive(key(x), key(items[0]), key(items[j]));
      }
    }
  }

  lemma {:induction false} SortAscends<T>(items: seq<T>, key: T -> string)
    requires DistinctKeys(items, key)
    ensures Ascends(SortBy(items, key), key)
  {
    if items != [] {
      var rest := SortBy(items[1..], key);
      SortAscends(items[1..], key);
      forall i | 0 <= i < |rest|
        ensures key(rest[i]) != key(items[0])
      {
        SortHasSame(items[1..], key, rest[i]);
        var j :| 0 <= j < |items[1..]| && items[1..][j] == rest[i];
        assert items[j + 1] == rest[i];
      }
      InsertAscends(items[0], rest, key);
    }
  }

  /** An ascending sequence is determined by its elements. */
  lemma {:induction false} AscendingIsUnique<T>(a: seq<T>, b: seq<T>, key: T -> string)
    requires Ascends(a, key) && Ascends(b, key)
    requires forall x :: x in a <==> x in b
    ensures a == b
  {
    if a == [] {
      FirstIn(b);
    } else {
      assert a[0] in a && b != [];
      assert b[0] in b;
      FirstIsLeast(a, key, b[0]);
      FirstIsLeast(b, key, a[0]);
      if a[0] != b[0] {
        LessIsStrict(key(a[0]), key(b[0]));
      }
      forall x
        ensures x in a[1..] <==> x in b[1..]
      {
        RestIn(a, key, x);
        RestIn(b, key, x);
      }
      AscendingIsUnique(a[1..], b[1..], key);
      assert a == [a[0]] + a[1..] && b == [b[0]] + b[1..];
    }
  }

  lemma FirstIn<T>(b: seq<T>)
    ensures b != [] ==> b[0] in b
  {}

  lemma FirstIsLeast<T>(a: seq<T>, key: T -> string, x: T)
    requires Ascends(a, key) && x in a
    ensures x == a[0] || Less(key(a[0]), key(x))
  {}

  lemma RestIn<T>(a: seq<T>, key: T -> string, x: T)
    requires a != [] && Ascends(a, key)
    ensures x in a[1..] <==> x in a && x != a[0]
  {
    if x in a[1..] {
      var i :| 0 <= i < |a[1..]| && a[1..][i] == x;
      assert a[i + 1] == x;
      LessIsStrict(key(a[0]), key(a[i + 1]));
    }
  }

  /** Sorting items with distinct names gives the same sequence whatever order they came in. */
  lemma SortForgetsOrder<T>(a: seq<T>, b: seq<T>, key: T -> string)
    requires DistinctKeys(a, key) && DistinctKeys(b, key)
    requires forall x :: x in a <==> x in b
    ensures SortBy(a, key) == SortBy(b, key)
  {
    SortAscends(a, key);
    SortAscends(b, key);
    forall x
      ensures x in SortBy(a, key) <==> x in SortBy(b, key)
    {
      SortHasSame(a, key, x);
      SortHasSame(b, key, x);
    }
    AscendingIsUnique(SortBy(a, key), SortBy(b, key), key);
  }
}
