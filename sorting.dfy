/** A stable sort in descending order of an integer key: the model of
    `Array.prototype.sort((a, b) => key(b) - key(a))`, which JavaScript engines
    are required to perform stably. */
module Sorting {
  import opened Seqs

  /** Every element's key is at least the key of every element after it. */
  predicate SortedDesc<T>(key: T -> int, s: seq<T>)
  {
    forall i, j :: 0 <= i < j < |s| ==> key(s[i]) >= key(s[j])
  }

  /** The elements of `s` whose key is `k`, in their order in `s`. A sort is stable
      when it leaves every such run as it was. */
  function KeyRun<T>(key: T -> int, s: seq<T>, k: int): seq<T>
  {
    Filter(HasKey(key, k), s)
  }

  /** The test "has key `k`". */
  function HasKey<T>(key: T -> int, k: int): T -> bool
  {
    (x: T) => key(x) == k
  }

  /** Places `x` in front of the first element of `s` whose key is not larger than its
      own. On a sorted `s` this keeps the order (`InsertSorted`). */
  function Insert<T>(key: T -> int, x: T, s: seq<T>): (r: seq<T>)
    ensures |r| == |s| + 1
  {
    if s == [] || key(s[0]) <= key(x) then [x] + s
    else [s[0]] + Insert(key, x, s[1..])
  }

  /** Insertion sort, descending by key; `SortDescSorted` states what it returns. */
  function SortDesc<T>(key: T -> int, s: seq<T>): (r: seq<T>)
    ensures |r| == |s|
  {
    if s == [] then [] else Insert(key, s[0], SortDesc(key, s[1..]))
  }

  /** A head whose key bounds every key of a sorted tail gives a sorted sequence. */
  lemma SortedCons<T>(key: T -> int, h: T, t: seq<T>)
    requires SortedDesc(key, t)
    requires forall j :: 0 <= j < |t| ==> key(h) >= key(t[j])
    ensures SortedDesc(key, [h] + t)
  {
    var r := [h] + t;
    forall i, j | 0 <= i < j < |r|
      ensures key(r[i]) >= key(r[j])
    {
      assert r[j] == t[j - 1];
      if i > 0 {
        assert r[i] == t[i - 1];
      }
    }
  }

  /** Inserting adds exactly `x`. */
  lemma {:induction false} InsertPermutes<T>(key: T -> int, x: T, s: seq<T>)
    ensures multiset(Insert(key, x, s)) == multiset(s) + multiset{x}
  {
    if s != [] && key(s[0]) > key(x) {
      InsertPermutes(key, x, s[1..]);
      assert s == [s[0]] + s[1..];
    }
  }

  /** Inserting into a sorted sequence keeps it sorted. */
  lemma {:induction false} InsertSorted<T>(key: T -> int, x: T, s: seq<T>)
    requires SortedDesc(key, s)
    ensures SortedDesc(key, Insert(key, x, s))
  {
    if s == [] || key(s[0]) <= key(x) {
      SortedCons(key, x, s);
    } else {
      var tail := s[1..];
      var rest := Insert(key, x, tail);
      InsertSorted(key, x, tail);
      InsertPermutes(key, x, tail);
      forall j | 0 <= j < |rest| ensures key(s[0]) >= key(rest[j]) {
        assert rest[j] in multiset(rest);
        if rest[j] != x {
          assert rest[j] in multiset(tail);
          var m :| 0 <= m < |tail| && tail[m] == rest[j];
          assert s[m + 1] == rest[j];
        }
      }
      SortedCons(key, s[0], rest);
    }
  }

  /** The sort returns its input, permuted, in descending order of key. */
  lemma {:induction false} SortDescSorted<T>(key: T -> int, s: seq<T>)
    ensures SortedDesc(key, SortDesc(key, s))
    ensures multiset(SortDesc(key, s)) == multiset(s)
  {
    if s != [] {
      SortDescSorted(key, s[1..]);
      InsertSorted(key, s[0], SortDesc(key, s[1..]));
      InsertPermutes(key, s[0], SortDesc(key, s[1..]));
      assert s == [s[0]] + s[1..];
    }
  }

  /** The elements of `s` that satisfy `p`, stably sorted in descending order of key:
      exactly those elements, with their multiplicities. */
  function SelectSortedDesc<T>(p: T -> bool, key: T -> int, s: seq<T>): (r: seq<T>)
    ensures forall x | x in r :: x in s && p(x)
    ensures forall x | x in s && p(x) :: multiset(r)[x] == multiset(s)[x]
    ensures SortedDesc(key, r)
  {
    var selected := Filter(p, s);
    FilterContents(p, s);
    var r := SortDesc(key, selected);
    SortDescSorted(key, selected);
    assert forall x | x in r :: x in multiset(selected);
    r
  }

  /** Inserting `x` puts it at the front of its own key's run. */
  lemma {:induction false} InsertKeyRun<T>(key: T -> int, x: T, s: seq<T>, k: int)
    ensures KeyRun(key, Insert(key, x, s), k) == (if key(x) == k then [x] else []) + KeyRun(key, s, k)
  {
    var p := HasKey(key, k);
    var front := if key(x) == k then [x] else [];
    assert p(x) == (key(x) == k);
    FilterSingleton(p, x);
    if s == [] || key(s[0]) <= key(x) {
      assert Insert(key, x, s) == [x] + s;
      FilterAppend(p, [x], s);
    } else {
      var rest := Insert(key, x, s[1..]);
      assert Insert(key, x, s) == [s[0]] + rest;
      var tail := Filter(p, s[1..]);
      InsertKeyRun(key, x, s[1..], k);
      assert Filter(p, rest) == front + tail;
      var head := Filter(p, [s[0]]);
      assert p(s[0]) == (key(s[0]) == k);
      FilterSingleton(p, s[0]);
      FilterAppend(p, [s[0]], rest);
      assert s == [s[0]] + s[1..];
      FilterAppend(p, [s[0]], s[1..]);
      if key(s[0]) == k {
        assert front == [];
      } else {
        assert head == [];
      }
    }
  }

  /** A one-element sequence keeps its element exactly when the key matches. */
  lemma FilterSingleton<T>(p: T -> bool, x: T)
    ensures Filter(p, [x]) == if p(x) then [x] else []
  {
    assert [x][1..] == [];
  }

  /** The sort is stable: for every key, the elements carrying it keep their order. */
  lemma {:induction false} SortDescStable<T>(key: T -> int, s: seq<T>, k: int)
    ensures KeyRun(key, SortDesc(key, s), k) == KeyRun(key, s, k)
  {
    if s != [] {
      var p := HasKey(key, k);
      var t := SortDesc(key, s[1..]);
      assert SortDesc(key, s) == Insert(key, s[0], t);
      SortDescStable(key, s[1..], k);
      InsertKeyRun(key, s[0], t, k);
      assert s == [s[0]] + s[1..];
      FilterAppend(p, [s[0]], s[1..]);
      assert p(s[0]) == (key(s[0]) == k);
      FilterSingleton(p, s[0]);
    }
  }
}
