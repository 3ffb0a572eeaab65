/** A stable sort for a comparator, as the runtime's `Array.prototype.sort`
    performs it. `after(a, b)` stands for "the comparator is positive for
    `(a, b)`", meaning `a` belongs after `b`. */
module Sorting {
  import opened Seqs

  /** `after` is asymmetric and its complement is transitive, which holds for
      every comparator `sortBookmarks` uses. */
  ghost predicate StrictWeakOrder<T(!new)>(after: (T, T) -> bool) {
    (forall a, b :: after(a, b) ==> !after(b, a)) &&
    (forall a, b, c :: after(a, c) ==> after(a, b) || after(b, c))
  }

  /** No element is placed after a later one. */
  ghost predicate SortedBy<T>(after: (T, T) -> bool, s: seq<T>) {
    forall i, j :: 0 <= i < j < |s| ==> !after(s[i], s[j])
  }

  /** Stable insertion of `x` into `s`: `x` goes after the last element it
      need not precede. */
  function Insert<T>(after: (T, T) -> bool, s: seq<T>, x: T): (r: seq<T>)
    ensures |r| == |s| + 1
    decreases |s|
  {
    if s == [] || !after(s[|s| - 1], x) then s + [x]
    else Insert(after, s[..|s| - 1], x) + [s[|s| - 1]]
  }

  /** Insertion sort: the elements of `s`, stably ordered by `after`. */
  function InsertionSorted<T>(after: (T, T) -> bool, s: seq<T>): (r: seq<T>)
    ensures |r| == |s|
    decreases |s|
  {
    if s == [] then []
    else Insert(after, InsertionSorted(after, s[..|s| - 1]), s[|s| - 1])
  }

  /** Inserting adds exactly the one element. */
  lemma {:induction false} InsertPermutes<T>(after: (T, T) -> bool, s: seq<T>, x: T)
    ensures multiset(Insert(after, s, x)) == multiset(s) + multiset{x}
    decreases |s|
  {
    if s != [] && after(s[|s| - 1], x) {
      var s', last := s[..|s| - 1], s[|s| - 1];
      InsertPermutes(after, s', x);
      assert s == s' + [last];
      assert multiset(s) == multiset(s') + multiset{last};
    }
  }

  /** Sorting rearranges and neither adds nor loses an element. */
  lemma {:induction false} InsertionSortedPermutes<T>(after: (T, T) -> bool, s: seq<T>)
    ensures multiset(InsertionSorted(after, s)) == multiset(s)
    decreases |s|
  {
    if s != [] {
      var s', last := s[..|s| - 1], s[|s| - 1];
      InsertionSortedPermutes(after, s');
      InsertPermutes(after, InsertionSorted(after, s'), last);
      assert s == s' + [last];
      assert multiset(s) == multiset(s') + multiset{last};
    }
  }

  /** Where `Insert` puts `x`: after a prefix whose last element it need not
      precede, before a suffix of elements that all belong after it. */
  lemma {:induction false} InsertAt<T>(after: (T, T) -> bool, s: seq<T>, x: T, j: nat)
    requires j <= |s|
    requires j == 0 || !after(s[j - 1], x)
    requires forall k :: j <= k < |s| ==> after(s[k], x)
    ensures Insert(after, s, x) == s[..j] + [x] + s[j..]
    decreases |s|
  {
    if j < |s| {
      var s', last := s[..|s| - 1], s[|s| - 1];
      assert after(last, x);
      assert Insert(after, s, x) == Insert(after, s', x) + [last];
      InsertAt(after, s', x, j);
      assert s'[..j] == s[..j];
      assert s'[j..] + [last] == s[j..];
    } else {
      assert s[..j] == s && s[j..] == [];
    }
  }

  lemma {:induction false} InsertSorted<T(!new)>(after: (T, T) -> bool, s: seq<T>, x: T)
    requires StrictWeakOrder(after)
    requires SortedBy(after, s)
    ensures SortedBy(after, Insert(after, s, x))
    decreases |s|
  {
    if s == [] || !after(s[|s| - 1], x) {
      var r := s + [x];
      assert Insert(after, s, x) == r;
      forall i | 0 <= i < |s| ensures !after(s[i], x) {
        if s[i] != s[|s| - 1] {
          assert !after(s[i], s[|s| - 1]);
        }
      }
    } else {
      var s', last := s[..|s| - 1], s[|s| - 1];
      InsertSorted(after, s', x);
      var r := Insert(after, s', x);
      assert Insert(after, s, x) == r + [last];
      InsertPermutes(after, s', x);
      forall i | 0 <= i < |r| ensures !after(r[i], last) {
        var y := r[i];
        assert y in multiset(r);
        if y != x {
          assert y in multiset(s');
          var k :| 0 <= k < |s'| && s'[k] == y;
          assert !after(s[k], s[|s| - 1]);
        }
      }
    }
  }

  lemma {:induction false} InsertionSortedIsSorted<T(!new)>(after: (T, T) -> bool, s: seq<T>)
    requires StrictWeakOrder(after)
    ensures SortedBy(after, InsertionSorted(after, s))
    decreases |s|
  {
    if s != [] {
      InsertionSortedIsSorted(after, s[..|s| - 1]);
      InsertSorted(after, InsertionSorted(after, s[..|s| - 1]), s[|s| - 1]);
    }
  }

  /** The elements `after` ranks equal to `k`. */
  function TiedWith<T>(after: (T, T) -> bool, k: T): T -> bool {
    b => !after(b, k) && !after(k, b)
  }

  lemma {:induction false} InsertStable<T(!new)>(after: (T, T) -> bool, s: seq<T>, x: T, k: T)
    requires StrictWeakOrder(after)
    ensures Filter(Insert(after, s, x), TiedWith(after, k)) == Filter(s + [x], TiedWith(after, k))
    decreases |s|
  {
    var p := TiedWith(after, k);
    if s != [] && after(s[|s| - 1], x) {
      var s', last := s[..|s| - 1], s[|s| - 1];
      assert s + [x] == s' + [last] + [x];
      // x and last are not tied with the same k, as last belongs after x
      assert !(p(x) && p(last));
      assert Filter([x], p) + Filter([last], p) == Filter([last], p) + Filter([x], p);
      calc {
        Filter(Insert(after, s, x), p);
        Filter(Insert(after, s', x) + [last], p);
        { FilterConcat(Insert(after, s', x), [last], p); }
        Filter(Insert(after, s', x), p) + Filter([last], p);
        { InsertStable(after, s', x, k); }
        Filter(s' + [x], p) + Filter([last], p);
        { FilterConcat(s', [x], p); }
        Filter(s', p) + Filter([x], p) + Filter([last], p);
        Filter(s', p) + Filter([last], p) + Filter([x], p);
        { FilterConcat(s', [last], p); }
        Filter(s' + [last], p) + Filter([x], p);
        { FilterConcat(s' + [last], [x], p); }
        Filter(s' + [last] + [x], p);
      }
    }
  }

  /** Insertion sort is stable: within every class of elements ranked equal,
      the input order is kept. */
  lemma {:induction false} InsertionSortedStable<T(!new)>(after: (T, T) -> bool, s: seq<T>, k: T)
    requires StrictWeakOrder(after)
    ensures Filter(InsertionSorted(after, s), TiedWith(after, k)) == Filter(s, TiedWith(after, k))
    decreases |s|
  {
    if s != [] {
      var s', last := s[..|s| - 1], s[|s| - 1];
      InsertionSortedStable(after, s', k);
      InsertStable(after, InsertionSorted(after, s'), last, k);
      FilterConcat(InsertionSorted(after, s'), [last], TiedWith(after, k));
      FilterConcat(s', [last], TiedWith(after, k));
      assert s == s' + [last];
    }
  }

  /** Two tie-free sorted arrangements of one multiset start alike. */
  lemma SortedSameHead<T(!new)>(after: (T, T) -> bool, a: seq<T>, b: seq<T>)
    requires StrictWeakOrder(after)
    requires multiset(a) == multiset(b) && a != []
    requires SortedBy(after, a) && SortedBy(after, b)
    requires forall x, y :: x in a && y in a && x != y ==> after(x, y) || after(y, x)
    ensures b != [] && a[0] == b[0]
  {
    assert |multiset(b)| == |a|;
    assert a[0] in multiset(b) && b[0] in multiset(a);
  }

  lemma MultisetTail<T>(a: seq<T>, b: seq<T>)
    requires multiset(a) == multiset(b) && a != [] && b != [] && a[0] == b[0]
    ensures multiset(a[1..]) == multiset(b[1..])
  {
    assert a == [a[0]] + a[1..] && b == [b[0]] + b[1..];
    assert multiset(a[1..]) == multiset(a) - multiset{a[0]};
    assert multiset(b[1..]) == multiset(b) - multiset{b[0]};
  }

  lemma SortedTail<T>(after: (T, T) -> bool, s: seq<T>)
    requires SortedBy(after, s) && s != []
    ensures SortedBy(after, s[1..])
  {
    var t := s[1..];
    forall i, j | 0 <= i < j < |t| ensures !after(t[i], t[j]) {
      assert t[i] == s[i + 1] && t[j] == s[j + 1];
    }
  }

  lemma TieFreeTail<T>(after: (T, T) -> bool, s: seq<T>)
    requires s != []
    requires forall x, y :: x in s && y in s && x != y ==> after(x, y) || after(y, x)
    ensures forall x, y :: x in s[1..] && y in s[1..] && x != y ==> after(x, y) || after(y, x)
  {
    forall x, y | x in s[1..] && y in s[1..] && x != y ensures after(x, y) || after(y, x) {
      assert x in s && y in s;
    }
  }

  /** Without ties between distinct elements there is only one sorted
      arrangement of a multiset. */
  lemma {:induction false} SortedUnique<T(!new)>(after: (T, T) -> bool, a: seq<T>, b: seq<T>)
    requires StrictWeakOrder(after)
    requires multiset(a) == multiset(b)
    requires SortedBy(after, a) && SortedBy(after, b)
    requires forall x, y :: x in a && y in a && x != y ==> after(x, y) || after(y, x)
    ensures a == b
    decreases |a|
  {
    if a == [] {
      assert |multiset(b)| == 0;
    } else {
      SortedSameHead(after, a, b);
      MultisetTail(a, b);
      SortedTail(after, a);
      SortedTail(after, b);
      TieFreeTail(after, a);
      SortedUnique(after, a[1..], b[1..]);
      assert a == [a[0]] + a[1..] && b == [b[0]] + b[1..];
    }
  }

  /** Moves `a[i]` left by adjacent swaps past every element of the sorted
      prefix `a[..i]` that belongs after it. */
  method InsertLast<T>(a: array<T>, i: nat, after: (T, T) -> bool)
    requires i < a.Length
    modifies a
    ensures a[..i + 1] == Insert(after, old(a[..i]), old(a[i]))
    ensures a[i + 1..] == old(a[i + 1..])
  {
    ghost var s := a[..i];
    ghost var rest := a[i + 1..];
    var x := a[i];
    var j := i;
    while j > 0 && after(a[j - 1], a[j])
      invariant 0 <= j <= i
      invariant a[..j] == s[..j]
      invariant a[j] == x
      invariant a[j + 1..i + 1] == s[j..]
      invariant a[i + 1..] == rest
      invariant forall k :: j <= k < i ==> after(s[k], x)
      decreases j
    {
      a[j - 1], a[j] := a[j], a[j - 1];
      j := j - 1;
    }
    InsertAt(after, s, x, j);
    assert a[..i + 1] == a[..j] + [a[j]] + a[j + 1..i + 1];
  }

  /** Sorts `a` in place, stably, by insertion. */
  method SortInPlace<T>(a: array<T>, after: (T, T) -> bool)
    modifies a
    ensures a[..] == InsertionSorted(after, old(a[..]))
  {
    ghost var input := a[..];
    var i := 0;
    while i < a.Length
      invariant 0 <= i <= a.Length
      invariant a[..i] == InsertionSorted(after, input[..i])
      invariant a[i..] == input[i..]
    {
      InsertLast(a, i, after);
      assert input[..i + 1][..i] == input[..i];
      i := i + 1;
    }
    assert input[..a.Length] == input;
  }
}
