/**
 * The reference for java.util.List.sort: a stable sort by a key and a total
 * preorder on keys, defined as insertion sort. A stable sort has exactly one
 * possible output, so any stable algorithm (TimSort included) agrees with it.
 */
module Sorting {

  /** leq is total and transitive: what a Java Comparator must be for sort to be defined. */
  ghost predicate TotalPreorder<K(!new)>(leq: (K, K) -> bool)
  {
    (forall a, b :: leq(a, b) || leq(b, a))
    && (forall a, b, c :: leq(a, b) && leq(b, c) ==> leq(a, c))
  }

  /** Every element's key is at or before the key of every later element. */
  ghost predicate SortedBy<T, K>(key: T -> K, leq: (K, K) -> bool, s: seq<T>)
  {
    forall i, j | 0 <= i < j < |s| :: leq(key(s[i]), key(s[j]))
  }

  /**
   * Inserts x just before the first element whose key is strictly after
   * x's key, so that x follows every element it ties with.
   */
  function Insert<T, K>(key: T -> K, leq: (K, K) -> bool, x: T, s: seq<T>): (r: seq<T>)
    ensures |r| == |s| + 1
    ensures multiset(r) == multiset(s) + multiset{x}
  {
    if s == [] then [x]
    else if !leq(key(s[0]), key(x)) then [x] + s
    else
      assert s == [s[0]] + s[1..];
      [s[0]] + Insert(key, leq, x, s[1..])
  }

  /** Stable insertion sort: the result is a permutation of s. */
  function SortBy<T, K>(key: T -> K, leq: (K, K) -> bool, s: seq<T>): (r: seq<T>)
    ensures |r| == |s|
    ensures multiset(r) == multiset(s)
  {
    if s == [] then []
    else
      assert s == s[..|s| - 1] + [s[|s| - 1]];
      Insert(key, leq, s[|s| - 1], SortBy(key, leq, s[..|s| - 1]))
  }

  /** A lower bound of x's key and of every key in s bounds every key of the insertion. */
  lemma {:induction false} InsertLowerBound<T, K>(key: T -> K, leq: (K, K) -> bool, b: K, x: T, s: seq<T>)
    requires leq(b, key(x)) && forall i | 0 <= i < |s| :: leq(b, key(s[i]))
    ensures forall i | 0 <= i < |Insert(key, leq, x, s)| :: leq(b, key(Insert(key, leq, x, s)[i]))
  {
    if s != [] && leq(key(s[0]), key(x)) {
      InsertLowerBound(key, leq, b, x, s[1..]);
      var t := Insert(key, leq, x, s[1..]);
      assert Insert(key, leq, x, s) == [s[0]] + t;
    }
  }

  lemma {:induction false} InsertSorted<T, K(!new)>(key: T -> K, leq: (K, K) -> bool, x: T, s: seq<T>)
    requires TotalPreorder(leq) && SortedBy(key, leq, s)
    ensures SortedBy(key, leq, Insert(key, leq, x, s))
  {
    if s == [] {
    } else if !leq(key(s[0]), key(x)) {
      forall i | 0 <= i < |s| ensures leq(key(x), key(s[i])) {
        assert i == 0 || leq(key(s[0]), key(s[i]));
      }
    } else {
      var t := Insert(key, leq, x, s[1..]);
      InsertSorted(key, leq, x, s[1..]);
      InsertLowerBound(key, leq, key(s[0]), x, s[1..]);
      assert Insert(key, leq, x, s) == [s[0]] + t;
    }
  }

  /** The sort's output is ordered. */
  lemma {:induction false} SortBySorted<T, K(!new)>(key: T -> K, leq: (K, K) -> bool, s: seq<T>)
    requires TotalPreorder(leq)
    ensures SortedBy(key, leq, SortBy(key, leq, s))
  {
    if s != [] {
      SortBySorted(key, leq, s[..|s| - 1]);
      InsertSorted(key, leq, s[|s| - 1], SortBy(key, leq, s[..|s| - 1]));
    }
  }

  /** The elements whose key ties with k, in their order in s. */
  function Ties<T, K>(key: T -> K, leq: (K, K) -> bool, k: K, s: seq<T>): (r: seq<T>)
    ensures |r| <= |s|
    ensures forall i | 0 <= i < |r| :: leq(key(r[i]), k) && leq(k, key(r[i]))
  {
    if s == [] then []
    else
      var e := s[|s| - 1];
      Ties(key, leq, k, s[..|s| - 1]) + (if leq(key(e), k) && leq(k, key(e)) then [e] else [])
  }

  lemma {:induction false} TiesConcat<T, K>(key: T -> K, leq: (K, K) -> bool, k: K, a: seq<T>, b: seq<T>)
    ensures Ties(key, leq, k, a + b) == Ties(key, leq, k, a) + Ties(key, leq, k, b)
    decreases |b|
  {
    if b == [] {
      assert a + b == a;
    } else {
      assert (a + b)[..|a + b| - 1] == a + b[..|b| - 1];
      TiesConcat(key, leq, k, a, b[..|b| - 1]);
    }
  }

  lemma {:induction false} NoTies<T, K>(key: T -> K, leq: (K, K) -> bool, k: K, s: seq<T>)
    requires forall i | 0 <= i < |s| :: !(leq(key(s[i]), k) && leq(k, key(s[i])))
    ensures Ties(key, leq, k, s) == []
  {
    if s != [] {
      NoTies(key, leq, k, s[..|s| - 1]);
    }
  }

  /** When s starts strictly after x and x ties with k, nothing in s ties with k. */
  lemma NoTiesAfter<T, K(!new)>(key: T -> K, leq: (K, K) -> bool, k: K, x: T, s: seq<T>)
    requires TotalPreorder(leq) && SortedBy(key, leq, s)
    requires s != [] && !leq(key(s[0]), key(x))
    requires leq(key(x), k) && leq(k, key(x))
    ensures Ties(key, leq, k, s) == []
  {
    forall i | 0 <= i < |s| ensures !(leq(key(s[i]), k) && leq(k, key(s[i]))) {
      assert i == 0 || leq(key(s[0]), key(s[i]));
    }
    NoTies(key, leq, k, s);
  }

  /** When x goes in front of s, its ties come out as if it had been appended. */
  lemma InsertTiesInFront<T, K(!new)>(key: T -> K, leq: (K, K) -> bool, k: K, x: T, s: seq<T>)
    requires TotalPreorder(leq) && SortedBy(key, leq, s)
    requires s != [] && !leq(key(s[0]), key(x))
    ensures Ties(key, leq, k, [x] + s) == Ties(key, leq, k, s) + Ties(key, leq, k, [x])
  {
    TiesConcat(key, leq, k, [x], s);
    assert [x][..0] == [];
    if leq(key(x), k) && leq(k, key(x)) {
      NoTiesAfter(key, leq, k, x, s);
    }
  }

  lemma {:induction false} InsertTies<T, K(!new)>(key: T -> K, leq: (K, K) -> bool, k: K, x: T, s: seq<T>)
    requires TotalPreorder(leq) && SortedBy(key, leq, s)
    ensures Ties(key, leq, k, Insert(key, leq, x, s))
         == Ties(key, leq, k, s) + Ties(key, leq, k, [x])
  {
    if s == [] {
      assert [x] == [] + [x];
    } else if !leq(key(s[0]), key(x)) {
      InsertTiesInFront(key, leq, k, x, s);
    } else {
      InsertTies(key, leq, k, x, s[1..]);
      InsertTiesBehindHead(key, leq, k, x, s);
    }
  }

  /** When x goes after s's head, the head's tie (if any) stays in front. */
  lemma InsertTiesBehindHead<T, K>(key: T -> K, leq: (K, K) -> bool, k: K, x: T, s: seq<T>)
    requires s != [] && leq(key(s[0]), key(x))
    requires Ties(key, leq, k, Insert(key, leq, x, s[1..]))
          == Ties(key, leq, k, s[1..]) + Ties(key, leq, k, [x])
    ensures Ties(key, leq, k, Insert(key, leq, x, s))
         == Ties(key, leq, k, s) + Ties(key, leq, k, [x])
  {
    var head, tail := [s[0]], s[1..];
    var rest := Insert(key, leq, x, tail);
    var th, tt, tx := Ties(key, leq, k, head), Ties(key, leq, k, tail), Ties(key, leq, k, [x]);
    calc {
      Ties(key, leq, k, Insert(key, leq, x, s));
      { assert Insert(key, leq, x, s) == head + rest; }
      Ties(key, leq, k, head + rest);
      { TiesConcat(key, leq, k, head, rest); }
      th + (tt + tx);
      { AppendAssoc(th, tt, tx); }
      (th + tt) + tx;
      { TiesConcat(key, leq, k, head, tail);
        assert head + tail == s; }
      Ties(key, leq, k, s) + tx;
    }
  }

  lemma AppendAssoc<T>(a: seq<T>, b: seq<T>, c: seq<T>)
    ensures a + (b + c) == (a + b) + c
  {
  }

  /**
   * Stability: for every key k, the elements tying with k appear in the
   * output in the same order as in the input.
   */
  lemma {:induction false} SortByStable<T, K(!new)>(key: T -> K, leq: (K, K) -> bool, k: K, s: seq<T>)
    requires TotalPreorder(leq)
    ensures Ties(key, leq, k, SortBy(key, leq, s)) == Ties(key, leq, k, s)
  {
    if s != [] {
      var init, last := s[..|s| - 1], s[|s| - 1];
      calc {
        Ties(key, leq, k, SortBy(key, leq, s));
        Ties(key, leq, k, Insert(key, leq, last, SortBy(key, leq, init)));
        { SortBySorted(key, leq, init);
          InsertTies(key, leq, k, last, SortBy(key, leq, init)); }
        Ties(key, leq, k, SortBy(key, leq, init)) + Ties(key, leq, k, [last]);
        { SortByStable(key, leq, k, init); }
        Ties(key, leq, k, init) + Ties(key, leq, k, [last]);
        { TiesConcat(key, leq, k, init, [last]);
          assert s == init + [last]; }
        Ties(key, leq, k, s);
      }
    }
  }

  lemma {:induction false} InsertAfterAll<T, K>(key: T -> K, leq: (K, K) -> bool, x: T, s: seq<T>)
    requires forall i | 0 <= i < |s| :: leq(key(s[i]), key(x))
    ensures Insert(key, leq, x, s) == s + [x]
  {
    if s != [] {
      InsertAfterAll(key, leq, x, s[1..]);
    }
  }

  /** Sorting a list that is already in order leaves it as it is. */
  lemma {:induction false} SortBySortedUnchanged<T, K>(key: T -> K, leq: (K, K) -> bool, s: seq<T>)
    requires SortedBy(key, leq, s)
    ensures SortBy(key, leq, s) == s
  {
    if s != [] {
      var init := s[..|s| - 1];
      SortBySortedUnchanged(key, leq, init);
      InsertAfterAll(key, leq, s[|s| - 1], init);
    }
  }
}
