/**
 * LSM.mergeSpecialCategories, as values: each Swiss championship category
 * ("...*") is copied into the standard category of the same race marker,
 * which is created when missing; more than one candidate is an error.
 * The entries are visited in the unspecified order of a HashSet, so the
 * fold takes the order as a parameter and the properties below hold for
 * every order.
 */
module LsmMerge {

  import opened Wrappers
  import CategoryKeys
  import CategoryResults
  import Sorting

  type Key = CategoryKeys.EventCategoryKey
  type Record = CategoryResults.Record
  type Results = map<Key, seq<Record>>

  /** The key the merge sorts a destination list by: the event rank. */
  function RankOf(r: Record): Option<int>
  {
    r.eventRank
  }

  /** The keys that can receive the results of k: its standard category, same race marker. */
  function Destinations(m: Results, k: Key): set<Key>
  {
    set d | d in m && d.category == CategoryKeys.ToStandardCategory(k) && d.event.emoji == k.event.emoji
  }

  /** Destinations depend on k only through its standard category and marker. */
  lemma DestinationsSame(m: Results, k1: Key, k2: Key)
    requires CategoryKeys.ToStandardCategory(k1) == CategoryKeys.ToStandardCategory(k2)
    requires k1.event.emoji == k2.event.emoji
    ensures Destinations(m, k1) == Destinations(m, k2)
  {
  }

  /** The key that receives the results of k: the only candidate, or a new key. */
  ghost function Destination(m: Results, k: Key): (d: Key)
    requires |Destinations(m, k)| <= 1
    ensures d.category == CategoryKeys.ToStandardCategory(k) && d.event.emoji == k.event.emoji
    ensures !CategoryKeys.IsSwissChampionshipCategory(d)
    ensures d in m <==> Destinations(m, k) != {}
    ensures d in m ==> Destinations(m, k) == {d}
    ensures d !in m ==> d == CategoryKeys.WithCategory(k, CategoryKeys.ToStandardCategory(k))
  {
    var ds := Destinations(m, k);
    if ds == {} then
      var n := CategoryKeys.WithCategory(k, CategoryKeys.ToStandardCategory(k));
      assert n in m ==> n in ds;
      n
    else
      var d :| d in ds;
      SingletonOnly(ds, d);
      d
  }

  lemma SingletonOnly<T>(s: set<T>, x: T)
    requires |s| <= 1 && x in s
    ensures s == {x}
  {
    if y :| y in s && y != x {
      assert {x, y} <= s;
      assert |{x, y}| == 2;
      SubsetCard({x, y}, s);
    }
  }

  lemma SubsetCard<T>(a: set<T>, b: set<T>)
    requires a <= b
    ensures |a| <= |b|
  {
    assert b == a + (b - a);
  }

  /** What the destination held before the merge of k: its list, or nothing for a new key. */
  ghost function Prior(m: Results, k: Key): seq<Record>
    requires |Destinations(m, k)| <= 1
  {
    var d := Destination(m, k);
    if d in m then m[d] else []
  }

  /**
   * One iteration of the merge loop for the entry of key k. A standard
   * category is left alone; a championship category with more than one
   * destination throws; otherwise its results are appended to the
   * destination, which is then sorted by event rank (stable, missing ranks last).
   */
  ghost function MergeStep(m: Results, k: Key): (r: Result<Results, Error>)
    requires k in m
    ensures r.Failure? <==> CategoryKeys.IsSwissChampionshipCategory(k) && |Destinations(m, k)| > 1
    ensures !CategoryKeys.IsSwissChampionshipCategory(k) ==> r == Success(m)
    ensures r.Success? && CategoryKeys.IsSwissChampionshipCategory(k) ==>
              var d := Destination(m, k);
              && r.value.Keys == m.Keys + {d}
              && (forall o | o in m && o != d :: r.value[o] == m[o])
              && multiset(r.value[d]) == multiset(Prior(m, k)) + multiset(m[k])
  {
    if !CategoryKeys.IsSwissChampionshipCategory(k) then Success(m)
    else if |Destinations(m, k)| > 1 then Failure(Runtime("merge"))
    else
      var d := Destination(m, k);
      Success(m[d := Sorting.SortBy(RankOf, CategoryResults.RankLeq, Prior(m, k) + m[k])])
  }

  /** The destination list is in event-rank order, missing ranks last. */
  lemma MergeStepSorted(m: Results, k: Key)
    requires k in m && MergeStep(m, k).Success? && CategoryKeys.IsSwissChampionshipCategory(k)
    ensures Sorting.SortedBy(RankOf, CategoryResults.RankLeq, MergeStep(m, k).value[Destination(m, k)])
  {
    CategoryResults.RankLeqTotalPreorder();
    Sorting.SortBySorted(RankOf, CategoryResults.RankLeq, Prior(m, k) + m[k]);
  }

  /**
   * Results with the same event rank keep their order: those already in
   * the destination first, then the copies in their order.
   */
  lemma MergeStepStable(m: Results, k: Key, rank: Option<int>)
    requires k in m && MergeStep(m, k).Success? && CategoryKeys.IsSwissChampionshipCategory(k)
    ensures Sorting.Ties(RankOf, CategoryResults.RankLeq, rank, MergeStep(m, k).value[Destination(m, k)])
         == Sorting.Ties(RankOf, CategoryResults.RankLeq, rank, Prior(m, k))
            + Sorting.Ties(RankOf, CategoryResults.RankLeq, rank, m[k])
  {
    CategoryResults.RankLeqTotalPreorder();
    Sorting.SortByStable(RankOf, CategoryResults.RankLeq, rank, Prior(m, k) + m[k]);
    Sorting.TiesConcat(RankOf, CategoryResults.RankLeq, rank, Prior(m, k), m[k]);
  }

  /**
   * The loop over the entries, in the given order; the first exception
   * ends it.
   */
  ghost function MergeAll(m: Results, order: seq<Key>): (r: Result<Results, Error>)
    requires forall i | 0 <= i < |order| :: order[i] in m
    ensures r.Failure? ==> r.error == Runtime("merge")
    ensures r.Success? ==> m.Keys <= r.value.Keys
    ensures r.Success? ==> forall d | d in r.value && d !in m :: !CategoryKeys.IsSwissChampionshipCategory(d)
    ensures r.Success? ==> forall d | d in m && CategoryKeys.IsSwissChampionshipCategory(d) :: r.value[d] == m[d]
  {
    if order == [] then Success(m)
    else
      match MergeAll(m, order[..|order| - 1])
      case Failure(e) => Failure(e)
      case Success(mid) => MergeStep(mid, order[|order| - 1])
  }

  /** One more visited key: the step for it on the merge so far. */
  lemma MergeAllSnoc(m: Results, order: seq<Key>, k: Key, mid: Results)
    requires forall i | 0 <= i < |order| :: order[i] in m
    requires k in m && MergeAll(m, order) == Success(mid)
    ensures k in mid && MergeAll(m, order + [k]) == MergeStep(mid, k)
  {
    assert (order + [k])[..|order|] == order;
  }

  /** Without championship categories the merge changes nothing. */
  lemma {:induction false} MergeAllNoChampionship(m: Results, order: seq<Key>)
    requires forall i | 0 <= i < |order| :: order[i] in m
    requires forall k | k in m :: !CategoryKeys.IsSwissChampionshipCategory(k)
    ensures MergeAll(m, order) == Success(m)
  {
    if order != [] {
      MergeAllNoChampionship(m, order[..|order| - 1]);
    }
  }

  /**
   * A list that no visited championship key can target (a different
   * standard category or race marker) comes out of the merge unchanged.
   */
  lemma {:induction false} MergeAllUntargeted(m: Results, order: seq<Key>, o: Key)
    requires forall i | 0 <= i < |order| :: order[i] in m
    requires o in m
    requires forall i | 0 <= i < |order| && CategoryKeys.IsSwissChampionshipCategory(order[i]) ::
               o.category != CategoryKeys.ToStandardCategory(order[i]) || o.event.emoji != order[i].event.emoji
    requires MergeAll(m, order).Success?
    ensures MergeAll(m, order).value[o] == m[o]
  {
    if order != [] {
      var init, last := order[..|order| - 1], order[|order| - 1];
      MergeAllUntargeted(m, init, o);
      var mid := MergeAll(m, init).value;
      if CategoryKeys.IsSwissChampionshipCategory(last) {
        assert o != Destination(mid, last);
      }
    }
  }

  /** Adding keys can only add destinations. */
  lemma DestinationsGrow(m: Results, m': Results, k: Key)
    requires m.Keys <= m'.Keys
    ensures Destinations(m, k) <= Destinations(m', k)
  {
  }

  /**
   * A championship category whose standard category is ambiguous from the
   * start makes the merge throw, whatever the order.
   */
  lemma {:induction false} MergeAllAmbiguous(m: Results, order: seq<Key>, k: Key)
    requires forall i | 0 <= i < |order| :: order[i] in m
    requires k in order && CategoryKeys.IsSwissChampionshipCategory(k)
    requires |Destinations(m, k)| > 1
    ensures MergeAll(m, order).Failure?
  {
    var init, last := order[..|order| - 1], order[|order| - 1];
    if k in init {
      MergeAllAmbiguous(m, init, k);
    } else if MergeAll(m, init).Success? {
      assert k == last;
      var mid := MergeAll(m, init).value;
      DestinationsGrow(m, mid, k);
      SubsetCard(Destinations(m, k), Destinations(mid, k));
    }
  }

  /** Once k has a single destination, a later successful step keeps it and only adds to it. */
  lemma StepKeepsDestination(m: Results, k2: Key, k: Key, d: Key)
    requires k2 in m && MergeStep(m, k2).Success?
    requires Destinations(m, k) == {d}
    ensures Destinations(MergeStep(m, k2).value, k) == {d}
    ensures multiset(m[d]) <= multiset(MergeStep(m, k2).value[d])
  {
    var r := MergeStep(m, k2).value;
    if CategoryKeys.IsSwissChampionshipCategory(k2) {
      var d2 := Destination(m, k2);
      if d2 !in m && d2 in Destinations(r, k) {
        DestinationsSame(m, k, k2);
      }
      assert Destinations(r, k) <= Destinations(m, k) + {d2};
    }
  }

  /** The step for k leaves k a single destination, holding all of k's results. */
  lemma StepOwnDestination(m: Results, k: Key)
    requires k in m && MergeStep(m, k).Success? && CategoryKeys.IsSwissChampionshipCategory(k)
    ensures Destinations(MergeStep(m, k).value, k) == {Destination(m, k)}
    ensures multiset(m[k]) <= multiset(MergeStep(m, k).value[Destination(m, k)])
  {
    var d := Destination(m, k);
    var r := MergeStep(m, k).value;
    assert Destinations(r, k) <= Destinations(m, k) + {d};
    assert d in Destinations(r, k);
  }

  /**
   * Every result of a championship category visited by a successful merge
   * ends up, copied, in the single standard category of its race marker.
   */
  lemma {:induction false} MergeAllCopies(m: Results, order: seq<Key>, k: Key)
    requires forall i | 0 <= i < |order| :: order[i] in m
    requires k in order && CategoryKeys.IsSwissChampionshipCategory(k)
    requires MergeAll(m, order).Success?
    ensures |Destinations(MergeAll(m, order).value, k)| == 1
    ensures forall d | d in Destinations(MergeAll(m, order).value, k) ::
              multiset(m[k]) <= multiset(MergeAll(m, order).value[d])
  {
    var init, last := order[..|order| - 1], order[|order| - 1];
    var mid := MergeAll(m, init).value;
    if k in init {
      MergeAllCopies(m, init, k);
      CopiesKept(mid, last, k, m[k]);
    } else {
      assert k == last && mid[k] == m[k];
      CopiesOwn(mid, k);
    }
  }

  /** A later successful step keeps the single destination of k and what it holds. */
  lemma CopiesKept(mid: Results, k2: Key, k: Key, s: seq<Record>)
    requires k2 in mid && MergeStep(mid, k2).Success?
    requires |Destinations(mid, k)| == 1 && forall d | d in Destinations(mid, k) :: multiset(s) <= multiset(mid[d])
    ensures |Destinations(MergeStep(mid, k2).value, k)| == 1
    ensures forall d | d in Destinations(MergeStep(mid, k2).value, k) ::
              multiset(s) <= multiset(MergeStep(mid, k2).value[d])
  {
    var d :| d in Destinations(mid, k);
    SingletonOnly(Destinations(mid, k), d);
    StepKeepsDestination(mid, k2, k, d);
  }

  /** The step for k gives k a single destination holding all of k's results. */
  lemma CopiesOwn(mid: Results, k: Key)
    requires k in mid && MergeStep(mid, k).Success? && CategoryKeys.IsSwissChampionshipCategory(k)
    ensures |Destinations(MergeStep(mid, k).value, k)| == 1
    ensures forall d | d in Destinations(MergeStep(mid, k).value, k) ::
              multiset(mid[k]) <= multiset(MergeStep(mid, k).value[d])
  {
    StepOwnDestination(mid, k);
  }
}
