/**
 * One crew's result in one category: a CategoryResult object whose fields
 * are final except the delta to the leader and the rank in the category,
 * which the ranking pass writes. Also the natural order of results and the
 * order by event rank used when merging.
 */
module CategoryResults {

  import opened Wrappers
  import opened JavaText
  import EventIds
  import CategoryKeys
  import Sorting

  /** The value of every field of a CategoryResult at one moment. */
  datatype Record = Record(
    event: EventIds.EventId,
    eventName: Option<string>,
    eventRank: Option<int>,
    crew: Option<string>,
    crewAbbrev: Option<string>,
    category: string,
    start: Option<string>,
    finish: Option<string>,
    delta: Option<string>,
    categoryRank: Option<int>,
    adjTime: Option<string>)

  /** The fields the natural order reads, in the order it reads them. */
  datatype OrderKey = OrderKey(
    event: EventIds.EventId, category: string, eventRank: Option<int>, finish: Option<string>)

  function KeyOf(r: Record): OrderKey
  {
    OrderKey(r.event, r.category, r.eventRank, r.finish)
  }

  /** Comparator.nullsLast(naturalOrder()) on Integer, as a sign. */
  function CompareNullsLastInt(a: Option<int>, b: Option<int>): (r: int)
    ensures -1 <= r <= 1
    ensures a.None? && b.Some? ==> r == 1
    ensures a.Some? && b.None? ==> r == -1
    ensures r == 0 <==> a == b
  {
    match (a, b)
    case (None, None) => 0
    case (None, Some(_)) => 1
    case (Some(_), None) => -1
    case (Some(x), Some(y)) => Sign(x - y)
  }

  /** Comparator.nullsLast(naturalOrder()) on String, as a sign. */
  function CompareNullsLastString(a: Option<string>, b: Option<string>): (r: int)
    ensures -1 <= r <= 1
    ensures a.None? && b.Some? ==> r == 1
    ensures a.Some? && b.None? ==> r == -1
  {
    match (a, b)
    case (None, None) => 0
    case (None, Some(_)) => 1
    case (Some(_), None) => -1
    case (Some(x), Some(y)) => CompareStrings(x, y)
  }

  lemma CompareNullsLastStringZero(a: Option<string>, b: Option<string>)
    ensures CompareNullsLastString(a, b) == 0 <==> a == b
  {
    if a.Some? && b.Some? {
      CompareStringsZero(a.value, b.value);
    }
  }

  lemma CompareNullsLastStringAntisymmetric(a: Option<string>, b: Option<string>)
    ensures CompareNullsLastString(a, b) == -CompareNullsLastString(b, a)
  {
    if a.Some? && b.Some? {
      CompareStringsAntisymmetric(a.value, b.value);
    }
  }

  lemma CompareNullsLastStringTransitive(a: Option<string>, b: Option<string>, c: Option<string>)
    requires CompareNullsLastString(a, b) <= 0 && CompareNullsLastString(b, c) <= 0
    ensures CompareNullsLastString(a, c) <= 0
  {
    if a.Some? && b.Some? && c.Some? {
      CompareStringsTransitive(a.value, b.value, c.value);
    }
  }

  /** The order after the event: category, then event rank, then finish. */
  function CompareRest(a: OrderKey, b: OrderKey): (r: int)
    ensures -1 <= r <= 1
  {
    var byCategory := CompareStrings(a.category, b.category);
    if byCategory != 0 then byCategory
    else
      var byRank := CompareNullsLastInt(a.eventRank, b.eventRank);
      if byRank != 0 then byRank else CompareNullsLastString(a.finish, b.finish)
  }

  /**
   * CategoryResult.compareTo, as a sign: the event under the event
   * comparator (throwing on an unknown marker), the category code, the
   * event rank with missing ranks last, the finish text with missing
   * finishes last.
   */
  function CompareKeys(a: OrderKey, b: OrderKey): (r: Result<int, Error>)
    ensures r.Success? <==> EventIds.Known(a.event) && EventIds.Known(b.event)
    ensures r.Success? ==> -1 <= r.value <= 1
  {
    match EventIds.Compare(a.event, b.event)
    case Failure(e) => Failure(e)
    case Success(c) => if c != 0 then Success(c) else Success(CompareRest(a, b))
  }

  /** The same order on any keys, unknown markers after all races. */
  function CompareKeysTotal(a: OrderKey, b: OrderKey): (r: int)
    ensures -1 <= r <= 1
  {
    var c := EventIds.CompareTotal(a.event, b.event);
    if c != 0 then c else CompareRest(a, b)
  }

  lemma CompareKeysIsTotal(a: OrderKey, b: OrderKey)
    requires EventIds.Known(a.event) && EventIds.Known(b.event)
    ensures CompareKeys(a, b) == Success(CompareKeysTotal(a, b))
  {
    EventIds.CompareIsTotal(a.event, b.event);
  }

  /** Results of known events compare equal exactly when all four ordered fields are equal. */
  lemma CompareKeysZero(a: OrderKey, b: OrderKey)
    requires EventIds.Known(a.event) && EventIds.Known(b.event)
    ensures CompareKeys(a, b) == Success(0) <==> a == b
  {
    EventIds.CompareZero(a.event, b.event);
    CompareStringsZero(a.category, b.category);
    CompareNullsLastStringZero(a.finish, b.finish);
  }

  /** Of two results with equal event, category and event rank, a missing finish comes last. */
  lemma CompareKeysMissingFinishLast(a: OrderKey, b: OrderKey)
    requires EventIds.Known(a.event) && a.finish.Some?
    requires b == a.(finish := None)
    ensures CompareKeys(a, b) == Success(-1)
  {
    EventIds.CompareZero(a.event, b.event);
    CompareStringsZero(a.category, b.category);
  }

  lemma CompareRestAntisymmetric(a: OrderKey, b: OrderKey)
    ensures CompareRest(a, b) == -CompareRest(b, a)
  {
    CompareStringsAntisymmetric(a.category, b.category);
    CompareNullsLastStringAntisymmetric(a.finish, b.finish);
  }

  lemma CompareRestTransitive(a: OrderKey, b: OrderKey, c: OrderKey)
    requires CompareRest(a, b) <= 0 && CompareRest(b, c) <= 0
    ensures CompareRest(a, c) <= 0
  {
    var x, y, z := a.category, b.category, c.category;
    CompareStringsAntisymmetric(x, y);
    CompareStringsAntisymmetric(y, z);
    CompareStringsAntisymmetric(x, z);
    CompareStringsTransitive(x, y, z);
    if CompareStrings(x, y) == 0 && CompareStrings(y, z) == 0 {
      CompareStringsZero(x, y);
      CompareStringsZero(y, z);
      if CompareNullsLastInt(a.eventRank, b.eventRank) == 0 && CompareNullsLastInt(b.eventRank, c.eventRank) == 0 {
        CompareNullsLastStringTransitive(a.finish, b.finish, c.finish);
      }
    } else if CompareStrings(x, z) == 0 {
      CompareStringsTransitive(z, x, y);
      CompareStringsTransitive(y, z, x);
    }
  }

  lemma CompareKeysTotalAntisymmetric(a: OrderKey, b: OrderKey)
    ensures CompareKeysTotal(a, b) == -CompareKeysTotal(b, a)
  {
    EventIds.CompareTotalAntisymmetric(a.event, b.event);
    CompareRestAntisymmetric(a, b);
  }

  lemma CompareKeysTotalTransitive(a: OrderKey, b: OrderKey, c: OrderKey)
    requires CompareKeysTotal(a, b) <= 0 && CompareKeysTotal(b, c) <= 0
    ensures CompareKeysTotal(a, c) <= 0
  {
    var x, y, z := a.event, b.event, c.event;
    EventIds.CompareTotalAntisymmetric(x, y);
    EventIds.CompareTotalAntisymmetric(y, z);
    EventIds.CompareTotalAntisymmetric(x, z);
    EventIds.CompareTotalTransitive(x, y, z);
    if EventIds.CompareTotal(x, y) == 0 && EventIds.CompareTotal(y, z) == 0 {
      CompareRestTransitive(a, b, c);
    } else if EventIds.CompareTotal(x, z) == 0 {
      EventIds.CompareTotalTransitive(z, x, y);
      EventIds.CompareTotalTransitive(y, z, x);
    }
  }

  /** The natural order as the relation List.sort(null) sorts by. */
  predicate NaturalLeq(a: OrderKey, b: OrderKey)
  {
    CompareKeysTotal(a, b) <= 0
  }

  /** The natural order is total and transitive, so sorting by it is defined. */
  lemma NaturalLeqTotalPreorder()
    ensures Sorting.TotalPreorder(NaturalLeq)
  {
    forall a, b ensures NaturalLeq(a, b) || NaturalLeq(b, a) {
      CompareKeysTotalAntisymmetric(a, b);
    }
    forall a, b, c | NaturalLeq(a, b) && NaturalLeq(b, c) ensures NaturalLeq(a, c) {
      CompareKeysTotalTransitive(a, b, c);
    }
  }

  /** The order the merge sorts a category by: event rank, missing ranks last. */
  predicate RankLeq(a: Option<int>, b: Option<int>)
  {
    CompareNullsLastInt(a, b) <= 0
  }

  lemma RankLeqTotalPreorder()
    ensures Sorting.TotalPreorder(RankLeq)
  {
  }

  class CategoryResult {
    const event: EventIds.EventId
    const eventName: Option<string>
    const eventRank: Option<int>
    const crew: Option<string>
    const crewAbbrev: Option<string>
    const category: string
    const start: Option<string>
    const finish: Option<string>
    var delta: Option<string>
    var categoryRank: Option<int>
    const adjTime: Option<string>

    /** A result read from one row; the rank in the category is not known yet. */
    constructor (event: EventIds.EventId, eventName: Option<string>, eventRank: Option<int>,
                 crew: Option<string>, crewAbbrev: Option<string>, category: string,
                 start: Option<string>, finish: Option<string>, delta: Option<string>,
                 adjTime: Option<string>)
      ensures Value() == Record(event, eventName, eventRank, crew, crewAbbrev, category,
                                start, finish, delta, None, adjTime)
    {
      this.event := event;
      this.eventName := eventName;
      this.eventRank := eventRank;
      this.crew := crew;
      this.crewAbbrev := crewAbbrev;
      this.category := category;
      this.start := start;
      this.finish := finish;
      this.delta := delta;
      this.categoryRank := None;
      this.adjTime := adjTime;
    }

    /** The copy constructor: a new object equal to base field by field, rank included. */
    constructor Copy(base: CategoryResult)
      ensures Value() == base.Value()
    {
      event := base.event;
      eventName := base.eventName;
      eventRank := base.eventRank;
      crew := base.crew;
      crewAbbrev := base.crewAbbrev;
      category := base.category;
      start := base.start;
      finish := base.finish;
      delta := base.delta;
      categoryRank := base.categoryRank;
      adjTime := base.adjTime;
    }

    /** The current value of every field. */
    function Value(): Record
      reads this
    {
      Record(event, eventName, eventRank, crew, crewAbbrev, category, start, finish,
             delta, categoryRank, adjTime)
    }

    /** The ordered fields; all are final, so this reads no mutable state. */
    function Key(): (k: OrderKey)
      ensures k.event == event && k.category == category
      ensures k.eventRank == eventRank && k.finish == finish
    {
      OrderKey(event, category, eventRank, finish)
    }

    /** CategoryResult.compareTo. */
    function CompareTo(o: CategoryResult): (r: Result<int, Error>)
      ensures r.Success? <==> EventIds.Known(event) && EventIds.Known(o.event)
      ensures r == Success(0) ==> o.Key() == Key()
    {
      if EventIds.Known(event) && EventIds.Known(o.event) then
        CompareKeysZero(Key(), o.Key());
        CompareKeys(Key(), o.Key())
      else CompareKeys(Key(), o.Key())
    }

    /** CategoryResult.isSwissChampionship: the category code ends with "*". */
    predicate IsSwissChampionship()
      ensures IsSwissChampionship() <==> |category| >= 1 && category[|category| - 1] == '*'
    {
      CategoryKeys.IsSwissChampionship(category)
    }

    /** CategoryResult.getEventCategory: the map key of this result. */
    function GetEventCategory(): (k: CategoryKeys.EventCategoryKey)
      ensures k.event == event && k.category == category
      ensures CategoryKeys.IsSwissChampionshipCategory(k) == IsSwissChampionship()
    {
      CategoryKeys.EventCategoryKey(event, category)
    }
  }

  /** The field values of a list of results, in list order. */
  ghost function Values(s: seq<CategoryResult>): (r: seq<Record>)
    reads set o | o in s
    ensures |r| == |s|
    ensures forall i | 0 <= i < |s| :: r[i] == s[i].Value()
  {
    if s == [] then [] else Values(s[..|s| - 1]) + [s[|s| - 1].Value()]
  }

  /** The map key of a record, the same as CategoryResult.getEventCategory. */
  function RecordKey(r: Record): CategoryKeys.EventCategoryKey
  {
    CategoryKeys.EventCategoryKey(r.event, r.category)
  }

  lemma ValuesCons(x: CategoryResult, s: seq<CategoryResult>)
    ensures Values([x] + s) == [x.Value()] + Values(s)
  {
    var l, r := Values([x] + s), [x.Value()] + Values(s);
    assert forall i | 0 <= i < |l| :: l[i] == r[i];
  }

  lemma ValuesTail(s: seq<CategoryResult>)
    requires s != []
    ensures Values(s[1..]) == Values(s)[1..]
  {
    var l, r := Values(s[1..]), Values(s)[1..];
    assert forall i | 0 <= i < |l| :: l[i] == r[i];
  }

  /**
   * Sorting objects by a key of their final fields and then taking their
   * values is sorting the values by the same key: insertion step.
   */
  lemma {:induction false} ValuesInsert<K>(objKey: CategoryResult -> K, recKey: Record -> K,
                                           leq: (K, K) -> bool, x: CategoryResult, s: seq<CategoryResult>)
    requires forall o: CategoryResult :: objKey(o) == recKey(o.Value())
    ensures Values(Sorting.Insert(objKey, leq, x, s)) == Sorting.Insert(recKey, leq, x.Value(), Values(s))
    decreases |s|
  {
    var vs := Values(s);
    if s == [] {
      ValuesCons(x, s);
    } else {
      assert objKey(s[0]) == recKey(s[0].Value()) && objKey(x) == recKey(x.Value());
      assert vs[0] == s[0].Value();
      if !leq(objKey(s[0]), objKey(x)) {
        ValuesCons(x, s);
      } else {
        ValuesInsert(objKey, recKey, leq, x, s[1..]);
        ValuesTail(s);
        ValuesCons(s[0], Sorting.Insert(objKey, leq, x, s[1..]));
      }
    }
  }

  /** Sorting objects by a key of their final fields commutes with taking their values. */
  lemma {:induction false} ValuesSortBy<K>(objKey: CategoryResult -> K, recKey: Record -> K,
                                           leq: (K, K) -> bool, s: seq<CategoryResult>)
    requires forall o: CategoryResult :: objKey(o) == recKey(o.Value())
    ensures Values(Sorting.SortBy(objKey, leq, s)) == Sorting.SortBy(recKey, leq, Values(s))
    decreases |s|
  {
    if s != [] {
      var init := s[..|s| - 1];
      ValuesSortBy(objKey, recKey, leq, init);
      ValuesInsert(objKey, recKey, leq, s[|s| - 1], Sorting.SortBy(objKey, leq, init));
      assert Values(s)[..|s| - 1] == Values(init);
    }
  }
}
