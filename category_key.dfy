/**
 * The key of the result map: an event and a category code. Also the
 * championship predicates on category codes that LSM applies to keys.
 */
module CategoryKeys {

  import opened Wrappers
  import opened JavaText
  import EventIds

  datatype EventCategoryKey = EventCategoryKey(event: EventIds.EventId, category: string)

  /**
   * EventCategoryKey.compareTo, as a sign: the events under the event
   * comparator (which throws on an unknown marker), then the category codes
   * in String order.
   */
  function CompareTo(a: EventCategoryKey, b: EventCategoryKey): (r: Result<int, Error>)
    ensures r.Success? <==> EventIds.Known(a.event) && EventIds.Known(b.event)
    ensures r.Success? ==> -1 <= r.value <= 1
  {
    match EventIds.Compare(a.event, b.event)
    case Failure(e) => Failure(e)
    case Success(c) => if c != 0 then Success(c) else Success(CompareStrings(a.category, b.category))
  }

  /** The same order on any keys, unknown markers after all races. */
  function CompareTotal(a: EventCategoryKey, b: EventCategoryKey): (r: int)
    ensures -1 <= r <= 1
  {
    var c := EventIds.CompareTotal(a.event, b.event);
    if c != 0 then c else CompareStrings(a.category, b.category)
  }

  lemma CompareToIsTotal(a: EventCategoryKey, b: EventCategoryKey)
    requires EventIds.Known(a.event) && EventIds.Known(b.event)
    ensures CompareTo(a, b) == Success(CompareTotal(a, b))
  {
    EventIds.CompareIsTotal(a.event, b.event);
  }

  /** Different events decide by the event comparator alone. */
  lemma CompareToByEvent(a: EventCategoryKey, b: EventCategoryKey)
    requires EventIds.Known(a.event) && EventIds.Known(b.event) && a.event != b.event
    ensures CompareTo(a, b) == EventIds.Compare(a.event, b.event)
  {
    EventIds.CompareZero(a.event, b.event);
  }

  /** Keys of one event are ordered by their category codes. */
  lemma CompareToSameEvent(k: EventCategoryKey, c1: string, c2: string)
    requires EventIds.Known(k.event)
    ensures CompareTo(WithCategory(k, c1), WithCategory(k, c2)) == Success(CompareStrings(c1, c2))
  {
    EventIds.CompareZero(k.event, k.event);
  }

  /** Two keys with known markers compare equal exactly when they are equal. */
  lemma CompareToZero(a: EventCategoryKey, b: EventCategoryKey)
    requires EventIds.Known(a.event) && EventIds.Known(b.event)
    ensures CompareTo(a, b) == Success(0) <==> a == b
  {
    EventIds.CompareZero(a.event, b.event);
    CompareStringsZero(a.category, b.category);
  }

  lemma CompareTotalAntisymmetric(a: EventCategoryKey, b: EventCategoryKey)
    ensures CompareTotal(a, b) == -CompareTotal(b, a)
  {
    EventIds.CompareTotalAntisymmetric(a.event, b.event);
    CompareStringsAntisymmetric(a.category, b.category);
  }

  lemma CompareTotalTransitive(a: EventCategoryKey, b: EventCategoryKey, c: EventCategoryKey)
    requires CompareTotal(a, b) <= 0 && CompareTotal(b, c) <= 0
    ensures CompareTotal(a, c) <= 0
  {
    var x, y, z := a.event, b.event, c.event;
    EventIds.CompareTotalAntisymmetric(x, y);
    EventIds.CompareTotalAntisymmetric(y, z);
    EventIds.CompareTotalAntisymmetric(x, z);
    EventIds.CompareTotalTransitive(x, y, z);
    if EventIds.CompareTotal(x, y) == 0 && EventIds.CompareTotal(y, z) == 0 {
      CompareStringsTransitive(a.category, b.category, c.category);
    } else if EventIds.CompareTotal(x, z) == 0 {
      EventIds.CompareTotalTransitive(z, x, y);
      EventIds.CompareTotalTransitive(y, z, x);
    }
  }

  /** The key comparator is antisymmetric on keys with known markers. */
  lemma CompareToAntisymmetric(a: EventCategoryKey, b: EventCategoryKey)
    requires EventIds.Known(a.event) && EventIds.Known(b.event)
    ensures CompareTo(a, b).value == -CompareTo(b, a).value
  {
    CompareToIsTotal(a, b);
    CompareToIsTotal(b, a);
    CompareTotalAntisymmetric(a, b);
  }

  /** The key comparator is transitive on keys with known markers. */
  lemma CompareToTransitive(a: EventCategoryKey, b: EventCategoryKey, c: EventCategoryKey)
    requires EventIds.Known(a.event) && EventIds.Known(b.event) && EventIds.Known(c.event)
    requires CompareTo(a, b).value <= 0 && CompareTo(b, c).value <= 0
    ensures CompareTo(a, c).value <= 0
  {
    CompareToIsTotal(a, b);
    CompareToIsTotal(b, c);
    CompareToIsTotal(a, c);
    CompareTotalTransitive(a, b, c);
  }

  /** EventCategoryKey.withCategory: same event, the given category. */
  function WithCategory(k: EventCategoryKey, category: string): (r: EventCategoryKey)
    ensures r.event == k.event && r.category == category
  {
    EventCategoryKey(k.event, category)
  }

  /** Replacing the category by its own value gives the key back. */
  lemma WithOwnCategory(k: EventCategoryKey)
    ensures WithCategory(k, k.category) == k
  {
  }

  /** LSM.isSwissChampionship: a category code ending with "*". */
  predicate IsSwissChampionship(category: string)
    ensures IsSwissChampionship(category) <==> |category| >= 1 && category[|category| - 1] == '*'
  {
    EndsWith(category, "*")
  }

  /** The key of a championship category. */
  predicate IsSwissChampionshipCategory(k: EventCategoryKey)
  {
    IsSwissChampionship(k.category)
  }

  /** The standard category code: the code with every "*" removed. */
  function ToStandardCategory(k: EventCategoryKey): (r: string)
    ensures !IsSwissChampionship(r)
    ensures |r| <= |k.category|
  {
    var r := RemoveChar(k.category, '*');
    assert |r| >= 1 ==> r[|r| - 1..][0] == r[|r| - 1];
    r
  }

  /** A standard category is its own standard category. */
  lemma StandardCategoryIdempotent(k: EventCategoryKey)
    ensures ToStandardCategory(WithCategory(k, ToStandardCategory(k))) == ToStandardCategory(k)
  {
    RemoveAbsentChar(ToStandardCategory(k), '*');
  }

  /** A championship code loses at least its final star. */
  lemma StandardCategoryShorter(k: EventCategoryKey)
    requires IsSwissChampionshipCategory(k)
    ensures |ToStandardCategory(k)| < |k.category|
  {
    var s := k.category;
    assert s[|s| - 1] == '*';
  }
}
