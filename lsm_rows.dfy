/**
 * From CrewTimer rows to the result map, as values: what each row becomes
 * (a CategoryResult, with the start time carried forward over rows that
 * lack one) and how the results are grouped by (event, category) and
 * sorted in their natural order.
 */
module LsmRows {

  import opened Wrappers
  import opened JavaText
  import EventIds
  import CategoryKeys
  import CategoryResults
  import Sorting

  type Key = CategoryKeys.EventCategoryKey
  type Record = CategoryResults.Record

  /**
   * One row of the CrewTimer export, already read: every column the
   * results use, empty cells being absent. The event number and the
   * category (the "Stroke" column) are taken as present.
   */
  datatype CsvRow = CsvRow(
    eventNum: string,
    event: Option<string>,
    place: Option<string>,
    crew: Option<string>,
    crewAbbrev: Option<string>,
    stroke: string,
    start: Option<string>,
    finish: Option<string>,
    delta: Option<string>,
    adjTime: Option<string>)

  /** The index of the last row having a start time. */
  function LastStartIndex(rows: seq<CsvRow>): (r: Option<nat>)
    ensures r.Some? ==> r.value < |rows| && rows[r.value].start.Some?
    ensures r.Some? ==> forall j | r.value < j < |rows| :: rows[j].start.None?
    ensures r.None? ==> forall j | 0 <= j < |rows| :: rows[j].start.None?
  {
    if rows == [] then None
    else if rows[|rows| - 1].start.Some? then Some(|rows| - 1)
    else LastStartIndex(rows[..|rows| - 1])
  }

  /**
   * The start time given to row i: its own, or else the one carried from
   * the rows before it (the lastStart workaround for disqualified crews).
   */
  function StartOf(rows: seq<CsvRow>, i: nat): Option<string>
    requires i < |rows|
  {
    if rows[i].start.Some? then rows[i].start
    else if i == 0 then None
    else StartOf(rows, i - 1)
  }

  /** The start carried into row i from the rows before it: none before the first row. */
  function CarriedStart(rows: seq<CsvRow>, i: nat): Option<string>
    requires i <= |rows|
  {
    if i == 0 then None else StartOf(rows, i - 1)
  }

  /** The carried start is the one of the last row up to i that has one, if any. */
  lemma {:induction false} StartOfLastStart(rows: seq<CsvRow>, i: nat)
    requires i < |rows|
    ensures StartOf(rows, i) == match LastStartIndex(rows[..i + 1])
                                case None => None
                                case Some(j) => rows[j].start
  {
    if rows[i].start.None? && i > 0 {
      StartOfLastStart(rows, i - 1);
      assert rows[..i + 1][..i] == rows[..i];
    }
  }

  /** Optional.ofNullable(place).map(Integer::parseInt). */
  function ParsePlace(place: Option<string>): (r: Result<Option<int>, Error>)
    ensures place.None? ==> r == Success(None)
    ensures place.Some? && r.Success? ==> r.value.Some? && Success(r.value.value) == ParseInt(place.value)
    ensures r.Failure? ==> r.error == NumberFormat
  {
    match place
    case None => Success(None)
    case Some(p) =>
      match ParseInt(p)
      case Failure(e) => Failure(e)
      case Success(n) => Success(Some(n))
  }

  /**
   * The CategoryResult row i becomes, or the exception it raises: the event
   * number is parsed first, then the place; the new key is then compared in
   * the TreeMap, which throws for an unknown race marker.
   */
  function RowRecord(rows: seq<CsvRow>, i: nat): (r: Result<Record, Error>)
    requires i < |rows|
    ensures r.Success? ==> EventIds.Known(r.value.event) && r.value.categoryRank.None?
    ensures r.Success? ==> Success(r.value.event) == EventIds.From(rows[i].eventNum)
    ensures r.Success? ==> r.value.category == rows[i].stroke && r.value.start == StartOf(rows, i)
  {
    var row := rows[i];
    match EventIds.From(row.eventNum)
    case Failure(e) => Failure(e)
    case Success(event) =>
      match ParsePlace(row.place)
      case Failure(e) => Failure(e)
      case Success(rank) =>
        if !EventIds.Known(event) then Failure(IllegalArgument("emoji"))
        else Success(CategoryResults.Record(event, row.event, rank, row.crew, row.crewAbbrev,
                                            row.stroke, StartOf(rows, i), row.finish, row.delta,
                                            None, row.adjTime))
  }

  /**
   * A loop over outcomes that stops at the first exception: the values of
   * all of them, or the error of the first failure.
   */
  function Collect<T>(rs: seq<Result<T, Error>>): (r: Result<seq<T>, Error>)
    ensures r.Success? ==> |r.value| == |rs|
  {
    if rs == [] then Success([])
    else
      match Collect(rs[..|rs| - 1])
      case Failure(e) => Failure(e)
      case Success(vs) =>
        match rs[|rs| - 1]
        case Failure(e) => Failure(e)
        case Success(v) => Success(vs + [v])
  }

  /** Collecting succeeds exactly when every outcome is a success. */
  lemma {:induction false} CollectAll<T>(rs: seq<Result<T, Error>>)
    ensures Collect(rs).Success? <==> forall i | 0 <= i < |rs| :: rs[i].Success?
  {
    if rs != [] {
      var init := rs[..|rs| - 1];
      CollectAll(init);
      assert forall i | 0 <= i < |init| :: init[i] == rs[i];
    }
  }

  /** A successful collection holds each value at its own place. */
  lemma {:induction false} CollectEach<T>(rs: seq<Result<T, Error>>)
    requires Collect(rs).Success?
    ensures forall i | 0 <= i < |rs| :: rs[i] == Success(Collect(rs).value[i])
  {
    if rs != [] {
      var init := rs[..|rs| - 1];
      CollectEach(init);
      assert forall i | 0 <= i < |init| :: init[i] == rs[i];
    }
  }

  /** The first failure decides the error, whatever follows it. */
  lemma {:induction false} CollectFirstFailure<T>(rs: seq<Result<T, Error>>, i: nat, e: Error)
    requires i < |rs| && Collect(rs[..i]).Success? && rs[i] == Failure(e)
    ensures Collect(rs) == Failure(e)
  {
    if |rs| == i + 1 {
      assert rs[..|rs| - 1] == rs[..i];
    } else {
      var init := rs[..|rs| - 1];
      assert init[..i] == rs[..i];
      CollectFirstFailure(init, i, e);
    }
  }

  /** What each row becomes, in row order. */
  function RowResults(rows: seq<CsvRow>): (rs: seq<Result<Record, Error>>)
    ensures |rs| == |rows|
  {
    seq(|rows|, i requires 0 <= i < |rows| => RowRecord(rows, i))
  }

  /** The results of the first n rows, or the exception of the first failing row. */
  function RecordsOf(rows: seq<CsvRow>, n: nat): (r: Result<seq<Record>, Error>)
    requires n <= |rows|
    ensures r.Success? ==> |r.value| == n
  {
    Collect(RowResults(rows)[..n])
  }

  /** The reading succeeds exactly when every row does, and then gives each row's own result. */
  lemma RecordsOfRows(rows: seq<CsvRow>, n: nat)
    requires n <= |rows|
    ensures RecordsOf(rows, n).Success? <==> forall i | 0 <= i < n :: RowRecord(rows, i).Success?
    ensures RecordsOf(rows, n).Success? ==>
              forall i | 0 <= i < n :: RowRecord(rows, i) == Success(RecordsOf(rows, n).value[i])
  {
    var rs := RowResults(rows)[..n];
    CollectAll(rs);
    if Collect(rs).Success? {
      CollectEach(rs);
    }
    assert forall i | 0 <= i < n :: rs[i] == RowRecord(rows, i);
  }

  /** One more successful row extends the results by its own. */
  lemma RecordsOfStep(rows: seq<CsvRow>, i: nat, recs: seq<Record>, rec: Record)
    requires i < |rows| && RecordsOf(rows, i) == Success(recs) && RowRecord(rows, i) == Success(rec)
    ensures RecordsOf(rows, i + 1) == Success(recs + [rec])
  {
    assert RowResults(rows)[..i + 1][..i] == RowResults(rows)[..i];
  }

  /** The first failing row decides the exception of the whole reading. */
  lemma RecordsOfFails(rows: seq<CsvRow>, i: nat, e: Error)
    requires i < |rows| && RecordsOf(rows, i).Success? && RowRecord(rows, i) == Failure(e)
    ensures RecordsOf(rows, |rows|) == Failure(e)
  {
    var rs := RowResults(rows);
    assert rs[..|rows|] == rs;
    CollectFirstFailure(rs, i, e);
  }

  /** The results with key k, in their order in recs. */
  function Select(recs: seq<Record>, k: Key): (r: seq<Record>)
    ensures forall i | 0 <= i < |r| :: CategoryResults.RecordKey(r[i]) == k
  {
    if recs == [] then []
    else Select(recs[..|recs| - 1], k) + (if CategoryResults.RecordKey(recs[|recs| - 1]) == k then [recs[|recs| - 1]] else [])
  }

  /** The selection holds every result with key k, as many times as recs does, and nothing else. */
  lemma {:induction false} SelectCount(recs: seq<Record>, k: Key, x: Record)
    ensures multiset(Select(recs, k))[x] == if CategoryResults.RecordKey(x) == k then multiset(recs)[x] else 0
  {
    if recs != [] {
      var init, last := recs[..|recs| - 1], recs[|recs| - 1];
      assert recs == init + [last];
      SelectCount(init, k, x);
    }
  }

  /** The keys of some results. */
  function KeysOf(recs: seq<Record>): set<Key>
  {
    set i | 0 <= i < |recs| :: CategoryResults.RecordKey(recs[i])
  }

  /** The lists as grouped, before sorting: each key's results in row order. */
  function Unsorted(recs: seq<Record>): map<Key, seq<Record>>
  {
    map k | k in KeysOf(recs) :: Select(recs, k)
  }

  /** The natural-order sort of one list (List.sort(null)). */
  function SortNatural(s: seq<Record>): seq<Record>
  {
    Sorting.SortBy(CategoryResults.KeyOf, CategoryResults.NaturalLeq, s)
  }

  /** The result map after grouping and sorting: one sorted list per key. */
  function Grouped(recs: seq<Record>): map<Key, seq<Record>>
  {
    var u := Unsorted(recs);
    map k | k in u :: SortNatural(u[k])
  }

  /** Sorting every list of the grouping gives the result map. */
  lemma GroupedOfUnsorted(recs: seq<Record>, m: map<Key, seq<Record>>)
    requires m.Keys == Unsorted(recs).Keys
    requires forall k | k in m :: m[k] == SortNatural(Unsorted(recs)[k])
    ensures m == Grouped(recs)
  {
    assert m.Keys == Grouped(recs).Keys;
    forall k | k in m ensures m[k] == Grouped(recs)[k] {
    }
  }

  /** Appending a result adds its key. */
  lemma KeysOfAppend(recs: seq<Record>, rec: Record)
    ensures KeysOf(recs + [rec]) == KeysOf(recs) + {CategoryResults.RecordKey(rec)}
  {
    var all := recs + [rec];
    forall x | x in KeysOf(all) ensures x in KeysOf(recs) + {CategoryResults.RecordKey(rec)} {
      var i :| 0 <= i < |all| && CategoryResults.RecordKey(all[i]) == x;
      if i < |recs| {
        assert all[i] == recs[i];
      }
    }
    forall x | x in KeysOf(recs) ensures x in KeysOf(all) {
      var i :| 0 <= i < |recs| && CategoryResults.RecordKey(recs[i]) == x;
      assert all[i] == recs[i];
    }
    assert all[|recs|] == rec;
  }

  /** Appending a result extends the selection of its own key only. */
  lemma SelectAppend(recs: seq<Record>, rec: Record, k: Key)
    ensures Select(recs + [rec], k)
         == Select(recs, k) + (if CategoryResults.RecordKey(rec) == k then [rec] else [])
  {
    assert (recs + [rec])[..|recs|] == recs;
  }

  /** A key none of the results has selects nothing. */
  lemma {:induction false} SelectAbsent(recs: seq<Record>, k: Key)
    requires k !in KeysOf(recs)
    ensures Select(recs, k) == []
  {
    if recs != [] {
      var init := recs[..|recs| - 1];
      assert CategoryResults.RecordKey(recs[|recs| - 1]) in KeysOf(recs);
      assert KeysOf(init) <= KeysOf(recs) by {
        forall x | x in KeysOf(init) ensures x in KeysOf(recs) {
          var i :| 0 <= i < |init| && CategoryResults.RecordKey(init[i]) == x;
          assert recs[i] == init[i];
        }
      }
      SelectAbsent(init, k);
    }
  }

  /** Appending a result to the rows extends its own key's list and no other. */
  lemma UnsortedAppend(recs: seq<Record>, rec: Record)
    ensures Unsorted(recs + [rec])
         == Unsorted(recs)[CategoryResults.RecordKey(rec) :=
              (if CategoryResults.RecordKey(rec) in Unsorted(recs)
               then Unsorted(recs)[CategoryResults.RecordKey(rec)] else []) + [rec]]
  {
    var k := CategoryResults.RecordKey(rec);
    var before, after := Unsorted(recs), Unsorted(recs + [rec]);
    var expected := before[k := (if k in before then before[k] else []) + [rec]];
    KeysOfAppend(recs, rec);
    assert after.Keys == expected.Keys;
    forall k' | k' in after ensures after[k'] == expected[k'] {
      SelectAppend(recs, rec, k');
      if k' == k && k !in KeysOf(recs) {
        SelectAbsent(recs, k);
      }
    }
  }

  /** Every result of the rows is in the list of its own key. */
  lemma GroupedHoldsEveryRecord(recs: seq<Record>, i: nat)
    requires i < |recs|
    ensures CategoryResults.RecordKey(recs[i]) in Grouped(recs)
    ensures recs[i] in Grouped(recs)[CategoryResults.RecordKey(recs[i])]
  {
    var k := CategoryResults.RecordKey(recs[i]);
    assert recs[i] in multiset(recs);
    SelectCount(recs, k, recs[i]);
    assert recs[i] in multiset(Select(recs, k));
    assert recs[i] in multiset(SortNatural(Select(recs, k)));
  }

  /**
   * Each list holds exactly the results with its key, as many times as
   * they occur in the rows.
   */
  lemma GroupedCounts(recs: seq<Record>, k: Key, x: Record)
    requires k in Grouped(recs)
    ensures multiset(Grouped(recs)[k])[x]
         == if CategoryResults.RecordKey(x) == k then multiset(recs)[x] else 0
  {
    SelectCount(recs, k, x);
  }

  /** Each list is in the natural order of CategoryResult. */
  lemma GroupedSorted(recs: seq<Record>, k: Key)
    requires k in Grouped(recs)
    ensures Sorting.SortedBy(CategoryResults.KeyOf, CategoryResults.NaturalLeq, Grouped(recs)[k])
  {
    CategoryResults.NaturalLeqTotalPreorder();
    Sorting.SortBySorted(CategoryResults.KeyOf, CategoryResults.NaturalLeq, Select(recs, k));
  }

  /** Results that tie in the natural order keep their row order (List.sort is stable). */
  lemma GroupedStable(recs: seq<Record>, k: Key, t: CategoryResults.OrderKey)
    requires k in Grouped(recs)
    ensures Sorting.Ties(CategoryResults.KeyOf, CategoryResults.NaturalLeq, t, Grouped(recs)[k])
         == Sorting.Ties(CategoryResults.KeyOf, CategoryResults.NaturalLeq, t, Select(recs, k))
  {
    CategoryResults.NaturalLeqTotalPreorder();
    Sorting.SortByStable(CategoryResults.KeyOf, CategoryResults.NaturalLeq, t, Select(recs, k));
  }
}
