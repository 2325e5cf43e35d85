/**
 * LSM.processResults up to printing: the sorted map from (event, category)
 * to the mutable CategoryResult lists, read from the rows, merged and
 * fixed in place. Each method is proved against the value-level
 * definitions of LsmRows, LsmMerge and LsmRanking.
 */
module LsmPipeline {

  import opened Wrappers
  import opened JavaText
  import EventIds
  import CategoryKeys
  import CategoryResults
  import Sorting
  import LsmRows
  import LsmMerge
  import LsmRanking
  import TimeOfDay

  type Key = CategoryKeys.EventCategoryKey
  type Record = CategoryResults.Record
  type CategoryResult = CategoryResults.CategoryResult

  /** No object occurs twice in s. */
  ghost predicate Distinct<T>(s: seq<T>)
  {
    forall i, j | 0 <= i < j < |s| :: s[i] != s[j]
  }

  lemma {:induction false} DistinctCount<T>(s: seq<T>, x: T)
    requires Distinct(s)
    ensures multiset(s)[x] <= 1
  {
    if s != [] {
      var init := s[..|s| - 1];
      assert s == init + [s[|s| - 1]];
      DistinctCount(init, x);
      assert forall i | 0 <= i < |init| :: init[i] == s[i] && s[i] != s[|s| - 1];
      assert s[|s| - 1] !in init;
    }
  }

  /** A permutation of a list without repetitions has none either. */
  lemma DistinctPermutation<T>(s: seq<T>, t: seq<T>)
    requires Distinct(s) && multiset(s) == multiset(t)
    ensures Distinct(t)
  {
    forall i, j | 0 <= i < j < |t| ensures t[i] != t[j] {
      DistinctCount(s, t[j]);
      assert t == t[..j] + [t[j]] + t[j + 1..];
      assert t[..j][i] == t[i];
    }
  }

  /** The field values of a list made by the natural-order sort are the sorted values. */
  lemma SortedValues(s: seq<CategoryResult>)
    ensures CategoryResults.Values(Sorting.SortBy((o: CategoryResult) => o.Key(), CategoryResults.NaturalLeq, s))
         == LsmRows.SortNatural(CategoryResults.Values(s))
  {
    CategoryResults.ValuesSortBy((o: CategoryResult) => o.Key(), CategoryResults.KeyOf, CategoryResults.NaturalLeq, s);
  }

  /** The results map of processResults: each key's list of result objects. */
  type Table = map<Key, seq<CategoryResult>>

  /** Every result object in the map. */
  ghost function Objects(g: Table): set<CategoryResult>
  {
    set k, o | k in g && o in g[k] :: o
  }

  /** The current field values of every list. */
  ghost function Snapshot(g: Table): (m: map<Key, seq<Record>>)
    reads Objects(g)
    ensures m.Keys == g.Keys
  {
    map k | k in g :: CategoryResults.Values(g[k])
  }

  /**
   * No result object is in two places: lists have no repetitions and
   * share no object, so changing one result changes one entry.
   */
  ghost predicate Disjoint(g: Table)
  {
    && (forall k | k in g :: Distinct(g[k]))
    && (forall k1, k2, o | k1 in g && k2 in g && k1 != k2 && o in g[k1] :: o !in g[k2])
  }

  /** computeIfAbsent(k, ...).add(cr). */
  function Add(g: Table, k: Key, cr: CategoryResult): (g': Table)
    ensures g'.Keys == g.Keys + {k}
    ensures g'[k] == (if k in g then g[k] else []) + [cr]
    ensures forall k' | k' in g && k' != k :: g'[k'] == g[k']
  {
    g[k := (if k in g then g[k] else []) + [cr]]
  }

  /** Adding a result that is in no list keeps the lists apart. */
  lemma AddNew(g: Table, k: Key, cr: CategoryResult)
    requires Disjoint(g) && cr !in Objects(g)
    ensures Disjoint(Add(g, k, cr)) && Objects(Add(g, k, cr)) == Objects(g) + {cr}
  {
    var list := if k in g then g[k] else [];
    assert forall o | o in list :: o in Objects(g);
    AddObjects(g, k, cr);
  }

  /** Adding a result adds exactly that object to the table. */
  lemma AddObjects(g: Table, k: Key, cr: CategoryResult)
    ensures Objects(Add(g, k, cr)) == Objects(g) + {cr}
  {
    var g' := Add(g, k, cr);
    var list := if k in g then g[k] else [];
    forall o | o in Objects(g') ensures o in Objects(g) + {cr} {
      var k' :| k' in g' && o in g'[k'];
      if k' != k || o in list {
        assert o in g[k'];
      }
    }
    forall o | o in Objects(g) + {cr} ensures o in Objects(g') {
      if o != cr {
        var k' :| k' in g && o in g[k'];
        assert o in g'[k'];
      } else {
        assert cr in g'[k];
      }
    }
  }

  /** Adding a result appends its value to the list of its key and changes no other list. */
  lemma AddValues(g: Table, k: Key, cr: CategoryResult)
    ensures Snapshot(Add(g, k, cr))
         == Snapshot(g)[k := (if k in g then Snapshot(g)[k] else []) + [cr.Value()]]
  {
    var g' := Add(g, k, cr);
    var expected := Snapshot(g)[k := (if k in g then Snapshot(g)[k] else []) + [cr.Value()]];
    forall k' | k' in g' ensures Snapshot(g')[k'] == expected[k'] {
      if k' == k {
        ValuesSnoc(if k in g then g[k] else [], cr);
      }
    }
    MapsEqual(Snapshot(g'), expected);
  }

  /** Two maps with the same keys and the same value at every key are equal. */
  lemma MapsEqual<K, V>(a: map<K, V>, b: map<K, V>)
    requires a.Keys == b.Keys && forall k | k in a :: a[k] == b[k]
    ensures a == b
  {
  }

  /** The values of a list with one more result end with that result's value. */
  lemma ValuesSnoc(s: seq<CategoryResult>, cr: CategoryResult)
    ensures CategoryResults.Values(s + [cr]) == CategoryResults.Values(s) + [cr.Value()]
  {
    assert (s + [cr])[..|s|] == s;
  }

  /** results.values().forEach(v -> v.sort(null)). */
  function SortAll(g: Table): (g': Table)
    ensures g'.Keys == g.Keys
  {
    map k | k in g :: Sorting.SortBy((o: CategoryResult) => o.Key(), CategoryResults.NaturalLeq, g[k])
  }

  /** Permuting every list keeps the objects and keeps them apart. */
  lemma PermutedApart(g: Table, g': Table)
    requires Disjoint(g) && g'.Keys == g.Keys
    requires forall k | k in g :: multiset(g'[k]) == multiset(g[k])
    ensures Disjoint(g') && Objects(g') == Objects(g)
  {
    forall k, o | k in g ensures o in g'[k] <==> o in g[k] {
      assert o in g'[k] <==> o in multiset(g'[k]);
      assert o in g[k] <==> o in multiset(g[k]);
    }
    forall k | k in g ensures Distinct(g'[k]) {
      DistinctPermutation(g[k], g'[k]);
    }
    forall o | o in Objects(g') ensures o in Objects(g) {
      var k :| k in g' && o in g'[k];
      assert o in g[k];
    }
    forall o | o in Objects(g) ensures o in Objects(g') {
      var k :| k in g && o in g[k];
      assert o in g'[k];
    }
  }

  /** Sorting keeps every list's objects apart. */
  lemma SortAllApart(g: Table)
    requires Disjoint(g)
    ensures Disjoint(SortAll(g)) && Objects(SortAll(g)) == Objects(g)
  {
    var g' := SortAll(g);
    forall k | k in g ensures multiset(g'[k]) == multiset(g[k]) {
    }
    PermutedApart(g, g');
  }

  /** Sorting the lists sorts every list's values in natural order. */
  lemma SortAllValues(g: Table)
    ensures forall k | k in g :: Snapshot(SortAll(g))[k] == LsmRows.SortNatural(Snapshot(g)[k])
  {
    forall k | k in g ensures Snapshot(SortAll(g))[k] == LsmRows.SortNatural(Snapshot(g)[k]) {
      SortedValues(g[k]);
    }
  }

  /** The table holds the given results grouped by key, in row order, each object once. */
  ghost predicate Grouping(g: Table, recs: seq<Record>)
    reads Objects(g)
  {
    Disjoint(g) && Snapshot(g) == LsmRows.Unsorted(recs)
  }

  /** Appending a new result object to the table follows the grouping of the values. */
  lemma AddRecord(g: Table, recs: seq<Record>, cr: CategoryResult)
    requires Grouping(g, recs) && cr !in Objects(g)
    ensures Grouping(Add(g, cr.GetEventCategory(), cr), recs + [cr.Value()])
    ensures Objects(Add(g, cr.GetEventCategory(), cr)) == Objects(g) + {cr}
  {
    AddNew(g, cr.GetEventCategory(), cr);
    AddValues(g, cr.GetEventCategory(), cr);
    LsmRows.UnsortedAppend(recs, cr.Value());
  }

  /**
   * The body of the reading loop for row i, given the start carried so far:
   * the event number is parsed, then the place, then the key is checked,
   * and a new CategoryResult is made.
   */
  method ReadRow(rows: seq<LsmRows.CsvRow>, i: nat, start: Option<string>) returns (r: Result<CategoryResult, Error>)
    requires i < |rows| && start == LsmRows.StartOf(rows, i)
    ensures r.Success? <==> LsmRows.RowRecord(rows, i).Success?
    ensures r.Failure? ==> r.error == LsmRows.RowRecord(rows, i).error
    ensures r.Success? ==> fresh(r.value) && r.value.Value() == LsmRows.RowRecord(rows, i).value
  {
    var row := rows[i];
    var event: EventIds.EventId;
    match EventIds.From(row.eventNum) {
      case Failure(e) => return Failure(e);
      case Success(ev) => event := ev;
    }
    var rank: Option<int>;
    match LsmRows.ParsePlace(row.place) {
      case Failure(e) => return Failure(e);
      case Success(p) => rank := p;
    }
    if !EventIds.Known(event) {
      return Failure(IllegalArgument("emoji"));
    }
    var cr := new CategoryResults.CategoryResult(event, row.event, rank, row.crew, row.crewAbbrev,
                                                 row.stroke, start, row.finish, row.delta, row.adjTime);
    return Success(cr);
  }

  /** A list whose objects did not change has the same values. */
  twostate lemma ValuesUnchanged(s: seq<CategoryResult>)
    requires forall o | o in s :: old(allocated(o)) && unchanged(o)
    ensures CategoryResults.Values(s) == old(CategoryResults.Values(s))
  {
  }

  /** Objects that did not change leave the values of their lists unchanged. */
  twostate lemma SnapshotFrame(g: Table)
    requires forall k, o | k in g && o in g[k] :: old(allocated(o)) && unchanged(o)
    ensures Snapshot(g) == old(Snapshot(g))
  {
    forall k | k in g ensures CategoryResults.Values(g[k]) == old(CategoryResults.Values(g[k])) {
      assert forall o | o in g[k] :: unchanged(o);
    }
  }

  /** The map built by adding the objects of objs one after the other, each under its own key. */
  ghost function TableOf(objs: seq<CategoryResult>): Table
  {
    if objs == [] then map[]
    else
      var last := objs[|objs| - 1];
      Add(TableOf(objs[..|objs| - 1]), last.GetEventCategory(), last)
  }

  /**
   * Adding distinct objects one by one groups their values by key, in
   * order, and puts each object in one list.
   */
  lemma {:induction false} TableOfGrouping(objs: seq<CategoryResult>)
    requires Distinct(objs)
    ensures Grouping(TableOf(objs), CategoryResults.Values(objs))
  {
    if objs == [] {
      assert LsmRows.Unsorted([]) == map[];
    } else {
      var init, last := objs[..|objs| - 1], objs[|objs| - 1];
      DistinctSplit(objs);
      TableOfGrouping(init);
      TableOfObjects(init);
      AddRecord(TableOf(init), CategoryResults.Values(init), last);
      assert TableOf(objs) == Add(TableOf(init), last.GetEventCategory(), last);
      assert CategoryResults.Values(objs) == CategoryResults.Values(init) + [last.Value()];
    }
  }

  /** Building with one more object adds it under its key. */
  lemma TableOfSnoc(objs: seq<CategoryResult>, c: CategoryResult)
    ensures TableOf(objs + [c]) == Add(TableOf(objs), c.GetEventCategory(), c)
  {
    assert (objs + [c])[..|objs|] == objs;
  }

  /** The objects of the built map are those that were added. */
  lemma {:induction false} TableOfObjects(objs: seq<CategoryResult>)
    ensures forall o :: o in Objects(TableOf(objs)) <==> o in objs
  {
    if objs != [] {
      var init, last := objs[..|objs| - 1], objs[|objs| - 1];
      TableOfObjects(init);
      AddObjects(TableOf(init), last.GetEventCategory(), last);
      assert objs == init + [last];
    }
  }

  /** Appending an element not in a list without repetitions keeps it without repetitions. */
  lemma DistinctSnoc<T>(s: seq<T>, x: T)
    requires Distinct(s) && x !in s
    ensures Distinct(s + [x]) && forall o :: o in s + [x] <==> o in s || o == x
  {
  }

  /** A list without repetitions splits into a shorter one and a last element not in it. */
  lemma DistinctSplit<T>(s: seq<T>)
    requires Distinct(s) && s != []
    ensures Distinct(s[..|s| - 1]) && s[|s| - 1] !in s[..|s| - 1]
    ensures forall o :: o in s <==> o in s[..|s| - 1] || o == s[|s| - 1]
  {
    assert s == s[..|s| - 1] + [s[|s| - 1]];
  }

  /**
   * One more object, not among objs: the objects stay distinct, the values
   * follow, and the map built from them gains the new one under its key.
   */
  lemma GroupStep(objs: seq<CategoryResult>, recs: seq<Record>, c: CategoryResult)
    requires |objs| == |recs| && Distinct(objs) && c !in objs
    requires forall j | 0 <= j < |objs| :: objs[j].Value() == recs[j]
    ensures Distinct(objs + [c])
    ensures forall j | 0 <= j < |objs| + 1 :: (objs + [c])[j].Value() == (recs + [c.Value()])[j]
    ensures TableOf(objs + [c]) == Add(TableOf(objs), c.GetEventCategory(), c)
  {
    DistinctSnoc(objs, c);
    TableOfSnoc(objs, c);
  }

  /**
   * The reading loop of processResults: one CategoryResult per row, the
   * start carried over rows without one, each result appended to the list
   * of its key (computeIfAbsent then add). The first row that throws ends
   * the reading.
   */
  method Group(rows: seq<LsmRows.CsvRow>) returns (r: Result<Table, Error>, ghost objs: seq<CategoryResult>)
    ensures r.Success? <==> LsmRows.RecordsOf(rows, |rows|).Success?
    ensures r.Failure? ==> r.error == LsmRows.RecordsOf(rows, |rows|).error
    ensures r.Success? ==> r.value == TableOf(objs) && Distinct(objs)
    ensures r.Success? ==> CategoryResults.Values(objs) == LsmRows.RecordsOf(rows, |rows|).value
    ensures r.Success? ==> forall o | o in objs :: fresh(o)
  {
    var results: Table := map[];
    var lastStart: Option<string> := None;
    var i := 0;
    // the result objects made so far, in row order, and their values when made
    objs := [];
    ghost var recs: seq<Record> := [];
    ghost var made: set<CategoryResult> := {};
    while i < |rows|
      invariant 0 <= i <= |rows| && |objs| == |recs| == i
      invariant LsmRows.RecordsOf(rows, i) == Success(recs)
      invariant lastStart == LsmRows.CarriedStart(rows, i)
      invariant results == TableOf(objs)
      invariant forall j | 0 <= j < i :: objs[j].Value() == recs[j]
      invariant Distinct(objs) && fresh(made) && forall o | o in objs :: o in made
    {
      if rows[i].start.Some? {
        lastStart := rows[i].start;
      }
      var cr := ReadRow(rows, i, lastStart);
      if cr.Failure? {
        LsmRows.RecordsOfFails(rows, i, cr.error);
        return Failure(cr.error), objs;
      }
      var c := cr.value;
      LsmRows.RecordsOfStep(rows, i, recs, c.Value());
      results := Add(results, c.GetEventCategory(), c);
      GroupStep(objs, recs, c);
      objs := objs + [c];
      made := made + {c};
      recs := recs + [c.Value()];
      i := i + 1;
    }
    SeqsEqual(CategoryResults.Values(objs), recs);
    return Success(results), objs;
  }

  /**
   * The reading of processResults followed by the sort of each list in
   * natural order: the table holds the grouped and sorted results.
   */
  method Read(rows: seq<LsmRows.CsvRow>) returns (r: Result<Table, Error>)
    ensures r.Success? <==> LsmRows.RecordsOf(rows, |rows|).Success?
    ensures r.Failure? ==> r.error == LsmRows.RecordsOf(rows, |rows|).error
    ensures r.Success? ==> Disjoint(r.value)
    ensures r.Success? ==> Snapshot(r.value) == LsmRows.Grouped(LsmRows.RecordsOf(rows, |rows|).value)
    ensures r.Success? ==> forall o | o in Objects(r.value) :: fresh(o)
  {
    var grouped, objs := Group(rows);
    if grouped.Failure? {
      return Failure(grouped.error);
    }
    var results := grouped.value;
    TableOfGrouping(objs);
    TableOfObjects(objs);
    SortAllApart(results);
    SortAllValues(results);
    LsmRows.GroupedOfUnsorted(LsmRows.RecordsOf(rows, |rows|).value, Snapshot(SortAll(results)));
    return Success(SortAll(results));
  }

  /** The finish of the first result that has one, among the finish times fs: firstFinish. */
  function FirstFinish(fs: seq<Option<TimeOfDay.Time>>): Option<TimeOfDay.Time>
  {
    match LsmRanking.Leader(fs, |fs|)
    case None => None
    case Some(l) => fs[l]
  }

  /**
   * What the fix of the result after the finishes fs comes to, given its
   * own finish f: the first finish is f when there was none, the delta is
   * cleared without a first finish, kept without a finish of its own and
   * otherwise the time behind the first finish; the rank is 0 without a
   * finish and otherwise its position.
   */
  lemma FixStep(vals: seq<Record>, fs: seq<Option<TimeOfDay.Time>>, f: Option<TimeOfDay.Time>)
    requires |fs| < |vals|
    ensures FirstFinish(fs + [f]) == if FirstFinish(fs).None? then f else FirstFinish(fs)
    ensures LsmRanking.DeltaAt(vals, fs + [f], |fs|)
         == if FirstFinish(fs).None? then None
            else if f.None? then vals[|fs|].delta
            else Some(TimeOfDay.FormatDelta(TimeOfDay.Plus(TimeOfDay.Midnight, f.value - FirstFinish(fs).value)))
    ensures LsmRanking.RankAt(fs + [f], |fs|) == if f.None? || f.value == TimeOfDay.Midnight then 0 else |fs| + 1
  {
    LsmRanking.LeaderPrefix(fs, f, |fs|);
  }

  /**
   * The list crs, holding the values vals before the fix, has its first
   * |fs| results fixed by the finish times fs and the others untouched.
   */
  ghost predicate FixedUpTo(crs: seq<CategoryResult>, vals: seq<Record>, fs: seq<Option<TimeOfDay.Time>>)
    reads set o | o in crs
  {
    UpToFixed(CategoryResults.Values(crs), vals, fs)
  }

  /** FixedUpTo on the values of the list. */
  ghost predicate UpToFixed(now: seq<Record>, vals: seq<Record>, fs: seq<Option<TimeOfDay.Time>>)
  {
    && |fs| <= |now| == |vals|
    && (forall j | 0 <= j < |fs| ::
          now[j] == vals[j].(delta := LsmRanking.DeltaAt(vals, fs, j),
                             categoryRank := Some(LsmRanking.RankAt(fs, j))))
    && (forall j | |fs| <= j < |now| :: now[j] == vals[j])
  }

  /** Fixing the next result with its finish f extends the fixed prefix by one. */
  lemma UpToFixedStep(now: seq<Record>, vals: seq<Record>, fs: seq<Option<TimeOfDay.Time>>,
                      f: Option<TimeOfDay.Time>, rec: Record)
    requires UpToFixed(now, vals, fs) && |fs| < |vals|
    requires rec == vals[|fs|].(delta := LsmRanking.DeltaAt(vals, fs + [f], |fs|),
                                categoryRank := Some(LsmRanking.RankAt(fs + [f], |fs|)))
    ensures UpToFixed(now[|fs| := rec], vals, fs + [f])
  {
    forall j | 0 <= j < |fs| {
      LsmRanking.FixedPrefix(vals, fs, f, j);
    }
  }

  /**
   * One pass of the inner loop of fixRankAndDelta, for the result at
   * position |fs| of its list, given the finish times fs of the results
   * before it: its finish is parsed, the first finish is taken when there
   * is none yet, and its delta and rank are set.
   */
  method FixResult(cr: CategoryResult, nb: int, firstFinish: Option<TimeOfDay.Time>,
                   ghost vals: seq<Record>, ghost fs: seq<Option<TimeOfDay.Time>>)
      returns (r: Result<Option<TimeOfDay.Time>, Error>, first: Option<TimeOfDay.Time>)
    requires |fs| < |vals| && nb == |fs| + 1 && cr.Value() == vals[|fs|]
    requires firstFinish == FirstFinish(fs)
    modifies cr
    ensures r.Success? <==> LsmRanking.ParsedFinish(vals[|fs|]).Success?
    ensures r.Failure? ==> r.error == DateTimeParse
    ensures r.Success? ==> r == LsmRanking.ParsedFinish(vals[|fs|])
    ensures r.Success? ==> first == FirstFinish(fs + [r.value])
    ensures r.Success? ==> cr.Value() == vals[|fs|].(delta := LsmRanking.DeltaAt(vals, fs + [r.value], |fs|),
                                                     categoryRank := Some(LsmRanking.RankAt(fs + [r.value], |fs|)))
  {
    var lastRank := 0;
    var lastFinish := TimeOfDay.Midnight;
    var finish: Option<TimeOfDay.Time> := None;
    if !IsBlank(cr.finish) {
      match TimeOfDay.ParseIso(cr.finish.value) {
        case Failure(e) => return Failure(e), firstFinish;
        case Success(t) => finish := Some(t);
      }
    }
    FixStep(vals, fs, finish);
    first := firstFinish;
    if firstFinish.None? {
      first := finish;
      cr.delta := None;
    } else if finish.None? {
      // a result without finish time keeps its delta
    } else {
      cr.delta := Some(TimeOfDay.FormatDelta(TimeOfDay.Plus(TimeOfDay.Midnight, finish.value - firstFinish.value)));
    }
    if finish.None? || finish.value == lastFinish {
      cr.categoryRank := Some(lastRank);
    } else {
      cr.categoryRank := Some(nb);
    }
    return Success(finish), first;
  }

  /** FixResult on the result at position i of a list, and what it means for the whole list. */
  method FixAt(crs: seq<CategoryResult>, i: nat, nb: int, firstFinish: Option<TimeOfDay.Time>,
               ghost vals: seq<Record>, ghost fs: seq<Option<TimeOfDay.Time>>)
      returns (r: Result<Option<TimeOfDay.Time>, Error>, first: Option<TimeOfDay.Time>)
    requires Distinct(crs) && i == |fs| < |crs| && nb == i + 1
    requires FixedUpTo(crs, vals, fs) && LsmRanking.Finishes(vals[..i]) == Success(fs)
    requires firstFinish == FirstFinish(fs)
    modifies crs[i]
    ensures r.Failure? ==> LsmRanking.Finishes(vals).Failure? && r.error == DateTimeParse
    ensures r.Success? ==> FixedUpTo(crs, vals, fs + [r.value])
    ensures r.Success? ==> LsmRanking.Finishes(vals[..nb]) == Success(fs + [r.value])
    ensures r.Success? ==> first == FirstFinish(fs + [r.value])
  {
    ghost var now := CategoryResults.Values(crs);
    r, first := FixResult(crs[i], nb, firstFinish, vals, fs);
    if r.Failure? {
      return;
    }
    LsmRanking.FinishesStep(vals, i, fs, r.value);
    UpToFixedStep(now, vals, fs, r.value, crs[i].Value());
    ghost var after := CategoryResults.Values(crs);
    forall j | 0 <= j < |crs| ensures after[j] == now[i := crs[i].Value()][j] {
      if j != i {
        assert crs[j] != crs[i];
      }
    }
    SeqsEqual(after, now[i := crs[i].Value()]);
  }

  /**
   * The body of fixRankAndDelta for one category list: each result, in
   * list order, gets its rank in the category and its delta to the first
   * finisher. A finish cell LocalTime.parse rejects throws, leaving the
   * results before it already fixed.
   */
  method FixCategory(crs: seq<CategoryResult>) returns (r: Outcome<Error>)
    requires Distinct(crs)
    modifies set o | o in crs
    ensures r.Pass? <==> LsmRanking.FixList(old(CategoryResults.Values(crs))).Success?
    ensures r.Pass? ==> CategoryResults.Values(crs) == LsmRanking.FixList(old(CategoryResults.Values(crs))).value
    ensures r.Fail? ==> r.error == DateTimeParse
  {
    ghost var vals := CategoryResults.Values(crs);
    ghost var fs: seq<Option<TimeOfDay.Time>> := [];
    var nb := 0;
    var firstFinish: Option<TimeOfDay.Time> := None;
    for i := 0 to |crs|
      invariant nb == i == |fs|
      invariant FixedUpTo(crs, vals, fs) && LsmRanking.Finishes(vals[..i]) == Success(fs)
      invariant firstFinish == FirstFinish(fs)
    {
      nb := nb + 1;
      var finish;
      finish, firstFinish := FixAt(crs, i, nb, firstFinish, vals, fs);
      if finish.Failure? {
        return Fail(finish.error);
      }
      fs := fs + [finish.value];
    }
    FixedAll(CategoryResults.Values(crs), vals, fs);
    return Pass;
  }

  /** Once every result is fixed, the values are those of LsmRanking.FixList. */
  lemma FixedAll(now: seq<Record>, vals: seq<Record>, fs: seq<Option<TimeOfDay.Time>>)
    requires UpToFixed(now, vals, fs) && |fs| == |now| && LsmRanking.Finishes(vals[..|fs|]) == Success(fs)
    ensures LsmRanking.FixList(vals) == Success(now)
  {
    assert vals[..|fs|] == vals;
    var fixed := LsmRanking.Fixed(vals, fs);
    forall j | 0 <= j < |now| ensures now[j] == fixed[j] {
    }
    SeqsEqual(now, fixed);
  }

  /** Two lists of the same length with the same element at every position are equal. */
  lemma SeqsEqual<T>(a: seq<T>, b: seq<T>)
    requires |a| == |b| && forall i | 0 <= i < |a| :: a[i] == b[i]
    ensures a == b
  {
  }

  /**
   * The lists of the keys outside keys hold the fixed values of their
   * lists in before; the lists of the keys in keys are as in before.
   */
  ghost predicate FixedKeys(results: Table, before: map<Key, seq<Record>>, keys: set<Key>)
    reads Objects(results)
  {
    KeysFixed(Snapshot(results), before, keys)
  }

  /** FixedKeys on the values of the lists. */
  ghost predicate KeysFixed(now: map<Key, seq<Record>>, before: map<Key, seq<Record>>, keys: set<Key>)
  {
    && before.Keys == now.Keys && keys <= now.Keys
    && (forall k | k in now && k !in keys ::
          LsmRanking.FixList(before[k]).Success? && now[k] == LsmRanking.FixList(before[k]).value)
    && (forall k | k in keys :: now[k] == before[k])
  }

  /** Fixing the list of one key still to do moves that key to the fixed ones. */
  lemma KeysFixedStep(now: map<Key, seq<Record>>, now': map<Key, seq<Record>>, before: map<Key, seq<Record>>,
                      keys: set<Key>, k: Key)
    requires KeysFixed(now, before, keys) && k in keys
    requires now'.Keys == now.Keys && forall k' | k' in now && k' != k :: now'[k'] == now[k']
    requires LsmRanking.FixList(before[k]).Success? && now'[k] == LsmRanking.FixList(before[k]).value
    ensures KeysFixed(now', before, keys - {k})
  {
  }

  /** One pass of the loop of fixRankAndDelta: the list of key k fixed in place. */
  method FixEntry(results: Table, k: Key, ghost before: map<Key, seq<Record>>, ghost keys: set<Key>)
      returns (r: Outcome<Error>)
    requires Disjoint(results) && k in keys && FixedKeys(results, before, keys)
    modifies set o | o in results[k]
    ensures r.Fail? ==> LsmRanking.FixList(before[k]).Failure? && r.error == DateTimeParse
    ensures r.Pass? ==> FixedKeys(results, before, keys - {k})
  {
    ghost var now := Snapshot(results);
    r := FixCategory(results[k]);
    forall k' | k' in results && k' != k ensures Snapshot(results)[k'] == now[k'] {
      assert forall o | o in results[k'] :: o !in results[k];
      ValuesUnchanged(results[k']);
    }
    if r.Pass? {
      KeysFixedStep(now, Snapshot(results), before, keys, k);
    }
  }

  /**
   * fixRankAndDelta: every category list fixed in place. The lists are
   * visited in some order; all of them pass, or one throws.
   */
  method FixRankAndDelta(results: Table) returns (r: Outcome<Error>)
    requires Disjoint(results)
    modifies Objects(results)
    ensures r.Pass? <==> forall k | k in results :: LsmRanking.FixList(old(CategoryResults.Values(results[k]))).Success?
    ensures r.Pass? ==> forall k | k in results ::
              CategoryResults.Values(results[k]) == LsmRanking.FixList(old(CategoryResults.Values(results[k]))).value
    ensures r.Fail? ==> r.error == DateTimeParse
  {
    ghost var before := Snapshot(results);
    var keys := results.Keys;
    while keys != {}
      invariant FixedKeys(results, before, keys)
      decreases keys
    {
      var k :| k in keys;
      var outcome := FixEntry(results, k, before, keys);
      if outcome.Fail? {
        return outcome;
      }
      keys := keys - {k};
    }
    return Pass;
  }

  /** The field values of two lists one after the other. */
  lemma ValuesAppend(a: seq<CategoryResult>, b: seq<CategoryResult>)
    ensures CategoryResults.Values(a + b) == CategoryResults.Values(a) + CategoryResults.Values(b)
  {
    var l, r := CategoryResults.Values(a + b), CategoryResults.Values(a) + CategoryResults.Values(b);
    assert forall i | 0 <= i < |l| :: l[i] == r[i];
  }

  /**
   * entry.getValue().stream().map(CategoryResult::new): a new object for
   * every result, with the same field values, in the same order.
   */
  method CopyAll(s: seq<CategoryResult>) returns (c: seq<CategoryResult>)
    ensures CategoryResults.Values(c) == CategoryResults.Values(s)
    ensures Distinct(c) && forall o | o in c :: fresh(o)
  {
    c := [];
    for i := 0 to |s|
      invariant |c| == i
      invariant forall j | 0 <= j < i :: c[j].Value() == s[j].Value()
      invariant Distinct(c) && forall o | o in c :: fresh(o)
    {
      var copy := new CategoryResults.CategoryResult.Copy(s[i]);
      c := c + [copy];
    }
    var l, r := CategoryResults.Values(c), CategoryResults.Values(s);
    assert forall i | 0 <= i < |l| :: l[i] == r[i];
  }

  /** The objects of a permutation are the objects of the original. */
  lemma SameMembers<T>(a: seq<T>, b: seq<T>)
    requires multiset(a) == multiset(b)
    ensures forall o | o in b :: o in a
  {
    forall o | o in b ensures o in a {
      assert o in multiset(b);
    }
  }

  /** Two lists without repetitions that share nothing make one without repetitions. */
  lemma DistinctAppend<T>(a: seq<T>, b: seq<T>)
    requires Distinct(a) && Distinct(b) && forall o | o in a :: o !in b
    ensures Distinct(a + b)
  {
    var s := a + b;
    assert forall x | 0 <= x < |a| :: s[x] == a[x];
    assert forall x | |a| <= x < |s| :: s[x] == b[x - |a|];
    forall i, j | 0 <= i < j < |s| ensures s[i] != s[j] {
      if i < |a| <= j {
        assert a[i] in a;
      }
    }
  }

  /**
   * The destination list of a merge, a permutation of its old objects
   * followed by new ones, keeps the lists apart.
   */
  lemma MergedApart(m: Table, d: Key, crs: seq<CategoryResult>, copies: seq<CategoryResult>,
                    merged: seq<CategoryResult>)
    requires Disjoint(m) && crs == (if d in m then m[d] else [])
    requires Distinct(copies) && forall o | o in copies :: o !in Objects(m)
    requires multiset(merged) == multiset(crs + copies)
    ensures Disjoint(m[d := merged])
    ensures forall o | o in Objects(m[d := merged]) :: o in Objects(m) || o in copies
  {
    forall o | o in crs ensures o in Objects(m) {
      assert o in m[d];
    }
    DistinctAppend(crs, copies);
    DistinctPermutation(crs + copies, merged);
    SameMembers(crs + copies, merged);
    var m' := m[d := merged];
    forall k1, k2, o | k1 in m' && k2 in m' && k1 != k2 && o in m'[k1]
      ensures o !in m'[k2]
    {
      if k1 == d {
        assert o in m[k2] ==> o in Objects(m);
      } else if k2 == d {
        assert o in Objects(m);
      }
    }
    forall o | o in Objects(m') ensures o in Objects(m) || o in copies {
      var k' :| k' in m' && o in m'[k'];
      if k' != d {
        assert o in m[k'];
      }
    }
  }

  /** Replacing one list replaces its values and no others. */
  lemma ReplaceValues(m: Table, d: Key, list: seq<CategoryResult>)
    ensures Snapshot(m[d := list]) == Snapshot(m)[d := CategoryResults.Values(list)]
  {
  }

  /**
   * One iteration of mergeSpecialCategories, for the entry of key k: a
   * championship category is copied into its single standard category,
   * created when missing, which is then sorted by event rank.
   */
  method MergeEntry(m: Table, k: Key, ghost before: map<Key, seq<Record>>) returns (r: Result<Table, Error>)
    requires k in m && Disjoint(m) && before == Snapshot(m)
    ensures r.Failure? <==> LsmMerge.MergeStep(before, k).Failure?
    ensures r.Failure? ==> r.error == Runtime("merge")
    ensures r.Success? ==> Disjoint(r.value) && Snapshot(r.value) == LsmMerge.MergeStep(before, k).value
    ensures r.Success? ==> forall o | o in Objects(r.value) :: o in Objects(m) || fresh(o)
  {
    if !CategoryKeys.IsSwissChampionshipCategory(k) {
      return Success(m);
    }
    var standard := CategoryKeys.ToStandardCategory(k);
    var ds := set d | d in m && d.category == standard && d.event.emoji == k.event.emoji;
    assert ds == LsmMerge.Destinations(Snapshot(m), k);
    if |ds| > 1 {
      return Failure(Runtime("merge"));
    }
    var d, crs;
    if ds == {} {
      d, crs := CategoryKeys.WithCategory(k, standard), [];
    } else {
      d :| d in ds;
      LsmMerge.SingletonOnly(ds, d);
      crs := m[d];
    }
    assert d == LsmMerge.Destination(Snapshot(m), k);
    var copies := CopyAll(m[k]);
    SnapshotFrame(m);
    var merged := Sorting.SortBy((o: CategoryResult) => o.eventRank, CategoryResults.RankLeq, crs + copies);
    MergedApart(m, d, crs, copies, merged);
    CategoryResults.ValuesSortBy((o: CategoryResult) => o.eventRank, LsmMerge.RankOf, CategoryResults.RankLeq, crs + copies);
    ValuesAppend(crs, copies);
    ReplaceValues(m, d, merged);
    return Success(m[d := merged]);
  }

  /**
   * The keys of order are visited, once each, and with the keys of
   * remaining they make up keys.
   */
  ghost predicate Visiting(keys: set<Key>, order: seq<Key>, remaining: set<Key>)
  {
    && remaining <= keys
    && (forall i | 0 <= i < |order| :: order[i] in keys && order[i] !in remaining)
    && (forall k | k in keys && k !in remaining :: k in order)
    && Distinct(order)
  }

  /** Visiting one more key of remaining. */
  lemma VisitNext(keys: set<Key>, order: seq<Key>, remaining: set<Key>, k: Key)
    requires Visiting(keys, order, remaining) && k in remaining
    ensures Visiting(keys, order + [k], remaining - {k})
  {
    var o := order + [k];
    assert forall i | 0 <= i < |order| :: o[i] == order[i];
  }

  /**
   * The loop of mergeSpecialCategories after visiting the keys of order:
   * m is the merge of the entries visited so far, in that order, starting
   * from the values start, and the keys in remaining are still to visit.
   */
  ghost predicate Merging(start: map<Key, seq<Record>>, m: Table, order: seq<Key>, remaining: set<Key>)
    reads Objects(m)
  {
    && Disjoint(m)
    && Visiting(start.Keys, order, remaining)
    && LsmMerge.MergeAll(start, order) == Success(Snapshot(m))
  }

  /** The visit of one more key. */
  method MergeNext(m: Table, k: Key, ghost start: map<Key, seq<Record>>, ghost order: seq<Key>,
                   ghost remaining: set<Key>)
      returns (r: Result<Table, Error>)
    requires Merging(start, m, order, remaining) && k in remaining
    ensures Visiting(start.Keys, order + [k], remaining - {k})
    ensures r.Failure? ==> LsmMerge.MergeAll(start, order + [k]).Failure? && r.error == Runtime("merge")
    ensures r.Success? ==> Merging(start, r.value, order + [k], remaining - {k})
    ensures r.Success? ==> forall o | o in Objects(r.value) :: o in Objects(m) || fresh(o)
  {
    ghost var before := Snapshot(m);
    LsmMerge.MergeAllSnoc(start, order, k, before);
    VisitNext(start.Keys, order, remaining, k);
    r := MergeEntry(m, k, before);
  }

  /**
   * LSM.mergeSpecialCategories. The entries are visited in an order the
   * Java code leaves to a HashSet; order is the order this run took, every
   * key once when the merge completes, and the result is the value-level
   * merge in that order. Copies are new objects, so the lists stay apart.
   */
  method MergeSpecialCategories(results: Table, ghost g: map<Key, seq<Record>>)
      returns (r: Result<Table, Error>, ghost order: seq<Key>)
    requires Disjoint(results) && g == Snapshot(results)
    ensures forall i | 0 <= i < |order| :: order[i] in g
    ensures Distinct(order)
    ensures r.Success? <==> LsmMerge.MergeAll(g, order).Success?
    ensures r.Success? ==> forall k | k in g :: k in order
    ensures r.Success? ==> Disjoint(r.value) && Snapshot(r.value) == LsmMerge.MergeAll(g, order).value
    ensures r.Failure? ==> r.error == Runtime("merge")
    ensures r.Success? ==> forall o | o in Objects(r.value) :: o in Objects(results) || fresh(o)
  {
    var m := results;
    var remaining := results.Keys;
    order := [];
    while remaining != {}
      invariant Merging(g, m, order, remaining)
      invariant forall o | o in Objects(m) :: o in Objects(results) || fresh(o)
      decreases |remaining|
    {
      var k :| k in remaining;
      var next := MergeNext(m, k, g, order, remaining);
      order := order + [k];
      if next.Failure? {
        return Failure(next.error), order;
      }
      m := next.value;
      remaining := remaining - {k};
    }
    return Success(m), order;
  }

  /** fixRankAndDelta on values: every list fixed, or the parse exception. */
  ghost function FixTable(m: map<Key, seq<Record>>): Result<map<Key, seq<Record>>, Error>
  {
    if forall k | k in m :: LsmRanking.FixList(m[k]).Success? then
      Success(map k | k in m :: LsmRanking.FixList(m[k]).value)
    else Failure(DateTimeParse)
  }

  /**
   * processResults without the CSV reading and the printing, on values:
   * the rows grouped by key and sorted, the championship categories merged
   * in the given order, then every list ranked.
   */
  ghost function Processed(g: map<Key, seq<Record>>, order: seq<Key>): Result<map<Key, seq<Record>>, Error>
    requires forall i | 0 <= i < |order| :: order[i] in g
  {
    match LsmMerge.MergeAll(g, order)
    case Failure(e) => Failure(e)
    case Success(m) => FixTable(m)
  }

  /** The ranking pass over a merged table whose objects are all new. */
  method FixMerged(merged: Table, ghost m: map<Key, seq<Record>>) returns (r: Outcome<Error>)
    requires Disjoint(merged) && Snapshot(merged) == m
    modifies Objects(merged)
    ensures r.Pass? <==> FixTable(m).Success?
    ensures r.Fail? ==> r.error == FixTable(m).error
    ensures r.Pass? ==> Snapshot(merged) == FixTable(m).value
  {
    r := FixRankAndDelta(merged);
    assert forall k | k in merged :: old(CategoryResults.Values(merged[k])) == m[k];
    FixTableOf(m, Snapshot(merged), r.Pass?);
  }

  /** Lists that all pass the ranking and hold its results make up FixTable. */
  lemma FixTableOf(m: map<Key, seq<Record>>, after: map<Key, seq<Record>>, pass: bool)
    requires pass <==> forall k | k in m :: LsmRanking.FixList(m[k]).Success?
    requires after.Keys == m.Keys
    requires pass ==> forall k | k in m :: after[k] == LsmRanking.FixList(m[k]).value
    ensures pass <==> FixTable(m).Success?
    ensures !pass ==> FixTable(m).error == DateTimeParse
    ensures pass ==> FixTable(m).value == after
  {
    if pass {
      MapsEqual(after, map k | k in m :: LsmRanking.FixList(m[k]).value);
    }
  }

  /** The values of a table that was produced, or the exception. */
  ghost function Outcome(r: Result<Table, Error>): Result<map<Key, seq<Record>>, Error>
    reads if r.Success? then Objects(r.value) else {}
  {
    match r
    case Failure(e) => Failure(e)
    case Success(t) => Success(Snapshot(t))
  }

  /**
   * LSM.processResults from the rows read to the table handed to
   * printing: grouping and sort, merge, ranking. The first exception ends
   * it. order is the order in which the merge visited the keys.
   */
  method ProcessResults(rows: seq<LsmRows.CsvRow>) returns (r: Result<Table, Error>, ghost order: seq<Key>)
    ensures LsmRows.RecordsOf(rows, |rows|).Failure? ==> r == Failure(LsmRows.RecordsOf(rows, |rows|).error)
    ensures LsmRows.RecordsOf(rows, |rows|).Success? ==>
              var g := LsmRows.Grouped(LsmRows.RecordsOf(rows, |rows|).value);
              && (forall i | 0 <= i < |order| :: order[i] in g)
              && Distinct(order)
              && (r.Success? ==> forall k | k in g :: k in order)
              && Outcome(r) == Processed(g, order)
  {
    var read := Read(rows);
    if read.Failure? {
      return Failure(read.error), [];
    }
    var merged;
    merged, order := MergeSpecialCategories(read.value, Snapshot(read.value));
    if merged.Failure? {
      return Failure(merged.error), order;
    }
    var fixed := FixMerged(merged.value, Snapshot(merged.value));
    if fixed.Fail? {
      return Failure(fixed.error), order;
    }
    return Success(merged.value), order;
  }
}
