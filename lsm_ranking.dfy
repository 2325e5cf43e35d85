/**
 * The rules LSM applies to each category list once it is complete: the
 * rank in the category and the delta to the first finisher
 * (fixRankAndDelta), the medals (getMedal, getNbMedals) and the start time
 * printed in the race header (getStartTime).
 */
module LsmRanking {

  import opened Wrappers
  import opened JavaText
  import opened TimeOfDay
  import CategoryResults

  type Record = CategoryResults.Record

  /** The finish time of a result: none when the cell is blank, else LocalTime.parse. */
  function ParsedFinish(r: Record): (t: Result<Option<Time>, Error>)
    ensures IsBlank(r.finish) <==> t == Success(None)
    ensures t.Success? && t.value.Some? ==> ParseIso(r.finish.value) == Success(t.value.value)
    ensures t.Failure? ==> t.error == DateTimeParse
  {
    if IsBlank(r.finish) then Success(None)
    else
      match ParseIso(r.finish.value)
      case Failure(e) => Failure(e)
      case Success(t) => Success(Some(t))
  }

  /** The finish times of a list, or the exception of the first cell LocalTime.parse rejects. */
  function Finishes(vals: seq<Record>): (r: Result<seq<Option<Time>>, Error>)
    ensures r.Success? <==> forall i | 0 <= i < |vals| :: ParsedFinish(vals[i]).Success?
    ensures r.Success? ==> |r.value| == |vals|
    ensures r.Success? ==> forall i | 0 <= i < |vals| :: ParsedFinish(vals[i]) == Success(r.value[i])
    ensures r.Failure? ==> r.error == DateTimeParse
  {
    if vals == [] then Success([])
    else
      match Finishes(vals[..|vals| - 1])
      case Failure(e) => Failure(e)
      case Success(fs) =>
        match ParsedFinish(vals[|vals| - 1])
        case Failure(e) => Failure(e)
        case Success(f) => Success(fs + [f])
  }

  /**
   * The first of the first n results that has a finish time: the one whose
   * finish becomes firstFinish.
   */
  function Leader(fs: seq<Option<Time>>, n: nat): (l: Option<nat>)
    requires n <= |fs|
    ensures l.Some? ==> l.value < n && fs[l.value].Some?
    ensures l.Some? ==> forall j | 0 <= j < l.value :: fs[j].None?
    ensures l.None? ==> forall j | 0 <= j < n :: fs[j].None?
  {
    if n == 0 then None
    else
      match Leader(fs, n - 1)
      case Some(l) => Some(l)
      case None => if fs[n - 1].Some? then Some(n - 1) else None
  }

  /** Once there is a leader, looking further does not change it. */
  lemma {:induction false} LeaderStable(fs: seq<Option<Time>>, n: nat, n': nat)
    requires n <= n' <= |fs| && Leader(fs, n).Some?
    ensures Leader(fs, n') == Leader(fs, n)
    decreases n' - n
  {
    if n < n' {
      LeaderStable(fs, n, n' - 1);
    }
  }

  /** The first result with a finish is the leader of every longer prefix. */
  lemma LeaderFound(fs: seq<Option<Time>>, l: nat, n: nat)
    requires l < n <= |fs| && fs[l].Some?
    requires forall j | 0 <= j < l :: fs[j].None?
    ensures Leader(fs, n) == Some(l)
  {
    assert Leader(fs, l + 1) == Some(l);
    LeaderStable(fs, l + 1, n);
  }

  /** The leader among the first n depends only on the first n finishes. */
  lemma {:induction false} LeaderPrefix(fs: seq<Option<Time>>, f: Option<Time>, n: nat)
    requires n <= |fs|
    ensures Leader(fs + [f], n) == Leader(fs, n)
  {
    if n > 0 {
      LeaderPrefix(fs, f, n - 1);
      assert (fs + [f])[n - 1] == fs[n - 1];
    }
  }

  /**
   * The rank in the category: 0 for no finish time or a finish equal to
   * LocalTime.MIN, otherwise the position in the list, counted from 1.
   * The last rank and last finish the loop compares with never change
   * (they are final), so equal finish times do not share a rank.
   */
  function RankAt(fs: seq<Option<Time>>, i: nat): (rank: nat)
    requires i < |fs|
    ensures rank == 0 <==> fs[i].None? || fs[i] == Some(Midnight)
    ensures rank != 0 ==> rank == i + 1
  {
    match fs[i]
    case None => 0
    case Some(f) => if f == Midnight then 0 else i + 1
  }

  /**
   * The delta of result i: cleared while there is no leader yet (the
   * leader included), unchanged for a result without finish, otherwise
   * the time behind the leader printed as "mm:ss.S".
   */
  function DeltaAt(vals: seq<Record>, fs: seq<Option<Time>>, i: nat): (d: Option<string>)
    requires i < |vals| && i < |fs|
    ensures Leader(fs, i).None? ==> d.None?
    ensures Leader(fs, i).Some? && fs[i].None? ==> d == vals[i].delta
    ensures Leader(fs, i).Some? && fs[i].Some? ==> d.Some? && |d.value| == 7
  {
    match Leader(fs, i)
    case None => None
    case Some(l) =>
      match fs[i]
      case None => vals[i].delta
      case Some(f) => Some(FormatDelta(Plus(Midnight, f - fs[l].value)))
  }

  /** The list after fixRankAndDelta: rank and delta set, every other field kept. */
  function Fixed(vals: seq<Record>, fs: seq<Option<Time>>): (r: seq<Record>)
    requires |fs| == |vals|
    ensures |r| == |vals|
    ensures forall i | 0 <= i < |vals| ::
              r[i].delta == DeltaAt(vals, fs, i) && r[i].categoryRank == Some(RankAt(fs, i))
    ensures forall i | 0 <= i < |vals| ::
              r[i].(delta := vals[i].delta, categoryRank := vals[i].categoryRank) == vals[i]
  {
    seq(|vals|, i requires 0 <= i < |vals| =>
      vals[i].(delta := DeltaAt(vals, fs, i), categoryRank := Some(RankAt(fs, i))))
  }

  /** fixRankAndDelta on one list: the fixed list, or the parse exception of a finish cell. */
  function FixList(vals: seq<Record>): (r: Result<seq<Record>, Error>)
    ensures r.Success? <==> Finishes(vals).Success?
    ensures r.Success? ==> |r.value| == |vals|
    ensures r.Failure? ==> r.error == DateTimeParse
  {
    match Finishes(vals)
    case Failure(e) => Failure(e)
    case Success(fs) => Success(Fixed(vals, fs))
  }

  /** Finishes read one more result: the finish times grow by its own. */
  lemma FinishesStep(vals: seq<Record>, i: nat, fs: seq<Option<Time>>, f: Option<Time>)
    requires i < |vals| && Finishes(vals[..i]) == Success(fs) && ParsedFinish(vals[i]) == Success(f)
    ensures Finishes(vals[..i + 1]) == Success(fs + [f])
  {
    assert vals[..i + 1][..i] == vals[..i];
  }

  /** A later finish time changes neither the rank nor the delta of an earlier result. */
  lemma FixedPrefix(vals: seq<Record>, fs: seq<Option<Time>>, f: Option<Time>, j: nat)
    requires j < |fs| < |vals|
    ensures DeltaAt(vals, fs + [f], j) == DeltaAt(vals, fs, j)
    ensures RankAt(fs + [f], j) == RankAt(fs, j)
  {
    LeaderPrefix(fs, f, j);
    assert forall l | 0 <= l < |fs| :: (fs + [f])[l] == fs[l];
  }

  /** Every result up to and including the first finisher has no delta. */
  lemma DeltaNoneUpToLeader(vals: seq<Record>, fs: seq<Option<Time>>, i: nat)
    requires Finishes(vals) == Success(fs) && i < |vals|
    requires Leader(fs, |fs|).None? || i <= Leader(fs, |fs|).value
    ensures FixList(vals).value[i].delta.None?
  {
    if Leader(fs, i).Some? {
      LeaderStable(fs, i, |fs|);
    }
  }

  /**
   * A finisher after the leader l gets its gap to the leader modulo one day
   * (an earlier finish wraps round), printed as minutes, seconds and the
   * truncated tenth (the hours are not printed).
   */
  lemma DeltaBehindLeader(vals: seq<Record>, fs: seq<Option<Time>>, l: nat, i: nat)
    requires Finishes(vals) == Success(fs) && l < i < |vals| && Leader(fs, |fs|) == Some(l)
    requires fs[i].Some?
    ensures FixList(vals).value[i].delta.Some?
    ensures ShowsMinutesSeconds(FixList(vals).value[i].delta.value, (fs[i].value as int - fs[l].value as int) % NanosPerDay)
    ensures DigitValue(FixList(vals).value[i].delta.value[6])
         == (fs[i].value as int - fs[l].value as int) % NanosPerDay % NanosPerSecond / 100_000_000
  {
    assert FixList(vals).value == Fixed(vals, fs);
    DeltaAtBehind(vals, fs, l, i);
  }

  /** The delta of a later finisher shows its gap to the leader, moved onto the clock. */
  lemma DeltaAtBehind(vals: seq<Record>, fs: seq<Option<Time>>, l: nat, i: nat)
    requires |fs| == |vals| && l < i < |vals| && Leader(fs, |vals|) == Some(l) && fs[i].Some?
    ensures DeltaAt(vals, fs, i).Some?
    ensures ShowsMinutesSeconds(DeltaAt(vals, fs, i).value, (fs[i].value as int - fs[l].value as int) % NanosPerDay)
    ensures DigitValue(DeltaAt(vals, fs, i).value[6])
         == (fs[i].value as int - fs[l].value as int) % NanosPerDay % NanosPerSecond / 100_000_000
  {
    var gap := fs[i].value as int - fs[l].value as int;
    DeltaAtGap(vals, fs, l, i, gap);
    FormatGap(gap, DeltaAt(vals, fs, i).value);
  }

  /** Past the leader, a finisher's delta is the gap to the leader printed on the clock. */
  lemma DeltaAtGap(vals: seq<Record>, fs: seq<Option<Time>>, l: nat, i: nat, gap: int)
    requires |fs| == |vals| && l < i < |vals| && Leader(fs, |vals|) == Some(l) && fs[i].Some?
    requires gap == fs[i].value as int - fs[l].value as int
    ensures DeltaAt(vals, fs, i) == Some(FormatDelta(Plus(Midnight, gap)))
  {
    LeaderFound(fs, l, i);
  }

  /** A gap of d nanoseconds, taken modulo one day, prints its minutes, seconds and tenth. */
  lemma FormatGap(d: int, s: string)
    requires s == FormatDelta(Plus(Midnight, d))
    ensures ShowsMinutesSeconds(s, d % NanosPerDay)
    ensures DigitValue(s[6]) == d % NanosPerDay % NanosPerSecond / 100_000_000
  {
    assert Plus(Midnight, d) == d % NanosPerDay;
  }

  /** Example: a finish at 10:00:00 behind a leader at 10:00:05 wraps round to 59:55.0. */
  lemma FormatGapWraps()
    ensures FormatDelta(Plus(Midnight, Of(10, 0, 0, 0) as int - Of(10, 0, 5, 0) as int)) == "59:55.0"
  {
    var t := Plus(Midnight, Of(10, 0, 0, 0) as int - Of(10, 0, 5, 0) as int);
    assert t == Of(23, 59, 55, 0);
  }

  /** Ranked results have increasing ranks down the list. */
  lemma RanksIncrease(fs: seq<Option<Time>>, i: nat, j: nat)
    requires i < j < |fs|
    requires RankAt(fs, i) != 0 && RankAt(fs, j) != 0
    ensures RankAt(fs, i) < RankAt(fs, j)
  {
  }

  /** Two results with the same finish time still get different ranks. */
  lemma TiedFinishesRankedApart(fs: seq<Option<Time>>, i: nat, j: nat)
    requires i < j < |fs| && fs[i] == fs[j] && fs[i].Some? && fs[i].value != Midnight
    ensures RankAt(fs, i) == i + 1 && RankAt(fs, j) == j + 1
  {
  }

  /** The medals, gold to bronze. */
  const Medals: seq<string> := ["\U{1F947}", "\U{1F948}", "\U{1F949}"]

  /** LSM.getMedal: the medal of a rank, if the rank is one of the first three and within the allowed count. */
  function GetMedal(rank: int, maxRankWithMedal: int): (m: string)
    ensures m != "" <==> 1 <= rank <= 3 && rank <= maxRankWithMedal
    ensures m != "" ==> m == Medals[rank - 1]
  {
    if rank > maxRankWithMedal then ""
    else if rank == 1 then Medals[0]
    else if rank == 2 then Medals[1]
    else if rank == 3 then Medals[2]
    else ""
  }

  /** Different ranks never get the same medal. */
  lemma GetMedalInjective(r1: int, r2: int, max: int)
    requires r1 != r2 && GetMedal(r1, max) != ""
    ensures GetMedal(r1, max) != GetMedal(r2, max)
  {
  }

  /**
   * LSM.getNbMedals: a championship gives three medals, or one per crew if
   * fewer; the regatta gives at most three and never to the last crew.
   */
  function GetNbMedals(participants: nat, swissChampionship: bool): (n: nat)
    ensures n <= 3 && n <= participants
    ensures swissChampionship ==> n == 3 || n == participants
    ensures !swissChampionship && participants >= 1 ==> n < participants
    ensures !swissChampionship ==> n == 3 || n + 1 == participants || participants == 0
  {
    if swissChampionship then (if participants < 3 then participants else 3)
    else
      var others := if participants > 0 then participants - 1 else 0;
      if others < 3 then others else 3
  }

  /**
   * In a fixed regatta list (not a championship) the last result never gets
   * a medal, and no medal is given twice.
   */
  lemma MedalsOfFixedList(fs: seq<Option<Time>>, swissChampionship: bool, i: nat, j: nat)
    requires i < |fs| && j < |fs| && i != j
    ensures var nb := GetNbMedals(|fs|, swissChampionship);
            && (!swissChampionship ==> GetMedal(RankAt(fs, |fs| - 1), nb) == "")
            && (GetMedal(RankAt(fs, i), nb) != "" ==>
                  GetMedal(RankAt(fs, i), nb) != GetMedal(RankAt(fs, j), nb))
  {
    var nb := GetNbMedals(|fs|, swissChampionship);
    if GetMedal(RankAt(fs, i), nb) != "" {
      GetMedalInjective(RankAt(fs, i), RankAt(fs, j), nb);
    }
  }

  /** The minute rounded to the nearest multiple of five (Math.round(minute / 5.0) * 5). */
  function RoundToFive(minute: nat): (r: nat)
    requires minute < 60
    ensures r % 5 == 0 && r <= 60
    ensures minute - 2 <= r <= minute + 2
  {
    (minute + 2) / 5 * 5
  }

  /**
   * LSM.getStartTime as written: a missing start is a placeholder, "DNS"
   * is kept; otherwise the time rounded to five minutes, "HH'h'mm". A
   * minute rounded up to 60 moves to the next hour without resetting the
   * minute.
   */
  function GetStartTime(start: Option<string>): (r: Result<string, Error>)
    ensures start.None? ==> r == Success("<startTime>")
    ensures start == Some("DNS") ==> r == Success("DNS")
    ensures start.Some? && start.value != "DNS" ==> (r.Success? <==> ParseIso(start.value).Success?)
    ensures r.Failure? ==> r.error == DateTimeParse
  {
    match start
    case None => Success("<startTime>")
    case Some(s) =>
      if s == "DNS" then Success("DNS")
      else
        match ParseIso(s)
        case Failure(e) => Failure(e)
        case Success(t) =>
          var minute := RoundToFive(Minute(t));
          if minute == 60 then Success(FormatRaceTime(PlusOneHour(t)))
          else Success(FormatRaceTime(WithMinute(t, minute)))
  }

  /**
   * Which clock time getStartTime prints for a start that parses: the
   * minute rounded to five in the same hour, or, when the minute rounds up
   * to 60, the next hour with the minute as read.
   */
  lemma GetStartTimeShows(s: string)
    requires s != "DNS" && ParseIso(s).Success?
    ensures GetStartTime(Some(s)).Success?
    ensures var t := ParseIso(s).value;
            RoundToFive(Minute(t)) < 60 ==>
              ShowsClock(GetStartTime(Some(s)).value, Hour(t) * 60 + RoundToFive(Minute(t)))
    ensures var t := ParseIso(s).value;
            RoundToFive(Minute(t)) == 60 ==>
              ShowsClock(GetStartTime(Some(s)).value, (Hour(t) + 1) % 24 * 60 + Minute(t))
  {
    var t := ParseIso(s).value;
    var minute := RoundToFive(Minute(t));
    if minute == 60 {
      assert GetStartTime(Some(s)).value == FormatRaceTime(PlusOneHour(t));
    } else {
      assert GetStartTime(Some(s)).value == FormatRaceTime(WithMinute(t, minute));
    }
  }

  /** Reading and printing "09:58" gives "10h58": the hour moves but the minute stays. */
  lemma GetStartTimeKeepsMinuteOnCarry()
    ensures GetStartTime(Some("09:58")) == Success("10h58")
  {
    assert "09:58" == TwoDigits(9) + ":" + TwoDigits(58);
    ParseIsoMinutes(9, 58);
    var t := Of(9, 58, 0, 0);
    assert RoundToFive(Minute(t)) == 60;
    var u := PlusOneHour(t);
    assert Hour(u) == 10 && Minute(u) == 58;
    assert TwoDigits(10) == "10" && TwoDigits(58) == "58";
    assert ParseIso("09:58") == Success(t);
    assert GetStartTime(Some("09:58")) == Success(FormatRaceTime(u));
    assert FormatRaceTime(u) == "10" + "h" + "58" == "10h58";
  }

  /**
   * getStartTime as intended: the start rounded to the nearest five
   * minutes, the next hour at minute 0 when the minute rounds up to 60.
   */
  function GetStartTimeRounded(start: Option<string>): (r: Result<string, Error>)
    ensures start.None? ==> r == Success("<startTime>")
    ensures start == Some("DNS") ==> r == Success("DNS")
    ensures start.Some? && start.value != "DNS" ==> (r.Success? <==> ParseIso(start.value).Success?)
    ensures r.Failure? ==> r.error == DateTimeParse
  {
    match start
    case None => Success("<startTime>")
    case Some(s) =>
      if s == "DNS" then Success("DNS")
      else
        match ParseIso(s)
        case Failure(e) => Failure(e)
        case Success(t) => Success(RoundedStart(t))
  }

  /** A parsed start time printed on the five-minute grid. */
  function RoundedStart(t: Time): string
  {
    var minute := RoundToFive(Minute(t));
    if minute == 60 then FormatRaceTime(WithMinute(PlusOneHour(t), 0))
    else FormatRaceTime(WithMinute(t, minute))
  }

  /**
   * The intended start time shows the clock time nearest to the start on
   * the five-minute grid, wrapping past midnight.
   */
  lemma GetStartTimeRoundedNearest(s: string)
    requires s != "DNS" && ParseIso(s).Success?
    ensures GetStartTimeRounded(Some(s)).Success?
    ensures ShowsClock(GetStartTimeRounded(Some(s)).value, NearestFive(ParseIso(s).value))
  {
    RoundedStartNearest(ParseIso(s).value);
  }

  /** The minute of the day nearest to t on the five-minute grid. */
  function NearestFive(t: Time): (m: nat)
    ensures m % 5 == 0 && m < 24 * 60
  {
    (Hour(t) * 60 + RoundToFive(Minute(t))) % (24 * 60)
  }

  lemma RoundedStartNearest(t: Time)
    ensures ShowsClock(RoundedStart(t), NearestFive(t))
  {
    var minute := RoundToFive(Minute(t));
    var total := Hour(t) * 60 + minute;
    if minute == 60 {
      var u := WithMinute(PlusOneHour(t), 0);
      var h := Hour(t);
      assert NearestFive(t) == Hour(u) * 60 by {
        if h == 23 {
          DivModUnique(h + 1, 24, 1, 0);
          DivModUnique(total, 24 * 60, 1, 0);
        } else {
          DivModUnique(h + 1, 24, 0, h + 1);
          DivModUnique(total, 24 * 60, 0, total);
        }
      }
      assert RoundedStart(t) == FormatRaceTime(u);
    } else {
      var u := WithMinute(t, minute);
      assert NearestFive(t) == Hour(u) * 60 + Minute(u) by {
        DivModUnique(total, 24 * 60, 0, total);
      }
      assert RoundedStart(t) == FormatRaceTime(u);
    }
  }

  /** "09:58" is shown as "10h00". */
  lemma GetStartTimeRoundedCarry()
    ensures GetStartTimeRounded(Some("09:58")) == Success("10h00")
  {
    assert "09:58" == TwoDigits(9) + ":" + TwoDigits(58);
    ParseIsoMinutes(9, 58);
    var t := Of(9, 58, 0, 0);
    assert RoundToFive(Minute(t)) == 60;
    var u := WithMinute(PlusOneHour(t), 0);
    assert Hour(u) == 10 && Minute(u) == 0;
    assert TwoDigits(10) == "10" && TwoDigits(0) == "00";
    assert ParseIso("09:58") == Success(t);
    assert GetStartTimeRounded(Some("09:58")) == Success(RoundedStart(t));
    assert RoundedStart(t) == FormatRaceTime(u);
    assert FormatRaceTime(u) == "10" + "h" + "00" == "10h00";
  }
}
