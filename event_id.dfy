/**
 * Event identifiers of the CrewTimer export: an optional race marker (an
 * emoji naming one of the Léman-sur-Mer races) and an event number. The
 * race table, the parser, the printer and the comparator of EventId.
 */
module EventIds {

  import opened Wrappers
  import opened JavaText

  /** EventId.Race, in declaration order (the order matters for sorting). */
  datatype Race =
    | Anemone | BernardLhermite | Calamar | Dorade | EtoileDeMer | EtoileDeMerB
    | Lamantin | Ecrevisse | Manchot | Anchois | Narval | NarvalB

  const Races: seq<Race> := [Anemone, BernardLhermite, Calamar, Dorade, EtoileDeMer, EtoileDeMerB,
                             Lamantin, Ecrevisse, Manchot, Anchois, Narval, NarvalB]

  /** LSM.currentYear: only the races of this year are recognised. */
  const CurrentYear: int := 2024

  /** Position of a race in the declaration order (Enum.ordinal). */
  function Ordinal(r: Race): (n: nat)
    ensures n < |Races| && Races[n] == r
  {
    match r
    case Anemone => 0 case BernardLhermite => 1 case Calamar => 2 case Dorade => 3
    case EtoileDeMer => 4 case EtoileDeMerB => 5 case Lamantin => 6 case Ecrevisse => 7
    case Manchot => 8 case Anchois => 9 case Narval => 10 case NarvalB => 11
  }

  /** The race marker as it appears in the event number column. */
  function Emoji(r: Race): string
  {
    match r
    case Anemone => "\U{1FAB8}"
    case BernardLhermite => "\U{1F41A}"
    case Calamar => "\U{1F991}"
    case Dorade => "\U{1F41F}"
    case EtoileDeMer => "\U{2B50}"
    case EtoileDeMerB => "\U{2B50}\U{2B50}"
    case Lamantin => "\U{1F9AD}"
    case Ecrevisse => "\U{1F99E}"
    case Manchot => "\U{1F427}"
    case Anchois => "\U{1F41F}"
    case Narval => "\U{1F984}"
    case NarvalB => "\U{1F984}\U{1F984}"
  }

  /** The edition a race belongs to (the Race "order" field). */
  function Year(r: Race): int
  {
    if Ordinal(r) < 6 then 2023 else 2024
  }

  /** No race has a blank marker, so the enum constructor's check never throws. */
  lemma EmojiNotBlank(r: Race)
    ensures !IsBlank(Some(Emoji(r)))
  {
    assert !IsJavaWhitespace(Emoji(r)[0]);
  }

  /**
   * Within the current year no two races share a marker, so the reverse
   * index (Maps.uniqueIndex) never throws and the lookup is unambiguous.
   */
  lemma CurrentYearEmojiUnique(r1: Race, r2: Race)
    requires Year(r1) == CurrentYear && Year(r2) == CurrentYear
    requires Emoji(r1) == Emoji(r2)
    ensures r1 == r2
  {
    assert Emoji(r1)[0] == Emoji(r2)[0];
    assert |Emoji(r1)| == |Emoji(r2)|;
  }

  /** Across years a marker is reused (the fish), which is why the lookup filters by year. */
  lemma MarkerReusedAcrossYears()
    ensures Emoji(Dorade) == Emoji(Anchois) && Year(Dorade) != Year(Anchois)
  {
  }

  /** The first race of the current year in rs carrying marker s. */
  function Lookup(rs: seq<Race>, s: string): (r: Option<Race>)
    ensures r.Some? ==> r.value in rs && Emoji(r.value) == s && Year(r.value) == CurrentYear
    ensures r.None? ==> forall i | 0 <= i < |rs| :: !(Emoji(rs[i]) == s && Year(rs[i]) == CurrentYear)
  {
    if rs == [] then None
    else if Emoji(rs[0]) == s && Year(rs[0]) == CurrentYear then Some(rs[0])
    else Lookup(rs[1..], s)
  }

  /**
   * Race.fromEmoji: no marker gives no race; a marker of a race of the
   * current year gives that race; any other marker is rejected.
   */
  function FromEmoji(emoji: Option<string>): (r: Result<Option<Race>, Error>)
    ensures emoji.None? ==> r == Success(None)
    ensures emoji.Some? && r.Success? ==>
      r.value.Some? && Emoji(r.value.value) == emoji.value && Year(r.value.value) == CurrentYear
    ensures r.Failure? ==> emoji.Some? && r.error == IllegalArgument("emoji")
  {
    match emoji
    case None => Success(None)
    case Some(s) =>
      match Lookup(Races, s)
      case None => Failure(IllegalArgument("emoji"))
      case Some(race) => Success(Some(race))
  }

  /** Every race of the current year is found back from its marker. */
  lemma FromEmojiOfEmoji(race: Race)
    requires Year(race) == CurrentYear
    ensures FromEmoji(Some(Emoji(race))) == Success(Some(race))
  {
    var r := FromEmoji(Some(Emoji(race)));
    assert Races[Ordinal(race)] == race;
    if r.Success? {
      CurrentYearEmojiUnique(r.value.value, race);
    }
  }

  /** A marker of an earlier year only is rejected. */
  lemma FromEmojiRejectsOldMarker()
    ensures FromEmoji(Some(Emoji(EtoileDeMer))) == Failure(IllegalArgument("emoji"))
  {
    var r := Lookup(Races, Emoji(EtoileDeMer));
    if r.Some? {
      CurrentYearMarkerNotStar(r.value);
    }
  }

  lemma CurrentYearMarkerNotStar(race: Race)
    requires Year(race) == CurrentYear
    ensures Emoji(race) != Emoji(EtoileDeMer)
  {
    assert Emoji(race)[0] != '\U{2B50}';
  }

  /** EventId: the race marker (absent in the 2022 format) and the event number. */
  datatype EventId = EventId(emoji: Option<string>, id: int)

  /**
   * The text of "(.+) (\d+)" matched with the marker group ending at p: a
   * non-empty marker without line terminators, a space, then at least one
   * ASCII digit up to the end.
   */
  predicate MarkerSplit(raw: string, p: int)
  {
    0 < p < |raw| - 1 && raw[p] == ' ' && NoLineTerminator(raw[..p]) && AllAsciiDigits(raw[p + 1..])
  }

  /** Since the number has no space, the marker group always ends at the last space. */
  lemma MarkerSplitAtLastSpace(raw: string, p: int)
    requires MarkerSplit(raw, p)
    ensures LastIndexOf(raw, ' ') == Some(p)
  {
    var r := LastIndexOf(raw, ' ');
    assert r.Some?;
    assert forall j | p < j < |raw| :: raw[j] == raw[p + 1..][j - p - 1];
  }

  /**
   * EventId.from: the whole text is digits ("(\d+)"), giving no marker;
   * or it is "(.+) (\d+)", giving the greedy marker and the number; any
   * other text throws RuntimeException. Integer.parseInt rejects a number
   * beyond the int range.
   */
  function From(raw: string): (r: Result<EventId, Error>)
    ensures r.Success? ==> 0 <= r.value.id <= MaxInt
    ensures r.Success? && r.value.emoji.Some? ==>
      |r.value.emoji.value| >= 1 && NoLineTerminator(r.value.emoji.value)
  {
    if raw != [] && AllAsciiDigits(raw) then
      match ParseInt(raw)
      case Failure(e) => Failure(e)
      case Success(n) => Success(EventId(None, n))
    else
      match LastIndexOf(raw, ' ')
      case None => Failure(Runtime("eventId"))
      case Some(p) =>
        if MarkerSplit(raw, p) then
          match ParseInt(raw[p + 1..])
          case Failure(e) => Failure(e)
          case Success(n) => Success(EventId(Some(raw[..p]), n))
        else Failure(Runtime("eventId"))
  }

  /** An all-digit number is an event of the 2022 format, without marker. */
  lemma FromDigits(raw: string)
    requires raw != [] && AllAsciiDigits(raw)
    ensures From(raw) == if DigitsValue(raw) <= MaxInt then Success(EventId(None, DigitsValue(raw)))
                         else Failure(NumberFormat)
  {
    ParseIntDigits(raw);
  }

  /** A marker, a space and digits: the marker is everything before that space. */
  lemma FromMarker(raw: string, p: int)
    requires MarkerSplit(raw, p)
    ensures From(raw) == if DigitsValue(raw[p + 1..]) <= MaxInt
                         then Success(EventId(Some(raw[..p]), DigitsValue(raw[p + 1..])))
                         else Failure(NumberFormat)
  {
    assert !AllAsciiDigits(raw) by {
      assert !IsAsciiDigit(raw[p]);
    }
    MarkerSplitAtLastSpace(raw, p);
    ParseIntDigits(raw[p + 1..]);
  }

  /** Text matching neither pattern throws RuntimeException. */
  lemma FromRejects(raw: string)
    requires !(raw != [] && AllAsciiDigits(raw))
    requires forall p | 0 <= p < |raw| :: !MarkerSplit(raw, p)
    ensures From(raw) == Failure(Runtime("eventId"))
  {
  }

  /** EventId.toString: "marker id", or just the id without a marker. */
  function ToString(e: EventId): (r: string)
    ensures EndsWith(r, IntToString(e.id))
    ensures e.emoji.None? ==> r == IntToString(e.id)
    ensures e.emoji.Some? ==> StartsWith(r, e.emoji.value + " ")
  {
    EndsWithConcat((match e.emoji case None => "" case Some(m) => m + " "), IntToString(e.id));
    StartsWithConcat((match e.emoji case None => "" case Some(m) => m + " "), IntToString(e.id));
    (match e.emoji case None => "" case Some(m) => m + " ") + IntToString(e.id)
  }

  /**
   * Printing then parsing gives the identifier back when the number is a
   * non-negative int and the marker is absent or a non-empty text without
   * line terminators.
   */
  lemma FromToString(e: EventId)
    requires 0 <= e.id <= MaxInt
    requires e.emoji.Some? ==> |e.emoji.value| >= 1 && NoLineTerminator(e.emoji.value)
    ensures From(ToString(e)) == Success(e)
  {
    var digits := NatToString(e.id);
    DigitsValueOfNatToString(e.id);
    match e.emoji
    case None =>
      assert ToString(e) == digits;
      FromDigits(digits);
    case Some(m) =>
      var raw := m + " " + digits;
      assert raw[..|m|] == m && raw[|m| + 1..] == digits;
      assert MarkerSplit(raw, |m|);
      FromMarker(raw, |m|);
  }

  /** What From accepts, printed back, parses to the same identifier. */
  lemma FromIsStable(raw: string)
    requires From(raw).Success?
    ensures From(ToString(From(raw).value)) == From(raw)
  {
    FromToString(From(raw).value);
  }

  /** A test vector: the marker with a space inside is kept whole. */
  lemma FromExampleSpacedMarker()
    ensures From("\U{1F9AD} B 12") == Success(EventId(Some("\U{1F9AD} B"), 12))
  {
    var e := EventId(Some("\U{1F9AD} B"), 12);
    assert NoLineTerminator("\U{1F9AD} B");
    assert IntToString(12) == "12";
    assert ToString(e) == "\U{1F9AD} B 12";
    FromToString(e);
  }

  /** Rank of a race key under nullsFirst(naturalOrder()): no race first, then declaration order. */
  function RaceRank(r: Option<Race>): nat
  {
    match r case None => 0 case Some(race) => Ordinal(race) + 1
  }

  /** The marker is one the comparator accepts. */
  predicate Known(e: EventId)
  {
    FromEmoji(e.emoji).Success?
  }

  /**
   * EventId.COMPARATOR, as a sign: the races of both markers (a lookup
   * that throws on an unknown marker), no race first, then declaration
   * order, then the event number.
   */
  function Compare(a: EventId, b: EventId): (r: Result<int, Error>)
    ensures r.Success? <==> Known(a) && Known(b)
    ensures r.Failure? ==> r.error == IllegalArgument("emoji")
    ensures r.Success? ==> -1 <= r.value <= 1
  {
    match FromEmoji(a.emoji)
    case Failure(e) => Failure(e)
    case Success(ra) =>
      match FromEmoji(b.emoji)
      case Failure(e) => Failure(e)
      case Success(rb) =>
        if RaceRank(ra) != RaceRank(rb) then Success(Sign(RaceRank(ra) - RaceRank(rb)))
        else Success(Sign(a.id - b.id))
  }

  /**
   * The race rank of any identifier, with every unknown marker after all
   * races: a total extension of the comparator's first key, used where a
   * total order is needed for the reference sort.
   */
  function TotalRank(e: EventId): nat
  {
    match FromEmoji(e.emoji)
    case Success(r) => RaceRank(r)
    case Failure(_) => |Races| + 1
  }

  function CompareTotal(a: EventId, b: EventId): (r: int)
    ensures -1 <= r <= 1
  {
    if TotalRank(a) != TotalRank(b) then Sign(TotalRank(a) - TotalRank(b)) else Sign(a.id - b.id)
  }

  /** On known markers the comparator is the total one. */
  lemma CompareIsTotal(a: EventId, b: EventId)
    requires Known(a) && Known(b)
    ensures Compare(a, b) == Success(CompareTotal(a, b))
  {
  }

  /** No marker sorts before any race. */
  lemma CompareNullFirst(a: EventId, b: EventId)
    requires a.emoji.None? && b.emoji.Some? && Known(b)
    ensures Compare(a, b) == Success(-1)
  {
  }

  /** Different races sort by declaration order, whatever the numbers. */
  lemma CompareByRace(a: EventId, b: EventId, ra: Race, rb: Race)
    requires FromEmoji(a.emoji) == Success(Some(ra)) && FromEmoji(b.emoji) == Success(Some(rb))
    requires ra != rb
    ensures Compare(a, b) == Success(if Ordinal(ra) < Ordinal(rb) then -1 else 1)
  {
    assert Races[Ordinal(ra)] == ra && Races[Ordinal(rb)] == rb;
  }

  /** Known identifiers compare equal exactly when they are equal. */
  lemma CompareZero(a: EventId, b: EventId)
    requires Known(a) && Known(b)
    ensures Compare(a, b) == Success(0) <==> a == b
  {
    if Compare(a, b) == Success(0) {
      var ra, rb := FromEmoji(a.emoji).value, FromEmoji(b.emoji).value;
      assert RaceRank(ra) == RaceRank(rb);
      if ra.Some? {
        assert Races[Ordinal(ra.value)] == ra.value && Races[Ordinal(rb.value)] == rb.value;
      }
    }
  }

  lemma CompareTotalAntisymmetric(a: EventId, b: EventId)
    ensures CompareTotal(a, b) == -CompareTotal(b, a)
  {
  }

  lemma CompareTotalTransitive(a: EventId, b: EventId, c: EventId)
    requires CompareTotal(a, b) <= 0 && CompareTotal(b, c) <= 0
    ensures CompareTotal(a, c) <= 0
  {
  }

  /** Zero of the total comparator: same race rank and same number. */
  lemma CompareTotalZero(a: EventId, b: EventId)
    ensures CompareTotal(a, b) == 0 <==> TotalRank(a) == TotalRank(b) && a.id == b.id
  {
  }

  lemma CompareAntisymmetric(a: EventId, b: EventId)
    requires Known(a) && Known(b)
    ensures Compare(a, b).value == -Compare(b, a).value
  {
  }

  lemma CompareTransitive(a: EventId, b: EventId, c: EventId)
    requires Known(a) && Known(b) && Known(c)
    requires Compare(a, b).value <= 0 && Compare(b, c).value <= 0
    ensures Compare(a, c).value <= 0
  {
    CompareIsTotal(a, b);
    CompareIsTotal(b, c);
    CompareIsTotal(a, c);
    CompareTotalTransitive(a, b, c);
  }
}
