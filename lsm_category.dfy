/**
 * Léman-sur-Mer categories: a Swiss Rowing category, optionally opened to
 * everyone ("Open " prefix) and optionally counting for the Swiss
 * championship ("*" suffix).
 */
module LsmCategory {

  import opened Wrappers
  import opened JavaText
  import SwissRowing

  const OpenCategory: string := "Open "
  const SwissChampionshipCategory: string := "*"

  datatype LsmEventCategory = LsmEventCategory(
    open: bool, eventCategory: SwissRowing.EventCategory, swissChampionship: bool)

  /** "Open " when open, the Swiss Rowing code, then "*" for the championship. */
  function ToString(c: LsmEventCategory): (r: string)
    ensures StartsWith(r, OpenCategory) <==> c.open
    ensures EndsWith(r, SwissChampionshipCategory) <==> c.swissChampionship
  {
    SwissRowing.ToStringShape(c.eventCategory);
    Unwrap(c.open, SwissRowing.ToString(c.eventCategory), c.swissChampionship);
    (if c.open then OpenCategory else "")
    + SwissRowing.ToString(c.eventCategory)
    + (if c.swissChampionship then SwissChampionshipCategory else "")
  }

  /**
   * LsmEventCategory.parse: strip a leading "Open " and a trailing "*", then
   * parse what is between with the Swiss Rowing parser, whose exceptions
   * propagate.
   */
  function Parse(raw: string): (r: Result<LsmEventCategory, Error>)
    ensures r.Success? ==> r.value.open == StartsWith(raw, OpenCategory)
    ensures r.Success? ==> r.value.swissChampionship == EndsWith(raw, SwissChampionshipCategory)
    ensures r.Failure? ==> r.error == IndexOutOfBounds || r.error.IllegalArgument?
  {
    var open := StartsWith(raw, OpenCategory);
    var startIdx := if open then |OpenCategory| else 0;
    var championship := EndsWith(raw, SwissChampionshipCategory);
    var endIdx := if championship then |raw| - 1 else |raw|;
    assert open && championship ==> raw[4] == ' ' && raw[|raw| - 1] == '*';
    match SwissRowing.Parse(raw[startIdx..endIdx])
    case Failure(e) => Failure(e)
    case Success(ec) => Success(LsmEventCategory(open, ec, championship))
  }

  /**
   * The parser on any text built as optional "Open ", inner text, optional
   * "*": the Swiss Rowing parser reads exactly the inner text, its category
   * is kept and its exception propagates. The inner text may itself start
   * with "Open " or end with "*" only when that marker is also present.
   */
  lemma ParseWrapped(open: bool, inner: string, championship: bool)
    requires open || !StartsWith(inner, OpenCategory)
    requires championship || !EndsWith(inner, SwissChampionshipCategory)
    ensures Parse((if open then OpenCategory else "") + inner
                  + (if championship then SwissChampionshipCategory else ""))
         == match SwissRowing.Parse(inner)
            case Failure(e) => Failure(e)
            case Success(ec) => Success(LsmEventCategory(open, ec, championship))
  {
    var pre := if open then OpenCategory else "";
    var post := if championship then SwissChampionshipCategory else "";
    var s := pre + inner + post;
    if open {
      assert s[..5] == OpenCategory;
    } else if |s| >= 5 {
      assert s[..5] != OpenCategory by {
        if |inner| >= 5 {
          assert s[..5] == inner[..5];
        } else {
          assert championship && s[|inner|] == '*';
        }
      }
    }
    if championship {
      assert s[|s| - 1..] == "*";
    } else if |inner| >= 1 {
      assert s[|s| - 1..] == inner[|inner| - 1..];
    }
    assert s[|pre|..|s| - |post|] == inner;
  }

  /** The parser's cuts on a string built as marker, inner code, marker. */
  lemma Unwrap(open: bool, inner: string, championship: bool)
    requires |inner| >= 1 && inner[0] != 'O' && inner[|inner| - 1] != '*'
    ensures var s := (if open then OpenCategory else "") + inner
                     + (if championship then SwissChampionshipCategory else "");
      StartsWith(s, OpenCategory) == open
      && EndsWith(s, SwissChampionshipCategory) == championship
      && s[(if open then |OpenCategory| else 0)..(if championship then |s| - 1 else |s|)] == inner
  {
    var pre := if open then OpenCategory else "";
    var post := if championship then SwissChampionshipCategory else "";
    var s := pre + inner + post;
    if !open {
      assert s[0] == inner[0];
    } else {
      assert s[..5] == OpenCategory;
    }
    if !championship {
      assert s[|s| - 1] == inner[|inner| - 1];
    } else {
      assert s[|s| - 1..] == "*";
    }
    assert s[|pre|..|s| - |post|] == inner;
  }

  /**
   * Printing then parsing gives the category back whenever the Swiss Rowing
   * part has a one-digit rower count: the inner code never starts with
   * "Open " and never ends with "*", so the markers are read back unambiguously.
   */
  lemma ParseToString(c: LsmEventCategory)
    requires 0 <= c.eventCategory.rowers <= 9
    ensures Parse(ToString(c)) == Success(c)
  {
    var inner := SwissRowing.ToString(c.eventCategory);
    SwissRowing.ToStringShape(c.eventCategory);
    SwissRowing.ParseToString(c.eventCategory);
    Unwrap(c.open, inner, c.swissChampionship);
  }

  /** Removing '*' from marker, inner code, marker, when the inner code has none. */
  lemma RemoveStarWrapped(pre: string, inner: string, championship: bool)
    requires forall i | 0 <= i < |pre| :: pre[i] != '*'
    requires forall i | 0 <= i < |inner| :: inner[i] != '*'
    ensures RemoveChar(pre + inner + (if championship then SwissChampionshipCategory else ""), '*')
         == pre + inner
  {
    var post := if championship then SwissChampionshipCategory else "";
    RemoveAbsentChar(pre + inner, '*');
    RemoveCharConcat(pre + inner, post, '*');
    assert RemoveChar(post, '*') == [] by {
      if championship {
        assert post[..0] == [];
      }
    }
  }

  /**
   * The standard (non-championship) code of a category is its printed code
   * with every '*' removed.
   */
  lemma StandardCodeRemovesStar(c: LsmEventCategory)
    ensures RemoveChar(ToString(c), '*') == ToString(c.(swissChampionship := false))
  {
    var inner := SwissRowing.ToString(c.eventCategory);
    var pre := if c.open then OpenCategory else "";
    SwissRowing.ToStringHasNoStar(c.eventCategory);
    RemoveStarWrapped(pre, inner, c.swissChampionship);
    assert ToString(c.(swissChampionship := false)) == pre + inner + "";
  }

  /** The unit-test examples of the parser. */
  lemma ParseExampleChampionship()
    ensures Parse("MMix C4x+*") == Success(LsmEventCategory(false,
      SwissRowing.EventCategory(SwissRowing.Master, SwissRowing.Mixed, SwissRowing.Coastal, 4,
        SwissRowing.DoubleScull, true), true))
  {
    var c := LsmEventCategory(false,
      SwissRowing.EventCategory(SwissRowing.Master, SwissRowing.Mixed, SwissRowing.Coastal, 4,
        SwissRowing.DoubleScull, true), true);
    SwissRowing.SingleDigitToString(4);
    assert SwissRowing.ToString(c.eventCategory) == "MMix C4x+";
    assert ToString(c) == "MMix C4x+*";
    ParseToString(c);
  }

  lemma ParseExampleOpen()
    ensures Parse("Open W 8+") == Success(LsmEventCategory(true,
      SwissRowing.EventCategory(SwissRowing.Senior, SwissRowing.Women, SwissRowing.Classic, 8,
        SwissRowing.SingleScull, true), false))
  {
    var c := LsmEventCategory(true,
      SwissRowing.EventCategory(SwissRowing.Senior, SwissRowing.Women, SwissRowing.Classic, 8,
        SwissRowing.SingleScull, true), false);
    SwissRowing.SingleDigitToString(8);
    assert SwissRowing.ToString(c.eventCategory) == "W 8+";
    assert ToString(c) == "Open W 8+";
    ParseToString(c);
  }

  /** An error of the inner parser propagates: an eight without cox marker. */
  lemma ParseExampleW8Rejected()
    ensures Parse("W 8") == Failure(IllegalArgument("coxwain"))
  {
    SwissRowing.ParseExampleW8Rejected();
    assert !StartsWith("W 8", OpenCategory);
    assert !EndsWith("W 8", SwissChampionshipCategory);
    assert "W 8"[0..3] == "W 8";
  }

  /**
   * LsmEventCategory.EXPECTED_SPEED_COMPARATOR, as a sign: the Swiss Rowing
   * expected-speed order, then championship categories before the others.
   */
  function CompareBySpeed(a: LsmEventCategory, b: LsmEventCategory): (r: int)
    ensures -1 <= r <= 1
    ensures r < 0 <==> SwissRowing.CompareBySpeed(a.eventCategory, b.eventCategory) < 0
                       || (SwissRowing.CompareBySpeed(a.eventCategory, b.eventCategory) == 0
                           && a.swissChampionship && !b.swissChampionship)
  {
    var byCategory := SwissRowing.CompareBySpeed(a.eventCategory, b.eventCategory);
    if byCategory != 0 then byCategory
    else if a.swissChampionship == b.swissChampionship then 0
    else if a.swissChampionship then -1 else 1
  }

  /** Only the crew size, the sex category and the championship flag take part in the order. */
  lemma CompareBySpeedZero(a: LsmEventCategory, b: LsmEventCategory)
    ensures CompareBySpeed(a, b) == 0
        <==> a.eventCategory.rowers == b.eventCategory.rowers
             && a.eventCategory.sex == b.eventCategory.sex
             && a.swissChampionship == b.swissChampionship
  {
  }

  lemma CompareBySpeedAntisymmetric(a: LsmEventCategory, b: LsmEventCategory)
    ensures CompareBySpeed(a, b) == -CompareBySpeed(b, a)
  {
    SwissRowing.CompareBySpeedAntisymmetric(a.eventCategory, b.eventCategory);
  }

  lemma CompareBySpeedTransitive(a: LsmEventCategory, b: LsmEventCategory, c: LsmEventCategory)
    requires CompareBySpeed(a, b) <= 0 && CompareBySpeed(b, c) <= 0
    ensures CompareBySpeed(a, c) <= 0
  {
    var x, y, z := a.eventCategory, b.eventCategory, c.eventCategory;
    SwissRowing.CompareBySpeedAntisymmetric(x, y);
    SwissRowing.CompareBySpeedAntisymmetric(y, z);
    SwissRowing.CompareBySpeedAntisymmetric(x, z);
    SwissRowing.CompareBySpeedTransitive(x, y, z);
    if SwissRowing.CompareBySpeed(x, z) == 0 {
      SwissRowing.CompareBySpeedTransitive(z, x, y);
      SwissRowing.CompareBySpeedTransitive(y, z, x);
    }
  }
}
