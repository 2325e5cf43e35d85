/**
 * Swiss Rowing event categories: the four code tables, the category record,
 * its printed code (for example "MMix C4x+") and the right-to-left parser.
 */
module SwissRowing {

  import opened Wrappers
  import opened JavaText

  /** Age category; the prefix is printed before the sex code. */
  datatype AgeCategory = Senior | U19 | Master

  function AgePrefix(a: AgeCategory): string
  {
    match a
    case Senior => ""
    case U19 => "U19"
    case Master => "M"
  }

  /** Declaration order of the age categories. */
  const Ages: seq<AgeCategory> := [Senior, U19, Master]

  /** Sex category, declared by decreasing expected speed. */
  datatype SexCategory = Men | Mixed | Women

  function SexCode(x: SexCategory): string
  {
    match x
    case Men => "M"
    case Mixed => "Mix"
    case Women => "W"
  }

  /** Position in the declaration order, which is the enum's natural order. */
  function SexOrdinal(x: SexCategory): nat
  {
    match x
    case Men => 0
    case Mixed => 1
    case Women => 2
  }

  const Sexes: seq<SexCategory> := [Men, Mixed, Women]

  /** Rowing category. */
  datatype RowingCategory = Classic | Coastal

  function RowingCode(c: RowingCategory): string
  {
    match c
    case Classic => ""
    case Coastal => "C"
  }

  /** The rowing code together with the space that precedes it in a category code. */
  function SpacedRowingCode(c: RowingCategory): string
  {
    " " + RowingCode(c)
  }

  const Rowings: seq<RowingCategory> := [Classic, Coastal]

  /** Oar category: sweep ("") or sculling ("x"). */
  datatype OarCategory = SingleScull | DoubleScull

  function OarCode(o: OarCategory): string
  {
    match o
    case SingleScull => ""
    case DoubleScull => "x"
  }

  const Oars: seq<OarCategory> := [SingleScull, DoubleScull]

  /** A boat class; rowers is a Java int and is not range-checked by the record. */
  datatype EventCategory = EventCategory(
    age: AgeCategory, sex: SexCategory, rowing: RowingCategory,
    rowers: int, oar: OarCategory, coxed: bool)

  /**
   * The category code: age prefix, sex code, a space, rowing code, rower
   * count, oar code, then '+' when coxed or '-' for an uncoxed eight.
   */
  function ToString(c: EventCategory): (r: string)
    ensures StartsWith(r, AgePrefix(c.age) + SexCode(c.sex) + " ")
    ensures |r| >= 1 && (r[|r| - 1] == '+' <==> c.coxed)
    ensures r[|r| - 1] == '-' <==> !c.coxed && c.rowers == 8
  {
    StartsWithConcat(AgePrefix(c.age) + SexCode(c.sex) + " ",
                     RowingCode(c.rowing) + IntToString(c.rowers) + OarCode(c.oar) + CoxMarker(c));
    assert AgePrefix(c.age) + SexCode(c.sex) + " " + RowingCode(c.rowing)
           + IntToString(c.rowers) + OarCode(c.oar) + CoxMarker(c)
        == (AgePrefix(c.age) + SexCode(c.sex) + " ")
           + (RowingCode(c.rowing) + IntToString(c.rowers) + OarCode(c.oar) + CoxMarker(c));
    AgePrefix(c.age) + SexCode(c.sex) + " " + RowingCode(c.rowing)
    + IntToString(c.rowers) + OarCode(c.oar) + CoxMarker(c)
  }

  /** '+' when coxed, '-' for an uncoxed eight, nothing otherwise. */
  function CoxMarker(c: EventCategory): string
  {
    if c.coxed then "+" else if c.rowers == 8 then "-" else ""
  }

  /**
   * The candidate tried first when scanning cands from the last one to the
   * first, keeping the first whose code ends s.
   */
  function LastMatch<E>(cands: seq<E>, code: E -> string, s: string): (r: Option<E>)
    ensures r.Some? ==> EndsWith(s, code(r.value))
    ensures r.None? <==> forall i | 0 <= i < |cands| :: !EndsWith(s, code(cands[i]))
  {
    if cands == [] then None
    else if EndsWith(s, code(cands[|cands| - 1])) then Some(cands[|cands| - 1])
    else
      LastMatch(cands[..|cands| - 1], code, s)
  }

  /** The same scan in declaration order, from the first candidate to the last. */
  function FirstMatch<E>(cands: seq<E>, code: E -> string, s: string): (r: Option<E>)
    ensures r.Some? ==> EndsWith(s, code(r.value))
    ensures r.None? <==> forall i | 0 <= i < |cands| :: !EndsWith(s, code(cands[i]))
  {
    if cands == [] then None
    else if EndsWith(s, code(cands[0])) then Some(cands[0])
    else
      FirstMatch(cands[1..], code, s)
  }

  /**
   * EventCategory.parse. The string is consumed from its end: the cox
   * marker, the oar code, one character read as the rower count, the rowing
   * code with its space, the sex code and the age prefix. Each stage below
   * receives what the earlier stages left of the string; a missing or
   * unknown cox marker is recorded as coxwain ' '.
   */
  function Parse(raw: string): (r: Result<EventCategory, Error>)
    ensures raw == [] ==> r == Failure(IndexOutOfBounds)
    ensures r.Failure? ==> r.error == IndexOutOfBounds || r.error.IllegalArgument?
    ensures r.Success? ==> (r.value.coxed <==> raw[|raw| - 1] == '+')
    ensures r.Success? && r.value.rowers == 8 && !r.value.coxed ==> raw[|raw| - 1] == '-'
  {
    if raw == [] then Failure(IndexOutOfBounds)
    else
      var coxwain := raw[|raw| - 1];
      if coxwain == '+' || coxwain == '-' then ParseOar(raw[..|raw| - 1], coxwain)
      else ParseOar(raw, ' ')
  }

  function ParseOar(s: string, coxwain: char): (r: Result<EventCategory, Error>)
    ensures r.Failure? ==> r.error == IndexOutOfBounds || r.error.IllegalArgument?
    ensures r.Success? ==> r.value.coxed == (coxwain == '+') && !(coxwain == ' ' && r.value.rowers == 8)
  {
    match LastMatch(Oars, OarCode, s)
    case None => Failure(IllegalArgument("oar"))
    case Some(oar) => ParseRowers(s[..|s| - |OarCode(oar)|], coxwain, oar)
  }

  /**
   * Reads the rower count from the last character, digit or not. The
   * category built here still holds Senior, Men and Classic in the fields
   * that the later stages read and overwrite.
   *
   * Java strings are UTF-16: a character outside the Basic Multilingual
   * Plane is two units, the rower count is read from the second one (never
   * 8), and the rowing stage then looks at a text ending with the first
   * one, which no rowing code ends with.
   */
  function ParseRowers(s: string, coxwain: char, oar: OarCategory): (r: Result<EventCategory, Error>)
    ensures r.Failure? ==> r.error == IndexOutOfBounds || r.error.IllegalArgument?
    ensures r.Success? ==>
              r.value.oar == oar && r.value.coxed == (coxwain == '+') && !(coxwain == ' ' && r.value.rowers == 8)
  {
    if s == [] then Failure(IndexOutOfBounds)
    else if !InBmp(s[|s| - 1]) then Failure(IllegalArgument("rowing"))
    else
      var rowers := DigitValue(s[|s| - 1]);
      if coxwain == ' ' && rowers == 8 then Failure(IllegalArgument("coxwain"))
      else ParseRowing(s[..|s| - 1], EventCategory(Senior, Men, Classic, rowers, oar, coxwain == '+'))
  }

  /** A character that is a single UTF-16 unit. */
  predicate InBmp(ch: char)
  {
    ch as int < 0x1_0000
  }

  function ParseRowing(s: string, c: EventCategory): (r: Result<EventCategory, Error>)
    ensures r.Failure? ==> r.error.IllegalArgument?
    ensures r.Success? ==> r.value.rowers == c.rowers && r.value.oar == c.oar && r.value.coxed == c.coxed
  {
    match LastMatch(Rowings, SpacedRowingCode, s)
    case None => Failure(IllegalArgument("rowing"))
    case Some(rowing) => ParseSex(s[..|s| - |SpacedRowingCode(rowing)|], c.(rowing := rowing))
  }

  function ParseSex(s: string, c: EventCategory): (r: Result<EventCategory, Error>)
    ensures r.Failure? ==> r.error.IllegalArgument?
    ensures r.Success? ==> r.value.rowers == c.rowers && r.value.oar == c.oar && r.value.coxed == c.coxed
  {
    match FirstMatch(Sexes, SexCode, s)
    case None => Failure(IllegalArgument("sex"))
    case Some(sex) => ParseAge(s[..|s| - |SexCode(sex)|], c.(sex := sex))
  }

  /** The age prefix must be all that is left. */
  function ParseAge(s: string, c: EventCategory): (r: Result<EventCategory, Error>)
    ensures r.Failure? ==> r.error.IllegalArgument?
    ensures r.Success? ==> r.value == c.(age := r.value.age)
  {
    match LastMatch(Ages, AgePrefix, s)
    case None => Failure(IllegalArgument("age"))
    case Some(age) =>
      if |s| != |AgePrefix(age)| then Failure(IllegalArgument("unparsed"))
      else Success(c.(age := age))
  }

  /** The candidate loop of the parser, from the last candidate down to the first. */
  method SearchFromLast<E>(cands: seq<E>, code: E -> string, s: string) returns (found: Option<E>)
    ensures found == LastMatch(cands, code, s)
  {
    var i := |cands|;
    found := None;
    assert cands[..i] == cands;
    while i > 0
      invariant 0 <= i <= |cands|
      invariant LastMatch(cands, code, s) == LastMatch(cands[..i], code, s)
      decreases i
    {
      if EndsWith(s, code(cands[i - 1])) {
        found := Some(cands[i - 1]);
        assert cands[..i][i - 1] == cands[i - 1];
        return;
      }
      assert cands[..i][..i - 1] == cands[..i - 1];
      i := i - 1;
    }
  }

  /** The candidate loop of the parser in declaration order. */
  method SearchFromFirst<E>(cands: seq<E>, code: E -> string, s: string) returns (found: Option<E>)
    ensures found == FirstMatch(cands, code, s)
  {
    var i := 0;
    found := None;
    while i < |cands|
      invariant 0 <= i <= |cands|
      invariant FirstMatch(cands, code, s) == FirstMatch(cands[i..], code, s)
      decreases |cands| - i
    {
      if EndsWith(s, code(cands[i])) {
        found := Some(cands[i]);
        return;
      }
      assert cands[i..][1..] == cands[i + 1..];
      i := i + 1;
    }
  }

  /** An empty code ends every string, so a table holding one always matches. */
  lemma OarAlwaysFound(s: string)
    ensures LastMatch(Oars, OarCode, s).Some?
  {
    OarMatch(s);
  }

  lemma AgeAlwaysFound(s: string)
    ensures LastMatch(Ages, AgePrefix, s).Some?
  {
    AgeMatch(s);
  }

  /**
   * EventCategory.parse as written: the same decrements of one end index
   * over raw and the same candidate loops.
   */
  method ParseScan(raw: string) returns (r: Result<EventCategory, Error>)
    ensures r == Parse(raw)
  {
    var endIdx := |raw|;
    if endIdx == 0 {
      return Failure(IndexOutOfBounds);
    }
    var coxed: bool;
    var coxwain := raw[endIdx - 1];
    if coxwain == '+' {
      coxed := true;
      endIdx := endIdx - 1;
    } else if coxwain == '-' {
      coxed := false;
      endIdx := endIdx - 1;
    } else {
      coxwain := ' ';
      coxed := false;
      assert raw[..endIdx] == raw;
    }
    assert Parse(raw) == ParseOar(raw[..endIdx], coxwain);
    r := ScanOarAndRowers(raw, endIdx, coxwain, coxed);
  }

  /**
   * The middle of ParseScan: the oar loop over raw[..endIdx] and the rower
   * character before the oar code.
   */
  method ScanOarAndRowers(raw: string, endIdx: nat, coxwain: char, coxed: bool)
    returns (r: Result<EventCategory, Error>)
    requires endIdx <= |raw| && coxed == (coxwain == '+')
    ensures r == ParseOar(raw[..endIdx], coxwain)
  {
    var endIdx := endIdx;
    // oar: the null check of the source can never fire, SingleScull's code being empty
    OarAlwaysFound(raw[..endIdx]);
    var oarFound := SearchFromLast(Oars, OarCode, raw[..endIdx]);
    var oar := oarFound.value;
    ghost var before := endIdx;
    endIdx := endIdx - |OarCode(oar)|;
    assert raw[..before][..endIdx] == raw[..endIdx];
    ghost var expected := ParseRowers(raw[..endIdx], coxwain, oar);
    // rowers
    if endIdx == 0 {
      return Failure(IndexOutOfBounds);
    }
    endIdx := endIdx - 1;
    assert raw[..endIdx + 1][..endIdx] == raw[..endIdx] && raw[..endIdx + 1][endIdx] == raw[endIdx];
    // a character outside the BMP: its second UTF-16 unit is read, then the rowing loop fails
    if !InBmp(raw[endIdx]) {
      return Failure(IllegalArgument("rowing"));
    }
    var rowers := DigitValue(raw[endIdx]);
    if coxwain == ' ' && rowers == 8 {
      return Failure(IllegalArgument("coxwain"));
    }
    r := ScanCodes(raw, endIdx, EventCategory(Senior, Men, Classic, rowers, oar, coxed));
  }

  /**
   * The second half of ParseScan: the rowing loop over raw[..endIdx], then
   * the sex and age loops on what precedes the rowing code.
   */
  method ScanCodes(raw: string, endIdx: nat, c: EventCategory) returns (r: Result<EventCategory, Error>)
    requires endIdx <= |raw|
    ensures r == ParseRowing(raw[..endIdx], c)
  {
    // rowing, with the space before it
    var rowing := SearchFromLast(Rowings, SpacedRowingCode, raw[..endIdx]);
    if rowing.None? {
      return Failure(IllegalArgument("rowing"));
    }
    var rest := endIdx - |SpacedRowingCode(rowing.value)|;
    PrefixOfPrefix(raw, endIdx, rest);
    r := ScanSexAndAge(raw, rest, c.(rowing := rowing.value));
  }

  /** The sex loop over raw[..endIdx]; the age stage follows on what precedes the sex code. */
  method ScanSexAndAge(raw: string, endIdx: nat, c: EventCategory) returns (r: Result<EventCategory, Error>)
    requires endIdx <= |raw|
    ensures r == ParseSex(raw[..endIdx], c)
  {
    var sex := SearchFromFirst(Sexes, SexCode, raw[..endIdx]);
    if sex.None? {
      return Failure(IllegalArgument("sex"));
    }
    var rest := endIdx - |SexCode(sex.value)|;
    PrefixOfPrefix(raw, endIdx, rest);
    r := ScanAge(raw, rest, c.(sex := sex.value));
  }

  /** The age loop over raw[..endIdx], and the check that nothing is left. */
  method ScanAge(raw: string, endIdx: nat, c: EventCategory) returns (r: Result<EventCategory, Error>)
    requires endIdx <= |raw|
    ensures r == ParseAge(raw[..endIdx], c)
  {
    // as for the oar, the null check can never fire
    AgeAlwaysFound(raw[..endIdx]);
    var ageFound := SearchFromLast(Ages, AgePrefix, raw[..endIdx]);
    var age := ageFound.value;
    if endIdx - |AgePrefix(age)| != 0 {
      return Failure(IllegalArgument("unparsed"));
    }
    return Success(c.(age := age));
  }

  /** A prefix of a prefix of raw is the prefix of raw of the same length. */
  lemma PrefixOfPrefix(raw: string, i: nat, j: nat)
    requires j <= i <= |raw|
    ensures raw[..i][..j] == raw[..j]
  {
  }

  /** A one-character code ends s exactly when s's last character is that character. */
  lemma EndsWithChar(s: string, ch: char)
    ensures EndsWith(s, [ch]) <==> s != [] && s[|s| - 1] == ch
  {
  }

  /** The oar loop tries "x" first; the empty code then always matches. */
  lemma OarMatch(s: string)
    ensures LastMatch(Oars, OarCode, s)
         == if EndsWith(s, "x") then Some(DoubleScull) else Some(SingleScull)
  {
    assert Oars[..1] == [SingleScull];
    assert EndsWith(s, "");
  }

  /** The rowing loop tries " C" first, then the bare space. */
  lemma RowingMatch(s: string)
    ensures LastMatch(Rowings, SpacedRowingCode, s)
         == if EndsWith(s, " C") then Some(Coastal)
            else if EndsWith(s, " ") then Some(Classic) else None
  {
    assert Rowings[..1] == [Classic] && Rowings[..1][..0] == [];
    assert SpacedRowingCode(Classic) == " " && SpacedRowingCode(Coastal) == " C";
  }

  /** The sex loop tries "M", "Mix" and "W" in that order. */
  lemma SexMatch(s: string)
    ensures FirstMatch(Sexes, SexCode, s)
         == if EndsWith(s, "M") then Some(Men)
            else if EndsWith(s, "Mix") then Some(Mixed)
            else if EndsWith(s, "W") then Some(Women) else None
  {
    assert Sexes[1..] == [Mixed, Women] && [Mixed, Women][1..] == [Women] && [Women][1..] == [];
    assert FirstMatch([Women], SexCode, s) == if EndsWith(s, "W") then Some(Women) else None;
    assert FirstMatch([Mixed, Women], SexCode, s)
        == if EndsWith(s, "Mix") then Some(Mixed) else FirstMatch([Women], SexCode, s);
  }

  /** The age loop tries "M", then "U19"; the empty prefix then always matches. */
  lemma AgeMatch(s: string)
    ensures LastMatch(Ages, AgePrefix, s)
         == if EndsWith(s, "M") then Some(Master)
            else if EndsWith(s, "U19") then Some(U19) else Some(Senior)
  {
    assert Ages[..2] == [Senior, U19] && [Senior, U19][..1] == [Senior] && [Senior][..0] == [];
    assert EndsWith(s, "");
    assert LastMatch([Senior], AgePrefix, s) == Some(Senior);
    assert LastMatch([Senior, U19], AgePrefix, s)
        == if EndsWith(s, "U19") then Some(U19) else LastMatch([Senior], AgePrefix, s);
  }

  lemma AgeStage(a: AgeCategory, c: EventCategory)
    ensures ParseAge(AgePrefix(a), c) == Success(c.(age := a))
  {
    var s := AgePrefix(a);
    assert LastMatch(Ages, AgePrefix, s) == Some(a) by {
      match a
      case Senior => AgeMatchSenior();
      case U19 => AgeMatchU19();
      case Master => AgeMatchMaster();
    }
  }

  lemma AgeMatchSenior()
    ensures LastMatch(Ages, AgePrefix, "") == Some(Senior)
  {
    AgeMatch("");
  }

  lemma AgeMatchU19()
    ensures LastMatch(Ages, AgePrefix, "U19") == Some(U19)
  {
    AgeMatch("U19");
    assert !EndsWith("U19", "M") by {
      assert "U19"[2..] == "9";
    }
    assert "U19"[0..] == "U19";
  }

  lemma AgeMatchMaster()
    ensures LastMatch(Ages, AgePrefix, "M") == Some(Master)
  {
    AgeMatch("M");
    assert "M"[0..] == "M";
  }

  lemma SexStage(p: string, x: SexCategory, c: EventCategory)
    ensures ParseSex(p + SexCode(x), c) == ParseAge(p, c.(sex := x))
  {
    var s := p + SexCode(x);
    SexMatch(s);
    EndsWithChar(s, 'M');
    EndsWithChar(s, 'W');
    EndsWithConcat(p, SexCode(x));
    assert s[..|s| - |SexCode(x)|] == p;
  }

  lemma RowingStage(p: string, rowing: RowingCategory, c: EventCategory)
    ensures ParseRowing(p + SpacedRowingCode(rowing), c) == ParseSex(p, c.(rowing := rowing))
  {
    var s := p + SpacedRowingCode(rowing);
    RowingMatch(s);
    EndsWithConcat(p, SpacedRowingCode(rowing));
    assert s[..|s| - |SpacedRowingCode(rowing)|] == p;
    if rowing == Classic {
      assert !EndsWith(s, " C") by {
        assert s[|s| - 1] == ' ';
      }
    }
  }

  lemma OarStage(p: string, d: char, o: OarCategory, coxwain: char)
    requires d != 'x'
    ensures ParseOar(p + [d] + OarCode(o), coxwain) == ParseRowers(p + [d], coxwain, o)
  {
    var s := p + [d] + OarCode(o);
    OarMatch(s);
    EndsWithChar(s, 'x');
    EndsWithConcat(p + [d], OarCode(o));
    assert s[..|s| - |OarCode(o)|] == p + [d];
  }
  /** What the parser reads before the rower count: age prefix, sex code, space and rowing code. */
  function Front(c: EventCategory): string
  {
    AgePrefix(c.age) + SexCode(c.sex) + SpacedRowingCode(c.rowing)
  }

  /** A one-digit count prints as that digit. */
  lemma SingleDigitToString(n: int)
    requires 0 <= n <= 9
    ensures IntToString(n) == [DigitChar(n)]
  {
  }

  /** The code of c split where the parser cuts it: before and after the rower character. */
  lemma ToStringParts(c: EventCategory)
    requires 0 <= c.rowers <= 9
    ensures ToString(c) == Front(c) + [DigitChar(c.rowers)] + OarCode(c.oar) + CoxMarker(c)
  {
    SingleDigitToString(c.rowers);
  }

  /**
   * From the oar stage on, the parser reads any character ch other than 'x'
   * as the rower count ch - '0'.
   */
  lemma ParseCore(c: EventCategory, ch: char, coxwain: char)
    requires ch != 'x' && InBmp(ch) && DigitValue(ch) == c.rowers
    requires c.coxed == (coxwain == '+') && !(coxwain == ' ' && c.rowers == 8)
    ensures ParseOar(Front(c) + [ch] + OarCode(c.oar), coxwain) == Success(c)
  {
    var front := Front(c);
    OarStage(front, ch, c.oar, coxwain);
    var p1 := front + [ch];
    assert p1[..|p1| - 1] == front;
    var c1 := EventCategory(Senior, Men, Classic, c.rowers, c.oar, c.coxed);
    assert ParseRowers(p1, coxwain, c.oar) == ParseRowing(front, c1);
    RowingStage(AgePrefix(c.age) + SexCode(c.sex), c.rowing, c1);
    SexStage(AgePrefix(c.age), c.sex, c1.(rowing := c.rowing));
    AgeStage(c.age, c1.(rowing := c.rowing, sex := c.sex));
  }

  /** Removing the cox marker: what is left is handed to the oar stage. */
  lemma CoxStage(core: string, tail: string)
    requires core != [] && core[|core| - 1] != '+' && core[|core| - 1] != '-'
    requires tail == [] || tail == "+" || tail == "-"
    ensures Parse(core + tail) == ParseOar(core, if tail == [] then ' ' else tail[0])
  {
    if tail == [] {
      assert core + tail == core;
    } else {
      assert (core + tail)[..|core + tail| - 1] == core;
    }
  }

  /**
   * The rower character is not checked to be a digit: whatever single
   * UTF-16 unit stands there (other than 'x' and the cox markers) is read
   * as its code minus the code of '0'.
   */
  lemma ParseUncheckedRowerChar(c: EventCategory, ch: char)
    requires ch != 'x' && ch != '+' && ch != '-' && InBmp(ch) && DigitValue(ch) == c.rowers
    requires c.coxed || c.rowers != 8
    ensures Parse(Front(c) + [ch] + OarCode(c.oar) + CoxMarker(c)) == Success(c)
  {
    var core := Front(c) + [ch] + OarCode(c.oar);
    CoxStage(core, CoxMarker(c));
    ParseCore(c, ch, if CoxMarker(c) == [] then ' ' else CoxMarker(c)[0]);
  }

  /**
   * A character outside the Basic Multilingual Plane in the rower position
   * is rejected, with the rowing code reported as unparsable.
   */
  lemma ParseRejectsAstralRower(c: EventCategory, ch: char)
    requires !InBmp(ch)
    ensures Parse(Front(c) + [ch] + OarCode(c.oar) + CoxMarker(c)) == Failure(IllegalArgument("rowing"))
  {
    var core := Front(c) + [ch] + OarCode(c.oar);
    CoxStage(core, CoxMarker(c));
    var front := Front(c);
    OarStage(front, ch, c.oar, if CoxMarker(c) == [] then ' ' else CoxMarker(c)[0]);
    assert (front + [ch])[|front + [ch]| - 1] == ch;
  }

  /**
   * Printing then parsing gives the category back, for every category whose
   * rower count is a single digit.
   */
  lemma ParseToString(c: EventCategory)
    requires 0 <= c.rowers <= 9
    ensures Parse(ToString(c)) == Success(c)
  {
    ToStringParts(c);
    if !c.coxed && c.rowers == 8 {
      var core := Front(c) + [DigitChar(c.rowers)] + OarCode(c.oar);
      CoxStage(core, "-");
      ParseCore(c, DigitChar(c.rowers), '-');
    } else {
      ParseUncheckedRowerChar(c, DigitChar(c.rowers));
    }
  }

  /** A '-' after an uncoxed boat other than an eight is accepted and means uncoxed. */
  lemma ParseDashedNonEight(c: EventCategory)
    requires 0 <= c.rowers <= 9 && c.rowers != 8 && !c.coxed
    ensures Parse(ToString(c) + "-") == Success(c)
  {
    ToStringParts(c);
    var core := Front(c) + [DigitChar(c.rowers)] + OarCode(c.oar);
    assert ToString(c) == core;
    CoxStage(core, "-");
    ParseCore(c, DigitChar(c.rowers), '-');
  }

  /** An eight with neither '+' nor '-' is rejected, whatever precedes the '8'. */
  lemma EightNeedsCoxMarker(p: string, oar: OarCategory)
    ensures Parse(p + "8" + OarCode(oar)) == Failure(IllegalArgument("coxwain"))
  {
    var core := p + "8" + OarCode(oar);
    CoxStage(core, "");
    OarStage(p, '8', oar, ' ');
    var p1 := p + "8";
    assert p1[|p1| - 1] == '8';
  }

  /** The empty string fails on the first character access, not with IllegalArgumentException. */
  lemma ParseEmpty()
    ensures Parse("") == Failure(IndexOutOfBounds)
  {
  }

  /**
   * An oar code, possibly followed by a cox marker, with nothing before it
   * ("+", "-", "x", "x+", "x-"): the rower read runs off the start.
   */
  lemma ParseNoRowerChar(oar: OarCategory, marker: string)
    requires marker == "" || marker == "+" || marker == "-"
    ensures Parse(OarCode(oar) + marker) == Failure(IndexOutOfBounds)
  {
    var raw := OarCode(oar) + marker;
    if marker != "" {
      assert raw[..|raw| - 1] == OarCode(oar) && raw[|raw| - 1] == marker[0];
      OarStageOnly(oar, marker[0]);
    } else if oar == DoubleScull {
      assert raw == "x";
      OarStageOnly(oar, ' ');
    }
  }

  lemma OarStageOnly(oar: OarCategory, coxwain: char)
    ensures ParseOar(OarCode(oar), coxwain) == Failure(IndexOutOfBounds)
  {
    var s := OarCode(oar);
    OarMatch(s);
    EndsWithChar(s, 'x');
    assert LastMatch(Oars, OarCode, s) == Some(oar);
    assert s[..|s| - |OarCode(oar)|] == [];
  }

  lemma ParseAgeInverse(s: string, c: EventCategory)
    requires ParseAge(s, c).Success?
    ensures s == AgePrefix(ParseAge(s, c).value.age)
    ensures ParseAge(s, c).value == c.(age := ParseAge(s, c).value.age)
  {
    var age := LastMatch(Ages, AgePrefix, s).value;
    EndsWithSplit(s, AgePrefix(age));
  }

  lemma ParseSexInverse(s: string, c: EventCategory)
    requires ParseSex(s, c).Success?
    ensures var r := ParseSex(s, c).value;
      s == AgePrefix(r.age) + SexCode(r.sex) && r == c.(age := r.age, sex := r.sex)
  {
    var sex := FirstMatch(Sexes, SexCode, s).value;
    var rest := s[..|s| - |SexCode(sex)|];
    EndsWithSplit(s, SexCode(sex));
    ParseAgeInverse(rest, c.(sex := sex));
  }

  lemma ParseRowingInverse(s: string, c: EventCategory)
    requires ParseRowing(s, c).Success?
    ensures var r := ParseRowing(s, c).value;
      s == Front(r) && r == c.(age := r.age, sex := r.sex, rowing := r.rowing)
  {
    var rowing := LastMatch(Rowings, SpacedRowingCode, s).value;
    var rest := s[..|s| - |SpacedRowingCode(rowing)|];
    EndsWithSplit(s, SpacedRowingCode(rowing));
    ParseSexInverse(rest, c.(rowing := rowing));
  }

  lemma ParseRowersInverse(s: string, coxwain: char, oar: OarCategory)
    requires ParseRowers(s, coxwain, oar).Success?
    ensures var r := ParseRowers(s, coxwain, oar).value;
      r.oar == oar && r.coxed == (coxwain == '+') && !(coxwain == ' ' && r.rowers == 8)
      && s == Front(r) + [s[|s| - 1]] && DigitValue(s[|s| - 1]) == r.rowers
  {
    var rowers := DigitValue(s[|s| - 1]);
    var c1 := EventCategory(Senior, Men, Classic, rowers, oar, coxwain == '+');
    var s2 := s[..|s| - 1];
    assert ParseRowers(s, coxwain, oar) == ParseRowing(s2, c1);
    ParseRowingInverse(s2, c1);
    var r := ParseRowing(s2, c1).value;
    assert r.rowers == rowers && r.oar == oar && r.coxed == (coxwain == '+');
    assert s2 == Front(r);
    DropLast(s);
  }

  lemma ParseOarInverse(s: string, coxwain: char)
    requires ParseOar(s, coxwain).Success?
    ensures var r := ParseOar(s, coxwain).value;
      r.coxed == (coxwain == '+') && !(coxwain == ' ' && r.rowers == 8)
      && exists ch :: s == Front(r) + [ch] + OarCode(r.oar) && DigitValue(ch) == r.rowers
  {
    var oar := LastMatch(Oars, OarCode, s).value;
    var s1 := s[..|s| - |OarCode(oar)|];
    assert ParseOar(s, coxwain) == ParseRowers(s1, coxwain, oar);
    EndsWithSplit(s, OarCode(oar));
    ParseRowersInverse(s1, coxwain, oar);
    var ch := s1[|s1| - 1];
    assert s == Front(ParseOar(s, coxwain).value) + [ch] + OarCode(oar);
  }

  /** A non-empty string is its front followed by its last character. */
  lemma DropLast(raw: string)
    requires raw != []
    ensures raw == raw[..|raw| - 1] + [raw[|raw| - 1]]
  {
  }

  /** The oar stage's input, followed by the printed cox marker, is the printed category. */
  lemma ParseOarToString(s: string, coxwain: char)
    requires ParseOar(s, coxwain).Success? && 0 <= ParseOar(s, coxwain).value.rowers <= 9
    ensures ToString(ParseOar(s, coxwain).value) == s + CoxMarker(ParseOar(s, coxwain).value)
  {
    var c := ParseOar(s, coxwain).value;
    ParseOarInverse(s, coxwain);
    PrintedAfterOarStage(s, c);
  }

  lemma PrintedAfterOarStage(s: string, c: EventCategory)
    requires 0 <= c.rowers <= 9
    requires exists ch :: s == Front(c) + [ch] + OarCode(c.oar) && DigitValue(ch) == c.rowers
    ensures ToString(c) == s + CoxMarker(c)
  {
    var ch :| s == Front(c) + [ch] + OarCode(c.oar) && DigitValue(ch) == c.rowers;
    assert ch == DigitChar(c.rowers) by {
      assert ch as int == DigitChar(c.rowers) as int;
    }
    ToStringParts(c);
  }

  /**
   * Parsing then printing gives the input back when the rower character is
   * a digit, except for a '-' after a non-eight, which the printer drops.
   */
  lemma ToStringOfParse(raw: string)
    requires Parse(raw).Success? && 0 <= Parse(raw).value.rowers <= 9
    ensures var c := Parse(raw).value;
      raw == ToString(c) || (!c.coxed && c.rowers != 8 && raw == ToString(c) + "-")
  {
    var coxwain := raw[|raw| - 1];
    var specified := coxwain == '+' || coxwain == '-';
    var s := if specified then raw[..|raw| - 1] else raw;
    var cw := if specified then coxwain else ' ';
    DropLast(raw);
    assert Parse(raw) == ParseOar(s, cw);
    ParseOarToString(s, cw);
    ParseOarInverse(s, cw);
  }

  /** The parser's unit-test examples: "M 1x". */
  lemma ParseExampleM1x()
    ensures Parse("M 1x") == Success(EventCategory(Senior, Men, Classic, 1, DoubleScull, false))
  {
    var c := EventCategory(Senior, Men, Classic, 1, DoubleScull, false);
    SingleDigitToString(1);
    assert ToString(c) == "M 1x";
    ParseToString(c);
  }

  lemma ParseExampleMMixC4xPlus()
    ensures Parse("MMix C4x+") == Success(EventCategory(Master, Mixed, Coastal, 4, DoubleScull, true))
  {
    var c := EventCategory(Master, Mixed, Coastal, 4, DoubleScull, true);
    SingleDigitToString(4);
    assert ToString(c) == "MMix C4x+";
    ParseToString(c);
  }

  lemma ParseExampleU19W8Plus()
    ensures Parse("U19W 8+") == Success(EventCategory(U19, Women, Classic, 8, SingleScull, true))
  {
    var c := EventCategory(U19, Women, Classic, 8, SingleScull, true);
    SingleDigitToString(8);
    assert ToString(c) == "U19W 8+";
    ParseToString(c);
  }

  lemma ParseExampleW8Rejected()
    ensures Parse("W 8") == Failure(IllegalArgument("coxwain"))
  {
    EightNeedsCoxMarker("W ", SingleScull);
    assert "W " + "8" + OarCode(SingleScull) == "W 8";
  }

  /** Reprinting a parsed "Mix 2-" gives "Mix 2". */
  lemma ReprintExampleMix2Dash()
    ensures Parse("Mix 2-") == Success(EventCategory(Senior, Mixed, Classic, 2, SingleScull, false))
    ensures ToString(EventCategory(Senior, Mixed, Classic, 2, SingleScull, false)) == "Mix 2"
  {
    var c := EventCategory(Senior, Mixed, Classic, 2, SingleScull, false);
    assert ToString(c) == "Mix 2" by {
      SingleDigitToString(2);
    }
    assert ToString(c) + "-" == "Mix 2-";
    ParseDashedNonEight(c);
  }

  /** A letter where the rower digit belongs is read as its distance from '0'. */
  lemma ParseLetterAsRowers()
    ensures Parse("M a") == Success(EventCategory(Senior, Men, Classic, 49, SingleScull, false))
  {
    var c := EventCategory(Senior, Men, Classic, 49, SingleScull, false);
    assert DigitValue('a') == 49;
    assert Front(c) == "M ";
    assert Front(c) + ['a'] + OarCode(c.oar) + CoxMarker(c) == "M a";
    ParseUncheckedRowerChar(c, 'a');
  }

  /** A printed code is never empty, never starts with "Open " and never ends with '*'. */
  lemma ToStringShape(c: EventCategory)
    ensures |ToString(c)| >= 1
    ensures ToString(c)[0] in {'M', 'U', 'W'}
    ensures ToString(c)[|ToString(c)| - 1] != '*'
  {
    var digits := IntToString(c.rowers);
    var head := AgePrefix(c.age) + SexCode(c.sex) + " " + RowingCode(c.rowing);
    var t := head + digits + OarCode(c.oar) + CoxMarker(c);
    assert ToString(c) == t;
    assert t[0] == head[0];
    if CoxMarker(c) == [] && OarCode(c.oar) == [] {
      assert t[|t| - 1] == digits[|digits| - 1];
    }
  }

  /** No printed code holds the championship marker '*'. */
  lemma ToStringHasNoStar(c: EventCategory)
    ensures forall i | 0 <= i < |ToString(c)| :: ToString(c)[i] != '*'
  {
    var pieces := AgePrefix(c.age) + SexCode(c.sex) + " " + RowingCode(c.rowing);
    assert forall i | 0 <= i < |pieces| :: pieces[i] != '*' by {
      assert pieces == AgePrefix(c.age) + SexCode(c.sex) + " " + RowingCode(c.rowing);
    }
    var t := pieces + IntToString(c.rowers) + OarCode(c.oar) + CoxMarker(c);
    assert ToString(c) == t;
    forall i | 0 <= i < |t| ensures t[i] != '*' {
      if i < |pieces| {
        assert t[i] == pieces[i];
      } else if i < |pieces| + |IntToString(c.rowers)| {
        assert t[i] == IntToString(c.rowers)[i - |pieces|];
      }
    }
  }

  /**
   * EventCategory.EXPECTED_SPEED_COMPARATOR (and its twin
   * BY_EXPECTED_SPEED_COMPARATOR), as a sign: more rowers first, then sex in
   * declaration order.
   */
  function CompareBySpeed(a: EventCategory, b: EventCategory): (r: int)
    ensures -1 <= r <= 1
    ensures r == 0 <==> a.rowers == b.rowers && a.sex == b.sex
  {
    if a.rowers != b.rowers then Sign(b.rowers - a.rowers)
    else Sign(SexOrdinal(a.sex) - SexOrdinal(b.sex))
  }

  /** Faster-looking boats first: a strictly larger crew, or the same crew and a faster sex category. */
  lemma CompareBySpeedMeaning(a: EventCategory, b: EventCategory)
    ensures CompareBySpeed(a, b) < 0
        <==> a.rowers > b.rowers || (a.rowers == b.rowers && SexOrdinal(a.sex) < SexOrdinal(b.sex))
  {
  }

  lemma CompareBySpeedAntisymmetric(a: EventCategory, b: EventCategory)
    ensures CompareBySpeed(a, b) == -CompareBySpeed(b, a)
  {
  }

  lemma CompareBySpeedTransitive(a: EventCategory, b: EventCategory, c: EventCategory)
    requires CompareBySpeed(a, b) <= 0 && CompareBySpeed(b, c) <= 0
    ensures CompareBySpeed(a, c) <= 0
  {
  }
}
