/**
 * The static formatters of PrintHelper: the text printed for the delta to
 * the leader, the adjusted time and the rank of one result row.
 */
module PrintHelper {

  import opened Wrappers
  import opened JavaText

  /** PrintHelper.formatDelta: nothing for a missing delta, otherwise "+" and the delta. */
  function FormatDelta(delta: Option<string>): (r: string)
    ensures delta.None? <==> r == ""
    ensures delta.Some? ==> StartsWith(r, "+") && r[1..] == delta.value
  {
    if delta.None? then "" else "+" + delta.value
  }

  /** Reads a formatted delta back: the empty text is no delta, otherwise drop the "+". */
  function ParseDelta(text: string): (r: Option<string>)
  {
    if text == "" then None else Some(text[1..])
  }

  /** Every delta, missing or not, is read back from its text: the format loses nothing. */
  lemma ParseFormatDelta(delta: Option<string>)
    ensures ParseDelta(FormatDelta(delta)) == delta
  {
    if delta.Some? {
      assert ("+" + delta.value)[1..] == delta.value;
    }
  }

  const Unknown: string := "(inconnu)"

  /** PrintHelper.formatAdjTime: "(inconnu)" for a missing time, otherwise the time itself. */
  function FormatAdjTime(adjTime: Option<string>): (r: string)
    ensures adjTime.Some? ==> r == adjTime.value
    ensures adjTime.None? ==> r == Unknown
  {
    if adjTime.None? then Unknown else adjTime.value
  }

  /**
   * Two adjusted times print alike only when they are equal, or when one is
   * missing and the other is the text "(inconnu)" itself.
   */
  lemma FormatAdjTimeAlike(a: Option<string>, b: Option<string>)
    requires FormatAdjTime(a) == FormatAdjTime(b)
    ensures a == b || (a.None? && b == Some(Unknown)) || (a == Some(Unknown) && b.None?)
  {
  }

  /** PrintHelper.formatRank: nothing for a missing rank or rank 0, otherwise its decimal text. */
  function FormatRank(rank: Option<int>): (r: string)
    ensures r == "" <==> rank.None? || rank == Some(0)
    ensures r != "" ==> forall k | 0 <= k < |r| :: IsAsciiDigit(r[k]) || r[k] == '-'
  {
    if rank.None? || rank.value == 0 then "" else IntToString(rank.value)
  }

  /** Every int rank other than 0 is read back from its text by Integer.parseInt. */
  lemma ParseFormatRank(rank: int)
    requires rank != 0 && -MaxInt - 1 <= rank <= MaxInt
    ensures ParseInt(FormatRank(Some(rank))) == Success(rank)
  {
    ParseIntToString(rank);
  }
}
