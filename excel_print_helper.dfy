/**
 * The value-level parts of ExcelPrintHelper: the two views of the results
 * map that become the two worksheets, and the picture type of a logo file.
 * The workbook writing itself is not modelled.
 */
module ExcelPrintHelper {

  import opened Wrappers
  import opened JavaText
  import CategoryKeys

  type Key = CategoryKeys.EventCategoryKey

  /** A named view of the results map (SubResult): the name prefixes its sheet. */
  datatype SubResult<V> = SubResult(name: string, results: map<Key, V>)

  /** The entries whose key is a Swiss championship category, with their own lists. */
  function ChampionshipView<V>(m: map<Key, V>): (r: map<Key, V>)
    ensures forall k :: k in r <==> k in m && CategoryKeys.IsSwissChampionshipCategory(k)
    ensures forall k | k in r :: r[k] == m[k]
  {
    map k | k in m && CategoryKeys.IsSwissChampionshipCategory(k) :: m[k]
  }

  /** The other entries, with their own lists. */
  function LsmView<V>(m: map<Key, V>): (r: map<Key, V>)
    ensures forall k :: k in r <==> k in m && !CategoryKeys.IsSwissChampionshipCategory(k)
    ensures forall k | k in r :: r[k] == m[k]
  {
    map k | k in m && !CategoryKeys.IsSwissChampionshipCategory(k) :: m[k]
  }

  /**
   * ExcelPrintHelper.getSubResults: the championship view, then the lsm
   * view. Both are new sorted maps with the comparator of the input, so
   * they keep its key order; the lists are shared, not copied.
   */
  function GetSubResults<V>(m: map<Key, V>): (r: seq<SubResult<V>>)
    ensures |r| == 2 && r[0].name == "swissChampionship" && r[1].name == "lsm"
  {
    [SubResult("swissChampionship", ChampionshipView(m)), SubResult("lsm", LsmView(m))]
  }

  /**
   * The two views split the map: no key is in both, every key is in one,
   * and each holds the very list of the input.
   */
  lemma SubResultsPartition<V>(m: map<Key, V>)
    ensures var r := GetSubResults(m);
            && r[0].results.Keys !! r[1].results.Keys
            && r[0].results.Keys + r[1].results.Keys == m.Keys
            && forall i, k | 0 <= i < 2 && k in r[i].results :: r[i].results[k] == m[k]
  {
    var r := GetSubResults(m);
    assert forall k | k in m :: k in r[0].results || k in r[1].results;
  }

  /** The picture formats a logo can have in the workbook. */
  datatype PictureType = Png | Jpeg

  /**
   * Logo.getPictureType on a file name: ".png" or ".jpg" at the end, in any
   * letter case; any other name throws.
   */
  function GetPictureType(filename: string): (r: Result<PictureType, Error>)
    ensures r == Success(Png) <==> EndsWithIgnoreCase(filename, ".png")
    ensures r == Success(Jpeg) <==> EndsWithIgnoreCase(filename, ".jpg") && !EndsWithIgnoreCase(filename, ".png")
    ensures r.Failure? ==> r.error == Runtime("picture type")
  {
    if EndsWithIgnoreCase(filename, ".png") then Success(Png)
    else if EndsWithIgnoreCase(filename, ".jpg") then Success(Jpeg)
    else Failure(Runtime("picture type"))
  }

  /** No name ends with both suffixes, so the order of the two tests does not matter. */
  lemma PngNotJpg(filename: string)
    ensures !(EndsWithIgnoreCase(filename, ".png") && EndsWithIgnoreCase(filename, ".jpg"))
  {
    if |filename| >= 4 {
      var c := AsciiLower(filename[|filename| - 4 + 1]);
      assert AsciiLower(".png"[1]) == 'p' && AsciiLower(".jpg"[1]) == 'j';
    }
  }

  /** The logos placed on the sheets. */
  datatype Logo = LemanSurMer | SwissRowing

  /** The file of each logo. */
  function FileName(logo: Logo): string
  {
    match logo
    case LemanSurMer => "logo-lemansurmer.jpg"
    case SwissRowing => "logo-swissrowing.png"
  }

  /** Logo.getPictureType never throws for the two logos: a JPEG and a PNG. */
  lemma LogoPictureTypes()
    ensures GetPictureType(FileName(LemanSurMer)) == Success(Jpeg)
    ensures GetPictureType(FileName(SwissRowing)) == Success(Png)
  {
    var jpg, png := FileName(LemanSurMer), FileName(SwissRowing);
    assert forall i | 0 <= i < 4 :: AsciiLower(jpg[|jpg| - 4 + i]) == AsciiLower(".jpg"[i]);
    assert forall i | 0 <= i < 4 :: AsciiLower(png[|png| - 4 + i]) == AsciiLower(".png"[i]);
    PngNotJpg(jpg);
  }
}
