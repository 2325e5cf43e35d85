/**
 * PrintMode: where the results go (console, tab-separated text, or an
 * Excel workbook next to the input file) and which views of the results
 * map each mode prints.
 */
module PrintModes {

  import opened Wrappers
  import opened JavaText
  import CategoryKeys
  import ExcelPrintHelper

  type Key = CategoryKeys.EventCategoryKey

  datatype PrintMode = Screen | Tsv | Xls | Xlsx

  /** The extension of the workbook a mode writes; the console modes write no file. */
  function OutputExtension(mode: PrintMode): (r: Option<string>)
    ensures r.Some? <==> mode == Xls || mode == Xlsx
  {
    match mode
    case Screen => None
    case Tsv => None
    case Xls => Some(".xls")
    case Xlsx => Some(".xlsx")
  }

  /** A path as its directory part, when there is one, and its file name. */
  datatype Path = Path(parent: Option<string>, fileName: string)

  /** Path.resolveSibling with a file name: same directory, another name. */
  function ResolveSibling(p: Path, name: string): (r: Path)
    ensures r.parent == p.parent && r.fileName == name
  {
    Path(p.parent, name)
  }

  /**
   * replaceAll("(?i)\\.csv$", extension) on a file name: a final ".csv" in
   * any letter case becomes the extension, which is inserted literally as
   * it holds no '$' or '\'.
   */
  function ReplaceCsvSuffix(name: string, extension: string): (r: string)
    requires '$' !in extension && '\\' !in extension
    ensures EndsWithIgnoreCase(name, ".csv") ==> EndsWith(r, extension) && |r| == |name| - 4 + |extension|
    ensures !EndsWithIgnoreCase(name, ".csv") ==> r == name
  {
    EndsWithConcat(if |name| >= 4 then name[..|name| - 4] else "", extension);
    if EndsWithIgnoreCase(name, ".csv") then name[..|name| - 4] + extension else name
  }

  /**
   * What the replacement does: with a final ".csv", everything before it is
   * kept and the extension ends the name; otherwise nothing changes.
   */
  lemma ReplaceCsvSuffixSpec(name: string, extension: string)
    requires '$' !in extension && '\\' !in extension
    ensures EndsWithIgnoreCase(name, ".csv") ==>
              var r := ReplaceCsvSuffix(name, extension);
              |r| == |name| - 4 + |extension| && r[..|name| - 4] == name[..|name| - 4]
              && EndsWith(r, extension)
    ensures !EndsWithIgnoreCase(name, ".csv") ==> ReplaceCsvSuffix(name, extension) == name
  {
    if EndsWithIgnoreCase(name, ".csv") {
      var base := name[..|name| - 4];
      EndsWithConcat(base, extension);
      assert (base + extension)[..|base|] == base;
    }
  }

  /**
   * An extension that does not itself end with ".csv" is replaced once:
   * a second replacement changes nothing.
   */
  lemma ReplaceCsvSuffixOnce(name: string, extension: string)
    requires '$' !in extension && '\\' !in extension
    requires |extension| >= 4 && !EndsWithIgnoreCase(extension, ".csv")
    ensures ReplaceCsvSuffix(ReplaceCsvSuffix(name, extension), extension) == ReplaceCsvSuffix(name, extension)
  {
    var r := ReplaceCsvSuffix(name, extension);
    if EndsWithIgnoreCase(name, ".csv") {
      ReplaceCsvSuffixSpec(name, extension);
      EndsWithIgnoreCaseOfEnding(r, extension, ".csv");
    }
  }

  /** Only the trailing suffix goes: "a.csv.csv" becomes "a.csv.xls". */
  lemma ReplaceCsvSuffixTrailingOnly()
    ensures ReplaceCsvSuffix("a.csv.csv", ".xls") == "a.csv.xls"
  {
    assert EndsWithIgnoreCase("a.csv.csv", ".csv") by {
      var n := "a.csv.csv";
      assert forall i | 0 <= i < 4 :: n[5 + i] == ".csv"[i];
    }
  }

  /**
   * PrintMode.buildOutputFile: the input path with its file name's final
   * ".csv" replaced by the extension, in the same directory.
   */
  function BuildOutputFile(input: Path, extension: string): (r: Path)
    requires '$' !in extension && '\\' !in extension
    ensures r.parent == input.parent
    ensures !EndsWithIgnoreCase(input.fileName, ".csv") ==> r == input
  {
    ResolveSibling(input, ReplaceCsvSuffix(input.fileName, extension))
  }

  /** The output file of a workbook mode, next to the input file. */
  function OutputFile(mode: PrintMode, input: Path): (r: Option<Path>)
    ensures r.Some? <==> mode == Xls || mode == Xlsx
    ensures r.Some? ==> r.value.parent == input.parent
  {
    match OutputExtension(mode)
    case None => None
    case Some(extension) => Some(BuildOutputFile(input, extension))
  }

  /**
   * The views each mode prints: the whole map under the name "TOUS" on the
   * console (SimpleSubResult), the championship and lsm views in a
   * workbook (ExcelPrintHelper.getSubResults).
   */
  function GetSubResults<V>(mode: PrintMode, m: map<Key, V>): (r: seq<ExcelPrintHelper.SubResult<V>>)
    ensures mode == Screen || mode == Tsv ==> r == [ExcelPrintHelper.SubResult("TOUS", m)]
    ensures mode == Xls || mode == Xlsx ==> |r| == 2
  {
    match mode
    case Screen => [ExcelPrintHelper.SubResult("TOUS", m)]
    case Tsv => [ExcelPrintHelper.SubResult("TOUS", m)]
    case Xls => ExcelPrintHelper.GetSubResults(m)
    case Xlsx => ExcelPrintHelper.GetSubResults(m)
  }

  /**
   * In every mode the printed views hold every entry of the map exactly
   * once, with its own list.
   */
  lemma SubResultsCoverOnce<V>(mode: PrintMode, m: map<Key, V>)
    ensures var r := GetSubResults(mode, m);
            && (forall i, k | 0 <= i < |r| && k in r[i].results :: k in m && r[i].results[k] == m[k])
            && (forall k | k in m :: exists i :: 0 <= i < |r| && k in r[i].results)
            && (forall i, j, k | 0 <= i < j < |r| && k in r[i].results :: k !in r[j].results)
  {
    var r := GetSubResults(mode, m);
    if mode == Xls || mode == Xlsx {
      ExcelPrintHelper.SubResultsPartition(m);
      forall k | k in m ensures exists i :: 0 <= i < |r| && k in r[i].results {
        if k in r[0].results {
        } else {
          assert k in r[1].results;
        }
      }
    } else {
      forall k | k in m ensures exists i :: 0 <= i < |r| && k in r[i].results {
        assert k in r[0].results;
      }
    }
  }
}
