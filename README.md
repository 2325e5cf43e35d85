# Léman sur Mer results, modelled in Dafny

This project models the in-memory core of the Léman sur Mer rowing results
tool:

- the rowing category codes of Swiss Rowing (`"MMix C4x+"`) and of the
  regatta (`"Open W 8+"`, `"M 1x*"`), printed and parsed;
- the event identifiers (`"🦭 12"`, `"12"`) and their race markers;
- the keys of the results map and their order;
- the result records with their two mutable fields;
- the results pipeline of `LSM`: grouping the CrewTimer rows by key, with
  the start time carried to rows that lack one, then sorting every list,
  folding the Swiss championship categories into their standard
  categories, and the rank/delta pass;
- the medal rules and the start-time rounding;
- the small formatters and views used when printing: the rank, delta and
  adjusted-time cells, the championship/regatta split of the workbook, the
  logo picture types and the output file name.

Modules follow the source files:

| module | file | source |
|---|---|---|
| `Wrappers` | wrappers.dfy | `Option`, `Result`, and the Java exceptions as an `Error` value |
| `JavaText` | java_text.dfy | the `String`/`Integer` behaviour the core relies on |
| `Sorting` | sorting.dfy | `List.sort`: a stable sort by a comparator |
| `SwissRowing` | swiss_rowing.dfy | `EventCategory` and its four code enums |
| `LsmCategory` | lsm_category.dfy | `LsmEventCategory` |
| `EventIds` | event_id.dfy | `EventId` and `EventId.Race` |
| `CategoryKeys` | category_key.dfy | `EventCategoryKey` and the championship/standard category rule |
| `CategoryResults` | category_result.dfy | `CategoryResult`, a class with its final fields and two mutable ones |
| `TimeOfDay` | time_of_day.dfy | the `LocalTime` reading and formatting the core uses |
| `LsmRows` | lsm_rows.dfy | the grouping loop of `processResults`, on values |
| `LsmRanking` | lsm_ranking.dfy | `fixRankAndDelta` on values, medals, `getStartTime` |
| `LsmMerge` | lsm_merge.dfy | `mergeSpecialCategories` on values |
| `LsmPipeline` | lsm_pipeline.dfy | the same steps on the mutable map of result objects, as methods |
| `PrintHelper` | print_helper.dfy | `PrintHelper.formatDelta`, `formatAdjTime`, `formatRank` |
| `ExcelPrintHelper` | excel_print_helper.dfy | the workbook views and `Logo.getPictureType` |
| `PrintModes` | print_mode.dfy | `PrintMode`: output file and views per mode |

Each imperative step of `LSM` is a method on a map from key to a sequence of
`CategoryResult` objects. Each method is proved against a function on the
field values of those objects (`Snapshot`):

- `Read` against `LsmRows.Grouped`;
- `MergeSpecialCategories` against `LsmMerge.MergeAll`;
- `FixRankAndDelta` against `LsmRanking.FixList`.

The properties the source promises are proved about those functions.

## Model

| member | source | states |
|---|---|---|
| JavaText.IntToString | src/main/java/ch/lsaviron/crewtimer/results/PrintHelper.java:43 | The decimal text of an int is never empty, ends with a digit, is all digits when non-negative and starts with '-' when negative. |
| JavaText.ParseInt | src/main/java/ch/lsaviron/crewtimer/results/LSM.java:106-107 | On an optional sign and ASCII digits, `Integer.parseInt` gives an int in range, fails with NumberFormatException (on the empty string too) and is non-negative without a sign. |
| JavaText.ParseIntDigits | src/main/java/ch/lsaviron/crewtimer/results/EventId.java:96 | On digits, `parseInt` gives their value when it fits in an int and throws otherwise. |
| JavaText.ParseIntToString | src/main/java/ch/lsaviron/crewtimer/results/PrintHelper.java:43 | `parseInt` reads back the decimal text of every int. |
| JavaText.DigitsValueOfNatToString | src/main/java/ch/lsaviron/crewtimer/results/EventId.java:114 | Reading back the printed id gives the id. |
| JavaText.NatToStringOfDigitsValue | src/main/java/ch/lsaviron/crewtimer/results/EventId.java:96 | Printing the value of a digit string without leading zeros gives the string back. |
| JavaText.CompareStringsAntisymmetric | src/main/java/ch/lsaviron/crewtimer/results/EventCategoryKey.java:11 | The String order used for categories is antisymmetric. |
| JavaText.CompareStringsZero | src/main/java/ch/lsaviron/crewtimer/results/EventCategoryKey.java:11 | Two strings compare equal exactly when they are equal. |
| JavaText.CompareStringsTransitive | src/main/java/ch/lsaviron/crewtimer/results/EventCategoryKey.java:11 | The String order is transitive. |
| JavaText.RemoveChar | src/test/java/ch/lsaviron/crewtimer/results/LSMTest.java:42 | `replace("*", "")` leaves no star and never lengthens the text. |
| JavaText.RemoveCharSingle | src/test/java/ch/lsaviron/crewtimer/results/LSMTest.java:42 | A single character is dropped when it is the removed one and kept otherwise; with `RemoveCharConcat` this fixes the result on every text. |
| JavaText.RemoveCharConcat | src/test/java/ch/lsaviron/crewtimer/results/LSMTest.java:42 | Removing a character from two joined texts removes it from each. |
| JavaText.EndsWithIgnoreCaseOfEnding | src/main/java/ch/lsaviron/crewtimer/results/PrintMode.java:151 | A case-blind suffix test sees only the end of the text: a longer common ending decides it. |
| JavaText.LastIndexOf | src/main/java/ch/lsaviron/crewtimer/results/EventId.java:87-88 | The last position of a character: it is there and nowhere after, or it is nowhere. |
| Sorting.SortBy | src/main/java/ch/lsaviron/crewtimer/results/LSM.java:118 | The sort keeps the length and the elements with their counts (a permutation). |
| Sorting.SortBySorted | src/main/java/ch/lsaviron/crewtimer/results/LSM.java:118 | The sorted list is ordered by the comparator, for any total preorder. |
| Sorting.SortByStable | src/main/java/ch/lsaviron/crewtimer/results/LSM.java:300-301 | Elements that tie keep their relative order (`List.sort` is stable). |
| Sorting.SortBySortedUnchanged | src/main/java/ch/lsaviron/crewtimer/results/LSM.java:117-118 | Sorting a list already in order leaves it unchanged. |
| SwissRowing.ToString | src/main/java/ch/lsaviron/swissrowing/EventCategory.java:13-27 | The code starts with the age prefix, the sex code and a space, and ends with '+' exactly when coxed and with '-' exactly for an uncoxed eight. |
| SwissRowing.Parse | src/main/java/ch/lsaviron/swissrowing/EventCategory.java:33-128 | The empty text throws StringIndexOutOfBoundsException, as does any text with nothing left before the oar code once an optional cox marker is taken off; every other failure is IllegalArgumentException; an accepted code is coxed exactly when it ends with '+', and an uncoxed eight ended with '-'. |
| SwissRowing.ParseOar | src/main/java/ch/lsaviron/swissrowing/EventCategory.java:51-65 | After the oar code, the stages keep the cox flag read from the marker, reject an eight without a marker, and fail only with StringIndexOutOfBoundsException or IllegalArgumentException. |
| SwissRowing.ParseRowers | src/main/java/ch/lsaviron/swissrowing/EventCategory.java:67-72 | The rower stage keeps the oar found and the cox flag, and rejects an eight without a cox marker. |
| SwissRowing.ParseRowing | src/main/java/ch/lsaviron/swissrowing/EventCategory.java:74-88 | The rowing stage and those after it keep the rower count, the oar and the cox flag, and fail only with IllegalArgumentException. |
| SwissRowing.ParseSex | src/main/java/ch/lsaviron/swissrowing/EventCategory.java:90-102 | The sex stage and the age stage keep the rower count, the oar and the cox flag, and fail only with IllegalArgumentException. |
| SwissRowing.ParseAge | src/main/java/ch/lsaviron/swissrowing/EventCategory.java:104-127 | The age stage changes only the age, and fails only with IllegalArgumentException. |
| SwissRowing.LastMatch | src/main/java/ch/lsaviron/swissrowing/EventCategory.java:54-60 | The candidate search from the last enum constant down finds a code the text ends with, and finds none only when no code matches. |
| SwissRowing.FirstMatch | src/main/java/ch/lsaviron/swissrowing/EventCategory.java:92-97 | The same search in declaration order. |
| SwissRowing.SearchFromLast | src/main/java/ch/lsaviron/swissrowing/EventCategory.java:54-60 | The descending loop with `break` finds exactly the candidate `LastMatch` names. |
| SwissRowing.SearchFromFirst | src/main/java/ch/lsaviron/swissrowing/EventCategory.java:92-97 | The ascending loop with `break` finds exactly the candidate `FirstMatch` names. |
| SwissRowing.ParseScan | src/main/java/ch/lsaviron/swissrowing/EventCategory.java:33-128 | The right-to-left scan with its moving end index gives exactly the category or exception of the staged parser `Parse`. |
| SwissRowing.ScanOarAndRowers | src/main/java/ch/lsaviron/swissrowing/EventCategory.java:51-72 | The oar loop and the rower character read the text before the cox marker as the oar stage does, including the rejection of a character outside the BMP. |
| SwissRowing.ScanCodes | src/main/java/ch/lsaviron/swissrowing/EventCategory.java:74-127 | The rowing, sex and age loops and the leftover check give what the rowing stage gives. |
| SwissRowing.ScanSexAndAge | src/main/java/ch/lsaviron/swissrowing/EventCategory.java:90-127 | The sex loop, the age loop and the leftover check give what the sex stage gives. |
| SwissRowing.ScanAge | src/main/java/ch/lsaviron/swissrowing/EventCategory.java:104-127 | The descending age loop and the leftover check give what the age stage gives. |
| SwissRowing.OarAlwaysFound | src/main/java/ch/lsaviron/swissrowing/EventCategory.java:61-64 | The oar search always succeeds, because the empty sweep code ends every text. |
| SwissRowing.AgeAlwaysFound | src/main/java/ch/lsaviron/swissrowing/EventCategory.java:114-117 | The age search always succeeds, because the empty senior prefix ends every text. |
| SwissRowing.OarMatch | src/main/java/ch/lsaviron/swissrowing/EventCategory.java:53-60 | A final 'x' is read as sculling, anything else as sweep: "x" is tried before the empty code. |
| SwissRowing.RowingMatch | src/main/java/ch/lsaviron/swissrowing/EventCategory.java:76-83 | A final " C" is coastal, a bare final space classic, anything else no match: " C" is tried first. |
| SwissRowing.SexMatch | src/main/java/ch/lsaviron/swissrowing/EventCategory.java:91-97 | The sex is the first of "M", "Mix", "W", in declaration order, that ends the text, or none. |
| SwissRowing.AgeMatch | src/main/java/ch/lsaviron/swissrowing/EventCategory.java:106-113 | A final "M" is masters, a final "U19" under-19, anything else senior with the empty prefix. |
| SwissRowing.ToStringParts | src/main/java/ch/lsaviron/swissrowing/EventCategory.java:13-27 | The printed code is age prefix, sex code, space, rowing code, rower digit, oar code, then '+' when coxed, '-' for an uncoxed eight, nothing otherwise. |
| SwissRowing.ParseToString | src/test/java/ch/lsaviron/swissrowing/EventCategoryTest.java:41-45 | Parsing the printed code of any category with a one-digit rower count gives the category back. |
| SwissRowing.ParseUncheckedRowerChar | src/main/java/ch/lsaviron/swissrowing/EventCategory.java:68 | Any character of one UTF-16 unit in the rower position (other than 'x' and the cox markers) is accepted, read as its code minus '0'. |
| SwissRowing.ParseRejectsAstralRower | src/main/java/ch/lsaviron/swissrowing/EventCategory.java:68-87 | A character outside the BMP in the rower position is two UTF-16 units: the rowing search then fails and IllegalArgumentException is thrown. |
| SwissRowing.ParseDashedNonEight | src/main/java/ch/lsaviron/swissrowing/EventCategory.java:43-45 | A '-' after an uncoxed boat other than an eight is accepted and means uncoxed. |
| SwissRowing.EightNeedsCoxMarker | src/main/java/ch/lsaviron/swissrowing/EventCategory.java:69-72 | An eight with neither '+' nor '-' is rejected with IllegalArgumentException, whatever comes before the '8'. |
| SwissRowing.ParseEmpty | src/main/java/ch/lsaviron/swissrowing/EventCategory.java:39 | The empty text fails on the first character access (StringIndexOutOfBoundsException). |
| SwissRowing.ParseNoRowerChar | src/main/java/ch/lsaviron/swissrowing/EventCategory.java:68 | An oar code with an optional cox marker and nothing before it ("+", "-", "x", "x+", "x-") leaves nothing for the rower character, so its read throws StringIndexOutOfBoundsException. |
| SwissRowing.ParseAgeInverse | src/main/java/ch/lsaviron/swissrowing/EventCategory.java:104-127 | When the age stage accepts, the text left is exactly the chosen prefix: leftover characters are rejected. |
| SwissRowing.ParseSexInverse | src/main/java/ch/lsaviron/swissrowing/EventCategory.java:90-102 | When the sex stage accepts, the text is what precedes it followed by the chosen sex code. |
| SwissRowing.ParseRowingInverse | src/main/java/ch/lsaviron/swissrowing/EventCategory.java:74-88 | When the rowing stage accepts, the text is what precedes it, a space and the chosen rowing code. |
| SwissRowing.ParseRowersInverse | src/main/java/ch/lsaviron/swissrowing/EventCategory.java:67-72 | When the rower stage accepts, the text is age, sex, space and rowing codes, then one character worth the rower count; an eight had a cox marker. |
| SwissRowing.ParseOarInverse | src/main/java/ch/lsaviron/swissrowing/EventCategory.java:51-65 | When the oar stage accepts, the text is the codes before the rowers, one rower character and the chosen oar code; an eight had a cox marker. |
| SwissRowing.ToStringOfParse | src/test/java/ch/lsaviron/swissrowing/EventCategoryTest.java:41-46 | Reprinting a parsed code gives the input itself, or the input without its final '-' for an uncoxed boat other than an eight. |
| SwissRowing.ParseExampleM1x | src/test/java/ch/lsaviron/swissrowing/EventCategoryTest.java:11-16 | "M 1x" is a senior men's classic double-sculled single, uncoxed. |
| SwissRowing.ParseExampleMMixC4xPlus | src/test/java/ch/lsaviron/swissrowing/EventCategoryTest.java:19-24 | "MMix C4x+" is a masters mixed coastal coxed quad. |
| SwissRowing.ParseExampleU19W8Plus | src/test/java/ch/lsaviron/swissrowing/EventCategoryTest.java:27-32 | "U19W 8+" is an under-19 women's classic coxed eight. |
| SwissRowing.ParseExampleW8Rejected | src/test/java/ch/lsaviron/swissrowing/EventCategoryTest.java:35-38 | "W 8" throws IllegalArgumentException. |
| SwissRowing.ReprintExampleMix2Dash | src/test/java/ch/lsaviron/swissrowing/EventCategoryTest.java:46 | "Mix 2-" parses as an uncoxed pair and reprints as "Mix 2". |
| SwissRowing.ParseLetterAsRowers | src/main/java/ch/lsaviron/swissrowing/EventCategory.java:68 | "M a" parses, with 49 rowers. |
| SwissRowing.ToStringShape | src/main/java/ch/lsaviron/swissrowing/EventCategory.java:13-27 | A printed code is never empty, starts with 'M', 'U' or 'W' and never ends with '*'. |
| SwissRowing.ToStringHasNoStar | src/main/java/ch/lsaviron/swissrowing/EventCategory.java:13-27 | No printed code holds '*'. |
| SwissRowing.CompareBySpeed | src/main/java/ch/lsaviron/swissrowing/EventCategory.java:29-31 | The comparator is a sign, and zero exactly for the same crew size and sex. |
| SwissRowing.CompareBySpeedMeaning | src/main/java/ch/lsaviron/swissrowing/EventCategory.java:29-31 | A category comes first exactly when it has more rowers, or as many rowers and an earlier sex (men, mixed, women). |
| SwissRowing.CompareBySpeedAntisymmetric | src/main/java/ch/lsaviron/swissrowing/EventCategory.java:29-31 | The comparator is antisymmetric. |
| SwissRowing.CompareBySpeedTransitive | src/main/java/ch/lsaviron/swissrowing/EventCategory.java:29-31 | The comparator is transitive. |
| LsmCategory.ToString | src/main/java/ch/lsaviron/lsm/LsmEventCategory.java:14-25 | The printed code starts with "Open " exactly when open and ends with '*' exactly for the championship. |
| LsmCategory.Parse | src/main/java/ch/lsaviron/lsm/LsmEventCategory.java:33-49 | The open flag is whether the text starts with "Open ", the championship flag whether it ends with '*'; failures are the Swiss Rowing parser's exception kinds. |
| LsmCategory.ParseWrapped | src/main/java/ch/lsaviron/lsm/LsmEventCategory.java:33-49 | On any text made of an optional "Open ", an inner text and an optional '*', the Swiss Rowing parser reads exactly the inner text: its category is kept with the two flags, and its exception propagates. |
| LsmCategory.CompareBySpeed | src/main/java/ch/lsaviron/lsm/LsmEventCategory.java:27-31 | The Swiss Rowing expected-speed order decides; on a tie, a championship category comes before one that is not. |
| LsmCategory.ParseToString | src/main/java/ch/lsaviron/lsm/LsmEventCategory.java:14-49 | Parsing the printed code of a category with a one-digit rower count gives it back: the inner code never starts with "Open " nor ends with '*'. |
| LsmCategory.Unwrap | src/main/java/ch/lsaviron/lsm/LsmEventCategory.java:34-45 | On a non-empty inner code that neither starts with 'O' nor ends with '*', the cuts find exactly the "Open " prefix and the '*' suffix added to it, and what lies between is the inner code. |
| LsmCategory.StandardCodeRemovesStar | src/test/java/ch/lsaviron/crewtimer/results/LSMTest.java:40-45 | The printed code with '*' removed is the printed code of the same category outside the championship. |
| LsmCategory.ParseExampleChampionship | src/test/java/ch/lsaviron/lsm/LsmEventCategoryTest.java:29-39 | "MMix C4x+*" is the championship masters mixed coastal coxed quad. |
| LsmCategory.ParseExampleOpen | src/test/java/ch/lsaviron/lsm/LsmEventCategoryTest.java:42-52 | "Open W 8+" is the open women's coxed eight. |
| LsmCategory.ParseExampleW8Rejected | src/test/java/ch/lsaviron/lsm/LsmEventCategoryTest.java:55-58 | The inner IllegalArgumentException of "W 8" propagates. |
| LsmCategory.CompareBySpeedZero | src/main/java/ch/lsaviron/lsm/LsmEventCategory.java:27-31 | Only crew size, sex and the championship flag take part in the order. |
| LsmCategory.CompareBySpeedAntisymmetric | src/main/java/ch/lsaviron/lsm/LsmEventCategory.java:27-31 | The comparator is antisymmetric. |
| LsmCategory.CompareBySpeedTransitive | src/main/java/ch/lsaviron/lsm/LsmEventCategory.java:27-31 | The comparator is transitive. |
| EventIds.Ordinal | src/main/java/ch/lsaviron/crewtimer/results/EventId.java:24-40 | Each race has its own position in the declaration order. |
| EventIds.EmojiNotBlank | src/main/java/ch/lsaviron/crewtimer/results/EventId.java:53-57 | No race marker is blank, so the enum constructor never throws. |
| EventIds.CurrentYearEmojiUnique | src/main/java/ch/lsaviron/crewtimer/results/EventId.java:42-47 | The markers of the current year are unique, so the reverse index is well defined. |
| EventIds.MarkerReusedAcrossYears | src/main/java/ch/lsaviron/crewtimer/results/EventId.java:29-38 | The fish marker is used in two years, which is why the index keeps only the current year. |
| EventIds.FromEmoji | src/main/java/ch/lsaviron/crewtimer/results/EventId.java:62-80 | No marker gives no race; a known marker gives the race of the current year carrying it; an unknown one throws IllegalArgumentException. |
| EventIds.FromEmojiOfEmoji | src/main/java/ch/lsaviron/crewtimer/results/EventId.java:62-80 | Every race of the current year is found back from its marker. |
| EventIds.FromEmojiRejectsOldMarker | src/main/java/ch/lsaviron/crewtimer/results/EventId.java:67-78 | The marker of an earlier year only (the star) throws. |
| EventIds.MarkerSplitAtLastSpace | src/main/java/ch/lsaviron/crewtimer/results/EventId.java:87-88 | The greedy marker group ends at the last space of the text. |
| EventIds.From | src/main/java/ch/lsaviron/crewtimer/results/EventId.java:93-105 | A parsed id is a non-negative int and a parsed marker is non-empty without line terminator. |
| EventIds.FromDigits | src/main/java/ch/lsaviron/crewtimer/results/EventId.java:94-97 | An all-digit text is an event without marker, or NumberFormatException when the number does not fit in an int. |
| EventIds.FromMarker | src/main/java/ch/lsaviron/crewtimer/results/EventId.java:98-102 | Marker, space, digits: the marker is everything before the last space. |
| EventIds.FromRejects | src/main/java/ch/lsaviron/crewtimer/results/EventId.java:103-104 | Any other text throws RuntimeException. |
| EventIds.ToString | src/main/java/ch/lsaviron/crewtimer/results/EventId.java:107-116 | The printed identifier ends with the number; with a marker it starts with the marker and a space, without one it is the number alone. |
| EventIds.FromToString | src/main/java/ch/lsaviron/crewtimer/results/EventId.java:93-116 | Parsing the printed identifier gives it back, for an id in int range and a non-empty marker without line terminator. |
| EventIds.FromIsStable | src/main/java/ch/lsaviron/crewtimer/results/EventId.java:93-116 | What `from` accepts, printed and parsed again, gives the same identifier. |
| EventIds.FromExampleSpacedMarker | src/main/java/ch/lsaviron/crewtimer/results/EventId.java:87-88 | A marker containing a space is kept whole. |
| EventIds.Compare | src/main/java/ch/lsaviron/crewtimer/results/EventId.java:15-19 | The comparator is defined exactly when both markers are known; otherwise it throws IllegalArgumentException. |
| EventIds.CompareIsTotal | src/main/java/ch/lsaviron/crewtimer/results/EventId.java:15-19 | On known markers it agrees with a total order on all identifiers. |
| EventIds.CompareNullFirst | src/main/java/ch/lsaviron/crewtimer/results/EventId.java:17 | No marker sorts before any race. |
| EventIds.CompareByRace | src/main/java/ch/lsaviron/crewtimer/results/EventId.java:15-17 | Different races sort by declaration order, whatever the numbers. |
| EventIds.CompareZero | src/main/java/ch/lsaviron/crewtimer/results/EventId.java:15-19 | Known identifiers compare equal exactly when they are equal. |
| EventIds.CompareAntisymmetric | src/main/java/ch/lsaviron/crewtimer/results/EventId.java:15-19 | The comparator is antisymmetric on known markers. |
| EventIds.CompareTransitive | src/main/java/ch/lsaviron/crewtimer/results/EventId.java:15-19 | The comparator is transitive on known markers. |
| CategoryKeys.CompareTo | src/main/java/ch/lsaviron/crewtimer/results/EventCategoryKey.java:9-12 | The key order is defined exactly when both markers are known. |
| CategoryKeys.CompareToByEvent | src/main/java/ch/lsaviron/crewtimer/results/EventCategoryKey.java:10 | Keys of different events are ordered by their events alone. |
| CategoryKeys.CompareToSameEvent | src/main/java/ch/lsaviron/crewtimer/results/EventCategoryKey.java:11 | Keys of one event are ordered by their category codes. |
| CategoryKeys.CompareToZero | src/main/java/ch/lsaviron/crewtimer/results/EventCategoryKey.java:9-12 | Keys compare equal exactly when they are equal, so the TreeMap keeps one entry per key. |
| CategoryKeys.CompareToAntisymmetric | src/main/java/ch/lsaviron/crewtimer/results/EventCategoryKey.java:9-12 | The key order is antisymmetric. |
| CategoryKeys.CompareToTransitive | src/main/java/ch/lsaviron/crewtimer/results/EventCategoryKey.java:9-12 | The key order is transitive. |
| CategoryKeys.WithCategory | src/main/java/ch/lsaviron/crewtimer/results/EventCategoryKey.java:14-16 | The event is kept and only the category replaced. |
| CategoryKeys.IsSwissChampionship | src/main/java/ch/lsaviron/crewtimer/results/LSM.java:332-334 | A championship category is one whose last character is '*'. |
| CategoryKeys.ToStandardCategory | src/main/java/ch/lsaviron/crewtimer/results/LSM.java:270-271 | The standard category is never a championship category and is never longer than the original. |
| CategoryKeys.StandardCategoryIdempotent | src/main/java/ch/lsaviron/crewtimer/results/LSM.java:270-271 | Taking the standard category twice is the same as once. |
| CategoryKeys.StandardCategoryShorter | src/main/java/ch/lsaviron/crewtimer/results/LSM.java:268-271 | A championship category loses at least its final '*'. |
| CategoryResults.CompareNullsLastInt | src/main/java/ch/lsaviron/crewtimer/results/CategoryResult.java:63-65 | A missing event rank sorts after every rank, and ranks compare equal only when equal. |
| CategoryResults.CompareNullsLastStringZero | src/main/java/ch/lsaviron/crewtimer/results/CategoryResult.java:66-67 | Finish texts compare equal only when equal. |
| CategoryResults.CompareNullsLastStringTransitive | src/main/java/ch/lsaviron/crewtimer/results/CategoryResult.java:66-67 | The nulls-last order on finish texts is transitive. |
| CategoryResults.CompareKeys | src/main/java/ch/lsaviron/crewtimer/results/CategoryResult.java:57-69 | The natural order is defined exactly when both markers are known. |
| CategoryResults.CompareKeysZero | src/main/java/ch/lsaviron/crewtimer/results/CategoryResult.java:57-69 | Two results compare equal exactly when event, category, event rank and finish are equal. |
| CategoryResults.CompareKeysMissingFinishLast | src/main/java/ch/lsaviron/crewtimer/results/CategoryResult.java:66-67 | Of two otherwise equal results, the one without finish comes last. |
| CategoryResults.CompareKeysTotalTransitive | src/main/java/ch/lsaviron/crewtimer/results/CategoryResult.java:57-69 | The natural order is transitive. |
| CategoryResults.NaturalLeqTotalPreorder | src/main/java/ch/lsaviron/crewtimer/results/LSM.java:118 | The natural order is total and transitive, so sorting by it is well defined. |
| CategoryResults.RankLeqTotalPreorder | src/main/java/ch/lsaviron/crewtimer/results/LSM.java:300-301 | The event-rank order, missing ranks last, is total and transitive. |
| CategoryResults.CategoryResult.constructor | src/main/java/ch/lsaviron/crewtimer/results/CategoryResult.java:29-43 | A new result holds the given fields and no category rank yet. |
| CategoryResults.CategoryResult.Copy | src/main/java/ch/lsaviron/crewtimer/results/CategoryResult.java:50-55 | A copy is a new object equal to its base field by field, category rank included. |
| CategoryResults.CategoryResult.Key | src/main/java/ch/lsaviron/crewtimer/results/CategoryResult.java:7-21 | The ordered fields are final, so the order of a result never changes. |
| CategoryResults.CategoryResult.CompareTo | src/main/java/ch/lsaviron/crewtimer/results/CategoryResult.java:57-69 | Defined exactly for known markers; zero only for equal ordered fields. |
| CategoryResults.CategoryResult.IsSwissChampionship | src/main/java/ch/lsaviron/crewtimer/results/CategoryResult.java:71-73 | A result is a championship result exactly when its category's last character is '*'. |
| CategoryResults.CategoryResult.GetEventCategory | src/main/java/ch/lsaviron/crewtimer/results/CategoryResult.java:71-77 | The map key is (event, category), and it is a championship key exactly when the result is a championship result. |
| CategoryResults.ValuesSortBy | src/main/java/ch/lsaviron/crewtimer/results/LSM.java:300-301 | Sorting objects by a final field and then reading their values is sorting the values. |
| TimeOfDay.Of | src/main/java/ch/lsaviron/crewtimer/results/LSM.java:166 | A time built from its fields has those fields. |
| TimeOfDay.OfFields | src/main/java/ch/lsaviron/crewtimer/results/LSM.java:166 | A time is determined by its fields. |
| TimeOfDay.Plus | src/main/java/ch/lsaviron/crewtimer/results/LSM.java:178 | `LocalTime.plus(Duration)` gives the time moved by the duration, modulo one day. |
| TimeOfDay.PlusOneHour | src/main/java/ch/lsaviron/crewtimer/results/LSM.java:253 | `plusHours(1)` moves the hour on, wrapping at midnight, and keeps minute, second and nanosecond. |
| TimeOfDay.WithMinute | src/main/java/ch/lsaviron/crewtimer/results/LSM.java:255 | `withMinute` replaces the minute only. |
| TimeOfDay.ParseIso | src/main/java/ch/lsaviron/crewtimer/results/LSM.java:166 | `LocalTime.parse` accepts "HH:mm" with optional seconds and, after them, an optional "." with zero to nine fraction digits, and throws DateTimeParseException otherwise; hour, minute, second and the nanoseconds of the fraction are the values read. |
| TimeOfDay.ParseIsoFraction | src/main/java/ch/lsaviron/crewtimer/results/LSM.java:166 | "HH:mm:ss." followed by up to nine digits reads as that time, the digits padded to nine places giving the nanoseconds. |
| TimeOfDay.ParseIsoSeconds | src/main/java/ch/lsaviron/crewtimer/results/LSM.java:166 | "HH:mm:ss" reads as that time. |
| TimeOfDay.ParseIsoMinutes | src/main/java/ch/lsaviron/crewtimer/results/LSM.java:249 | "HH:mm" reads as that time at second 0. |
| TimeOfDay.ParseIsoEmptyFraction | src/main/java/ch/lsaviron/crewtimer/results/LSM.java:166 | "HH:mm:ss." with no fraction digits reads as that time at nanosecond 0. |
| TimeOfDay.ParseIsoRejectsHour24 | src/main/java/ch/lsaviron/crewtimer/results/LSM.java:166 | "24:00" throws. |
| TimeOfDay.FormatDelta | src/main/java/ch/lsaviron/crewtimer/results/LSM.java:33-34 | "mm:ss.S" shows minute of the hour, second and the truncated tenth. |
| TimeOfDay.FormatDeltaDropsHours | src/main/java/ch/lsaviron/crewtimer/results/LSM.java:33-34 | A whole hour more or less does not change a printed delta. |
| TimeOfDay.FormatRaceTime | src/main/java/ch/lsaviron/crewtimer/results/LSM.java:36-37 | "HH'h'mm" shows hour and minute. |
| LsmRows.LastStartIndex | src/main/java/ch/lsaviron/crewtimer/results/LSM.java:81-99 | The last row with a start time, or none. |
| LsmRows.StartOfLastStart | src/main/java/ch/lsaviron/crewtimer/results/LSM.java:94-99 | A row without start takes the start of the last row before it that has one. |
| LsmRows.ParsePlace | src/main/java/ch/lsaviron/crewtimer/results/LSM.java:106-107 | A missing place is no event rank; a present one is `parseInt` of it (ASCII digits), or NumberFormatException. |
| LsmRows.RowRecord | src/main/java/ch/lsaviron/crewtimer/results/LSM.java:104-115 | A row becomes a result with a known marker, its parsed event, its own category, its carried start and no category rank. |
| LsmRows.CollectAll | src/main/java/ch/lsaviron/crewtimer/results/LSM.java:83-116 | The loop over rows completes exactly when no row throws. |
| LsmRows.CollectFirstFailure | src/main/java/ch/lsaviron/crewtimer/results/LSM.java:83-116 | The first row that throws decides the exception. |
| LsmRows.RecordsOfRows | src/main/java/ch/lsaviron/crewtimer/results/LSM.java:83-116 | Reading succeeds exactly when every row does, giving each row's own result. |
| LsmRows.SelectCount | src/main/java/ch/lsaviron/crewtimer/results/LSM.java:114-115 | The list of a key holds every result of that key, as often as it occurs, and nothing else. |
| LsmRows.GroupedHoldsEveryRecord | src/main/java/ch/lsaviron/crewtimer/results/LSM.java:114-115 | Every result is in the list of its own key. |
| LsmRows.GroupedCounts | src/main/java/ch/lsaviron/crewtimer/results/LSM.java:114-118 | After sorting, each list is still exactly the results of its key, with their counts. |
| LsmRows.GroupedSorted | src/main/java/ch/lsaviron/crewtimer/results/LSM.java:118 | Each list is in the natural order of results. |
| LsmRows.GroupedStable | src/main/java/ch/lsaviron/crewtimer/results/LSM.java:114-118 | Results that tie in the natural order keep their row order. |
| LsmRanking.ParsedFinish | src/main/java/ch/lsaviron/crewtimer/results/LSM.java:164-167 | A blank finish is no time; otherwise the parsed time, or DateTimeParseException. |
| LsmRanking.Finishes | src/main/java/ch/lsaviron/crewtimer/results/LSM.java:162-167 | The finish times of a list exist exactly when every cell parses. |
| LsmRanking.Leader | src/main/java/ch/lsaviron/crewtimer/results/LSM.java:161-170 | The leader is the first result with a finish time. |
| LsmRanking.LeaderStable | src/main/java/ch/lsaviron/crewtimer/results/LSM.java:168-170 | Once set, the first finish never changes. |
| LsmRanking.RankAt | src/main/java/ch/lsaviron/crewtimer/results/LSM.java:158-188 | The rank is 0 exactly for no finish or a finish at 00:00; otherwise it is the 1-based position. |
| LsmRanking.DeltaAt | src/main/java/ch/lsaviron/crewtimer/results/LSM.java:168-180 | No delta up to the leader; kept for a later result without finish; a seven-character text otherwise (its value is stated by `DeltaBehindLeader`). |
| LsmRanking.Fixed | src/main/java/ch/lsaviron/crewtimer/results/LSM.java:162-189 | The pass sets rank and delta and keeps every other field. |
| LsmRanking.FixList | src/main/java/ch/lsaviron/crewtimer/results/LSM.java:157-190 | The pass on a list succeeds exactly when every finish parses, keeps its length and otherwise throws DateTimeParseException. |
| LsmRanking.FixedPrefix | src/main/java/ch/lsaviron/crewtimer/results/LSM.java:162-189 | A later result changes neither the rank nor the delta of an earlier one. |
| LsmRanking.DeltaNoneUpToLeader | src/main/java/ch/lsaviron/crewtimer/results/LSM.java:168-170 | Every result up to and including the first finisher has no delta. |
| LsmRanking.DeltaBehindLeader | src/main/java/ch/lsaviron/crewtimer/results/LSM.java:174-179 | A later finisher gets (its finish − the leader's) modulo 24 h, printed as "mm:ss.S": minute of the hour, second, and the tenth truncated; an earlier finish listed later wraps round. |
| LsmRanking.FormatGap | src/main/java/ch/lsaviron/crewtimer/results/LSM.java:174-179 | `LocalTime.MIN.plus(gap)` printed as "mm:ss.S" shows the gap modulo 24 h: its minute of the hour, second and truncated tenth. |
| LsmRanking.FormatGapWraps | src/main/java/ch/lsaviron/crewtimer/results/LSM.java:174-179 | A finish at 10:00:00 behind a leader at 10:00:05 prints "59:55.0": the negative gap wraps round the day. |
| LsmRanking.RanksIncrease | src/main/java/ch/lsaviron/crewtimer/results/LSM.java:181-188 | Ranks of ranked results strictly increase down the list. |
| LsmRanking.TiedFinishesRankedApart | src/main/java/ch/lsaviron/crewtimer/results/LSM.java:159-188 | Equal finishes still get different ranks: their positions. |
| LsmRanking.GetMedal | src/main/java/ch/lsaviron/crewtimer/results/LSM.java:306-319 | A medal exactly for ranks 1 to 3 within the allowed count: gold, silver, bronze. |
| LsmRanking.GetMedalInjective | src/main/java/ch/lsaviron/crewtimer/results/LSM.java:306-319 | Different ranks never get the same medal. |
| LsmRanking.GetNbMedals | src/main/java/ch/lsaviron/crewtimer/results/LSM.java:321-330 | At most three and at most one per crew; the championship gives three or one per crew; the regatta never rewards the last crew. |
| LsmRanking.MedalsOfFixedList | src/main/java/ch/lsaviron/crewtimer/results/LSM.java:227-230 | In a ranked regatta list the last result gets no medal, and no medal is given twice. |
| LsmRanking.RoundToFive | src/main/java/ch/lsaviron/crewtimer/results/LSM.java:251 | The minute rounded to a multiple of five, at most two minutes away. |
| LsmRanking.GetStartTime | src/main/java/ch/lsaviron/crewtimer/results/LSM.java:242-258 | No start gives "<startTime>", "DNS" is kept, any other start is printed exactly when it parses. |
| LsmRanking.GetStartTimeShows | src/main/java/ch/lsaviron/crewtimer/results/LSM.java:242-258 | A start that parses prints its hour with the minute rounded to five, or, when the minute rounds to 60, the next hour with the minute unchanged. |
| LsmRanking.GetStartTimeKeepsMinuteOnCarry | src/main/java/ch/lsaviron/crewtimer/results/LSM.java:252-253 | "09:58" is printed "10h58". |
| LsmRanking.GetStartTimeRounded | src/main/java/ch/lsaviron/crewtimer/results/LSM.java:242-258 | The corrected start time keeps the placeholder, "DNS" and the parse failures of the original. |
| LsmRanking.GetStartTimeRoundedNearest | src/main/java/ch/lsaviron/crewtimer/results/LSM.java:249-257 | The corrected start time shows the clock time nearest on the five-minute grid. |
| LsmRanking.GetStartTimeRoundedCarry | src/main/java/ch/lsaviron/crewtimer/results/LSM.java:252-253 | With the correction, "09:58" is printed "10h00". |
| LsmMerge.Destination | src/main/java/ch/lsaviron/crewtimer/results/LSM.java:270-289 | The destination has the standard category and the same marker; it is the single existing match, or, when none exists, a new key with the championship key's whole event (marker and id) and the standard category. |
| LsmMerge.MergeStep | src/main/java/ch/lsaviron/crewtimer/results/LSM.java:266-302 | One championship key throws exactly when several destinations match; other keys change nothing. |
| LsmMerge.MergeStepSorted | src/main/java/ch/lsaviron/crewtimer/results/LSM.java:300-301 | The destination list ends up in event-rank order, missing ranks last. |
| LsmMerge.MergeStepStable | src/main/java/ch/lsaviron/crewtimer/results/LSM.java:297-301 | Results with equal event rank keep their order: first the destination's, then the copies. |
| LsmMerge.MergeAll | src/main/java/ch/lsaviron/crewtimer/results/LSM.java:261-304 | The merge only adds keys, every added key is a standard category, and championship lists are untouched. |
| LsmMerge.MergeAllNoChampionship | src/main/java/ch/lsaviron/crewtimer/results/LSM.java:268 | Without a championship key the map is unchanged. |
| LsmMerge.MergeAllUntargeted | src/main/java/ch/lsaviron/crewtimer/results/LSM.java:261-304 | A list whose key is not the standard category, under the same race marker, of any visited championship key comes out of the merge unchanged. |
| LsmMerge.MergeAllAmbiguous | src/main/java/ch/lsaviron/crewtimer/results/LSM.java:290-293 | A championship key with several matching destinations makes the merge throw, whatever the visiting order. |
| LsmMerge.StepKeepsDestination | src/main/java/ch/lsaviron/crewtimer/results/LSM.java:280-299 | A later step keeps a key's single destination and only adds to it. |
| LsmMerge.MergeAllCopies | src/main/java/ch/lsaviron/crewtimer/results/LSM.java:261-304 | After a successful merge every championship key has one destination, holding all its results. |
| LsmPipeline.Add | src/main/java/ch/lsaviron/crewtimer/results/LSM.java:114-115 | `computeIfAbsent(...).add` appends to the key's list, creating it if needed, and changes no other list. |
| LsmPipeline.AddRecord | src/main/java/ch/lsaviron/crewtimer/results/LSM.java:114-115 | Adding a new result keeps the map the grouping of the results read so far, each object in one list. |
| LsmPipeline.ReadRow | src/main/java/ch/lsaviron/crewtimer/results/LSM.java:104-113 | A row gives a new result object holding the row's values, or the row's exception. |
| LsmPipeline.Group | src/main/java/ch/lsaviron/crewtimer/results/LSM.java:78-116 | The loop over rows makes one new object per row, in row order, and the map is these distinct objects added one by one under their keys; their values are the records of the rows; or the loop throws the first row's exception. |
| LsmPipeline.TableOfGrouping | src/main/java/ch/lsaviron/crewtimer/results/LSM.java:94-115 | Adding distinct objects one by one groups their values by key, in the order added, and no object is in two lists. |
| LsmPipeline.TableOfObjects | src/main/java/ch/lsaviron/crewtimer/results/LSM.java:114-115 | The objects of the built map are exactly the objects added. |
| LsmPipeline.Read | src/main/java/ch/lsaviron/crewtimer/results/LSM.java:78-118 | Grouping then sorting gives lists that share no object and whose values are `Grouped` of the rows. |
| LsmPipeline.SortAllValues | src/main/java/ch/lsaviron/crewtimer/results/LSM.java:118 | Sorting every list sorts every list's values in natural order. |
| LsmPipeline.FixStep | src/main/java/ch/lsaviron/crewtimer/results/LSM.java:163-188 | The first finish, delta and rank that the loop body computes for the next result are those of `FirstFinish`, `DeltaAt` and `RankAt` on the finishes extended by its own. |
| LsmPipeline.FixResult | src/main/java/ch/lsaviron/crewtimer/results/LSM.java:163-188 | One result gets the rank and delta of its position, and the first finish is updated. |
| LsmPipeline.FixAt | src/main/java/ch/lsaviron/crewtimer/results/LSM.java:162-189 | One pass of the inner loop extends the fixed prefix by one result. |
| LsmPipeline.FixCategory | src/main/java/ch/lsaviron/crewtimer/results/LSM.java:158-189 | The inner loop leaves a list with the values of `FixList` of its old values, or throws its exception. |
| LsmPipeline.FixedAll | src/main/java/ch/lsaviron/crewtimer/results/LSM.java:158-189 | Once the loop has fixed every result of a list, the list's values are `FixList` of its old values. |
| LsmPipeline.FixEntry | src/main/java/ch/lsaviron/crewtimer/results/LSM.java:157-189 | One outer pass fixes one list and touches no other. |
| LsmPipeline.FixRankAndDelta | src/main/java/ch/lsaviron/crewtimer/results/LSM.java:155-191 | Every list ends with the values of `FixList` of its old values, or the pass throws DateTimeParseException. |
| LsmPipeline.CopyAll | src/main/java/ch/lsaviron/crewtimer/results/LSM.java:298 | The copies are new, distinct objects with the same values. |
| LsmPipeline.MergedApart | src/main/java/ch/lsaviron/crewtimer/results/LSM.java:297-301 | Appending copies and sorting keeps every object in one list only. |
| LsmPipeline.MergeEntry | src/main/java/ch/lsaviron/crewtimer/results/LSM.java:266-302 | One pass of the merge loop does `MergeStep` on the values, in place, and keeps objects apart. |
| LsmPipeline.MergeNext | src/main/java/ch/lsaviron/crewtimer/results/LSM.java:264-302 | One more visited key extends the merge by its step. |
| LsmPipeline.MergeSpecialCategories | src/main/java/ch/lsaviron/crewtimer/results/LSM.java:261-304 | The loop visits every key once, in some order, and leaves the values of `MergeAll` for that order, or throws. |
| LsmPipeline.FixMerged | src/main/java/ch/lsaviron/crewtimer/results/LSM.java:121 | The ranking pass on the merged map gives `FixTable` of its values. |
| LsmPipeline.ProcessResults | src/main/java/ch/lsaviron/crewtimer/results/LSM.java:78-121 | A reading exception comes out unchanged; otherwise the merge visits every key once and the outcome (table values or exception) is `Processed` of the grouped rows in that visiting order. |
| PrintHelper.FormatDelta | src/main/java/ch/lsaviron/crewtimer/results/PrintHelper.java:22-27 | No delta prints as nothing; a delta prints as '+' and the delta. |
| PrintHelper.ParseFormatDelta | src/main/java/ch/lsaviron/crewtimer/results/PrintHelper.java:22-27 | The printed delta loses nothing: it reads back to the delta. |
| PrintHelper.FormatAdjTime | src/main/java/ch/lsaviron/crewtimer/results/PrintHelper.java:32-37 | A missing time prints "(inconnu)"; any other is printed unchanged. |
| PrintHelper.FormatRank | src/main/java/ch/lsaviron/crewtimer/results/PrintHelper.java:39-44 | Nothing exactly for a missing rank or rank 0; decimal text otherwise. |
| PrintHelper.ParseFormatRank | src/main/java/ch/lsaviron/crewtimer/results/PrintHelper.java:43 | Every non-zero int rank reads back from its text. |
| ExcelPrintHelper.ChampionshipView | src/main/java/ch/lsaviron/crewtimer/results/ExcelPrintHelper.java:394-398 | Exactly the championship entries, with their own lists. |
| ExcelPrintHelper.LsmView | src/main/java/ch/lsaviron/crewtimer/results/ExcelPrintHelper.java:403-407 | Exactly the other entries, with their own lists. |
| ExcelPrintHelper.GetSubResults | src/main/java/ch/lsaviron/crewtimer/results/ExcelPrintHelper.java:389-410 | Two views: "swissChampionship" first, then "lsm". |
| ExcelPrintHelper.SubResultsPartition | src/main/java/ch/lsaviron/crewtimer/results/ExcelPrintHelper.java:394-422 | The views are disjoint, together hold every key, and share the lists of the input. |
| ExcelPrintHelper.GetPictureType | src/main/java/ch/lsaviron/crewtimer/results/ExcelPrintHelper.java:76-84 | PNG exactly for a name ending ".png" in any case, JPEG for ".jpg", RuntimeException otherwise. |
| ExcelPrintHelper.PngNotJpg | src/main/java/ch/lsaviron/crewtimer/results/ExcelPrintHelper.java:77-81 | No name ends with both suffixes, so the test order does not matter. |
| ExcelPrintHelper.LogoPictureTypes | src/main/java/ch/lsaviron/crewtimer/results/ExcelPrintHelper.java:65-84 | The two logos never throw: one JPEG, one PNG. |
| PrintModes.OutputExtension | src/main/java/ch/lsaviron/crewtimer/results/PrintMode.java:115-142 | Only XLS and XLSX write a file, ".xls" and ".xlsx". |
| PrintModes.ResolveSibling | src/main/java/ch/lsaviron/crewtimer/results/PrintMode.java:150 | Same directory, another file name. |
| PrintModes.ReplaceCsvSuffix | src/main/java/ch/lsaviron/crewtimer/results/PrintMode.java:151 | A name ending in ".csv" in any case ends with the extension instead, four characters shorter plus the extension; any other name is unchanged. |
| PrintModes.ReplaceCsvSuffixSpec | src/main/java/ch/lsaviron/crewtimer/results/PrintMode.java:151 | A final ".csv" in any case is replaced by the extension, keeping what precedes it; otherwise the name is unchanged. |
| PrintModes.ReplaceCsvSuffixOnce | src/main/java/ch/lsaviron/crewtimer/results/PrintMode.java:151 | Replacing twice is replacing once. |
| PrintModes.ReplaceCsvSuffixTrailingOnly | src/main/java/ch/lsaviron/crewtimer/results/PrintMode.java:151 | Only the trailing suffix goes: "a.csv.csv" becomes "a.csv.xls". |
| PrintModes.BuildOutputFile | src/main/java/ch/lsaviron/crewtimer/results/PrintMode.java:148-152 | The directory is kept, and a name without ".csv" gives back the input path. |
| PrintModes.OutputFile | src/main/java/ch/lsaviron/crewtimer/results/PrintMode.java:115-142 | Only the workbook modes have an output file, next to the input file. |
| PrintModes.GetSubResults | src/main/java/ch/lsaviron/crewtimer/results/PrintMode.java:53-106 | The console modes print the whole map as one view named "TOUS"; the workbook modes print two views. |
| PrintModes.SubResultsCoverOnce | src/main/java/ch/lsaviron/crewtimer/results/SimpleSubResult.java:20-28 | In every mode the views hold every entry exactly once, with its own list. |

## Left out

- CSV reading, the field-count check, the command line and `main`: the rows are given as already-read values (`LsmRows.CsvRow`), with the event number and category cells taken as present.
- `printDiffBugColumns`: it only writes to the error stream.
- `printResults` and every console and workbook rendering call, including `end()`, styles, images, properties and `cmToEmu`: I/O and foreign libraries.
- The "Info" line printed when a destination is created, and the diagnostic lines of `fromEmoji`: output only.
- `LSM.normalize` is not part of this model: markers are taken as already normalized, so normalization is the identity. `LSM.currentYear` is taken as the constant 2024.
- `EventCategoryKey.isSwissChampionshipCategory` and `toStandardCategory` are called (LSM.java:219, 268, 271; ExcelPrintHelper.java:396, 405) but not defined in the source text: EventCategoryKey.java declares only `compareTo` and `withCategory`. The model reads "championship" as "the category ends with '*'", following `LSM.isSwissChampionship` (LSM.java:332-334), and the standard category as the category with every '*' removed, following `replace("*", "")` in LSMTest.java:42.
- `LsmEventCategory.EVENT_CATEGORIES` is not part of this model; `LsmCategory.StandardCodeRemovesStar` states the rule for every category instead of a list.
- `java.time`: a `LocalTime` is its nanosecond of the day; `LocalTime.parse` and the two formatters are written out for the patterns the core uses.
- Comparators are modelled by their sign only.
- String order compares Dafny characters (code points); Java compares UTF-16 units. The two differ only for characters outside the Basic Multilingual Plane.
- JavaText.ParseInt: accepts ASCII digits only; `Integer.parseInt` also reads the other Unicode decimal digits of one UTF-16 unit (Arabic-Indic, fullwidth and so on), whose set depends on the Unicode version of the Java runtime. The model throws NumberFormatException for them.
- LsmRows.ParsePlace: a place written with non-ASCII decimal digits is rejected, for the reason given for `JavaText.ParseInt`.
- `HashSet` iteration order in `mergeSpecialCategories`: the visiting order is an arbitrary ghost sequence returned by the method. The results are stated for that order, and order-independent facts are proved for every order.
- `ExcelPrintHelper.GetSubResults`: the views keep the input's key order because a map has none to lose; the merge function of `getCollector` never runs, since the keys of a map are unique.
- `PrintModes.BuildOutputFile`: `Paths.get` parsing and normalization are not modelled, nor a root path without file name; the path is given as a directory part and a file name.
- `PrintModes.ReplaceCsvSuffix`: the regular expression's `$` also matches before a final line terminator; file names are taken to have none.
- `JavaText.AsciiLower` folds ASCII letters only; `toLowerCase(Locale.ENGLISH)` also folds other letters, which do not change a test against ".png", ".jpg" or ".csv" in practice.
- `SwissRowing.ParseToString` and `LsmCategory.ParseToString` are stated for rower counts 0 to 9: the parser reads a single character for the count.
- `LsmPipeline.FixRankAndDelta` and `LsmPipeline.MergeSpecialCategories` require lists that share no object (`Disjoint`). `Read` establishes this and the merge preserves it; the source relies on it without checking.

## Findings

| source | as written | input that shows it | evidently intended | confidence | as-written member | corrected member |
|---|---|---|---|---|---|---|
| src/main/java/ch/lsaviron/crewtimer/results/LSM.java:252-253 | When the minute rounds up to 60, `plusHours(1)` moves the hour but keeps the original minute | start "09:58" prints "10h58" | the next hour at minute 0, "10h00" | high (not executed) | LsmRanking.GetStartTimeKeepsMinuteOnCarry | LsmRanking.GetStartTimeRoundedNearest |
