# Chomp tooling model

This project models, in Dafny, the data-handling core of the chomp
monster-battler's tools:

- the **drool** browser tools: the CSV loaders and tokenizer
  (`drool/utils.js`), the damage and matchup analysis
  (`drool/mon-analysis.js`), the mon stats editor (`drool/mon-stats.js`),
  the moves editor (`drool/mon-moves.js`) and the mon guide
  (`drool/mon-full.js`);
- the **Python generators**: the type-chart packer that turns `types.csv`
  into two 256-bit words of 2-bit effectiveness codes (`python/generate.py`
  and its lenient twin `src/types/generator.py`), the type-chart graph
  (`src/types/chart.py`), the sprite compressor that indexes a frame's
  colours and packs the pixel indices into 256-bit words
  (`python/mini_to_svg.py`), and the Solidity deploy-script generator
  (`python/mon_stats_to_sol.py`).

Each module follows one part of the program:

| module | part |
|---|---|
| `Text`, `JsValues`, `PyNumbers` | string helpers, `parseInt`/`parseFloat`, Python `int()`/`float()` |
| `Sorting` | the `localeCompare`/number comparator, the stable sort, the header toggle |
| `Binary` | bit strings, `format(v, '0nb')`, right shifts |
| `Csv` | `parseCsvLine`, the three row loaders, `loadTypeData`, the export quoting |
| `Heatmap`, `Damage`, `Matchup` | the analysis page |
| `StatsTable`, `MovesTable`, `MonGuide` | the editors and the guide |
| `TypePacking`, `TypeGraph` | the type-chart generators |
| `Sprite` | the sprite compressor |
| `SolNames`, `Deploy` | the deploy-script generator |

Code that updates state step by step is modelled as methods with loops.
Each method is proved equal to a specification function, and the
properties are proved about that function. The editors, the guide's
navigator, the row-tint cache and a mon's move and ability lists update
fields in place, so they are modelled as classes. Frames are `array2`
values, as the numpy arrays are.

Where a design description and the code disagree, the model follows the
code:

- In the stats editor, `columnDirection === true` records that the last
  sort was ascending. The first click on a column therefore sorts
  ascending and the second descending.
- The moves editor stores the opposite flag: it sorts ascending exactly
  when `columnDirection` is false.
- The moves editor's `parseCSV` keeps every non-blank line, even one
  whose first field is empty.
- The shared loaders in `drool/utils.js` drop such a line.

## Model

| member | source | states |
|---|---|---|
| Csv.ParseCsvLine | drool/utils.js:145-174 | the character loop returns exactly the fields of the quote-aware tokenizer `Fields` |
| Csv.FieldCount | drool/utils.js:150-173 | a line has one more field than it has commas outside quotes |
| Csv.FieldsQuoteFree | drool/utils.js:162-168 | on a line without `"` the tokenizer agrees with `split(',')` |
| Csv.ScanEscaped | drool/utils.js:153-160 | inside quotes a doubled `""` reads back as one `"` and the closing quote ends quoting |
| Csv.QuoteField | drool/mon-moves.js:655-657 | a field with no comma, quote or newline is written unchanged; otherwise it is wrapped in quotes |
| Csv.ExportRoundTrip | drool/mon-moves.js:651-660 | tokenizing a line of quoted export fields gives back exactly those fields (the tokenizer of lines 177-206 is the same as utils.js's) |
| Csv.Coerce | drool/utils.js:45-59 | mon number headers always give numbers; move numbers give a number or `"?"` (lines 95-98); any other text cell is the raw value or `""` |
| Csv.BuildRowKeys | drool/utils.js:43-60 | a row object has exactly the header names as keys |
| Csv.BuildRowLastWins | drool/utils.js:43-60 | under a repeated header the last column's value wins |
| Csv.BuildRowLoop | drool/utils.js:43-60 | the header loop builds the row of the specification `BuildRow` |
| Csv.LineRowSkip | drool/utils.js:36-40 | a line gives no row iff it is blank after trimming or its first field is empty (also lines 87-90 and 126-129); every row has the header keys |
| Csv.ReadDataRows | drool/utils.js:35-63 | the line loop returns the rows of `DataRows` over the lines after the header |
| Csv.LoadRows | drool/utils.js:21-70 | a file with fewer than two lines gives no rows; otherwise the rows of its data lines |
| Csv.DataRowsAppend | drool/utils.js:34-63 | the rows of two runs of lines are the rows of each run, in file order |
| Csv.Headers | drool/utils.js:31 | there is one header per comma-separated piece of the first line |
| Csv.LoadTypeData | drool/utils.js:176-202 | the loop builds the nested table of `TypeSpec` |
| Csv.AddTypeLineEffect | drool/utils.js:185-194 | a line sets `typeData[attacker][defender]` to its third field and changes no other entry |
| Text.JoinSplit | drool/utils.js:31 | joining the pieces of `split(sep)` with `sep` gives back the string |
| Text.Split | drool/utils.js:31 | `split` gives one piece more than there are separators, and no piece holds the separator |
| Text.SplitLines | drool/utils.js:26 | splitting at `\r\n` or `\n` gives at least one line and no line holds `\n` |
| Text.KeepMembers | python/mon_stats_to_sol.py:117 | the filtered string holds exactly the characters of the input that pass the filter |
| Text.RemoveSpacesMembers | python/mon_stats_to_sol.py:117 | `replace(" ", "")` removes the spaces and keeps every other character |
| Text.ToLower | python/mon_stats_to_sol.py:123 | lower-casing keeps the length and maps each character on its own |
| JsValues.ParseIntOfNatToString | drool/utils.js:56 | `parseInt` reads a rendered natural number back as that number |
| PyNumbers.PyIntOfNatToString | python/mon_stats_to_sol.py:69-77 | Python's `int()` reads a rendered natural number back as that number |
| Sorting.SortByKeyCorrect | drool/mon-stats.js:648-662 | the sort returns a permutation that is ordered by the key, and that is stable (rows of one key keep their order) |
| Sorting.LessStrictTotal | drool/mon-moves.js:243-265 | the comparator of numbers and `localeCompare`d strings is a strict total order |
| Sorting.SortEqualKeys | drool/mon-analysis.js:414-415 | when every key is equal, as for an unknown column whose comparator returns 0, the order is kept |
| Sorting.RepeatedClicks | drool/mon-analysis.js:347-354 | one click on the sorted column flips the flag and one on a new column sets it (the shared `Sorting.Toggle`), so after n clicks on a new column the flag is set exactly when n is odd |
| Sorting.SortedSet | python/generate.py:90 | `sorted(set)` lists every element exactly once, in strictly ascending order |
| Heatmap.ColorIntensity | drool/mon-analysis.js:193-196 | there is no intensity exactly when the minimum equals the maximum (the 0/0 of the source gives NaN, so no tint); otherwise a value in range gets an intensity from 0 to 40: 0 at the minimum and 40 exactly at the maximum (also mon-stats.js:617-620) |
| Heatmap.MinOf | drool/mon-analysis.js:181-183 | `Math.min` is one of the values and at most each of them |
| Heatmap.MaxOf | drool/mon-analysis.js:181-183 | `Math.max` is one of the values and at least each of them |
| Damage.TypeEffectivenessMatchesCodes | drool/mon-analysis.js:113-123 | the multiplier of `Damage.TypeEffectiveness` (each type's entry with a raw 5 read as 0.5, a second type `NA` counting 1, the two multiplied) equals the product of the multipliers of the types' 2-bit codes, and of the first type's alone when the second is `NA` |
| Damage.TypeEffectivenessRange | drool/mon-analysis.js:113-123 | with chart entries 0, 1, 2 or 5 the multiplier is one of 0, 1/4, 1/2, 1, 2 or 4 |
| Damage.MoveDamage | drool/mon-analysis.js:126-168 | a record exists iff the move has a non-zero numeric power and is Physical or Special; it uses the matching attack and defense stats and the type multiplier |
| Damage.PercentHpClosedForm | drool/mon-analysis.js:142-162 | percent HP = power × attack × multiplier × 100 / (defense × defender HP) |
| Damage.PercentHpNonNegative | drool/mon-analysis.js:148-162 | with non-negative stats and chart entries the damage is never negative |
| Damage.MovesFor | drool/mon-analysis.js:171-173 | a mon's moves are exactly the moves whose `Mon` is its name |
| Damage.MovesForAppend | drool/mon-analysis.js:171-173 | the filter keeps the move list's order |
| Damage.MovesForAll | drool/mon-analysis.js:171-173 | a list of one mon's moves is kept whole |
| Matchup.AttackerHits | drool/mon-analysis.js:91-102 | the loop over an attacker's moves returns the hits of `Hits` |
| Matchup.CalculateMonsterAnalysis | drool/mon-analysis.js:82-110 | the analysis of the selected defender is the hits of every attacker's damaging moves |
| Matchup.HitsMember | drool/mon-analysis.js:93-100 | a hit is listed iff it is the damage record of one of the attacker's damaging moves |
| Matchup.AnalysisMember | drool/mon-analysis.js:89-103 | a hit is listed iff it comes from some attacker and one of that attacker's own damaging moves |
| Matchup.Consider | drool/mon-analysis.js:317-323 | a move replaces the best so far only when it is damaging and does strictly more |
| Matchup.BestMoveBound | drool/mon-analysis.js:307-323 | the best move does at least as much as every damaging move, and a chosen move does more than 0 |
| Matchup.BestMoveWitness | drool/mon-analysis.js:307-323 | a chosen best is one of the moves, and every earlier move does strictly less (the first maximum wins) |
| Matchup.NoMoveIffNoDamage | drool/mon-analysis.js:307-336 | no move is chosen iff no damaging move does more than 0 |
| Matchup.EmptyCellIffNoDamage | drool/mon-analysis.js:307-337 | the cell (`Matchup.CellOf` of the loop's final values) is the empty one, 0 %HP, multiplier 0, no type or class and source `" ()"`, exactly when none of the attacker's moves does positive damage to the defender |
| Matchup.BestAgainst | drool/mon-analysis.js:307-337 | the move loop returns the cell of the best move against one defender |
| Matchup.AttackerMatchups | drool/mon-analysis.js:305-338 | an attacker's row holds one best-move cell per defender, in data order |
| Matchup.CalculateMaxDamage | drool/mon-analysis.js:294-344 | the table has one row per mon, each the matchups of that mon |
| Matchup.MaxDamageShaped | drool/mon-analysis.js:294-344 | every row of the table has one cell per defender, naming that defender |
| Matchup.SortState.Click | drool/mon-analysis.js:347-358 | a header click selects the column; a click on the sorted column flips the direction and a click on a new column makes it descending (`Sorting.Toggle`) |
| Matchup.SortState.SetDefault | drool/mon-analysis.js:281-283 | a new analysis is sorted by percent HP, descending |
| Matchup.SortMoveDamageTable | drool/mon-analysis.js:361-421 | the toggle runs unless it is skipped, and the hits are sorted by the column's key in the state's direction |
| Matchup.MoveSortCorrect | drool/mon-analysis.js:381-416 | the move table is a sorted permutation of the hits; an unknown column keeps their order |
| Matchup.DefaultOrderHighestFirst | drool/mon-analysis.js:280-283 | in the default order, percent HP never rises down the table |
| Matchup.First | drool/mon-analysis.js:503-506 | `find` returns the first position that matches, or none when no position does |
| Matchup.AttackerRowsOrdered | drool/mon-analysis.js:496-518 | the attacker view (`Matchup.AttackerRows`: data order when no column is selected, lines 496-498) sorted by a defender column is a permutation of the rows ordered by that column's percent HP in the chosen direction |
| Matchup.DefenderKeyIsCell | drool/mon-analysis.js:500-509 | with distinct names, a defender's sort key is that defender's cell |
| Matchup.DefenderRowsOrdered | drool/mon-analysis.js:496-518 | the defender view (`Matchup.DefenderRows`: data order when no column is selected) sorted by an attacker column is a permutation of the mons ordered by that attacker's damage against each |
| Matchup.ShadeOf | drool/mon-analysis.js:188-198 | damage over 90 is shown as high damage; other values get no tint exactly when the minimum equals the maximum, and otherwise a tint from 0 to 40 (also lines 617-627 and 704-712) |
| Matchup.ShadesInRange | drool/mon-analysis.js:181-197 | each cell's shade is high iff it exceeds 90; a cell of at most 90 is untinted iff every value is the same; a tint is from 0 to 40 and is 40 exactly at the table's maximum |
| Matchup.NoTintIffEqual | drool/mon-analysis.js:181-197 | a value of at most 90 is left untinted exactly when every value of the list equals it, as with one mon or one move |
| TypePacking.MultiplierToBits | python/generate.py:6-16 | the strict variant fails exactly on unknown multipliers, while the lenient one (src/types/generator.py:3-11) never fails; the result is the two-bit code |
| TypePacking.FormatBinCode | python/generate.py:6-16 | the bits written are `format(code, '02b')` |
| TypePacking.ParseCsvForSolidity | python/generate.py:18-39 | the row loop returns the packed pair of `PackSpec`, or fails as it does (also src/types/generator.py:13-34) |
| TypePacking.CodesFailPersists | python/generate.py:16-33 | once a row fails to convert, the whole file fails |
| TypePacking.RevBitsValue | python/generate.py:31-35 | prepending each code's bits builds the word in which entry k sits at bits 2k..2k+1 |
| TypePacking.WordDecode | python/generate.py:31-35 | shifting the word right by 2k and masking with 3 gives entry k |
| TypePacking.GetTypeEffectiveness | python/generate.py:53-68 | the lookup always returns a 2-bit code |
| TypePacking.DecodeCodes | python/generate.py:53-68 | the lookup of attacker a and defender d returns code 15a + d, reading the second word from entry 128 on |
| TypePacking.DecodeRoundTrip | python/generate.py:53-68 | the lookup on the packed words returns the code of each CSV row (also src/types/generator.py:48-63) |
| TypePacking.PackWords | python/generate.py:32-35 | the two integers are the words of the first 128 codes and of the rest |
| TypePacking.PackFits | python/generate.py:32-39 | for at most 256 codes both words fit in 256 bits |
| TypePacking.PaddingKeepsValue | python/generate.py:38 | zero-padding the second bit string does not change its value (also src/types/generator.py:33) |
| TypePacking.VariantsAgree | src/types/generator.py:3-11 | on a file the strict variant accepts, both variants give the same codes |
| TypeGraph.ToRecord | src/types/chart.py:13-22 | a row is skipped iff it is blank, rejected iff it lacks three fields or a number, and otherwise gives the stripped names and the number |
| TypeGraph.PutEffect | src/types/chart.py:20-22 | storing one effectiveness sets that entry and leaves all others |
| TypeGraph.PutInTwoSteps | src/types/chart.py:20-22 | creating the attacker's dict and then setting the entry is the one-step store |
| TypeGraph.ReadCell | src/types/chart.py:15-22 | one non-blank row adds its entry and its two types, or fails |
| TypeGraph.ReadRecords | src/types/chart.py:12-22 | the row loop returns the state of `ReadSpec` |
| TypeGraph.ReadCsv | src/types/chart.py:6-23 | the reader fails iff the rows do; otherwise it returns the data and the sorted list of the types seen (generate.py:73-90 is the same) |
| TypeGraph.SortedTypes | src/types/chart.py:23 | `sorted(types)` lists each type once, in ascending order |
| TypeGraph.ReadFailPersists | src/types/chart.py:15-22 | one bad row fails the whole file |
| TypeGraph.ReadLastWins | src/types/chart.py:20-22 | a later row for the same pair overwrites it and keeps every other entry |
| TypeGraph.ReadTypesCover | src/types/chart.py:18-23 | every attacker and defender in the data is among the types |
| TypeGraph.CreateChart | src/types/chart.py:29-41 | the square matrix holds at row i and column j the entry of types i and j (`TypeGraph.Entry`): 1 for a pair absent from the data, 0.5 for a raw 5 (`TypeGraph.Shown`), and the value itself otherwise (generate.py:96-108 is the same) |
| TypeGraph.EntryRange | src/types/chart.py:31-73 | with values 0, 1, 2 and 5 every cell is 0, 1/2, 1 or 2, and of these only the neutral 1 gets the blank label (`TypeGraph.Label`, lines 63-73: ½, 0 and 2 for those values, blank otherwise) |
| TypeGraph.ShownAgreesWithCode | python/generate.py:97-108 | the value the graph shows equals the multiplier of the packed code (lines 6-16) |
| Binary.BitsValueAppend | python/generate.py:33 | the value of concatenated bit strings is the high part shifted by the length of the low part, plus the low part |
| Binary.ZerosPrefix | python/generate.py:38 | leading zeros do not change a bit string's value |
| Binary.FormatBinCorrect | python/mini_to_svg.py:76 | `format(v, '0wb')` has value v and, when v fits, exactly w digits |
| Binary.FormatBitsValue | python/mini_to_svg.py:76 | formatting the value of a bit string at its own width gives back the string |
| Binary.PadRight | python/mini_to_svg.py:83 | `ljust(w, '0')` keeps the string as a prefix and pads with zeros to w |
| Binary.ShrShr | python/generate.py:67 | two right shifts are one shift by the sum |
| Sprite.BitLengthBounds | python/mini_to_svg.py:37 | `bit_length` is the number of binary digits: n < 2^len and 2^(len-1) <= n |
| Sprite.BitsNeededFits | python/mini_to_svg.py:37 | the bits per pixel are at least 1 and the fewest that number every colour |
| Sprite.CollectColors | python/mini_to_svg.py:24-27 | the set holds exactly the colours that occur in the frame |
| Sprite.AnalyzeFrame | python/mini_to_svg.py:11-61 | it returns the frame's colours, the bits needed, the palette in sorted order (lines 41-42) and an index frame that points each pixel at its colour |
| Sprite.IndexFrame | python/mini_to_svg.py:45-50 | each index points into the palette at the pixel's colour |
| Sprite.IndexRow | python/mini_to_svg.py:48-50 | one row is indexed and the other rows are left as they were |
| Sprite.PaletteDistinct | python/mini_to_svg.py:41-42 | a strictly sorted palette holds no colour twice |
| Sprite.ColorKeyInjective | python/mini_to_svg.py:41 | distinct colours sort under distinct keys |
| Sprite.CompressToUint256 | python/mini_to_svg.py:67-88 | the compressor returns the 256-bit chunks of the row-major pixel encoding |
| Sprite.EncodePixels | python/mini_to_svg.py:72-76 | the pixel loops write the row-major encoding |
| Sprite.EncodeRow | python/mini_to_svg.py:74-76 | one row's loop extends the encoding of the rows before it |
| Sprite.PackWords | python/mini_to_svg.py:79-86 | the chunk loop returns the chunks of the bit string |
| Sprite.ChunksShape | python/mini_to_svg.py:79-86 | there are ceil(len/256) chunks and each fits in 256 bits |
| Sprite.ChunkBitsOfChunks | python/mini_to_svg.py:80-85 | writing the chunks back as 256-bit strings gives the bit string padded with zeros |
| Sprite.EncodeSlice | python/mini_to_svg.py:76 | pixel k occupies bits k·bpp to (k+1)·bpp of the encoding, as its own `format` |
| Sprite.RowMajorIndex | python/mini_to_svg.py:72-76 | pixel (y, x) is entry y·width + x of the row-major order |
| Sprite.PixelOffset | python/mini_to_svg.py:72-84 | pixel (y, x) is encoded at bit offset (y·width + x)·bpp |
| Sprite.PackRoundTrip | python/mini_to_svg.py:76-86 | unpacking the chunks gives back every pixel index |
| Sprite.SpriteRoundTrip | python/mini_to_svg.py:37-86 | with the bits the palette needs, a frame's indices survive encoding and chunking |
| Sprite.DecodePrefix | python/mini_to_svg.py:76-85 | any bit string that starts with the encoding decodes to the pixels |
| Deploy.MonData.constructor | python/mon_stats_to_sol.py:18-33 | a new mon holds its stats and no moves or abilities |
| Deploy.PyIntsCorrect | python/mon_stats_to_sol.py:69-77 | the conversion succeeds iff every field is an integer, and then gives each field's value |
| Deploy.ParseMon | python/mon_stats_to_sol.py:68-80 | a parsed mon keeps its name and types and has stamina 5 |
| Deploy.ParseMonCorrect | python/mon_stats_to_sol.py:68-80 | a row parses iff its seven numeric fields are integers, and the stats are their values |
| Deploy.Enter | python/mon_stats_to_sol.py:81 | storing a mon by name sets that name and keeps every other mon |
| Deploy.TableSomeIffAllParse | python/mon_stats_to_sol.py:67-81 | the table exists iff every row parses |
| Deploy.TableFailsAt | python/mon_stats_to_sol.py:67-81 | one row that fails to parse fails the whole file |
| Deploy.TableOrder | python/mon_stats_to_sol.py:64-82 | the dict's order is the names in first-insertion order, and each entry is a parsed row stored under its own name |
| Deploy.TableKeys | python/mon_stats_to_sol.py:64-82 | the dict's keys are exactly the names of the rows |
| Deploy.TableLastWins | python/mon_stats_to_sol.py:81 | under a repeated name, the last row wins |
| Deploy.MonsStamina | python/mon_stats_to_sol.py:72 | every mon in the table has stamina 5 |
| Deploy.AddMon | python/mon_stats_to_sol.py:68-81 | adding a fresh mon object keeps the dict in step with the table and leaves the other mons |
| Deploy.ReadMonsCsv | python/mon_stats_to_sol.py:62-82 | the reader fails iff a row fails to parse; otherwise its fresh mon objects mirror the table, in order |
| Deploy.StripRowsAt | python/mon_stats_to_sol.py:90-91 | each row is stripped field by field |
| Deploy.Contribution | python/mon_stats_to_sol.py:92-93 | a row adds its own name, or nothing |
| Deploy.AttachedToOwner | python/mon_stats_to_sol.py:92 | rows for other mons add nothing to a mon |
| Deploy.AttachMove | python/mon_stats_to_sol.py:90-93 | one row appends its move to its mon's list and changes no ability list |
| Deploy.ReadMovesCsv | python/mon_stats_to_sol.py:85-93 | every mon's move list gains, in file order, the stripped names of its own rows; abilities are untouched |
| Deploy.AttachAbility | python/mon_stats_to_sol.py:101-105 | one row appends its ability to its mon's list and changes no move list |
| Deploy.ReadAbilitiesCsv | python/mon_stats_to_sol.py:96-105 | every mon's ability list gains, in file order, its own rows' names; moves are untouched |
| Deploy.AddContract | python/mon_stats_to_sol.py:161-166 | an entry is added under the contract name, adding that key and keeping existing entries |
| Deploy.GetContractsForMon | python/mon_stats_to_sol.py:154-177 | the loop over moves then abilities collects the contracts of `Collect` |
| Deploy.CollectKeys | python/mon_stats_to_sol.py:154-177 | the keys are exactly the contract names, kept in first-insertion order |
| Deploy.CollectFirstWins | python/mon_stats_to_sol.py:164-175 | the first name that maps to a contract name fixes its path, dependencies and variable |
| Deploy.ContractNamesMembers | python/mon_stats_to_sol.py:160-175 | a contract name is collected iff some move or ability maps to it |
| Deploy.Values | python/mon_stats_to_sol.py:319 | `mons.values()` lists the stats in the dict's order |
| Deploy.DeployOrderAscending | python/mon_stats_to_sol.py:319-332 | the deploy order is a stable permutation with ascending mon ids |
| Deploy.DeployCalls | python/mon_stats_to_sol.py:318-321 | one deploy call per mon, in the deploy order |
| Deploy.AssignmentLines | python/mon_stats_to_sol.py:241-245 | the loop writes one assignment per name in order |
| Deploy.ArrayLines | python/mon_stats_to_sol.py:239-258 | an array's declaration is followed by its assignments |
| Deploy.AssignmentsComplete | python/mon_stats_to_sol.py:239-256 | assignment i fills slot i with the variable of name i |
| Deploy.MonArraysComplete | python/mon_stats_to_sol.py:160-175 | after collecting a mon's contracts, both arrays get one assignment per move and per ability |
| Deploy.ArrayFilled | python/mon_stats_to_sol.py:240 | when every name has a contract, the array is filled completely |
| SolNames.ConvertTypeToSolidity | python/mon_stats_to_sol.py:108-112 | `NA`, empty and `None` map to `Type.None`; any other type maps to `Type.` followed by it |
| SolNames.ContractNameWordChars | python/mon_stats_to_sol.py:115-118 | a contract name keeps exactly the word characters of the name |
| SolNames.ContractNameIdempotent | python/mon_stats_to_sol.py:115-118 | cleaning a contract name again changes nothing |
| SolNames.KeepWordWithoutSpaces | python/mon_stats_to_sol.py:117 | removing spaces first does not change the word characters kept |
| SolNames.VariableName | python/mon_stats_to_sol.py:44-59 | a name without words becomes `contract`; every result consists of word characters |
| SolNames.VariableNameOfSimpleName | python/mon_stats_to_sol.py:44-59 | a one-word name becomes its lower-cased word characters, with no capitals |
| SolNames.WordsOfWord | python/mon_stats_to_sol.py:47 | a string without whitespace splits into itself, or into nothing when empty |
| SolNames.Capitalize | python/mon_stats_to_sol.py:54 | capitalizing keeps a word's length |
| SolNames.MonDirectoryName | python/mon_stats_to_sol.py:121-123 | a directory name keeps the length and has no capitals |
| SolNames.MonDirectoryNameIdempotent | python/mon_stats_to_sol.py:121-123 | normalizing a directory name again changes nothing |
| StatsTable.BstSixStats | drool/mon-stats.js:416-433 | BST is the sum of the six stats, each read as a number |
| StatsTable.BstIgnores | drool/mon-stats.js:427-431 | changing a cell outside the six stats leaves BST unchanged |
| StatsTable.WithBst | drool/mon-stats.js:416-433 | the row gets a consistent BST and keeps every other cell |
| StatsTable.WithBstIdempotent | drool/mon-stats.js:416-433 | recomputing a consistent BST changes nothing |
| StatsTable.ConsistentUpdate | drool/mon-stats.js:425-433 | replacing a row by a consistent row keeps the table consistent |
| StatsTable.ConsistentPermutation | drool/mon-stats.js:648-662 | reordering a consistent table keeps it consistent |
| StatsTable.HeaderColumnsFacts | drool/mon-stats.js:494-520 | the columns follow the headers; each is well typed (`StatsTable.ColumnOf`: a number column exactly for the six stats and BST, case-insensitively, and editable unless it is BST); a non-editable number BST column is appended when the headers lack one |
| StatsTable.ImportCellCases | drool/mon-stats.js:530-537 | in a number column an empty field is 0 and an unparseable one NaN (lines 533-534); a text field is kept |
| StatsTable.NumberInputReadsAsText | drool/mon-stats.js:387-393 | an edited number is `parseFloat(v) \|\| 0`, the same number the cell's text reads as |
| StatsTable.RowForLastWins | drool/mon-stats.js:530-538 | under a repeated header the last field wins |
| StatsTable.RowForKeys | drool/mon-stats.js:530-538 | an imported row has exactly the header keys |
| StatsTable.Imported | drool/mon-stats.js:523-544 | every imported row gets a consistent BST |
| StatsTable.ImportedRowsCount | drool/mon-stats.js:524-541 | there is one row per non-blank line, keyed by the headers |
| StatsTable.BlankCell | drool/mon-stats.js:447-453 | a new cell reads as 0 |
| StatsTable.NewRowCells | drool/mon-stats.js:447-453 | a new row holds 0 under number columns and `""` under text columns |
| StatsTable.NewRowKeys | drool/mon-stats.js:447-453 | a new row has exactly the column names as keys |
| StatsTable.NewRowBstZero | drool/mon-stats.js:444-456 | a new row's BST is 0 |
| StatsTable.RemoveAt | drool/mon-stats.js:461-462 | `splice(i, 1)` removes entry i, shifts the rest down and loses nothing else |
| StatsTable.FindColumn | drool/mon-stats.js:385 | `find` returns a column of that name, or none exactly when no column has it |
| StatsTable.NumberSort | drool/mon-stats.js:653-656 | sorting by a number column gives a stable permutation ordered by that number |
| StatsTable.EditedConsistent | drool/mon-stats.js:384-397 | an edit keeps BST consistent, sets the edited cell, and changes no other cell |
| StatsTable.HeatmapColumns | drool/mon-stats.js:625-627 | the heatmap covers exactly the numeric columns other than BST |
| StatsTable.ColumnShades | drool/mon-stats.js:623-646 | no row is tinted exactly when the column minimum equals its maximum; otherwise each row's shade is from 0 to 40: 40 exactly at the column maximum and 0 at the minimum |
| StatsTable.EqualColumnNoTint | drool/mon-stats.js:617-646 | a column whose rows all hold the same number, a one-row table included, gets no tint in any row |
| StatsTable.ReadRow | drool/mon-stats.js:528-538 | the field loop builds the row of `RowFor` |
| StatsTable.BuildColumns | drool/mon-stats.js:493-520 | the header loop builds the columns of `HeaderColumns` |
| StatsTable.ReadRows | drool/mon-stats.js:523-541 | the line loop builds the rows of the non-blank data lines |
| StatsTable.StatsEditor.constructor | drool/mon-stats.js:75-95 | the editor starts with no columns, no rows and no sort |
| StatsTable.StatsEditor.UpdateBst | drool/mon-stats.js:416-433 | the row gets its BST and no other row changes |
| StatsTable.StatsEditor.AddRow | drool/mon-stats.js:444-459 | a blank row with BST 0 is appended |
| StatsTable.StatsEditor.DeleteRow | drool/mon-stats.js:461-465 | the row is removed, or nothing changes when the index is out of range |
| StatsTable.StatsEditor.SortData | drool/mon-stats.js:648-662 | the rows are sorted by the column's key, and stay consistent |
| StatsTable.StatsEditor.HeaderClick | drool/mon-stats.js:344-354 | the toggle runs and the rows are sorted, ascending exactly when the flag is set |
| StatsTable.StatsEditor.UpdateData | drool/mon-stats.js:378-401 | the trimmed value is stored in that row only, and the table stays consistent; an empty column name changes nothing |
| StatsTable.StatsEditor.SetNumber | drool/mon-stats.js:387-394 | a number column stores `parseFloat \|\| 0` and updates BST |
| StatsTable.StatsEditor.SetText | drool/mon-stats.js:395-397 | a text column stores the text as typed |
| StatsTable.StatsEditor.ParseCsv | drool/mon-stats.js:482-550 | a file with fewer than two lines changes nothing; otherwise the columns and rows come from the file |
| StatsTable.StatsEditor.UpdateAllBst | drool/mon-stats.js:544 | every row gets its BST |
| MovesTable.HeaderColumnsMembers | drool/mon-moves.js:130-136 | the columns are exactly the headers other than Implementation |
| MovesTable.ParsedColumnsFacts | drool/mon-moves.js:130-143 | the shown columns are the headers other than Implementation, each a number column exactly for Power, Accuracy and Stamina (`MovesTable.ColumnOf`), followed by a read-only text Status column |
| MovesTable.RowForKeys | drool/mon-moves.js:155-165 | a row has exactly the header keys |
| MovesTable.RowForLastWins | drool/mon-moves.js:155-165 | under a repeated header the last field wins |
| MovesTable.ParsedRowKeys | drool/mon-moves.js:155-168 | a parsed row has the header keys plus Status |
| MovesTable.ParsedRowCell | drool/mon-moves.js:155-168 | each header keeps its trimmed field, a missing field giving `""` (`MovesTable.Cells`), with numbers as `parseFloat \|\| 0`; Status is the Implementation field, or `No` when that is empty |
| MovesTable.ImplementationStatus | drool/mon-moves.js:168 | Status copies a non-empty Implementation value and is `No` otherwise |
| MovesTable.StatusWithoutImplementation | drool/mon-moves.js:168 | without an Implementation column every Status is `No` |
| MovesTable.LineRowsShape | drool/mon-moves.js:147-171 | a line gives one row iff it is not blank, keyed by the headers (the import of lines 626-637 builds rows the same way) |
| MovesTable.TableRowsShape | drool/mon-moves.js:146-171 | there is one row per non-blank line, each with the table's keys |
| MovesTable.EditReadsBack | drool/mon-moves.js:577-581 | after an edit the cell reads back as the value typed, as a number under a number column |
| MovesTable.ExportHeaders | drool/mon-moves.js:648 | the export headers are the row's keys without Status |
| MovesTable.ExportRowRoundTrip | drool/mon-moves.js:651-660 | tokenizing an exported row of text cells gives back its cells |
| MovesTable.ReadRow | drool/mon-moves.js:155-165 | the field loop builds the row of `LineRow` |
| MovesTable.ReadRows | drool/mon-moves.js:146-171 | the line loop builds the rows of `TableRows` |
| MovesTable.MovesEditor.constructor | drool/mon-moves.js:73-210 | the editor starts with no columns, no rows and no sort (lines 73-74 and 209-210) |
| MovesTable.MovesEditor.ParseCsv | drool/mon-moves.js:121-174 | a file with fewer than two lines changes nothing; otherwise the parsed columns and rows replace the table |
| MovesTable.MovesEditor.ImportFile | drool/mon-moves.js:603-644 | the imported file's columns, one editable text column per header (`MovesTable.ImportColumns`), and its rows, split at `\n` and at every comma, replace the table (lines 610-637) |
| MovesTable.MovesEditor.SortData | drool/mon-moves.js:243-265 | the rows become a permutation sorted by the column's key |
| MovesTable.MovesEditor.HeaderClick | drool/mon-moves.js:227-239 | the toggle runs on the flag "ascending" and the rows are sorted in that direction |
| MovesTable.MovesEditor.AddRow | drool/mon-moves.js:586-601 | a row with 0 under number columns and `""` under text columns is appended |
| MovesTable.MovesEditor.UpdateData | drool/mon-moves.js:571-584 | the trimmed value is stored in that cell only |
| MovesTable.ToInt32 | drool/mon-moves.js:293 | the operand of `hash << 17` is taken as a signed 32-bit integer: in range, and equal to the input modulo 2^32 |
| MovesTable.RawHashBound | drool/mon-moves.js:291-295 | the hash stays within the name's length times 2^32, so it is exact in a double for short names |
| MovesTable.Candidate | drool/mon-moves.js:298-322 | every hue tried is from 0 to 359 |
| MovesTable.AttemptsFacts | drool/mon-moves.js:301-324 | the rehash loop stops at the first hue far enough from the hues in use, after at most 5 tries |
| MovesTable.NameHash | drool/mon-moves.js:291-294 | the character loop computes the name's hash |
| MovesTable.ChooseHue | drool/mon-moves.js:297-324 | the loop returns the hue the rehash specification picks |
| MovesTable.MonsterHues.constructor | drool/mon-moves.js:277 | the cache starts empty |
| MovesTable.MonsterHues.MonsterColor | drool/mon-moves.js:281-330 | an empty name has no colour; a known name keeps its hue; a new name gets the chosen hue, which is cached (lines 285-327) |
| MonGuide.JsRem | drool/mon-full.js:28-34 | JavaScript `%` agrees with the mathematical remainder on non-negative operands |
| MonGuide.NavigationSteps | drool/mon-full.js:27-35 | prev steps back and wraps from the first mon to the last; next steps forward and wraps from the last to the first |
| MonGuide.NavigationInverse | drool/mon-full.js:28-34 | each button undoes the other |
| MonGuide.NextsAround | drool/mon-full.js:33-35 | k presses of next move k places around the ring |
| MonGuide.NextsReturn | drool/mon-full.js:33-35 | n presses of next return to the start |
| MonGuide.Navigator.constructor | drool/mon-full.js:21 | the guide starts at the first mon |
| MonGuide.Navigator.GoToPrevMon | drool/mon-full.js:27-30 | the index moves to the previous mon and stays in range |
| MonGuide.Navigator.GoToNextMon | drool/mon-full.js:33-36 | the index moves to the next mon and stays in range |
| MonGuide.MathMaxFacts | drool/mon-full.js:13-18 | `Math.max` is -Infinity exactly for no values, NaN exactly when a value is not a number, and otherwise a bound that one value reaches |
| MonGuide.MaxStatsBound | drool/mon-full.js:11-19 | a finite maximum of a stat over the mons' values (`MonGuide.StatColumn`) bounds that stat of every mon and is reached by one |
| MonGuide.BarWidthBounds | drool/mon-full.js:115-165 | with non-negative stats and a positive maximum, each bar is 0 to 100 per cent wide |
| MonGuide.RowsOfMembers | drool/mon-full.js:174-192 | the filter keeps exactly the moves or abilities of that mon |
| MonGuide.RowsOfAppend | drool/mon-full.js:174-192 | the filter keeps the file order |

## Left out

- I/O is not modelled: `fetch`, `FileReader`, the Tauri file dialogs,
  `open`, `csv.reader`, `savefig` and PIL's image decoding. Each loader
  takes the file's text, its rows or the decoded frame as a parameter.
- The DOM, the event wiring, the rendered HTML, the "saved" indicator,
  notifications and `matplotlib` plotting are left out. Where a result is
  only shown, the model keeps the value that is shown (a shade, a label,
  a bar width).
- `localeCompare` is modelled as code-point lexicographic order. Locale
  collation is not modelled.
- Case mapping and Python's `\w` cover ASCII letters only.
- Floating point is modelled with exact reals. Rounding, NaN propagation
  through arithmetic, and Infinity are left out. `Math.max` alone models
  NaN and -Infinity, in `MonGuide.MathMax`. The heat maps model the NaN or
  Infinity intensity of a column whose values are all equal as no tint.
- Python's `int()` and `float()` leave out underscores, non-ASCII digits
  and `inf`/`nan`. `parseFloat` leaves out `Infinity`.
- The numbers an editor renders on export are a `render` parameter
  (JavaScript's number-to-string conversion is not modelled).
- The insertion order of `Object.keys` is a parameter of
  `MovesTable.ExportCsv`.
- Sprite.AnalyzeFrame and Sprite.IndexFrame: palettes of more than 256
  colours are not modelled. The source stores each pixel's palette index
  in a `uint8` array (python/mini_to_svg.py:46, 50), where an index of 256
  or more wraps or raises; the model keeps the exact index.
- MovesTable.Rehash: the hashes are unbounded integers. Only `hash << 17`
  is wrapped to 32 bits, as JavaScript does. The name hash stays exact in a
  double (`RawHashBound`), but repeated rehashing `hash * 17 + 23` can pass
  2^53, where a double would round; the model does not round. Names are
  sequences of code points, not UTF-16 code units.
- `analyze_contract_dependencies` reads Solidity sources from disk. It
  is a parameter of `Deploy.GetContractsForMon`.
- `os.path.join` is modelled as joining with `/`.
- Python's printed warnings, `StopIteration` on an empty file and
  `csv.reader`'s own quoting rules are left out. The readers take the
  rows `csv.reader` returns.
- Deploy.ReadMovesCsv and Deploy.ReadAbilitiesCsv: every row's fields
  are stripped before the rows are matched to mons. This is the same as
  the source stripping each row as it reads it.
- Deploy.MonData: the stats are `const` fields, because the generator
  never changes them after construction.
- `python/analysis.py` and `drool/type-data.js` are not part of this
  model.
- Damage.MoveDamage and Matchup: the mons come in as records whose
  numbers are already coerced. The type chart must hold every type that a
  defender or one of an attacker's own moves uses (a `requires`), and a defender's HP, Defense and Sp.Def
  must be positive. The source would produce NaN or Infinity for these.
- StatsTable.StatsEditor.UpdateData requires the named column to exist.
  Otherwise `columns.find(...)` returns undefined and reading its `type`
  throws a TypeError (drool/mon-stats.js:385-387).
- StatsTable.StatsEditor.HeaderClick requires a number column, as sorting
  is only offered on number columns.
- Row indices are natural numbers. `String()` of a number cell, used for
  text keys, is modelled as `""`.
- loadTypeData returns `[]` for a file with fewer than two lines and `{}`
  when fetching fails. Both are modelled as the empty table.
- The moves editor's `loadMonsFromCsv`, its select/dropdown handlers, its
  rendering of the Status link and its Type1/Type2 select are left out.
  They only fill the page's lists.
- The stats editor's `exportToCsv`, `exportToJs`, `validateNumberInput`
  and `hasRequiredColumns` are left out. They produce output text or
  guard input fields in the page.
- MonGuide.Navigator: the guide with no mons is excluded by
  `requires count > 0`. There, the source's `% 0` would produce NaN.
- MonGuide.StatValue: `Math.max`'s coercion of strings to numbers is not
  modelled. A non-number cell counts as NaN.
- `-0 || 0` and the sign of zero are not modelled.
