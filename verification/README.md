# b3-portfolio-tracker ledger engine, in Dafny

This project models the core of a portfolio tracker for the Brazilian
exchange (B3) and proves properties of that model. The tracker reads broker
exports, merges them with corporate actions, and rebuilds a unified ledger
and the current holdings.

The centre of the model is the **ledger reconciliation engine**
(`LedgerProcessor.process`). It works in three steps:

- It tags four input streams into one timeline: trades, stock splits, mergers and forced exits.
- It sorts the timeline stably, by date and then by the kind priority SPLIT < MERGER < TX < EXIT.
- It replays the timeline over a per-ticker holdings map. Every trade is copied to the ledger as a real row. An effective corporate action emits one or two *virtual* rows and adjusts the holdings. A merger or exit is effective on a positive position; a split is effective on a positive position when its ratio is not 1.

Around the engine the model covers:

- ticker normalisation (`normalizeTicker`);
- the import side of `DataManager`:
  - the input-file filter;
  - the number-text rewriting of `parseNumber`;
  - the BUY/SELL classification of a movement text;
  - rename resolution;
  - attribution of each row to its file;
- the portfolio compilation in `index.ts`:
  - the ledger-sheet row mapping;
  - the holdings fold with its direction rule;
  - the active-holdings filter;
  - the stock/real-estate-fund (FII) partition;
- the asset-class decision of `MetadataService` and its fallback profile.

Modelling choices:

- Dates are integer timestamps, because the engine only compares them.
- Quantities, prices and ratios are exact reals.
- Strings are sequences of Unicode scalar values. The code's `length` counts UTF-16 code units; the two agree on every ticker inside the Basic Multilingual Plane, all ASCII tickers included. The JavaScript string built-ins the code uses (`trim`, ASCII case mapping, `includes`, `replace`, `lastIndexOf`) are modelled in `Text`.
- The normalisation rule for a trailing `F` follows the code, which tests the length of the symbol *with* the `F` (`length > 4`). A symbol such as "ABCDF" therefore loses its `F`.

Files and modules:

| file | module | models |
|---|---|---|
| text.dfy | `Text` | the JavaScript string built-ins |
| types.dfy | `Types` | the records of `src/types.ts` |
| b3_service.dfy | `B3Service` | `normalizeTicker` |
| timeline.dfy | `Timeline` | tagging and the stable sort |
| ledger_processor.dfy | `LedgerProcessor` | the replay and its per-event handlers |
| portfolio.dfy | `Portfolio` | the `index.ts` compilation |
| data_manager.dfy | `DataManager` | file filter, `parseNumber`, classification, renames, `readValues` |
| metadata_service.dfy | `MetadataService` | `determineAssetClass`, `KNOWN_UNITS`, the profile shapes |
| rebuild.dfy | `Rebuild` | the reading loop of `main`, and the end-to-end statement |

The main results:

- `LedgerProcessor.ProcessSummary` states what the engine promises about its output:
  - the real rows are exactly the input trades, each once, in date order;
  - same-day trades keep their input order;
  - every virtual row is well formed;
  - every MERGER_OUT is immediately followed by its MERGER_IN;
  - the length lies between `|history|` and `|history| + |splits| + 2|mergers| + |exits|`.
- `Portfolio.ProcessFoldAgrees` is the cross-check between the engine and the portfolio tab. When every input trade is a BUY or a SELL, folding the engine's ledger with the portfolio's direction rule gives exactly the engine's own final holdings.
- `Rebuild.RebuildAgrees` chains the import to both statements. Whatever the input files contain, the reader only produces BUY and SELL trades, so the cross-check always applies to a real run.

## Model

| member | source | states |
|---|---|---|
| B3Service.NormalizeTicker | src/b3-service.ts:4-16 | the result always ends in ".SA", has no lower-case ASCII letter and no whitespace at either end |
| B3Service.WithMarketSuffix | src/b3-service.ts:7-15 | a trimmed upper-case symbol is returned unchanged exactly when it already ends in ".SA"; otherwise it ends in ".SA" and is 2 or 3 characters longer (one `F` dropped or not) |
| B3Service.NormalizeTickerCases | src/b3-service.ts:5-15 | the three outcomes in terms of `u = upper(trim(t))`: `u` itself when it ends in ".SA"; `u` without its last `F` plus ".SA" when it ends in `F` and is longer than 4; `u` plus ".SA" otherwise |
| B3Service.SecondFIsKept | src/b3-service.ts:11-14 | only one trailing `F` is removed: a symbol ending in "FF" normalises to one ending in "F.SA" |
| B3Service.NormalizeTickerIdempotent | src/b3-service.ts:4-16 | normalising twice is normalising once |
| B3Service.FractionalExample | src/b3-service.ts:11-15 | "ITUB4F" normalises to "ITUB4.SA" |
| B3Service.CleanupExample | src/b3-service.ts:5-15 | " petr4 " normalises to "PETR4.SA" |
| B3Service.ShortSymbolExample | src/b3-service.ts:12-15 | a four-character "ABCF" keeps its `F`: "ABCF.SA" |
| Timeline.Tag | src/ledger-processor.ts:24-45 | the tagged timeline has one event per input record, and projecting it onto each kind gives back that input stream exactly |
| Timeline.CompareIsLexicographic | src/ledger-processor.ts:47-59 | the comparator orders by date, then by the priority SPLIT 1 < MERGER 2 < TX 3 < EXIT 4; it is antisymmetric and reports equality exactly on equal (date, priority) |
| Timeline.BeforeIsTotalPreorder | src/ledger-processor.ts:47-59 | the comparator is total and transitive, so a sorted order exists |
| Timeline.Compare | src/ledger-processor.ts:47-59 | the sort comparator; its contract is stated by `CompareIsLexicographic` (date, then kind priority, zero exactly on equal keys) and `BeforeIsTotalPreorder` (total and transitive) |
| Timeline.SortTimeline | src/ledger-processor.ts:47-59 | the sorted timeline is a permutation of the input and is sorted |
| Timeline.SortIsStable | src/ledger-processor.ts:47-59 | for every (date, kind) key, the events with that key appear in their input order |
| Timeline.SameDayOrder | src/ledger-processor.ts:51-58 | on one date a sorted timeline puts a lower-priority kind first (splits before trades, trades before exits) |
| Timeline.PermutationKeepsProjections | src/ledger-processor.ts:24-59 | two timelines that are permutations of each other carry the same trades, splits, mergers and exits, with the same multiplicities |
| Timeline.SortedTradesByDate | src/ledger-processor.ts:47-59 | the trades of a sorted timeline are in date order |
| Timeline.SortKeepsSameDayTrades | src/ledger-processor.ts:47-59 | sorting keeps the input order of the trades of any one date |
| Timeline.BuildTimeline | src/ledger-processor.ts:24-59 | the timeline is sorted and a permutation of the tagged streams |
| Timeline.BuildTimelineStreams | src/ledger-processor.ts:24-59 | the timeline holds exactly the input trades, splits, mergers and exits; its trades are date-ordered and same-day trades keep their input order |
| LedgerProcessor.Process | src/ledger-processor.ts:15-153 | the engine; its contract is stated by `ProcessSummary` (shape and order of the ledger) and `Portfolio.ProcessFoldAgrees` (its holdings) |
| LedgerProcessor.Get | src/ledger-processor.ts:66 | `holdings.get(t) \|\| 0` (also at lines 75, 101, 128 and 134); an unseen ticker reads as 0, and `TradeFrame`, `MergerConservation` and `ExitFrame` state every handler's effect through it |
| LedgerProcessor.Replay | src/ledger-processor.ts:61-152 | the replay loop; its contract is stated by `ReplayAppend`, `ReplayRealRows`, `ReplayLength` and `ReplayWellFormed` |
| LedgerProcessor.Apply | src/ledger-processor.ts:62-149 | one iteration of the loop; its contract is stated by `ApplyShape` and `ApplyWellFormed` |
| LedgerProcessor.ApplyMerger | src/ledger-processor.ts:96-130 | the merger branch; its contract is stated by `MergeInto`, `MergerConservation` and `MergerOnNormalisedTickers` |
| LedgerProcessor.ApplyExit | src/ledger-processor.ts:131-149 | the exit branch; its contract is stated by `LiquidateAt`, `ExitFrame` and `ExitOnNormalisedTicker` |
| LedgerProcessor.ApplyTrade | src/ledger-processor.ts:62-72 | a trade is copied as one real row; BUY adds its quantity, SELL subtracts it, any other type leaves the amount unchanged |
| LedgerProcessor.TradeFrame | src/ledger-processor.ts:66-72 | a trade records its ticker and changes no other ticker's holding |
| LedgerProcessor.SplitAdjustmentSign | src/ledger-processor.ts:78-82 | on a positive holding the adjustment is positive exactly when the ratio exceeds 1, and zero exactly when the ratio is 1 |
| LedgerProcessor.ApplySplit | src/ledger-processor.ts:73-95 | no row and no change when the holding is not positive or the ratio is 1; otherwise exactly one virtual row: positive quantity \|cur·ratio − cur\|, SPLIT iff ratio > 1 and REVERSE_SPLIT iff ratio < 1, price and value 0, tag GENERATED_SPLIT; the holding becomes cur·ratio |
| LedgerProcessor.MergeInto | src/ledger-processor.ts:96-130 | nothing happens when the old holding is not positive; otherwise a MERGER_OUT of the whole old position followed immediately by a MERGER_IN of position·ratio on the new ticker, both tagged GENERATED_MERGER |
| LedgerProcessor.MergerConservation | src/ledger-processor.ts:101-130 | after an effective merger the old holding is 0 and the new one gains position·ratio (a self-merger leaves position·ratio), and no other ticker changes |
| LedgerProcessor.LiquidateAt | src/ledger-processor.ts:131-149 | nothing happens on a non-positive holding; otherwise one FORCED_SALE row of the whole holding at the exit price, value holding·price, tag GENERATED_EXIT, and the holding becomes 0 |
| LedgerProcessor.ExitFrame | src/ledger-processor.ts:134-148 | an effective exit zeroes its ticker and changes no other holding |
| LedgerProcessor.ApplyShape | src/ledger-processor.ts:61-150 | one step emits 1 row for a trade, plus 1, 2 or 1 virtual rows for an effective split, merger or exit, all dated on the event; an ineffective corporate action changes nothing |
| LedgerProcessor.ExitOnNormalisedTicker | src/ledger-processor.ts:131-134 | an exit whose ticker the reader already normalised behaves as the raw one |
| LedgerProcessor.MergerOnNormalisedTickers | src/ledger-processor.ts:96-100 | a merger with pre-normalised tickers behaves as the raw one |
| LedgerProcessor.ReplayAppend | src/ledger-processor.ts:61-150 | replaying a concatenated timeline is replaying the first part, then the second from the holdings the first left |
| LedgerProcessor.ReplayRealRows | src/ledger-processor.ts:61-64 | the non-virtual rows of the ledger are exactly the timeline's trades, in timeline order |
| LedgerProcessor.ReplayLength | src/ledger-processor.ts:61-152 | the ledger has one row per trade plus the weights of the effective corporate actions |
| LedgerProcessor.EffectiveCountBound | src/ledger-processor.ts:61-152 | the virtual rows number at most #splits + 2·#mergers + #exits |
| LedgerProcessor.ApplyWellFormed | src/ledger-processor.ts:83-146 | every virtual row of one step has no id, a synthesized type, its generator's tag and (except MERGER_IN) a positive quantity, and its merger rows are paired |
| LedgerProcessor.ReplayWellFormed | src/ledger-processor.ts:61-152 | the whole ledger is well formed: every virtual row is as above and every MERGER_OUT is immediately followed by a MERGER_IN of the same date |
| LedgerProcessor.ProcessSummary | src/ledger-processor.ts:15-153 | the real rows are a permutation of the input trades, date-ordered, with each date's trades in input order; the ledger is well formed; its length lies between \|history\| and \|history\| + \|splits\| + 2\|mergers\| + \|exits\| |
| LedgerProcessor.ProcessKeepsTrades | src/ledger-processor.ts:15-64 | the real rows are a permutation of the input trades, date-ordered, with each date's trades in input order |
| LedgerProcessor.ProcessLength | src/ledger-processor.ts:15-153 | the ledger has between \|history\| and \|history\| + \|splits\| + 2\|mergers\| + \|exits\| rows |
| LedgerProcessor.SimpleSplitScenario | src/ledger-processor.ts:61-95 | a buy of 100 and a later 2-for-1 split give the buy row, one SPLIT row of 100 on the split day, and a holding of 200 |
| LedgerProcessor.ReverseSplitScenario | src/ledger-processor.ts:73-95 | a 0.5 split of 100 gives one REVERSE_SPLIT row of 50 and a holding of 50 |
| LedgerProcessor.MergerFanInScenario | src/ledger-processor.ts:96-130 | two positions (10 and 5) merged one-for-one into a third give two OUT/IN pairs and a target of 15, with both sources at 0 |
| Portfolio.DisplayDropsSuffix | src/index.ts:89 | the displayed ticker of `s + ".SA"` is `s` when `s` contains no ".SA" |
| Portfolio.ToSheetRow | src/index.ts:86-95 | Source is "SYSTEM" iff the row is virtual and "FILE" iff not; Original File is the source file, or "N/A" when absent or empty; the ticker is displayed without its first ".SA"; the amounts and date are copied |
| Portfolio.ToSheetRows | src/index.ts:86-95 | one sheet row per ledger row, in order |
| Portfolio.EngineRowsShowGenerator | src/index.ts:93-94 | on an engine ledger every virtual row shows "SYSTEM" and its generator's tag as Original File, and every real row shows "FILE" |
| Portfolio.DisplayTicker | src/index.ts:89 | the ticker shown on a sheet; its contract is stated by `DisplayDropsSuffix` |
| Portfolio.Change | src/index.ts:112-119 | the signed change one ledger row makes; its contract is stated by `ChangeDirection` |
| Portfolio.ChangeDirection | src/index.ts:112-119 | BUY, SPLIT and MERGER_IN add the row's quantity; SELL, REVERSE_SPLIT, MERGER_OUT and FORCED_SALE subtract it |
| Portfolio.FoldFrom | src/index.ts:108-120 | the holdings fold from a given map; its contract is stated by `FoldKeepsValid`, `FoldAppend` and `FoldKeys` |
| Portfolio.Fold | src/index.ts:108-120 | the holdings fold from an empty map; its contract is stated by `ReplayFoldAgrees` and `ProcessFoldAgrees` |
| Portfolio.SetKeepsValid | src/index.ts:119 | setting keeps the key order duplicate-free and in step with the keys |
| Portfolio.FoldKeepsValid | src/index.ts:108-120 | the fold keeps the map's key order duplicate-free and in step with its keys |
| Portfolio.FoldAppend | src/index.ts:109-120 | folding a concatenation folds the parts in turn |
| Portfolio.FoldKeys | src/index.ts:108-120 | a ticker is a key of the folded map exactly when it was one before or some row names it |
| Portfolio.StepFoldAgrees | src/index.ts:108-120 | folding the rows of one engine step (raw trade or corporate action) reproduces the step's holdings |
| Portfolio.ReplayFoldAgrees | src/index.ts:108-120 | folding a replayed ledger from the starting holdings gives the replay's final holdings, when all trades are BUY or SELL |
| Portfolio.ProcessFoldAgrees | src/index.ts:108-120 | with BUY/SELL input trades, folding the engine's output gives exactly the engine's final holdings |
| Portfolio.ActiveFromMembers | src/index.ts:122-131 | a ticker is listed exactly when it is a key with a positive quantity |
| Portfolio.ActiveFromEntries | src/index.ts:122-131 | each entry carries its ticker's positive quantity and its profile |
| Portfolio.ActiveFromDistinct | src/index.ts:122-131 | distinct keys give entries with distinct tickers |
| Portfolio.ActiveHoldings | src/index.ts:122-131 | `activeHoldings`; its contract is stated by `ActiveHoldingsExactly` and `ActiveHoldingsOfLedger` |
| Portfolio.ActiveHoldingsExactly | src/index.ts:122-131 | on a consistent map, the active holdings are exactly the positive entries, each with its quantity and profile |
| Portfolio.ActiveHoldingsOfLedger | src/index.ts:108-131 | for the map folded from any ledger, a ticker is active, at most once, exactly when its recomputed quantity is positive |
| Portfolio.Stocks | src/index.ts:133 | no stock entry has an FII profile |
| Portfolio.Fiis | src/index.ts:134 | every fund entry has an FII profile |
| Portfolio.Partition | src/index.ts:133-134 | the stock and fund tabs together hold every active holding exactly once, never both, and a holding without profile is a stock |
| Portfolio.ToTabRow | src/index.ts:164-177 | the tab row shows the ticker without its first ".SA", the quantity, and the profile's name, sector and industry, or empty texts without a profile; its meaning is stated by `TabRowShowsCode` and `TabRowOfFallback` |
| Portfolio.TabRowShowsCode | src/index.ts:169-173 | a holding under a normalised ticker `s + ".SA"` is shown by its bare exchange code `s`, which gives the ticker back with ".SA" appended, and with its quantity |
| Portfolio.TabRowOfFallback | src/index.ts:170-172 | a holding whose quote lookup failed shows its ticker as name and "Unknown" as sector and industry |
| DataManager.ExtName | src/data-manager.ts:29 | `path.extname` of a directory entry is empty or a dot-led suffix of the name, with no further dot, shorter than the name |
| DataManager.ExtensionBySuffix | src/data-manager.ts:29-31 | a lower-case extension is the entry's extension exactly when the name ends in it, ignoring case, after at least one more character |
| DataManager.InputFileBySuffix | src/data-manager.ts:28-34 | an entry is kept exactly when it ends in .csv, .xlsx or .xls (any case) after at least one character and does not start with "forced_exits" |
| DataManager.IsInputFile | src/data-manager.ts:28-34 | the `getAllFiles` filter; its contract is stated by `InputFileBySuffix` (kept exactly for a .csv, .xlsx or .xls suffix in any case, not starting with "forced_exits") and `ExtensionBySuffix` |
| DataManager.InputFiles | src/data-manager.ts:26-34 | the kept entries are exactly the listed entries the filter accepts, none added |
| DataManager.InputFilesOne | src/data-manager.ts:28-34 | one entry is kept exactly when the filter accepts it |
| DataManager.InputFilesAppend | src/data-manager.ts:28-34 | filtering distributes over concatenation, so the kept entries stay in listing order (which fixes the order of same-date trades) |
| DataManager.BasenameOfInputPath | src/data-manager.ts:91 | the base name of a joined input path is the directory entry |
| DataManager.InputPath | src/data-manager.ts:35 | `path.join` of the input directory and an entry; `BasenameOfInputPath` states that its base name gives the entry back |
| DataManager.Basename | src/data-manager.ts:91 | `path.basename`: the result has no "/" and ends the path; `BasenameOfInputPath` states that it inverts `InputPath` |
| DataManager.ParseNumber | src/data-manager.ts:154-176 | `parseNumber`; its contract is stated by `ParseNumberNonText`, `CommaText`, `NoCommaText` and `CommaBranchUnreachable` |
| DataManager.BrazilianToDecimal | src/data-manager.ts:159 | the rewrite `replace(/\./g, "").replace(",", ".")` (also at line 167); its contract is stated by `BrazilianCounts`, `BrazilianAtFirstComma` (split at the first comma, dots dropped on both sides) and `ThousandsText` (a.b,c becomes ab.c) |
| DataManager.ParseNumberNonText | src/data-manager.ts:154-176 | a number is returned unchanged; a cell that is neither number nor text gives 0 |
| DataManager.BrazilianCounts | src/data-manager.ts:158-160 | the rewritten text has exactly one ".", one "," fewer, and every other character as often |
| DataManager.CommaText | src/data-manager.ts:157-160 | a text with a comma after trimming goes to `parseFloat` with its dots dropped and its first comma made the point |
| DataManager.BrazilianAtFirstComma | src/data-manager.ts:157-160 | split at its first comma, a text becomes both sides with their dots dropped, in order, joined by a point |
| DataManager.ThousandsText | src/data-manager.ts:157-160 | a grouped amount `a.b,c` (such as "1.234,56") becomes `ab.c` ("1234.56") |
| DataManager.NoCommaText | src/data-manager.ts:162-173 | a text without a comma goes to `parseFloat` trimmed and otherwise unchanged |
| DataManager.CommaBranchUnreachable | src/data-manager.ts:162-168 | without a comma the last comma never lies after the last dot, so the branch at 165-168 cannot run |
| DataManager.ClassifyMovement | src/data-manager.ts:182-201 | the movement type is always BUY or SELL |
| DataManager.ContainsUpper | src/data-manager.ts:192-194 | searching the upper-cased text is a case-insensitive search |
| DataManager.TrimmedUpperSearch | src/data-manager.ts:182-194 | searching the trimmed, upper-cased text finds a word without surrounding whitespace exactly when the raw text mentions it in any case |
| DataManager.TrimKeepsMentions | src/data-manager.ts:182-194 | trimming does not change whether a word without surrounding whitespace is mentioned |
| DataManager.ClassifyByMention | src/data-manager.ts:182-201 | SELL exactly when the raw text mentions "venda" but not "compra", in any case; BUY otherwise |
| DataManager.ResolveTicker | src/data-manager.ts:203-207 | the resolved ticker always ends in ".SA", renamed or not |
| DataManager.ResolveNormalized | src/data-manager.ts:205-207 | the rename lookup on a normalised ticker; its contract is stated by `ResolveOfCode` and `RenameIsNotTransitive` |
| DataManager.ResolvedIsNormal | src/data-manager.ts:203-207 | the resolved ticker is a fixed point of normalisation, so the engine's own normalisation leaves it alone |
| DataManager.BareCodeNormalizes | src/data-manager.ts:203-204 | a bare code normalises to itself plus ".SA", and removing the suffix gives it back |
| DataManager.ResolveOfCode | src/data-manager.ts:203-207 | the table is keyed by bare code: a non-empty entry for the code gives its normalised target, otherwise the code plus ".SA" |
| DataManager.RenameIsNotTransitive | src/data-manager.ts:205-207 | a code renamed to another code stops there, whatever the table says about the target |
| DataManager.ResolveAfterNormalize | src/data-manager.ts:203-207 | an asset that is already normalised resolves as the raw asset does |
| DataManager.MissingAsset | src/data-manager.ts:203 | a missing asset resolves like an empty one, to ".SA" unless the empty code is renamed |
| DataManager.MapToTransaction | src/data-manager.ts:178-217 | a mapped row is a BUY or SELL with no id, recorded against its file, dated as the row, with a normalised ticker |
| DataManager.MapRecords | src/data-manager.ts:114 | one transaction per record, in order |
| DataManager.MappedRecords | src/data-manager.ts:114 | mapped records are BUY/SELL trades attributed to the file |
| DataManager.ReadValues | src/data-manager.ts:86-99 | reading one input file; its contract is stated by `ReadValuesShape` and `InputFileIsRead` |
| DataManager.ReadValuesShape | src/data-manager.ts:86-99 | a file yields only BUY/SELL trades attributed to its base name: one per record for a .csv/.xlsx/.xls file, none otherwise |
| DataManager.InputFileIsRead | src/data-manager.ts:86-99 | every file the directory filter keeps is read in full under its entry name |
| MetadataService.DetermineAssetClass | src/metadata-service.ts:110-134 | a fund name gives FII whatever the ticker; otherwise FII exactly when the clean ticker ends in "11" and is not a known unit |
| MetadataService.CleanTicker | src/metadata-service.ts:116 | the code the "11" rule looks at; its contract is stated by `SuffixIgnored` and `ClassOfSuffixedCode` |
| MetadataService.NamesFund | src/metadata-service.ts:118-122 | the fund-name test; its contract is stated by `NoFundWords` and `LeadingFii` |
| MetadataService.KnownUnitsEndIn11 | src/metadata-service.ts:7-17 | every known unit has an "11" code, so the list only overrides the "11" rule |
| MetadataService.QuoteTypeIgnored | src/metadata-service.ts:110-134 | the quote type has no influence on the class |
| MetadataService.SuffixIgnored | src/metadata-service.ts:116 | a code with ".SA" appended classifies as the bare code |
| MetadataService.ClassOfSuffixedCode | src/metadata-service.ts:116-133 | an upper-case code with ".SA", under a name that marks no fund, is FII exactly when it ends in "11" and is not a known unit |
| MetadataService.NoFundWords | src/metadata-service.ts:118-122 | a name without the letters F and I marks no fund |
| MetadataService.LeadingFii | src/metadata-service.ts:118-123 | a name that starts with "FII" in any case marks a fund |
| MetadataService.FallbackOfCode | src/metadata-service.ts:91-98 | the fallback profile of an upper-case code without F, I or ".", suffixed with ".SA", is FII exactly when the code ends in "11" and is not a known unit |
| MetadataService.FundNameExample | src/metadata-service.ts:115-124 | "Fii Taesa" makes even the unit TAEE11 an FII |
| MetadataService.FallbackProfile | src/metadata-service.ts:91-98 | the fallback names the ticker, has sector, industry and quote type "Unknown", and a class computed with the ticker as name |
| MetadataService.FallbackClass | src/metadata-service.ts:91-98 | a fallback profile is FII exactly when the ticker's text names a fund or its clean code is a non-unit "11" |
| MetadataService.ProfileFromQuote | src/metadata-service.ts:68-82 | the name falls back from the quote's long name to the price's to the ticker; sector and industry are the quote's when supplied and "Unknown" otherwise, the quote type the quote's or "EQUITY"; none is empty; the class is computed from the chosen name |
| MetadataService.EmptyQuoteIsFallback | src/metadata-service.ts:68-98 | a quote that supplies nothing gives the fallback profile, except that its quote type reads "EQUITY" |
| Rebuild.LoadAll | src/index.ts:35-40 | loading every input file; its contract is stated by `LoadAllRaw` and `LoadAllAttributed` |
| Rebuild.LoadAllRaw | src/index.ts:35-40 | the loaded history holds only BUY and SELL trades |
| Rebuild.LoadAllAttributed | src/index.ts:35-40 | every loaded transaction names one of the input files as its source |
| Rebuild.RebuildAgrees | src/index.ts:35-55 | for any input files, the ledger keeps every loaded trade once in date order, is well formed, and its recompiled holdings equal the engine's |
| Text.Trim | src/b3-service.ts:5 | `trim` leaves no whitespace at either end |
| Text.TrimIsSlice | src/b3-service.ts:5 | `trim` removes only whitespace, and only from the ends |
| Text.Upper | src/b3-service.ts:5 | `toUpperCase` maps each ASCII letter and keeps the length |
| Text.Lower | src/data-manager.ts:29 | `toLowerCase` on ASCII letters: the same length, each character lower-cased in place; `ExtensionBySuffix` and `InputFileBySuffix` use it for the case-insensitive extension test |
| Text.Contains | src/metadata-service.ts:119-121 | `includes`; `DataManager.ContainsUpper` states that searching an upper-cased text is a case-insensitive mention, and `MetadataService.NoFundWords` and `LeadingFii` state the fund-name tests through it |
| Text.RemoveFirst | src/metadata-service.ts:116 | `replace(".SA", "")` cuts out the first occurrence, at the lowest index where the pattern matches, and nothing else; with no occurrence the text is unchanged |
| Text.RemoveAppendedSuffix | src/index.ts:89 | removing ".SA" from `s + ".SA"` gives `s` when `s` contains no ".SA" |
| Text.RemoveAll | src/data-manager.ts:159 | a global removal drops every occurrence of the character and keeps every other character's count |
| Text.RemoveAllOne | src/data-manager.ts:159 | on one character the removal gives nothing for the removed character and the character itself otherwise |
| Text.RemoveAllAppend | src/data-manager.ts:159 | the removal distributes over concatenation, so the surviving characters keep their order |
| Text.ReplaceFirst | src/data-manager.ts:159 | `replace(",", ".")` changes only the first comma, and nothing when there is none |
| Text.ReplaceFirstAfter | src/data-manager.ts:159 | in a text whose prefix has no comma, the comma right after that prefix is the one replaced, and the rest stays as it is |
| Text.ReplaceFirstCounts | src/data-manager.ts:159 | replacing the first comma trades one "," for one "." |
| Text.LastIndexOf | src/data-manager.ts:162-163 | `lastIndexOf` is the last index of the character, or -1 exactly when it is absent |

## Left out

- Reading files and directories, CSV/XLSX/JSON parsing, Google Sheets output, charts and the simulator: these are I/O and foreign libraries. A file arrives as the records its parser produced, and the directory listing arrives as a sequence of names.
- Quote-service calls and the profile cache of `getProfiles`: network and file I/O. Only the profile shapes, successful and fallback, are modelled.
- `parseFloat`, `parseDate` and `toPtBrDate`: floating-point and time-zone parsing. `parseNumber` is modelled up to the text it hands to `parseFloat`, a caller-supplied function turns that text into a number, and a row's date arrives as a timestamp. NaN results and NaN dates are not modelled.
- IEEE-754 rounding: amounts are exact reals, so `adjustment !== 0` and `qty * ratio` are exact.
- Case mapping covers ASCII letters only. A non-ASCII character whose upper case is ASCII (such as the ligature "ﬁ") is not mapped.
- Renames are a plain map. Keys inherited from the object prototype (such as "constructor") are not modelled, and an empty-string target does not rename, as in the code.
- A movement type or asset cell that is a truthy non-string would make `trim` throw. Text cells are modelled as optional strings.
- `readExcel` copies the six columns it uses into a fresh record. The model reads the same six columns from every record, so that copy is the identity here.
- Node's `path.extname` and `path.basename` are modelled for directory entries (no "/") and for the joined input paths. Paths with trailing slashes are not.
- The sort of each portfolio tab by `localeCompare` and the spreadsheet formula columns are rendering and are not modelled.
- LedgerProcessor.WellFormedVirtual: MERGER_IN rows are not promised a positive quantity, because the code emits `oldQty * ratio` whatever the ratio's sign.
- B3Service.WithMarketSuffix: the `length > 4` test counts Unicode scalar values, not UTF-16 code units, so a symbol with a character outside the Basic Multilingual Plane (such as "😀ABF") keeps an `F` the code would drop. The two agree on every symbol inside that plane, all ASCII symbols included.
- B3Service.NormalizeTickerCases: "longer than 4" is measured in Unicode scalar values, with the same consequence as for `WithMarketSuffix`.
