# Investment tracker, allocation calculator and code-fence clean-up in Dafny

This project models three small programs.

- **Investment tracker.** It keeps a history of deposits. Each deposit is
  split across a fixed seven-ticker portfolio by fixed weights. The tracker
  can record a deposit, delete the most recent one, and reset the history.
  It reports the mean deposit and the deposit count over the last 7, 30,
  180 and 365 days and over all time. It also reports the total invested
  and each ticker's total. The history is held as a class `Ledger` with a
  `seq<Deposit>` field. The statistics are functions of that sequence and
  of an explicit `now`.
- **Allocation calculator.** It splits one positive amount across the same
  weights. It builds the result dict entry by entry, then prints each
  ticker's percentage and amount and a running total.
- **Code generator clean-up.** It removes a Markdown fence from generated
  code, then strips surrounding whitespace. It also normalises the file
  name the program is saved under. The Python string operations involved
  are modelled on `string` (`seq<char>`): `strip` with Python's whitespace
  set, `startswith`, `endswith`, `split(sep, 1)` and `rsplit(sep, 1)`.

Amounts and weights are `real`. The weights 0.07 × 5 + 0.35 + 0.30 sum to
exactly 1, so "the allocations add up to the deposit" holds exactly.
Timestamps are integer microseconds. The modules are:

- `Optional`: `optional.dfy`.
- `Weights`: `weights.dfy`, the allocation rule over any weight table, shared by both programs.
- `InvestmentTracker`: `investment_tracker.dfy`.
- `PortfolioCalc`: `portfolio_calc.dfy`.
- `CodeGenerator`: `code_generator.dfy`.

## Model

| member | source | states |
|---|---|---|
| Weights.AllocateBySnoc | portfolio_calc.py:29-31 | Assigning one more ticker's share to the dict gives the allocation over the table extended by that entry. A repeated ticker is overwritten, so the last entry wins. |
| Weights.WeightOfDistinct | Investment_tracker.py:45 | In a table without repeated tickers, the weight the dict comprehension uses for a ticker is that ticker's own entry. |
| Weights.AllocationSum | Investment_tracker.py:45 | Over a table without repeated tickers, the allocations summed in table order equal the amount times the total weight. |
| Weights.AllocationBounds | portfolio_calc.py:19-31 | With weights strictly between 0 and 1, every allocation of a positive amount is positive and below the amount. |
| InvestmentTracker.PortfolioIsNormalised | Investment_tracker.py:13-21 | The portfolio names no ticker twice, every weight lies strictly between 0 and 1, and the weights sum to exactly 1. |
| InvestmentTracker.Allocate | Investment_tracker.py:45 | A deposit's allocation has exactly the seven portfolio tickers as keys. Each value is the amount times that ticker's weight. |
| InvestmentTracker.AllocationsSumToAmount | Investment_tracker.py:13-21 | The allocations of a deposit, summed over the portfolio, give back the deposit amount. |
| InvestmentTracker.Ledger.constructor | Investment_tracker.py:26-31 | With no stored history, the ledger starts empty. |
| InvestmentTracker.Ledger.Record | Investment_tracker.py:40-57 | Appends exactly one deposit with the given amount and instant and the portfolio split. Earlier deposits are unchanged and the ledger invariant is kept. |
| InvestmentTracker.Ledger.Submit | Investment_tracker.py:241-248 | A non-positive amount is rejected and the history is unchanged. A positive amount is recorded as by Record. |
| InvestmentTracker.Ledger.DeleteLast | Investment_tracker.py:193-219 | An empty history or a refusal changes nothing. Otherwise the method returns the last deposit and leaves exactly the earlier ones. |
| InvestmentTracker.Ledger.Reset | Investment_tracker.py:178-190 | A confirmed reset leaves the history empty, including when it was already empty. A refused one changes nothing. |
| InvestmentTracker.Ledger.Statistics | Investment_tracker.py:115-147 | Nothing is shown for an empty history. Otherwise the report has the deposit count, the total invested, the window averages (with counts nested week ≤ month ≤ six months ≤ year ≤ all time = count) and the ticker totals. The ticker totals sum to the total invested. |
| InvestmentTracker.RecordThenDelete | Investment_tracker.py:214-216 | Recording a deposit and then deleting the last one restores the previous history and hands back the recorded deposit. |
| InvestmentTracker.MeanWithinExtremes | Investment_tracker.py:97-101 | The mean of a non-empty list of amounts lies between its minimum and its maximum. |
| InvestmentTracker.DepositsInRange | Investment_tracker.py:77-80 | A deposit is in the N-day window exactly when it is in the history and its timestamp is at or after now minus N days. The cut-off is inclusive. Every deposit inside the window occurs in it as often as in the history, so the window count and mean are fixed. |
| InvestmentTracker.WiderWindowCountsMore | Investment_tracker.py:91-94 | A longer look-back window holds at least as many deposits as a shorter one. |
| InvestmentTracker.Summarise | Investment_tracker.py:96-110 | The count is the number of deposits. An empty window has mean 0. A non-empty window's mean is its total divided by its count, and lies between its smallest and largest amount. |
| InvestmentTracker.MeanIsAverage | Investment_tracker.py:97-101 | The mean of a non-empty list of deposits is the total invested divided by the number of deposits. |
| InvestmentTracker.CalculateAverages | Investment_tracker.py:83-112 | The result is absent exactly when the history is empty. |
| InvestmentTracker.WindowsNest | Investment_tracker.py:104-110 | Week count ≤ month ≤ six months ≤ year ≤ all-time count, and the all-time count is the history length. |
| InvestmentTracker.TotalInvested | Investment_tracker.py:124 | The sum of all deposit amounts; an empty history has invested nothing. |
| InvestmentTracker.TotalInvestedNonNegative | Investment_tracker.py:124 | When no amount is negative, the total invested is not negative. |
| InvestmentTracker.TickerTotal | Investment_tracker.py:144-147 | The amount routed to one ticker, summed over the deposits; 0 when no deposit allocates to it, as the totals start at 0. |
| InvestmentTracker.TotalsMap | Investment_tracker.py:144-147 | The per-ticker totals have exactly the portfolio tickers as keys. |
| InvestmentTracker.TotalsMapSnoc | Investment_tracker.py:145-147 | Adding a deposit adds its allocation to each portfolio ticker's total. |
| InvestmentTracker.PortfolioTotals | Investment_tracker.py:144-147 | The nested accumulation loop yields each portfolio ticker's allocation summed over all deposits. It fails exactly when some deposit names a ticker outside the portfolio. |
| InvestmentTracker.TotalsSumToInvested | Investment_tracker.py:124 | For well-formed deposits, the ticker totals summed over the portfolio equal the total invested. |
| InvestmentTracker.TickerTotalIsShare | Investment_tracker.py:144-147 | For well-formed deposits, each ticker's total is its weight times the total invested. |
| InvestmentTracker.SliceStart | Investment_tracker.py:171 | Python's start index of a slice: a start within the length is kept, a negative start within the length counts from the end, a start below minus the length clamps to 0, and one above the length clamps to the length. |
| InvestmentTracker.HistoryAsWritten | Investment_tracker.py:171 | The listing as the tracker builds it: the deposits from the normalised slice start on, newest first. |
| InvestmentTracker.HeadingCount | Investment_tracker.py:166 | The heading's count is the smaller of the limit and the history length. |
| InvestmentTracker.ZeroLimitListsEverything | Investment_tracker.py:166-171 | As written, a limit of 0 on a non-empty history lists every deposit while the heading announces 0 (see Findings). |
| InvestmentTracker.RecentDeposits | Investment_tracker.py:166-171 | The listing holds min(limit, history length) deposits, or none for a limit below 1, newest first. |
| InvestmentTracker.RecentDepositsMatchHeading | Investment_tracker.py:166 | For a non-negative limit, the number of deposits listed equals the number in the heading. |
| InvestmentTracker.RecentDepositsAgreeForPositiveLimit | Investment_tracker.py:171 | For a positive limit, the corrected listing equals the one the source builds. |
| InvestmentTracker.ViewHistory | Investment_tracker.py:156-171 | Nothing is listed for an empty history. Otherwise the listing holds the most recent deposits, newest first, as many as the heading announces for a non-negative limit and none for a negative one. For a positive limit it is exactly the listing the tracker builds. |
| PortfolioCalc.TablesAgree | portfolio_calc.py:18-26 | The calculator's weight table equals the tracker's, ticker for ticker and in the same order. |
| PortfolioCalc.CalculatePortfolioAllocation | portfolio_calc.py:7-33 | The loop-built dict has exactly the seven tickers as keys, and each value is the amount times the weight. It equals the tracker's allocation of the same amount. |
| PortfolioCalc.DisplayAllocations | portfolio_calc.py:50-57 | One row per ticker, in dict order, with its amount and its share of the total in percent. The printed total is the sum of the amounts. |
| PortfolioCalc.ShareOverAmount | portfolio_calc.py:52 | An allocation divided by the total recovers the weight. |
| PortfolioCalc.ProcessAmount | portfolio_calc.py:76-84 | A non-positive amount is rejected before allocating. Otherwise every percentage is the weight times 100, every amount is the total times its weight and lies strictly between 0 and the total, and the printed total equals the amount. |
| CodeGenerator.IsSpace | python_code_generator.py:114 | Python's whitespace set; space, tab, newline and carriage return are in it, and no visible ASCII character is. |
| CodeGenerator.LStrip | python_code_generator.py:114 | The result is a suffix of the input that does not start with whitespace. Everything dropped is whitespace. |
| CodeGenerator.RStrip | python_code_generator.py:114 | The result is a prefix of the input that does not end with whitespace. Everything dropped is whitespace. |
| CodeGenerator.Strip | python_code_generator.py:114 | The result has no surrounding whitespace and is no longer than the input. |
| CodeGenerator.StripIsSlice | python_code_generator.py:114 | The stripped text is the slice of the input that starts right after its leading whitespace. |
| CodeGenerator.StripDropsOnlySpace | python_code_generator.py:114 | Everything after that slice is whitespace, so together with the leading whitespace only whitespace is removed. |
| CodeGenerator.StripKeepsTrimmed | python_code_generator.py:114 | Text without surrounding whitespace is unchanged by stripping. |
| CodeGenerator.StripIdempotent | python_code_generator.py:114 | Stripping twice is stripping once. |
| CodeGenerator.FindFirst | python_code_generator.py:108 | The first occurrence of the separator, or none exactly when it never occurs. |
| CodeGenerator.FindLast | python_code_generator.py:109 | The last occurrence of the separator, or none exactly when it never occurs. |
| CodeGenerator.AfterFirst | python_code_generator.py:108 | What precedes the first occurrence, plus the separator, plus the result, gives back the input. |
| CodeGenerator.BeforeLast | python_code_generator.py:109 | Without an occurrence the result is the whole input. Otherwise the result, plus the separator, plus the tail, gives back the input. |
| CodeGenerator.StripFences | python_code_generator.py:106-114 | The cleaned code never has leading or trailing whitespace. The edit path (lines 267-275 of the same file) repeats this clean-up identically up to the variable name, so one function models both. |
| CodeGenerator.PythonFenceOpensFence | python_code_generator.py:107-110 | Text opening with the "```python" fence also opens with "```". |
| CodeGenerator.UnfencedIsOnlyStripped | python_code_generator.py:107-114 | Text not starting with "```" comes back only whitespace-stripped. |
| CodeGenerator.PythonFenceStripped | python_code_generator.py:107-109 | After a leading "```python", the code is the stripped part of the remainder before its last "```". This branch wins although the text also starts with "```". |
| CodeGenerator.PlainFenceStripped | python_code_generator.py:110-112 | After a leading "```" that does not open "```python", the code is the stripped part of the remainder before its last "```". |
| CodeGenerator.UnclosedFenceKeepsRemainder | python_code_generator.py:108-112 | Without a closing "```", everything after the opening fence is kept, then stripped. |
| CodeGenerator.LeadingSpaceKeepsFences | python_code_generator.py:107-114 | Text starting with whitespace is only stripped, because the fence test comes before the strip. |
| CodeGenerator.LStripSpacePrefix | python_code_generator.py:114 | Left-stripping drops any run of whitespace and stops at the first other character. |
| CodeGenerator.StripKeepsFenceFirst | python_code_generator.py:114 | Stripping any run of whitespace (possibly empty) in front of a fence leaves the fence at the front. |
| CodeGenerator.LeadingSpaceFenceSurvives | python_code_generator.py:107-114 | A reply of any non-empty run of whitespace, a fence and anything after it comes back still starting with the fence. |
| CodeGenerator.NormalizeFilename | python_code_generator.py:332-339 | An empty stripped name yields nothing. Otherwise the result ends in ".py": it is the stripped name when that already ends so, and the stripped name plus ".py" otherwise. |
| CodeGenerator.NormalizeFilenameIdempotent | python_code_generator.py:338-339 | Normalising a normalised name changes nothing. |

## Left out

- Persistence: the JSON file reads and writes, file removal on reset, and loading a stored history. The ledger is the in-memory sequence. Its constructor models only the empty default.
- The clock: `now` is a parameter. The tracker reads the clock separately for every window; the model uses one instant per statistics call. ISO 8601 timestamp strings, their parsing and date formatting are not modelled.
- Menus, prompts and printed layout: column widths, truncation, currency formatting. A confirmation typed as "YES" becomes a `bool` parameter. Parsing the amount and the history limit from text is left out, and so is the resulting `ValueError` path.
- Floating point: amounts, weights, sums and means are exact reals. IEEE-754 rounding is not modelled.
- Dict iteration order: the ticker totals are taken in the portfolio order, and the calculator's display is given its dict's key order explicitly. With exact reals, the order of addition does not change the totals.
- InvestmentTracker.Ledger.Statistics: requires the ledger invariant that every deposit's allocations are the portfolio split. A hand-edited store with an unknown ticker makes the source raise `KeyError`; that case is modelled by `PortfolioTotals` returning nothing.
- InvestmentTracker.ViewHistory: uses the corrected listing. For a limit of 0 or below the tracker lists the slice as written instead (every deposit for 0, all but the first k for minus k); `HistoryAsWritten` models that listing (see Findings).
- CodeGenerator.NormalizeFilename: an empty name yields nothing instead of the clock-based automatic name, which depends on the current time.
- The API calls that produce the generated code, the API-key handling, saving and running the generated program, and the other research and summary scripts.

## Findings

| source | as written | input that shows it | evidently intended | confidence | as-written member | corrected member |
|---|---|---|---|---|---|---|
| Investment_tracker.py:166-171 | The listing is the history from index minus `limit` to the end, reversed. The heading shows the smaller of `limit` and the history length. | `limit` = 0 with at least one deposit: slicing from minus 0 is slicing from 0, so every deposit is listed under a heading that says "Last 0". | A limit of 0 lists no deposits, matching the heading. The corrected listing lists none for any limit below 1. | not executed | InvestmentTracker.ZeroLimitListsEverything | InvestmentTracker.RecentDeposits |
