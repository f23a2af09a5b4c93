# Intraday stock screener — verified model

The screener loads a list of up to 50 tickers from a text file and shows
one checkbox per ticker. It also shows 47 condition checkboxes. For each
checked ticker it fetches two days of hourly OHLC bars. The first bar's
Open is the reference price ("Open 16h day-1"). The ticker is kept when
every enabled condition holds on its bars. The matches are numbered
1, 2, … in the order found and written to a tab-separated result file.

The model has seven modules, one per concern of `script.py`:

- `Wrappers`: `Option` and `Result`.
- `Text`: Python's `str.strip()`, `str.split(sep)`, `sep.join(...)` and
  `s.split(sep)[-1]`.
- `Bars`: the hourly series and the pandas selections made on it. These
  are the first bar of an hour, the bars of an hour window, and a window's
  highest High and lowest Low.
- `Conditions`: `evaluate_conditions`.
  - `Evaluate` is a method with the two loops of the source, proved equal
    to the final dictionary `Results`.
  - `EvaluateConditions` returns the verdict `Passes`.
  - Lemmas state what the dictionary holds and how the conditions relate.
- `TickerList`: the parsing done by `upload_file`.
  - The content is stripped and split on commas.
  - Blank entries are dropped.
  - Each entry keeps the text after its last colon.
  - A list of more than 50 is refused.
- `Report`: the lines `save_results` writes, and a reader that parses them
  back.
- `Screener`: the class `StockScreenerApp`.
  - Its fields are the ticker list, the selection (an insertion-ordered
    dictionary, as an association list) and the matches.
  - Its methods are `UploadFile`, `PopulateTickerSelection`,
    `SelectAllTickers`, `UnselectAllTickers`, `RunScreener`,
    `SaveResults` and `Reset`.
  - `Valid` keeps three invariants: at most 50 tickers, distinct selection
    keys, and match k carrying rank k + 1.

## How the code keys the conditions

The model follows the code where it differs from the condition labels
(script.py:88-114):

- The first loop (script.py:191-193) stores Close >= Open under the HOUR,
  not under ids 1..14.
- The second loop (script.py:195-197) stores High != Low of hour h under
  h + 1, not under ids 15..19.
- So after a successful evaluation:
  - keys 5..13 and 15 hold Close >= Open of that hour;
  - keys 16..19 hold High != Low of the hour before;
  - key 20 is overwritten by Open(18) == Low(18);
  - keys 1..4 and 14 are never written, and enabling one of them rejects
    every ticker.
- `Conditions.Label` states what the labels promise. Two lemmas say where
  the code agrees with them under a different key.
- The clause `high1 is not None` of conditions 41 and 42 never fails.
  Condition 41 is therefore condition 23, and 42 its negation.
- The only lookups that can fail are the single-hour lookups of hours
  5..13 and 15..19. The bars of hours 4, 14 and 20 are not required: they
  only enter the window maxima and minima.

## Model

| member | source | states |
|---|---|---|
| Bars.FirstIndex | script.py:192 | the position `.iloc[0]` picks: a bar of that hour with no bar of that hour before it, or the length of the series when there is none |
| Bars.FirstAt | script.py:192 | the first bar of an hour: None exactly when no bar has that hour, otherwise the bar of that hour at some position with no bar of that hour before it |
| Bars.Window | script.py:201 | `between_time(a, b)`: a bar is selected exactly when it is in the series and its hour lies in [a, b] |
| Bars.MaxHigh | script.py:201-202 | `['High'].max()`: an upper bound of every High in the selection that some bar attains |
| Bars.MinLow | script.py:234 | `['Low'].min()`: a lower bound of every Low in the selection that some bar attains |
| Bars.PresentInWindow | script.py:201-202 | a window covering an hour that has a bar is non-empty, so its maximum exists |
| Bars.WindowMaxMonotone | script.py:201-208 | widening a window cannot lower its highest High |
| Bars.WindowHighAbove | script.py:201 | the highest High of a window exceeds t exactly when some bar of those hours has a High above t |
| Bars.WindowLowBelow | script.py:234 | the lowest Low of a window is below t exactly when some bar of those hours has a Low below t |
| Conditions.LoopHoursSpan | script.py:191 | the first loop visits exactly the hours 5..19 except 14 |
| Conditions.LoopBars | script.py:191-192 | the looked-up bars are keyed by exactly the loop hours |
| Conditions.HighAll | script.py:201 | `high1`, the highest High over hours 4..20 (WindowHighAbove states its meaning) |
| Conditions.HighMidday | script.py:202 | `high2`, the highest High over hours 10..15 |
| Conditions.HighLate | script.py:208 | `high3`, the highest High over hours 10..20 |
| Conditions.LowAll | script.py:234 | `low_range`, the lowest Low over hours 4..20 (WindowLowBelow states its meaning) |
| Conditions.ReadingsOf | script.py:198-234 | the readings of a series whose lookups succeed hold a bar for every loop hour |
| Conditions.SingleResult | script.py:199-235 | the value each single assignment stores under ids 20..47 |
| Conditions.Outcome | script.py:191-235 | the final value of each written key: the first loop's for 5..13 and 15, the second loop's for 16..19, the single assignment's for 20..47 |
| Conditions.OutcomeMap | script.py:191-235 | the final dictionary: every written id with its final value |
| Conditions.Results | script.py:187-240 | the final dictionary, or None when a lookup raises; Evaluate is proved to build it |
| Conditions.Passes | script.py:237-240 | the verdict: every lookup succeeds and every enabled id is written and true |
| Conditions.FirstLoopFindsAll | script.py:191-193 | when the first loop completes, every looked-up hour is present and each key holds Close >= Open of its bar |
| Conditions.SecondLoopStep | script.py:195-197 | one turn of the second loop writes key hour + 1 with High != Low of the bar of hour |
| Conditions.LoopsAgreeWithOutcome | script.py:191-197 | after both loops every key 5..19 except 14 already holds its final value |
| Conditions.FinalResults | script.py:198-235 | merging the single assignments for 20..47 into the looped dictionary gives the final dictionary |
| Conditions.Evaluate | script.py:187-235 | the method with both loops and the single assignments returns the final dictionary, or None when a lookup raises |
| Conditions.EvaluateConditions | script.py:187-240 | the verdict: the evaluation succeeded and every enabled id holds; with nothing enabled it holds exactly when every lookup succeeds |
| Conditions.ResultsKeyedByHour | script.py:191-199 | a successful evaluation has exactly the keys 5..47 except 14; keys 5..13 and 15 hold Close >= Open of that hour, 16..19 High != Low of the hour before, and 20 Open(18) == Low(18) |
| Conditions.MissingBarFails | script.py:238-240 | a missing bar of a loop hour makes the evaluation raise and the verdict false, whatever is enabled |
| Conditions.VerdictIsConjunction | script.py:237 | the verdict is the AND of `results.get(id, False)` over the enabled ids, both directions |
| Conditions.NothingEnabledPasses | script.py:237 | with no condition enabled the verdict holds exactly when every lookup succeeds |
| Conditions.UnwrittenIdFails | script.py:237 | enabling an id the evaluator never writes (1..4, 14, above 47) rejects every series |
| Conditions.MoreConditionsFewerPasses | script.py:237 | enabling more conditions never turns a failure into a pass |
| Conditions.WindowHighsOrdered | script.py:201-208 | high2 <= high3 <= high1, the windows being nested |
| Conditions.Condition22Implies27 | script.py:201-209 | condition 22 implies condition 27 on every series |
| Conditions.Conditions41And42 | script.py:204-229 | exactly one of 41 and 42 holds, and 41 equals 23 |
| Conditions.RatioChain | script.py:230-233 | for a non-negative reference price 46 implies 45 implies 44 implies 43 |
| Conditions.RatioConditionsOnSeries | script.py:230-235 | 43 holds exactly when a bar of hours 4..20 has a High above 1.5 * ref; 47 exactly when one has a Low below 0.5 * ref |
| Conditions.FlatReadings | script.py:195-229 | on flat bars keys 16..19, 21, 23, 24, 34, 41 are false and 15, 20, 25, 26, 33, 42 true |
| Conditions.FlatSeries | script.py:195-229 | the same for any series of flat bars |
| Conditions.Label | script.py:88-114 | what the labels of ids 1..19 promise: Close >= Open of the named hour, or High != Low of the hour |
| Conditions.LabelHour | script.py:88-94 | the hour the label of id 1..14 names is a loop hour different from the id |
| Conditions.CloseOpenLabelsUnderHour | script.py:191-193 | the Close >= Open the labels of ids 1..10 promise is stored under the labelled hour |
| Conditions.HighLowLabelsUnderNextHour | script.py:195-197 | the High != Low the labels of ids 15..18 promise is stored under id + 1 |
| Text.TrimLeft | script.py:130 | leading white space removed: a suffix of the input starting with a non-space, everything dropped being white space |
| Text.TrimRight | script.py:130 | trailing white space removed: a prefix of the input ending with a non-space, everything dropped being white space |
| Text.Strip | script.py:130 | `strip()`: no longer than the input, empty or starting and ending with a non-space |
| Text.StripSlice | script.py:130 | `strip()` is a slice of the input with only white space before and after it |
| Text.StripBlank | script.py:132 | `x.strip()` is empty exactly when x is all white space |
| Text.TrimLeftKeeps | script.py:130 | removing leading white space adds no character |
| Text.TrimRightKeeps | script.py:130 | removing trailing white space adds no character |
| Text.StripKeepsCharacters | script.py:132 | stripping adds no character |
| Text.StripUnchanged | script.py:130 | a text with no white space at either end is its own strip |
| Text.Split | script.py:132 | `split(sep)`: at least one piece, none holding the separator |
| Text.JoinStartsWithFirst | script.py:132 | a join starts with its first piece |
| Text.JoinSplit | script.py:132 | joining the pieces of a split gives the text back |
| Text.SplitWithoutSeparator | script.py:132 | a text without the separator splits into itself |
| Text.SplitAfterPiece | script.py:132 | a separator-free piece followed by the separator splits off first |
| Text.SplitJoin | script.py:132 | splitting a join of separator-free pieces gives the pieces back |
| Text.JoinEndsWithLast | script.py:133 | a join ends with its last piece, preceded by the separator when there are several |
| Text.LastField | script.py:133 | `split(sep)[-1]`: the separator-free suffix that is all of the text or follows a separator |
| Text.LastFieldKeeps | script.py:133 | the last field holds no character the text does not |
| Text.LastFieldUnique | script.py:133 | the last field is unique |
| Text.LastFieldAfterSeparator | script.py:133 | the separator-free text after a separator is the last field |
| TickerList.NonBlank | script.py:132 | `[x for x in xs if x]`: no longer than xs, holding exactly its non-empty texts |
| TickerList.NonBlankAppend | script.py:132 | filtering a concatenation filters each part in turn, so order and repeats are kept |
| TickerList.NonBlankAll | script.py:132 | texts that are all non-empty are all kept, in order |
| TickerList.Kept | script.py:132 | the stripped non-blank entries are no more than the parts |
| TickerList.KeptSingle | script.py:132 | one part gives its strip, or nothing when the strip is empty |
| TickerList.KeptAppend | script.py:132 | the entries of two runs of parts are the first run's followed by the second's; with KeptSingle this fixes every entry, its order and its repeats |
| TickerList.KeptFrom | script.py:132 | every kept entry is the non-empty strip of some part |
| TickerList.KeptTrimmed | script.py:132 | every kept entry is non-empty with no white space at either end |
| TickerList.KeptWithout | script.py:132 | a character in no part is in no entry |
| TickerList.KeptBlank | script.py:132 | nothing is kept exactly when every part strips to nothing |
| TickerList.KeptTrimmedUnchanged | script.py:132 | entries already stripped and non-empty are kept as they are |
| TickerList.Entries | script.py:130-132 | the entries of a file's content: each non-empty, with no white space at either end and no comma |
| TickerList.LoadEntries | script.py:133-136 | refused with the count exactly when there are more than 50 entries; otherwise one ticker per entry, the text after its last colon |
| TickerList.ParseTickerList | script.py:130-136 | a loaded list has at most 50 tickers and no ticker holds a comma |
| TickerList.LoadKeepsWithout | script.py:133 | a character in no entry is in no loaded ticker |
| TickerList.LoadWithoutQualifiers | script.py:133-136 | at most 50 entries without a colon load unchanged |
| TickerList.StripJoinOfTrimmed | script.py:130 | a join of trimmed texts is its own strip |
| TickerList.EntriesOfJoin | script.py:130-132 | the entries of a comma-joined list of clean tickers are those tickers |
| TickerList.ParseJoinRoundTrip | script.py:130-137 | a comma-joined list of 1..50 clean tickers loads back as itself |
| TickerList.TooManyRefused | script.py:134-136 | a comma-joined list of more than 50 clean tickers is refused with its count |
| TickerList.BlankContent | script.py:130-133 | a white-space-only file loads the empty list |
| TickerList.LoadSingle | script.py:133 | a single entry loads the text after its last colon |
| TickerList.SingleEntry | script.py:130-132 | a trimmed content without commas is a single entry |
| TickerList.QualifierDropped | script.py:131-133 | "Q:T" loads [T]: the exchange qualifier is dropped and T is not stripped again |
| Report.NatToString | script.py:246 | `str(n)`: non-empty digits with no leading zero |
| Report.NatToStringValue | script.py:246 | a written rank reads back as itself |
| Report.TwoDigits | script.py:246 | two digits for the hundredths |
| Report.RoundHalfEven | script.py:246 | the nearest integer, ties to the even one |
| Report.Decimals | script.py:246 | a written magnitude holds no tab, line break or minus sign |
| Report.FormatPrice | script.py:246 | `f"{x:.2f}"` holds no tab or line break |
| Report.DecimalsRoundTrip | script.py:246 | hundredths written with two decimals read back as themselves |
| Report.RoundedIsNear | script.py:246 | the written value is within half a hundredth of the price |
| Report.PriceRoundTrip | script.py:246 | a written price reads back as the price rounded to the hundredth |
| Report.ExactHundredths | script.py:246 | a price in whole hundredths is written and read back exactly |
| Report.FormatLine | script.py:246 | one result line: rank, ticker and price with two decimals, tab-separated (LineRoundTrip reads it back) |
| Report.LineRoundTrip | script.py:246 | a result line reads back as its rank, ticker and rounded price when the ticker holds no tab or line break |
| Report.LineIsNotHeader | script.py:244-246 | no result line equals the header |
| Report.Render | script.py:243-246 | the file has one line more than there are matches |
| Report.RenderLines | script.py:244-246 | the first line is the header and line k + 1 is the line of match k |
| Screener.Keys | script.py:147-153 | the keys of the selection, one per entry, in order |
| Screener.Assign | script.py:153 | dictionary assignment: an existing key keeps its place and takes the value, a new key goes last, other entries are unchanged |
| Screener.Dedup | script.py:149-153 | the keys a dictionary gets from the list: distinct, with exactly the list's tickers |
| Screener.FirstPosition | script.py:149-153 | the position where a ticker first appears in the list |
| Screener.FirstPositionAppend | script.py:149-153 | appending a ticker does not move where an earlier ticker first appears |
| Screener.DedupFirstAppearance | script.py:149-153 | the keys follow the order in which their tickers first appear in the list |
| Screener.DedupDistinct | script.py:149-153 | a list without repeats gives its own order of keys |
| Screener.SelectedTickers | script.py:258 | the selected tickers are exactly the checked keys, no more than the entries |
| Screener.SelectedSingle | script.py:258 | one entry is selected exactly when it is checked |
| Screener.SelectedAppend | script.py:258 | the selection of two runs of entries is the first run's followed by the second's; with SelectedSingle this fixes the selection and its order |
| Screener.AllCheckedSelectsAll | script.py:155-157 | with every ticker checked the selection is every key in order |
| Screener.NoneCheckedSelectsNone | script.py:159-161 | with no ticker checked the selection is empty |
| Screener.SelectedDistinct | script.py:258 | distinct keys give a selection without repeats |
| Screener.Accepts | script.py:261-268 | a ticker matches when its series is non-empty and passes the enabled conditions with its first Open as reference price |
| Screener.Matching | script.py:259-269 | no more matches than selected tickers |
| Screener.MatchingSound | script.py:259-269 | every match is a selected ticker that passes, with its first bar's Open |
| Screener.MatchingComplete | script.py:259-269 | every selected ticker that passes is among the matches |
| Screener.MatchingAppend | script.py:259-269 | screening two lists in turn gives the first's matches, then the second's |
| Screener.Ranked | script.py:269 | ranking keeps the number of matches |
| Screener.RankedInOrder | script.py:269 | match k gets rank k + 1 and keeps its ticker and price |
| Screener.RanksIncreasing | script.py:245 | ranks kept in order are strictly increasing, which is why SaveResults may write them without sorting |
| Screener.NothingEnabledAccepts | script.py:262-268 | with nothing enabled a ticker matches exactly when its series is non-empty and has every looked-up hour |
| Screener.OnlyCondition43 | script.py:262-268 | with only 43 enabled a ticker matches exactly when every looked-up hour is present and a bar of hours 4..20 has a High above 1.5 times the first Open |
| Screener.MissingHourRejects | script.py:262-268 | a series without a bar of a loop hour never matches |
| Screener.ScreenTicker | script.py:261-268 | an empty series is skipped; otherwise the first bar's Open is returned exactly when the series passes |
| Screener.StockScreenerApp.constructor | script.py:13-20 | an app with no tickers, no selection and no matches satisfies the invariant |
| Screener.StockScreenerApp.UploadFile | script.py:130-139 | a refused list changes nothing; a loaded one becomes the ticker list with every ticker checked once, keeping the invariant |
| Screener.StockScreenerApp.PopulateTickerSelection | script.py:147-153 | the selection holds the distinct tickers in order of first appearance, all checked |
| Screener.StockScreenerApp.SelectAllTickers | script.py:155-157 | same keys, every one checked |
| Screener.StockScreenerApp.UnselectAllTickers | script.py:159-161 | same keys, nothing selected |
| Screener.StockScreenerApp.RunScreener | script.py:255-272 | the matches are the passing selected tickers in selection order, ranked 1, 2, …; the invariant holds and the saved lines are their rendering |
| Screener.StockScreenerApp.Reset | script.py:275-287 | the ticker list, selection and matches are emptied: nothing is selected and a save writes the header alone |
| Screener.StockScreenerApp.SaveResults | script.py:242-246 | the lines are the header, then one line per match in rank order |

## Left out

- The tkinter window and every dialog and message box are left out, and
  so are the tree view that lists the matches (script.py:249, 270-271)
  and the condition checkboxes. The enabled conditions are a parameter:
  a set of ids.
- Reading the ticker file is not modelled. `UploadFile` receives the
  file's content, so the path dialog and the read-error branch
  (script.py:140-141) are not modelled.
- `fetch_data` and the Interactive Brokers client are not modelled. Each
  run is given a provider: a function from ticker to its bar series. An
  empty series stands for "no data" or a failed fetch. The date entry, the
  current date and `get_default_date` are not modelled. `ohlc_data` and
  the `DatetimeIndex` check are not modelled either: every provided
  series counts as time-indexed.
- The series is the list of bars in time order, each bar carrying the hour
  it starts at. Dates, minutes and time zones are not modelled.
  `between_time` is modelled by the hour alone, over both days.
- Prices are mathematical reals, so IEEE floating point is not modelled.
  This covers rounding in `1.7 * x` and `2.3 * x`, NaN comparisons, and
  IEEE negative zero: Python writes "-0.00" for the float -0.0, which has
  no counterpart among the reals. A negative price that rounds to zero is
  written "-0.00" by both.
- `Report.FormatPrice`: rounds the exact real value of the price to the
  hundredth, ties to even. Python rounds the exact binary value of the
  float.
- Printed log lines are not modelled (script.py:176, 184, 239, 260, 263).
- `Screener.StockScreenerApp.Reset`: the date entry is not reset, and
  neither are the condition checkboxes, since the enabled set is a
  parameter of each run.
- `Screener.StockScreenerApp.SaveResults`: writes the results in stored
  order instead of calling `sorted(..., key=rank)`. The invariant keeps
  match k at rank k + 1 (`Screener.RanksIncreasing`), so sorting by rank
  changes nothing. The file itself is not written: the method returns its
  lines.
- The setup of the 47 condition labels is kept only as `Conditions.Label`
  for ids 1..19. The labels of ids 20..47 are read as the single
  assignments describe them.
