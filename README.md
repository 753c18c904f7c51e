# Intergalactic analytics: the analysis core, in Dafny

This project models the core of the "intergalactic analytics" web client. A user uploads a CSV file, a server aggregates it, and the client turns the server's answer into highlight cards and keeps a history of past analyses. The modelled parts are:

- **Analysis** (`analysis.dfy`, `src/utils/analysis`):
  - `validateServerResponse` decides whether a decoded server record holds usable data;
  - `convertHighlightsToArray` turns the record into `{title, description}` cards (numbers are rounded, descriptions come from the table of known titles, with a fallback label);
  - `transformAnalysisData` decodes, parses, validates and converts one server payload;
  - `isCsvFile` checks the file extension, ignoring case;
  - `InvalidServerResponseError` is the error class that marks a bad server answer (`outcomes.dfy`).
- **useCsvAnalysis** (`csv_analysis.dfy`, `src/hooks/use-csv-analysis`): `analyzeCsv(file)` POSTs the file to `<API_HOST>/aggregate?rows=10000`, reads the streamed body chunk by chunk and reports to the caller's sinks.
  - On success the sinks get `onData(cards)` and then `onComplete(record)`.
  - On any failure they get exactly one `onError`.
  - An `InvalidServerResponseError` reaches `onError` unchanged; every other failure becomes a plain `Error` with the fixed "unknown parsing error" message.
  - The method is proved against a pure function of the response that lists the sink calls.
- **useDebounce** (`debounce.dfy`, `src/hooks/use-debounce`): a scheduler on a virtual clock, written both as a value-level state machine and as a class whose methods are proved against it.
  - The default strategy waits one animation frame; `type: 'timeout'` waits `delay`.
  - At most one call is pending, a newer call replaces it, and unmounting cancels it.
  - The methods `UnmountAfterFireClient` and `SequentialCallsClient` replay two test scenarios on the class. They carry no contract of their own: they only show that the class contracts are strong enough to prove the expected invocations.
- **Storage** (`storage.dfy`, `src/utils/storage`): `getHistory`, `addToHistory`, `removeFromHistory` and `clearHistory` over a key-value store (`localStorage`) held by a class.
  - Store failures are parameters. A failing write leaves the store as it was, and its error reaches the caller unchanged.
  - The method `AddClient` adds to an empty store through the class. Like the debounce clients, it only exercises the class contracts.
- **formatDate** (`format_date.dfy`, `src/utils/formateDate`): a time value in milliseconds rendered as `DD.MM.YYYY`, with the proleptic Gregorian calendar written out.
  - `CivilFromDays` always gives a date that exists: the day lies within the length of its month, February 29 only in leap years.
  - `CivilFromDays` and `DaysFromCivil` are proved inverse both ways: on every day number, and on every date that exists.
  - `MakeDate` builds the value of `new Date(year, monthIndex, day)`. Years 0 to 99 stand for 1900 to 1999, and a month index outside 0..11 carries into the year. Whenever the day exists in the normalised month, the value reads back as that date.
  - The rendered text is proved to parse back to the calendar date.
- **Decimal** (`decimal.dfy`): `String(n)` for integers, with a parser proved to invert it. It is shared by the card titles and the dates.

The repository's implementation files are not part of this model. Only their test files are. Each operation is therefore modelled on the behaviour those tests fix and on the modules' stated behaviour, such as the messages, callbacks and storage format their interfaces describe. The cited lines are the test lines each member accounts for.

Where a test and that stated behaviour could be read differently, the model follows the test:
- the fetch call has exactly the two fields `method` and `body`;
- `getHistory` returns `[]` for text that does not parse.

Some choices go beyond what the tests check:
- On success the sinks are called as `onData` and then `onComplete`. The test at `src/hooks/use-csv-analysis.test.jsx:88-90` checks both calls but not their order; delivering `onData` before `onComplete` is this model's choice, and no test fixes it.

## Model

| member | source | states |
|---|---|---|
| Outcomes.NewInvalidServerResponseError | src/utils/analysis.test.jsx:176-182 | the error is an `InvalidServerResponseError`, its name is "InvalidServerResponseError" and its message is the one given |
| Analysis.ValidateServerResponse | src/utils/analysis.test.jsx:123-171 | throws an `InvalidServerResponseError` exactly when some known key holds null; otherwise returns true exactly when at least one known key is present, and false exactly when none is |
| Analysis.ValidateAllKnownKeys | src/utils/analysis.test.jsx:124-132 | a record giving every known key a non-null value validates to true |
| Analysis.ValidateOnlyUnknownKeys | src/utils/analysis.test.jsx:136-143 | a record with only unknown keys validates to false and does not throw |
| Analysis.ValidateKnownNullThrows | src/utils/analysis.test.jsx:147-159 | a null under any known key makes validation throw `InvalidServerResponseError`, whatever the other keys hold |
| Analysis.ValidateOneKnownKey | src/utils/analysis.test.jsx:163-171 | one non-null known key among only unknown keys validates to true |
| Analysis.ConvertHighlightsToArray | src/utils/analysis.test.jsx:42-65 | one card per record entry, in entry order; each card's title is the value's string form and its description the known title or the fallback label |
| Analysis.ConvertMixedExample | src/utils/analysis.test.jsx:42-65 | a known key gets its table title; an unknown key gets "Неизвестный параметр" |
| Analysis.DescriptionsNeverBlank | src/utils/analysis.test.jsx:54-62 | no card has an empty description, and a key that is unknown or has an empty table entry gets the fallback label |
| Analysis.Round | src/utils/analysis.test.jsx:69-87 | `Math.round` lands within half a unit of its argument, halves rounding up |
| Analysis.RoundIsNearest | src/utils/analysis.test.jsx:69-87 | no integer is closer to the value than the rounded one |
| Analysis.ConvertRoundsExample | src/utils/analysis.test.jsx:69-87 | 1000.456 becomes the title "1000" and 500.789 becomes "501" |
| Analysis.NumericTitleReadsBack | src/utils/analysis.test.jsx:69-87 | a numeric card's title parses back to exactly the rounded value |
| Analysis.ConvertEmpty | src/utils/analysis.test.jsx:91-95 | an empty record converts to no cards |
| Analysis.StripTrailingNewline | src/utils/analysis.test.jsx:16-36 | the newline that ends a payload line is removed, and text without one is unchanged |
| Analysis.StripRestoresLine | src/utils/analysis.test.jsx:16-36 | stripping undoes appending the line's newline |
| Analysis.TitleOf | src/utils/analysis.test.jsx:69-87 | a numeric value's title is the canonical decimal text of the value rounded and parses back to it; a string value is its own title |
| Analysis.Label | src/utils/analysis.test.jsx:42-65 | the description is never empty: the known title when the table has a non-empty one, and the fallback label when the key is unknown or its title is empty |
| Analysis.TransformAnalysisData | src/utils/analysis.test.jsx:16-36 | every failure is an `InvalidServerResponseError`; a success carries a record that validates to true and exactly the cards converted from it |
| Analysis.TransformOutcome | src/utils/analysis.test.jsx:16-36 | every failure of `transformAnalysisData` is an `InvalidServerResponseError`; it succeeds exactly when the payload parses, no known key is null and some known key is present, and the success carries the record and its cards |
| Analysis.TransformRejectsNoUsableKey | src/utils/analysis.test.jsx:28-36 | a payload whose keys are all unknown is rejected with `InvalidServerResponseError` |
| Analysis.IsCsvFile | src/utils/analysis.test.jsx:100-119 | an accepted name has at least four characters and a dot fourth from the end |
| Analysis.IsCsvFileIff | src/utils/analysis.test.jsx:100-119 | a file is a CSV file exactly when its name's last four characters are ".csv" in any mix of case |
| Analysis.IsCsvFileExamples | src/utils/analysis.test.jsx:100-119 | "test.csv" and "TEST.CSV" are accepted and "test.txt" is not |
| Decimal.IntToString | src/utils/analysis.test.jsx:69-87 | the text is never empty and starts with "-" exactly for negative numbers; the digits after any sign have no leading zero unless the number is 0 |
| Decimal.NatRoundTrip | src/utils/analysis.test.jsx:69-87 | the decimal text of a natural number parses back to that number |
| Decimal.IntRoundTrip | src/utils/analysis.test.jsx:69-87 | the decimal text of any integer, negative ones included, parses back to that integer |
| Decimal.IntToStringInjective | src/utils/analysis.test.jsx:69-87 | distinct integers get distinct titles |
| CsvAnalysis.AnalysisRequest | src/hooks/use-csv-analysis.test.jsx:32-51 | the request is a POST of the file to the API host followed by "/aggregate?rows=10000" |
| CsvAnalysis.TestHostRequest | src/hooks/use-csv-analysis.test.jsx:44-50 | with the test host the URL is exactly "http://test-api.com/aggregate?rows=10000" |
| CsvAnalysis.AnalyzeCsv | src/hooks/use-csv-analysis.test.jsx:55-91 | the loop that reads the body produces one fetch followed by exactly the sink calls the response determines |
| CsvAnalysis.ReadAll | src/hooks/use-csv-analysis.test.jsx:56-65 | reading fails only with a rejection the script holds, and a script without rejections always reads to the end |
| CsvAnalysis.SinkCalls | src/hooks/use-csv-analysis.test.jsx:55-201 | one or two sink calls: a single call is an `onError`, two are `onData` then `onComplete` |
| CsvAnalysis.SingleFetch | src/hooks/use-csv-analysis.test.jsx:32-51 | `analyzeCsv` issues exactly one fetch, as its first action |
| CsvAnalysis.Reported | src/hooks/use-csv-analysis.test.jsx:145-201 | an `InvalidServerResponseError` is reported unchanged; any other error becomes a plain `Error` with the unknown-parsing message |
| CsvAnalysis.SinkCallsShape | src/hooks/use-csv-analysis.test.jsx:95-201 | the sinks get either a single `onError`, or `onData` followed by `onComplete`; `onComplete` never follows an error |
| CsvAnalysis.NoBodyOrHttpFailure | src/hooks/use-csv-analysis.test.jsx:95-141 | a response without a body, or with a non-ok status, ends in one `onError` with the unknown-parsing error and no data |
| CsvAnalysis.ReadChunksThen | src/hooks/use-csv-analysis.test.jsx:56-65 | reading a run of chunks gives their concatenation, followed by what the rest of the stream gives |
| CsvAnalysis.StreamSuccess | src/hooks/use-csv-analysis.test.jsx:55-91 | chunks followed by done pass the concatenated bytes to the transform, and its result goes to `onData` then `onComplete` |
| CsvAnalysis.StreamTransformFails | src/hooks/use-csv-analysis.test.jsx:145-201 | a stream read to its end whose transform fails gives only the classified error, with no data; an `InvalidServerResponseError` from the transform reaches `onError` unchanged |
| CsvAnalysis.StreamRejected | src/hooks/use-csv-analysis.test.jsx:145-201 | a read that fails after some chunks ends in the classified error alone, with no transform and no data |
| CsvAnalysis.WithAnalysisTransform | src/hooks/use-csv-analysis.test.jsx:55-91 | with the real transform, every reported error is an `InvalidServerResponseError` or the unknown-parsing error, and on success `onData` gets the cards of exactly the record `onComplete` gets, which validates to true |
| Debounce.Debouncer.constructor | src/hooks/use-debounce.test.jsx:20-52 | a new debouncer uses the animation-frame strategy unless options say otherwise, with nothing pending and no invocation |
| Debounce.Debouncer.Call | src/hooks/use-debounce.test.jsx:20-32 | a call schedules the target, replacing any pending call, and does not run it synchronously |
| Debounce.Debouncer.Advance | src/hooks/use-debounce.test.jsx:36-52 | moving the clock fires the pending call exactly when its due time is reached |
| Debounce.Debouncer.RunAllTimers | src/hooks/use-debounce.test.jsx:56-69 | running all timers fires the pending call, if any, and leaves nothing pending |
| Debounce.Debouncer.Unmount | src/hooks/use-debounce.test.jsx:56-69 | unmounting cancels the pending call and keeps past invocations |
| Debounce.Sched.Call | src/hooks/use-debounce.test.jsx:20-32 | a call leaves the invocations and the clock alone and makes the call's arguments the one pending call, due one wait from now |
| Debounce.Sched.Advance | src/hooks/use-debounce.test.jsx:36-52 | the clock moves by the step; one invocation, with the pending arguments, is added exactly when the pending call falls due within the step, and none otherwise |
| Debounce.Sched.RunAllTimers | src/hooks/use-debounce.test.jsx:56-69 | the pending call, if any, is invoked with its arguments and nothing is left pending; with nothing pending the state is unchanged |
| Debounce.Sched.Unmount | src/hooks/use-debounce.test.jsx:56-69 | nothing is left pending, and past invocations and the clock are kept |
| Debounce.CallIsDeferred | src/hooks/use-debounce.test.jsx:20-27 | a call adds no invocation and leaves exactly one pending call, due after the wait, with the call's arguments |
| Debounce.FiresExactlyAtWait | src/hooks/use-debounce.test.jsx:36-52 | after a call, advancing less than the wait runs nothing; advancing the wait or more runs the target once with the call's arguments |
| Debounce.DefaultScenario | src/hooks/use-debounce.test.jsx:20-32 | without options the target runs after one animation frame, not before |
| Debounce.TimeoutScenario | src/hooks/use-debounce.test.jsx:36-52 | with a timeout of `delay` there is nothing after `delay - 1` and one invocation after one more tick |
| Debounce.UnmountAfterFireScenario | src/hooks/use-debounce.test.jsx:56-69 | unmounting after the timers ran leaves exactly the one invocation |
| Debounce.RunsOnlyWithCallArguments | src/hooks/use-debounce.test.jsx:73-83 | every argument list the target receives is one that some call passed, unchanged |
| Debounce.SequentialCallsScenario | src/hooks/use-debounce.test.jsx:87-101 | two calls a full delay apart run the target twice, in call order |
| Debounce.AtMostOneRunPerCall | src/hooks/use-debounce.test.jsx:87-101 | over any sequence of operations, invocations plus pending calls never exceed the calls made |
| Debounce.RunValid | src/hooks/use-debounce.test.jsx:36-52 | no sequence of operations leaves a pending call overdue |
| Debounce.UnmountCancels | src/hooks/use-debounce.test.jsx:56-69 | after unmounting, no later clock movement runs the target (the test unmounts only after the call has fired) |
| Debounce.CallSupersedes | src/hooks/use-debounce.test.jsx:87-101 | a second call before the first fires replaces it, so only the latest arguments are used (the test spaces its calls a full delay apart) |
| Debounce.AdvanceAdditive | src/hooks/use-debounce.test.jsx:36-52 | advancing the clock in two steps is the same as advancing by their sum |
| Storage.HistoryIn | src/utils/storage.test.jsx:44-69 | the stored list when the key holds parsed entries; otherwise the history is empty |
| Storage.HistoryStorage.constructor | src/utils/storage.test.jsx:12-27 | the storage works on the given store under the given key |
| Storage.HistoryStorage.GetHistory | src/utils/storage.test.jsx:44-69 | returns `[]` when the key is absent or its text does not parse, and the stored list otherwise |
| Storage.HistoryStorage.AddToHistory | src/utils/storage.test.jsx:74-114 | returns the item with its new id and timestamp and writes it in front of the history; a failing write returns the error and leaves the store unchanged |
| Storage.HistoryStorage.RemoveFromHistory | src/utils/storage.test.jsx:119-135 | writes the history without the entries of that id; a failing write returns the error and leaves the store unchanged |
| Storage.HistoryStorage.ClearHistory | src/utils/storage.test.jsx:140-164 | removes the history's key and nothing else; a failing removal returns the error and leaves the store unchanged |
| Storage.AddToEmpty | src/utils/storage.test.jsx:75-89 | on an empty store the written list is exactly the new entry |
| Storage.AddPrepends | src/utils/storage.test.jsx:93-103 | the new entry comes first and the previous history follows in order |
| Storage.Without | src/utils/storage.test.jsx:119-135 | filtering keeps only entries of the history, and none with the removed id |
| Storage.WithoutKeepsOthers | src/utils/storage.test.jsx:119-135 | an entry survives removal exactly when it was in the history with another id |
| Storage.WithoutKeepsOrder | src/utils/storage.test.jsx:119-135 | removal keeps the remaining entries in their order: removing from a joined history joins the two results |
| Storage.WithoutRemovesOne | src/utils/storage.test.jsx:119-135 | with distinct ids, removing a present id shortens the history by exactly one; removing an absent id changes nothing in length |
| Storage.RemoveUndoesAdd | src/utils/storage.test.jsx:74-135 | removing the entry just added under a fresh id restores the previous history |
| Storage.ClearKeepsOtherKeys | src/utils/storage.test.jsx:145-154 | clearing leaves every other key of the store untouched and the history empty |
| FormatDate.CivilFromDays | src/utils/formateDate.test.jsx:6-48 | every day number maps to a date that exists: a month in 1..12 and a day within that month's length, 29 February only in leap years |
| FormatDate.DaysFromCivilInverse | src/utils/formateDate.test.jsx:6-48 | converting a day number to a calendar date and back gives the same day number |
| FormatDate.CivilFromDaysInverse | src/utils/formateDate.test.jsx:13-30 | converting a date that exists to its day number and back gives the same date |
| FormatDate.DateOf | src/utils/formateDate.test.jsx:6-48 | the calendar fields of every time value form a date that exists |
| FormatDate.MakeDate | src/utils/formateDate.test.jsx:13-30 | `new Date(year, monthIndex, day)` is a whole number of days: a midnight |
| FormatDate.MakeDateIsDayStart | src/utils/formateDate.test.jsx:13-30 | that midnight starts the date with the normalised year and month, years 0..99 taken as 1900..1999 |
| FormatDate.MakeDateReadsBack | src/utils/formateDate.test.jsx:13-30 | when the day exists in the normalised month, the value reads back as that year, month and day, and `formatDate` prints them |
| FormatDate.MakeDatePrints | src/utils/formateDate.test.jsx:13-30 | a date built by `new Date` prints as the text of the date it normalises to, when that day exists |
| FormatDate.DayStartReadsBack | src/utils/formateDate.test.jsx:6-9 | the midnight that starts a date that exists reads back as that date |
| FormatDate.Pad2 | src/utils/formateDate.test.jsx:20-23 | two-digit padding always has two characters and reads back as the number |
| FormatDate.PadsWithZero | src/utils/formateDate.test.jsx:20-23 | numbers below ten get a leading "0" |
| FormatDate.FormatCivilRoundTrip | src/utils/formateDate.test.jsx:41-48 | the `DD.MM.YYYY` text of any date with a month in 1..12 and a day in 1..31 parses back to that date |
| FormatDate.FormatCivil | src/utils/formateDate.test.jsx:20-23 | the text is the padded day, a dot, the padded month, a dot and the year, in that order |
| FormatDate.FormatDate | src/utils/formateDate.test.jsx:41-48 | the formatted text has dots at positions 2 and 5, reads back as the calendar date of the time value, and ends in exactly the year's decimal text, with no leading zeros |
| FormatDate.FromTimestampExample | src/utils/formateDate.test.jsx:6-9 | 1672531200000 is formatted as "01.01.2023" |
| FormatDate.MonthIndexExample | src/utils/formateDate.test.jsx:13-16 | the date built from (2023, 11, 31), with a zero-based month, is formatted as "31.12.2023" |
| FormatDate.LeadingZeroExample | src/utils/formateDate.test.jsx:20-23 | the date built from (2023, 0, 5) is formatted as "05.01.2023" |
| FormatDate.LeapDayExample | src/utils/formateDate.test.jsx:27-30 | the date built from (2020, 1, 29) is formatted as "29.02.2020" |
| FormatDate.EpochExample | src/utils/formateDate.test.jsx:34-37 | time value 0 is formatted as "01.01.1970" |

## Left out

- Pages and components (`HomePage`, `GeneratePage`, `HistoryPage`, navigation) are UI glue around the modelled core and are not part of this model.
- `src/utils/consts` is not part of this model. The table of known titles (`HIGHLIGHT_TITLES`), the storage key (`STORAGE_KEY`) and the API host are parameters.
- UTF-8 decoding (`TextDecoder`) and `JSON.parse` are function parameters of `TransformAnalysisData`. A payload that does not parse is modelled as an `InvalidServerResponseError`.
- Analysis.ValidateServerResponse: the messages of the errors thrown by validation and transformation are not fixed by the tests, so the model uses its own constants. Only the error's class is stated.
- Analysis.TitleOf: numbers are reals, so floating-point rounding error, `NaN`, `Infinity` and the exponent form `String` uses from 1e21 upward are not modelled. Objects and arrays as record values are not modelled either.
- Analysis.IsCsvFile: lower-casing covers ASCII letters only. Unicode case mappings are not modelled.
- CsvAnalysis.AnalyzeCsv:
  - `fetch` and `FormData` are replaced by a request value and a given response. The form field's name is not modelled.
  - A fetch that rejects outright (a network failure) is not modelled.
  - The read results are a given script, and a script that runs out counts as done.
  - The bytes are gathered and transformed once the stream is done.
  - Overlapping analyses and React state updates are not modelled.
- Debounce:
  - Timers, `requestAnimationFrame` and React's mount lifecycle are replaced by a virtual clock.
  - The animation-frame length is a parameter; the tests' frame mock uses 16 ms.
  - Changing `fn` or the options while mounted is not modelled.
- Storage:
  - `crypto.randomUUID`, `Date.now` and store failures are parameters of each call.
  - Text that parses as JSON but is not a list of entries is folded into `Unparseable`.
- FormatDate.FormatDate: local time is modelled as UTC, so time zones are not modelled. Years are not padded to four digits: the rendering of years outside 1000..9999 is not fixed by the tests.
- FormatDate.MakeDate: time values beyond 8.64e15 ms either side of the epoch, which JavaScript turns into an Invalid Date, are not modelled; every integer is a valid time value here. Non-integral and non-finite arguments are not modelled either.
