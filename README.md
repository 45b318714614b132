# luas-archive-service: a Dafny model of the forecast-table extraction

The service (app.js) reads a tab-separated file of Luas tram stop identifiers
at start-up, requests the forecast page of one stop from the Luas forecast
endpoint, and turns the page's table (header cells `th`, rows `tr`, cells `td`)
into one JavaScript object per data row, keyed by heading. This project models
those three pieces and proves what they compute:

- `Extraction` — the nested loop that builds `tableData` (app.js:97-115), as an
  imperative method with loop invariants, specified by the functions
  `RecordOf` (one row) and `Table` (all rows), with lemmas about them.
- `StopList` — the `stopIDs` / `stopID` variables and the `headers` / `data`
  stream callbacks (app.js:53-66), as a class whose methods update those two
  fields, a method that replays one pass of the stream, and lemmas about the
  specification function `StopIds`.
- `ForecastRequest` — the request URL `luasAPIBase + id` (app.js:75, 90) and
  its inverse.
- `Wrappers` — `Option` (JavaScript's `undefined`) and `Result` (a thrown
  exception).

The DOM and CSV libraries are abstracted away. `keys[j]` stands for the
property name that heading j yields: the source keys each object by the
heading's first child node (`headings[j].childNodes[0]`, with `.nodeValue`
commented out), and how the runtime turns that node into a property name is
decided inside the DOM library, so the model takes the derived keys as given.
`rows[i]` is the list of `innerHTML` strings of the `td` cells of row i; row 0
is the header row. A CSV row is a map from header name to field.

A data row with fewer cells than headings aborts the whole extraction; no row
is skipped. Reading `.innerHTML` of the missing `td` throws, and the promise's
`catch` only logs. `ExtractTable` returns `Failure(MissingCell(row, column))`
for the first such row in loop order. A row with more cells than headings is
accepted and its extra cells are ignored. The service collects no batches and
writes no snapshot files: the scheduled job's body (app.js:146-177) is
commented out.

## Model

| member | source | states |
|---|---|---|
| `Extraction.ExtractTable` | app.js:101-115 | Succeeds exactly when every row after the header row has a cell per heading, and then returns `Table(keys, rows)`; otherwise fails at the first short row i (1 <= i), naming the missing cell index |rows[i]| < |keys|, with every earlier row complete |
| `Extraction.Table` | app.js:101-115 | The contents of `tableData`; the header row is skipped: |rows| - 1 records, none when only the header row (or no row) exists |
| `Extraction.TableRowOrder` | app.js:102-114 | Record k is built from row k + 1: records come in table order, one push per row |
| `Extraction.TableKeySets` | app.js:103-111 | Every record has the same key set, the set of keys the headings yield |
| `Extraction.TableIgnoresHeaderRow` | app.js:102 | Replacing the header row's cells changes nothing in the result |
| `Extraction.RecordOf` | app.js:103-111 | The object `obj` built key by key: at most one entry per heading, and the last heading's key always holds the last heading's cell |
| `Extraction.RecordKeys` | app.js:104-111 | A record's key set is exactly the set of keys derived from the headings |
| `Extraction.RecordLastWriteWins` | app.js:104-111 | The value under `keys[j]` is cell j when no later heading yields the same key: later assignments overwrite earlier ones |
| `Extraction.RecordDistinctKeys` | app.js:104-111 | With pairwise distinct keys, a record has exactly one entry per heading and maps `keys[j]` to cell j for every heading j |
| `Extraction.RecordOneKey` | app.js:105-111 | When every heading yields the same key, the record holds only the last heading's cell |
| `Extraction.RecordIgnoresExtraCells` | app.js:104-109 | Two rows that agree on their first |keys| cells give the same record: cells past the last heading are never read |
| `StopList.StopIds` | app.js:63-66 | The contents of `stopIDs` after the given rows: one identifier per row |
| `StopList.StopIdCollector.constructor` | app.js:53-54 | `stopIDs` starts empty and `stopID` undefined |
| `StopList.StopIdCollector.OnHeaders` | app.js:60-62 | The key column becomes the first header (undefined when there is none); the collected identifiers are unchanged |
| `StopList.StopIdCollector.OnData` | app.js:63-66 | Appends the row's field under the key column, looked up under the name `"undefined"` when no header was given (JavaScript converts an undefined property name to that string), and undefined when the row lacks it; changes nothing else |
| `StopList.CollectStopIds` | app.js:53-66 | One headers event followed by one data event per row yields `StopIds(KeyColumn(headers), rows)` |
| `StopList.StopIdsAt` | app.js:63-66 | One identifier per row, in row order; identifier i is row i's field under the fixed key column, or under the name `"undefined"` when no header was given, and undefined when row i lacks that field |
| `StopList.StopIdsFromFirstHeader` | app.js:60-66 | When the file has a header line and row i has its first header's field, identifier i is that field |
| `StopList.StopIdsAppend` | app.js:63-66 | Collecting over a concatenation of rows gives the concatenation of the two collections |
| `ForecastRequest.RequestUrl` | app.js:75 | The URL has the fixed endpoint as prefix and the stop identifier as the rest |
| `ForecastRequest.StopIdOf` | app.js:75 | Recovers the identifier exactly from URLs that start with the endpoint, and `RequestUrl` of the recovered identifier is the URL itself |
| `ForecastRequest.StopIdOfRequestUrl` | app.js:75 | Round trip: the identifier is recovered from the URL built for it |
| `ForecastRequest.RequestUrlInjective` | app.js:75 | Distinct stop identifiers give distinct request URLs |
| `ForecastRequest.StartupRequest` | app.js:90 | The start-up request is for stop "1", at the endpoint followed by "1" |

## Left out

- The network fetch `getLuasHTML` (app.js:78-88): I/O. On a network error it returns the result of `util.log` (undefined), which the model does not follow into the DOM parser.
- Parsing of the page and of the stop file (app.js:56-59, 93-99): the `dom-parser` and `csv-parser` libraries are foreign code; their outputs are the given `keys`, `rows` and CSV rows.
- The key derivation itself: how the runtime turns `headings[j].childNodes[0]` into a property name depends on the DOM library's node objects, so keys are a given sequence. `RecordOneKey` states what follows if every heading yields the same name.
- JavaScript object details: property insertion order (a record is modelled as an unordered map), the special property name `__proto__`, and integer-like key ordering. This covers the CSV row lookup `row[stopID]` too: a lookup there can find members inherited from `Object.prototype`, and a first header named `__proto__` yields `Object.prototype` where the model gives undefined.
- The status message read at app.js:95 and the logging loop at app.js:116-135: they only log; a missing status element would throw before the extraction, which is not modelled.
- The stream's `end` and `error` events (app.js:67-73): the handlers only log. The `error` handler sits on the csv-parser stream, so it sees only parse errors, which leave the identifiers collected so far. An error of the file stream itself, such as a missing data/luas-stops.txt, is not passed on by `pipe` and is an unhandled `'error'` event.
- The `node-cron` schedule (app.js:146-177): its body is commented out.
- Express set-up, middleware and error handlers (app.js:17-48), routes/index.js and dal/index.js: HTTP and database plumbing with no logic of their own.
- All `console` and `util` logging.
