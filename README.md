# cji-dwh: a verified model of the data path

cji-dwh collects records of youth-work infrastructure (buildings, outdoor spaces) from a
linked-data source and normalises them into one table, `all_infras`. A small API serves
that table from an in-memory cache, and a dashboard filters it and draws it on a map. This
project models the four pieces of logic in that path that can be stated precisely. It
proves what each one guarantees.

- `Assets` (`Assets.dfy`) covers the transformation step of the pipeline asset:
  - `split_camel_case` turns a type URI into a readable label;
  - the ordered `CASE` maps a record's namespace to the name of its source system;
  - the `SELECT` numbers the raw rows with `row_number()` and renames their columns.
- `Cache` (`Cache.dfy`) covers the API's `CacheManager`, a two-field state machine:
  - the cached frame and its last-modified timestamp;
  - a reload from the object store only when the cache is empty or the timestamp moved;
  - a non-reentrant lock.
- `Crud` (`Crud.dfy`) covers the API's query builder. It turns the limit, offset, filter
  dictionary and sort request of a list call into SQL text and a parameter list. It also
  covers the fixed query of a detail call.
- `App` (`App.dfy`) covers two parts of the dashboard:
  - the sidebar filters of `apply_filters`;
  - the map loop of `display_map_view`: the regular-expression search in the GML text of
    each row, splitting and pairing the coordinates, the precedence of polygons over
    points, and the cap on the number of rows drawn.
- `Text` (`Text.dfy`) holds the ASCII case mapping, `join` and character counting.
  `Wrappers` (`Wrappers.dfy`) holds `Option` and `Result`.

Three behaviours of the code are easy to miss, and the model keeps them as written:
- **Sort columns.** The allow-list at `api/src/db/crud.py:25` has four columns: `id`,
  `location_name`, `city` and `source_system`. Any other request, `location_type_label`
  included, is replaced by `id` (`Crud.SortColumn`).
- **Odd coordinate counts.** The pairing at `app/src/app.py:129-130` reads past the end of
  an odd-length coordinate list and raises `IndexError`. Nothing catches it, so it ends the
  whole map view, not just that row. `App.OddPolygonAborts` and `App.ErrorPersists` state
  this.
- **Where geometry is read.** The pipeline copies the `point` and `gml` texts unchanged.
  The dashboard parses them at display time, and the model parses them there too.

## Model

| member | source | states |
|---|---|---|
| Assets.AfterLastHash | pipeline/cji_pipeline/assets.py:85 | the result is a '#'-free suffix of the value, and it is preceded by '#' whenever it is shorter than the value |
| Assets.LastFragment | pipeline/cji_pipeline/assets.py:85 | for any prefix, the part after the last '#' of `prefix#fragment` is the fragment |
| Assets.SpaceCapitals | pipeline/cji_pipeline/assets.py:86 | the first character is kept, and the length grows by exactly the number of capitals after index 0 |
| Assets.SpacingRoundTrip | pipeline/cji_pipeline/assets.py:86 | removing each space that stands before a capital gives the fragment back, so the substitution adds spaces and nothing else |
| Assets.TitleCase | pipeline/cji_pipeline/assets.py:87 | same length; each character is upper-cased exactly when it starts a word (index 0 or after a space) |
| Assets.TitleCaseOfLower | pipeline/cji_pipeline/assets.py:86-87 | title-casing a lower-cased text changes letter case only |
| Assets.SplitCamelCase | pipeline/cji_pipeline/assets.py:83-88 | null stays null; a value without '#' is returned unchanged; with '#', the label equals the spaced fragment after the last '#' up to letter case |
| Assets.LabelOfLastFragment | pipeline/cji_pipeline/assets.py:84-87 | only the fragment after the last '#' contributes to the label |
| Assets.Label | pipeline/cji_pipeline/assets.py:86-87 | the label has the spaced fragment's length; a character that starts a word is upper-cased, and every other character is lower-cased |
| Assets.LabelShape | pipeline/cji_pipeline/assets.py:86-87 | the label has the spaced fragment's length, equals it up to case, capitalises every word start and lower-cases every other character |
| Assets.CamelCaseLabel | pipeline/cji_pipeline/assets.py:86-87 | under per-word capitalisation, a camel-cased name of lower-case words is labelled with those words, each capitalised, joined by single spaces |
| Assets.JeugdverblijfLabel | pipeline/cji_pipeline/assets.py:83-88 | under per-word capitalisation, any URI ending in `#jeugdverblijfOfJeugdhostel` is labelled `Jeugdverblijf Of Jeugdhostel` |
| Assets.FirstMatch | pipeline/cji_pipeline/assets.py:108-117 | a searched `CASE` gives NULL exactly when no branch key equals the value, and otherwise the result of a branch whose key equals it |
| Assets.FirstMatchIsEarliest | pipeline/cji_pipeline/assets.py:108-117 | the earliest branch whose key equals the value decides the result |
| Assets.SourceSystem | pipeline/cji_pipeline/assets.py:108-117 | a NULL namespace, or one equal to none of the seven URIs, yields NULL; any other result is a listed (namespace, name) pair |
| Assets.SourceSystemKeysDistinct | pipeline/cji_pipeline/assets.py:109-115 | the seven namespace URIs are pairwise distinct, so no namespace satisfies two branches |
| Assets.SourceSystemExact | pipeline/cji_pipeline/assets.py:108-117 | a namespace maps to a name exactly when the table lists that pair |
| Assets.SourceSystemExamples | pipeline/cji_pipeline/assets.py:109-115 | both jeugdmaps namespaces map to `Jeugdmaps`, the Kampas namespace maps to `Kampas`, and NULL maps to NULL |
| Assets.UnknownNamespace | pipeline/cji_pipeline/assets.py:109 | matching is exact: the Kampas URI without its trailing slash maps to NULL |
| Assets.Project | pipeline/cji_pipeline/assets.py:95-122 | a record keeps the given id and every raw column of its row, with the label and source system derived from that row |
| Assets.NumberFrom | pipeline/cji_pipeline/assets.py:95-122 | one record per row, in order, with consecutive ids; every raw column is carried over, and the label and source system come from the same row |
| Assets.AllInfras | pipeline/cji_pipeline/assets.py:94-123 | the table has one record per raw row; record i has id i+1, carries row i's columns unchanged under their new names, and derives its label and source system from row i |
| Assets.SurrogateIdsUnique | pipeline/cji_pipeline/assets.py:95 | ids lie in 1..N and no two records share one |
| Crud.SortColumn | api/src/db/crud.py:25-27 | the column is always in the allow-list; it is the requested one when that is allowed, and `id` otherwise |
| Crud.SortDirection | api/src/db/crud.py:29-32 | the direction is `ASC` or `DESC`, and `DESC` exactly when the request reads `desc` in any letter case |
| Text.Join | api/src/db/crud.py:22 | joining no parts gives the empty text, and a join of parts opens with the first part |
| Text.JoinEnds | api/src/db/crud.py:22 | a join of several parts closes with the separator followed by the last part |
| Crud.FilterClauses | api/src/db/crud.py:19-20 | one clause per entry, in order; clause i is entry i's key followed by ` = ?` |
| Crud.FilterValues | api/src/db/crud.py:19-21 | one value per entry, in order; value i is entry i's value |
| Crud.CollectFilters | api/src/db/crud.py:18-21 | the loop over the filter entries builds exactly those clauses and values |
| Crud.WhereClause | api/src/db/crud.py:17-22 | the `WHERE` part is empty exactly when there are no entries, and otherwise starts with ` WHERE ` |
| Crud.JoinedPlaceholders | api/src/db/crud.py:22 | clauses joined by ` AND ` hold one placeholder per clause when each clause holds one |
| Crud.WherePlaceholders | api/src/db/crud.py:17-22 | the `WHERE` part holds one placeholder per filter entry when no key holds one itself |
| Crud.OrderClause | api/src/db/crud.py:25-32 | the sort part starts with ` ORDER BY `, is followed by more text, and holds no placeholder |
| Crud.PagePlaceholders | api/src/db/crud.py:32 | the page clause holds exactly two placeholders |
| Crud.ListPlaceholders | api/src/db/crud.py:13-33 | the list query holds as many placeholders as there are filter entries plus two |
| Crud.GetInfras | api/src/db/crud.py:13-33 | the query is the base, the `WHERE` part (absent without filters), the validated `ORDER BY` and `LIMIT ? OFFSET ?`; the parameters are the filter values in entry order followed by limit and offset; with placeholder-free keys, placeholders and parameters are equal in number |
| Crud.ListQueryShape | api/src/db/crud.py:13-32 | every list query starts with `SELECT * FROM all_infras` and ends with ` LIMIT ? OFFSET ?` |
| Crud.NoFiltersNoWhere | api/src/db/crud.py:17 | no filters, or an empty dictionary, give no `WHERE` part, and limit and offset are then the only parameters |
| Crud.DetailPlaceholders | api/src/db/crud.py:42 | the detail query holds exactly one placeholder |
| Crud.DetailQuery | api/src/db/crud.py:42-43 | the detail query is exactly `SELECT * FROM all_infras WHERE id = ?`, and its one placeholder is bound to the identifier |
| Cache.Empty | api/src/db/cache_manager.py:12-15 | a new manager has no data, no timestamp, and a free lock |
| Cache.LoadHoldingLock | api/src/db/cache_manager.py:37-65 | a download is attempted exactly when the head lookup succeeds and the cache is stale; it fails only when the store gives no frame; both fields change only on a reload, together, to the downloaded frame and the looked-up timestamp; otherwise nothing changes |
| Cache.StaleReloads | api/src/db/cache_manager.py:32-65 | with the lock free, a working store and a stale cache, a load stores the downloaded frame with the looked-up timestamp and releases the lock |
| Cache.Load | api/src/db/cache_manager.py:32-67 | a load blocks exactly when the lock is already held, and changes nothing then; otherwise it is the locked body with the lock released on every exit |
| Cache.LoadKeepsValid | api/src/db/cache_manager.py:64-65 | load and get keep data and timestamp both present or both absent |
| Cache.DownloadIffStale | api/src/db/cache_manager.py:48 | a load downloads exactly when the lock is free, the head lookup succeeds, and the cache is empty or holds another timestamp |
| Cache.ReloadStoresBoth | api/src/db/cache_manager.py:44-65 | after a reload the cache holds the downloaded frame with exactly the looked-up timestamp, and is non-empty |
| Cache.FailureKeepsCache | api/src/db/cache_manager.py:44-65 | a failing head lookup or download leaves both fields as they were |
| Cache.FreshCacheKept | api/src/db/cache_manager.py:48 | a non-empty cache whose timestamp matches the store's is kept with no download |
| Cache.SecondLoadNoDownload | api/src/db/cache_manager.py:48-65 | a second load from an unchanged store finds the cache up to date and does not download |
| Cache.Get | api/src/db/cache_manager.py:69-76 | a get deadlocks exactly when the lock is held or the cache is empty, and leaves the lock held then; a free lock and a filled cache give the cached frame with no change |
| Cache.GetFixed | api/src/db/cache_manager.py:69-76 | the corrected get blocks only on a held lock and otherwise leaves the lock free; what it serves is present and is what the cache then holds; a failure changes nothing |
| Cache.GetFilledIgnoresStore | api/src/db/cache_manager.py:69-76 | a get on a filled cache returns the cached frame whatever the store holds |
| Cache.GetDeadlocksOnEmpty | api/src/db/cache_manager.py:69-76 | a get on an empty cache ends waiting on its own lock, which stays held, so every later load and get waits too |
| Cache.FirstGetDeadlocks | api/src/db/cache_manager.py:12-76 | the first get on a new manager deadlocks, whatever the store holds |
| Cache.FixedGetServes | api/src/db/cache_manager.py:69-76 | the corrected get fills an empty cache from a working store and returns that frame; it fails without change when the store raises; it behaves like the original on a filled cache; it never leaves the lock held |
| Cache.CacheManager.constructor | api/src/db/cache_manager.py:12-15 | fields start empty, the lock is free, and no store call has been made |
| Cache.CacheManager.LoadHoldingLockBody | api/src/db/cache_manager.py:37-65 | the in-place update equals `LoadHoldingLock`, with one head lookup, and one download counted exactly when one was made |
| Cache.CacheManager.LoadDataIntoCache | api/src/db/cache_manager.py:32-67 | the in-place update and outcome equal `Load`, and store calls are counted as made |
| Cache.CacheManager.GetCachedData | api/src/db/cache_manager.py:69-76 | the in-place update and answer equal `Get` (including the deadlock), and no store call is ever made |
| Cache.CacheManager.GetCachedDataFixed | api/src/db/cache_manager.py:69-76 | the in-place update and answer equal `GetFixed`, and a filled cache causes no store call |
| App.Keep | app/src/app.py:61-67 | one filter keeps at most the frame's rows, and every kept row passes it |
| App.Select | app/src/app.py:60-67 | the filters together keep at most the frame's rows, and every kept row passes all of them |
| App.SelectMembers | app/src/app.py:60-69 | a row is selected exactly when it is in the frame and passes every active filter |
| App.KeepAfterSelect | app/src/app.py:60-67 | applying one more filter to a selection gives the selection under the conjunction |
| App.KeepAppend | app/src/app.py:61-67 | one filter distributes over concatenation, so row order is kept |
| App.SelectAppend | app/src/app.py:60-69 | the selection distributes over concatenation, so row order is kept |
| App.SelectNothing | app/src/app.py:60-69 | with no active filter the frame is returned whole |
| App.ApplyFilters | app/src/app.py:50-69 | filtering step by step gives the selection of the frame under exactly the non-empty inputs, in frame order |
| App.FilterMembership | app/src/app.py:60-69 | a row is kept exactly when it is in the frame and, for each non-empty input, its name matches or its cell is present and selected |
| App.NoFiltersUnchanged | app/src/app.py:60-69 | with every sidebar input empty the frame is unchanged |
| App.Run | app/src/app.py:126 | a greedy group consumes the longest run of its class and stops at the first character outside it |
| App.RunStops | app/src/app.py:144 | a run of class characters followed by a character outside the class is exactly what the greedy group takes |
| App.GroupFound | app/src/app.py:126 | a greedy `+` group captures exactly a non-empty run of its class when the text after the run starts with a character outside the class |
| App.OneMatchAt | app/src/app.py:126 | the one-group pattern matches at a position with group w exactly when the open tag, w and the close tag stand there, with w non-empty over the group's class (for polygons, `<gml:posList>`, `[-\d. ]`, `</gml:posList>`) |
| App.TwoMatchAt | app/src/app.py:144 | the point pattern matches at a position with groups x, y exactly when `<gml:pos>`, x, one space, y and `</gml:pos>` stand there, with x and y non-empty over `[-\d.]` |
| App.MatchAtIff | app/src/app.py:126 | matching at a position agrees with the occurrence of the pattern there, for both patterns |
| App.Search | app/src/app.py:126 | a match found by `re.search` captures one coordinate list, or two numbers |
| App.SearchFindsFirst | app/src/app.py:144 | an occurrence of the pattern with none before it is exactly what `re.search` returns |
| App.SearchFrom | app/src/app.py:126 | a found match captures one coordinate list, or two numbers |
| App.SearchFromMisses | app/src/app.py:126-127 | the search misses exactly when the pattern occurs nowhere from the start position on |
| App.SearchFromLeftmost | app/src/app.py:126 | found groups belong to an occurrence with no occurrence before it |
| App.SearchMisses | app/src/app.py:126-127 | `re.search` returns no match exactly when the pattern occurs nowhere in the text |
| App.SearchLeftmost | app/src/app.py:126 | `re.search` returns the groups of the leftmost occurrence |
| App.TokenLength | app/src/app.py:128 | the leading token is non-empty and space-free, and is followed by a space or the end |
| App.Tokens | app/src/app.py:128 | every token is non-empty and holds no space |
| App.TokensOfJoin | app/src/app.py:128 | splitting undoes joining non-empty space-free words with single spaces |
| App.TokensAfterBlank | app/src/app.py:128 | leading spaces do not change the tokens |
| App.TokensOfWord | app/src/app.py:128 | a space-free word followed by the end or a space is the first token |
| App.TokensOfPadded | app/src/app.py:128 | leading, trailing and repeated spaces separate nothing: any layout of non-empty space-free words with at least one space between neighbours splits into exactly those words |
| App.MinusForm | app/src/app.py:128 | `float()` accepts a token with a leading minus exactly when it accepts the token without it |
| App.DigitsForm | app/src/app.py:128 | `float()` accepts a non-empty run of digits |
| App.PointForm | app/src/app.py:128 | `float()` accepts digits with one point before, between or after them, as long as there is a digit |
| App.NoDigitRefused | app/src/app.py:128 | `float()` refuses a token without a digit, such as `.`, `-` or `-.` |
| App.InnerMinusRefused | app/src/app.py:128 | `float()` refuses a token with a minus after its first character |
| App.TwoPointsRefused | app/src/app.py:128 | `float()` refuses a token with two decimal points |
| App.Pairs | app/src/app.py:129-130 | pairing succeeds exactly for an even count, giving half as many pairs with pair k = (token 2k, token 2k+1); an odd count raises `IndexError` |
| App.PairsOfFlatten | app/src/app.py:129-130 | pairing the flattened pairs gives them back |
| App.FlattenOfPairs | app/src/app.py:129-130 | flattening a successful pairing gives the tokens back |
| App.Ring | app/src/app.py:128-130 | reading a ring raises `ValueError` exactly when some token is refused by `float()`, and `IndexError` exactly when all are accepted and their count is odd; a ring read flattens back to the tokens |
| App.OddCoordinates | app/src/app.py:128-130 | an odd number of well-formed coordinates raises `IndexError`, not an empty ring |
| App.RowShape | app/src/app.py:124-147 | a row with neither cell draws nothing; a polygon comes only from a present `gml` cell, and `IndexError` only from one; a marker comes only from a row without `gml` and with `point`, and both its numbers are accepted by `float()` |
| App.PolygonPrecedence | app/src/app.py:125-143 | a present `gml` cell decides the row: the `point` cell is never read and no marker comes from such a row |
| App.PolygonMissDrawsNothing | app/src/app.py:125-127 | a `gml` text where the pattern occurs nowhere draws nothing and raises nothing |
| App.PointMissDrawsNothing | app/src/app.py:143-145 | without `gml`, a `point` text where the pattern occurs nowhere draws nothing and raises nothing |
| App.PolygonOfFirstList | app/src/app.py:125-131 | a `gml` text whose first coordinate list, after any text, is a given list gives the ring of that list |
| App.OddPolygonAborts | app/src/app.py:126-130 | when that first list holds an odd number of well-formed coordinates, the row raises `IndexError` |
| App.MarkerOfFirstPos | app/src/app.py:143-147 | a `point` text whose first `<gml:pos>`, after any text, holds two numbers separated by one space gives their marker when both are well formed, and `ValueError` otherwise |
| App.Then | app/src/app.py:106-153 | nothing happens after an error, and each row adds at most one shape |
| App.ShapesOf | app/src/app.py:106-153 | the loop draws at most one shape per row |
| App.MapRows | app/src/app.py:96 | the rows drawn are a prefix of the frame, of at most 1000 rows, and the whole frame when it is shorter |
| App.ErrorPersists | app/src/app.py:106-153 | an error raised at some row is the outcome of the whole loop |
| App.ShapesAppend | app/src/app.py:106-153 | the loop over two stretches of rows gives the first stretch's shapes, then the second's, unless an error comes first |
| App.DisplayMapView | app/src/app.py:93-153 | walking the first `MAX_DISPLAY_RECORDS` rows in order gives the shapes, or the first error, of those rows |
| App.DisplayCap | app/src/app.py:96 | at most 1000 shapes are drawn, and rows past the first 1000 never influence the map |

## Left out

- I/O is not modelled: object-store sessions and credentials, the head lookup, and the
  DuckDB/httpfs download and connection setup in `api/src/db/cache_manager.py`. The store
  is a parameter of each call, giving a timestamp and a frame, or a failure for either.
  `_get_boto3_session` raising is folded into the head lookup failing, since both happen
  before any field is assigned.
- Concurrency is not modelled. The lock is a flag. A call that finds it held never
  returns, which is what happens when the holder is the calling thread itself. Waiting for
  another thread to release it is not modelled.
- `create_duckdb_connection` is not modelled: it is DuckDB wiring around `get_cached_data`.
- Cache.CacheManager.GetCachedData: a thread that waits forever is modelled as returning
  `Deadlocked` with the lock still held.
- The execution of the SQL (ordering, `LIMIT`/`OFFSET`, matching rows) is not modelled.
  Crud models only the query text and its parameters.
- Crud.DetailQuery: the detail query's parameter is the identifier string. Its comparison
  with the integer `id` column is DuckDB's business and is not modelled.
- Assets.TitleCase: the `titlecase` library is modelled as capitalising the first
  character of every space-separated word. Its rules for small words (it may keep "of" in
  lower case), for punctuation and for acronyms are left out.
- Assets.CamelCaseLabel: stated under the model's per-word capitalisation. The `titlecase`
  library keeps small words such as "of" or "en" in lower case unless they come first or
  last, so the program gives `Zaal of Tent` where the lemma gives `Zaal Of Tent`.
- Assets.JeugdverblijfLabel: stated under the same per-word capitalisation. The program
  gives `Jeugdverblijf of Jeugdhostel`, with a lower-case "of".
- Assets.SplitCamelCase: Python's `lower()` and the `titlecase` upper-casing are modelled
  on ASCII letters only. Other characters are left as they are, because Unicode case
  mapping is out of scope.
- Parquet serialisation, uploads, the raw-data fetch and the other pipeline assets are not
  modelled (`pipeline/cji_pipeline/assets.py` outside lines 83-123).
- App.ApplyFilters: pandas' `str.contains(..., case=False)` is a parameter `matches`.
  By default it interprets the search text as a regular expression, and that is not
  modelled.
- App.NumberChar: `\d` is modelled as the ASCII digits 0-9. Python 3's `\d` on a `str`
  pattern also matches other Unicode decimal digits, such as Arabic-Indic ones. A
  coordinate written with such digits draws a shape in the program and nothing in the
  model.
- App.IsFloatLiteral: `float()` is modelled on the ASCII digits 0-9 only. Python's
  `float()` also accepts other Unicode decimal digits, so a token made of them is refused
  by the model but accepted by the program.
- Text.IsDigit: ASCII digits only, for the same reason as the two lines above.
- App.Ring: the `float()` values are not computed. A token is accepted when it has the
  syntax `float()` accepts for text over `[-\d. ]`: an optional minus, digits, at most one
  point, at least one digit. Coordinates stay the tokens they were read as.
- App.DisplayMapView: the EPSG:31370 to EPSG:4326 reprojection is not modelled, since it
  is floating-point work in a foreign library. The drawn shapes carry the unprojected
  tokens. folium's own checks on a polygon's ring, such as an empty one, are not
  modelled either.
- Rendering is not modelled: the popup text, markers and clusters, the map widget, the
  table and chart views, and the closing caption.
- `fetch_data` and `main` are not modelled: the dashboard's HTTP fetch and its column
  renaming.
- The HTTP routes and response schemas are not modelled. They are FastAPI and pydantic
  plumbing.
- Application wiring and packaging are not modelled: the OAuth2 client, job definitions,
  entry points, the database wrapper and the setup script.

## Findings

| source | as written | input that shows it | evidently intended | confidence | as-written member | corrected member |
|---|---|---|---|---|---|---|
| api/src/db/cache_manager.py:69-76 | `get_cached_data` holds `self._lock`, a non-reentrant `threading.Lock` (line 15). On an empty cache it calls `load_data_into_cache`, whose `with self._lock` (line 36) waits for that same lock. | The first `get_cached_data` on a new manager, with any store contents. | Load the data into the empty cache and return it, for example with a reentrant lock or by running the load body under the lock already held. | not executed; follows from the documented semantics of `threading.Lock` | Cache.CacheManager.GetCachedData, Cache.GetDeadlocksOnEmpty | Cache.CacheManager.GetCachedDataFixed, Cache.FixedGetServes |
