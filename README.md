# pixelvault core, modelled in Dafny

pixelvault is a wallpaper gallery: a React client that loads a list of wallpaper records,
lets the visitor narrow it by category and by a search term, sorts it, and shows one record
on a detail page; an Express server and a serverless function both serve the list, falling
back to a built-in two-record list whenever loading fails.

This project models the decision and transformation rules of that system, lifted out of their
React, Express and serverless shells, and proves what they promise:

- `Gallery` (`gallery.dfy`): the home page's derived state — the category menu, the category
  and search filters and the empty-result message.
- `GallerySort` (`gallery_sort.dfy`): the sort stage. The filtered list is copied into a fresh
  array that is sorted in place: a stable descending insertion sort for "Trending",
  "Most Downloads" and "Newest", a random-comparator insertion sort for "Random", nothing
  for any other option. The in-place sort is proved equal to a functional specification
  (`SortDesc`), which is proved sorted, a permutation and stable.
- `ApiClient` (`api_client.dfy`): `fetchWallpapers`, which turns every failure into `[]`, and
  `fetchWallpaperById`, a `find` with two distinct errors. The HTTP exchange is an input.
- `NetlifyFunction` (`netlify_function.dfy`): the serverless `handler` as a decision table over
  method, path and the outcome of importing the data module.
- `ExpressServer` (`express_server.dfy`): the `/api/wallpapers` route — the fallback policy
  and the text transform that turns the data module's array literal into JSON text
  (a `substring`, then three global regular-expression replaces, each a left-to-right scanner).
- `WallpaperDetail` (`wallpaper_detail.dfy`): the detail page — route id, the load as a class
  whose fields change step by step, the render precedence and the download file name.
- Shared: `Wallpapers` (the record and the fallback list), `JsNumbers` (JavaScript `parseInt`,
  `String(n)`, `===` with NaN), `Text` (ASCII whitespace, case and substring search),
  `Seqs` (`Array.prototype.filter`, subsequences, first-seen de-duplication), `Outcomes`
  (`Option`, `Result`).

Collaborators the code cannot see are inputs: the HTTP response (`FetchOutcome`), the dynamic
import (`ImportOutcome`), `fs.existsSync`/`fs.readFileSync` (`fileExists`, `ReadOutcome`),
`JSON.parse` (a function from text to an optional list) and `Math.random` (a stream of
comparator outcomes).

Two behaviours of the code are worth stating plainly:

- A non-numeric route id ends in the detail page's error view: `parseInt` gives NaN, no id is
  strictly equal to NaN, and `fetchWallpaperById` throws "Wallpaper with ID NaN not found"
  whenever the list is non-empty; `ApiClient.FetchByIdNaNFails` states this.
- A record whose date does not parse makes the "Newest" comparator return NaN, so its place in
  that order is up to the engine. The model keeps `dateAdded` as a valid timestamp (see Left
  out).

## Model

| member | source | states |
|---|---|---|
| Gallery.Categories | src/App.tsx:58-61 | The menu starts with "All"; the rest holds every category of the list, each once, in order of first appearance |
| Seqs.Distinct | src/App.tsx:59 | Spreading a `Set`: exactly the input's elements, without duplicates |
| Seqs.DistinctFirstSeenOrder | src/App.tsx:59 | The distinct elements come in the order of their first occurrence in the input |
| Gallery.ByCategory | src/App.tsx:66-71 | "All" leaves the list unchanged; any other category keeps exactly the records of that category, each as often as in the input, in input order |
| Gallery.BySearch | src/App.tsx:73-83 | A term that is blank after trimming leaves the list unchanged; otherwise exactly the records whose lower-cased title or some lower-cased tag contains the trimmed lower-cased term are kept, in input order |
| Gallery.FilteredWallpapers | src/App.tsx:64-86 | The two stages never add a record or repeat one more often than the input does, and every record left is in the selected category unless it is "All" |
| Gallery.FilteredWallpapersSelects | src/App.tsx:64-86 | The two stages together equal one filter by "passes both", keep each such record as often as in the input, and keep input order |
| Seqs.Filter | src/App.tsx:70 | `Array.prototype.filter`: the result is no longer than the input and everything in it satisfies the predicate |
| Seqs.FilterCount | src/App.tsx:70 | The filter keeps every occurrence of each element that satisfies the predicate and drops all others |
| Seqs.FilterIsSubsequence | src/App.tsx:70 | The filter keeps input order |
| Seqs.FilterFilter | src/App.tsx:69-82 | Filtering by one predicate and then another is filtering once by both |
| Text.Trim | src/App.tsx:74 | `trim()` gives the empty string exactly when the text is all whitespace, and otherwise starts and ends with a non-space |
| Text.TrimIsSlice | src/App.tsx:74 | `trim()` removes exactly the whitespace at both ends: the result is a slice of the text with only whitespace before and after it |
| Text.ToLower | src/App.tsx:75 | Lower-casing maps each character to its lower-case form and keeps the length |
| Text.Includes | src/App.tsx:78 | `includes` holds exactly when the needle occurs at some position of the text |
| Gallery.EmptyResultsMessage | src/App.tsx:274-276 | With a search term: the quoted term, then " in <category>" only when the category is not "All", then "."; without one: "No wallpapers found in <category>." |
| GallerySort.SortedWallpapers | src/App.tsx:108-127 | Every option returns a permutation of the filtered list; the three named orders are non-increasing in views, downloads or date and keep equal keys in filtered order; an unknown option returns the list unchanged |
| GallerySort.SortDescInPlace | src/App.tsx:113-121 | Sorting the copied array in place leaves it equal to the stable descending sort of its old contents |
| GallerySort.MoveIntoPlace | src/App.tsx:113-121 | One insertion step: the element moves back past the run of smaller-keyed elements immediately before it (all of them when the prefix is sorted) and stops after one with a key at least as large; that run is shifted, nothing past it changes |
| GallerySort.ShiftBack | src/App.tsx:113-121 | The shift loop moves exactly the smaller-keyed run one place back and leaves the other cells as they were |
| GallerySort.SortDescSorted | src/App.tsx:112-121 | The descending sort yields non-increasing keys |
| GallerySort.SortDescPermutation | src/App.tsx:109-121 | The descending sort is a permutation of its input |
| GallerySort.SortDescStable | src/App.tsx:112-121 | Records with equal keys keep their input order (a stable sort, as `Array.prototype.sort` is) |
| GallerySort.InsertDescSorted | src/App.tsx:112-121 | Inserting into a non-increasing sequence keeps it non-increasing |
| GallerySort.InsertDescPermutation | src/App.tsx:112-121 | Inserting adds exactly the inserted record |
| GallerySort.InsertDescStable | src/App.tsx:112-121 | Inserting puts the record last among those with its key and leaves other key groups as they were |
| GallerySort.InsertDescAt | src/App.tsx:112-121 | The insertion position is the first one whose key is smaller than the inserted record's |
| GallerySort.InsertStep | src/App.tsx:112-121 | One outer step of the array sort matches one step of the specification |
| GallerySort.ShuffleInPlace | src/App.tsx:122-123 | The random comparator still yields a permutation of the list |
| ApiClient.FetchWallpapers | src/services/api.js:14-44 | A response that is OK and readable gives its list; a non-OK status, a rejected request or an unreadable body gives `[]`, never a failure |
| ApiClient.FindIndex | src/services/api.js:62 | `find`: the first index whose id is strictly equal to the key, or none when no id is |
| ApiClient.FetchWallpaperById | src/services/api.js:51-73 | Fails with "no wallpapers" exactly when the loaded list is empty; a returned record is in the list and its id equals `parseInt(id)`; otherwise it fails with "not found" for that id and no record matches |
| ApiClient.FetchByIdReturnsFirstMatch | src/services/api.js:62-68 | The record returned is the first in the list that carries the requested id |
| ApiClient.FetchByIdNaNFails | src/services/api.js:62-66 | A NaN id matches nothing and the lookup fails; with a non-empty list it fails with "not found" for NaN |
| ApiClient.FetchByIdAfterFailure | src/services/api.js:56-60 | After a failed or non-OK request the lookup reports "no wallpapers", not "not found" |
| JsNumbers.ParseInt | src/services/api.js:62 | Blank text parses to NaN; a negative result comes only from text whose first non-space character is `-` |
| JsNumbers.NumberText | src/services/api.js:62 | The conversion `parseInt` applies to a numeric id, `String(x)`: "NaN" exactly for NaN; an integer's text is non-empty and starts with `-` exactly when it is negative |
| JsNumbers.ParseIntRoundTrip | src/services/api.js:62 | `parseInt` reads back the decimal text of every integer |
| JsNumbers.ParseIntOfNumber | src/services/api.js:62 | `parseInt(id)` on an integer id or NaN gives the id back |
| JsNumbers.ParseIntNoDigits | src/services/api.js:62 | Text without decimal digits parses to NaN |
| NetlifyFunction.Handler | netlify/functions/api.js:32-76 | Every response carries the four headers; OPTIONS gets 204 with an empty body on any path; any other non-GET, or a GET elsewhere, gets 404 with the "Not Found" body; a GET to the wallpapers path gets 200 with the imported data or, if the import fails, the fallback list |
| NetlifyFunction.HandlerStatusCodes | netlify/functions/api.js:42-75 | Only 200, 204 and 404 are ever answered |
| NetlifyFunction.PostAdvertisedButNotFound | netlify/functions/api.js:37-57 | POST is listed in Allow-Methods and is answered 404 on every path |
| NetlifyFunction.ImportFailureServesFallback | netlify/functions/api.js:67-75 | A failed import is answered 200 with the fallback list |
| Wallpapers.FallbackWellFormed | netlify/functions/api.js:5-30 | The fallback list has two records, ids 1 and 2, distinct ids and non-negative counters (the list at server.js:18-43 is the same) |
| ExpressServer.GetWallpapers | server.js:46-95 | Always status 200; a missing file, a failed read and a failed parse all answer the fallback list; a successful parse answers the parsed list |
| ExpressServer.IndexOf | server.js:68 | `indexOf`: -1 exactly when absent, else the first position of the character |
| ExpressServer.LastIndexOf | server.js:69 | `lastIndexOf`: -1 exactly when absent, else the last position of the character |
| ExpressServer.Substring | server.js:67-70 | `substring` always yields a contiguous slice of the text, whatever its bounds |
| ExpressServer.ExtractArray | server.js:67-70 | With `[` before the last `]`, the text from the first `[` through the last `]`; the other cases follow `substring`'s clamping and swapping of bounds |
| ExpressServer.ReplaceQuotes | server.js:74 | Every `'` becomes `"`, every other character and the length stay |
| ExpressServer.StripTrailingCommas | server.js:75 | Only commas and whitespace are removed: all other characters are kept, in order |
| ExpressServer.TrailingCommaMatch | server.js:75 | The `,\s*]` matcher reports either no match or the length of a comma, whitespace and `]` at the scan position |
| ExpressServer.StripCopyStep | server.js:75 | Where no `,\s*]` match starts, the character is copied and the scan moves on by one |
| ExpressServer.StripWithoutCommas | server.js:75 | A text without commas is left unchanged |
| ExpressServer.StripTrailingComma | server.js:75 | A comma, whitespace and `]` at the scan position become the `]` alone, and the scan resumes after them |
| ExpressServer.MatchKey | server.js:76 | A key match has a non-empty key after the delimiter and ends within the text |
| ExpressServer.MatchKeyBounds | server.js:76 | A key match is a `{` or `,`, whitespace, a non-empty run of word characters, whitespace and a colon |
| ExpressServer.MatchKeyFinds | server.js:76 | Conversely, every text that starts with a `{` or `,`, whitespace, a non-empty word run, whitespace and a colon is matched, with the key and the match end at those positions |
| ExpressServer.QuoteKeysKey | server.js:76 | Such a key is rewritten to its delimiter, the key in double quotes and a colon, without the surrounding whitespace, and the scan resumes after the colon |
| ExpressServer.QuoteKeysCopy | server.js:76 | Where no key match starts, the character is copied and the scan moves on by one |
| ExpressServer.QuoteKeys | server.js:76 | The key rewrite turns only the empty text into the empty text and keeps the first character (the delimiter or the copied character) |
| ExpressServer.QuoteKeysKeepsText | server.js:76 | The key rewrite only inserts double quotes and drops whitespace: every other character is kept, in order |
| ExpressServer.QuoteKeysWithoutDelimiters | server.js:76 | A text with neither `{` nor `,` is left unchanged |
| ExpressServer.JsonText | server.js:73-76 | The text handed to `JSON.parse`: the extracted array with quotes replaced, trailing commas stripped and keys quoted; no single quote is left in it |
| WallpaperDetail.RouteId | src/components/WallpaperDetail.tsx:16 | A missing or empty route id reads as 0; any other goes through `parseInt` |
| WallpaperDetail.RouteIdOfDecimal | src/components/WallpaperDetail.tsx:16 | The decimal text of an integer reads as that integer |
| WallpaperDetail.DetailPage.constructor | src/components/WallpaperDetail.tsx:7-9 | The page starts with no record, loading, and no error |
| WallpaperDetail.DetailPage.LoadWallpaper | src/components/WallpaperDetail.tsx:12-24 | The load sets the page's fields to the state the sequential load step gives |
| WallpaperDetail.LoadStep | src/components/WallpaperDetail.tsx:12-24 | A whole load ends not loading; a found record is stored with no error; a failure keeps the record shown before and sets the fixed message |
| WallpaperDetail.BeginLoad | src/components/WallpaperDetail.tsx:14-15 | A load starts by setting loading and clearing the error, keeping the record |
| WallpaperDetail.FinishLoad | src/components/WallpaperDetail.tsx:16-23 | Success stores the record; failure sets the fixed message and keeps the record shown before; loading ends either way |
| WallpaperDetail.Render | src/components/WallpaperDetail.tsx:30-69 | Loading shows the spinner; otherwise a non-empty error shows the error view; otherwise no record shows "not found"; only then the record |
| WallpaperDetail.PendingShowsLoading | src/components/WallpaperDetail.tsx:14-36 | While a load is pending the spinner is shown |
| WallpaperDetail.SettledLoadView | src/components/WallpaperDetail.tsx:12-69 | After a load the page shows the looked-up record or the error, never the spinner and never "not found" |
| WallpaperDetail.HyphenateSpaces | src/components/WallpaperDetail.tsx:152 | The `\s+` rewrite leaves no whitespace and does not lengthen the text |
| WallpaperDetail.HyphenateSpacesKeepsText | src/components/WallpaperDetail.tsx:152 | Apart from hyphens, the result holds exactly the text's non-whitespace, non-hyphen characters, in order |
| WallpaperDetail.HyphenateRun | src/components/WallpaperDetail.tsx:152 | A word followed by a maximal whitespace run: the word is kept and the whole run becomes one hyphen |
| WallpaperDetail.HyphenateWithoutSpaces | src/components/WallpaperDetail.tsx:152 | A text without whitespace is left unchanged |
| WallpaperDetail.DownloadFileName | src/components/WallpaperDetail.tsx:152 | The file name ends in "-wallpaper.jpg" |
| WallpaperDetail.DownloadFileNamePlain | src/components/WallpaperDetail.tsx:152 | The file name has no whitespace and no upper-case letter |
| WallpaperDetail.DownloadFileNameKeepsTitle | src/components/WallpaperDetail.tsx:152 | Before the suffix the name holds the lower-cased title's characters other than whitespace and hyphens, in order, separated only by hyphens |

## Left out

- JSX markup, styling, routing and navigation, the unwired header search form and the
  commented-out `sortWallpapers` duplicate: presentation or dead code.
- The home page's own load (`loadWallpapers` in `src/App.tsx`): it stores whatever
  `fetchWallpapers` gives, which `ApiClient.FetchWallpapers` models; React state scheduling,
  `useMemo` caching and `useEffect` timing are not modelled.
- `fetch`, the ten-second `AbortController` timeout, `API_BASE_URL` selection, Express setup,
  static serving and `app.listen`: I/O; their outcomes are inputs.
- `JSON.parse`, `JSON.stringify`, `response.json()`, `fs.existsSync`, `fs.readFileSync` and the
  dynamic `import` of the data module: library or I/O calls, taken as inputs or kept as values
  (`Serialized(list)` stands for the serialised text). `src/mockData.js` is not part of this
  model.
- Response bodies and parse results that are not arrays of records (an object, `null`, a
  record with missing fields): the model's inputs are lists of well-typed records.
- `ApiClient.FetchWallpaperById`: the error messages are the values `NoWallpapersAvailable` and
  `WallpaperNotFound(id)` rather than their text; logging and rethrowing are not modelled.
- `JsNumbers.ParseInt`: models `parseInt` for text, and `String(n)` only for integers and NaN;
  results are unbounded integers, so the rounding of a digit string above 2^53 to the nearest
  double is not modelled (the route id "9007199254740993" reads as 9007199254740993 here,
  but as 9007199254740992 in JavaScript, which may then match a record's id); fractional
  numbers, `Infinity`, exponent notation (integers of 1e21 and more) and `-0` are not
  modelled either.
- `GallerySort.SortedWallpapers`: `dateAdded` is the timestamp that `new Date(...).getTime()`
  gives for a valid date; date-string parsing and the NaN comparisons of invalid dates are not
  modelled. Keys are unbounded integers, so the comparator's floating-point subtraction is
  exact here; in JavaScript it is exact only while the keys stay below 2^53.
- `GallerySort.ShuffleInPlace`: only a permutation is promised; `Math.random` is a parameter
  giving the outcome of each comparison, and the engine's own sorting algorithm is replaced by
  an insertion sort, since with an inconsistent comparator the engine's order is unspecified.
- `Text.IsSpace`, `Text.ToLower`, `ExpressServer.WordRun`: whitespace, case and `\w` are the
  ASCII classes; Unicode whitespace and case mapping are not modelled.
- `ExpressServer.StripTrailingCommas` and `ExpressServer.QuoteKeysKeepsText`: the contracts state
  what the rewrites keep (a filtered view) and when they change nothing; the rewritten text
  is pinned down position by position rather than as one closed form: at each scan position
  either a match starts (`ExpressServer.StripTrailingComma`, `ExpressServer.QuoteKeysKey`) or
  none does and one character is copied (`ExpressServer.StripCopyStep`,
  `ExpressServer.QuoteKeysCopy`), and the empty text maps to itself.
- `WallpaperDetail.DetailPage.LoadWallpaper`: a load is one sequential step; the race between
  overlapping loads when the route id changes quickly is not modelled.
- `console` logging and `toLocaleString` number formatting: side effects and output formatting.
