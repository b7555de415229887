# Roanoke hiking trails: scraper and location resolver, modelled in Dafny

The roanoke-hiking site lists trails around Roanoke. Its data comes from two
pieces of Python, and this project models both.

- **The scrape command** (`Command.handle` in the management command). It
  reads the listing page of roanokeoutside.com and turns each
  `li.detail-list__item` into a trail record with four keys: `name`,
  `description`, `location` and `map_embed`.
  - The name is the first anchor's stripped strings joined by spaces.
  - The description is the content block's children, with comments and the
    actions sub-list skipped and empty strings dropped.
  - The location comes from the first Google Maps link. It is either a
    `q=<lat>+<lon>` pair of decimal strings or a `/maps/place/<name>` name.
  - The map embed is a Trimble Outdoors embed URL built from the trip id in
    the first Trimble link.
  - An item without a location is skipped.
- **The resolver** (`process_hikes`). It walks the stored records in place.
  Every location that is still a place name is replaced by the
  `(latitude, longitude)` that the geocoding service returns for it.

Modules:

- `Wrappers` (wrappers.dfy): `Option` and `Result`.
- `PyStrings` (python_strings.dfy): the Python string operations the scraper
  relies on: `isspace`, `strip`, `split` on one character, `join`, `\d`,
  substring occurrence, and the first line of a string.
- `HikeRecord` (hike_record.dfy): the trail record.
- `HikeLinks` (hike_links.dfy): the three link regexes, hand-coded as scans.
  - Each scan tries match positions in the order Python's backtracking
    engine tries them. Greedy `.*` tries the last position first; lazy `.??`
    tries the empty choice first.
  - None of the tokens in these patterns matches a line break, so each scan
    works on the link's first line.
  - Each scan is specified against a declarative description of where the
    pattern can match. For the coordinate pattern, `PairSite` says where a
    pair can be read and `FirstPairSite` says which of those sites the
    backtracking takes. `CoordinateMatch` is proved to succeed exactly when
    a site exists and to return the pair read at the site taken. For the
    trip-id pattern, `TagTaken` and `PathTaken` say which `/…tripId=` or
    `ViewTrip/` site the backtracking takes, and `TripIdMatch` returns the
    digits read there.
- `ScrapeHikes` (scrape_hikes.dfy): the content block, the description, the
  location, the map embed, the extraction of one item, and `Handle`, the
  command's loop.
  - `Handle` is a `while` loop proved against `Scrape`.
  - `Scrape` is built from `Outcomes`, the per-item results, and `Collect`,
    the loop as a function.
  - Lemmas about `Collect` give the document order, the record count and the
    first error.
- `Hikes` (hikes.dfy): the resolver.
  - The geocoding service is a `Geocoder` class. It answers each query text
    with a fixed response and keeps a log of the queries it receives.
  - `process_hikes` is `ProcessHikes`. It loops over an `array<Hike>`, so
    records are updated in place, and it is proved against `Process` and
    `Queries`.
  - `Process` and `Queries` state the resulting list, the error raised, and
    the queries sent.

Behaviour of the code worth noting:

- A comma-separated `q=<lat>,<lon>` link gives no coordinate pair. The regex
  needs a literal `+` between the two numbers (`HikeLinks.PairNeedsPlus`).
  Such a link is then tried as a `/maps/place/` link.
- A Trimble link with a `/…tripId=<n>` followed by a `ViewTrip/<m>` gives
  `m`. The leading greedy `.*` reaches the later site first
  (`HikeLinks.TripIdPrefersLastSite`).
- The place name gets no percent-decoding. `+` becomes a space and nothing
  else changes.
- A geocoding failure is not absorbed. It propagates out of `process_hikes`
  and ends the walk, leaving the records before it resolved and the rest as
  they were.

## Model

| member | source | states |
|---|---|---|
| PyStrings.Strip | hikes/management/commands/scrape_hikes.py:59 | the result has no whitespace at either end (Python `isspace`) and is empty exactly when the input is all whitespace; it is a contiguous part of the input with only whitespace before and after it |
| PyStrings.StripPadded | hikes/management/commands/scrape_hikes.py:59 | stripping a stripped string padded with whitespace on both sides gives the string back |
| PyStrings.StripUnique | hikes/management/commands/scrape_hikes.py:59 | any stripped string that whitespace alone surrounds in the input is the result of `strip()`, so the two properties above define it |
| PyStrings.StripIdempotent | hikes/management/commands/scrape_hikes.py:59 | stripping a stripped string changes nothing |
| PyStrings.StrippedStringsClean | hikes/management/commands/scrape_hikes.py:63-64 | `stripped_strings` yields at most one string per text, each non-empty and stripped |
| PyStrings.JoinSplitReplaces | hikes/management/commands/scrape_hikes.py:76 | joining `s.split(c)` with `d` is the same as replacing every `c` in `s` by `d` |
| PyStrings.StrippedStringsAppend | hikes/management/commands/scrape_hikes.py:32 | `stripped_strings` over consecutive text strings is the stripped strings of each run, in order |
| PyStrings.JoinAppend | hikes/management/commands/scrape_hikes.py:32 | joining two lists is joining each, with one separator between them when both are non-empty |
| PyStrings.JoinStripped | hikes/management/commands/scrape_hikes.py:32 | non-empty stripped parts joined with single spaces give a stripped string, non-empty when there are parts |
| PyStrings.FirstLine | hikes/management/commands/scrape_hikes.py:71-84 | the part of a link a regex `.` can reach: a prefix with no line break, ended by a line break when shorter than the link |
| HikeLinks.FirstWith | hikes/management/commands/scrape_hikes.py:68-70 | `find(href=...)` gives the first href containing the host, with none before it, and None exactly when no href contains the host |
| PyStrings.DigitsEndShape | hikes/management/commands/scrape_hikes.py:71 | a greedy `\d+` run from a position covers only digits and stops at the end of the line or at a non-digit |
| PyStrings.DigitsEndAt | hikes/management/commands/scrape_hikes.py:71 | a digit run from a position that stops at the end of the line or at a non-digit is exactly the run greedy `\d+` takes |
| HikeLinks.DecimalEndShape | hikes/management/commands/scrape_hikes.py:71 | a `-?\d+\.\d+` found at a position is a whole decimal, and no digit follows it, so the greedy match is maximal |
| HikeLinks.DecimalEndAt | hikes/management/commands/scrape_hikes.py:71 | a decimal that starts at a position and is followed by no digit is exactly what `-?\d+\.\d+` reads there |
| HikeLinks.DecimalEndComplete | hikes/management/commands/scrape_hikes.py:71 | wherever some decimal starts, `-?\d+\.\d+` matches there; so no match means no decimal starts there |
| HikeLinks.PairAtDecimals | hikes/management/commands/scrape_hikes.py:71 | both groups of a pair found at a position are decimal strings |
| HikeLinks.PairAtText | hikes/management/commands/scrape_hikes.py:71 | a pair found at a position occurs there in the link as `<lat>+<lon>` |
| HikeLinks.PairAtReads | hikes/management/commands/scrape_hikes.py:71 | a pair found at a position is two decimals joined by `+` there, with no digit after the second |
| HikeLinks.PairAtComplete | hikes/management/commands/scrape_hikes.py:71 | any two decimals joined by `+` at a position, with no digit after the second, are the pair `(-?\d+\.\d+)\+(-?\d+\.\d+)` returns there |
| HikeLinks.PairAtIff | hikes/management/commands/scrape_hikes.py:71 | the pair groups match at a position exactly when a pair can be read there |
| HikeLinks.AfterQueryShape | hikes/management/commands/scrape_hikes.py:71 | a pair read after `q=` starts right after it or one character later, as `.??` allows, and is two decimals joined by `+`; when a pair is right after `q=`, that one is taken; nothing is found only when neither place gives a pair |
| HikeLinks.AfterQueryReads | hikes/management/commands/scrape_hikes.py:71 | after `q=`, the pair is read right after it when one can be, one character later only when none can be right after it, and nothing is found exactly when neither place has a pair |
| HikeLinks.QueryScanFinds | hikes/management/commands/scrape_hikes.py:71 | the `.*q=` scan, when it succeeds, returns what follows the last `q=` in its range that a pair follows |
| HikeLinks.QueryScanMisses | hikes/management/commands/scrape_hikes.py:71 | the `.*q=` scan fails only when no `q=` in its range is followed by a pair |
| HikeLinks.MapsScanFinds | hikes/management/commands/scrape_hikes.py:71 | the `.*/maps` scan, when it succeeds, returns what follows a `q=` after a `/maps`: the last `/maps` with such a `q=`, and the last such `q=` after it |
| HikeLinks.MapsScanMisses | hikes/management/commands/scrape_hikes.py:71 | the `.*/maps` scan fails only when no `/maps` has a later `q=` followed by a pair |
| HikeLinks.CoordinateShape | hikes/management/commands/scrape_hikes.py:71 | a pair found by the whole scan is the pair read at the site the backtracking takes: the last `/maps` with a match, the last `q=` after it with a match, and the place right after that `q=` unless no pair is there |
| HikeLinks.CoordinateNone | hikes/management/commands/scrape_hikes.py:71-72 | when the scan fails, the pattern can match nowhere on the line |
| HikeLinks.CoordinateMatch | hikes/management/commands/scrape_hikes.py:71-73 | the match succeeds exactly when some `/maps`, later `q=` and pair at most one character after it exist; it returns two decimal strings, read at the site the backtracking takes |
| HikeLinks.FirstPairSiteUnique | hikes/management/commands/scrape_hikes.py:71 | the backtracking order singles out one site |
| HikeLinks.CoordinateMatchIs | hikes/management/commands/scrape_hikes.py:71-73 | any pair read at the site the backtracking takes is what the match returns |
| HikeLinks.CoordinateLinkMatch | hikes/management/commands/scrape_hikes.py:71-73 | a `https://www.google.com/maps?q=<lat>+<lon>` link with decimal `lat` and `lon` gives back exactly `(lat, lon)` |
| HikeLinks.PairNeedsPlus | hikes/management/commands/scrape_hikes.py:71 | a line without `+`, such as a comma-separated pair, never gives a coordinate pair |
| HikeLinks.PlaceScan | hikes/management/commands/scrape_hikes.py:74 | the group is the text after the last `/maps/place/`; None exactly when there is none |
| HikeLinks.PlaceName | hikes/management/commands/scrape_hikes.py:76 | the name has the captured text's length and no `+`: each `+` becomes a space, every other character is kept, and nothing is percent-decoded |
| HikeLinks.DigitRunShape | hikes/management/commands/scrape_hikes.py:84 | `(\d+)` takes the whole non-empty digit run at a position, and fails exactly when no digit is there |
| HikeLinks.TagScanFinds | hikes/management/commands/scrape_hikes.py:84 | the `.*tripId=` scan, when it succeeds, returns the digits after the last `tripId=` in its range that digits follow (NoLaterTag): greedy `.*` backs off from the end |
| HikeLinks.TagScanMisses | hikes/management/commands/scrape_hikes.py:84 | the `.*tripId=` scan fails only when no `tripId=` in its range is followed by digits |
| HikeLinks.TagAlternativeFinds | hikes/management/commands/scrape_hikes.py:84 | the `/.*tripId=` alternative succeeds exactly when a `tripId=` followed by digits comes after the `/`, and then returns the digits after the last such `tripId=` (LastTagAfter) |
| HikeLinks.TripScanFinds | hikes/management/commands/scrape_hikes.py:84 | a found id is a non-empty digit string read at the site the backtracking takes: the last start (a `/` with a later `tripId=`, or a `ViewTrip/`) that digits follow, the `/…tripId=` alternative first at that start, and within it the last `tripId=` (TagTaken, PathTaken) |
| HikeLinks.TripScanFindsHere | hikes/management/commands/scrape_hikes.py:84 | a scan that finds a site at its own start position takes that site, trying `/…tripId=` before `ViewTrip/` |
| HikeLinks.TripScanPast | hikes/management/commands/scrape_hikes.py:84 | a start position with no site of either kind leaves the site the scan takes unchanged |
| HikeLinks.TripScanMisses | hikes/management/commands/scrape_hikes.py:84 | the scan finds nothing only when neither kind of site is followed by digits |
| HikeLinks.TripIdMatch | hikes/management/commands/scrape_hikes.py:84 | the trip id is a non-empty digit string; it exists exactly when a `/…tripId=` or `ViewTrip/` site is followed by digits, and it is the digits at the site the backtracking of the leading `.*` takes (TagTaken or PathTaken over the whole line) |
| HikeLinks.TakenSiteUnique | hikes/management/commands/scrape_hikes.py:84 | the backtracking takes at most one site: one `/` and `tripId=`, or one `ViewTrip/`, never one of each |
| HikeLinks.TripIdMatchAtTag | hikes/management/commands/scrape_hikes.py:84 | when the site taken is a `/…tripId=`, the id is exactly the digits after that `tripId=` |
| HikeLinks.TripIdMatchAtPath | hikes/management/commands/scrape_hikes.py:84 | when the site taken is a `ViewTrip/`, the id is exactly the digits after it |
| HikeLinks.TripIdOfTrailingPath | hikes/management/commands/scrape_hikes.py:84 | a link ending in `ViewTrip/` and digits gives those digits whatever precedes it, an earlier `/…tripId=` with digits included |
| HikeLinks.TripIdPrefersLastSite | hikes/management/commands/scrape_hikes.py:84 | `http://www.trimbleoutdoors.com/tripId=111/ViewTrip/222` gives `222`, not `111` |
| HikeLinks.TripIdViaPath | hikes/management/commands/scrape_hikes.py:84 | on a link whose only site is a `ViewTrip/` followed by digits to the end, the id is all of those digits |
| HikeLinks.ScanFindsOnlyPath | hikes/management/commands/scrape_hikes.py:84 | on a line with no `tripId=` and a single `ViewTrip/` in reach, the scan returns the digits after that `ViewTrip/` |
| HikeLinks.ScanStepOnlyTag | hikes/management/commands/scrape_hikes.py:84 | on a line with a single `tripId=` and no `ViewTrip/`, a `/` before it takes its digits and any other position moves one to the left |
| HikeLinks.ScanFindsOnlyTag | hikes/management/commands/scrape_hikes.py:84 | on a line with a single `tripId=` after a `/` in reach and no `ViewTrip/`, the scan returns the digits after that `tripId=` |
| HikeLinks.TripIdViaTag | hikes/management/commands/scrape_hikes.py:84 | on a link whose only site is a `/…tripId=` followed by digits to the end, the id is all of those digits |
| ScrapeHikes.Name | hikes/management/commands/scrape_hikes.py:32 | the name is stripped, and empty exactly when the anchor has no non-blank string |
| ScrapeHikes.NameOfOne | hikes/management/commands/scrape_hikes.py:32 | the name of a single string is that string stripped |
| ScrapeHikes.NameAppend | hikes/management/commands/scrape_hikes.py:32 | the name of two runs of strings is their names joined by one space, with no space when either run is blank; with NameOfOne this fixes the name of every anchor |
| ScrapeHikes.NameOfSplitAnchor | hikes/management/commands/scrape_hikes.py:32 | an anchor holding `" " + first + "\n"`, a blank string and `second + " "` is named `first + " " + second` |
| ScrapeHikes.ChildParts | hikes/management/commands/scrape_hikes.py:56-64 | everything the generator yields for one child is stripped |
| ScrapeHikes.Description | hikes/management/commands/scrape_hikes.py:34 | every description element is non-empty and stripped |
| ScrapeHikes.DescriptionAppend | hikes/management/commands/scrape_hikes.py:56-64 | children contribute in document order: the description of a concatenation is the concatenation of the descriptions |
| ScrapeHikes.DescriptionSkipsIgnored | hikes/management/commands/scrape_hikes.py:57-62 | removing a comment or an actions-list child from anywhere leaves the description unchanged |
| ScrapeHikes.DescriptionOfIgnoredOnly | hikes/management/commands/scrape_hikes.py:57-62 | a block made only of comments and actions lists has the empty description, not an error |
| ScrapeHikes.DescriptionOfText | hikes/management/commands/scrape_hikes.py:57-59 | a text child gives its stripped text, or nothing when it is blank |
| ScrapeHikes.DescriptionOfElement | hikes/management/commands/scrape_hikes.py:63-64 | any other tag gives all of its stripped strings, in order |
| ScrapeHikes.DropEmptyAppend | hikes/management/commands/scrape_hikes.py:34 | `filter(None, ...)` distributes over concatenation |
| ScrapeHikes.LocationFromHref | hikes/management/commands/scrape_hikes.py:71-77 | a pair exactly when the coordinate pattern can match, holding the two decimal strings read at the site the backtracking takes; otherwise a place exactly when `/maps/place/` occurs, named after the last occurrence with `+` turned into spaces; otherwise None |
| ScrapeHikes.CoordinateLinkLocation | hikes/management/commands/scrape_hikes.py:71-73 | the location of `https://www.google.com/maps?q=<lat>+<lon>`, for decimal `lat` and `lon`, is the pair `(lat, lon)` as text |
| ScrapeHikes.LocationFromContent | hikes/management/commands/scrape_hikes.py:66-77 | None when no href contains `google.com/maps`; otherwise the location of the first such href alone, so a later one is never looked at |
| ScrapeHikes.MapEmbedFromContent | hikes/management/commands/scrape_hikes.py:79-85 | None exactly when no href contains `trimbleoutdoors.com`; otherwise, for the first such href, an abort (`NoTripId`) exactly when its trip-id pattern fails, and else the embed URL prefix followed by the non-empty digit id it captures |
| ScrapeHikes.EmbedOfSiteRoot | hikes/management/commands/scrape_hikes.py:84 | a Trimble link with no trip id, such as `http://www.trimbleoutdoors.com/`, aborts the scrape |
| ScrapeHikes.EmbedOfLink | hikes/management/commands/scrape_hikes.py:81-85 | a single one-line Trimble link gives the embed URL of the id its pattern captures |
| ScrapeHikes.SiteHasHost | hikes/management/commands/scrape_hikes.py:12 | every link under the Trimble site matches the Trimble regex |
| ScrapeHikes.ViewTripEmbed | hikes/management/commands/scrape_hikes.py:84-85 | `…/ViewTrip/<id>` gives `…/Maps/EmbeddedMap.aspx?tripId=<id>` with the whole digit run |
| ScrapeHikes.EmbedFixedPoint | hikes/management/commands/scrape_hikes.py:84-85 | the embed URL, scraped as a link, gives back itself (the `tripId=` form keeps the id) |
| ScrapeHikes.ExtractItemShape | hikes/management/commands/scrape_hikes.py:31-47 | a record holds exactly the item's Name, Description, LocationFromContent value and MapEmbedFromContent value; it has a location that survives `if not location`, a stripped name, a clean description and decimal-string coordinates; the item is skipped exactly when anchor and content exist and it has no location; a missing anchor raises first, then a missing content block, and the body raises exactly when one of them is missing or the item has a location and its map embed aborts |
| ScrapeHikes.RecordIffLocation | hikes/management/commands/scrape_hikes.py:36-38 | an item that does not abort gives a record exactly when it has a location |
| ScrapeHikes.CollectPrefixErr | hikes/management/commands/scrape_hikes.py:31-47 | once the loop has raised, the later items do not matter |
| ScrapeHikes.CollectFirstError | hikes/management/commands/scrape_hikes.py:31-47 | the loop fails exactly when some item's body raises, and with the error of the first one that does |
| ScrapeHikes.CollectStops | hikes/management/commands/scrape_hikes.py:31-47 | an error at the next item ends the loop with that error |
| ScrapeHikes.CollectSkips | hikes/management/commands/scrape_hikes.py:37-38 | a `continue` at the next item leaves the collected records as they are |
| ScrapeHikes.CollectAppends | hikes/management/commands/scrape_hikes.py:42-47 | a record at the next item is appended to the collected records |
| ScrapeHikes.CollectKept | hikes/management/commands/scrape_hikes.py:31-47 | when no item raises, the loop collects exactly the records, in order |
| ScrapeHikes.ScrapeOrder | hikes/management/commands/scrape_hikes.py:31-47 | a successful scrape holds the records of the items with a location, in document order, and each item gives a record exactly when it has a location |
| ScrapeHikes.ScrapeCount | hikes/management/commands/scrape_hikes.py:31-47 | a successful scrape has as many records as there are items with a location |
| ScrapeHikes.KeptCount | hikes/management/commands/scrape_hikes.py:36-47 | when no item raises, the loop keeps as many records as there are items with a location |
| ScrapeHikes.Handle | hikes/management/commands/scrape_hikes.py:25-47 | the command's loop computes `Scrape(page)`, with every abort, skip and append in the code's order |
| Hikes.Geocoder.constructor | hikes/hikes.py:9 | a client with the given answers and no query sent yet |
| Hikes.Geocoder.Forward | hikes/hikes.py:10 | one query: the service's answer for that text, with the query appended to the log |
| Hikes.LatLon | hikes/hikes.py:11-13 | success exactly when the status is not 4xx/5xx and the first feature has exactly two coordinates; the result swaps `[lon, lat]` into `(lat, lon)`; an error status raises `HttpError` |
| Hikes.GetLatLon | hikes/hikes.py:8-13 | `_get_lat_lon` sends exactly one query, the location, and returns `LatLon` of the answer |
| Hikes.Resolve | hikes/hikes.py:25-26 | one record: only the location may change; a pair is kept as it is; a place becomes the geocoded `(lat, lon)` pair |
| Hikes.QueryOf | hikes/hikes.py:25 | a record costs at most one query |
| Hikes.PlaceNames | hikes/hikes.py:25 | the place names of the records, at most one per record |
| Hikes.ProcessAdvance | hikes/hikes.py:24-26 | past a record that resolves, the walk and its queries go on with the rest |
| Hikes.QueriesStep | hikes/hikes.py:24-26 | past a record that resolves, the queries are that record's query followed by those of the rest |
| Hikes.WalkStep | hikes/hikes.py:24-26 | resolving record `i` in place, after its query, carries the loop invariant of `process_hikes` one record further |
| Hikes.WalkStop | hikes/hikes.py:11-12 | at a record that fails, the walk ends with the array as it stands, that record's error, and that record's query last |
| Hikes.ResolveInPlace | hikes/hikes.py:25-26 | the loop body for record `i`: it sends that record's query; on success only record `i` changes, to its resolution; on failure nothing changes and the error is returned |
| Hikes.ProcessStops | hikes/hikes.py:24-26 | at a record that fails, the walk stops with that record and the rest untouched, and that record's query is the last |
| Hikes.ProcessFrame | hikes/hikes.py:24-26 | the list keeps its length and order, only locations change, and a location that is already a pair is never touched |
| Hikes.ProcessSucceeds | hikes/hikes.py:24-26 | the walk succeeds exactly when every record resolves; each record is then its resolution with a coordinate pair, and the queries are exactly the place names in order |
| Hikes.ProcessFails | hikes/hikes.py:24-26 | a failed walk has a first record that does not resolve |
| Hikes.ProcessFailsAt | hikes/hikes.py:11-12 | failing at record `k` raises that record's error, leaves the records before `k` resolved, and leaves `k` and everything after it as they were |
| Hikes.QueriesFailAt | hikes/hikes.py:24-26 | failing at record `k` sends the place names before `k`, then `k`'s own, and nothing after |
| Hikes.ProcessResolved | hikes/hikes.py:25 | a list whose locations are all pairs is left alone and costs no query |
| Hikes.ProcessIdempotent | hikes/hikes.py:25-26 | running the walk again on its own successful output changes nothing and sends zero queries |
| Hikes.ProcessHikes | hikes/hikes.py:23-27 | `process_hikes` updates the array in place to `Process` of the old contents, returns the same array on success, raises `Process`'s error otherwise, and sends exactly `Queries` |

## Left out

- The HTTP fetch of the listing page, the BeautifulSoup parse and the `find`/`find_all` lookups. The page arrives as its items. Each item arrives as its first anchor's strings and its content block. A content block arrives as its direct children plus the hrefs inside it, in document order. Missing elements appear as `None`.
- Text nodes other than comments (CDATA, doctype and the like) are all treated as plain text. The parser decides those kinds, and it is not part of this model.
- Django command plumbing: arguments, options and the `--no_write` switch. The `json.dump`/`json.dumps` output is left out too. `ScrapeHikes.Handle` returns the records instead of JSON text.
- `get_all_hikes`, which reads and parses the stored JSON file, is file I/O. `hikes/views.py` is not part of this model.
- The Mapbox client, its access token and the network are replaced by `Hikes.Geocoder`. It is deterministic: the same query text always gets the same response.
- Hikes.LatLon: only the status, the feature list and the coordinate count are modelled. A body without `features` or `geometry` keys, which would raise a `KeyError`, cannot be expressed. Coordinates are kept as opaque `real` values, with no floating-point behaviour.
- PyStrings.IsDigit: `\d` is taken to be the ASCII digits. Python's `re` also accepts other Unicode decimal digits in a `str` pattern.
- Hikes.ProcessHikes: records are values in an array. Dictionary identity and aliasing are not modelled, such as the same dictionary appearing twice in the list.
- The general Python regex engine is not modelled. Only the three patterns the scraper uses are hand-coded.
