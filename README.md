# area-china exporter, modelled in Dafny

`area-china` copies China's administrative-area hierarchy from a public API
into a MySQL table. The program starts from parent id `"0"` and calls
`exportParentId` on it. That function requests the children of a parent id,
checks the status, and stores each child area. It keeps a process-wide
visited map `record` from uid to a count: a uid seen for the first time is
entered with count 1 and its children are exported recursively, depth-first;
a uid seen again only has its count raised. The first error from a
recursive call ends the whole crawl.

This project models that core and proves what it guarantees.

- `export_spec.dfy` (module `ExportSpec`) holds the data and the crawl as
  pure functions. `Export` models one call of `exportParentId` and
  `ExportPage` the loop over a page. They run over a `Trace` holding the
  visited map, the requests issued in order, and the areas handed to
  `Area.Create` in order.
  - The API is a `Server`: a finite map from each parent id it answers for
    to its answer. That answer is a transport error, or a status code with
    the decoded page of areas.
  - The server is `Closed`: it answers for every uid it serves. This is
    what makes a crawl finite. The functions terminate on the measure
    "uids not yet visited", then the position in the page.
- `exporter.dfy` (module `AreaExporter`) is the program as it runs. Class
  `Exporter` holds `record` and the two logs as fields. `ExportParentId` is
  a recursive method with the source's loop. Its postcondition says that
  its result and its new state are exactly those of `Export`.
  - The database is an oracle `insertOk` consulted by `Create`. `Export`
    does not take it as an input, so a failing insert changes neither the
    result nor the visited map nor the requests made.
- `export_properties.dfy` (module `ExportProperties`) proves the crawl's
  properties by mutual induction over `Export` and `ExportPage`:
  - no rollback;
  - counts equal inserts;
  - one request per visited uid;
  - fail-fast;
  - every accepted area is inserted;
  - 555 behaves as 200;
  - early returns;
  - a whole run from `"0"`, plus a worked example.

## Model

| member | source | states |
|---|---|---|
| ExportSpec.Check | main.go:94-99 | A response passes exactly when it arrived and its status is 200 or 555. A transport error is returned unchanged. Any other status is an error carrying that status code. |
| ExportSpec.Export | main.go:90-129 | One call of `exportParentId`. The uids in `record` afterwards include every uid that was in it before. |
| ExportSpec.ExportPage | main.go:113-128 | The loop over a page, from a given index. It never removes a uid from `record`. |
| ExportSpec.ExportPageRevisit | main.go:113-120 | One loop step on an already visited uid: insert the area, raise its count by one, and go on with the next area. No request is made. |
| ExportSpec.ExportPageEnter | main.go:113-126 | One loop step on a new uid: insert, set its count to 1, and recurse. A failing recursive call is the result of the whole loop. Otherwise the loop goes on from the state the recursive call left. |
| AreaExporter.Exporter.constructor | main.go:83 | The process starts with an empty `record`, nothing requested and nothing inserted. |
| AreaExporter.Exporter.Create | main.go:144-150 | `Area.Create` reports the database's verdict on the insert. The area is logged as handed to the insert either way. |
| AreaExporter.Exporter.ExportParentId | main.go:90-129 | The returned error and the new `record`, request log and insert log are exactly `Export` applied to the state before the call. The insert oracle has no influence on any of them. |
| ExportProperties.ExportExtends | main.go:90-129 | No rollback: visited uids stay visited, and earlier requests and inserts stay in place. The call's first request is for its own parent id. |
| ExportProperties.ExportPageExtends | main.go:113-128 | The page loop never removes a visited uid, a request or an insert. |
| ExportProperties.ExportCounts | main.go:113-122 | Over a call, each uid's count in `record` grows by exactly the number of areas with that uid handed to the insert. |
| ExportProperties.ExportPageCounts | main.go:113-127 | The same count identity for the page loop. |
| ExportProperties.ExportKeys | main.go:119-122 | A uid is in `record` after a call if and only if it was there before or an area with that uid was inserted during the call. |
| ExportProperties.ExportPageKeys | main.go:113-127 | The same if-and-only-if for the page loop. |
| ExportProperties.ExportRequests | main.go:90-129 | A call requests its own parent id once and each uid it newly visits exactly once, and nothing else. An already visited uid is never requested again. |
| ExportProperties.ExportPageRequests | main.go:118-126 | The page loop requests each newly visited uid exactly once and nothing else. |
| ExportProperties.ExportFailFast | main.go:94-99 | The call's result is the verdict on its last request's response: nil when that response was accepted, otherwise that error. Every earlier request of the call was accepted, so the first rejection ends the crawl. |
| ExportProperties.ExportPageFailFast | main.go:123-128 | The page loop returns nil if it made no request. Otherwise it returns the verdict on its last request, and all earlier requests were accepted. |
| ExportProperties.ExportInsertsPages | main.go:113-117 | Counted area by area, a call that succeeds hands to the insert exactly the areas of the pages it accepted, once per time each was served. |
| ExportProperties.ExportPageInsertsPages | main.go:113-128 | Counted area by area, a loop that succeeds hands to the insert exactly the rest of its page plus the pages of the requests it made. |
| ExportProperties.Normal | main.go:97 | Rewriting 555 to 200 keeps the kind of response and the page. The rewritten status is 200 exactly when the original was accepted. |
| ExportProperties.Status555As200 | main.go:97-99 | A crawl over a server gives the same result and the same effects as over that server with 555 replaced by 200. |
| ExportProperties.Status555As200Page | main.go:97-128 | The same equality for the page loop. |
| ExportProperties.ExportStopsEarly | main.go:94-110 | A call inserts nothing if and only if its response is rejected or its page is empty (a body that failed to decode and left no areas included). It then returns the verdict with only its own request recorded. |
| ExportProperties.FreshExport | main.go:83-84 | For the program's top-level call on `"0"` with an empty `record`: <ul><li>the first request is for `"0"`;</li><li>the requests are `"0"` once plus each visited uid exactly once;</li><li>every count equals the number of inserts of that uid;</li><li>the visited uids are exactly the inserted ones;</li><li>on success, the inserted areas are those of all accepted pages.</li></ul> |
| ExportProperties.ExampleRun | main.go:90-129 | A concrete crawl. A uid listed twice is counted twice and requested once. A 555 page is processed. A 500 ends the crawl with the earlier inserts and counts kept. |

## Left out

- The HTTP request is not modelled: the URL, the `Authorization` header and the client library. The API is the `Server` map. Of the client's error list only the first error is returned, and the model carries it as a reason string.
- The error text `"Status code: N"` is not modelled; `BadStatus` carries only the code.
- JSON decoding is not modelled: the page arrives already decoded. A body that fails to decode is only logged by the source, and the crawl goes on with whatever was decoded; the model takes that as the page, so an empty or partial page.
- Logging is left out: request lines, unmarshal and insert failures, and the final error.
- Startup is left out: `main`, `loadConfig`, reading `APPCODE`, opening the database and `Sync2`.
- `Area`: of the eighteen fields only `Uid` affects the crawl. The model keeps `Uid`, `ParentId`, `Level` and `AreaName`; the other fields pass through and are not modelled.
- AreaExporter.Exporter.Create: xorm's insert is an oracle `insertOk`. The two failure modes (no row affected, or a driver error) are one boolean. The model records which areas were handed to the insert, not what the table ends up holding.
- The server is deterministic: it answers a parent id the same way every time it is asked.
- ExportSpec.Export: the server must be finite and answer for every uid it serves. A crawl over an unbounded or inconsistent API is not modelled, including one that would never terminate.
- ExportSpec.ExportPage: counts in `record` are unbounded naturals. Go's `int` (32 or 64 bits, depending on the platform) could wrap only after 2^31 or 2^63 visits of one uid, which is not modelled.
- The order of requests and inserts relative to each other is not modelled; the model keeps two separate logs. So "nothing is inserted after the failing request" is not stated beyond what `ExportFailFast` implies.
- ExportProperties.ExportInsertsPages: states the inserts of a call that succeeds. For a call that fails part way, it states nothing about which accepted areas were inserted before the failure.
- ExportProperties.ExportPageInsertsPages: likewise states the inserts of a page loop that succeeds only. For a loop that fails part way, it states nothing about which areas were inserted before the failure.
