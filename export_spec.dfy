/**
 * The depth-first export of the administrative-area hierarchy, stated as
 * pure functions over an explicit trace of side effects.
 *
 * The remote API is a finite map `server` from the parent ids it answers
 * for to its answer: a transport error, or a status code with the already
 * decoded page of areas (a body that fails to decode is an empty or partial
 * page). The crawl's observable effects are the process-wide visited map
 * `record`, the requests it issues and the areas it hands to the database.
 * Whether an insert succeeds is deliberately not an input here: the crawl
 * ignores it.
 */
module ExportSpec {

  /** One area row. Only `uid` is ever inspected; the other fields pass through. */
  datatype Area = Area(uid: string, parentId: string, level: int, areaName: string)

  /** What one request for the children of a parent id comes back with. */
  datatype Response =
    | TransportErr(reason: string)
    | Resp(status: int, page: seq<Area>)

  /** The errors the crawl returns to its caller. */
  datatype Error =
    | Transport(reason: string)   // returned as-is from the HTTP client
    | BadStatus(status: int)      // rendered as "Status code: N" by the source

  /** Go's `error` result: nil or an error value. */
  datatype Outcome = Ok | Fail(error: Error)

  /**
   * The side effects of a crawl so far: the visited map, every parent id
   * requested (in order), and every area handed to the insert (in order,
   * whether or not the insert succeeded).
   */
  datatype Trace = Trace(record: map<string, nat>, requests: seq<string>, inserts: seq<Area>)

  /** The result of one call together with the trace after it. */
  datatype Run = Run(outcome: Outcome, trace: Trace)

  /**
   * The API as seen by the crawl: the response it gives to a request for the
   * children of each parent id it is asked about.
   */
  type Server = map<string, Response>

  /** The id the top-level call starts from; it is never entered in `record`. */
  const Root: string := "0"

  /** The state at process start: `record` freshly made, nothing requested or inserted. */
  const Fresh: Trace := Trace(map[], [], [])

  /** Status codes the crawl accepts: 200 and 555, handled alike. */
  predicate Accepts(status: int) {
    status == 200 || status == 555
  }

  /** Every area in `page` has its uid in `universe`. */
  ghost predicate UidsIn(page: seq<Area>, universe: set<string>) {
    forall a :: a in page ==> a.uid in universe
  }

  /**
   * The server answers for every uid it serves, so the uids it can ever
   * serve form the finite set `server.Keys`; this is what makes the crawl
   * terminate.
   */
  ghost predicate Closed(server: Server) {
    forall p {:trigger server[p]} :: p in server && server[p].Resp? ==> UidsIn(server[p].page, server.Keys)
  }

  /** A later trace keeps everything an earlier one had: keys, requests and inserts only grow. */
  ghost predicate Extends(t: Trace, t': Trace) {
    t.record.Keys <= t'.record.Keys && t.requests <= t'.requests && t.inserts <= t'.inserts
  }

  /**
   * The checks made on a response before its body is looked at: a transport
   * error is returned unchanged, a status other than 200 and 555 is an error.
   */
  function Check(resp: Response): (o: Outcome)
    ensures o.Ok? <==> resp.Resp? && Accepts(resp.status)
    ensures resp.TransportErr? ==> o == Fail(Transport(resp.reason))
    ensures resp.Resp? && !Accepts(resp.status) ==> o == Fail(BadStatus(resp.status))
  {
    match resp
    case TransportErr(reason) => Fail(Transport(reason))
    case Resp(status, _) => if status != 200 && status != 555 then Fail(BadStatus(status)) else Ok
  }

  /** The areas of a response that the crawl goes on to process: none for a rejected one. */
  function Accepted(resp: Response): seq<Area> {
    if Check(resp).Ok? then resp.page else []
  }

  /** `record[u]`, reading an absent key as 0. */
  function Count(record: map<string, nat>, u: string): nat {
    if u in record then record[u] else 0
  }

  /** How many areas in `s` carry the uid `u`. */
  function Occurrences(s: seq<Area>, u: string): (n: nat)
    ensures n <= |s|
    ensures n == 0 <==> forall a :: a in s ==> a.uid != u
  {
    if s == [] then 0 else Occurrences(s[..|s| - 1], u) + (if s[|s| - 1].uid == u then 1 else 0)
  }

  /**
   * `exportParentId(parentId)`: request the children of `parentId`, reject
   * a transport error or a bad status, stop on an empty page, and otherwise
   * process the page in order.
   */
  ghost function Export(server: Server, parentId: string, t: Trace): (r: Run)
    requires Closed(server) && parentId in server
    ensures t.record.Keys <= r.trace.record.Keys
    decreases server.Keys - t.record.Keys, 1, 0
  {
    var t' := Trace(t.record, t.requests + [parentId], t.inserts);
    var resp := server[parentId];
    if Check(resp).Fail? then Run(Check(resp), t')
    else if |resp.page| == 0 then Run(Ok, t')
    else ExportPage(server, resp.page, 0, t')
  }

  /**
   * The loop over `page` from index `i`: insert the area, then either bump
   * its uid's count or enter the uid with count 1 and recurse into it; an
   * error from the recursive call ends the loop.
   */
  ghost function ExportPage(server: Server, page: seq<Area>, i: nat, t: Trace): (r: Run)
    requires Closed(server) && UidsIn(page, server.Keys) && i <= |page|
    ensures t.record.Keys <= r.trace.record.Keys
    decreases server.Keys - t.record.Keys, 0, |page| - i
  {
    if i == |page| then Run(Ok, t)
    else
      var a := page[i];
      if a.uid in t.record then
        var t' := Trace(t.record[a.uid := t.record[a.uid] + 1], t.requests, t.inserts + [a]);
        assert t'.record.Keys == t.record.Keys;
        ExportPage(server, page, i + 1, t')
      else
        var t' := Trace(t.record[a.uid := 1], t.requests, t.inserts + [a]);
        assert t'.record.Keys == t.record.Keys + {a.uid};
        var child := Export(server, a.uid, t');
        if child.outcome.Fail? then child
        else ExportPage(server, page, i + 1, child.trace)
  }

  /** One step of the page loop on an area whose uid was already met: count it and move on. */
  lemma {:induction false} ExportPageRevisit(server: Server, page: seq<Area>, i: nat, t: Trace)
    requires Closed(server) && UidsIn(page, server.Keys) && i < |page|
    requires page[i].uid in t.record
    ensures ExportPage(server, page, i, t)
         == ExportPage(server, page, i + 1,
                       Trace(t.record[page[i].uid := t.record[page[i].uid] + 1], t.requests, t.inserts + [page[i]]))
  {
  }

  /** One step of the page loop on an area whose uid is new: enter it with count 1 and recurse. */
  lemma {:induction false} ExportPageEnter(server: Server, page: seq<Area>, i: nat, t: Trace, child: Run)
    requires Closed(server) && UidsIn(page, server.Keys) && i < |page|
    requires page[i].uid !in t.record
    requires child == Export(server, page[i].uid, Trace(t.record[page[i].uid := 1], t.requests, t.inserts + [page[i]]))
    ensures child.outcome.Fail? ==> ExportPage(server, page, i, t) == child
    ensures child.outcome.Ok? ==> t.record.Keys <= child.trace.record.Keys
    ensures child.outcome.Ok? ==> ExportPage(server, page, i, t) == ExportPage(server, page, i + 1, child.trace)
  {
  }
}
