/**
 * The exporter as the program runs it: a recursive method over mutable
 * state. The process-wide visited map `record` is a field the method updates
 * in place; the requests issued and the areas handed to the database are
 * logs the method appends to.
 */
module AreaExporter {
  import opened ExportSpec

  class Exporter {
    /** The API: the decoded answer to a request for the children of each parent id. */
    const server: Server
    /** The database: whether inserting an area succeeds. */
    const insertOk: Area -> bool

    /** The visited map: uid to the number of times it was met. */
    var record: map<string, nat>
    /** Every parent id requested, in order. */
    var requests: seq<string>
    /** Every area handed to the insert, in order, whether or not the insert succeeded. */
    var inserts: seq<Area>

    /** The state as the specification functions see it. */
    ghost function State(): Trace
      reads this
    {
      Trace(record, requests, inserts)
    }

    /** Process start: `record` is made empty before the first call. */
    constructor (server: Server, insertOk: Area -> bool)
      ensures this.server == server && this.insertOk == insertOk
      ensures State() == Fresh
    {
      this.server := server;
      this.insertOk := insertOk;
      record := map[];
      requests := [];
      inserts := [];
    }

    /** `Area.Create`: hand one area to the database and report whether the insert succeeded. */
    method Create(a: Area) returns (ok: bool)
      modifies this`inserts
      ensures ok == insertOk(a)
      ensures inserts == old(inserts) + [a]
    {
      ok := insertOk(a);
      inserts := inserts + [a];
    }

    /**
     * `exportParentId`: the result and every side effect are those of the
     * specification function `Export`, which does not depend on `insertOk`,
     * so a failed insert changes neither the result nor the visited map nor
     * the requests made.
     */
    method ExportParentId(parentId: string) returns (err: Outcome)
      requires Closed(server) && parentId in server
      modifies this`record, this`requests, this`inserts
      ensures Run(err, State()) == Export(server, parentId, old(State()))
      decreases server.Keys - record.Keys
    {
      requests := requests + [parentId];
      var resp := server[parentId];
      if resp.TransportErr? {
        return Fail(Transport(resp.reason));
      }
      if resp.status != 200 && resp.status != 555 {
        return Fail(BadStatus(resp.status));
      }
      var page := resp.page;
      if |page| == 0 {
        return Ok;
      }
      // Save data
      ghost var start := Trace(record, requests, inserts);
      ghost var cur := start;
      var i := 0;
      while i < |page|
        invariant 0 <= i <= |page|
        invariant cur == Trace(record, requests, inserts)
        invariant start.record.Keys <= cur.record.Keys
        invariant ExportPage(server, page, i, cur) == ExportPage(server, page, 0, start)
      {
        var a := page[i];
        var _ := Create(a);
        if a.uid in record {
          ExportPageRevisit(server, page, i, cur);
          record := record[a.uid := record[a.uid] + 1];
          cur := Trace(cur.record[a.uid := cur.record[a.uid] + 1], cur.requests, cur.inserts + [a]);
        } else {
          record := record[a.uid := 1];
          var e := ExportParentId(a.uid);
          ghost var child := Run(e, Trace(record, requests, inserts));
          ExportPageEnter(server, page, i, cur, child);
          if e.Fail? {
            return e;
          }
          cur := child.trace;
        }
        i := i + 1;
      }
      return Ok;
    }
  }
}
