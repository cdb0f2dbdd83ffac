/**
 * What the depth-first export guarantees, proved about the specification
 * functions `Export` and `ExportPage` (and so, through the method's
 * postcondition, about `exportParentId` itself). Each property is proved by
 * one mutual induction over the pair, following the same termination
 * measure as the functions.
 */
module ExportProperties {
  import opened ExportSpec

  /* ---------------- No rollback: the trace only grows ---------------- */

  /**
   * A call never takes anything back: visited uids stay visited, and the
   * requests and inserts made before it stay where they were. Its first
   * new request is the one for `p`.
   */
  lemma {:induction false} ExportExtends(server: Server, p: string, t: Trace)
    requires Closed(server) && p in server
    ensures Extends(t, Export(server, p, t).trace)
    ensures |t.requests| < |Export(server, p, t).trace.requests|
    ensures Export(server, p, t).trace.requests[|t.requests|] == p
    decreases server.Keys - t.record.Keys, 1, 0, 0
  {
    var t' := Trace(t.record, t.requests + [p], t.inserts);
    var resp := server[p];
    if Check(resp).Ok? && |resp.page| != 0 {
      ExportPageExtends(server, resp.page, 0, t');
      PrefixTrans(t.requests, t'.requests, Export(server, p, t).trace.requests);
    }
  }

  lemma {:induction false} ExportPageExtends(server: Server, page: seq<Area>, i: nat, t: Trace)
    requires Closed(server) && UidsIn(page, server.Keys) && i <= |page|
    ensures Extends(t, ExportPage(server, page, i, t).trace)
    decreases server.Keys - t.record.Keys, 0, |page| - i, 1
  {
    if i < |page| {
      var a := page[i];
      var r := ExportPage(server, page, i, t).trace;
      if a.uid in t.record {
        var t' := Trace(t.record[a.uid := t.record[a.uid] + 1], t.requests, t.inserts + [a]);
        ExportPageRevisit(server, page, i, t);
        assert t'.record.Keys == t.record.Keys;
        ExportPageExtends(server, page, i + 1, t');
        PrefixTrans(t.inserts, t'.inserts, r.inserts);
      } else {
        var t' := Trace(t.record[a.uid := 1], t.requests, t.inserts + [a]);
        var child := Export(server, a.uid, t');
        ExportPageEnter(server, page, i, t, child);
        assert t'.record.Keys == t.record.Keys + {a.uid};
        ExportExtends(server, a.uid, t');
        PrefixTrans(t.inserts, t'.inserts, child.trace.inserts);
        if child.outcome.Ok? {
          ExportPageExtends(server, page, i + 1, child.trace);
          PrefixTrans(t.requests, child.trace.requests, r.requests);
          PrefixTrans(t.inserts, child.trace.inserts, r.inserts);
        }
      }
    }
  }

  /* ---------------- record counts the inserts ---------------- */

  /** Appending an area adds one occurrence of its own uid and none of any other. */
  lemma OccurrencesSnoc(s: seq<Area>, a: Area, u: string)
    ensures Occurrences(s + [a], u) == Occurrences(s, u) + (if a.uid == u then 1 else 0)
  {
    assert (s + [a])[..|s|] == s;
  }

  /**
   * Every area handed to the insert is counted in `record` right after:
   * over a call, the count of each uid grows by exactly the number of times
   * an area with that uid was inserted.
   */
  lemma {:induction false} ExportCounts(server: Server, p: string, t: Trace, u: string)
    requires Closed(server) && p in server
    ensures Count(Export(server, p, t).trace.record, u) + Occurrences(t.inserts, u)
         == Count(t.record, u) + Occurrences(Export(server, p, t).trace.inserts, u)
    decreases server.Keys - t.record.Keys, 1, 0, 0
  {
    var t' := Trace(t.record, t.requests + [p], t.inserts);
    var resp := server[p];
    if Check(resp).Ok? && |resp.page| != 0 {
      ExportPageCounts(server, resp.page, 0, t', u);
    }
  }

  lemma {:induction false} ExportPageCounts(server: Server, page: seq<Area>, i: nat, t: Trace, u: string)
    requires Closed(server) && UidsIn(page, server.Keys) && i <= |page|
    ensures Count(ExportPage(server, page, i, t).trace.record, u) + Occurrences(t.inserts, u)
         == Count(t.record, u) + Occurrences(ExportPage(server, page, i, t).trace.inserts, u)
    decreases server.Keys - t.record.Keys, 0, |page| - i, 1
  {
    if i < |page| {
      if page[i].uid in t.record {
        RevisitCounts(server, page, i, t, u);
      } else {
        EnterCounts(server, page, i, t, u);
      }
    }
  }

  lemma {:induction false} RevisitCounts(server: Server, page: seq<Area>, i: nat, t: Trace, u: string)
    requires Closed(server) && UidsIn(page, server.Keys) && i < |page|
    requires page[i].uid in t.record
    ensures Count(ExportPage(server, page, i, t).trace.record, u) + Occurrences(t.inserts, u)
         == Count(t.record, u) + Occurrences(ExportPage(server, page, i, t).trace.inserts, u)
    decreases server.Keys - t.record.Keys, 0, |page| - i, 0
  {
    var a := page[i];
    OccurrencesSnoc(t.inserts, a, u);
    var t' := Trace(t.record[a.uid := t.record[a.uid] + 1], t.requests, t.inserts + [a]);
    ExportPageRevisit(server, page, i, t);
    assert t'.record.Keys == t.record.Keys;
    ExportPageCounts(server, page, i + 1, t', u);
    if a.uid == u {
      assert Count(t'.record, u) == Count(t.record, u) + 1;
    } else {
      assert Count(t'.record, u) == Count(t.record, u);
    }
  }

  lemma {:induction false} EnterCounts(server: Server, page: seq<Area>, i: nat, t: Trace, u: string)
    requires Closed(server) && UidsIn(page, server.Keys) && i < |page|
    requires page[i].uid !in t.record
    ensures Count(ExportPage(server, page, i, t).trace.record, u) + Occurrences(t.inserts, u)
         == Count(t.record, u) + Occurrences(ExportPage(server, page, i, t).trace.inserts, u)
    decreases server.Keys - t.record.Keys, 0, |page| - i, 0
  {
    var a := page[i];
    OccurrencesSnoc(t.inserts, a, u);
    var t' := Trace(t.record[a.uid := 1], t.requests, t.inserts + [a]);
    var child := Export(server, a.uid, t');
    ExportPageEnter(server, page, i, t, child);
    assert t'.record.Keys == t.record.Keys + {a.uid};
    ExportCounts(server, a.uid, t', u);
    if child.outcome.Ok? {
      ExportPageCounts(server, page, i + 1, child.trace, u);
    }
  }

  /**
   * The uids a call adds to `record` are exactly the uids of the areas it
   * inserted that were not in `record` before.
   */
  lemma {:induction false} ExportKeys(server: Server, p: string, t: Trace, u: string)
    requires Closed(server) && p in server
    ensures u in Export(server, p, t).trace.record
        <==> u in t.record || Occurrences(t.inserts, u) < Occurrences(Export(server, p, t).trace.inserts, u)
    decreases server.Keys - t.record.Keys, 1, 0, 0
  {
    var t' := Trace(t.record, t.requests + [p], t.inserts);
    var resp := server[p];
    if Check(resp).Ok? && |resp.page| != 0 {
      ExportPageKeys(server, resp.page, 0, t', u);
    }
  }

  lemma {:induction false} ExportPageKeys(server: Server, page: seq<Area>, i: nat, t: Trace, u: string)
    requires Closed(server) && UidsIn(page, server.Keys) && i <= |page|
    ensures u in ExportPage(server, page, i, t).trace.record
        <==> u in t.record || Occurrences(t.inserts, u) < Occurrences(ExportPage(server, page, i, t).trace.inserts, u)
    decreases server.Keys - t.record.Keys, 0, |page| - i, 1
  {
    if i < |page| {
      if page[i].uid in t.record {
        RevisitKeys(server, page, i, t, u);
      } else {
        EnterKeys(server, page, i, t, u);
      }
    }
  }

  lemma {:induction false} RevisitKeys(server: Server, page: seq<Area>, i: nat, t: Trace, u: string)
    requires Closed(server) && UidsIn(page, server.Keys) && i < |page|
    requires page[i].uid in t.record
    ensures u in ExportPage(server, page, i, t).trace.record
        <==> u in t.record || Occurrences(t.inserts, u) < Occurrences(ExportPage(server, page, i, t).trace.inserts, u)
    decreases server.Keys - t.record.Keys, 0, |page| - i, 0
  {
    var a := page[i];
    OccurrencesSnoc(t.inserts, a, u);
    var t' := Trace(t.record[a.uid := t.record[a.uid] + 1], t.requests, t.inserts + [a]);
    ExportPageRevisit(server, page, i, t);
    assert t'.record.Keys == t.record.Keys;
    ExportPageKeys(server, page, i + 1, t', u);
    ExportPageExtends(server, page, i + 1, t');
    OccurrencesMono(t'.inserts, ExportPage(server, page, i, t).trace.inserts, u);
  }

  lemma {:induction false} EnterKeys(server: Server, page: seq<Area>, i: nat, t: Trace, u: string)
    requires Closed(server) && UidsIn(page, server.Keys) && i < |page|
    requires page[i].uid !in t.record
    ensures u in ExportPage(server, page, i, t).trace.record
        <==> u in t.record || Occurrences(t.inserts, u) < Occurrences(ExportPage(server, page, i, t).trace.inserts, u)
    decreases server.Keys - t.record.Keys, 0, |page| - i, 0
  {
    var a := page[i];
    OccurrencesSnoc(t.inserts, a, u);
    var t' := Trace(t.record[a.uid := 1], t.requests, t.inserts + [a]);
    var child := Export(server, a.uid, t');
    ExportPageEnter(server, page, i, t, child);
    assert t'.record.Keys == t.record.Keys + {a.uid};
    ExportKeys(server, a.uid, t', u);
    ExportExtends(server, a.uid, t');
    OccurrencesMono(t'.inserts, child.trace.inserts, u);
    if child.outcome.Ok? {
      ExportPageKeys(server, page, i + 1, child.trace, u);
      ExportPageExtends(server, page, i + 1, child.trace);
      OccurrencesMono(child.trace.inserts, ExportPage(server, page, i, t).trace.inserts, u);
    }
  }

  /** A longer log holds at least the occurrences of a shorter one it extends. */
  lemma {:induction false} OccurrencesMono(s: seq<Area>, s': seq<Area>, u: string)
    requires s <= s'
    ensures Occurrences(s, u) <= Occurrences(s', u)
    decreases |s'|
  {
    if |s| < |s'| {
      assert s <= s'[..|s'| - 1];
      OccurrencesMono(s, s'[..|s'| - 1], u);
    } else {
      assert s == s';
    }
  }

  /* ---------------- One request per newly visited uid ---------------- */

  /**
   * A call requests `p` once and every uid it adds to `record` exactly once,
   * and nothing else: a uid that is already visited is never requested
   * again.
   */
  lemma {:induction false} ExportRequests(server: Server, p: string, t: Trace)
    requires Closed(server) && p in server
    ensures multiset(Export(server, p, t).trace.requests)
         == multiset(t.requests) + multiset{p} + multiset(Export(server, p, t).trace.record.Keys - t.record.Keys)
    decreases server.Keys - t.record.Keys, 1, 0, 0
  {
    var t' := Trace(t.record, t.requests + [p], t.inserts);
    var resp := server[p];
    if Check(resp).Ok? && |resp.page| != 0 {
      ExportPageRequests(server, resp.page, 0, t');
    } else {
      assert Export(server, p, t).trace.record.Keys - t.record.Keys == {};
    }
  }

  lemma {:induction false} ExportPageRequests(server: Server, page: seq<Area>, i: nat, t: Trace)
    requires Closed(server) && UidsIn(page, server.Keys) && i <= |page|
    ensures multiset(ExportPage(server, page, i, t).trace.requests)
         == multiset(t.requests) + multiset(ExportPage(server, page, i, t).trace.record.Keys - t.record.Keys)
    decreases server.Keys - t.record.Keys, 0, |page| - i, 1
  {
    var r := ExportPage(server, page, i, t).trace;
    if i == |page| {
      assert r.record.Keys - t.record.Keys == {};
    } else {
      var a := page[i];
      if a.uid in t.record {
        var t' := Trace(t.record[a.uid := t.record[a.uid] + 1], t.requests, t.inserts + [a]);
        ExportPageRevisit(server, page, i, t);
        assert t'.record.Keys == t.record.Keys;
        ExportPageRequests(server, page, i + 1, t');
      } else {
        var t' := Trace(t.record[a.uid := 1], t.requests, t.inserts + [a]);
        var child := Export(server, a.uid, t');
        ExportPageEnter(server, page, i, t, child);
        assert t'.record.Keys == t.record.Keys + {a.uid};
        ExportRequests(server, a.uid, t');
        var c := child.trace;
        EnterRequests(multiset(t.requests), t.record.Keys, a.uid, multiset(c.requests), c.record.Keys);
        if child.outcome.Ok? {
          ExportPageRequests(server, page, i + 1, c);
          ChainRequests(multiset(t.requests), t.record.Keys, multiset(c.requests), c.record.Keys,
                        multiset(r.requests), r.record.Keys);
        }
      }
    }
  }

  /* ---------------- Fail fast ---------------- */

  /**
   * A call stops at the first rejected response: its result is the verdict
   * on the response to its last request (nil when that one was accepted),
   * and every request it made before that one was accepted.
   */
  lemma {:induction false} ExportFailFast(server: Server, p: string, t: Trace)
    requires Closed(server) && p in server
    ensures var q := Export(server, p, t).trace.requests;
      |t.requests| < |q| && q[|q| - 1] in server
      && Export(server, p, t).outcome == Check(server[q[|q| - 1]])
    ensures var q := Export(server, p, t).trace.requests;
      forall k :: |t.requests| <= k < |q| - 1 ==> q[k] in server && Check(server[q[k]]).Ok?
    decreases server.Keys - t.record.Keys, 1, 0, 0
  {
    var t' := Trace(t.record, t.requests + [p], t.inserts);
    var resp := server[p];
    if Check(resp).Ok? && |resp.page| != 0 {
      ExportPageFailFast(server, resp.page, 0, t');
      ExportPageExtends(server, resp.page, 0, t');
      var q := ExportPage(server, resp.page, 0, t').trace.requests;
      assert q[|t.requests|] == t'.requests[|t.requests|] == p;
    }
  }

  /** The page loop's half of `ExportFailFast`, for the run `r` of the loop from `t`. */
  ghost predicate PageFailFast(server: Server, t: Trace, r: Run) {
    var q := r.trace.requests;
    |t.requests| <= |q|
    && (|t.requests| == |q| ==> r.outcome.Ok?)
    && (|t.requests| < |q| ==> q[|q| - 1] in server && r.outcome == Check(server[q[|q| - 1]]))
    && (forall k :: |t.requests| <= k < |q| - 1 ==> q[k] in server && Check(server[q[k]]).Ok?)
  }

  lemma {:induction false} ExportPageFailFast(server: Server, page: seq<Area>, i: nat, t: Trace)
    requires Closed(server) && UidsIn(page, server.Keys) && i <= |page|
    ensures PageFailFast(server, t, ExportPage(server, page, i, t))
    decreases server.Keys - t.record.Keys, 0, |page| - i, 1
  {
    if i < |page| {
      if page[i].uid in t.record {
        RevisitFailFast(server, page, i, t);
      } else {
        EnterFailFast(server, page, i, t);
      }
    }
  }

  lemma {:induction false} RevisitFailFast(server: Server, page: seq<Area>, i: nat, t: Trace)
    requires Closed(server) && UidsIn(page, server.Keys) && i < |page|
    requires page[i].uid in t.record
    ensures PageFailFast(server, t, ExportPage(server, page, i, t))
    decreases server.Keys - t.record.Keys, 0, |page| - i, 0
  {
    var a := page[i];
    var t' := Trace(t.record[a.uid := t.record[a.uid] + 1], t.requests, t.inserts + [a]);
    ExportPageRevisit(server, page, i, t);
    assert t'.record.Keys == t.record.Keys;
    ExportPageFailFast(server, page, i + 1, t');
  }

  lemma {:induction false} EnterFailFast(server: Server, page: seq<Area>, i: nat, t: Trace)
    requires Closed(server) && UidsIn(page, server.Keys) && i < |page|
    requires page[i].uid !in t.record
    ensures PageFailFast(server, t, ExportPage(server, page, i, t))
    decreases server.Keys - t.record.Keys, 0, |page| - i, 0
  {
    var a := page[i];
    var t' := Trace(t.record[a.uid := 1], t.requests, t.inserts + [a]);
    var child := Export(server, a.uid, t');
    ExportPageEnter(server, page, i, t, child);
    assert t'.record.Keys == t.record.Keys + {a.uid};
    ExportFailFast(server, a.uid, t');
    if child.outcome.Ok? {
      var c := child.trace.requests;
      var r := ExportPage(server, page, i + 1, child.trace);
      ExportPageFailFast(server, page, i + 1, child.trace);
      ExportPageExtends(server, page, i + 1, child.trace);
      assert forall k :: |t.requests| <= k < |c| ==> r.trace.requests[k] == c[k];
    }
  }

  /* ---------------- Every served area is inserted ---------------- */

  /** The areas the crawl goes on to process after requesting `q`. */
  ghost function Served(server: Server, q: string): seq<Area> {
    if q in server then Accepted(server[q]) else []
  }

  /** Every area served for the requests `qs`, in request order. */
  ghost function Pages(server: Server, qs: seq<string>): seq<Area>
    decreases |qs|
  {
    if qs == [] then [] else Pages(server, qs[..|qs| - 1]) + Served(server, qs[|qs| - 1])
  }

  lemma PagesSnoc(server: Server, qs: seq<string>, q: string)
    ensures Pages(server, qs + [q]) == Pages(server, qs) + Served(server, q)
  {
    assert (qs + [q])[..|qs|] == qs;
  }

  /**
   * How many times the area `x` occurs in `s`: the multiplicity
   * `multiset(s)[x]` (see `TallyIsMultiplicity`), kept as a recursive
   * function because proofs over it stay far cheaper for the solver.
   */
  function Tally(s: seq<Area>, x: Area): nat {
    if s == [] then 0 else Tally(s[..|s| - 1], x) + (if s[|s| - 1] == x then 1 else 0)
  }

  lemma TallySnoc(s: seq<Area>, a: Area, x: Area)
    ensures Tally(s + [a], x) == Tally(s, x) + (if a == x then 1 else 0)
  {
    assert (s + [a])[..|s|] == s;
  }

  lemma TallyAppend(s: seq<Area>, s': seq<Area>, x: Area)
    ensures Tally(s + s', x) == Tally(s, x) + Tally(s', x)
    decreases |s'|
  {
    if s' == [] {
      assert s + s' == s;
    } else {
      assert (s + s')[..|s + s'| - 1] == s + s'[..|s'| - 1];
      TallyAppend(s, s'[..|s'| - 1], x);
    }
  }

  /** `Tally` counts exactly the multiplicity of the multiset of `s`. */
  lemma {:induction false} TallyIsMultiplicity(s: seq<Area>, x: Area)
    ensures Tally(s, x) == multiset(s)[x]
    decreases |s|
  {
    if s != [] {
      TallyIsMultiplicity(s[..|s| - 1], x);
      assert s == s[..|s| - 1] + [s[|s| - 1]];
    }
  }

  lemma TallyPagesSnoc(server: Server, qs: seq<string>, q: string, x: Area)
    ensures Tally(Pages(server, qs + [q]), x) == Tally(Pages(server, qs), x) + Tally(Served(server, q), x)
  {
    PagesSnoc(server, qs, q);
    TallyAppend(Pages(server, qs), Served(server, q), x);
  }

  /**
   * A call that succeeds hands to the insert each area of each page it
   * accepted, once per time it was served: counted area by area, its new
   * inserts are the areas of its new requests' pages.
   */
  lemma {:induction false} ExportInsertsPages(server: Server, p: string, t: Trace, x: Area)
    requires Closed(server) && p in server
    ensures var r := Export(server, p, t);
      r.outcome.Ok? ==>
        Tally(r.trace.inserts, x) + Tally(Pages(server, t.requests), x)
        == Tally(t.inserts, x) + Tally(Pages(server, r.trace.requests), x)
    decreases server.Keys - t.record.Keys, 1, 0, 0
  {
    var t' := Trace(t.record, t.requests + [p], t.inserts);
    var resp := server[p];
    TallyPagesSnoc(server, t.requests, p, x);
    if Check(resp).Ok? && |resp.page| != 0 {
      ExportPageInsertsPages(server, resp.page, 0, t', x);
      assert resp.page[..0] == [];
    }
  }

  lemma {:induction false} ExportPageInsertsPages(server: Server, page: seq<Area>, i: nat, t: Trace, x: Area)
    requires Closed(server) && UidsIn(page, server.Keys) && i <= |page|
    ensures var r := ExportPage(server, page, i, t);
      r.outcome.Ok? ==>
        Tally(r.trace.inserts, x) + Tally(Pages(server, t.requests), x) + Tally(page[..i], x)
        == Tally(t.inserts, x) + Tally(page, x) + Tally(Pages(server, r.trace.requests), x)
    decreases server.Keys - t.record.Keys, 0, |page| - i, 1
  {
    if i == |page| {
      assert page[..i] == page;
    } else if page[i].uid in t.record {
      RevisitInsertsPages(server, page, i, t, x);
    } else {
      EnterInsertsPages(server, page, i, t, x);
    }
  }

  /** Processing `page[i..]` moves `page[i]` from the page to the inserts. */
  lemma TallyStep(page: seq<Area>, i: nat, inserts: seq<Area>, x: Area)
    requires i < |page|
    ensures Tally(page[..i + 1], x) == Tally(page[..i], x) + (if page[i] == x then 1 else 0)
    ensures Tally(inserts + [page[i]], x) == Tally(inserts, x) + (if page[i] == x then 1 else 0)
  {
    TallySnoc(inserts, page[i], x);
    TallySnoc(page[..i], page[i], x);
    assert page[..i] + [page[i]] == page[..i + 1];
  }

  lemma {:induction false} RevisitInsertsPages(server: Server, page: seq<Area>, i: nat, t: Trace, x: Area)
    requires Closed(server) && UidsIn(page, server.Keys) && i < |page|
    requires page[i].uid in t.record
    ensures var r := ExportPage(server, page, i, t);
      r.outcome.Ok? ==>
        Tally(r.trace.inserts, x) + Tally(Pages(server, t.requests), x) + Tally(page[..i], x)
        == Tally(t.inserts, x) + Tally(page, x) + Tally(Pages(server, r.trace.requests), x)
    decreases server.Keys - t.record.Keys, 0, |page| - i, 0
  {
    var a := page[i];
    var t' := Trace(t.record[a.uid := t.record[a.uid] + 1], t.requests, t.inserts + [a]);
    ExportPageRevisit(server, page, i, t);
    assert t'.record.Keys == t.record.Keys;
    TallyStep(page, i, t.inserts, x);
    ExportPageInsertsPages(server, page, i + 1, t', x);
  }

  lemma {:induction false} EnterInsertsPages(server: Server, page: seq<Area>, i: nat, t: Trace, x: Area)
    requires Closed(server) && UidsIn(page, server.Keys) && i < |page|
    requires page[i].uid !in t.record
    ensures var r := ExportPage(server, page, i, t);
      r.outcome.Ok? ==>
        Tally(r.trace.inserts, x) + Tally(Pages(server, t.requests), x) + Tally(page[..i], x)
        == Tally(t.inserts, x) + Tally(page, x) + Tally(Pages(server, r.trace.requests), x)
    decreases server.Keys - t.record.Keys, 0, |page| - i, 0
  {
    var a := page[i];
    var t' := Trace(t.record[a.uid := 1], t.requests, t.inserts + [a]);
    var child := Export(server, a.uid, t');
    ExportPageEnter(server, page, i, t, child);
    assert t'.record.Keys == t.record.Keys + {a.uid};
    TallyStep(page, i, t.inserts, x);
    ExportInsertsPages(server, a.uid, t', x);
    if child.outcome.Ok? {
      ExportPageInsertsPages(server, page, i + 1, child.trace, x);
    }
  }

  /* ---------------- 555 means the same as 200 ---------------- */

  /** A response with status 555 rewritten to carry status 200; any other response unchanged. */
  function Normal(resp: Response): (n: Response)
    ensures n.Resp? <==> resp.Resp?
    ensures resp.Resp? ==> n.page == resp.page && (n.status == 200 <==> Accepts(resp.status))
  {
    if resp.Resp? && resp.status == 555 then Resp(200, resp.page) else resp
  }

  /** The same server with every 555 answer turned into a 200 answer. */
  ghost function Normalized(server: Server): Server {
    map q | q in server :: Normal(server[q])
  }

  lemma NormalizedClosed(server: Server)
    requires Closed(server)
    ensures Closed(Normalized(server))
  {
    var s := Normalized(server);
    forall q | q in s && s[q].Resp?
      ensures UidsIn(s[q].page, s.Keys)
    {
      assert server[q].Resp?;
    }
  }

  /**
   * Status 555 is handled exactly as 200: a crawl over a server that answers
   * 555 somewhere has the same result and the same effects as over the same
   * server answering 200 there instead.
   */
  lemma {:induction false} Status555As200(server: Server, p: string, t: Trace)
    requires Closed(server) && p in server
    ensures Closed(Normalized(server))
    ensures Export(server, p, t) == Export(Normalized(server), p, t)
    decreases server.Keys - t.record.Keys, 1, 0, 0
  {
    NormalizedClosed(server);
    var t' := Trace(t.record, t.requests + [p], t.inserts);
    var resp := server[p];
    assert Check(Normalized(server)[p]) == Check(resp);
    if Check(resp).Ok? && |resp.page| != 0 {
      Status555As200Page(server, resp.page, 0, t');
    }
  }

  lemma {:induction false} Status555As200Page(server: Server, page: seq<Area>, i: nat, t: Trace)
    requires Closed(server) && UidsIn(page, server.Keys) && i <= |page|
    ensures Closed(Normalized(server))
    ensures ExportPage(server, page, i, t) == ExportPage(Normalized(server), page, i, t)
    decreases server.Keys - t.record.Keys, 0, |page| - i, 1
  {
    NormalizedClosed(server);
    var n := Normalized(server);
    if i < |page| {
      var a := page[i];
      if a.uid in t.record {
        var t' := Trace(t.record[a.uid := t.record[a.uid] + 1], t.requests, t.inserts + [a]);
        ExportPageRevisit(server, page, i, t);
        ExportPageRevisit(n, page, i, t);
        assert t'.record.Keys == t.record.Keys;
        Status555As200Page(server, page, i + 1, t');
      } else {
        var t' := Trace(t.record[a.uid := 1], t.requests, t.inserts + [a]);
        var child := Export(server, a.uid, t');
        ExportPageEnter(server, page, i, t, child);
        assert t'.record.Keys == t.record.Keys + {a.uid};
        Status555As200(server, a.uid, t');
        ExportPageEnter(n, page, i, t, child);
        if child.outcome.Ok? {
          Status555As200Page(server, page, i + 1, child.trace);
        }
      }
    }
  }

  /* ---------------- Early returns and a whole run ---------------- */

  /**
   * A call inserts nothing exactly when its response is rejected or carries
   * an empty page (a body that failed to decode included); it then returns
   * the verdict on the response, having only made its request.
   */
  lemma ExportStopsEarly(server: Server, p: string, t: Trace)
    requires Closed(server) && p in server
    ensures Check(server[p]).Fail? || |server[p].page| == 0
        <==> |Export(server, p, t).trace.inserts| == |t.inserts|
    ensures Check(server[p]).Fail? || |server[p].page| == 0 ==>
      Export(server, p, t) == Run(Check(server[p]), Trace(t.record, t.requests + [p], t.inserts))
  {
    var t' := Trace(t.record, t.requests + [p], t.inserts);
    var resp := server[p];
    if Check(resp).Ok? && |resp.page| != 0 {
      var a := resp.page[0];
      var t1 := if a.uid in t'.record
        then Trace(t'.record[a.uid := t'.record[a.uid] + 1], t'.requests, t'.inserts + [a])
        else Trace(t'.record[a.uid := 1], t'.requests, t'.inserts + [a]);
      var r := ExportPage(server, resp.page, 0, t');
      if a.uid in t'.record {
        ExportPageRevisit(server, resp.page, 0, t');
        ExportPageExtends(server, resp.page, 1, t1);
      } else {
        var child := Export(server, a.uid, t1);
        ExportPageEnter(server, resp.page, 0, t', child);
        ExportExtends(server, a.uid, t1);
        if child.outcome.Ok? {
          ExportPageExtends(server, resp.page, 1, child.trace);
        }
      }
    }
  }

  /**
   * The program's one top-level call, `exportParentId("0")` on an empty
   * `record`: the root is requested once more than it is visited, every
   * visited uid is requested exactly once and nothing else is requested;
   * each uid's count is the number of times it was inserted; the visited
   * uids are the inserted ones; and when the call succeeds, the inserted
   * areas are those of all accepted pages.
   */
  lemma FreshExport(server: Server)
    requires Closed(server) && Root in server
    ensures var r := Export(server, Root, Fresh).trace;
      |r.requests| > 0 && r.requests[0] == Root
      && multiset(r.requests) == multiset{Root} + multiset(r.record.Keys)
    ensures var r := Export(server, Root, Fresh).trace;
      forall u :: Count(r.record, u) == Occurrences(r.inserts, u) && (u in r.record <==> Occurrences(r.inserts, u) > 0)
    ensures var r := Export(server, Root, Fresh);
      r.outcome.Ok? ==> multiset(r.trace.inserts) == multiset(Pages(server, r.trace.requests))
  {
    var r := Export(server, Root, Fresh);
    ExportExtends(server, Root, Fresh);
    ExportRequests(server, Root, Fresh);
    forall u
      ensures Count(r.trace.record, u) == Occurrences(r.trace.inserts, u)
      ensures u in r.trace.record <==> Occurrences(r.trace.inserts, u) > 0
    {
      ExportCounts(server, Root, Fresh, u);
      ExportKeys(server, Root, Fresh, u);
    }
    if r.outcome.Ok? {
      forall x
        ensures multiset(r.trace.inserts)[x] == multiset(Pages(server, r.trace.requests))[x]
      {
        ExportInsertsPages(server, Root, Fresh, x);
        TallyIsMultiplicity(r.trace.inserts, x);
        TallyIsMultiplicity(Pages(server, r.trace.requests), x);
      }
    }
  }

  /**
   * A small hierarchy: the root has child 11, which the API answers with 555
   * and lists twice together with 12, whose request gets a 500. The crawl
   * counts 11 twice, requests it once, and stops at 12's error with the
   * earlier inserts and counts left in place.
   */
  lemma ExampleRun()
    ensures var a11 := Area("11", "0", 1, "North");
      var a12 := Area("12", "11", 2, "Harbour");
      var server := map[Root := Resp(200, [a11]), "11" := Resp(555, [a11, a12]), "12" := Resp(500, [])];
      Closed(server)
      && Export(server, Root, Fresh)
         == Run(Fail(BadStatus(500)), Trace(map["11" := 2, "12" := 1], [Root, "11", "12"], [a11, a11, a12]))
  {
    var a11 := Area("11", "0", 1, "North");
    var a12 := Area("12", "11", 2, "Harbour");
    var server := map[Root := Resp(200, [a11]), "11" := Resp(555, [a11, a12]), "12" := Resp(500, [])];
    assert Closed(server);
    var t0 := Trace(map[], [Root], []);
    var t1 := Trace(map["11" := 1], [Root], [a11]);
    var t1' := Trace(t1.record, t1.requests + ["11"], t1.inserts);
    var t2 := Trace(map["11" := 2], [Root, "11"], [a11, a11]);
    var t3 := Trace(map["11" := 2, "12" := 1], [Root, "11"], [a11, a11, a12]);
    var fail := Run(Fail(BadStatus(500)), Trace(t3.record, t3.requests + ["12"], t3.inserts));
    assert Export(server, "12", t3) == fail;
    assert t2.record[a12.uid := 1] == t3.record;
    ExportPageEnter(server, [a11, a12], 1, t2, fail);
    assert t1'.record[a11.uid := t1'.record[a11.uid] + 1] == t2.record;
    ExportPageRevisit(server, [a11, a12], 0, t1');
    assert Export(server, "11", t1) == fail;
    assert Trace(t0.record[a11.uid := 1], t0.requests, t0.inserts + [a11]) == t1;
    ExportPageEnter(server, [a11], 0, t0, fail);
    assert Trace(Fresh.record, Fresh.requests + [Root], Fresh.inserts) == t0;
    assert ExportPage(server, [a11], 0, Trace(map[], [Root], [])) == fail;
  }

  /** The multiset of a union of disjoint sets holds each element once. */
  lemma MultisetOfUnion<T>(a: set<T>, b: set<T>)
    requires a !! b
    ensures multiset(a) + multiset(b) == multiset(a + b)
  {
    forall x | true
      ensures (multiset(a) + multiset(b))[x] == multiset(a + b)[x]
    {
    }
  }

  /** Entering `u` and then its subtree requests `u` once plus the subtree's new keys. */
  lemma EnterRequests<T>(m0: multiset<T>, k0: set<T>, u: T, m1: multiset<T>, k1: set<T>)
    requires u !in k0 && k0 + {u} <= k1
    requires m1 == m0 + multiset{u} + multiset(k1 - (k0 + {u}))
    ensures m1 == m0 + multiset(k1 - k0)
  {
    MultisetOfUnion({u}, k1 - (k0 + {u}));
    assert {u} + (k1 - (k0 + {u})) == k1 - k0;
  }

  /** Two stretches of requests, each one per new key, make one such stretch. */
  lemma ChainRequests<T>(m0: multiset<T>, k0: set<T>, m1: multiset<T>, k1: set<T>, m2: multiset<T>, k2: set<T>)
    requires k0 <= k1 <= k2
    requires m1 == m0 + multiset(k1 - k0) && m2 == m1 + multiset(k2 - k1)
    ensures m2 == m0 + multiset(k2 - k0)
  {
    MultisetOfUnion(k1 - k0, k2 - k1);
    assert (k1 - k0) + (k2 - k1) == k2 - k0;
  }

  lemma PrefixTrans<T>(a: seq<T>, b: seq<T>, c: seq<T>)
    requires a <= b && b <= c
    ensures a <= c
  {
    assert c[..|a|] == b[..|a|];
  }
}
