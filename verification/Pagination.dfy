/** Cursor pagination of account activity in the Stellar client
    (packages/stellar/src/client.ts). */
module Pagination {
  import opened Prelude
  import opened Arithmetic

  /** A record may lack its paging token. */
  datatype Record = Record(id: nat, pagingToken: Option<string>)

  /** The records in the requested order, and where each cursor points: the position of
      the first record after it. */
  datatype Server = Server(log: seq<Record>, after: string -> nat)

  /** A JavaScript string or null that counts as true. */
  predicate Truthy(token: Option<string>) {
    token.Some? && token.value != ""
  }

  /** Cursors point inside the log, and a record's own token just behind it; so the
      usable tokens are distinct. */
  ghost predicate Consistent(s: Server) {
    && (forall cursor :: s.after(cursor) <= |s.log|)
    && forall i :: 0 <= i < |s.log| && Truthy(s.log[i].pagingToken) ==> s.after(s.log[i].pagingToken.value) == i + 1
  }

  function Start(s: Server, cursor: Option<string>): nat {
    if Truthy(cursor) then s.after(cursor.value) else 0
  }

  function PageEnd(s: Server, from: nat, limit: nat): nat
    requires from <= |s.log|
  {
    if from + limit < |s.log| then from + limit else |s.log|
  }

  datatype Page = Page(records: seq<Record>, nextCursor: Option<string>)

  function GetNextCursor(records: seq<Record>): Option<string> {
    if |records| == 0 then None else records[|records| - 1].pagingToken
  }

  /** `getAccountActivityPage`: an absent or empty cursor asks from the beginning. */
  function GetAccountActivityPage(s: Server, cursor: Option<string>, limit: nat): Page
    requires Start(s, cursor) <= |s.log|
  {
    var from := Start(s, cursor);
    var records := s.log[from..PageEnd(s, from, limit)];
    Page(records, GetNextCursor(records))
  }

  // ---------------------------------------------------------------- the simple form

  /** Where the generator stops, how many pages it asked for, and whether a request
      failed: request q is answered when `up(q)`. */
  datatype Walk = Walk(end: nat, requests: nat, threw: bool)

  ghost function From(s: Server, limit: nat, up: nat -> bool, from: nat, q: nat): Walk
    requires from <= |s.log| && limit >= 1
    decreases |s.log| - from
  {
    var end := PageEnd(s, from, limit);
    if !up(q) then Walk(from, q + 1, true)
    else if from == end || !Truthy(s.log[end - 1].pagingToken) then Walk(end, q + 1, false)
    else From(s, limit, up, end, q + 1)
  }

  method YieldEach(yielded: seq<Record>, records: seq<Record>) returns (all: seq<Record>)
    ensures all == yielded + records
  {
    all := yielded;
    for k := 0 to |records|
      invariant all == yielded + records[..k]
    {
      all := all + [records[k]];
    }
  }

  /** The generator, run to its end: what it yields, the requests made, whether it threw. */
  method IterateAccountActivity(s: Server, cursor0: Option<string>, limit: nat, up: nat -> bool)
    returns (yielded: seq<Record>, requests: nat, threw: bool)
    requires Consistent(s) && limit >= 1
    ensures Start(s, cursor0) <= |s.log|
    ensures var w := From(s, limit, up, Start(s, cursor0), 0);
            && requests == w.requests && threw == w.threw
            && Start(s, cursor0) <= w.end <= |s.log| && yielded == s.log[Start(s, cursor0)..w.end]
  {
    ghost var start := Start(s, cursor0);
    ghost var at := start;
    var cursor := cursor0;
    yielded, requests := [], 0;
    while true
      invariant start <= at <= |s.log| && Start(s, cursor) == at
      invariant yielded == s.log[start..at]
      invariant From(s, limit, up, at, requests) == From(s, limit, up, start, 0)
      decreases |s.log| - at
    {
      requests := requests + 1;
      if !up(requests - 1) {
        return yielded, requests, true;
      }
      var page := GetAccountActivityPage(s, cursor, limit);
      yielded := YieldEach(yielded, page.records);
      PageAdvances(s, cursor, limit, start);
      at := PageEnd(s, at, limit);
      if !Truthy(page.nextCursor) || |page.records| == 0 {
        return yielded, requests, false;
      }
      cursor := page.nextCursor;
    }
  }

  lemma PageAdvances(s: Server, cursor: Option<string>, limit: nat, start: nat)
    requires Consistent(s) && limit >= 1 && start <= Start(s, cursor) <= |s.log|
    ensures var page := GetAccountActivityPage(s, cursor, limit);
            var at := Start(s, cursor); var end := PageEnd(s, at, limit);
            && s.log[start..at] + page.records == s.log[start..end]
            && (page.records == [] <==> at == end)
            && (page.records == [] ==> page.nextCursor == None)
            && (at < end ==> page.nextCursor == s.log[end - 1].pagingToken)
            && (Truthy(page.nextCursor) ==> Start(s, page.nextCursor) == end)
  {
  }

  // --------------------------------------------------------------------- properties

  /** The record that ends page j (from 1) has a usable token, if more records follow. */
  ghost predicate GoesPast(s: Server, from: nat, limit: nat, j: nat)
    requires limit >= 1 && j >= 1
  {
    MulMono(1, j, limit);
    from + j * limit < |s.log| ==> Truthy(s.log[from + j * limit - 1].pagingToken)
  }

  ghost predicate AllGoPast(s: Server, from: nat, limit: nat)
    requires limit >= 1
  {
    forall j: nat :: j >= 1 ==> GoesPast(s, from, limit, j)
  }

  lemma Shifted(s: Server, from: nat, limit: nat, j: nat)
    requires limit >= 1 && j >= 1
    ensures GoesPast(s, from + limit, limit, j) == GoesPast(s, from, limit, j + 1)
  {
    assert (from + limit) + j * limit == from + (j + 1) * limit;
  }

  lemma AllShifted(s: Server, from: nat, limit: nat)
    requires limit >= 1
    ensures AllGoPast(s, from, limit) <==> GoesPast(s, from, limit, 1) && AllGoPast(s, from + limit, limit)
  {
    var next := from + limit;
    if AllGoPast(s, from, limit) {
      forall j: nat | j >= 1 ensures GoesPast(s, next, limit, j) {
        Shifted(s, from, limit, j);
      }
    }
    if GoesPast(s, from, limit, 1) && AllGoPast(s, next, limit) {
      forall j: nat | j >= 1 ensures GoesPast(s, from, limit, j) {
        if j > 1 {
          Shifted(s, from, limit, j - 1);
        }
      }
    }
  }

  /** Without failed requests, the walk is complete exactly when no page that leaves
      records behind ends in a record without a usable token. */
  lemma {:induction false} CompleteIff(s: Server, limit: nat, up: nat -> bool, from: nat, q: nat)
    requires from <= |s.log| && limit >= 1 && forall i :: up(i)
    ensures !From(s, limit, up, from, q).threw
    ensures From(s, limit, up, from, q).end == |s.log| <==> AllGoPast(s, from, limit)
    decreases |s.log| - from
  {
    var end := PageEnd(s, from, limit);
    if from + limit < |s.log| {
      AllShifted(s, from, limit);
      assert 1 * limit == limit;
      if Truthy(s.log[end - 1].pagingToken) {
        CompleteIff(s, limit, up, end, q + 1);
      }
    } else {
      forall j: nat | j >= 1 ensures GoesPast(s, from, limit, j) {
        MulMono(1, j, limit);
      }
      if from < end && Truthy(s.log[end - 1].pagingToken) {
        assert From(s, limit, up, end, q + 1).end == |s.log|;
      }
    }
  }

  /** When every record has a usable token: all r remaining records are yielded, in
      exactly ceil(r / limit) + 1 requests. */
  lemma {:induction false} RequestCount(s: Server, limit: nat, up: nat -> bool, from: nat, q: nat)
    requires from <= |s.log| && limit >= 1 && forall i :: up(i)
    requires forall i :: 0 <= i < |s.log| ==> Truthy(s.log[i].pagingToken)
    ensures From(s, limit, up, from, q) == Walk(|s.log|, q + CeilDiv(|s.log| - from, limit) + 1, false)
    decreases |s.log| - from
  {
    var r, end := |s.log| - from, PageEnd(s, from, limit);
    if r == 0 {
      DivUnique(limit - 1, limit, 0, limit - 1);
    } else {
      RequestCount(s, limit, up, end, q + 1);
      if r <= limit {
        DivUnique(limit - 1, limit, 0, limit - 1);
        DivUnique(r + limit - 1, limit, 1, r - 1);
      } else {
        DivBack(r + limit - 1, limit);
      }
    }
  }

  /** When a request fails: everything yielded before is a run of whole pages from the
      start, `limit` records for each earlier request, or the whole log. */
  lemma {:induction false} FailureLeavesPrefix(s: Server, limit: nat, up: nat -> bool, from: nat, q: nat)
    requires from <= |s.log| && limit >= 1
    ensures var w := From(s, limit, up, from, q);
            && from <= w.end <= |s.log| && q < w.requests && w.threw == !up(w.requests - 1)
            && (w.threw ==> w.end == Min(from + (w.requests - 1 - q) * limit, |s.log|))
    decreases |s.log| - from
  {
    var end := PageEnd(s, from, limit);
    if up(q) && from < end && Truthy(s.log[end - 1].pagingToken) {
      FailureLeavesPrefix(s, limit, up, end, q + 1);
      var n := From(s, limit, up, end, q + 1).requests - 2 - q;
      assert (n + 1) * limit == n * limit + limit;
    }
  }

  /** Two records, one a page, the first without a token: the second is never asked for. */
  lemma TokenlessRecordEnds(second: Record, up: nat -> bool)
    requires up(0) && Truthy(second.pagingToken)
    ensures var s := Server([Record(1, None), second], cursor => if second.pagingToken == Some(cursor) then 2 else 0);
            Consistent(s) && From(s, 1, up, 0, 0) == Walk(1, 1, false)
  {
  }

  /** Without a cursor, and with an empty one, the walk is from the beginning. */
  lemma EmptyCursorStarts(s: Server)
    ensures Start(s, None) == 0 && Start(s, Some("")) == 0
  {
  }
}
