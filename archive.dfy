/** The archive's bookkeeping in index.js, over its four tables held in memory:
    requests (a URL asked for at a time), responses (the outcome of fetching a
    request), hashes (one row per distinct algorithm and digest) and
    response_hashes (a link from a response to each of its digests). Row
    identifiers are the tables' row numbers, counted from one. The queries the
    source sends to the database are functions over the tables; the steps that
    write to them are methods of `Db`. */
module Archive {
  import opened Wrappers
  import opened Bytes
  import opened Dict

  datatype Request = Request(id: nat, url: string, time: int)

  datatype Response = Response(
    id: nat, requestId: nat, status: Option<int>, time: int,
    contentType: Option<string>, etag: Option<string>,
    lastModified: Option<string>, date: Option<string>)

  datatype HashRow = HashRow(id: nat, algo: string, data: seq<byte>)

  datatype Link = Link(responseId: nat, hashId: nat)

  /** What a crawl hands to `response_store`: the response columns and the
      digests, as (algorithm, digest) entries in key order. */
  datatype Stat = Stat(
    status: Option<int>, time: int,
    contentType: Option<string>, etag: Option<string>,
    lastModified: Option<string>, date: Option<string>,
    hashes: seq<(string, seq<byte>)>)

  // ---------------------------------------------------------------------
  // request_bump (index.js:282-330)
  // ---------------------------------------------------------------------

  /** The request row with the largest id for `url`
      (`WHERE req.url = ? ORDER BY req.request_id DESC LIMIT 1`). */
  function LatestRequest(reqs: seq<Request>, url: string): (r: Option<Request>)
    ensures r.Some? ==> r.value in reqs && r.value.url == url
    ensures r.Some? ==> forall q :: q in reqs && q.url == url ==> q.id <= r.value.id
    ensures r.None? ==> forall q :: q in reqs ==> q.url != url
  {
    if reqs == [] then None
    else
      var prev := LatestRequest(reqs[..|reqs| - 1], url);
      var last := reqs[|reqs| - 1];
      if last.url == url && (prev.None? || prev.value.id <= last.id) then Some(last) else prev
  }

  /** The `response_time` the left join pairs with a request: that of the first
      response to it, or null when there is none. */
  function AnswerTime(resps: seq<Response>, reqId: nat): (t: Option<int>)
    ensures t.None? <==> forall x :: x in resps ==> x.requestId != reqId
    ensures t.Some? ==> exists x :: x in resps && x.requestId == reqId && x.time == t.value
  {
    if resps == [] then None
    else if resps[0].requestId == reqId then Some(resps[0].time)
    else AnswerTime(resps[1..], reqId)
  }

  /** The row `request_bump` reads: none when the URL was never requested, else
      the response time of its latest request (null when unanswered). */
  function LatestAnswer(reqs: seq<Request>, resps: seq<Response>, url: string): (a: Option<Option<int>>)
    ensures a.None? <==> forall q :: q in reqs ==> q.url != url
    ensures a.Some? ==> exists q :: && q in reqs && q.url == url
                                   && (forall q' :: q' in reqs && q'.url == url ==> q'.id <= q.id)
                                   && (a.value.None? <==> forall x :: x in resps ==> x.requestId != q.id)
  {
    match LatestRequest(reqs, url)
    case None => None
    case Some(r) => Some(AnswerTime(resps, r.id))
  }

  /** One day in milliseconds, the time a response stays fresh. */
  const DayMillis: int := 1000 * 60 * 60 * 24

  datatype Freshness = Freshness(pending: bool, outdated: bool)

  /** The four-way decision of `request_bump`. A response time of zero is falsy
      in the source and counts as no response. */
  function Classify(row: Option<Option<int>>, now: int): (f: Freshness)
    ensures f.pending ==> f.outdated
    ensures f.pending <==> row.Some? && (row.value.None? || row.value.value == 0)
    ensures !f.outdated <==>
      row.Some? && row.value.Some? && row.value.value != 0 && row.value.value >= now - DayMillis
  {
    match row
    case None => Freshness(false, true)
    case Some(t) =>
      if t.None? || t.value == 0 then Freshness(true, true)
      else if t.value < now - DayMillis then Freshness(false, true)
      else Freshness(false, false)
  }

  /** Whether `request_bump` appends a request. */
  predicate Enqueues(f: Freshness) {
    f.outdated && !f.pending
  }

  /** A response a second short of a day old is fresh, one exactly a day old is
      still fresh (the comparison is strict), and one a second over is outdated. */
  lemma FreshnessBoundary(now: int)
    requires now > DayMillis + 1000
    ensures Classify(Some(Some(now - DayMillis + 1000)), now) == Freshness(false, false)
    ensures Classify(Some(Some(now - DayMillis)), now) == Freshness(false, false)
    ensures Classify(Some(Some(now - DayMillis - 1000)), now) == Freshness(false, true)
    ensures Classify(Some(None), now) == Freshness(true, true)
    ensures Classify(None, now) == Freshness(false, true)
  {
  }

  /** Request ids are the row numbers. */
  ghost predicate RequestIds(reqs: seq<Request>) {
    forall i :: 0 <= i < |reqs| ==> reqs[i].id == i + 1
  }

  /** Every response answers an existing request. */
  ghost predicate Answers(resps: seq<Response>, reqs: seq<Request>) {
    forall x :: x in resps ==> 1 <= x.requestId <= |reqs|
  }

  /** Once a request is enqueued for a URL, the next `request_bump` of that URL
      finds it pending and enqueues nothing, whatever the time, until a
      response is stored. */
  lemma {:induction false} BumpThenPending(reqs: seq<Request>, resps: seq<Response>, url: string, now: int, later: int)
    requires RequestIds(reqs) && Answers(resps, reqs)
    ensures var r := reqs + [Request(|reqs| + 1, url, now)];
      && LatestAnswer(r, resps, url) == Some(None)
      && Classify(LatestAnswer(r, resps, url), later) == Freshness(true, true)
      && !Enqueues(Classify(LatestAnswer(r, resps, url), later))
  {
    var r := reqs + [Request(|reqs| + 1, url, now)];
    assert r[..|r| - 1] == reqs;
    var prev := LatestRequest(reqs, url);
    if prev.Some? {
      var k :| 0 <= k < |reqs| && reqs[k] == prev.value;
      assert prev.value.id == k + 1;
    }
    assert LatestRequest(r, url) == Some(Request(|reqs| + 1, url, now));
    assert AnswerTime(resps, |reqs| + 1).None?;
  }

  // ---------------------------------------------------------------------
  // request_load_one (index.js:260-281)
  // ---------------------------------------------------------------------

  /** The requests the dequeue query admits: above the watermark, unanswered. */
  ghost predicate Eligible(resps: seq<Response>, cur: nat, q: Request) {
    q.id > cur && forall x :: x in resps ==> x.requestId != q.id
  }

  /** `WHERE res.response_id IS NULL AND req.request_id > ? ORDER BY
      req.request_time ASC LIMIT 1`; among requests of equal time the first row. */
  function NextUnanswered(reqs: seq<Request>, resps: seq<Response>, cur: nat): (r: Option<Request>)
    ensures r.Some? ==> r.value in reqs && Eligible(resps, cur, r.value)
    ensures r.Some? ==> forall q :: q in reqs && Eligible(resps, cur, q) ==> r.value.time <= q.time
    ensures r.None? ==> forall q :: q in reqs ==> !Eligible(resps, cur, q)
  {
    if reqs == [] then None
    else
      var prev := NextUnanswered(reqs[..|reqs| - 1], resps, cur);
      var last := reqs[|reqs| - 1];
      if AnswerTime(resps, last.id).None? && last.id > cur && (prev.None? || last.time < prev.value.time)
      then Some(last)
      else prev
  }

  // ---------------------------------------------------------------------
  // response_store_hashes (index.js:352-381)
  // ---------------------------------------------------------------------

  /** `SELECT hash_id FROM hashes WHERE algo = ? AND data = ? LIMIT 1` */
  function FindHash(rows: seq<HashRow>, algo: string, data: seq<byte>): (r: Option<HashRow>)
    ensures r.Some? ==> r.value in rows && r.value.algo == algo && r.value.data == data
    ensures r.None? <==> forall h :: h in rows ==> !(h.algo == algo && h.data == data)
  {
    if rows == [] then None
    else if rows[0].algo == algo && rows[0].data == data then Some(rows[0])
    else FindHash(rows[1..], algo, data)
  }

  /** `INSERT OR IGNORE INTO hashes (algo, data)`: a new row only for a new pair. */
  function InsertOrIgnore(rows: seq<HashRow>, algo: string, data: seq<byte>): (r: seq<HashRow>)
    ensures FindHash(rows, algo, data).Some? ==> r == rows
    ensures FindHash(rows, algo, data).None? ==> r == rows + [HashRow(|rows| + 1, algo, data)]
  {
    if FindHash(rows, algo, data).Some? then rows else rows + [HashRow(|rows| + 1, algo, data)]
  }

  /** Hash ids are the row numbers. */
  ghost predicate HashIds(rows: seq<HashRow>) {
    forall i :: 0 <= i < |rows| ==> rows[i].id == i + 1
  }

  /** The unique constraint on (algo, data). */
  ghost predicate UniqueHashes(rows: seq<HashRow>) {
    forall i, j :: 0 <= i < j < |rows| ==> rows[i].algo != rows[j].algo || rows[i].data != rows[j].data
  }

  /** The tables after `response_store_hashes(db, rid, hashes)`: per entry, in
      order, an insert-or-ignore and a link to the row holding the pair. */
  function StoreHashes(rows: seq<HashRow>, links: seq<Link>, rid: nat, hs: seq<(string, seq<byte>)>): (seq<HashRow>, seq<Link>)
    decreases |hs|
  {
    if hs == [] then (rows, links)
    else
      var rows' := InsertOrIgnore(rows, hs[0].0, hs[0].1);
      StoreHashes(rows', links + [Link(rid, FindHash(rows', hs[0].0, hs[0].1).value.id)], rid, hs[1..])
  }

  lemma InsertKeepsUnique(rows: seq<HashRow>, algo: string, data: seq<byte>)
    requires UniqueHashes(rows) && HashIds(rows)
    ensures UniqueHashes(InsertOrIgnore(rows, algo, data)) && HashIds(InsertOrIgnore(rows, algo, data))
    ensures var r := InsertOrIgnore(rows, algo, data); var h := FindHash(r, algo, data).value;
      1 <= h.id <= |r| && r[h.id - 1] == h
  {
    var r := InsertOrIgnore(rows, algo, data);
    if FindHash(rows, algo, data).None? {
      var x := HashRow(|rows| + 1, algo, data);
      assert r == rows + [x];
      forall i, j | 0 <= i < j < |r| ensures r[i].algo != r[j].algo || r[i].data != r[j].data {
        if j == |rows| {
          assert r[i] in rows;
        } else {
          assert r[i] == rows[i] && r[j] == rows[j];
        }
      }
      assert FindHash(r, algo, data).Some?;
    }
    var h := FindHash(r, algo, data).value;
    var k :| 0 <= k < |r| && r[k] == h;
  }

  /** A link of response `rid` to the row holding the pair `p`. */
  ghost predicate LinkTo(x: Link, rows: seq<HashRow>, rid: nat, p: (string, seq<byte>)) {
    x.responseId == rid && 1 <= x.hashId <= |rows|
    && rows[x.hashId - 1].algo == p.0 && rows[x.hashId - 1].data == p.1
  }

  /** The links from position `off` on are, one per entry, links of `rid` to the entries' pairs. */
  ghost predicate LinksMatch(l: seq<Link>, off: nat, rows: seq<HashRow>, rid: nat, hs: seq<(string, seq<byte>)>) {
    off + |hs| <= |l| && forall i :: 0 <= i < |hs| ==> LinkTo(l[off + i], rows, rid, hs[i])
  }

  lemma LinksMatchCons(l: seq<Link>, off: nat, rows: seq<HashRow>, rid: nat, hs: seq<(string, seq<byte>)>)
    requires hs != [] && off < |l| && LinkTo(l[off], rows, rid, hs[0])
    requires LinksMatch(l, off + 1, rows, rid, hs[1..])
    ensures LinksMatch(l, off, rows, rid, hs)
  {
    forall i | 1 <= i < |hs| ensures LinkTo(l[off + i], rows, rid, hs[i]) {
      assert LinkTo(l[off + 1 + (i - 1)], rows, rid, hs[1..][i - 1]);
    }
  }

  /** What `response_store_hashes` promises of the tables `res` it leaves. */
  ghost predicate Stored(rows: seq<HashRow>, links: seq<Link>, rid: nat, hs: seq<(string, seq<byte>)>,
                         res: (seq<HashRow>, seq<Link>)) {
    && |rows| <= |res.0| && res.0[..|rows|] == rows
    && UniqueHashes(res.0) && HashIds(res.0)
    && |res.1| == |links| + |hs| && res.1[..|links|] == links
    && LinksMatch(res.1, |links|, res.0, rid, hs)
  }

  /** `response_store_hashes` never changes an existing hash row and keeps the
      pairs unique; it adds exactly one link per entry, the i-th pointing at the
      row that holds the i-th (algorithm, digest) pair. */
  lemma {:induction false} StoreHashesSpec(rows: seq<HashRow>, links: seq<Link>, rid: nat, hs: seq<(string, seq<byte>)>)
    requires UniqueHashes(rows) && HashIds(rows)
    ensures Stored(rows, links, rid, hs, StoreHashes(rows, links, rid, hs))
    decreases |hs|
  {
    if hs == [] {
      assert links[..|links|] == links && rows[..|rows|] == rows;
    } else {
      var rows' := InsertOrIgnore(rows, hs[0].0, hs[0].1);
      InsertKeepsUnique(rows, hs[0].0, hs[0].1);
      var h := FindHash(rows', hs[0].0, hs[0].1).value;
      var links' := links + [Link(rid, h.id)];
      StoreHashesSpec(rows', links', rid, hs[1..]);
      var res := StoreHashes(rows', links', rid, hs[1..]);
      assert res == StoreHashes(rows, links, rid, hs);
      assert rows'[..|rows|] == rows;
      StoreHashesStep(rows, links, rid, hs, rows', h, res);
    }
  }

  /** One entry of `response_store_hashes`: what the rest of the entries
      promise, together with the first entry's row and link, is the promise
      for all of them. */
  lemma StoreHashesStep(rows: seq<HashRow>, links: seq<Link>, rid: nat, hs: seq<(string, seq<byte>)>,
                        rows': seq<HashRow>, h: HashRow, res: (seq<HashRow>, seq<Link>))
    requires hs != [] && |rows| <= |rows'| && rows'[..|rows|] == rows
    requires 1 <= h.id <= |rows'| && rows'[h.id - 1] == h && h.algo == hs[0].0 && h.data == hs[0].1
    requires Stored(rows', links + [Link(rid, h.id)], rid, hs[1..], res)
    ensures Stored(rows, links, rid, hs, res)
  {
    var links' := links + [Link(rid, h.id)];
    assert res.0[..|rows|] == rows'[..|rows|];
    assert res.1[..|links|] == links'[..|links|];
    assert res.1[|links|] == links'[|links|];
    assert res.0[h.id - 1] == rows'[h.id - 1];
    assert LinkTo(res.1[|links|], res.0, rid, hs[0]);
    LinksMatchCons(res.1, |links|, res.0, rid, hs);
  }

  // ---------------------------------------------------------------------
  // responses_load (index.js:382-414)
  // ---------------------------------------------------------------------

  /** The url of the request with id `id`, if there is one. */
  function RequestUrl(reqs: seq<Request>, id: nat): (u: Option<string>)
    ensures u.Some? <==> exists q :: q in reqs && q.id == id
    ensures u.Some? ==> exists q :: q in reqs && q.id == id && q.url == u.value
  {
    if reqs == [] then None
    else if reqs[0].id == id then Some(reqs[0].url)
    else RequestUrl(reqs[1..], id)
  }

  /** The responses to requests for `url`, newest row first. */
  function NewestFirst(reqs: seq<Request>, resps: seq<Response>, url: string): (r: seq<Response>)
    ensures forall x :: x in r ==> x in resps && RequestUrl(reqs, x.requestId) == Some(url)
    ensures forall x :: x in resps && RequestUrl(reqs, x.requestId) == Some(url) ==> x in r
  {
    if resps == [] then []
    else
      var last := resps[|resps| - 1];
      var rest := NewestFirst(reqs, resps[..|resps| - 1], url);
      if RequestUrl(reqs, last.requestId) == Some(url) then [last] + rest else rest
  }

  /** The history query: `WHERE req.url = ? ORDER BY res.response_id DESC LIMIT 30`. */
  function History(reqs: seq<Request>, resps: seq<Response>, url: string): seq<Response> {
    var all := NewestFirst(reqs, resps, url);
    if |all| <= 30 then all else all[..30]
  }

  /** Response ids are the row numbers. */
  ghost predicate ResponseIds(resps: seq<Response>) {
    forall i :: 0 <= i < |resps| ==> resps[i].id == i + 1
  }

  ghost predicate Descending(r: seq<Response>) {
    forall i, j :: 0 <= i < j < |r| ==> r[i].id > r[j].id
  }

  lemma {:induction false} NewestFirstDescending(reqs: seq<Request>, resps: seq<Response>, url: string)
    requires ResponseIds(resps)
    ensures Descending(NewestFirst(reqs, resps, url))
    ensures forall x :: x in NewestFirst(reqs, resps, url) ==> x.id <= |resps|
  {
    if resps != [] {
      var init := resps[..|resps| - 1];
      NewestFirstDescending(reqs, init, url);
      var rest := NewestFirst(reqs, init, url);
      forall x | x in rest ensures x.id < |resps| {
        var k :| 0 <= k < |init| && init[k] == x;
      }
    }
  }

  /** The history of a URL: at most 30 of its responses, newest first, and
      every response to it left out is older than all of those listed. */
  lemma HistorySpec(reqs: seq<Request>, resps: seq<Response>, url: string)
    requires ResponseIds(resps)
    ensures var h := History(reqs, resps, url);
      && |h| <= 30
      && Descending(h)
      && (forall x :: x in h ==> x in resps && RequestUrl(reqs, x.requestId) == Some(url))
      && (forall x :: x in resps && RequestUrl(reqs, x.requestId) == Some(url) && x !in h ==>
            |h| == 30 && forall y :: y in h ==> x.id < y.id)
  {
    var all := NewestFirst(reqs, resps, url);
    NewestFirstDescending(reqs, resps, url);
    var h := History(reqs, resps, url);
    forall x | x in resps && RequestUrl(reqs, x.requestId) == Some(url) && x !in h
      ensures |h| == 30 && forall y :: y in h ==> x.id < y.id
    {
      var k :| 0 <= k < |all| && all[k] == x;
      assert k >= 30;
      forall y | y in h ensures x.id < y.id {
        var m :| 0 <= m < |h| && h[m] == y;
        assert all[m] == y;
      }
    }
  }

  /** The hash row with id `id`, if there is one. */
  function HashById(rows: seq<HashRow>, id: nat): (h: Option<HashRow>)
    ensures h.Some? ==> h.value in rows && h.value.id == id
  {
    if rows == [] then None
    else if rows[0].id == id then Some(rows[0])
    else HashById(rows[1..], id)
  }

  lemma {:induction false} HashByIdIsRow(rows: seq<HashRow>, id: nat)
    requires HashIds(rows) && 1 <= id <= |rows|
    ensures HashById(rows, id) == Some(rows[id - 1])
  {
    if rows[0].id != id {
      assert forall i :: 0 <= i < |rows[1..]| ==> rows[1..][i].id == i + 2;
      HashByIdRest(rows[1..], id, 2);
    }
  }

  lemma {:induction false} HashByIdRest(rows: seq<HashRow>, id: nat, base: nat)
    requires forall i :: 0 <= i < |rows| ==> rows[i].id == i + base
    requires base <= id < base + |rows|
    ensures HashById(rows, id) == Some(rows[id - base])
  {
    if rows[0].id != id {
      assert forall i :: 0 <= i < |rows[1..]| ==> rows[1..][i].id == i + (base + 1);
      HashByIdRest(rows[1..], id, base + 1);
    }
  }

  /** `SELECT h.algo, h.data FROM response_hashes AS r INNER JOIN hashes AS h
      ON (r.hash_id = h.hash_id) WHERE r.response_id = ?`, in link order. */
  function HashPairs(links: seq<Link>, rows: seq<HashRow>, rid: nat): seq<(string, seq<byte>)> {
    if links == [] then []
    else
      var rest := HashPairs(links[1..], rows, rid);
      if links[0].responseId != rid then rest
      else match HashById(rows, links[0].hashId)
        case None => rest
        case Some(h) => [(h.algo, h.data)] + rest
  }

  lemma {:induction false} HashPairsConcat(a: seq<Link>, b: seq<Link>, rows: seq<HashRow>, rid: nat)
    ensures HashPairs(a + b, rows, rid) == HashPairs(a, rows, rid) + HashPairs(b, rows, rid)
  {
    if a == [] {
      assert a + b == b;
    } else {
      assert (a + b)[1..] == a[1..] + b;
      HashPairsConcat(a[1..], b, rows, rid);
    }
  }

  lemma {:induction false} HashPairsNone(links: seq<Link>, rows: seq<HashRow>, rid: nat)
    requires forall l :: l in links ==> l.responseId != rid
    ensures HashPairs(links, rows, rid) == []
  {
    if links != [] {
      HashPairsNone(links[1..], rows, rid);
    }
  }

  lemma {:induction false} HashPairsOfNew(l: seq<Link>, rows: seq<HashRow>, rid: nat, hs: seq<(string, seq<byte>)>)
    requires HashIds(rows) && |l| == |hs| && LinksMatch(l, 0, rows, rid, hs)
    ensures HashPairs(l, rows, rid) == hs
  {
    if l != [] {
      assert LinkTo(l[0], rows, rid, hs[0]);
      HashByIdIsRow(rows, l[0].hashId);
      assert LinksMatch(l[1..], 0, rows, rid, hs[1..]) by {
        forall i | 0 <= i < |hs| - 1 ensures LinkTo(l[1..][i], rows, rid, hs[1..][i]) {
          assert LinkTo(l[0 + (i + 1)], rows, rid, hs[i + 1]);
        }
      }
      HashPairsOfNew(l[1..], rows, rid, hs[1..]);
    }
  }

  /** What `responses_load` reads back for a response is what
      `response_store_hashes` stored for it, when the response had no links yet. */
  lemma StoreThenLoad(rows: seq<HashRow>, links: seq<Link>, rid: nat, hs: seq<(string, seq<byte>)>)
    requires UniqueHashes(rows) && HashIds(rows)
    requires forall l :: l in links ==> l.responseId != rid
    ensures HashPairs(StoreHashes(rows, links, rid, hs).1, StoreHashes(rows, links, rid, hs).0, rid) == hs
  {
    StoreHashesSpec(rows, links, rid, hs);
    var res := StoreHashes(rows, links, rid, hs);
    var r, l := res.0, res.1;
    var added := l[|links|..];
    assert l == links + added;
    assert LinksMatch(added, 0, r, rid, hs) by {
      forall i | 0 <= i < |hs| ensures LinkTo(added[0 + i], r, rid, hs[i]) {
        assert added[i] == l[|links| + i];
      }
    }
    HashPairsConcat(links, added, r, rid);
    HashPairsNone(links, r, rid);
    HashPairsOfNew(added, r, rid, hs);
  }

  // ---------------------------------------------------------------------
  // The tables and the steps that write them
  // ---------------------------------------------------------------------

  /** Every link names an existing response and an existing hash row. */
  ghost predicate LinksIn(links: seq<Link>, nResponses: nat, nHashes: nat) {
    forall l :: l in links ==> 1 <= l.responseId <= nResponses && 1 <= l.hashId <= nHashes
  }

  lemma LinksGrow(links: seq<Link>, x: Link, nResponses: nat, nHashes: nat, nHashes': nat)
    requires LinksIn(links, nResponses, nHashes) && nHashes <= nHashes'
    requires 1 <= x.responseId <= nResponses && 1 <= x.hashId <= nHashes'
    ensures LinksIn(links + [x], nResponses, nHashes')
  {
  }

  class Db {
    var requests: seq<Request>
    var responses: seq<Response>
    var hashes: seq<HashRow>
    var links: seq<Link>
    /** `cur_req_id`: the largest request id handed out to a worker. */
    var curReqId: nat

    /** Ids are row numbers, every reference names an existing row, the hash
        pairs are unique and the watermark names a request. */
    ghost predicate Valid()
      reads this
    {
      && RequestIds(requests) && ResponseIds(responses) && HashIds(hashes)
      && UniqueHashes(hashes)
      && Answers(responses, requests)
      && LinksIn(links, |responses|, |hashes|)
      && curReqId <= |requests|
    }

    constructor()
      ensures Valid()
      ensures requests == [] && responses == [] && hashes == [] && links == [] && curReqId == 0
    {
      requests := [];
      responses := [];
      hashes := [];
      links := [];
      curReqId := 0;
    }

    /** `request_bump(db, url)`: classify the URL's latest request and append a
        new request at `now` exactly when it is outdated and not pending; the
        result is the `outdated` flag. */
    method RequestBump(url: string, now: int) returns (outdated: bool)
      requires Valid()
      modifies this
      ensures Valid()
      ensures var f := Classify(LatestAnswer(old(requests), old(responses), url), now);
        && outdated == f.outdated
        && requests == old(requests) + (if Enqueues(f) then [Request(|old(requests)| + 1, url, now)] else [])
      ensures responses == old(responses) && hashes == old(hashes) && links == old(links)
      ensures curReqId == old(curReqId)
    {
      var f := Classify(LatestAnswer(requests, responses, url), now);
      if f.outdated && !f.pending {
        requests := requests + [Request(|requests| + 1, url, now)];
        outdated := true;
      } else {
        outdated := f.outdated;
      }
    }

    /** `request_load_one`: the oldest unanswered request above the watermark,
        which then moves up to its id; nothing and no change when there is none. */
    method RequestLoadOne() returns (r: Option<Request>)
      requires Valid()
      modifies this
      ensures Valid()
      ensures r == NextUnanswered(old(requests), old(responses), old(curReqId))
      ensures r.Some? ==> curReqId == r.value.id > old(curReqId)
      ensures r.None? ==> curReqId == old(curReqId)
      ensures requests == old(requests) && responses == old(responses)
      ensures hashes == old(hashes) && links == old(links)
    {
      r := NextUnanswered(requests, responses, curReqId);
      if r.Some? {
        var k :| 0 <= k < |requests| && requests[k] == r.value;
        curReqId := r.value.id;
      }
    }

    /** `response_store_hashes(db, rid, hashes)` */
    method StoreHashesFor(rid: nat, hs: seq<(string, seq<byte>)>)
      requires Valid() && 1 <= rid <= |responses|
      modifies this
      ensures Valid()
      ensures (hashes, links) == StoreHashes(old(hashes), old(links), rid, hs)
      ensures requests == old(requests) && responses == old(responses) && curReqId == old(curReqId)
    {
      var i := 0;
      while i < |hs|
        invariant 0 <= i <= |hs|
        invariant Valid()
        invariant requests == old(requests) && responses == old(responses) && curReqId == old(curReqId)
        invariant StoreHashes(hashes, links, rid, hs[i..]) == StoreHashes(old(hashes), old(links), rid, hs)
      {
        var algo, data := hs[i].0, hs[i].1;
        ghost var rows0 := hashes;
        InsertKeepsUnique(hashes, algo, data);
        if FindHash(hashes, algo, data).None? {
          hashes := hashes + [HashRow(|hashes| + 1, algo, data)];
        }
        assert hashes == InsertOrIgnore(rows0, algo, data);
        var h := FindHash(hashes, algo, data).value;
        LinksGrow(links, Link(rid, h.id), |responses|, |rows0|, |hashes|);
        links := links + [Link(rid, h.id)];
        assert hs[i..][1..] == hs[i + 1..];
        i := i + 1;
      }
    }

    /** `response_store(db, req, res)`: append the response to request `reqId`,
        then store its digests. */
    method ResponseStore(reqId: nat, res: Stat)
      requires Valid() && 1 <= reqId <= |requests|
      modifies this
      ensures Valid()
      ensures responses == old(responses) + [Response(
        |old(responses)| + 1, reqId, res.status, res.time,
        res.contentType, res.etag, res.lastModified, res.date)]
      ensures (hashes, links) == StoreHashes(old(hashes), old(links), |old(responses)| + 1, res.hashes)
      ensures requests == old(requests) && curReqId == old(curReqId)
    {
      var rid := |responses| + 1;
      responses := responses + [Response(rid, reqId, res.status, res.time,
        res.contentType, res.etag, res.lastModified, res.date)];
      StoreHashesFor(rid, res.hashes);
    }

    /** `responses_load(db, url)`: the URL's history, each response with the
        object of its digests, algorithm to digest, filled link by link. */
    method ResponsesLoad(url: string) returns (out: seq<(Response, map<string, seq<byte>>)>)
      ensures |out| == |History(requests, responses, url)|
      ensures forall i :: 0 <= i < |out| ==>
        out[i].0 == History(requests, responses, url)[i]
        && out[i].1 == Table(HashPairs(links, hashes, out[i].0.id))
    {
      var rows := History(requests, responses, url);
      out := [];
      var i := 0;
      while i < |rows|
        invariant 0 <= i <= |rows| && |out| == i
        invariant forall k :: 0 <= k < i ==>
          out[k].0 == rows[k] && out[k].1 == Table(HashPairs(links, hashes, rows[k].id))
      {
        var pairs := HashPairs(links, hashes, rows[i].id);
        var obj: map<string, seq<byte>> := map[];
        var j := 0;
        while j < |pairs|
          invariant 0 <= j <= |pairs|
          invariant obj == Table(pairs[..j])
        {
          assert pairs[..j + 1][..j] == pairs[..j];
          obj := obj[pairs[j].0 := pairs[j].1];
          j := j + 1;
        }
        assert pairs[..|pairs|] == pairs;
        out := out + [(rows[i], obj)];
        i := i + 1;
      }
    }
  }

  /** After `response_store`, loading the response back gives exactly the
      digests it was stored with, when their algorithms are distinct. */
  lemma StoredDigestsReadBack(rows: seq<HashRow>, links: seq<Link>, rid: nat, hs: seq<(string, seq<byte>)>, i: nat)
    requires UniqueHashes(rows) && HashIds(rows)
    requires forall l :: l in links ==> l.responseId != rid
    requires DistinctKeys(hs) && i < |hs|
    ensures var res := StoreHashes(rows, links, rid, hs);
      hs[i].0 in Table(HashPairs(res.1, res.0, rid)) && Table(HashPairs(res.1, res.0, rid))[hs[i].0] == hs[i].1
  {
    StoreThenLoad(rows, links, rid, hs);
    TableAt(hs, i);
  }
}
