/** The crawl of one URL in index.js (`url_check_and_stat`, `url_stat`,
    `url_check_robots_txt`) and the turning of a failed crawl into a stored
    response (`request_error`). The network, the robots.txt parser and the
    digest functions are parameters: `robots` gives what fetching and parsing
    a URL's robots.txt yields, `fetch` the reply to the GET of a URL, `digest`
    the digest of a body under an algorithm, and `now` the clock. URL parsing
    happens inside these oracles. */
module Crawl {
  import opened Wrappers
  import opened Bytes
  import opened Archive
  import opened Dict

  /** The error numbers of errno.js, which is not part of this model: distinct
      negative numbers, apart from every HTTP status. */
  const ERR_UNKNOWN: int := -1
  const ERR_NOTFOUND: int := -2
  const ERR_CONNREFUSED: int := -3
  const ERR_REDIRECT: int := -4
  const ERR_BLOCKED: int := -5

  /** The `errno` property of an error: a number, a string (a Node error code) or absent. */
  datatype Errno = Code(n: int) | Name(s: string) | NoErrno

  /** The result of the robots.txt check: a status other than 200, a body the
      parser finds the URL fetchable in or not, or a failed request or stream. */
  datatype RobotsReply = RobotsNotOk | RobotsText(fetchable: bool) | RobotsFailed(err: Errno)

  /** The reply to a GET: status, `location` and the stored headers, and the
      body; or a failed request or stream. */
  datatype HttpReply =
    | HttpReply(status: int, location: Option<string>,
                contentType: Option<string>, etag: Option<string>,
                lastModified: Option<string>, date: Option<string>,
                body: seq<byte>)
    | HttpFailed(err: Errno)

  datatype Outcome = Fetched(stat: Stat) | Failed(err: Errno)

  /** A crawl's outcome with the URLs whose robots.txt was fetched and the URLs
      fetched themselves, in order. */
  datatype Trace = Trace(outcome: Outcome, robots: seq<string>, gets: seq<string>)

  /** The algorithms `url_stat` digests every body with, in key order. */
  const Algorithms: seq<string> := ["md5", "sha1", "sha256", "sha384", "sha512"]

  /** `url_check_robots_txt`: `None` to go on, or the error the crawl fails with. */
  function RobotsGate(r: RobotsReply): (e: Option<Errno>)
    ensures e.None? <==> r.RobotsNotOk? || (r.RobotsText? && r.fetchable)
    ensures r.RobotsText? && !r.fetchable ==> e == Some(Code(ERR_BLOCKED))
  {
    match r
    case RobotsNotOk => None
    case RobotsText(ok) => if ok then None else Some(Code(ERR_BLOCKED))
    case RobotsFailed(err) => Some(err)
  }

  /** The `hashes` object of `url_stat`: one digest of the body per algorithm,
      as entries in the order the object is filled. Its keys are distinct, so
      the object holds exactly the five algorithms, each with its digest. */
  function Digests(body: seq<byte>, digest: (string, seq<byte>) -> seq<byte>): (hs: seq<(string, seq<byte>)>)
    ensures DistinctKeys(hs)
    ensures Table(hs).Keys == set a | a in Algorithms
    ensures forall a :: a in Table(hs) ==> Table(hs)[a] == digest(a, body)
  {
    var hs := seq(|Algorithms|, i requires 0 <= i < |Algorithms| => (Algorithms[i], digest(Algorithms[i], body)));
    AlgorithmsDistinct();
    DigestsTable(Algorithms, a => digest(a, body), hs);
    hs
  }

  /** No algorithm is listed twice. */
  lemma AlgorithmsDistinct()
    ensures forall i, j :: 0 <= i < j < |Algorithms| ==> Algorithms[i] != Algorithms[j]
  {
    assert Algorithms[0][0] != Algorithms[1][0];
    assert forall j :: 1 < j < 5 ==> Algorithms[0][0] != Algorithms[j][0];
    assert |Algorithms[1]| != |Algorithms[2]| && |Algorithms[1]| != |Algorithms[3]| && |Algorithms[1]| != |Algorithms[4]|;
    assert Algorithms[2][3] != Algorithms[3][3] && Algorithms[2][3] != Algorithms[4][3] && Algorithms[3][3] != Algorithms[4][3];
  }

  /** The object filled from one entry per key of `ks`, the entry for `k`
      holding `f(k)`: with distinct keys it maps exactly the keys of `ks`,
      each to its value. */
  lemma DigestsTable(ks: seq<string>, f: string -> seq<byte>, hs: seq<(string, seq<byte>)>)
    requires forall i, j :: 0 <= i < j < |ks| ==> ks[i] != ks[j]
    requires |hs| == |ks| && forall i :: 0 <= i < |hs| ==> hs[i] == (ks[i], f(ks[i]))
    ensures DistinctKeys(hs)
    ensures Table(hs).Keys == set a | a in ks
    ensures forall a :: a in Table(hs) ==> Table(hs)[a] == f(a)
  {
    assert DistinctKeys(hs);
    TableKeys(hs);
    forall a | a in Table(hs) ensures a in ks && Table(hs)[a] == f(a) {
      var i :| 0 <= i < |hs| && hs[i].0 == a;
      TableAt(hs, i);
    }
  }

  /** Whether `url_stat` follows a reply: a 3xx status with a `location` header. */
  predicate IsRedirect(r: HttpReply) {
    r.HttpReply? && 300 <= r.status < 400 && r.location.Some?
  }

  /** `url_check_and_stat(url, count)`: refuse after five hops, check robots.txt,
      then GET the URL; follow a redirect with the count one higher, or digest
      the body. */
  function CheckAndStat(url: string, count: nat, robots: string -> RobotsReply,
                        fetch: string -> HttpReply, digest: (string, seq<byte>) -> seq<byte>,
                        now: int): Trace
    decreases 5 - count
  {
    if count >= 5 then Trace(Failed(Code(ERR_REDIRECT)), [], [])
    else match RobotsGate(robots(url))
      case Some(e) => Trace(Failed(e), [url], [])
      case None =>
        var reply := fetch(url);
        if reply.HttpFailed? then Trace(Failed(reply.err), [url], [url])
        else if IsRedirect(reply) then
          var t := CheckAndStat(reply.location.value, count + 1, robots, fetch, digest, now);
          Trace(t.outcome, [url] + t.robots, [url] + t.gets)
        else
          Trace(Fetched(Stat(Some(reply.status), now, reply.contentType, reply.etag,
                             reply.lastModified, reply.date, Digests(reply.body, digest))),
                [url], [url])
  }

  /** With five hops made the crawl fails with `ERR_REDIRECT` and sends nothing. */
  lemma TooManyRedirects(url: string, count: nat, robots: string -> RobotsReply,
                         fetch: string -> HttpReply, digest: (string, seq<byte>) -> seq<byte>, now: int)
    requires count >= 5
    ensures CheckAndStat(url, count, robots, fetch, digest, now) == Trace(Failed(Code(ERR_REDIRECT)), [], [])
  {
  }

  /** A robots.txt error or refusal ends the crawl before the URL is fetched. */
  lemma RobotsStopsCrawl(url: string, count: nat, robots: string -> RobotsReply,
                         fetch: string -> HttpReply, digest: (string, seq<byte>) -> seq<byte>, now: int)
    requires count < 5 && RobotsGate(robots(url)).Some?
    ensures var t := CheckAndStat(url, count, robots, fetch, digest, now);
      t.outcome == Failed(RobotsGate(robots(url)).value) && t.gets == [] && t.robots == [url]
    ensures robots(url).RobotsText? ==>
      CheckAndStat(url, count, robots, fetch, digest, now).outcome == Failed(Code(ERR_BLOCKED))
  {
  }

  /** A crawl started at hop `count` sends at most `5 - count` GETs; every URL
      it fetches passed its robots.txt check first, and a crawl that fetched
      something ends with the last URL fetched. */
  lemma {:induction false} CrawlBounds(url: string, count: nat, robots: string -> RobotsReply,
                                       fetch: string -> HttpReply, digest: (string, seq<byte>) -> seq<byte>, now: int)
    ensures var t := CheckAndStat(url, count, robots, fetch, digest, now);
      && |t.gets| <= 5 && (count <= 5 ==> |t.gets| <= 5 - count)
      && |t.gets| <= |t.robots| <= |t.gets| + 1
      && (forall i :: 0 <= i < |t.gets| ==> t.gets[i] == t.robots[i] && RobotsGate(robots(t.gets[i])).None?)
      && (t.outcome.Fetched? ==> t.gets != [] && !IsRedirect(fetch(t.gets[|t.gets| - 1])))
    decreases 5 - count
  {
    if count < 5 && RobotsGate(robots(url)).None? {
      var reply := fetch(url);
      if reply.HttpReply? && IsRedirect(reply) {
        CrawlBounds(reply.location.value, count + 1, robots, fetch, digest, now);
        var t := CheckAndStat(reply.location.value, count + 1, robots, fetch, digest, now);
        var u := CheckAndStat(url, count, robots, fetch, digest, now);
        assert u.gets == [url] + t.gets && u.robots == [url] + t.robots;
        forall i | 0 <= i < |u.gets| ensures u.gets[i] == u.robots[i] && RobotsGate(robots(u.gets[i])).None? {
          if i > 0 {
            assert u.gets[i] == t.gets[i - 1] && u.robots[i] == t.robots[i - 1];
          }
        }
      }
    }
  }

  /** A chain of URLs, each allowed by robots.txt, each but the last answered
      by a redirect to the next, the last by a reply that is not a redirect. */
  ghost predicate RedirectChain(chain: seq<string>, robots: string -> RobotsReply, fetch: string -> HttpReply) {
    && chain != []
    && (forall i :: 0 <= i < |chain| ==> RobotsGate(robots(chain[i])).None?)
    && (forall i :: 0 <= i < |chain| - 1 ==>
          IsRedirect(fetch(chain[i])) && fetch(chain[i]).location.value == chain[i + 1])
    && fetch(chain[|chain| - 1]).HttpReply? && !IsRedirect(fetch(chain[|chain| - 1]))
  }

  lemma {:induction false} ChainFrom(chain: seq<string>, i: nat, count: nat, robots: string -> RobotsReply,
                                     fetch: string -> HttpReply, digest: (string, seq<byte>) -> seq<byte>, now: int)
    requires RedirectChain(chain, robots, fetch) && i < |chain|
    ensures var t := CheckAndStat(chain[i], count, robots, fetch, digest, now);
      && (count + (|chain| - 1 - i) < 5 ==> t.outcome.Fetched? && t.gets == chain[i..])
      && (count + (|chain| - 1 - i) >= 5 ==> t.outcome == Failed(Code(ERR_REDIRECT)))
    decreases |chain| - i
  {
    if count < 5 && i < |chain| - 1 {
      ChainFrom(chain, i + 1, count + 1, robots, fetch, digest, now);
      assert chain[i..] == [chain[i]] + chain[i + 1..];
    } else if count < 5 {
      assert chain[i..] == [chain[i]];
    }
  }

  /** From a fresh crawl, a chain of up to four redirects is followed to its
      end, and a chain of five or more fails with `ERR_REDIRECT`. */
  lemma RedirectLimit(chain: seq<string>, robots: string -> RobotsReply,
                      fetch: string -> HttpReply, digest: (string, seq<byte>) -> seq<byte>, now: int)
    requires RedirectChain(chain, robots, fetch)
    ensures var t := CheckAndStat(chain[0], 0, robots, fetch, digest, now);
      && (|chain| - 1 <= 4 ==> t.outcome.Fetched? && t.gets == chain)
      && (|chain| - 1 >= 5 ==> t.outcome == Failed(Code(ERR_REDIRECT)))
  {
    ChainFrom(chain, 0, 0, robots, fetch, digest, now);
    assert chain[0..] == chain;
  }

  /** `request_error(req, err)`: the errno becomes the status, Node's string
      codes mapped to error numbers, and the response has no headers or digests. */
  function RequestError(err: Errno, now: int): (r: Stat)
    ensures r.time == now && r.hashes == []
    ensures r.contentType.None? && r.etag.None? && r.lastModified.None? && r.date.None?
    ensures r.status.None? <==> err.NoErrno?
    ensures err.Code? ==> r.status == Some(err.n)
    ensures err.Name? ==> r.status.Some? && r.status.value < 0
    ensures err.Name? ==>
      (r.status == Some(ERR_NOTFOUND) <==> err.s == "ENOTFOUND")
      && (r.status == Some(ERR_CONNREFUSED) <==> err.s == "ECONNREFUSED")
      && (r.status == Some(ERR_UNKNOWN) <==> err.s != "ENOTFOUND" && err.s != "ECONNREFUSED")
  {
    var status :=
      match err
      case Code(n) => Some(n)
      case NoErrno => None
      case Name(s) =>
        if s == "ENOTFOUND" then Some(ERR_NOTFOUND)
        else if s == "ECONNREFUSED" then Some(ERR_CONNREFUSED)
        else Some(ERR_UNKNOWN);
    Stat(status, now, None, None, None, None, [])
  }

  /** The worker's `if(err) res = request_error(req, err)`: what a crawl leaves to store. */
  function Settle(o: Outcome, now: int): Stat {
    match o
    case Fetched(s) => s
    case Failed(e) => RequestError(e, now)
  }

  /** What a crawl stores: its digests are the five algorithms over the last
      body fetched, or none at all when it failed; a failure because of a
      robots refusal or too many hops is stored with that error number. */
  lemma SettledCrawl(url: string, count: nat, robots: string -> RobotsReply,
                     fetch: string -> HttpReply, digest: (string, seq<byte>) -> seq<byte>, now: int)
    ensures var t := CheckAndStat(url, count, robots, fetch, digest, now);
      var s := Settle(t.outcome, now);
      && (t.outcome.Failed? ==> s.hashes == [])
      && (t.outcome.Fetched? ==>
            && t.gets != [] && fetch(t.gets[|t.gets| - 1]).HttpReply?
            && s.hashes == Digests(fetch(t.gets[|t.gets| - 1]).body, digest)
            && s.status == Some(fetch(t.gets[|t.gets| - 1]).status))
      && (t.outcome == Failed(Code(ERR_REDIRECT)) ==> s.status == Some(ERR_REDIRECT))
      && (t.outcome == Failed(Code(ERR_BLOCKED)) ==> s.status == Some(ERR_BLOCKED))
  {
    CrawlFinal(url, count, robots, fetch, digest, now);
  }

  lemma {:induction false} CrawlFinal(url: string, count: nat, robots: string -> RobotsReply,
                                      fetch: string -> HttpReply, digest: (string, seq<byte>) -> seq<byte>, now: int)
    ensures var t := CheckAndStat(url, count, robots, fetch, digest, now);
      t.outcome.Fetched? ==>
        && t.gets != [] && fetch(t.gets[|t.gets| - 1]).HttpReply?
        && t.outcome.stat.hashes == Digests(fetch(t.gets[|t.gets| - 1]).body, digest)
        && t.outcome.stat.status == Some(fetch(t.gets[|t.gets| - 1]).status)
        && t.outcome.stat.time == now
    decreases 5 - count
  {
    if count < 5 && RobotsGate(robots(url)).None? {
      var reply := fetch(url);
      if reply.HttpReply? && IsRedirect(reply) {
        CrawlFinal(reply.location.value, count + 1, robots, fetch, digest, now);
      }
    }
  }
}
