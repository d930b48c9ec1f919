/** `get_player_info`: every roster entry's profile page is requested in
    order; a page answered with 200 is parsed and its record kept. The
    crawl can be stopped with Ctrl-C: the records kept so far are then
    written out (twice, once by the handler and once after it), while an
    exception that escapes the loop ends the crawl with nothing written. */
module DetailCrawl {
  import opened Wrappers
  import opened Seqs
  import opened Dom
  import opened Roster
  import opened PlayerParser

  /** How the crawl's loop ends: it runs to the end, or a `KeyboardInterrupt`
      arrives once `k` entries have been handled (an interrupt during the
      request, the parse or the pause of entry `k` leaves the first `k`). */
  datatype Run = Completes | InterruptedAfter(k: nat)

  /** How many of `n` entries a run handles. */
  function Handled(run: Run, n: nat): (m: nat)
    ensures m <= n
    ensures run.Completes? ==> m == n
    ensures run.InterruptedAfter? ==> m == if run.k < n then run.k else n
  {
    match run
    case Completes => n
    case InterruptedAfter(k) => if k < n then k else n
  }

  /** The records gathered from the first `n` entries, with `parse` as the
      page parser: an entry without a profile URL raises `KeyError`; a page
      answered with 200 is parsed (and a parse that raises ends the crawl),
      any other status adds nothing. */
  function Gathered(stubs: seq<Stub>, fetch: string -> Response<PlayerPage>, parse: PlayerPage -> Result<PlayerRecord, Crash>, n: nat): (r: Result<seq<PlayerRecord>, Crash>)
    requires n <= |stubs|
    ensures r.Success? ==> |r.value| <= n
  {
    if n == 0 then Success([])
    else
      var before :- Gathered(stubs, fetch, parse, n - 1);
      match stubs[n - 1].profileUrl
      case None => Failure(MissingProfileUrl)
      case Some(url) =>
        var response := fetch(url);
        if response.status == 200 then
          var record :- parse(response.page);
          Success(before + [record])
        else Success(before)
  }

  /** One more linked entry: the crawl so far, then that entry's page parsed if answered with 200. */
  lemma GatheredStep(stubs: seq<Stub>, fetch: string -> Response<PlayerPage>, parse: PlayerPage -> Result<PlayerRecord, Crash>, n: nat)
    requires 0 < n <= |stubs| && stubs[n - 1].profileUrl.Some?
    ensures var response := fetch(stubs[n - 1].profileUrl.value);
      Gathered(stubs, fetch, parse, n) ==
        match Gathered(stubs, fetch, parse, n - 1)
        case Failure(e) => Failure(e)
        case Success(before) =>
          if response.status != 200 then Success(before)
          else (match parse(response.page) case Failure(e) => Failure(e) case Success(r) => Success(before + [r]))
  {
  }

  /** Every entry has a profile URL. */
  predicate AllLinked(stubs: seq<Stub>) {
    forall i :: 0 <= i < |stubs| ==> stubs[i].profileUrl.Some?
  }

  /** The pages answered with 200, in entry order. */
  function OkPages(stubs: seq<Stub>, fetch: string -> Response<PlayerPage>): (pages: seq<PlayerPage>)
    requires AllLinked(stubs)
    ensures |pages| <= |stubs|
  {
    if stubs == [] then []
    else
      var init := stubs[..|stubs| - 1];
      assert AllLinked(init) by { assert forall i :: 0 <= i < |init| ==> init[i] == stubs[i]; }
      var response := fetch(stubs[|stubs| - 1].profileUrl.value);
      OkPages(init, fetch) + (if response.status == 200 then [response.page] else [])
  }

  /** The pages of the first `n` entries are those of the first `n - 1`, then the last one's if answered with 200. */
  lemma OkPagesStep(stubs: seq<Stub>, fetch: string -> Response<PlayerPage>, n: nat)
    requires 0 < n <= |stubs| && AllLinked(stubs[..n])
    ensures AllLinked(stubs[..n - 1])
    ensures var response := fetch(stubs[n - 1].profileUrl.value);
      OkPages(stubs[..n], fetch) == OkPages(stubs[..n - 1], fetch) + (if response.status == 200 then [response.page] else [])
  {
    var prefix := stubs[..n];
    assert prefix[..n - 1] == stubs[..n - 1];
    assert prefix[n - 1] == stubs[n - 1];
  }

  /** With every entry linked, the crawl is the parse of each page answered
      with 200, in order, the first page that fails to parse deciding the
      exception. */
  lemma {:induction false} GatheredParsesOkPages(stubs: seq<Stub>, fetch: string -> Response<PlayerPage>, parse: PlayerPage -> Result<PlayerRecord, Crash>, n: nat)
    requires n <= |stubs| && AllLinked(stubs[..n])
    ensures Gathered(stubs, fetch, parse, n) == MapResult(OkPages(stubs[..n], fetch), parse)
  {
    if n > 0 {
      OkPagesStep(stubs, fetch, n);
      GatheredParsesOkPages(stubs, fetch, parse, n - 1);
      var pages := OkPages(stubs[..n - 1], fetch);
      var response := fetch(stubs[n - 1].profileUrl.value);
      assert stubs[..n][n - 1] == stubs[n - 1];
      GatheredStep(stubs, fetch, parse, n);
      if response.status == 200 {
        MapResultAppend(pages, response.page, parse);
        assert OkPages(stubs[..n], fetch) == pages + [response.page];
        assert Gathered(stubs, fetch, parse, n - 1) == MapResult(pages, parse);
        assert Gathered(stubs, fetch, parse, n) == MapResult(pages + [response.page], parse);
      } else {
        assert OkPages(stubs[..n], fetch) == pages;
        assert Gathered(stubs, fetch, parse, n) == Gathered(stubs, fetch, parse, n - 1);
      }
    } else {
      assert stubs[..n] == [];
    }
  }

  /** An entry without a profile URL among the handled ones makes the crawl raise. */
  lemma UnlinkedEntryRaises(stubs: seq<Stub>, fetch: string -> Response<PlayerPage>, parse: PlayerPage -> Result<PlayerRecord, Crash>, j: nat, n: nat)
    requires j < n <= |stubs| && stubs[j].profileUrl.None?
    ensures Gathered(stubs, fetch, parse, n).Failure?
  {
    assert Gathered(stubs, fetch, parse, j + 1).Failure?;
    GatheredFailurePersists(stubs, fetch, parse, j + 1, n);
  }

  /** Once the first `m` entries raise, so do the first `n`, with the same exception. */
  lemma {:induction false} GatheredFailurePersists(stubs: seq<Stub>, fetch: string -> Response<PlayerPage>, parse: PlayerPage -> Result<PlayerRecord, Crash>, m: nat, n: nat)
    requires m <= n <= |stubs|
    requires Gathered(stubs, fetch, parse, m).Failure?
    ensures Gathered(stubs, fetch, parse, n) == Gathered(stubs, fetch, parse, m)
    decreases n - m
  {
    if m < n {
      GatheredFailurePersists(stubs, fetch, parse, m + 1, n);
    }
  }

  /** What an interrupted crawl keeps is a prefix of what the full crawl
      gathers, and an interrupted crawl cannot raise where the full one succeeds. */
  lemma {:induction false} GatheredPrefix(stubs: seq<Stub>, fetch: string -> Response<PlayerPage>, parse: PlayerPage -> Result<PlayerRecord, Crash>, m: nat, n: nat)
    requires m <= n <= |stubs|
    requires Gathered(stubs, fetch, parse, n).Success?
    ensures Gathered(stubs, fetch, parse, m).Success?
    ensures Gathered(stubs, fetch, parse, m).value <= Gathered(stubs, fetch, parse, n).value
    decreases n - m
  {
    if Gathered(stubs, fetch, parse, m).Failure? {
      GatheredFailurePersists(stubs, fetch, parse, m, n);
    } else if m < n {
      GatheredPrefix(stubs, fetch, parse, m + 1, n);
    }
  }

  /** `get_player_info`: the outcome of the loop over the entries the run
      handles, and the contents written to the detail file, in order of
      writing: none when an exception escapes, the records once when the
      loop completes, and twice when it is interrupted. */
  method CrawlDetails(stubs: seq<Stub>, fetch: string -> Response<PlayerPage>, run: Run)
    returns (outcome: Result<seq<PlayerRecord>, Crash>, writes: seq<seq<PlayerRecord>>)
    ensures outcome == Gathered(stubs, fetch, ParsePage, Handled(run, |stubs|))
    ensures outcome.Failure? ==> writes == []
    ensures outcome.Success? && run.Completes? ==> writes == [outcome.value]
    ensures outcome.Success? && run.InterruptedAfter? ==> writes == [outcome.value, outcome.value]
  {
    outcome := CollectRecords(stubs, fetch, Handled(run, |stubs|));
    if outcome.Failure? {
      return outcome, [];
    }
    var res := outcome.value;
    writes := [];
    if run.InterruptedAfter? {
      writes := writes + [res];
    }
    writes := writes + [res];
  }

  /** The loop of `get_player_info` over the first `stop` entries: request
      each profile page, parse a page answered with 200 and append its record. */
  method CollectRecords(stubs: seq<Stub>, fetch: string -> Response<PlayerPage>, stop: nat)
    returns (outcome: Result<seq<PlayerRecord>, Crash>)
    requires stop <= |stubs|
    ensures outcome == Gathered(stubs, fetch, ParsePage, stop)
  {
    var res: seq<PlayerRecord> := [];
    for i := 0 to stop
      invariant Gathered(stubs, fetch, ParsePage, i) == Success(res)
    {
      var url := stubs[i].profileUrl;
      if url.None? {
        assert Gathered(stubs, fetch, ParsePage, i + 1) == Failure(MissingProfileUrl);
        GatheredFailurePersists(stubs, fetch, ParsePage, i + 1, stop);
        return Failure(MissingProfileUrl);
      }
      var response := fetch(url.value);
      if response.status == 200 {
        var record := ParsePlayerPage(response.page);
        if record.Failure? {
          assert Gathered(stubs, fetch, ParsePage, i + 1) == Failure(record.error) by {
            GatheredStep(stubs, fetch, ParsePage, i + 1);
          }
          GatheredFailurePersists(stubs, fetch, ParsePage, i + 1, stop);
          return Failure(record.error);
        }
        assert Gathered(stubs, fetch, ParsePage, i + 1) == Success(res + [record.value]) by {
          GatheredStep(stubs, fetch, ParsePage, i + 1);
        }
        res := res + [record.value];
      } else {
        assert Gathered(stubs, fetch, ParsePage, i + 1) == Success(res) by {
          GatheredStep(stubs, fetch, ParsePage, i + 1);
        }
      }
    }
    outcome := Success(res);
  }
}
