/**
 The pagination loop. The message server is a finite script: the k-th
 request is answered by the k-th response. The first request is anchored
 at "newest" and includes its anchor; after a page that is not the oldest,
 the request is re-anchored at that page's first message and excludes its
 anchor. The loop ends after the first page that reports `foundOldest`,
 whose rows are still written.
 */
module Pagination {
  import opened Failures
  import opened Narrow
  import opened UserNames
  import opened Flatten

  datatype Anchor = Newest | AtMessage(id: int)

  datatype Request = Request(
    anchor: Anchor,
    numBefore: int,
    numAfter: int,
    includeAnchor: bool,
    narrow: seq<Clause>)

  /** One answer of the server: a page of messages and whether it reaches the oldest match. */
  datatype Response = Response(messages: seq<Message>, foundOldest: bool)

  /**
   Everything a run leaves behind: the requests it sent, the rows it wrote,
   the progress counts it reported, its processed-message counter, the
   user-name cache and the failure that ended it, if one did.
   */
  datatype Run = Run(
    requests: seq<Request>,
    rows: seq<Row>,
    progress: seq<nat>,
    processed: nat,
    cache: Cache,
    failure: Option<Error>)

  /** The first request: the `chunkSize` newest matching messages, the anchor included. */
  function InitialRequest(chunkSize: int, narrow: seq<Clause>): Request {
    Request(Newest, chunkSize, 0, true, narrow)
  }

  /**
   The request after `page`: anchored at the id of the page's first message,
   anchor excluded, everything else kept. A page without messages has no
   anchor to offer.
   */
  function NextRequest(req: Request, page: Response): (r: Result<Request>)
    ensures r.Err? <==> page.messages == []
    ensures r.Err? ==> r.error == EmptyPageBeforeOldest
    ensures r.Ok? ==> && r.value.anchor == AtMessage(page.messages[0].id)
                      && !r.value.includeAnchor
                      && r.value.numBefore == req.numBefore
                      && r.value.numAfter == req.numAfter
                      && r.value.narrow == req.narrow
  {
    if page.messages == [] then Err(EmptyPageBeforeOldest)
    else Ok(req.(includeAnchor := false, anchor := AtMessage(page.messages[0].id)))
  }

  /** The number of messages on `pages`, reactions or not. */
  function MessageCount(pages: seq<Response>): nat {
    if pages == [] then 0 else MessageCount(pages[..|pages| - 1]) + |pages[|pages| - 1].messages|
  }

  predicate PagesResolvable(streams: Streams, users: Directory, pages: seq<Response>) {
    forall k :: 0 <= k < |pages| ==> Resolvable(streams, users, pages[k].messages)
  }

  /** The rows of `pages`, page after page, each page as its reference rows. */
  function AllRows(streams: Streams, users: Directory, pages: seq<Response>): seq<Row>
    requires PagesResolvable(streams, users, pages)
  {
    if pages == [] then []
    else AllRows(streams, users, pages[..|pages| - 1]) + PageRows(streams, users, pages[|pages| - 1].messages)
  }

  /** The users that reacted to some message on `pages`. */
  function PageReactors(pages: seq<Response>): set<int> {
    if pages == [] then {} else PageReactors(pages[..|pages| - 1]) + Reactors(pages[|pages| - 1].messages)
  }

  /** The loop could move past each of the first `n` pages: none is the oldest and each has a message. */
  predicate Advanced(script: seq<Response>, n: nat)
    requires n <= |script|
  {
    forall k :: 0 <= k < n ==> !script[k].foundOldest && script[k].messages != []
  }

  /**
   A clean run over `script` fetches exactly `n` pages: page `n - 1` is the
   first to report the oldest, every page before it can be moved past, and
   no page up to it names an unknown stream or reactor.
   */
  predicate Completes(streams: Streams, users: Directory, script: seq<Response>, n: nat) {
    && 0 < n <= |script|
    && script[n - 1].foundOldest
    && Advanced(script, n - 1)
    && PagesResolvable(streams, users, script[..n])
  }

  /** A script is cleanly completed at one length at most. */
  lemma CompletesUnique(streams: Streams, users: Directory, script: seq<Response>, n: nat, m: nat)
    requires Completes(streams, users, script, n) && Completes(streams, users, script, m)
    ensures n == m
  {
  }

  /**
   A run that has moved past the first `k` pages and then cannot go on
   past page `k` (the script ends, or the page is unresolvable, or it is an
   empty page that is not the oldest) completes at no length at all.
   */
  lemma NeverCompletes(streams: Streams, users: Directory, script: seq<Response>, k: nat)
    requires k <= |script| && Advanced(script, k)
    requires || k == |script|
             || !Resolvable(streams, users, script[k].messages)
             || (!script[k].foundOldest && script[k].messages == [])
    ensures forall n :: !Completes(streams, users, script, n)
  {
    forall n: nat | Completes(streams, users, script, n) ensures false {
    }
  }

  /** The rows of a cleanly completed script are those of the pages before the last, then those of the last. */
  lemma CompletesLast(streams: Streams, users: Directory, script: seq<Response>, n: nat)
    requires Completes(streams, users, script, n)
    ensures Resolvable(streams, users, script[n - 1].messages)
    ensures PagesResolvable(streams, users, script[..n - 1])
    ensures AllRows(streams, users, script[..n])
            == AllRows(streams, users, script[..n - 1]) + PageRows(streams, users, script[n - 1].messages)
  {
    assert script[..n][n - 1] == script[n - 1];
    assert script[..n][..n - 1] == script[..n - 1];
  }

  lemma MessageCountStep(script: seq<Response>, k: nat)
    requires k < |script|
    ensures MessageCount(script[..k + 1]) == MessageCount(script[..k]) + |script[k].messages|
  {
    assert script[..k + 1][..k] == script[..k];
  }

  lemma PageReactorsStep(script: seq<Response>, k: nat)
    requires k < |script|
    ensures PageReactors(script[..k + 1]) == PageReactors(script[..k]) + Reactors(script[k].messages)
  {
    assert script[..k + 1][..k] == script[..k];
  }

  lemma AllRowsStep(streams: Streams, users: Directory, script: seq<Response>, k: nat)
    requires k < |script|
    requires PagesResolvable(streams, users, script[..k])
    requires Resolvable(streams, users, script[k].messages)
    ensures PagesResolvable(streams, users, script[..k + 1])
    ensures AllRows(streams, users, script[..k + 1])
            == AllRows(streams, users, script[..k]) + PageRows(streams, users, script[k].messages)
  {
    assert script[..k + 1][..k] == script[..k];
    assert forall j :: 0 <= j < k ==> script[..k + 1][j] == script[..k][j];
  }

  /** What one run is given: the chunk size, the parsed narrow, the stream directory, the server's users and its answers. */
  datatype Setup = Setup(chunkSize: int, narrow: seq<Clause>, streams: Streams, users: Directory, script: seq<Response>)

  /** Every request carries the chunk size, asks for nothing after its anchor, and carries the narrow. */
  predicate Shaped(s: Setup, req: Request) {
    req.numBefore == s.chunkSize && req.numAfter == 0 && req.narrow == s.narrow
  }

  /**
   The requests sent so far, with `request` the one to send next: the first
   is the initial request, each later one is its predecessor re-anchored on
   the predecessor's page, and every page fetched so far could be moved past.
   */
  ghost predicate Chained(s: Setup, request: Request, requests: seq<Request>) {
    var n := |requests|;
    && n <= |s.script|
    && Advanced(s.script, n)
    && Shaped(s, request)
    && (forall k :: 0 <= k < n ==> Shaped(s, requests[k]))
    && (n == 0 ==> request == InitialRequest(s.chunkSize, s.narrow))
    && (n > 0 ==> requests[0] == InitialRequest(s.chunkSize, s.narrow))
    && (forall k :: 0 <= k < n - 1 ==> NextRequest(requests[k], s.script[k]) == Ok(requests[k + 1]))
    && (n > 0 ==> NextRequest(requests[n - 1], s.script[n - 1]) == Ok(request))
  }

  /** The counters, rows and cache after the first `|run.requests|` pages went through without failure. */
  ghost predicate Progressed(s: Setup, run: Run) {
    var n := |run.requests|;
    && n <= |s.script|
    && run.failure.None?
    && run.processed == MessageCount(s.script[..n])
    && |run.progress| == n
    && (forall k :: 0 <= k < n ==> run.progress[k] == MessageCount(s.script[..k + 1]))
    && PagesResolvable(s.streams, s.users, s.script[..n])
    && run.rows == AllRows(s.streams, s.users, s.script[..n])
    && Coherent(run.cache, s.users)
    && run.cache.names.Keys == PageReactors(s.script[..n])
  }

  /** The loop's state: `request` is the next request to send and every page so far went through cleanly. */
  ghost predicate Fetched(s: Setup, request: Request, run: Run) {
    Chained(s, request, run.requests) && Progressed(s, run)
  }

  /**
   The requests of a finished run: at most one per scripted answer and at
   least one when there is an answer; the first is the initial request and
   each later one is the previous request re-anchored on the previous page,
   which was not the oldest; none goes past the first page that reports the
   oldest.
   */
  ghost predicate RequestsSent(s: Setup, requests: seq<Request>) {
    var n := |requests|;
    && n <= |s.script|
    && (|s.script| > 0 ==> n > 0)
    && (n > 0 ==> requests[0] == InitialRequest(s.chunkSize, s.narrow))
    && (forall k :: 0 <= k < n - 1 ==>
          !s.script[k].foundOldest && NextRequest(requests[k], s.script[k]) == Ok(requests[k + 1]))
    && (forall k :: 0 <= k < n ==> Shaped(s, requests[k]))
    && (forall k :: 0 <= k < |s.script| && s.script[k].foundOldest ==> n <= k + 1)
  }

  /** The run ended inside its last page, at an unknown stream or reactor. */
  predicate StoppedInPage(run: Run) {
    run.failure.Some? && (run.failure.value.UnknownStream? || run.failure.value.UnknownUser?)
  }

  /**
   The counters of a finished run: the processed counter counts every
   message of every fetched page, reactions or not, and each progress report
   the messages up to its page. Every fetched page is reported except one
   the run stopped inside. The cache holds only the server's names: those
   of the reactors on every page that went through, plus, on a page the run
   stopped inside, those it looked up before stopping. The remote calls
   made are one per cached reactor plus, when the run ended at an unknown
   reactor, the call that found no such user.
   */
  ghost predicate Counted(s: Setup, run: Run) {
    var n := |run.requests|;
    && n <= |s.script|
    && run.processed == MessageCount(s.script[..n])
    && |run.progress| <= n
    && (forall k :: 0 <= k < |run.progress| ==> run.progress[k] == MessageCount(s.script[..k + 1]))
    && (!StoppedInPage(run) ==>
          && |run.progress| == n
          && run.cache.names.Keys == PageReactors(s.script[..n]))
    && (StoppedInPage(run) ==>
          && n > 0
          && |run.progress| == n - 1
          && run.cache.names.Keys
             == PageReactors(s.script[..n - 1]) + PageReactorsUntil(s.streams, s.users, s.script[n - 1].messages))
    && CallsAccounted(run.cache, s.users, run.failure)
  }

  /**
   How a finished run ended: it succeeds exactly when the script completes
   cleanly, and then at that length, with the reference rows of all fetched
   pages. A failed run ends on one of four failures, each explained: the
   script ran out after every page went through and could be moved past,
   the last page was empty without being the oldest, or the walk of the last
   page met an unknown stream or reactor, and then the first one it met.
   */
  ghost predicate Verdict(s: Setup, run: Run) {
    var n := |run.requests|;
    && n <= |s.script|
    && (forall m: nat :: Completes(s.streams, s.users, s.script, m) <==> run.failure.None? && n == m)
    && (run.failure.None? ==>
          && Completes(s.streams, s.users, s.script, n)
          && run.rows == AllRows(s.streams, s.users, s.script[..n]))
    && (run.failure.Some? ==>
          || run.failure.value.ServerScriptExhausted?
          || run.failure.value.EmptyPageBeforeOldest?
          || run.failure.value.UnknownStream?
          || run.failure.value.UnknownUser?)
    && (run.failure == Some(ServerScriptExhausted) ==>
          && n == |s.script|
          && Advanced(s.script, n)
          && PagesResolvable(s.streams, s.users, s.script[..n]))
    && (run.failure == Some(EmptyPageBeforeOldest) ==>
          n > 0 && s.script[n - 1].messages == [] && !s.script[n - 1].foundOldest)
    && (StoppedInPage(run) ==>
          && n > 0
          && run.failure == PageFailure(s.streams, s.users, s.script[n - 1].messages)
          && Explains(s.streams, s.users, s.script[n - 1].messages, run.failure.value))
  }

  /**
   The output of a finished run, failed or not, starts with the rows of
   every fetched page before the last one: rows already written stay. When
   the last page names an unknown stream or reactor, the output goes on
   with exactly that page's rows up to the failure; on every other exit
   every fetched page resolved and the output is exactly their rows.
   */
  ghost predicate Written(s: Setup, run: Run) {
    var n := |run.requests|;
    && n <= |s.script|
    && (n > 0 ==> PagesResolvable(s.streams, s.users, s.script[..n - 1])
                  && AllRows(s.streams, s.users, s.script[..n - 1]) <= run.rows)
    && (StoppedInPage(run) ==>
          && n > 0
          && run.rows == AllRows(s.streams, s.users, s.script[..n - 1])
                         + PageRowsUntil(s.streams, s.users, s.script[n - 1].messages))
    && (!StoppedInPage(run) ==>
          && PagesResolvable(s.streams, s.users, s.script[..n])
          && run.rows == AllRows(s.streams, s.users, s.script[..n]))
  }

  /** What a finished run promises. */
  ghost predicate Outcome(s: Setup, run: Run) {
    RequestsSent(s, run.requests) && Counted(s, run) && Verdict(s, run) && Written(s, run)
  }

  /** Output that holds the rows of the first `n` pages starts with the rows of the first `n - 1`. */
  lemma WrittenBefore(s: Setup, run: Run)
    requires 0 < |run.requests| <= |s.script|
    requires run.failure.None? || run.failure == Some(ServerScriptExhausted) || run.failure == Some(EmptyPageBeforeOldest)
    requires PagesResolvable(s.streams, s.users, s.script[..|run.requests|])
    requires run.rows == AllRows(s.streams, s.users, s.script[..|run.requests|])
    ensures Written(s, run)
  {
    var n := |run.requests|;
    assert s.script[..n][..n - 1] == s.script[..n - 1];
    assert forall j :: 0 <= j < n - 1 ==> s.script[..n - 1][j] == s.script[..n][j];
  }

  lemma StartFetched(s: Setup)
    ensures Fetched(s, InitialRequest(s.chunkSize, s.narrow), Run([], [], [], 0, EmptyCache, None))
  {
    assert PageReactors(s.script[..0]) == {};
  }

  /** Once every scripted answer is used up, the requests sent are those of a finished run. */
  lemma SentAll(s: Setup, request: Request, requests: seq<Request>)
    requires Chained(s, request, requests) && |requests| == |s.script|
    ensures RequestsSent(s, requests)
  {
  }

  /** Sending `request` as the last request leaves the requests of a finished run. */
  lemma SentLast(s: Setup, request: Request, requests: seq<Request>)
    requires Chained(s, request, requests) && |requests| < |s.script|
    ensures RequestsSent(s, requests + [request])
  {
    var all := requests + [request];
    var n := |requests|;
    assert forall k :: 0 <= k < n ==> all[k] == requests[k];
    assert all[n] == request;
  }

  /** After a page that is neither the oldest nor empty, the chain goes on with the re-anchored request. */
  lemma ChainNext(s: Setup, request: Request, requests: seq<Request>)
    requires Chained(s, request, requests) && |requests| < |s.script|
    requires !s.script[|requests|].foundOldest && s.script[|requests|].messages != []
    ensures Chained(s, NextRequest(request, s.script[|requests|]).value, requests + [request])
  {
    var all := requests + [request];
    var n := |requests|;
    assert forall k :: 0 <= k < n ==> all[k] == requests[k];
    assert all[n] == request;
  }

  /** Running out of scripted answers after moving past every page is a failure no clean run shares. */
  lemma ExhaustedOutcome(s: Setup, request: Request, run: Run)
    requires Fetched(s, request, run) && |run.requests| == |s.script|
    ensures Outcome(s, run.(failure := Some(ServerScriptExhausted)))
  {
    SentAll(s, request, run.requests);
    NeverCompletes(s.streams, s.users, s.script, |run.requests|);
    if |run.requests| > 0 {
      WrittenBefore(s, run.(failure := Some(ServerScriptExhausted)));
    }
  }

  /**
   The run after the next page has been fetched, its messages added to the
   processed counter and its rows written, before its progress report.
   */
  function Absorb(s: Setup, request: Request, run: Run): Run
    requires |run.requests| < |s.script|
  {
    var page := s.script[|run.requests|];
    var e := EmitPage(s.streams, s.users, page.messages, run.cache);
    Run(run.requests + [request], run.rows + e.rows, run.progress, run.processed + |page.messages|, e.cache, e.failure)
  }

  /** The run after its progress count has been reported. */
  function Reported(run: Run): Run {
    run.(progress := run.progress + [run.processed])
  }

  /** A page the run stops inside is counted but not reported, and only the reactors looked up before the failure are cached. */
  lemma AbsorbCounts(s: Setup, request: Request, run: Run)
    requires Progressed(s, run) && |run.requests| < |s.script|
    requires Absorb(s, request, run).failure.Some?
    ensures Counted(s, Absorb(s, request, run))
  {
    var k := |run.requests|;
    var msgs := s.script[k].messages;
    MessageCountStep(s.script, k);
    EmitPageCoherent(s.streams, s.users, msgs, run.cache);
    EmitPageFailure(s.streams, s.users, msgs, run.cache);
    AgreesKnown(run.cache, s.users);
    EmitPageCachesUntil(s.streams, s.users, msgs, run.cache);
  }

  /** A run that stops inside a page ends with the first failure met on it, which no clean run shares. */
  lemma StoppedVerdict(s: Setup, request: Request, run: Run)
    requires Fetched(s, request, run) && |run.requests| < |s.script|
    requires Absorb(s, request, run).failure.Some?
    ensures Verdict(s, Absorb(s, request, run))
  {
    var k := |run.requests|;
    var msgs := s.script[k].messages;
    EmitPageFailure(s.streams, s.users, msgs, run.cache);
    AgreesKnown(run.cache, s.users);
    EmitPageStops(s.streams, s.users, msgs, run.cache);
    NeverCompletes(s.streams, s.users, s.script, k);
  }

  /** A run that stops inside a page keeps the rows of the pages before it and that page's rows up to the failure. */
  lemma StoppedWritten(s: Setup, request: Request, run: Run)
    requires Fetched(s, request, run) && |run.requests| < |s.script|
    requires Absorb(s, request, run).failure.Some?
    ensures Written(s, Absorb(s, request, run))
  {
    var k := |run.requests|;
    var next := Absorb(s, request, run);
    assert next.requests[..k] == run.requests;
    EmitPageFailure(s.streams, s.users, s.script[k].messages, run.cache);
    assert StoppedInPage(next);
    EmitPageWritten(s.streams, s.users, s.script[k].messages, run.cache);
  }

  /** A page that names an unknown stream or reactor ends the run with the first such failure its walk meets. */
  lemma PageFailedOutcome(s: Setup, request: Request, run: Run)
    requires Fetched(s, request, run) && |run.requests| < |s.script|
    requires Absorb(s, request, run).failure.Some?
    ensures Outcome(s, Absorb(s, request, run))
  {
    SentLast(s, request, run.requests);
    AbsorbCounts(s, request, run);
    StoppedVerdict(s, request, run);
    StoppedWritten(s, request, run);
  }

  lemma ReportProgress(s: Setup, request: Request, run: Run)
    requires Progressed(s, run) && |run.requests| < |s.script|
    ensures var next := Reported(Absorb(s, request, run));
            var n := |next.requests|;
            && n == |run.requests| + 1
            && next.processed == MessageCount(s.script[..n])
            && |next.progress| == n
            && (forall k :: 0 <= k < n ==> next.progress[k] == MessageCount(s.script[..k + 1]))
  {
    var n := |run.requests|;
    var next := Reported(Absorb(s, request, run));
    MessageCountStep(s.script, n);
    assert next.progress == run.progress + [next.processed];
    forall k | 0 <= k < n + 1 ensures next.progress[k] == MessageCount(s.script[..k + 1]) {
      if k < n {
        assert next.progress[k] == run.progress[k];
      }
    }
  }

  lemma ReportRows(s: Setup, request: Request, run: Run)
    requires Progressed(s, run) && |run.requests| < |s.script|
    requires Absorb(s, request, run).failure.None?
    ensures var n := |run.requests| + 1;
            && PagesResolvable(s.streams, s.users, s.script[..n])
            && Reported(Absorb(s, request, run)).rows == AllRows(s.streams, s.users, s.script[..n])
  {
    var k := |run.requests|;
    var msgs := s.script[k].messages;
    EmitPageFailure(s.streams, s.users, msgs, run.cache);
    EmitPageRows(s.streams, s.users, msgs, run.cache);
    AllRowsStep(s.streams, s.users, s.script, k);
  }

  lemma ReportCache(s: Setup, request: Request, run: Run)
    requires Progressed(s, run) && |run.requests| < |s.script|
    requires Absorb(s, request, run).failure.None?
    ensures var next := Reported(Absorb(s, request, run));
            && Coherent(next.cache, s.users)
            && next.cache.names.Keys == PageReactors(s.script[..|run.requests| + 1])
  {
    var k := |run.requests|;
    var msgs := s.script[k].messages;
    EmitPageCoherent(s.streams, s.users, msgs, run.cache);
    EmitPageFailure(s.streams, s.users, msgs, run.cache);
    EmitPageCaches(s.streams, s.users, msgs, run.cache);
    PageReactorsStep(s.script, k);
  }

  /** A page that went through cleanly, once reported, keeps counters, rows and cache in step with the pages fetched. */
  lemma ReportState(s: Setup, request: Request, run: Run)
    requires Progressed(s, run) && |run.requests| < |s.script|
    requires Absorb(s, request, run).failure.None?
    ensures Progressed(s, Reported(Absorb(s, request, run)))
  {
    ReportProgress(s, request, run);
    ReportRows(s, request, run);
    ReportCache(s, request, run);
  }

  /** A run whose requests, counters, rows and cache are in step with a cleanly completed script has succeeded. */
  lemma CleanEnd(s: Setup, run: Run)
    requires RequestsSent(s, run.requests) && Progressed(s, run)
    requires Completes(s.streams, s.users, s.script, |run.requests|)
    ensures Outcome(s, run)
  {
    var n := |run.requests|;
    assert Counted(s, run);
    assert Verdict(s, run) by {
      forall m: nat | Completes(s.streams, s.users, s.script, m) ensures m == n {
        CompletesUnique(s.streams, s.users, s.script, m, n);
      }
    }
    WrittenBefore(s, run);
  }

  /** A clean page that reports the oldest ends the run successfully. */
  lemma OldestOutcome(s: Setup, request: Request, run: Run)
    requires Fetched(s, request, run) && |run.requests| < |s.script|
    requires Absorb(s, request, run).failure.None?
    requires s.script[|run.requests|].foundOldest
    ensures Outcome(s, Reported(Absorb(s, request, run)))
  {
    var next := Reported(Absorb(s, request, run));
    SentLast(s, request, run.requests);
    ReportState(s, request, run);
    assert Completes(s.streams, s.users, s.script, |next.requests|);
    CleanEnd(s, next);
  }

  /** A run in step with its pages that stops on an empty page that is not the oldest has failed there. */
  lemma EmptyPageEnd(s: Setup, run: Run)
    requires RequestsSent(s, run.requests) && Progressed(s, run)
    requires 0 < |run.requests| && Advanced(s.script, |run.requests| - 1)
    requires !s.script[|run.requests| - 1].foundOldest && s.script[|run.requests| - 1].messages == []
    ensures Outcome(s, run.(failure := Some(EmptyPageBeforeOldest)))
  {
    var stuck := run.(failure := Some(EmptyPageBeforeOldest));
    assert Counted(s, stuck);
    assert Verdict(s, stuck) by {
      NeverCompletes(s.streams, s.users, s.script, |run.requests| - 1);
    }
    WrittenBefore(s, stuck);
  }

  /** A clean page that is not the oldest and has no message ends the run: there is no anchor to move to. */
  lemma EmptyPageOutcome(s: Setup, request: Request, run: Run)
    requires Fetched(s, request, run) && |run.requests| < |s.script|
    requires Absorb(s, request, run).failure.None?
    requires !s.script[|run.requests|].foundOldest && s.script[|run.requests|].messages == []
    ensures Outcome(s, Reported(Absorb(s, request, run)).(failure := Some(EmptyPageBeforeOldest)))
  {
    SentLast(s, request, run.requests);
    ReportState(s, request, run);
    EmptyPageEnd(s, Reported(Absorb(s, request, run)));
  }

  /** A clean page that is not the oldest and has messages moves the loop on, re-anchored on its first message. */
  lemma ContinueFetched(s: Setup, request: Request, run: Run)
    requires Fetched(s, request, run) && |run.requests| < |s.script|
    requires Absorb(s, request, run).failure.None?
    requires !s.script[|run.requests|].foundOldest && s.script[|run.requests|].messages != []
    ensures Fetched(s, NextRequest(request, s.script[|run.requests|]).value, Reported(Absorb(s, request, run)))
  {
    ChainNext(s, request, run.requests);
    ReportState(s, request, run);
  }

  /**
   The pagination loop of the counter over a scripted server. Rows of a page
   go out as they are produced, so a run that fails keeps the rows written
   before the failure; the processed counter is raised before the page is
   flattened and its progress reported after.
   */
  method Paginate(chunkSize: int, narrow: seq<Clause>, streams: Streams, users: Directory, script: seq<Response>)
    returns (run: Run)
    ensures Outcome(Setup(chunkSize, narrow, streams, users, script), run)
  {
    var s := Setup(chunkSize, narrow, streams, users, script);
    var request := InitialRequest(chunkSize, narrow);
    run := Run([], [], [], 0, EmptyCache, None);
    StartFetched(s);
    while true
      invariant Fetched(s, request, run)
      decreases |script| - |run.requests|
    {
      if |run.requests| == |script| {
        ExhaustedOutcome(s, request, run);
        run := run.(failure := Some(ServerScriptExhausted));
        break;
      }
      var page := script[|run.requests|];
      var next := Absorb(s, request, run);
      if next.failure.Some? {
        PageFailedOutcome(s, request, run);
        run := next;
        break;
      }
      next := Reported(next);
      if page.foundOldest {
        OldestOutcome(s, request, run);
        run := next;
        break;
      }
      match NextRequest(request, page) {
        case Err(e) =>
          EmptyPageOutcome(s, request, run);
          run := next.(failure := Some(e));
          break;
        case Ok(following) =>
          ContinueFetched(s, request, run);
          request := following;
          run := next;
      }
    }
  }
}
