/**
 The counter as a whole: the filter expression is parsed into a narrow,
 then the pagination loop runs with it. Also the consequences of a finished
 run that a caller relies on, and two concrete runs worked through.
 */
module ReactionCounter {
  import opened Failures
  import opened Narrow
  import opened UserNames
  import opened Flatten
  import opened Pagination

  /**
   One run of the counter. A malformed filter expression stops the run
   before any message is requested; otherwise the loop runs with the parsed
   narrow.
   */
  method CountReactions(narrowText: string, chunkSize: int, streams: Streams, users: Directory, script: seq<Response>)
    returns (run: Run)
    ensures ParseNarrow(narrowText).Err? ==>
              && run.requests == [] && run.rows == [] && run.processed == 0
              && run.progress == [] && run.cache == EmptyCache
              && run.failure == Some(ParseNarrow(narrowText).error)
              && run.failure.value.MalformedNarrowToken?
              && run.failure.value.token in Tokens(narrowText)
              && ':' !in run.failure.value.token
    ensures ParseNarrow(narrowText).Ok? ==>
              Outcome(Setup(chunkSize, ParseNarrow(narrowText).value, streams, users, script), run)
  {
    match ParseNarrow(narrowText) {
      case Err(e) =>
        run := Run([], [], [], 0, EmptyCache, Some(e));
      case Ok(narrow) =>
        run := Paginate(chunkSize, narrow, streams, users, script);
    }
  }

  /** The first request asks for the `chunkSize` newest messages of the narrow, anchor included. */
  lemma FirstRequest(s: Setup, run: Run)
    requires Outcome(s, run) && |run.requests| > 0
    ensures run.requests[0].anchor == Newest && run.requests[0].includeAnchor
    ensures run.requests[0].numBefore == s.chunkSize && run.requests[0].numAfter == 0
    ensures run.requests[0].narrow == s.narrow
  {
  }

  /**
   Every later request re-anchors on the first message of the page before
   it, excludes that anchor, and keeps the page size and the narrow; the page
   before it was not the oldest.
   */
  lemma LaterRequest(s: Setup, run: Run, k: nat)
    requires Outcome(s, run) && 0 < k < |run.requests|
    ensures !s.script[k - 1].foundOldest && s.script[k - 1].messages != []
    ensures run.requests[k].anchor == AtMessage(s.script[k - 1].messages[0].id)
    ensures !run.requests[k].includeAnchor
    ensures run.requests[k].numBefore == run.requests[k - 1].numBefore
    ensures run.requests[k].numAfter == run.requests[k - 1].numAfter
    ensures run.requests[k].narrow == run.requests[k - 1].narrow
  {
    assert 0 <= k - 1 < |run.requests| - 1;
    assert NextRequest(run.requests[k - 1], s.script[k - 1]) == Ok(run.requests[k]);
  }

  /** When the first answer already reports the oldest, there is exactly one fetch. */
  lemma OldestFirstMeansOneFetch(s: Setup, run: Run)
    requires Outcome(s, run)
    requires |s.script| > 0 && s.script[0].foundOldest
    ensures |run.requests| == 1
  {
  }

  /** A successful run fetched through the first page that reports the oldest, and that page's rows are written last. */
  lemma SuccessEndsOnOldest(s: Setup, run: Run)
    requires Outcome(s, run) && run.failure.None?
    ensures 0 < |run.requests| <= |s.script|
    ensures s.script[|run.requests| - 1].foundOldest
    ensures forall k :: 0 <= k < |run.requests| - 1 ==> !s.script[k].foundOldest
    ensures Resolvable(s.streams, s.users, s.script[|run.requests| - 1].messages)
    ensures PagesResolvable(s.streams, s.users, s.script[..|run.requests| - 1])
    ensures run.rows == AllRows(s.streams, s.users, s.script[..|run.requests| - 1])
                        + PageRows(s.streams, s.users, s.script[|run.requests| - 1].messages)
  {
    CompletesLast(s.streams, s.users, s.script, |run.requests|);
  }

  /**
   A successful run calls the server once per distinct reactor on the
   fetched pages, however often each of them reacted.
   */
  lemma OneRemoteCallPerReactor(s: Setup, run: Run)
    requires Outcome(s, run) && run.failure.None?
    ensures run.cache.remoteCalls == |PageReactors(s.script[..|run.requests|])|
  {
    assert |run.cache.names.Keys| == |run.cache.names|;
  }

  /** A filter expression of one `operator:operand` token denotes that one clause. */
  lemma SingleClause(operator: string, operand: string)
    requires Printable(Clause(operator, operand))
    ensures ParseNarrow(operator + ":" + operand) == Ok([Clause(operator, operand)])
  {
    var cs := [Clause(operator, operand)];
    ParseRender(cs);
    assert Render(cs) == operator + ":" + operand;
  }

  /** The default filter expression selects the public streams. */
  lemma DefaultNarrow()
    ensures ParseNarrow("streams:public") == Ok([Clause("streams", "public")])
  {
    LowerCasePrintable("streams", "public");
    SingleClause("streams", "public");
    assert "streams" + ":" + "public" == "streams:public";
  }

  /** Operators and operands spelled in lower-case ASCII letters survive the round trip. */
  lemma LowerCasePrintable(operator: string, operand: string)
    requires forall i :: 0 <= i < |operator| ==> 'a' <= operator[i] <= 'z'
    requires forall i :: 0 <= i < |operand| ==> 'a' <= operand[i] <= 'z'
    ensures Printable(Clause(operator, operand))
  {
  }

  /**
   When the first answer reports the oldest and names only known streams
   and reactors, the run succeeds after that one fetch, with exactly that
   page's rows and its message count.
   */
  lemma OldestFirstRun(s: Setup, run: Run)
    requires Outcome(s, run)
    requires |s.script| > 0 && s.script[0].foundOldest && Resolvable(s.streams, s.users, s.script[0].messages)
    ensures run.failure.None? && |run.requests| == 1
    ensures run.rows == PageRows(s.streams, s.users, s.script[0].messages)
    ensures run.processed == |s.script[0].messages|
  {
    assert Completes(s.streams, s.users, s.script, 1);
    MessageCountStep(s.script, 0);
    AllRowsStep(s.streams, s.users, s.script, 0);
  }

  /** The rows of the two-message page below: only the newer message has a reaction. */
  lemma TwoMessagePageRows(newer: Message, older: Message)
    requires newer == Message(5, "Bob", 10, 1700000000, [Reaction("thumbs_up", 7)])
    requires older == Message(4, "Carol", 10, 1699999999, [])
    ensures Resolvable(map[10 := "general"], map[7 := "alice"], [newer, older])
    ensures PageRows(map[10 := "general"], map[7 := "alice"], [newer, older])
            == [Row("general", "Bob", "alice", "thumbs_up", 1700000000)]
  {
    var streams: Streams := map[10 := "general"];
    var users: Directory := map[7 := "alice"];
    assert Resolvable(streams, users, [newer, older]);
    assert Reverse([newer, older]) == [older, newer];
    assert MessageRows(streams, users, older) == [];
    assert MessageRows(streams, users, newer) == [Row("general", "Bob", "alice", "thumbs_up", 1700000000)];
    assert RowsInOrder(streams, users, [newer]) == MessageRows(streams, users, newer);
  }

  /**
   One page of two messages, the newer one with one reaction by alice,
   that already reports the oldest: the run makes one request and writes
   exactly one row, for the reaction.
   */
  method OnePageScenario() returns (run: Run)
    ensures run.failure.None? && |run.requests| == 1
    ensures run.rows == [Row("general", "Bob", "alice", "thumbs_up", 1700000000)]
  {
    var newer := Message(5, "Bob", 10, 1700000000, [Reaction("thumbs_up", 7)]);
    var older := Message(4, "Carol", 10, 1699999999, []);
    var s := Setup(2, [Clause("streams", "public")], map[10 := "general"], map[7 := "alice"],
                   [Response([newer, older], true)]);
    run := Paginate(s.chunkSize, s.narrow, s.streams, s.users, s.script);
    TwoMessagePageRows(newer, older);
    OldestFirstRun(s, run);
  }

  /** A finished run fetches every page it can move past cleanly, and one more. */
  lemma ReachesPage(s: Setup, run: Run, k: nat)
    requires RequestsSent(s, run.requests) && Verdict(s, run)
    requires k < |s.script| && Advanced(s.script, k) && PagesResolvable(s.streams, s.users, s.script[..k])
    ensures |run.requests| > k
  {
  }

  /** A finished run never fetches past a page that names an unknown stream or reactor. */
  lemma NotPastPage(s: Setup, run: Run, k: nat)
    requires Written(s, run)
    requires k < |s.script| && !Resolvable(s.streams, s.users, s.script[k].messages)
    ensures |run.requests| <= k + 1
  {
  }

  /** A finished run whose last page names an unknown stream or reactor stopped inside that page. */
  lemma StopsInside(s: Setup, run: Run)
    requires Verdict(s, run)
    requires 0 < |run.requests| && !Resolvable(s.streams, s.users, s.script[|run.requests| - 1].messages)
    ensures StoppedInPage(run)
  {
    var n := |run.requests|;
    assert !PagesResolvable(s.streams, s.users, s.script[..n]) by {
      assert s.script[..n][n - 1] == s.script[n - 1];
    }
  }

  /**
   A run that can move past the first `k` pages, all of them resolvable,
   and then meets a page naming an unknown stream or reactor, fetches
   exactly that page and stops inside it: at its first failure, with the
   rows up to that failure and without reporting it. What it has cached
   and reported by then is what `Counted` states for a run stopped inside
   a page.
   */
  lemma StopsAtUnresolvablePage(s: Setup, run: Run, k: nat)
    requires RequestsSent(s, run.requests) && Verdict(s, run) && Written(s, run)
    requires k < |s.script| && Advanced(s.script, k) && PagesResolvable(s.streams, s.users, s.script[..k])
    requires PageFailure(s.streams, s.users, s.script[k].messages).Some?
    ensures |run.requests| == k + 1 && StoppedInPage(run)
    ensures run.failure == PageFailure(s.streams, s.users, s.script[k].messages)
    ensures run.rows == AllRows(s.streams, s.users, s.script[..k]) + PageRowsUntil(s.streams, s.users, s.script[k].messages)
  {
    PageFailureResolvable(s.streams, s.users, s.script[k].messages);
    ReachesPage(s, run, k);
    NotPastPage(s, run, k);
    StopsInside(s, run);
  }

  /** The page below, taken on its own: it stops at the older message's stream, before any row or lookup. */
  lemma StreamBeforeReactorPage(streams: Streams, users: Directory, msgs: seq<Message>)
    requires streams == map[10 := "general"] && users == map[]
    requires msgs == [Message(5, "Bob", 10, 1, [Reaction("x", 99)]), Message(4, "Carol", 77, 2, [])]
    ensures PageFailure(streams, users, msgs) == Some(UnknownStream(77))
    ensures PageRowsUntil(streams, users, msgs) == [] && PageReactorsUntil(streams, users, msgs) == {}
  {
    assert !Resolvable(streams, users, [msgs[1]]) by {
      assert msgs[1] in [msgs[1]];
    }
  }

  /**
   A page whose older message sits in an unknown stream and whose newer one
   has a reaction by an unknown user: the walk starts at the older message,
   so the run fails at the stream, with no row written and no user looked up.
   */
  method StreamBeforeReactorScenario() returns (run: Run)
    ensures |run.requests| == 1
    ensures run.failure == Some(UnknownStream(77))
    ensures run.rows == [] && run.cache.remoteCalls == 0
  {
    var s := Setup(2, [Clause("streams", "public")], map[10 := "general"], map[],
                   [Response([Message(5, "Bob", 10, 1, [Reaction("x", 99)]),
                              Message(4, "Carol", 77, 2, [])], true)]);
    run := Paginate(s.chunkSize, s.narrow, s.streams, s.users, s.script);
    StreamBeforeReactorPage(s.streams, s.users, s.script[0].messages);
    assert s.script[..0] == [];
    StopsAtUnresolvablePage(s, run, 0);
    assert |run.cache.names| == |run.cache.names.Keys|;
  }

  /** The two pages below, taken on their own: the first goes through, the second stops at its stream. */
  lemma LaterPageStopPages(streams: Streams, users: Directory, script: seq<Response>)
    requires streams == map[10 := "general"] && users == map[7 := "alice"]
    requires script == [Response([Message(1, "Bob", 10, 1, [Reaction("x", 7)])], false),
                        Response([Message(0, "Carol", 77, 2, [])], true)]
    ensures Advanced(script, 1) && PagesResolvable(streams, users, script[..1])
    ensures !Resolvable(streams, users, script[1].messages)
    ensures PageFailure(streams, users, script[1].messages) == Some(UnknownStream(77))
    ensures PageReactors(script[..1]) + PageReactorsUntil(streams, users, script[1].messages) == {7}
  {
    var first := script[0].messages;
    var second := script[1].messages;
    assert Resolvable(streams, users, first);
    assert script[..1] == [script[0]] && script[..1][..0] == [];
    assert !Resolvable(streams, users, second) by {
      assert second[0] in second;
    }
    assert !Resolvable(streams, users, [second[0]]) by {
      assert second[0] in [second[0]];
    }
    assert PageReactorsUntil(streams, users, second) == {};
    assert Reactors(first) == {7} by {
      assert first[..0] == [];
      assert ReactionUsers(first[0].reactions) == {7} by {
        assert first[0].reactions[0] in first[0].reactions;
      }
    }
  }

  /**
   A first page with one reaction by a known user, then a second page whose
   only message sits in an unknown stream: the run fetches both pages,
   reports progress for the first only, and fails at the stream having
   looked up the one reactor once.
   */
  method LaterPageStopScenario() returns (run: Run)
    ensures |run.requests| == 2 && |run.progress| == 1
    ensures run.failure == Some(UnknownStream(77))
    ensures run.cache.names.Keys == {7} && run.cache.remoteCalls == 1
  {
    var s := Setup(2, [Clause("streams", "public")], map[10 := "general"], map[7 := "alice"],
                   [Response([Message(1, "Bob", 10, 1, [Reaction("x", 7)])], false),
                    Response([Message(0, "Carol", 77, 2, [])], true)]);
    run := Paginate(s.chunkSize, s.narrow, s.streams, s.users, s.script);
    LaterPageStopPages(s.streams, s.users, s.script);
    StopsAtUnresolvablePage(s, run, 1);
    assert |run.cache.names| == |run.cache.names.Keys|;
  }

  /**
   A first page that is empty without being the oldest: the run fails on
   the missing first message having written nothing.
   */
  method EmptyPageScenario() returns (run: Run)
    ensures |run.requests| == 1
    ensures run.failure == Some(EmptyPageBeforeOldest)
    ensures run.rows == []
  {
    var s := Setup(2, [Clause("streams", "public")], map[10 := "general"], map[7 := "alice"],
                   [Response([], false)]);
    run := Paginate(s.chunkSize, s.narrow, s.streams, s.users, s.script);
    assert s.script[..1] == s.script;
    assert PageRows(s.streams, s.users, []) == [];
  }

  /**
   A single page with one reaction by a known user that is not the oldest,
   and nothing more from the server: the run fails on the exhausted script
   with that page's one row written.
   */
  method ExhaustedScenario() returns (run: Run)
    ensures |run.requests| == 1
    ensures run.failure == Some(ServerScriptExhausted)
    ensures run.rows == [Row("general", "Bob", "alice", "x", 1)]
  {
    var s := Setup(2, [Clause("streams", "public")], map[10 := "general"], map[7 := "alice"],
                   [Response([Message(1, "Bob", 10, 1, [Reaction("x", 7)])], false)]);
    run := Paginate(s.chunkSize, s.narrow, s.streams, s.users, s.script);
    var m := s.script[0].messages[0];
    assert s.script[..1] == s.script;
    assert Resolvable(s.streams, s.users, s.script[0].messages) by {
      assert m.reactions[0] in m.reactions;
    }
    assert PageRows(s.streams, s.users, [m]) == [Row("general", "Bob", "alice", "x", 1)];
  }

  /** A filter that matches nothing: one request, no rows, no error. */
  lemma NothingMatchesScenario(s: Setup, run: Run)
    requires s.script == [Response([], true)]
    requires Outcome(s, run)
    ensures run.failure.None? && |run.requests| == 1 && run.rows == [] && run.processed == 0
  {
    assert Resolvable(s.streams, s.users, []);
    OldestFirstRun(s, run);
    assert PageRows(s.streams, s.users, []) == [];
  }
}
