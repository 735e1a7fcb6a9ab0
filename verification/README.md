# Zulip reaction counter — a Dafny model

The Zulip reaction counter pages through the messages of a Zulip realm that
match a narrow (a search filter). For every reaction it finds, it writes one
CSV record `(stream, sender, reactor, emoji, timestamp)`. This project models
the logic at its core and proves properties of it:

- **Narrow parsing** (`Narrow`). The `--narrow` text is split on whitespace
  the way Python's argument-less `str.split()` does. Each token becomes a
  clause `{operator, operand}`, split at its first `:`. A token without a
  colon is an error.
- **The memoised user-name lookup** (`UserNames`). The process-wide
  `@cache` of `get_user_name` is an explicit value: a map from user id to
  full name, plus a counter of the remote `get_user_by_id` calls made. The
  server's users are a finite map, and an id it does not hold makes the
  remote call fail.
- **Reaction flattening** (`Flatten`). A page is walked from its last
  message to its first. Each reaction of each message becomes one row, and
  the cache is threaded through the walk. An unknown stream id fails, even
  for a message without reactions, because the stream lookup comes first.
  An unknown reactor fails too. The walk stops at the first failure it
  meets. Rows are written one at a time, so rows produced before a failure
  stay written, and so do the names cached before it.
- **The pagination loop** (`Pagination`). The message server is a finite
  script: the k-th request is answered by the k-th response.
  - The first request is anchored at "newest" and includes its anchor.
  - After a page that is not the oldest, the request is re-anchored at the
    id of that page's first message, and the anchor is excluded.
  - The loop stops after the first page that reports `found_oldest`, whose
    rows are still written.
  - A page that is empty and not the oldest has no first message, so the
    loop fails there.
  - The processed-message counter rises before a page is flattened, and its
    progress report follows the page.
- **The run as a whole** (`ReactionCounter`). The filter is parsed, then the
  loop runs. It also holds the consequences of a finished run and two
  concrete runs worked through.

`Failures` holds `Option`, `Result` and the error kinds:
- a malformed narrow token;
- an unknown stream;
- an unknown user;
- an empty page before the oldest;
- the end of the server script.

The last one has no counterpart in the program: it is where a finite script
stops a server that never reports the oldest page.

The central contract is `Outcome` (in `Pagination`), which `Paginate` and
`CountReactions` guarantee. It compares a run against reference definitions
that use no cache:
- `PageRows`: the messages of a page in reversed order, one row per
  reaction in reaction order, each name taken straight from the server's
  directories;
- `AllRows`: these rows page after page;
- `Completes`: the number of pages a clean run must fetch;
- `MessageCount`: the number of messages on the fetched pages;
- `PageReactors`: the users who reacted on the fetched pages.
- `PageFailure`, `PageRowsUntil` and `PageReactorsUntil`: for a page that
  fails, the first failure met walking it backwards, and the rows and known
  reactors met before that failure.

## Model

| member | source | states |
|---|---|---|
| Narrow.Tokens | zulip_reaction_counter.py:60 | Whitespace splitting yields only nonempty tokens, and no token holds a whitespace character |
| Narrow.TokensEmpty | zulip_reaction_counter.py:60 | Splitting yields no token exactly when the text is empty or all whitespace |
| Narrow.TokensKeepText | zulip_reaction_counter.py:60 | The tokens, written one after another, are exactly the text's non-whitespace characters, in order |
| Narrow.TokensOfJoin | zulip_reaction_counter.py:60 | Splitting words joined by single spaces gives back exactly those words, in order |
| Narrow.TokensOfInterleave | zulip_reaction_counter.py:60 | Splitting any text made of nonempty whitespace-free words, with whitespace runs of any length before, between and after them, gives back exactly those words, in order. Leading and trailing whitespace yields no token, and a run of several whitespace characters separates like one |
| Narrow.FirstColon | zulip_reaction_counter.py:59 | Finds the first ':' of a token, or reports that there is none |
| Narrow.ParseClause | zulip_reaction_counter.py:59 | A token fails exactly when it has no ':', and the error names the token. Otherwise the operator is the colon-free text before the first ':', the operand is everything after it with further colons kept, and operator + ":" + operand is the token |
| Narrow.ParseClauses | zulip_reaction_counter.py:58-60 | Succeeds exactly when every token has a ':', giving one clause per token in order. Otherwise it fails on the first colonless token |
| Narrow.ParseNarrow | zulip_reaction_counter.py:58-60 | One clause per whitespace-separated token, in order, each splitting its token at the first colon. It fails exactly when some token lacks a ':', and the error names such a token |
| Narrow.EmptyNarrow | zulip_reaction_counter.py:58-60 | An empty or all-whitespace filter gives the empty narrow |
| Narrow.ParseRender | zulip_reaction_counter.py:58-60 | Parsing the rendered text of any narrow gives that narrow back, as long as its operators have no colon and no clause has whitespace |
| Narrow.ClauseSplitUnique | zulip_reaction_counter.py:59 | A token splits at its first colon in only one way |
| UserNames.GetUserName | zulip_reaction_counter.py:16-20 | Fails exactly when the id is neither cached nor known to the server, with that id as the error. A cached id costs no remote call and leaves the cache as it was. An uncached id costs one remote call whether or not the call succeeds. A successful call adds the id with the server's name; a failed one caches nothing. Existing entries never change. From a coherent cache, every name in the cache is the server's, and the call count is the number of cached names, plus one after a failed call |
| UserNames.RepeatedLookup | zulip_reaction_counter.py:16-20 | K ≥ 1 lookups of the same id always return the same name, the server's name when the cache is coherent. They make exactly one remote call when the id was not cached, and none otherwise |
| UserNames.CachedLookups | zulip_reaction_counter.py:16-20 | Once an id is cached, any number of lookups return the cached name, make no remote call and change nothing |
| UserNames.UnknownNeverCached | zulip_reaction_counter.py:16-20 | A lookup of an id the server does not know fails with that id. It leaves the cache as it was apart from one more remote call, so the id stays uncached. Two lookups in a row therefore both fail and make two calls |
| Flatten.EmitReactions | zulip_reaction_counter.py:76-81 | The reactions of a message give at most one row each, exactly one each when nothing fails, and the cache only grows |
| Flatten.EmitMessage | zulip_reaction_counter.py:72-81 | A message whose stream is unknown fails before any row or lookup, even without reactions. Otherwise it gives at most one row per reaction, exactly one each when nothing fails |
| Flatten.EmitReactionsFailure | zulip_reaction_counter.py:76-79 | With a coherent cache, the reactions flatten without failure exactly when every reactor is known. A failure names the first unknown reactor of the list |
| Flatten.ReactionFailureNone | zulip_reaction_counter.py:76-79 | The cache-free first failure of a reaction list is absent exactly when every reactor is known, and is always an unknown user |
| Flatten.MessageFailureNone | zulip_reaction_counter.py:72-79 | The cache-free first failure of a message is absent exactly when its stream and all its reactors are known |
| Flatten.EmitReactionsStops | zulip_reaction_counter.py:76-79 | From a cache holding only the server's users, the walk over the reactions stops at exactly the first reactor the server does not know |
| Flatten.EmitReactionsCachesUntil | zulip_reaction_counter.py:16-20 | From a cache holding only the server's users, the walk over the reactions caches exactly the reactors before the first unknown one, and not the unknown one |
| Flatten.EmitMessageStops | zulip_reaction_counter.py:72-79 | From a cache holding only the server's users, a message fails at its stream when that is unknown, before any lookup, and otherwise at its first unknown reactor, having cached the reactors before it |
| Flatten.EmitReactionsRows | zulip_reaction_counter.py:76-81 | When every reactor is known, row i is (stream, sender, the server's name of reactor i, emoji i, timestamp) |
| Flatten.EmitReactionsCaches | zulip_reaction_counter.py:76-79 | When every reactor is known, the cache gains exactly the reactors of the message |
| Flatten.EmitMessageSound | zulip_reaction_counter.py:72-81 | With a coherent cache, a message flattens without failure exactly when its stream and reactors are known. It then yields its reference rows. A failure is its stream when that is unknown, else its first unknown reactor |
| Flatten.EmitPageCoherent | zulip_reaction_counter.py:71-81 | Flattening a page from a coherent cache keeps every cached name equal to the server's. The call count is the number of cached names, plus one when the page failed at an unknown reactor, whose lookup was attempted |
| Flatten.EmitReactionsWritten | zulip_reaction_counter.py:76-81 | The reactions of a message yield exactly their reference rows up to, and not including, the first reactor the server does not know |
| Flatten.EmitPageWritten | zulip_reaction_counter.py:71-81 | A page, resolvable or not, yields exactly its rows up to its first failure: messages from the last to the first, a message with an unknown stream yielding nothing, and a message with an unknown reactor yielding the rows of the reactions before it |
| Flatten.PageRowsUntilResolvable | zulip_reaction_counter.py:71-81 | On a resolvable page, the rows up to the first failure are all of the page's reference rows |
| Flatten.EmitPageFailure | zulip_reaction_counter.py:71-81 | A page flattens without failure exactly when every stream and reactor on it is known. A failure is the first unknown stream or reactor met walking the page from its last message to its first, and it occurs on the page |
| Flatten.EmitPageStops | zulip_reaction_counter.py:71-79 | From a cache holding only the server's users, a page fails at exactly its cache-free first failure: the last message's stream, then its reactors in order, then the earlier messages likewise |
| Flatten.EmitPageCachesUntil | zulip_reaction_counter.py:71-79 | From a cache holding only the server's users, a page caches exactly the known reactors it looks up before its first failure |
| Flatten.PageFailureResolvable | zulip_reaction_counter.py:71-79 | A page's cache-free first failure is absent exactly when the page is resolvable, and when present is an unknown stream or reactor occurring on the page |
| Flatten.PageReactorsUntilResolvable | zulip_reaction_counter.py:71-79 | On a resolvable page, the reactors looked up before a failure are all of the page's reactors |
| Flatten.EmitPageRows | zulip_reaction_counter.py:71-81 | A resolvable page yields its reference rows: its messages in reversed order, each message's reactions in order, with names from the server |
| Flatten.EmitPageCaches | zulip_reaction_counter.py:71-81 | A resolvable page adds exactly its reactors to the cache |
| Flatten.PageRowCount | zulip_reaction_counter.py:71-81 | A page yields exactly as many rows as it has reactions, so messages without reactions yield none |
| Pagination.NextRequest | zulip_reaction_counter.py:87-88 | The next request is anchored at the id of the page's first message, with the anchor excluded and chunk size, num_after and narrow unchanged. An empty page has no anchor, which is an error |
| Pagination.CompletesUnique | zulip_reaction_counter.py:85-86 | A server script can end a clean run at one length at most |
| Pagination.NeverCompletes | zulip_reaction_counter.py:65-88 | A run stuck at an exhausted script, an unresolvable page, or an empty page that is not the oldest can never end cleanly |
| Pagination.Paginate | zulip_reaction_counter.py:52-88 | The outcome of the loop. Requests start at newest with the anchor included, and each later one is the previous one re-anchored on a page that was not the oldest. Nothing is fetched past the first page reporting the oldest. The counter and each progress report count every fetched message. The run succeeds exactly when the script completes cleanly, and then at that length with the reference rows and one cache entry per reactor. A failure is never a malformed token. It is the first unknown stream or reactor met walking the last page backwards, an empty last page that was not the oldest, or an exhausted script after every page advanced and resolved. Rows of every earlier page stay written, and after an unknown stream or reactor the output ends with exactly that page's rows up to the failure. On every other exit every fetched page resolved, and the output is exactly the rows of all of them. Every fetched page gets a progress report except one the run stopped inside. The cache holds exactly the reactors of the pages that went through, plus those looked up on the page the run stopped inside before the failure. Every cached name is the server's, and the remote call count is the number of cached names, plus one when the run ended at an unknown reactor |
| ReactionCounter.CountReactions | zulip_reaction_counter.py:52-88 | A malformed filter stops the run before any request, naming a colonless token of the filter. That run writes no row, prints no progress, looks up no user and leaves the cache empty. Otherwise the loop's outcome holds for the parsed narrow |
| ReactionCounter.FirstRequest | zulip_reaction_counter.py:52-61 | The first request has anchor newest, the anchor included, num_before = chunk size, num_after = 0 and the parsed narrow |
| ReactionCounter.LaterRequest | zulip_reaction_counter.py:85-88 | Request k > 0 follows a page that was neither the oldest nor empty. It is anchored at that page's first message id with the anchor excluded, and keeps num_before, num_after and narrow |
| ReactionCounter.OldestFirstMeansOneFetch | zulip_reaction_counter.py:85-86 | When the first answer reports the oldest, there is exactly one fetch |
| ReactionCounter.OldestFirstRun | zulip_reaction_counter.py:65-86 | A first answer that reports the oldest and is resolvable gives a successful one-fetch run, with exactly that page's rows and message count |
| ReactionCounter.SuccessEndsOnOldest | zulip_reaction_counter.py:65-86 | A successful run fetched through the first page that reports the oldest, with no earlier oldest page. That last page's rows come last in the output |
| ReactionCounter.ReachesPage | zulip_reaction_counter.py:65-88 | A finished run fetches every page it can move past cleanly, and one more |
| ReactionCounter.NotPastPage | zulip_reaction_counter.py:65-81 | A finished run never fetches past a page naming an unknown stream or reactor |
| ReactionCounter.StopsAtUnresolvablePage | zulip_reaction_counter.py:65-83 | After k clean pages that can be moved past, a page naming an unknown stream or reactor is the last fetched. The run stops inside that page at the page's first failure. Its rows are the earlier pages' rows plus that page's rows up to the failure. Its progress reports and cached reactors are then the ones `Paginate` states for a run stopped inside a page |
| ReactionCounter.OneRemoteCallPerReactor | zulip_reaction_counter.py:16-20 | A successful run makes one remote user lookup per distinct reactor on the fetched pages, however often each reacted |
| ReactionCounter.SingleClause | zulip_reaction_counter.py:58-60 | A filter of one `operator:operand` token denotes exactly that clause |
| ReactionCounter.DefaultNarrow | zulip_reaction_counter.py:31 | The default filter `streams:public` denotes the one clause {streams, public} |
| ReactionCounter.OnePageScenario | zulip_reaction_counter.py:65-86 | Paginating a single oldest page of two messages, one with a single reaction, gives one request and exactly one row |
| ReactionCounter.StreamBeforeReactorScenario | zulip_reaction_counter.py:71-79 | Paginating a page whose older message has an unknown stream and whose newer message has an unknown reactor fails at the stream, because the walk starts at the older message. No row is written and no user is looked up |
| ReactionCounter.LaterPageStopScenario | zulip_reaction_counter.py:65-83 | Paginating a clean first page with one known reactor, then a page with an unknown stream: two requests, one progress report, failure at the stream, and that one reactor cached with one remote call |
| ReactionCounter.EmptyPageScenario | zulip_reaction_counter.py:65-88 | Paginating a first page that is empty and not the oldest: one request, failure on the missing first message, and no row written |
| ReactionCounter.ExhaustedScenario | zulip_reaction_counter.py:65-88 | Paginating a single page that is not the oldest, with one reaction by a known user, after which the server has nothing more: one request, failure on the exhausted script, and exactly that page's one row written |
| ReactionCounter.NothingMatchesScenario | zulip_reaction_counter.py:65-86 | A filter that matches nothing gives one request, no rows, a counter of 0 and no error |

## Left out

- Argument parsing and client construction (lines 29-38) are I/O plumbing. The chunk size and the filter text are parameters. Line 38 reads the fixed path `~/zuliprc` rather than the `zuliprc` argument, and this is not modelled.
- The remote calls are left out:
  - `get_messages` is a finite script of responses, one per request. When the script ends before a page reports the oldest, the run ends with a failure of its own, which a real server could not cause. A real server that never reports the oldest would keep the loop going.
  - `get_user_by_id` is a finite map from user id to full name. Any failure of the call, or a response without `user.full_name`, is one "unknown user" error.
  - Transient network errors are not modelled.
  - An error answer from `get_messages` is not modelled. An example is a narrow operator the server rejects, which makes line 70 fail on the missing `messages` key. Every scripted response is a page.
- The stream map (lines 44-48) is given as a finite map from stream id to name. How it is built, and a failure of `get_streams`, are not modelled. In the program the narrow is parsed after the stream map is fetched and the CSV header is printed. With those calls outside the model, a malformed narrow simply stops the run before any message is requested.
- The CSV header (lines 39-40) and CSV quoting (line 41) are left out. Output is a sequence of row tuples.
- The verbose dump (lines 67-69) is left out. Line 69 writes the page size to standard output, interleaved with the CSV records, although the `--verbose` help says this output goes to standard error. The progress line (line 83) is modelled only as the counter value it reports.
- Every message carries a stream id. A message without one would fail at line 73; it cannot match the default narrow.
- Pagination.InitialRequest, Pagination.Absorb and Pagination.Reported have no contract of their own. They are the first request, the page step and the progress step of Pagination.Paginate, and what they compute is stated by Pagination.Paginate and ReactionCounter.FirstRequest.
- Flatten.EmitPage has no contract of its own. What it computes is stated by Flatten.EmitPageRows, Flatten.EmitPageWritten, Flatten.EmitPageFailure, Flatten.EmitPageCaches and Flatten.EmitPageCoherent.
- No claim is made that output is in chronological order. Each page is walked in reversed order and re-anchored on its first message, but the order in which the server returns messages is not part of the program.
- The cache key is `(client, user_id)`. With the single client of a run, the model keys the cache on the user id alone.
