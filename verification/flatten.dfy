/**
 Flattening one page of messages into output rows: the page is walked in
 reversed order and every reaction of every message becomes one row
 (stream, sender, reactor, emoji, timestamp). The reactor's name comes from
 the memoised lookup, whose cache is threaded through the walk.
 */
module Flatten {
  import opened Failures
  import opened UserNames

  /** The stream directory fetched once at start-up: stream id to stream name. */
  type Streams = map<int, string>

  datatype Reaction = Reaction(emojiName: string, userId: int)

  datatype Message = Message(
    id: int,
    senderFullName: string,
    streamId: int,
    timestamp: int,
    reactions: seq<Reaction>)

  /** One output record. */
  datatype Row = Row(stream: string, sender: string, reactor: string, emoji: string, timestamp: int)

  /**
   What a walk left behind: the rows written (also those written before a
   failure, since rows go out one at a time), the cache, and the failure
   that stopped it, if any.
   */
  datatype Emitted = Emitted(rows: seq<Row>, cache: Cache, failure: Option<Error>)

  /** The rows of the reactions `rs` of message `m`, posted in stream `streamName`. */
  function EmitReactions(users: Directory, streamName: string, m: Message, rs: seq<Reaction>, c: Cache): (e: Emitted)
    ensures |e.rows| <= |rs|
    ensures e.failure.None? ==> |e.rows| == |rs|
    ensures Extends(c, e.cache)
    decreases |rs|
  {
    if rs == [] then Emitted([], c, None)
    else
      var who := GetUserName(users, c, rs[0].userId);
      match who.result
      case Err(err) => Emitted([], who.cache, Some(err))
      case Ok(name) =>
        var row := Row(streamName, m.senderFullName, name, rs[0].emojiName, m.timestamp);
        var rest := EmitReactions(users, streamName, m, rs[1..], who.cache);
        Emitted([row] + rest.rows, rest.cache, rest.failure)
  }

  /**
   The rows of one message. The stream name is looked up first, so a
   message with an unknown stream fails even when it has no reactions.
   */
  function EmitMessage(streams: Streams, users: Directory, m: Message, c: Cache): (e: Emitted)
    ensures m.streamId !in streams ==> e == Emitted([], c, Some(UnknownStream(m.streamId)))
    ensures |e.rows| <= |m.reactions|
    ensures e.failure.None? ==> |e.rows| == |m.reactions|
  {
    if m.streamId !in streams then Emitted([], c, Some(UnknownStream(m.streamId)))
    else EmitReactions(users, streams[m.streamId], m, m.reactions, c)
  }

  /** The rows of one page: its messages are walked from the last to the first. */
  function EmitPage(streams: Streams, users: Directory, msgs: seq<Message>, c: Cache): (e: Emitted)
    decreases |msgs|
  {
    if msgs == [] then Emitted([], c, None)
    else
      var last := EmitMessage(streams, users, msgs[|msgs| - 1], c);
      if last.failure.Some? then last
      else
        var rest := EmitPage(streams, users, msgs[..|msgs| - 1], last.cache);
        Emitted(last.rows + rest.rows, rest.cache, rest.failure)
  }

  // ---------------------------------------------------------------------
  // A cache-free reference for the rows of a page.
  // ---------------------------------------------------------------------

  /** Every stream of the page is known and every reactor on it is a user the server knows. */
  predicate Resolvable(streams: Streams, users: Directory, msgs: seq<Message>) {
    forall m :: m in msgs ==> m.streamId in streams && forall r :: r in m.reactions ==> r.userId in users
  }

  /** One row per reaction of `m`, in reaction-list order. */
  function MessageRows(streams: Streams, users: Directory, m: Message): (rows: seq<Row>)
    requires Resolvable(streams, users, [m])
    ensures |rows| == |m.reactions|
  {
    assert m in [m];
    seq(|m.reactions|, i requires 0 <= i < |m.reactions| =>
      Row(streams[m.streamId], m.senderFullName, users[m.reactions[i].userId],
          m.reactions[i].emojiName, m.timestamp))
  }

  function Reverse<T>(xs: seq<T>): (ys: seq<T>)
    ensures |ys| == |xs|
    ensures forall i :: 0 <= i < |xs| ==> ys[i] == xs[|xs| - 1 - i]
  {
    if xs == [] then [] else [xs[|xs| - 1]] + Reverse(xs[..|xs| - 1])
  }

  /** The rows of `msgs` taken in the order given. */
  function RowsInOrder(streams: Streams, users: Directory, msgs: seq<Message>): seq<Row>
    requires Resolvable(streams, users, msgs)
  {
    if msgs == [] then []
    else
      assert msgs[0] in msgs;
      MessageRows(streams, users, msgs[0]) + RowsInOrder(streams, users, msgs[1..])
  }

  /** The rows a page should produce: its messages in reversed order, each one's reactions in order. */
  function PageRows(streams: Streams, users: Directory, msgs: seq<Message>): seq<Row>
    requires Resolvable(streams, users, msgs)
  {
    RowsInOrder(streams, users, Reverse(msgs))
  }

  function ReactionCount(msgs: seq<Message>): nat {
    if msgs == [] then 0 else |msgs[0].reactions| + ReactionCount(msgs[1..])
  }

  /** The user ids that reacted to some message of `msgs`. */
  function Reactors(msgs: seq<Message>): set<int> {
    if msgs == [] then {} else Reactors(msgs[..|msgs| - 1]) + ReactionUsers(msgs[|msgs| - 1].reactions)
  }

  /** The user ids that reacted in `rs`. */
  function ReactionUsers(rs: seq<Reaction>): set<int> {
    set r | r in rs :: r.userId
  }

  /** The rows the reactions `rs` of `m` yield before the first reactor the server does not know. */
  function ReactionRowsUntil(streamName: string, users: Directory, m: Message, rs: seq<Reaction>): seq<Row> {
    if rs == [] || rs[0].userId !in users then []
    else [Row(streamName, m.senderFullName, users[rs[0].userId], rs[0].emojiName, m.timestamp)]
         + ReactionRowsUntil(streamName, users, m, rs[1..])
  }

  /** The rows `m` yields before it fails: none at all when its stream is unknown. */
  function MessageRowsUntil(streams: Streams, users: Directory, m: Message): seq<Row> {
    if m.streamId !in streams then [] else ReactionRowsUntil(streams[m.streamId], users, m, m.reactions)
  }

  /**
   The rows a page yields up to its first failure: its messages from the
   last to the first, stopping inside the first message that names an
   unknown stream or reactor.
   */
  function PageRowsUntil(streams: Streams, users: Directory, msgs: seq<Message>): seq<Row> {
    if msgs == [] then []
    else
      var m := msgs[|msgs| - 1];
      MessageRowsUntil(streams, users, m)
      + (if Resolvable(streams, users, [m]) then PageRowsUntil(streams, users, msgs[..|msgs| - 1]) else [])
  }

  /** The failure the reactions `rs` run into: their first reactor the server does not know. */
  function ReactionFailure(users: Directory, rs: seq<Reaction>): Option<Error> {
    if rs == [] then None
    else if rs[0].userId !in users then Some(UnknownUser(rs[0].userId))
    else ReactionFailure(users, rs[1..])
  }

  /** The failure `m` runs into: its stream when that is unknown, else its first unknown reactor. */
  function MessageFailure(streams: Streams, users: Directory, m: Message): Option<Error> {
    if m.streamId !in streams then Some(UnknownStream(m.streamId)) else ReactionFailure(users, m.reactions)
  }

  /** The failure a page runs into: the first one met walking its messages from the last to the first. */
  function PageFailure(streams: Streams, users: Directory, msgs: seq<Message>): Option<Error> {
    if msgs == [] then None
    else
      var f := MessageFailure(streams, users, msgs[|msgs| - 1]);
      if f.Some? then f else PageFailure(streams, users, msgs[..|msgs| - 1])
  }

  /** The reactors of `rs` met before the first one the server does not know. */
  function ReactorsUntil(users: Directory, rs: seq<Reaction>): (ids: set<int>)
    ensures ids <= users.Keys
    ensures ids <= ReactionUsers(rs)
    decreases |rs|
  {
    if rs == [] || rs[0].userId !in users then {} else {rs[0].userId} + ReactorsUntil(users, rs[1..])
  }

  /** The reactors `m` gets to look up: none when its stream is unknown. */
  function MessageReactorsUntil(streams: Streams, users: Directory, m: Message): (ids: set<int>)
    ensures ids <= users.Keys
  {
    if m.streamId !in streams then {} else ReactorsUntil(users, m.reactions)
  }

  /** The known reactors a page gets to look up before its first failure, in the order of `PageRowsUntil`. */
  function PageReactorsUntil(streams: Streams, users: Directory, msgs: seq<Message>): set<int> {
    if msgs == [] then {}
    else
      var m := msgs[|msgs| - 1];
      MessageReactorsUntil(streams, users, m)
      + (if Resolvable(streams, users, [m]) then PageReactorsUntil(streams, users, msgs[..|msgs| - 1]) else {})
  }

  /** `err` is a failure the page `msgs` can cause: an unknown stream or reactor that occurs on it. */
  predicate Explains(streams: Streams, users: Directory, msgs: seq<Message>, err: Error) {
    || (err.UnknownStream? && err.streamId !in streams && exists m :: m in msgs && m.streamId == err.streamId)
    || (err.UnknownUser? && err.userId !in users
        && exists m :: m in msgs && exists r :: r in m.reactions && r.userId == err.userId)
  }

  /**
   Starting from a coherent cache, the remote calls of a walk are one per
   newly cached reactor, plus the failed call when the walk stops at an
   unknown reactor.
   */
  lemma {:induction false} EmitReactionsCoherent(users: Directory, streamName: string, m: Message, rs: seq<Reaction>, c: Cache)
    requires Coherent(c, users)
    ensures var e := EmitReactions(users, streamName, m, rs, c);
            CallsAccounted(e.cache, users, e.failure)
    decreases |rs|
  {
    if rs != [] {
      var res := GetUserName(users, c, rs[0].userId);
      if res.result.Ok? {
        EmitReactionsCoherent(users, streamName, m, rs[1..], res.cache);
      }
    }
  }

  /**
   With a coherent cache, the reactions of a message flatten without failure
   exactly when every reactor is a known user; otherwise the failure names
   the first unknown reactor of the list.
   */
  lemma {:induction false} EmitReactionsFailure(users: Directory, streamName: string, m: Message, rs: seq<Reaction>, c: Cache)
    requires Coherent(c, users)
    ensures var e := EmitReactions(users, streamName, m, rs, c);
            && (e.failure.None? <==> forall r :: r in rs ==> r.userId in users)
            && (e.failure.Some? ==> e.failure.value.UnknownUser?
                                    && e.failure.value.userId !in users
                                    && exists r :: r in rs && r.userId == e.failure.value.userId)
            && e.failure == ReactionFailure(users, rs)
    decreases |rs|
  {
    AgreesKnown(c, users);
    EmitReactionsStops(users, streamName, m, rs, c);
    if rs != [] {
      assert forall r :: r in rs <==> r == rs[0] || r in rs[1..] by {
        assert rs == [rs[0]] + rs[1..];
      }
      var res := GetUserName(users, c, rs[0].userId);
      if res.result.Ok? {
        EmitReactionsFailure(users, streamName, m, rs[1..], res.cache);
      }
    }
  }

  /**
   When every reactor is known, a coherent cache makes the walk yield one row
   per reaction, in order, each carrying the server's name of its reactor.
   */
  lemma {:induction false} EmitReactionsRows(users: Directory, streamName: string, m: Message, rs: seq<Reaction>, c: Cache)
    requires Coherent(c, users)
    requires forall r :: r in rs ==> r.userId in users
    ensures var e := EmitReactions(users, streamName, m, rs, c);
            && e.failure.None?
            && |e.rows| == |rs|
            && (forall i :: 0 <= i < |rs| ==>
                  e.rows[i] == Row(streamName, m.senderFullName, users[rs[i].userId], rs[i].emojiName, m.timestamp))
    decreases |rs|
  {
    if rs != [] {
      assert rs[0] in rs;
      var who := GetUserName(users, c, rs[0].userId);
      assert who.result == Ok(users[rs[0].userId]);
      assert forall r :: r in rs[1..] ==> r in rs;
      EmitReactionsRows(users, streamName, m, rs[1..], who.cache);
      var rest := EmitReactions(users, streamName, m, rs[1..], who.cache);
      var e := EmitReactions(users, streamName, m, rs, c);
      assert e.rows == [Row(streamName, m.senderFullName, who.result.value, rs[0].emojiName, m.timestamp)] + rest.rows;
      forall i | 0 < i < |rs|
        ensures e.rows[i] == Row(streamName, m.senderFullName, users[rs[i].userId], rs[i].emojiName, m.timestamp)
      {
        assert e.rows[i] == rest.rows[i - 1];
        assert rs[1..][i - 1] == rs[i];
      }
    }
  }

  lemma ReactionUsersCons(rs: seq<Reaction>)
    requires rs != []
    ensures ReactionUsers(rs) == {rs[0].userId} + ReactionUsers(rs[1..])
  {
    assert forall r :: r in rs <==> r == rs[0] || r in rs[1..] by {
      assert rs == [rs[0]] + rs[1..];
    }
  }

  /** When every reactor is known, the cache gains exactly the reactors of the walk. */
  lemma {:induction false} EmitReactionsCaches(users: Directory, streamName: string, m: Message, rs: seq<Reaction>, c: Cache)
    requires forall r :: r in rs ==> r.userId in users
    ensures EmitReactions(users, streamName, m, rs, c).cache.names.Keys == c.names.Keys + ReactionUsers(rs)
    decreases |rs|
  {
    if rs == [] {
      assert ReactionUsers(rs) == {};
    } else {
      assert rs[0] in rs;
      var who := GetUserName(users, c, rs[0].userId);
      assert who.cache.names.Keys == c.names.Keys + {rs[0].userId};
      assert forall r :: r in rs[1..] ==> r in rs;
      EmitReactionsCaches(users, streamName, m, rs[1..], who.cache);
      assert EmitReactions(users, streamName, m, rs, c).cache == EmitReactions(users, streamName, m, rs[1..], who.cache).cache;
      ReactionUsersCons(rs);
    }
  }

  lemma ResolvableSingle(streams: Streams, users: Directory, m: Message)
    ensures Resolvable(streams, users, [m])
            <==> m.streamId in streams && forall r :: r in m.reactions ==> r.userId in users
  {
    assert m in [m];
  }

  lemma ExplainsSingle(streams: Streams, users: Directory, m: Message, err: Error)
    requires || (err.UnknownStream? && err.streamId !in streams && m.streamId == err.streamId)
             || (err.UnknownUser? && err.userId !in users && exists r :: r in m.reactions && r.userId == err.userId)
    ensures Explains(streams, users, [m], err)
  {
    assert m in [m];
  }

  /**
   With a coherent cache, a message flattens without failure exactly when it
   is resolvable, into its reference rows; otherwise it fails at its stream
   when that is unknown, else at its first unknown reactor.
   */
  lemma EmitMessageSound(streams: Streams, users: Directory, m: Message, c: Cache)
    requires Coherent(c, users)
    ensures var e := EmitMessage(streams, users, m, c);
            && CallsAccounted(e.cache, users, e.failure)
            && (e.failure.None? <==> Resolvable(streams, users, [m]))
            && (e.failure.Some? ==> Explains(streams, users, [m], e.failure.value))
            && (e.failure.None? ==> e.rows == MessageRows(streams, users, m))
            && e.failure == MessageFailure(streams, users, m)
  {
    var e := EmitMessage(streams, users, m, c);
    ResolvableSingle(streams, users, m);
    if m.streamId in streams {
      var sn := streams[m.streamId];
      EmitReactionsCoherent(users, sn, m, m.reactions, c);
      EmitReactionsFailure(users, sn, m, m.reactions, c);
      if e.failure.Some? {
        ExplainsSingle(streams, users, m, e.failure.value);
      } else {
        EmitReactionsRows(users, sn, m, m.reactions, c);
      }
    } else {
      ExplainsSingle(streams, users, m, e.failure.value);
    }
  }

  /** A resolvable message, flattened with a coherent cache, adds exactly its reactors to a still coherent cache. */
  lemma EmitMessageCaches(streams: Streams, users: Directory, m: Message, c: Cache)
    requires Coherent(c, users)
    requires m.streamId in streams && forall r :: r in m.reactions ==> r.userId in users
    ensures var e := EmitMessage(streams, users, m, c);
            && e.failure.None?
            && Coherent(e.cache, users)
            && e.cache.names.Keys == c.names.Keys + ReactionUsers(m.reactions)
  {
    var sn := streams[m.streamId];
    EmitReactionsCoherent(users, sn, m, m.reactions, c);
    EmitReactionsFailure(users, sn, m, m.reactions, c);
    EmitReactionsCaches(users, sn, m, m.reactions, c);
  }

  lemma UnionStep<T>(k0: set<T>, k1: set<T>, k2: set<T>, added: set<T>, more: set<T>)
    requires k1 == k0 + added && k2 == k1 + more
    ensures k2 == k0 + (more + added)
  {
  }

  lemma ReactorsSplit(msgs: seq<Message>)
    requires msgs != []
    ensures Reactors(msgs) == Reactors([msgs[|msgs| - 1]]) + Reactors(msgs[..|msgs| - 1])
  {
    var m := msgs[|msgs| - 1];
    assert [m][..0] == [];
    assert Reactors([m]) == ReactionUsers(m.reactions);
  }

  lemma ResolvableSplit(streams: Streams, users: Directory, msgs: seq<Message>)
    requires msgs != []
    ensures Resolvable(streams, users, msgs)
            <==> Resolvable(streams, users, [msgs[|msgs| - 1]]) && Resolvable(streams, users, msgs[..|msgs| - 1])
  {
    assert msgs == msgs[..|msgs| - 1] + [msgs[|msgs| - 1]];
    assert forall x :: x in msgs <==> x == msgs[|msgs| - 1] || x in msgs[..|msgs| - 1];
  }

  /** The reversed walk, message by message from the back, yields the rows of the reversed page in order. */
  lemma PageRowsLast(streams: Streams, users: Directory, msgs: seq<Message>)
    requires msgs != []
    requires Resolvable(streams, users, msgs)
    ensures Resolvable(streams, users, [msgs[|msgs| - 1]]) && Resolvable(streams, users, msgs[..|msgs| - 1])
    ensures PageRows(streams, users, msgs)
            == MessageRows(streams, users, msgs[|msgs| - 1]) + PageRows(streams, users, msgs[..|msgs| - 1])
  {
    ResolvableSplit(streams, users, msgs);
    var rev := Reverse(msgs);
    assert rev[0] == msgs[|msgs| - 1];
    assert rev[1..] == Reverse(msgs[..|msgs| - 1]);
  }

  /**
   Flattening a page from a coherent cache caches only the server's names,
   and its remote calls are one per newly cached reactor, plus the failed
   call when the page stops at an unknown reactor.
   */
  lemma {:induction false} EmitPageCoherent(streams: Streams, users: Directory, msgs: seq<Message>, c: Cache)
    requires Coherent(c, users)
    ensures var e := EmitPage(streams, users, msgs, c);
            CallsAccounted(e.cache, users, e.failure)
    decreases |msgs|
  {
    if msgs != [] {
      EmitMessageSound(streams, users, msgs[|msgs| - 1], c);
      var last := EmitMessage(streams, users, msgs[|msgs| - 1], c);
      if last.failure.None? {
        EmitPageCoherent(streams, users, msgs[..|msgs| - 1], last.cache);
      }
    }
  }

  /**
   With a coherent cache, a page flattens without failure exactly when it is
   resolvable; a failure names an unknown stream or reactor of the page, the
   first one met walking it from the last message to the first.
   */
  lemma {:induction false} EmitPageFailure(streams: Streams, users: Directory, msgs: seq<Message>, c: Cache)
    requires Coherent(c, users)
    ensures var e := EmitPage(streams, users, msgs, c);
            && (e.failure.None? <==> Resolvable(streams, users, msgs))
            && (e.failure.Some? ==> Explains(streams, users, msgs, e.failure.value))
            && e.failure == PageFailure(streams, users, msgs)
    decreases |msgs|
  {
    AgreesKnown(c, users);
    EmitPageStops(streams, users, msgs, c);
    if msgs != [] {
      var m := msgs[|msgs| - 1];
      var init := msgs[..|msgs| - 1];
      EmitMessageSound(streams, users, m, c);
      ResolvableSplit(streams, users, msgs);
      var last := EmitMessage(streams, users, m, c);
      assert forall x :: x in [m] ==> x in msgs;
      assert forall x :: x in init ==> x in msgs;
      if last.failure.None? {
        EmitPageFailure(streams, users, init, last.cache);
      }
    }
  }

  /**
   A resolvable page, flattened with a coherent cache, yields the cache-free
   reference rows: the messages in reversed order, one row per reaction in
   reaction order.
   */
  lemma {:induction false} EmitPageRows(streams: Streams, users: Directory, msgs: seq<Message>, c: Cache)
    requires Coherent(c, users)
    requires Resolvable(streams, users, msgs)
    ensures EmitPage(streams, users, msgs, c).failure.None?
    ensures EmitPage(streams, users, msgs, c).rows == PageRows(streams, users, msgs)
    decreases |msgs|
  {
    if msgs != [] {
      var m := msgs[|msgs| - 1];
      var init := msgs[..|msgs| - 1];
      PageRowsLast(streams, users, msgs);
      EmitMessageSound(streams, users, m, c);
      var last := EmitMessage(streams, users, m, c);
      assert last.failure.None? && last.rows == MessageRows(streams, users, m);
      EmitPageRows(streams, users, init, last.cache);
      var rest := EmitPage(streams, users, init, last.cache);
      assert EmitPage(streams, users, msgs, c).rows == last.rows + rest.rows;
    }
  }

  /** With a coherent cache, the walk over a message's reactions writes exactly the rows before its first unknown reactor. */
  lemma {:induction false} EmitReactionsWritten(users: Directory, streamName: string, m: Message, rs: seq<Reaction>, c: Cache)
    requires Coherent(c, users)
    ensures EmitReactions(users, streamName, m, rs, c).rows == ReactionRowsUntil(streamName, users, m, rs)
    decreases |rs|
  {
    if rs != [] {
      var who := GetUserName(users, c, rs[0].userId);
      if rs[0].userId in users {
        assert who.result == Ok(users[rs[0].userId]) && Coherent(who.cache, users);
        EmitReactionsWritten(users, streamName, m, rs[1..], who.cache);
      } else {
        assert who.result.Err?;
      }
    }
  }

  /**
   With a coherent cache, a page writes exactly the rows of its cache-free
   reference up to the first failure, whether or not it fails.
   */
  lemma {:induction false} EmitPageWritten(streams: Streams, users: Directory, msgs: seq<Message>, c: Cache)
    requires Coherent(c, users)
    ensures EmitPage(streams, users, msgs, c).rows == PageRowsUntil(streams, users, msgs)
    decreases |msgs|
  {
    if msgs != [] {
      var m := msgs[|msgs| - 1];
      var last := EmitMessage(streams, users, m, c);
      EmitMessageSound(streams, users, m, c);
      if m.streamId in streams {
        EmitReactionsWritten(users, streams[m.streamId], m, m.reactions, c);
      }
      assert last.rows == MessageRowsUntil(streams, users, m);
      if last.failure.None? {
        EmitPageWritten(streams, users, msgs[..|msgs| - 1], last.cache);
      }
    }
  }

  /** On a resolvable page nothing fails, so the rows up to the first failure are all of its rows. */
  lemma PageRowsUntilResolvable(streams: Streams, users: Directory, msgs: seq<Message>)
    requires Resolvable(streams, users, msgs)
    ensures PageRowsUntil(streams, users, msgs) == PageRows(streams, users, msgs)
  {
    EmitPageWritten(streams, users, msgs, EmptyCache);
    EmitPageRows(streams, users, msgs, EmptyCache);
  }

  /** The reactions of a message run into no failure exactly when every reactor is a known user. */
  lemma {:induction false} ReactionFailureNone(users: Directory, rs: seq<Reaction>)
    ensures ReactionFailure(users, rs).None? <==> forall r :: r in rs ==> r.userId in users
    ensures ReactionFailure(users, rs).Some? ==> ReactionFailure(users, rs).value.UnknownUser?
    decreases |rs|
  {
    if rs != [] {
      assert forall r :: r in rs <==> r == rs[0] || r in rs[1..] by {
        assert rs == [rs[0]] + rs[1..];
      }
      ReactionFailureNone(users, rs[1..]);
    }
  }

  /** A message runs into no failure exactly when it is resolvable. */
  lemma MessageFailureNone(streams: Streams, users: Directory, m: Message)
    ensures MessageFailure(streams, users, m).None? <==> Resolvable(streams, users, [m])
  {
    ResolvableSingle(streams, users, m);
    ReactionFailureNone(users, m.reactions);
  }

  /**
   The walk over a message's reactions, from a cache that holds only the
   server's users, stops at the first reactor the server does not know.
   */
  lemma {:induction false} EmitReactionsStops(users: Directory, streamName: string, m: Message, rs: seq<Reaction>, c: Cache)
    requires c.names.Keys <= users.Keys
    ensures EmitReactions(users, streamName, m, rs, c).failure == ReactionFailure(users, rs)
    decreases |rs|
  {
    if rs != [] {
      var id := rs[0].userId;
      var who := GetUserName(users, c, id);
      if id in users {
        assert who.result.Ok? && who.cache.names.Keys == c.names.Keys + {id};
        EmitReactionsStops(users, streamName, m, rs[1..], who.cache);
      } else {
        assert who.result.Err?;
      }
    }
  }

  /**
   The walk over a message's reactions, from a cache that holds only the
   server's users, caches exactly the reactors before the first unknown one.
   */
  lemma {:induction false} EmitReactionsCachesUntil(users: Directory, streamName: string, m: Message, rs: seq<Reaction>, c: Cache)
    requires c.names.Keys <= users.Keys
    ensures EmitReactions(users, streamName, m, rs, c).cache.names.Keys == c.names.Keys + ReactorsUntil(users, rs)
    decreases |rs|
  {
    if rs != [] {
      var id := rs[0].userId;
      var who := GetUserName(users, c, id);
      if id in users {
        assert who.result.Ok? && who.cache.names.Keys == c.names.Keys + {id};
        EmitReactionsCachesUntil(users, streamName, m, rs[1..], who.cache);
      } else {
        assert who.result.Err? && who.cache.names == c.names;
      }
    }
  }

  /** One message, from a cache that holds only the server's users, stops at its own first failure and caches the reactors before it. */
  lemma EmitMessageStops(streams: Streams, users: Directory, m: Message, c: Cache)
    requires c.names.Keys <= users.Keys
    ensures var e := EmitMessage(streams, users, m, c);
            && e.failure == MessageFailure(streams, users, m)
            && e.cache.names.Keys == c.names.Keys + MessageReactorsUntil(streams, users, m)
  {
    if m.streamId in streams {
      EmitReactionsStops(users, streams[m.streamId], m, m.reactions, c);
      EmitReactionsCachesUntil(users, streams[m.streamId], m, m.reactions, c);
    }
  }

  /**
   A page, from a cache that holds only the server's users, stops at the
   first failure met walking it from the last message to the first.
   */
  lemma {:induction false} EmitPageStops(streams: Streams, users: Directory, msgs: seq<Message>, c: Cache)
    requires c.names.Keys <= users.Keys
    ensures EmitPage(streams, users, msgs, c).failure == PageFailure(streams, users, msgs)
    decreases |msgs|
  {
    if msgs != [] {
      var m := msgs[|msgs| - 1];
      var last := EmitMessage(streams, users, m, c);
      EmitMessageStops(streams, users, m, c);
      if last.failure.None? {
        EmitPageStops(streams, users, msgs[..|msgs| - 1], last.cache);
      }
    }
  }

  /**
   A page, from a cache that holds only the server's users, caches exactly
   the reactors it looks up before its first failure.
   */
  lemma {:induction false} EmitPageCachesUntil(streams: Streams, users: Directory, msgs: seq<Message>, c: Cache)
    requires c.names.Keys <= users.Keys
    ensures EmitPage(streams, users, msgs, c).cache.names.Keys == c.names.Keys + PageReactorsUntil(streams, users, msgs)
    decreases |msgs|
  {
    if msgs != [] {
      var m := msgs[|msgs| - 1];
      var init := msgs[..|msgs| - 1];
      var last := EmitMessage(streams, users, m, c);
      EmitMessageStops(streams, users, m, c);
      MessageFailureNone(streams, users, m);
      if last.failure.None? {
        EmitPageCachesUntil(streams, users, init, last.cache);
        var e := EmitPage(streams, users, msgs, c);
        assert e.cache == EmitPage(streams, users, init, last.cache).cache;
        UnionStep(c.names.Keys, last.cache.names.Keys, e.cache.names.Keys,
                  MessageReactorsUntil(streams, users, m), PageReactorsUntil(streams, users, init));
      }
    }
  }

  /**
   A page runs into no failure exactly when it is resolvable, and the
   failure it runs into is an unknown stream or reactor that occurs on it.
   */
  lemma PageFailureResolvable(streams: Streams, users: Directory, msgs: seq<Message>)
    ensures PageFailure(streams, users, msgs).None? <==> Resolvable(streams, users, msgs)
    ensures PageFailure(streams, users, msgs).Some? ==> Explains(streams, users, msgs, PageFailure(streams, users, msgs).value)
  {
    EmitPageStops(streams, users, msgs, EmptyCache);
    EmitPageFailure(streams, users, msgs, EmptyCache);
  }

  /** On a resolvable page nothing fails, so the reactors looked up before a failure are all of its reactors. */
  lemma PageReactorsUntilResolvable(streams: Streams, users: Directory, msgs: seq<Message>)
    requires Resolvable(streams, users, msgs)
    ensures PageReactorsUntil(streams, users, msgs) == Reactors(msgs)
  {
    EmitPageCachesUntil(streams, users, msgs, EmptyCache);
    EmitPageCaches(streams, users, msgs, EmptyCache);
  }

  /** A resolvable page, flattened with a coherent cache, adds exactly its reactors to the cache. */
  lemma {:induction false} EmitPageCaches(streams: Streams, users: Directory, msgs: seq<Message>, c: Cache)
    requires Coherent(c, users)
    requires Resolvable(streams, users, msgs)
    ensures EmitPage(streams, users, msgs, c).cache.names.Keys == c.names.Keys + Reactors(msgs)
    decreases |msgs|
  {
    if msgs != [] {
      var m := msgs[|msgs| - 1];
      var init := msgs[..|msgs| - 1];
      assert m in msgs;
      assert Resolvable(streams, users, init) by {
        assert forall x :: x in init ==> x in msgs;
      }
      EmitMessageCaches(streams, users, m, c);
      var last := EmitMessage(streams, users, m, c);
      EmitPageCaches(streams, users, init, last.cache);
      var e := EmitPage(streams, users, msgs, c);
      assert e.cache == EmitPage(streams, users, init, last.cache).cache;
      UnionStep(c.names.Keys, last.cache.names.Keys, e.cache.names.Keys,
                ReactionUsers(m.reactions), Reactors(init));
    }
  }

  lemma {:induction false} RowsInOrderCount(streams: Streams, users: Directory, msgs: seq<Message>)
    requires Resolvable(streams, users, msgs)
    ensures |RowsInOrder(streams, users, msgs)| == ReactionCount(msgs)
    decreases |msgs|
  {
    if msgs != [] {
      assert forall x :: x in msgs[1..] ==> x in msgs;
      RowsInOrderCount(streams, users, msgs[1..]);
    }
  }

  lemma {:induction false} ReactionCountAppend(msgs: seq<Message>, m: Message)
    ensures ReactionCount(msgs + [m]) == ReactionCount(msgs) + |m.reactions|
    decreases |msgs|
  {
    if msgs == [] {
      assert msgs + [m] == [m];
    } else {
      assert (msgs + [m])[1..] == msgs[1..] + [m];
      ReactionCountAppend(msgs[1..], m);
    }
  }

  lemma {:induction false} ReactionCountReverse(msgs: seq<Message>)
    ensures ReactionCount(Reverse(msgs)) == ReactionCount(msgs)
    decreases |msgs|
  {
    if msgs != [] {
      var init := msgs[..|msgs| - 1];
      var m := msgs[|msgs| - 1];
      ReactionCountReverse(init);
      ReactionCountAppend(init, m);
      assert msgs == init + [m];
      assert Reverse(msgs)[1..] == Reverse(init);
    }
  }

  /** A page yields exactly as many rows as it holds reactions; messages without reactions yield none. */
  lemma PageRowCount(streams: Streams, users: Directory, msgs: seq<Message>)
    requires Resolvable(streams, users, msgs)
    ensures |PageRows(streams, users, msgs)| == ReactionCount(msgs)
  {
    var rev := Reverse(msgs);
    assert forall x :: x in rev ==> x in msgs;
    RowsInOrderCount(streams, users, rev);
    ReactionCountReverse(msgs);
  }
}
