/**
 The memoised user-name lookup. The process-wide cache of `get_user_name` is
 an explicit value here: a map from user id to full name plus a count of the
 remote `get_user_by_id` calls made so far. The server's user directory is
 a finite map; an id it does not hold makes the remote call fail.
 */
module UserNames {
  import opened Failures

  /** The server's users: user id to full name. */
  type Directory = map<int, string>

  datatype Cache = Cache(names: map<int, string>, remoteCalls: nat)

  /** The cache as it is when the process starts. */
  const EmptyCache := Cache(map[], 0)

  /** The cache only holds names the server gave. */
  predicate Agrees(c: Cache, users: Directory) {
    forall id :: id in c.names ==> id in users && c.names[id] == users[id]
  }

  /**
   The cache only holds names the server gave, and the remote calls made
   are exactly one per cached id: no call has failed.
   */
  predicate Coherent(c: Cache, users: Directory) {
    Agrees(c, users) && c.remoteCalls == |c.names|
  }

  /**
   The remote calls made are accounted for by `failure`, the failure that
   ended the work: one call per cached id, plus the one call whose answer
   held no user when the failure is an unknown user.
   */
  predicate CallsAccounted(c: Cache, users: Directory, failure: Option<Error>) {
    && Agrees(c, users)
    && c.remoteCalls == |c.names| + (if failure.Some? && failure.value.UnknownUser? then 1 else 0)
  }

  /** A cache that agrees with the server caches only ids the server knows. */
  lemma AgreesKnown(c: Cache, users: Directory)
    requires Agrees(c, users)
    ensures c.names.Keys <= users.Keys
  {
    forall id | id in c.names.Keys ensures id in users.Keys {
    }
  }

  /** `c'` keeps every entry of `c` unchanged and has made no fewer remote calls. */
  predicate Extends(c: Cache, c': Cache) {
    && (forall id :: id in c.names ==> id in c'.names && c'.names[id] == c.names[id])
    && c.remoteCalls <= c'.remoteCalls
  }

  /** The answer to one lookup, and the cache after it. */
  datatype Lookup = Lookup(result: Result<string>, cache: Cache)

  /**
   The full name of `userId`: from the cache when it is there, otherwise
   from one remote call whose answer is then cached. A remote call for an
   id the server does not know is still made, but caches nothing.
   */
  function GetUserName(users: Directory, c: Cache, userId: int): (r: Lookup)
    ensures r.result.Err? <==> userId !in c.names && userId !in users
    ensures r.result.Err? ==> r.result.error == UnknownUser(userId)
    ensures r.result.Err? ==> r.cache == c.(remoteCalls := c.remoteCalls + 1)
    ensures Extends(c, r.cache)
    ensures r.result.Ok? ==> r.cache.names.Keys == c.names.Keys + {userId}
    ensures r.result.Ok? ==> r.cache.names[userId] == r.result.value
    ensures r.result.Ok? && userId !in c.names ==> userId in users && r.result.value == users[userId]
    ensures r.cache.remoteCalls == c.remoteCalls + (if userId in c.names then 0 else 1)
    ensures userId in c.names ==> r.cache == c
    ensures Coherent(c, users) ==> CallsAccounted(r.cache, users, if r.result.Err? then Some(r.result.error) else None)
    ensures Coherent(c, users) && r.result.Ok? ==> r.result.value == users[userId]
  {
    if userId in c.names then Lookup(Ok(c.names[userId]), c)
    else if userId in users then
      var name := users[userId];
      assert c.names[userId := name].Keys == c.names.Keys + {userId};
      Lookup(Ok(name), Cache(c.names[userId := name], c.remoteCalls + 1))
    else Lookup(Err(UnknownUser(userId)), c.(remoteCalls := c.remoteCalls + 1))
  }

  datatype Repeated = Repeated(names: seq<string>, cache: Cache)

  /** `k` consecutive lookups of the same user id. */
  function LookupTimes(users: Directory, c: Cache, userId: int, k: nat): Result<Repeated>
    decreases k
  {
    if k == 0 then Ok(Repeated([], c))
    else
      var first := GetUserName(users, c, userId);
      match first.result
      case Err(e) => Err(e)
      case Ok(name) =>
        match LookupTimes(users, first.cache, userId, k - 1)
        case Err(e) => Err(e)
        case Ok(more) => Ok(Repeated([name] + more.names, more.cache))
  }

  /**
   Looking the same known user id up `k >= 1` times makes at most one remote
   call (exactly one when the id was not cached) and yields the same name
   every time: the server's name when the cache is coherent.
   */
  lemma {:induction false} RepeatedLookup(users: Directory, c: Cache, userId: int, k: nat)
    requires k >= 1
    requires userId in c.names || userId in users
    ensures LookupTimes(users, c, userId, k).Ok?
    ensures var r := LookupTimes(users, c, userId, k).value;
            && |r.names| == k
            && (forall i :: 0 <= i < k ==> r.names[i] == r.names[0])
            && r.cache.remoteCalls == c.remoteCalls + (if userId in c.names then 0 else 1)
            && r.cache.names.Keys == c.names.Keys + {userId}
    ensures Coherent(c, users) ==> LookupTimes(users, c, userId, k).value.names[0] == users[userId]
    decreases k
  {
    var first := GetUserName(users, c, userId);
    if k > 1 {
      CachedLookups(users, first.cache, userId, k - 1);
    }
  }

  /** Once an id is cached, any number of further lookups return the cached name and call nobody. */
  lemma {:induction false} CachedLookups(users: Directory, c: Cache, userId: int, k: nat)
    requires userId in c.names
    ensures LookupTimes(users, c, userId, k) == Ok(Repeated(seq(k, _ => c.names[userId]), c))
    decreases k
  {
    if k > 0 {
      CachedLookups(users, c, userId, k - 1);
      assert seq(k, _ => c.names[userId]) == [c.names[userId]] + seq(k - 1, _ => c.names[userId]);
    } else {
      assert seq(k, _ => c.names[userId]) == [];
    }
  }

  /**
   A lookup of an id the server does not know fails, costs one remote call
   and caches nothing, so a second lookup of that id calls the server again
   and fails again.
   */
  lemma UnknownNeverCached(users: Directory, c: Cache, userId: int)
    requires userId !in c.names && userId !in users
    ensures var first := GetUserName(users, c, userId);
            var second := GetUserName(users, first.cache, userId);
            && first.result == Err(UnknownUser(userId)) && second.result == Err(UnknownUser(userId))
            && first.cache == c.(remoteCalls := c.remoteCalls + 1)
            && second.cache.names == c.names
            && second.cache.remoteCalls == c.remoteCalls + 2
  {
  }
}
