/** The per-user listing cache of `getBlogsByUser`: a process-wide table from
    a user id to that user's posts, filled on the first request for the user
    and never emptied or refreshed afterwards. The storage query is not run
    here: its outcome is a parameter, and the model records whether the
    handler would have performed it. */
module UserBlogs {

  /** A stored post, as the storage layer returns it. */
  datatype Post = Post(id: int, title: string, description: string, authorId: int)

  /** What the storage query for a user's posts yields: the list (possibly
      empty) or a failure, which the handler turns into a server error. */
  datatype Fetch = Fetched(posts: seq<Post>) | StorageFailed

  /** What the handler answers: status 200 with the list, or status 500. */
  datatype Response = Ok(blogs: seq<Post>) | InternalError

  /** The table after one request, the answer, and whether the storage
      query ran. */
  datatype Served = Served(table: map<int, seq<Post>>, response: Response, fetched: bool)

  /** One request of `userId` against `table`. An entry is missing exactly
      when the lookup is falsy: every stored value is an array, and arrays
      are truthy even when empty. The query runs only on a miss; its list is
      stored before it is answered; a failing query stores nothing. */
  function Serve(table: map<int, seq<Post>>, userId: int, fetch: Fetch): (s: Served)
    ensures s.fetched <==> userId !in table
    ensures s.response.Ok? ==> userId in s.table && s.response.blogs == s.table[userId]
    ensures s.response.InternalError? <==> userId !in table && fetch.StorageFailed?
    ensures table.Keys <= s.table.Keys <= table.Keys + {userId}
    ensures forall k <- table :: s.table[k] == table[k]
  {
    if userId in table then Served(table, Ok(table[userId]), false)
    else match fetch
      case StorageFailed => Served(table, InternalError, true)
      case Fetched(posts) => Served(table[userId := posts], Ok(posts), true)
  }

  /** A hit answers the stored list and leaves the storage alone, whatever
      the storage would have answered. */
  lemma HitSkipsStorage(table: map<int, seq<Post>>, userId: int, fetch: Fetch)
    requires userId in table
    ensures Serve(table, userId, fetch) == Served(table, Ok(table[userId]), false)
  {
  }

  /** A miss stores and answers exactly the fetched list, the empty list
      included, and nothing else in the table changes. */
  lemma MissCachesFetched(table: map<int, seq<Post>>, userId: int, posts: seq<Post>)
    requires userId !in table
    ensures Serve(table, userId, Fetched(posts)) == Served(table[userId := posts], Ok(posts), true)
  {
  }

  /** A failing query leaves the table as it was and answers a server error. */
  lemma FailureKeepsTable(table: map<int, seq<Post>>, userId: int)
    requires userId !in table
    ensures Serve(table, userId, StorageFailed) == Served(table, InternalError, true)
  {
  }

  /** Because an empty list counts as a hit, a user with no posts is asked
      for once: the next request is answered from the table, even if the
      user has written posts in between. */
  lemma EmptyListIsCached(table: map<int, seq<Post>>, userId: int, later: Fetch)
    requires userId !in table
    ensures var first := Serve(table, userId, Fetched([]));
            var second := Serve(first.table, userId, later);
            !second.fetched && second.response == Ok([]) && second.table == first.table
  {
  }

  /** One request handled by the process, with what storage would answer. */
  datatype Request = Request(userId: int, fetch: Fetch)

  /** The table after a run of requests, handled one after another. */
  function Replay(table: map<int, seq<Post>>, requests: seq<Request>): (r: map<int, seq<Post>>)
    decreases |requests|
  {
    if requests == [] then table
    else Replay(Serve(table, requests[0].userId, requests[0].fetch).table, requests[1..])
  }

  /** Nothing ever invalidates an entry: once a user's list is in the table
      it stays, unchanged, through any later requests. */
  lemma {:induction false} EntriesNeverChange(table: map<int, seq<Post>>, requests: seq<Request>, userId: int)
    requires userId in table
    ensures userId in Replay(table, requests) && Replay(table, requests)[userId] == table[userId]
    decreases |requests|
  {
    if requests != [] {
      var next := Serve(table, requests[0].userId, requests[0].fetch).table;
      EntriesNeverChange(next, requests[1..], userId);
    }
  }

  /** A user has an entry after a run of requests exactly when they had one
      before, or one of the requests was theirs and its query succeeded. */
  lemma {:induction false} FilledUsers(table: map<int, seq<Post>>, requests: seq<Request>, userId: int)
    ensures userId in Replay(table, requests) <==>
            userId in table || exists i :: 0 <= i < |requests| && requests[i].userId == userId && requests[i].fetch.Fetched?
    decreases |requests|
  {
    if requests != [] {
      var next := Serve(table, requests[0].userId, requests[0].fetch).table;
      FilledUsers(next, requests[1..], userId);
      if exists i :: 0 <= i < |requests| && requests[i].userId == userId && requests[i].fetch.Fetched? {
        var i :| 0 <= i < |requests| && requests[i].userId == userId && requests[i].fetch.Fetched?;
        if i > 0 {
          assert requests[1..][i - 1] == requests[i];
        }
      }
      if exists j :: 0 <= j < |requests[1..]| && requests[1..][j].userId == userId && requests[1..][j].fetch.Fetched? {
        var j :| 0 <= j < |requests[1..]| && requests[1..][j].userId == userId && requests[1..][j].fetch.Fetched?;
        assert requests[j + 1] == requests[1..][j];
      }
    }
  }

  /** Once a user's list is in the table, every later request of that user
      is answered with that same list and runs no query. */
  lemma StaleAfterFill(table: map<int, seq<Post>>, requests: seq<Request>, userId: int, fetch: Fetch)
    requires userId in table
    ensures var s := Serve(Replay(table, requests), userId, fetch);
            !s.fetched && s.response == Ok(table[userId])
  {
    EntriesNeverChange(table, requests, userId);
  }

  /** The process-wide table `userBlogsHashTable`, updated in place by the
      handler. */
  class BlogCache {
    var table: map<int, seq<Post>>

    /** The table starts empty when the module loads. */
    constructor()
      ensures table == map[]
    {
      table := map[];
    }

    /** `getBlogsByUser` for the user id the authentication layer put on the
        request: look the user up; on a miss run the query and store its
        list; answer the stored list. A failing query ends in a server error
        before anything is stored. */
    method GetBlogsByUser(userId: int, fetch: Fetch) returns (response: Response, fetched: bool)
      modifies this
      ensures Served(table, response, fetched) == Serve(old(table), userId, fetch)
    {
      fetched := false;
      if userId !in table {
        fetched := true;
        match fetch
        case StorageFailed =>
          return InternalError, fetched;
        case Fetched(blogs) =>
          table := table[userId := blogs];
      }
      response := Ok(table[userId]);
    }
  }
}
