/** The five routes of the backend as requests against the store, and what
    holds of any run of requests starting from the seed posts. Every request
    is handled atomically, one after another. */
module Api {
  import opened Optional
  import opened Posts
  import opened PostStore

  /** A request after the HTTP layer has parsed it. The `<int:id>` route
      converter only matches non-negative integers. */
  datatype Request =
    | GetPosts(sort: Option<string>, direction: Option<string>)
    | AddPost(title: Option<string>, content: Option<string>)
    | DeletePost(id: nat)
    | UpdatePost(id: nat, title: Option<string>, content: Option<string>)
    | SearchPosts(titleTerm: Option<string>, contentTerm: Option<string>)

  /** What the handler answers, without the JSON encoding. */
  datatype Reply =
    | PostList(posts: seq<Post>)      // 200, a list of posts
    | Created(post: Post)             // 201
    | Deleted(id: int)                // 200, "Post with ID .. has been deleted."
    | Updated(post: Post)             // 200
    | MissingFields                   // 400, "Missing title and/or content"
    | PostNotFound(id: int)           // 404, "Post with ID .. not found."
    | ServerError                     // 500, the exception raised by max()
  {
    predicate IsError() {
      MissingFields? || PostNotFound? || ServerError?
    }
  }

  function ErrorReply(e: Error): (r: Reply)
    ensures r.IsError()
  {
    match e
    case MissingTitleOrContent => MissingFields
    case NotFound(id) => PostNotFound(id)
    case EmptyMax => ServerError
  }

  /** Dispatches one request to its handler. */
  function Handle(store: Store, req: Request): (r: (Store, Reply))
    ensures r.1.IsError() ==> r.0 == store
    ensures req.SearchPosts? ==> r.0 == store && r.1.PostList?
    ensures req.GetPosts? ==> r.1 == PostList(r.0) && multiset(r.0) == multiset(store)
    ensures r.1.Created? ==> r.0 == store + [r.1.post]
    ensures r.1.Deleted? ==> |r.0| < |store|
    ensures r.1.Updated? ==> |r.0| == |store|
  {
    match req
    case GetPosts(sort, direction) =>
      var out := List(store, sort, direction);
      (out.0, PostList(out.1))
    case AddPost(title, content) =>
      var out := Create(store, title, content);
      (out.0, if out.1.Ok? then Created(out.1.value) else ErrorReply(out.1.error))
    case DeletePost(id) =>
      var out := Delete(store, id);
      (out.0, if out.1.Ok? then Deleted(out.1.value) else ErrorReply(out.1.error))
    case UpdatePost(id, title, content) =>
      var out := Update(store, id, title, content);
      (out.0, if out.1.Ok? then Updated(out.1.value) else ErrorReply(out.1.error))
    case SearchPosts(titleTerm, contentTerm) =>
      (store, PostList(Search(store, titleTerm, contentTerm)))
  }

  /** The store after handling `reqs` in order. */
  function Run(store: Store, reqs: seq<Request>): Store
    decreases |reqs|
  {
    if |reqs| == 0 then store
    else Run(Handle(store, reqs[0]).0, reqs[1..])
  }

  lemma HandlePreservesWellFormed(store: Store, req: Request)
    requires WellFormed(store)
    ensures WellFormed(Handle(store, req).0)
  {
    match req
    case GetPosts(sort, direction) => ListPreservesWellFormed(store, sort, direction);
    case AddPost(title, content) => CreatePreservesWellFormed(store, title, content);
    case DeletePost(id) => DeletePreservesWellFormed(store, id);
    case UpdatePost(id, title, content) => UpdatePreservesWellFormed(store, id, title, content);
    case SearchPosts(_, _) =>
  }

  lemma {:induction false} RunPreservesWellFormed(store: Store, reqs: seq<Request>)
    requires WellFormed(store)
    ensures WellFormed(Run(store, reqs))
    decreases |reqs|
  {
    if |reqs| > 0 {
      HandlePreservesWellFormed(store, reqs[0]);
      RunPreservesWellFormed(Handle(store, reqs[0]).0, reqs[1..]);
    }
  }

  /** Whatever requests arrive, the posts keep unique, positive ids. */
  lemma RunFromSeedWellFormed(reqs: seq<Request>)
    ensures WellFormed(Run(Seed, reqs))
  {
    SeedWellFormed();
    RunPreservesWellFormed(Seed, reqs);
  }

  /** Deleting both seed posts makes every later valid create fail, since the
      next id is computed from the maximum of an empty list. */
  lemma CreateFailsOnceEmptied()
    ensures var s1 := Handle(Seed, DeletePost(1));
            var s2 := Handle(s1.0, DeletePost(2));
            var s3 := Handle(s2.0, AddPost(Some("Third"), Some("Hi")));
            s1.1 == Deleted(1) && s2.1 == Deleted(2) && s2.0 == [] && s3.1 == ServerError
  {
    var s1 := Handle(Seed, DeletePost(1));
    assert Seed[0].id == 1;
    assert Seed[1] in s1.0;
    assert |s1.0| < 2 && s1.0 == [Seed[1]];
    var s2 := Handle(s1.0, DeletePost(2));
    assert s2.1 == Deleted(2);
  }

  /** "third" does not occur in "second post": it has no letter h. */
  lemma ThirdNotInSecondPost()
    ensures !Text.Contains("second post", "third")
  {
    var hay := "second post";
    assert 'h' !in hay;
    forall i ensures !Text.OccursAt(hay, "third", i) {
      if 0 <= i && i + 5 <= |hay| {
        assert hay[i..i + 5][1] == hay[i + 1];
        assert hay[i + 1] in hay;
      }
    }
  }

  lemma SecondPostMissesThird()
    ensures !BothMatch(Some("third"), None)(Seed[1])
  {
    assert Text.Lower("Second post") == "second post";
    assert Text.Lower("third") == "third";
    ThirdNotInSecondPost();
  }

  lemma ThirdPostMatchesThird()
    ensures BothMatch(Some("third"), None)(Post(3, "Third", "Hi"))
  {
  }

  lemma SearchFindsThird()
    ensures Search([Seed[1], Post(3, "Third", "Hi")], Some("third"), None) == [Post(3, "Third", "Hi")]
  {
    var store := [Seed[1], Post(3, "Third", "Hi")];
    SearchIsConjunction(store, Some("third"), None);
    SecondPostMissesThird();
    ThirdPostMatchesThird();
    assert store[1..] == [store[1]];
    assert store[1..][1..] == [];
  }

  lemma CreateThirdOnSeed()
    ensures Handle(Seed, AddPost(Some("Third"), Some("Hi")))
         == (Seed + [Post(3, "Third", "Hi")], Created(Post(3, "Third", "Hi")))
  {
  }

  lemma DeleteFirstAfterCreate()
    ensures Handle(Seed + [Post(3, "Third", "Hi")], DeletePost(1))
         == ([Seed[1], Post(3, "Third", "Hi")], Deleted(1))
  {
    var store := Seed + [Post(3, "Third", "Hi")];
    DeleteHead(store, 1);
    assert store[1..] == [Seed[1], Post(3, "Third", "Hi")];
  }

  /** A short session from the seed posts: create, delete, then
      a lower-case title search finds the new post. Each step starts from
      the store the previous one left. */
  lemma CreateDeleteSearch()
    ensures Handle(Seed, AddPost(Some("Third"), Some("Hi")))
         == (Seed + [Post(3, "Third", "Hi")], Created(Post(3, "Third", "Hi")))
    ensures Handle(Seed + [Post(3, "Third", "Hi")], DeletePost(1))
         == ([Seed[1], Post(3, "Third", "Hi")], Deleted(1))
    ensures Handle([Seed[1], Post(3, "Third", "Hi")], SearchPosts(Some("third"), None))
         == ([Seed[1], Post(3, "Third", "Hi")], PostList([Post(3, "Third", "Hi")]))
  {
    CreateThirdOnSeed();
    DeleteFirstAfterCreate();
    SearchFindsThird();
  }
}
