/** The in-memory post store behind the five HTTP handlers of the blog
    backend. Each handler is a pure function from the current store (and the
    request's parameters) to the new store and the handler's outcome. */
module PostStore {
  import opened Optional
  import opened Seqs
  import opened Text
  import opened Posts
  import opened Sorting

  /** Why an operation refused. */
  datatype Error =
    | MissingTitleOrContent   // create without a usable title or content (400)
    | NotFound(id: int)       // no post carries the id (404)
    | EmptyMax                // `max()` of an empty store raised (500)

  datatype Result<+T> = Ok(value: T) | Err(error: Error)

  /** Python truthiness of an optional string: present and non-empty. */
  predicate Given(s: Option<string>) {
    s.Some? && |s.value| > 0
  }

  /** The sort the listing applies, if `sort` and `direction` are both
      recognised. */
  function SortOrder(sort: Option<string>, direction: Option<string>): (r: Option<(Field, Direction)>)
    ensures r.Some? <==> (sort == Some("title") || sort == Some("content"))
                          && (direction == Some("asc") || direction == Some("desc"))
    ensures r.Some? ==> (r.value.0 == Title <==> sort == Some("title"))
    ensures r.Some? ==> (r.value.1 == Desc <==> direction == Some("desc"))
  {
    if (sort == Some("title") || sort == Some("content")) && (direction == Some("asc") || direction == Some("desc")) then
      Some((if sort == Some("title") then Title else Content, if direction == Some("desc") then Desc else Asc))
    else
      None
  }

  /** `GET /api/posts`: the store is returned, after being sorted in place
      when both parameters are recognised. The new store is what is returned. */
  function List(store: Store, sort: Option<string>, direction: Option<string>): (r: (Store, seq<Post>))
    ensures r.1 == r.0
    ensures SortOrder(sort, direction).None? ==> r.0 == store
    ensures multiset(r.0) == multiset(store)
    ensures SortOrder(sort, direction).Some? ==>
              Sorted(r.0, SortOrder(sort, direction).value.0, SortOrder(sort, direction).value.1)
  {
    match SortOrder(sort, direction)
    case None => (store, store)
    case Some((f, d)) =>
      var sorted := Sort(store, f, d);
      (sorted, sorted)
  }

  /** `POST /api/posts`: validates the fields, then appends a post whose id
      is one more than the largest id. */
  function Create(store: Store, title: Option<string>, content: Option<string>): (r: (Store, Result<Post>))
    ensures !(Given(title) && Given(content)) ==> r == (store, Err(MissingTitleOrContent))
    ensures Given(title) && Given(content) && |store| == 0 ==> r == (store, Err(EmptyMax))
    ensures r.1.Err? ==> r.0 == store
    ensures r.1.Ok? <==> Given(title) && Given(content) && |store| > 0
    ensures r.1.Ok? ==>
              && r.0 == store + [r.1.value]
              && r.1.value.title == title.value
              && r.1.value.content == content.value
              && (forall p :: p in store ==> p.id < r.1.value.id)
              && (exists p :: p in store && r.1.value.id == p.id + 1)
  {
    if !Given(title) || !Given(content) then
      (store, Err(MissingTitleOrContent))
    else if |store| == 0 then
      (store, Err(EmptyMax))
    else
      var post := Post(MaxId(store) + 1, title.value, content.value);
      (store + [post], Ok(post))
  }

  /** `DELETE /api/delete/<id>`: keeps the posts whose id differs; reports
      not-found when nothing was dropped. The success outcome carries the id
      the message names. */
  function Delete(store: Store, id: int): (r: (Store, Result<int>))
    ensures r.1.Err? <==> forall i :: 0 <= i < |store| ==> store[i].id != id
    ensures r.1.Err? ==> r == (store, Err(NotFound(id)))
    ensures r.1.Ok? ==>
              && r.1.value == id
              && IsSubsequence(r.0, store)
              && (forall p :: p in r.0 <==> p in store && p.id != id)
              && (forall p :: multiset(r.0)[p] == if p.id != id then multiset(store)[p] else 0)
              && multiset(r.0) <= multiset(store)
              && |r.0| < |store|
    ensures r.1.Ok? && UniqueIds(store) ==> |r.0| == |store| - 1
  {
    var keep := (p: Post) => p.id != id;
    var kept := Filter(keep, store);
    FilterMembers(keep, store);
    FilterLength(keep, store);
    if |kept| == |store| then (store, Err(NotFound(id)))
    else
      UniqueDropsOne(keep, store, id);
      (kept, Ok(id))
  }

  /** With unique ids, filtering out a present id drops exactly one post. */
  lemma UniqueDropsOne(keep: Post -> bool, store: Store, id: int)
    requires forall p :: keep(p) == (p.id != id)
    requires exists k :: 0 <= k < |store| && store[k].id == id
    ensures UniqueIds(store) ==> |Filter(keep, store)| == |store| - 1
  {
    if UniqueIds(store) {
      var k :| 0 <= k < |store| && store[k].id == id;
      assert forall i :: 0 <= i < |store| && i != k ==> IdOf(store[i]) != IdOf(store[k]) by {
        forall i | 0 <= i < |store| && i != k ensures IdOf(store[i]) != IdOf(store[k]) {
          if i < k {
            assert IdOf(store[i]) != IdOf(store[k]);
          } else {
            assert IdOf(store[k]) != IdOf(store[i]);
          }
        }
      }
      FilterDropsOne(keep, store, k);
    }
  }

  /** Deleting the id of the first post, carried by no other post, leaves
      the rest of the store in order. */
  lemma DeleteHead(store: Store, id: int)
    requires |store| > 0 && store[0].id == id
    requires forall i :: 1 <= i < |store| ==> store[i].id != id
    ensures Delete(store, id) == (store[1..], Ok(id))
  {
    var r := Delete(store, id);
    assert store == [store[0]] + store[1..];
    assert multiset(r.0) == multiset(store[1..]) by {
      forall p ensures multiset(r.0)[p] == multiset(store[1..])[p] {
        if p.id == id {
          assert p !in store[1..];
        }
      }
    }
    assert |r.0| == |store[1..]| by {
      assert |multiset(r.0)| == |multiset(store[1..])|;
    }
    assert store[0] !in r.0;
    if |r.0| > 0 {
      assert r.0[0] != store[0];
      assert IsSubsequence(r.0, store[1..]);
    }
    SubsequenceSameLength(r.0, store[1..]);
  }

  /** Position of the first post carrying `id`, as the handler's loop finds it. */
  function FirstWithId(store: Store, id: int): (r: Option<nat>)
    ensures r.None? <==> forall i :: 0 <= i < |store| ==> store[i].id != id
    ensures r.Some? ==> r.value < |store| && store[r.value].id == id
    ensures r.Some? ==> forall i :: 0 <= i < r.value ==> store[i].id != id
  {
    if |store| == 0 then None
    else if store[0].id == id then Some(0)
    else
      match FirstWithId(store[1..], id)
      case None => None
      case Some(k) => Some(k + 1)
  }

  /** `PUT /api/update/<id>`: overwrites, in the first post carrying `id`,
      each field that is present (an empty string included); nothing else
      changes. */
  function Update(store: Store, id: int, title: Option<string>, content: Option<string>): (r: (Store, Result<Post>))
    ensures r.1.Err? <==> forall i :: 0 <= i < |store| ==> store[i].id != id
    ensures r.1.Err? ==> r == (store, Err(NotFound(id)))
    ensures |r.0| == |store|
    ensures forall j :: 0 <= j < |store| ==> r.0[j].id == store[j].id
    ensures r.1.Ok? ==>
              var i := FirstWithId(store, id).value;
              && r.0 == store[i := r.1.value]
              && r.1.value.id == id
              && r.1.value.title == (if title.Some? then title.value else store[i].title)
              && r.1.value.content == (if content.Some? then content.value else store[i].content)
  {
    match FirstWithId(store, id)
    case None => (store, Err(NotFound(id)))
    case Some(i) =>
      var found := store[i];
      var post := Post(found.id, title.GetOr(found.title), content.GetOr(found.content));
      (store[i := post], Ok(post))
  }

  /** A query term filters only when present and non-empty; it then must
      occur, ignoring ASCII case, in the field. */
  predicate Matches(term: Option<string>, field: string) {
    Given(term) ==> Contains(Lower(field), Lower(term.value))
  }

  /** The test of one list comprehension of the search handler. */
  function MatchesOn(term: Option<string>, f: Field): Post -> bool {
    (p: Post) => Matches(term, Key(p, f))
  }

  /** One of the handler's list comprehensions: the posts whose field `f`
      matches `term`, in store order; no filtering for an absent or empty
      term. */
  function Narrow(s: Store, term: Option<string>, f: Field): (r: Store)
    ensures IsSubsequence(r, s)
    ensures forall p :: p in r <==> p in s && Matches(term, Key(p, f))
    ensures !Given(term) ==> r == s
  {
    if Given(term) then
      FilterMembers(MatchesOn(term, f), s);
      Filter(MatchesOn(term, f), s)
    else
      SubsequenceReflexive(s);
      s
  }

  /** `GET /api/posts/search`: the posts matching the title term and the
      content term, in store order. The store is not changed. */
  function Search(store: Store, titleTerm: Option<string>, contentTerm: Option<string>): (r: seq<Post>)
    ensures IsSubsequence(r, store)
    ensures forall p :: p in r <==> p in store && Matches(titleTerm, p.title) && Matches(contentTerm, p.content)
    ensures !Given(titleTerm) && !Given(contentTerm) ==> r == store
  {
    var byTitle := Narrow(store, titleTerm, Title);
    var byContent := Narrow(byTitle, contentTerm, Content);
    SubsequenceTransitive(byContent, byTitle, store);
    byContent
  }

  // ---------------------------------------------------------------------
  // Properties relating several calls
  // ---------------------------------------------------------------------

  /** A successful create appends a post whose id is the old maximum plus one. */
  lemma CreateUsesNextId(store: Store, title: Option<string>, content: Option<string>)
    requires Given(title) && Given(content) && |store| > 0
    ensures Create(store, title, content).1.Ok?
    ensures Create(store, title, content).1.value.id == MaxId(store) + 1
  {
  }

  lemma CreatePreservesWellFormed(store: Store, title: Option<string>, content: Option<string>)
    requires WellFormed(store)
    ensures WellFormed(Create(store, title, content).0)
  {
  }

  lemma DeletePreservesWellFormed(store: Store, id: int)
    requires WellFormed(store)
    ensures WellFormed(Delete(store, id).0)
  {
    var r := Delete(store, id);
    if r.1.Ok? {
      SubmultisetPreservesDistinctBy(store, r.0, IdOf);
    }
  }

  lemma UpdatePreservesWellFormed(store: Store, id: int, title: Option<string>, content: Option<string>)
    requires WellFormed(store)
    ensures WellFormed(Update(store, id, title, content).0)
  {
  }

  lemma ListPreservesWellFormed(store: Store, sort: Option<string>, direction: Option<string>)
    requires WellFormed(store)
    ensures WellFormed(List(store, sort, direction).0)
  {
    var r := List(store, sort, direction);
    SubmultisetPreservesDistinctBy(store, r.0, IdOf);
    forall p | p in r.0 ensures p.id > 0 {
      assert p in multiset(r.0);
    }
  }

  /** The sort of a listing is kept: a later listing without parameters
      returns the sorted order. */
  lemma ListSortPersists(store: Store, sort: Option<string>, direction: Option<string>)
    ensures var sorted := List(store, sort, direction);
            List(sorted.0, None, None) == (sorted.0, sorted.1)
  {
  }

  /** Repeating a listing with the same parameters returns the same order. */
  lemma ListRepeatable(store: Store, sort: Option<string>, direction: Option<string>)
    ensures var first := List(store, sort, direction);
            List(first.0, sort, direction) == first
  {
    var first := List(store, sort, direction);
    match SortOrder(sort, direction)
    case None =>
    case Some((f, d)) => SortSortedIsIdentity(first.0, f, d);
  }

  /** The query value naming a sort field. */
  function FieldName(f: Field): (r: string)
    ensures SortOrder(Some(r), Some("asc")) == Some((f, Asc))
  {
    match f
    case Title => "title"
    case Content => "content"
  }

  /** With distinct keys, listing ascending and then descending by the same
      field returns the two orders reversed of each other. */
  lemma AscThenDescReverses(store: Store, f: Field)
    requires DistinctBy(store, (p: Post) => Key(p, f))
    ensures var up := List(store, Some(FieldName(f)), Some("asc"));
            var down := List(up.0, Some(FieldName(f)), Some("desc"));
            down.1 == Reverse(up.1)
  {
    var up := List(store, Some(FieldName(f)), Some("asc"));
    assert SortOrder(Some(FieldName(f)), Some("desc")) == Some((f, Desc));
    SortDescReversesAsc(store, up.0, f);
  }

  /** Without distinct keys the two orders need not be reversed: equal titles
      keep their relative order in both directions. */
  lemma AscThenDescEqualKeys()
    ensures var store := [Post(1, "a", "x"), Post(2, "a", "y")];
            var up := List(store, Some("title"), Some("asc"));
            var down := List(up.0, Some("title"), Some("desc"));
            up.1 == store && down.1 == store && down.1 != Reverse(up.1)
  {
  }

  /** Search terms that differ only in ASCII case find the same posts. */
  lemma SearchIgnoresCase(store: Store, t1: string, t2: string, contentTerm: Option<string>)
    requires Lower(t1) == Lower(t2)
    ensures Search(store, Some(t1), contentTerm) == Search(store, Some(t2), contentTerm)
  {
    FilterExtensional(MatchesOn(Some(t1), Title), MatchesOn(Some(t2), Title), store);
  }

  /** Skipping the comprehension for an absent term is the same as running
      it, since every post passes. */
  lemma NarrowIsFilter(s: Store, term: Option<string>, f: Field)
    ensures Narrow(s, term, f) == Filter(MatchesOn(term, f), s)
  {
    if !Given(term) {
      FilterLength(MatchesOn(term, f), s);
    }
  }

  /** The whole search as one comprehension testing both terms. */
  function BothMatch(titleTerm: Option<string>, contentTerm: Option<string>): Post -> bool {
    (p: Post) => Matches(titleTerm, p.title) && Matches(contentTerm, p.content)
  }

  /** The search is the handler's two comprehensions, one after the other. */
  lemma SearchIsTwoFilters(store: Store, titleTerm: Option<string>, contentTerm: Option<string>)
    ensures Search(store, titleTerm, contentTerm)
         == Filter(MatchesOn(contentTerm, Content), Filter(MatchesOn(titleTerm, Title), store))
  {
    NarrowIsFilter(store, titleTerm, Title);
    NarrowIsFilter(Narrow(store, titleTerm, Title), contentTerm, Content);
  }

  lemma TwoFiltersAreBoth(store: Store, titleTerm: Option<string>, contentTerm: Option<string>)
    ensures Filter(MatchesOn(contentTerm, Content), Filter(MatchesOn(titleTerm, Title), store))
         == Filter(BothMatch(titleTerm, contentTerm), store)
  {
    var t := MatchesOn(titleTerm, Title);
    var c := MatchesOn(contentTerm, Content);
    var both := BothMatch(titleTerm, contentTerm);
    assert forall x :: both(x) == (t(x) && c(x));
    FilterFilter(t, c, both, store);
  }

  /** The two filters of the search handler combine with AND: the search is
      a single filter that tests both terms, so it also keeps duplicates as
      often as the store holds them. */
  lemma SearchIsConjunction(store: Store, titleTerm: Option<string>, contentTerm: Option<string>)
    ensures Search(store, titleTerm, contentTerm) == Filter(BothMatch(titleTerm, contentTerm), store)
  {
    SearchIsTwoFilters(store, titleTerm, contentTerm);
    TwoFiltersAreBoth(store, titleTerm, contentTerm);
  }

  /** Update does not validate what it writes: an empty title is stored,
      where create would refuse it. */
  lemma UpdateAcceptsEmptyTitle(store: Store, id: int)
    requires exists i :: 0 <= i < |store| && store[i].id == id
    ensures Update(store, id, Some(""), None).1.Ok?
    ensures Update(store, id, Some(""), None).1.value.title == ""
    ensures Create(store, Some(""), Some("x")).1 == Err(MissingTitleOrContent)
  {
  }
}
