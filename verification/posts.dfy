/** The one entity of the blog backend, a post, and the facts about a list of
    posts that every store operation refers to. */
module Posts {
  import opened Seqs
  import opened Text

  /** One blog post, `{"id": ..., "title": ..., "content": ...}`. Python ints
      are unbounded, and so is `id`. */
  datatype Post = Post(id: int, title: string, content: string)

  /** The process-wide list `POSTS`, in its current order. */
  type Store = seq<Post>

  /** The two posts the process starts with. */
  const Seed: Store := [
    Post(1, "First post", "This is the first post."),
    Post(2, "Second post", "This is the second post.")
  ]

  function IdOf(p: Post): int {
    p.id
  }

  /** No two posts of the store share an id. */
  ghost predicate UniqueIds(s: Store) {
    DistinctBy(s, IdOf)
  }

  /** The store invariant the backend relies on: ids are unique and positive. */
  ghost predicate WellFormed(s: Store) {
    UniqueIds(s) && forall p :: p in s ==> p.id > 0
  }

  lemma SeedWellFormed()
    ensures WellFormed(Seed)
  {
  }

  /** Python's `max(post['id'] for post in POSTS)`, which raises on an empty
      list: hence the precondition. */
  function MaxId(s: Store): (m: int)
    requires |s| > 0
    ensures forall p :: p in s ==> p.id <= m
    ensures exists p :: p in s && p.id == m
  {
    if |s| == 1 then s[0].id
    else
      var rest := MaxId(s[1..]);
      assert forall p :: p in s ==> p == s[0] || p in s[1..];
      if s[0].id >= rest then s[0].id else rest
  }

  /** The two fields a post can be sorted by. */
  datatype Field = Title | Content

  datatype Direction = Asc | Desc

  /** `post[sort]` for a sort field. */
  function Key(p: Post, f: Field): string {
    match f
    case Title => p.title
    case Content => p.content
  }

  /** `a` may come before `b` in a list sorted by `f` in direction `d`. */
  predicate InOrder(a: Post, b: Post, f: Field, d: Direction) {
    match d
    case Asc => LexLe(Key(a, f), Key(b, f))
    case Desc => LexLe(Key(b, f), Key(a, f))
  }

  lemma InOrderTotal(a: Post, b: Post, f: Field, d: Direction)
    ensures InOrder(a, b, f, d) || InOrder(b, a, f, d)
  {
    LexLeTotal(Key(a, f), Key(b, f));
  }

  lemma InOrderTransitive(a: Post, b: Post, c: Post, f: Field, d: Direction)
    requires InOrder(a, b, f, d) && InOrder(b, c, f, d)
    ensures InOrder(a, c, f, d)
  {
    match d
    case Asc => LexLeTransitive(Key(a, f), Key(b, f), Key(c, f));
    case Desc => LexLeTransitive(Key(c, f), Key(b, f), Key(a, f));
  }

  /** Ordered by `f`: non-decreasing for `Asc`, non-increasing for `Desc`. */
  ghost predicate Sorted(s: Store, f: Field, d: Direction) {
    forall i, j :: 0 <= i < j < |s| ==> InOrder(s[i], s[j], f, d)
  }
}
