# Blog post store

This project models the in-memory post store of a small Flask blog backend
(`backend/backend_app.py`). It proves properties of that model in Dafny.
The backend keeps one process-wide list `POSTS` of `{id, title, content}`
records and serves five routes:

- list, with an optional sort;
- create;
- delete;
- update;
- search.

With routing, JSON and status codes stripped away, each handler is a pure
function from the current store to the new store and an outcome. The model
works on that form:

- `Post` is a datatype.
- The store is a `seq<Post>`.
- Every handler except `Search`, which cannot change the store, returns
  `(new store, outcome)`, with the refusals as an `Error` value. `Api.Handle`
  pairs the search result with the unchanged store.

Modules:

- `Optional`: an absent query parameter or body field (`None`).
- `Seqs`: order-preserving filtering (Python list comprehensions),
  subsequences, reversal, and distinctness of a key across a sequence.
- `Text`: ASCII lower-casing, Python's `in` on strings, and Python's string
  ordering (lexicographic on code points).
- `Posts`: the `Post` record, the seed store, unique and positive ids, the
  maximum id, and the ordering by a sort field.
- `Sorting`: `list.sort(key=..., reverse=...)` as a stable insertion sort.
- `PostStore`: the five handlers (`List`, `Create`, `Delete`, `Update`,
  `Search`) and the properties that relate several calls.
- `Api`: the routes as a `Request` datatype, one `Handle` step, runs of
  requests from the seed store, and a short example session.

The model follows the code in these places:

- **Stateful sort.** `List` with a recognised `sort` and `direction` returns
  the sorted store *as the new store*. Sorting during a read permanently
  reorders the posts (line 54).
- **Create on an empty store.** `max()` of an empty list raises, so Flask
  answers with a server error. `Create` returns `Err(EmptyMax)` and leaves
  the store unchanged. The field check on line 102 runs first, so a missing
  field on an empty store is still `MissingTitleOrContent`.
  `Api.CreateFailsOnceEmptied` shows that this state is reachable from the
  seed: delete both seed posts, then create.
- **Delete removes every match.** Delete removes every post carrying the id
  (a list comprehension), not just one. It removes exactly one when ids are
  unique, and uniqueness is an invariant of every run from the seed.
- **Update does no validation.** Update overwrites a field whenever it is
  present, even with the empty string. Create refuses empty fields.
- **Sort direction needs distinct keys.** Python's sort is stable, also with
  `reverse=True`. So "ascending then descending gives reversed lists" holds
  only when the sort keys are distinct (`PostStore.AscThenDescReverses`).
  `PostStore.AscThenDescEqualKeys` shows the case where it fails.

## Model

| member | source | states |
|---|---|---|
| `Posts.SeedWellFormed` | backend/backend_app.py:9-12 | The two seed posts have unique, positive ids. |
| `Posts.MaxId` | backend/backend_app.py:105 | The maximum id is at least every post's id and is carried by some post; it needs a non-empty store, as Python's `max` does. |
| `Text.Contains` | backend/backend_app.py:260-262 | Python's `needle in hay` holds exactly when some contiguous slice of `hay` equals `needle` (so the empty string occurs everywhere). |
| `Text.Lower` | backend/backend_app.py:260 | `str.lower()`: the result has the input's length, each ASCII capital is replaced by its lower-case letter, every other character is kept, and no ASCII capital remains. |
| `Text.LexLeTotal` | backend/backend_app.py:54 | Any two strings are comparable under `Text.LexLe`, Python's `<=` on strings (code-point lexicographic order, a proper prefix first). |
| `Text.LexLeTransitive` | backend/backend_app.py:54 | Python's string ordering (`Text.LexLe`) is transitive. |
| `Text.LexLeAntisymmetric` | backend/backend_app.py:54 | Two strings each ordered before the other are equal. |
| `Seqs.Filter` | backend/backend_app.py:147 | A list comprehension with a condition yields a subsequence of its input that holds each passing element as often as the input does and no failing element. |
| `Seqs.FilterFilter` | backend/backend_app.py:259-262 | Two comprehensions in a row filter by the conjunction of their conditions. |
| `Sorting.Sort` | backend/backend_app.py:54 | Sorting by a field returns a permutation of the store ordered by that field under `Text.LexLe`: non-decreasing for ascending, non-increasing for descending. |
| `Sorting.SortSortedIsIdentity` | backend/backend_app.py:54 | Sorting an already sorted store leaves it unchanged, so equal keys are not shuffled. |
| `Sorting.SortedDistinctUnique` | backend/backend_app.py:54 | Two lists with the same elements, sorted by a field whose keys are distinct, are equal. |
| `Sorting.SortDescReversesAsc` | backend/backend_app.py:52-54 | With distinct keys, sorting descending (from any permutation) gives the ascending order reversed. |
| `PostStore.SortOrder` | backend/backend_app.py:52-53 | A sort is chosen exactly when `sort` is "title" or "content" and `direction` is "asc" or "desc". The field is the title exactly for "title", and the direction is descending exactly for "desc". Absent or other values choose no sort. |
| `PostStore.List` | backend/backend_app.py:50-55 | The listing returns the new store. With `sort` in {title, content} and `direction` in {asc, desc}, the new store is a permutation of the old one, ordered by that field in that direction. Any other parameters leave the store as it is. |
| `PostStore.ListSortPersists` | backend/backend_app.py:54-55 | After a sorted listing, a listing without parameters returns the sorted order. |
| `PostStore.ListRepeatable` | backend/backend_app.py:52-55 | Repeating a listing with the same parameters returns the same store and list. |
| `PostStore.AscThenDescReverses` | backend/backend_app.py:52-54 | With distinct keys, listing ascending and then descending by one field returns lists that are reverses of each other. |
| `PostStore.AscThenDescEqualKeys` | backend/backend_app.py:54 | Two posts with equal titles keep their relative order in both directions, so the two listings are not reverses. |
| `PostStore.ListPreservesWellFormed` | backend/backend_app.py:52-54 | A sorting listing keeps ids unique and positive. |
| `PostStore.Create` | backend/backend_app.py:98-112 | A missing or empty title or content (Python falsiness, `PostStore.Given` false) gives `MissingTitleOrContent`; a valid create on an empty store gives `EmptyMax`; both leave the store unchanged. Otherwise the new post carries the given fields and an id one more than some existing id and greater than all of them, and it is appended at the end with the old posts untouched. |
| `PostStore.CreateUsesNextId` | backend/backend_app.py:105 | A successful create assigns the maximum existing id plus one. |
| `PostStore.CreatePreservesWellFormed` | backend/backend_app.py:105-111 | Create keeps ids unique and positive. |
| `PostStore.Delete` | backend/backend_app.py:145-153 | Not-found is reported exactly when no post carries the id, and then the store is unchanged. Otherwise the new store is the old one with every post carrying the id removed, the rest kept in order and with their multiplicity. It is shorter, and by exactly one when ids are unique. |
| `PostStore.DeleteHead` | backend/backend_app.py:147-152 | Deleting an id that only the first post carries leaves the rest of the store in order. |
| `PostStore.DeletePreservesWellFormed` | backend/backend_app.py:147-152 | Delete keeps ids unique and positive. |
| `PostStore.FirstWithId` | backend/backend_app.py:208-209 | The update loop stops at the first post carrying the id, or at none exactly when no post carries it. |
| `PostStore.Update` | backend/backend_app.py:204-216 | Not-found is reported exactly when no post carries the id, and then the store is unchanged. Otherwise only the first matching post changes: its title and content are overwritten when present and kept when absent. Its id, every other post, the order and the length are unchanged, and the reply is the updated post. |
| `PostStore.UpdateAcceptsEmptyTitle` | backend/backend_app.py:210-213 | Update stores an empty title, which create would refuse. |
| `PostStore.UpdatePreservesWellFormed` | backend/backend_app.py:208-214 | Update keeps ids unique and positive. |
| `PostStore.Narrow` | backend/backend_app.py:259-262 | One search comprehension keeps, in order, exactly the posts whose lower-cased field contains the lower-cased term. It keeps every post when the term is absent or empty (the truthiness test `PostStore.Given`, lines 259 and 261). |
| `PostStore.Search` | backend/backend_app.py:254-264 | The result is a subsequence of the store. It holds exactly the posts matching both the title term and the content term. With no given terms (`PostStore.Given` false for both) it is the whole store. The store is not changed. |
| `PostStore.SearchIgnoresCase` | backend/backend_app.py:260 | Title terms that differ only in ASCII case find the same posts. |
| `PostStore.SearchIsConjunction` | backend/backend_app.py:259-263 | The search equals one filter that tests both terms (AND). |
| `Api.Handle` | backend/backend_app.py:14-264 | Dispatching a request: every error reply leaves the store unchanged, a search never changes it, a listing returns the new store as a permutation of the old, and a created post is appended at the end. |
| `Api.RunPreservesWellFormed` | backend/backend_app.py:14-264 | Any sequence of requests keeps ids unique and positive. |
| `Api.RunFromSeedWellFormed` | backend/backend_app.py:9-12 | Every store reachable from the seed posts has unique, positive ids. |
| `Api.CreateFailsOnceEmptied` | backend/backend_app.py:105 | Deleting both seed posts and then creating a valid post fails with the server error from `max()` of an empty list. |
| `Api.CreateDeleteSearch` | backend/backend_app.py:102-264 | From the seed, the following happens: creating "Third"/"Hi" gives id 3; deleting id 1 leaves posts 2 and 3; a search for "third" returns only post 3. |

## Left out

- Flask setup, routing, `request.get_json` / `request.args` parsing, `jsonify`, the HTTP status codes and the texts of the error and success messages. The `Api.Reply` constructors stand for them.
- CORS and Swagger configuration and the YAML docstrings: library wrappers with no store behaviour.
- Concurrency: the list has no locking, and two racing creates could compute the same id. Every request is modelled as one atomic step.
- JSON values other than strings and `null` in request bodies; fields are `Option<string>` here. A falsy non-string such as `0` or `[]` would also be refused by create. A non-string written by update would later make a sort by that field raise `TypeError` when it compares that value with a string, and may leave `POSTS` partly reordered (line 54); a search raises in `.lower()` only when a term for that field is given, and for content only on posts that passed the title filter (lines 259-262).
- Request bodies that are not a JSON object: a missing or non-JSON body (which `get_json()` itself refuses in recent Flask versions), a body of `null`, or any body that is not an object makes the handler raise before the store is touched.
- `Text.Lower`: models `str.lower()` on ASCII letters only; other characters are kept unchanged, whereas Python also lower-cases non-ASCII letters.
- `Sorting.Sort`: sortedness and permutation are proved, but stability is not stated as a property. The insertion sort is stable by construction, as Python's sort is.
