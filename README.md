# Blog statistics helpers, modelled in Dafny

The backend of this blog service keeps a small module of statistics helpers,
`utils/list_helper.js`. Each helper reduces an ordered list of blog records
(only `author` and `likes` are read) to one summary value:

- `dummy` returns 1;
- `totalLikes` sums the likes;
- `favoriteBlog` returns a record with the most likes;
- `mostBlogs` counts the records per author with lodash `countBy`, then folds
  the `{ author, blogs }` objects to pick one;
- `mostLikes` takes the record picked by lodash `maxBy` on `likes` and
  returns its `author` and `likes`.

The module is pure, so the model is pure too. `list_helper.dfy` (module
`ListHelper`) holds the record type (`title`, `author`, `likes`: the helpers
read only the last two, and the title tells apart records that agree on
them), one function per helper, the lodash
steps they rely on, and the lemmas about them. `list_helper_examples.dfy`
(module `ListHelperExamples`) works through small inputs that show how ties
and repeated authors come out.

Every JavaScript `reduce` is a left fold. The model writes it as recursion on
the prefix `s[..|s|-1]` followed by one step with the last record. A read
of a field that does not exist gives `undefined`, modelled as
`JsValue.Undefined`. `Greater` is JavaScript `>`, which is false whenever
either side is `undefined`, because `undefined` becomes NaN.

What the code does, where a reader might expect otherwise:

- `favoriteBlog` keeps the current record only when it has strictly more likes
  (`utils/list_helper.js:16`). On a tie the later record wins, not the first.
- `mostBlogs` compares `pv.count > cv.count`, but its objects have a `blogs`
  field and no `count` field (`utils/list_helper.js:22-28`). The comparison is
  `undefined > undefined`, which is always false. So the result is the last
  author to appear for the first time, with that author's record count,
  whatever the counts are. On an empty list it is the fold's initial value
  `{}` (`EmptyObject`), not an error. This is listed under Findings.
- `mostLikes` does not add up likes per author. It reports one record, the
  first with the most likes. Its test (`tests/mostLikes.test.js:6`) expects
  `likes: 12` for 'Edsger W. Dijkstra'. Whether 12 is one record's count or
  that author's total depends on the fixture `tests/test_helper.js`, which is
  not part of this model. The single-record reading assumes that fixture
  gives the author one record with 12 likes and more than 12 in all. On that
  reading the behaviour is intended, so it is modelled as it is and not
  listed as a finding.

## Model

| member | source | states |
|---|---|---|
| `ListHelper.Dummy` | utils/list_helper.js:3-5 | returns 1 whatever list it is given |
| `ListHelper.TotalLikesIsSum` | utils/list_helper.js:7-13 | the fold from 0 equals the plain sum of the records' likes, computed front to back |
| `ListHelper.TotalLikesEmptyAndSnoc` | utils/list_helper.js:7-13 | the total of an empty list is 0; appending a record adds exactly its likes |
| `ListHelper.TotalLikesAppend` | utils/list_helper.js:7-13 | the total of a concatenation is the sum of the two totals |
| `ListHelper.TotalLikesPermutation` | utils/list_helper.js:7-13 | two lists with the same records in any order have the same total |
| `ListHelper.TotalLikesNonNegative` | utils/list_helper.js:7-13 | when no record has negative likes, the total is not negative |
| `ListHelper.FavoriteBlog` | utils/list_helper.js:15-17 | on a non-empty list the result is one of the records, no record has more likes, and every record after it has strictly fewer likes |
| `ListHelper.FavoriteBlogIsLastMaximum` | utils/list_helper.js:16 | for the last record with the maximum likes, that record is exactly the result, so ties go to the later record |
| `ListHelper.FavoriteBlogLikesPermutation` | utils/list_helper.js:15-17 | reordering the records does not change the likes of the result, though it may change the record |
| `ListHelper.CountByAuthorSpec` | utils/list_helper.js:20 | `_.countBy` by author makes one key per author of the list and no other, keys in order of first appearance, and each key holds that author's number of records |
| `ListHelper.ReduceCountFieldIsLast` | utils/list_helper.js:28 | the fold comparing the absent `count` field always takes the current element, so it yields the last element, or `{}` for no elements |
| `ListHelper.MostBlogsIsLastNewAuthor` | utils/list_helper.js:19-29 | mostBlogs is `{}` exactly on the empty list; otherwise its author wrote a record, its `blogs` is that author's record count, and no later record brings in a new author |
| `ListHelper.ReduceBlogsFieldIsMaximum` | utils/list_helper.js:28 | the fold comparing `blogs` yields an element with the largest count, and every later element has a smaller count |
| `ListHelper.MostBlogsFixedIsMostFrequent` | utils/list_helper.js:19-29 | with the comparison on `blogs`: `{}` exactly on the empty list; otherwise an author with the most records and that count; on a tie, authors who first appear later have smaller counts |
| `ListHelper.MaxByLikes` | utils/list_helper.js:32 | lodash `maxBy` on likes: on a non-empty list a record with the most likes, and every record before it has strictly fewer |
| `ListHelper.MostLikes` | utils/list_helper.js:31-37 | on a non-empty list the author and likes of one record with the most likes, the first such record |
| `ListHelper.MostLikesIsFirstMaximum` | utils/list_helper.js:31-37 | for the first record with the maximum likes, mostLikes is exactly that record's author and likes |
| `ListHelper.MostLikesLikesPermutation` | utils/list_helper.js:31-37 | reordering the records does not change the reported likes |
| `ListHelper.MostLikesAtMostAuthorTotal` | utils/list_helper.js:31-37 | when no record has negative likes, the reported likes are at most the author's total over all their records |
| `ListHelper.FirstSeenAtIsFirstIndex` | utils/list_helper.js:20 | a record brings in a new author exactly when it is that author's first record |
| `ListHelperExamples.TotalLikesExamples` | utils/list_helper.js:7-13 | the total is 0 for no records and 17 for likes 5, 10 and 2 |
| `ListHelperExamples.FavoriteBlogPicksMaximum` | utils/list_helper.js:15-17 | among likes 5, 10 and 2 the record with 10 is returned |
| `ListHelperExamples.FavoriteBlogTieKeepsLater` | utils/list_helper.js:16 | for two records by the same author with 5 likes each, the second (told apart by its title) is returned |
| `ListHelperExamples.MostBlogsIgnoresCounts` | utils/list_helper.js:28 | for authors A, A, B the result is B with 1 record, although A wrote 2 |
| `ListHelperExamples.MostBlogsFixedPicksMostFrequent` | utils/list_helper.js:28 | with the comparison on `blogs`, authors A, A, B give A with 2 records |
| `ListHelperExamples.MostBlogsTieKeepsLater` | utils/list_helper.js:28 | for authors A, B with one record each the result is B with 1 |
| `ListHelperExamples.MostLikesSingleRecord` | utils/list_helper.js:31-37 | for A with 5 and 7 and B with 3, the result is A with 7, while A's total is 12 |

## Left out

- `app.js` is left out: it wires Express middleware and routers and opens the MongoDB connection, which is I/O with no logic of its own.
- `tests/blog_api.test.js` is left out: its HTTP and database tests depend on routers, schemas and middleware that are not part of this model.
- `tests/test_helper.js`, the fixture both helper tests use, is not part of this model. The examples use small lists of their own instead.
- `ListHelper.FavoriteBlog` returns a record value, not an object reference. Records are told apart by `title`, `author` and `likes`; the `url` field and object identity are not modelled, so two records equal in all three fields cannot be told apart in the result.
- `ListHelper.FavoriteBlog`: an empty list makes JavaScript `reduce` throw a `TypeError`. The model states this as a precondition, not as an error value.
- `ListHelper.MostLikes`: on an empty list `maxBy` gives `undefined` and reading `blog.author` throws a `TypeError`. The model states this as a precondition, not as an error value.
- `ListHelper.MaxByLikes`: lodash's own `maxBy` code is not modelled. `MaxByLikes` models its behaviour, assuming it takes the first record and then replaces it only by a record with strictly more likes.
- `ListHelper.CountByAuthor`: lodash `countBy` and `keys` are modelled by what they do: count per key, keys in insertion order. JavaScript lists integer-like keys such as `"42"` in numeric order, so the model holds only for authors whose names are not integer-like.
- Record shapes: records without `author`, or with `likes` missing or not a number (which gives NaN), are not modelled. Records are well formed, with integer likes.
- Numbers: likes are unbounded integers. JavaScript's 64-bit floating-point numbers, and the loss of precision past 2^53, are not modelled.
- `ListHelper.Dummy` takes the list as a parameter and ignores it; the JavaScript function takes no parameters and ignores any it is given.

## Findings

| source | as written | input that shows it | evidently intended | confidence | as-written member | corrected member |
|---|---|---|---|---|---|---|
| utils/list_helper.js:28 | the fold compares `pv.count > cv.count`, a field the `{ author, blogs }` objects do not have, so it always keeps the current element | authors A, A, B: the result is `{ author: 'B', blogs: 1 }` though A wrote 2 | compare `pv.blogs > cv.blogs`, giving an author with the most records | not executed | `ListHelperExamples.MostBlogsIgnoresCounts` | `ListHelper.MostBlogsFixedIsMostFrequent` |
