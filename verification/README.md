# Post listing page: list and string rules

The application shows posts fetched from `https://dummyjson.com/posts` in a
table. The page lets the user search post bodies, filter rows by tag and page
through results. Nearly all of `src/pages/Home.tsx` is view code. This project
models the rules inside it that decide what is stored, what is shown and what
is written to the address bar:

- the colour given to each tag chip in the `Tags` column;
- `filteredData`, the client-side tag filter over the fetched page;
- `handleTagChange`, which appends or removes a tag in the selection;
- `renderTagsCheckbox`, which collects the duplicate-free list of tags to offer as check boxes;
- the pagination effect, which writes `skip`, `limit` and `tags` to the address bar;
- the request `fetchData` sends, with its defaults `skip` 0 and `limit` 10;
- what `fetchData` stores from a response: the case-insensitive search post-filter and the total.

Files:

- `sequences.dfy` (module `Sequences`): the JavaScript array operations used by the page (`filter`, `join`), together with `Split`, the inverse of `join`, and the notions used to specify them (subsequence, duplicate-freedom, index of first occurrence).
- `text.dfy` (module `Text`): `toLowerCase` on ASCII letters, and `String.prototype.includes`.
- `home.dfy` (module `Home`): the page's rules.

The three `filter` calls in the page (search at line 95, uncheck at line 147,
tag filter at line 173) are all `Sequences.Filter`. They differ only in the
test, which is a named function (`IsNot`, `SharesTagWith`, `MatchesQuery`).

The tag-collecting `reduce` mutates an accumulator array with `push`. It is
modelled as the method `RenderTagList`, which has two nested loops. The method
is proved equal to `AllTags`, a left fold that follows the `reduce`/`forEach`
structure. The properties of that fold are then proved as lemmas.

The colour chain tests `"mystery"` twice. The second test, whose colour is
`"green"`, can never be reached, so `TagColor` is proved never to return
`"green"`. The model keeps the dead branch as it is written.

The `Reactions` column (src/pages/Home.tsx:59-63) reads a `reactions` field
that the `DataType` interface (lines 8-14) does not declare. No modelled rule
reads it, so `Post` follows the interface.

In search mode the stored total is the number of matching posts on the
fetched page, not the server's total. This is inconsistent with the
non-search mode, and `StoreResponse` models it as written.

## Model

| member | source | states |
|---|---|---|
| `Home.SharesTag` | src/pages/Home.tsx:173 | The `some`/`includes` test never holds for an empty selection or a post without tags. That is why line 172 guards the filter with `selectedTags.length > 0`. `FilteredData` states its role in the filter. |
| `Home.AddNewTags` | src/pages/Home.tsx:153-157 | One `forEach` pass keeps the accumulator as a prefix of its result, and the result holds exactly the accumulator's tags and the post's tags. `DedupProperties` adds duplicate-freedom and order. |
| `Home.CollectTags` | src/pages/Home.tsx:152-159 | The `reduce` keeps its starting accumulator as a prefix, and its result holds exactly that accumulator's tags and every post's tags. |
| `Home.AllTags` | src/pages/Home.tsx:152-159 | The `reduce` started from `[]` holds a string exactly when some post carries it as a tag. `AllTagsProperties` adds duplicate-freedom and order. |
| `Home.AddNewTagsDistinct` | src/pages/Home.tsx:153-157 | Pushing a tag only when `acc.includes(tag)` is false keeps a duplicate-free accumulator duplicate-free. |
| `Home.DedupOrder` | src/pages/Home.tsx:153-157 | The push-if-absent accumulation over a tag sequence lists its tags in first-appearance order. |
| `Home.BodyMatches` | src/pages/Home.tsx:96 | The search test holds for every post when the query is empty, so filtering with an empty query would keep every post; what the guard at line 93 decides is the total, the server's `total` or the filtered count. A matching query is never longer than the body. `StoreResponse` states its role in the stored listing. |
| `Home.TagColor` | src/pages/Home.tsx:36-49 | The result is never `"green"`, because that branch repeats the `"mystery"` test. It is always one of the six colours the chain can reach. It is `"geekblue"` exactly when the tag is not one of crime, love, mystery, history or fiction. |
| `Home.TagColorTable` | src/pages/Home.tsx:37-48 | The five special colours: crime→volcano, love→pink, mystery→purple, history→black, fiction→orange. |
| `Home.TagColorInjective` | src/pages/Home.tsx:36-49 | Two tags that share a colour other than the default are the same tag. |
| `Home.FilteredData` | src/pages/Home.tsx:172-174 | With no selected tag, the visible rows are the fetched data unchanged. Otherwise a post is visible exactly when it was fetched and carries a selected tag. The visible rows are always a subsequence of the fetched data, so they are in the original order and no more numerous. |
| `Home.FilteredDataCount` | src/pages/Home.tsx:173 | With a selection, a post that carries a selected tag appears as many times as it was fetched, and any other post appears zero times. Together with the subsequence property this fixes the visible list. |
| `Home.FilteredDataMonotone` | src/pages/Home.tsx:173 | Adding tags to a non-empty selection never hides a visible row. |
| `Home.NextSelectedTags` | src/pages/Home.tsx:144-149 | Checking gives the old selection with the tag appended: the old list is a prefix and the length grows by one. Unchecking gives a subsequence of the old selection with no occurrence of the tag, and every other tag stays. |
| `Home.UncheckKeepsOthers` | src/pages/Home.tsx:147 | Unchecking keeps each other tag exactly as many times as it was selected. |
| `Home.UncheckAbsent` | src/pages/Home.tsx:147 | Unchecking a tag that is not selected leaves the selection unchanged. |
| `Home.CheckThenUncheck` | src/pages/Home.tsx:144-149 | Checking an unselected tag and then unchecking it restores the selection. A box is only checked when its tag is unselected (line 164). |
| `Home.UncheckIdempotent` | src/pages/Home.tsx:147 | Unchecking twice gives the same selection as unchecking once. |
| `Home.RenderTagList` | src/pages/Home.tsx:151-159 | The nested push-if-absent loops compute `AllTags`. The result has no duplicates, and it holds a string exactly when some post carries it as a tag. It lists tags in order of first appearance, across posts and within each post. |
| `Home.AllTagsProperties` | src/pages/Home.tsx:152-159 | The folded tag list is duplicate-free, holds exactly the posts' tags, and is in first-appearance order over all tag occurrences. |
| `Home.AllTagOccurrences` | src/pages/Home.tsx:152-153 | The sequence of all tag occurrences visited by the `reduce`/`forEach` holds a string exactly when some post carries it. |
| `Home.CollectTagsFlat` | src/pages/Home.tsx:152-159 | Accumulating post by post gives the same result as accumulating over the flattened tag occurrences in one pass. |
| `Home.DedupProperties` | src/pages/Home.tsx:153-157 | The push-if-absent accumulation over any tag sequence yields a duplicate-free list of exactly its elements, in first-appearance order. |
| `Home.NavigateQuery` | src/pages/Home.tsx:113-116 | `limit` is the page size. For page ≥ 1 and size ≥ 1, `skip` is non-negative, a multiple of the page size, and `skip / size` is the page number minus one. The `tags` text is empty for an empty selection (`tags=`). For a non-empty selection it splits on commas into the comma-separated pieces of every selected tag in turn, so a tag such as `a,b` is written as `a,b`; with `Sequences.JoinSplit` this fixes the text for every selection. When no tag holds a comma, it splits back into the selection itself. |
| `Home.PageFromQuery` | src/pages/Home.tsx:115 | The current page can be read back from the query as `skip / limit + 1`. |
| `Home.MultipleOfPageSize` | src/pages/Home.tsx:115 | A whole number of pages times the page size divides evenly by the page size. The quotient is the number of pages. |
| `Home.ParamOr` | src/pages/Home.tsx:86 | A present, non-empty parameter is used as it is. A missing or empty one falls back to the default. With a non-empty default the result is never empty. |
| `Home.RequestFor` | src/pages/Home.tsx:86 | The request always carries a non-empty skip and limit. A missing or empty skip becomes `"0"` and a missing or empty limit becomes `"10"`, and present non-empty values pass through. A search parameter is sent exactly when the query is non-empty, and it carries the query. |
| `Home.SearchNavigation` | src/pages/Home.tsx:130-133 | Submitting a search writes the search text, and the same skip and limit (defaults included) that the request would use. |
| `Home.StoreResponse` | src/pages/Home.tsx:92-104 | With an empty query, the stored posts and total are the server's `posts` and `total` unchanged. With a query, the stored posts are a subsequence of the response holding exactly the posts whose lower-cased body includes the lower-cased query, each as many times as the response holds it, and the total is their count. |
| `Home.ApplyFetch` | src/pages/Home.tsx:83-111 | A failed fetch leaves the stored listing unchanged. A successful one stores what `StoreResponse` describes: the server's page and total without a query, and with one, a subsequence of exactly the posts whose lower-cased body includes the lower-cased query, each with its multiplicity in the response, counted for the total. |
| `Home.SearchIgnoresCase` | src/pages/Home.tsx:95-97 | Two queries that differ only in ASCII letter case store the same posts and total from the same response. |
| `Home.StoredPostsShowQuery` | src/pages/Home.tsx:95-97 | With a query, every stored post's lower-cased body contains the lower-cased query at some position. |
| `Sequences.Filter` | src/pages/Home.tsx:173 | `filter` returns no more elements than it was given, and each one is an input element that passes the test. |
| `Sequences.FilterMembership` | src/pages/Home.tsx:173 | An element is in the filtered list exactly when it is in the input and passes the test. |
| `Sequences.FilterCount` | src/pages/Home.tsx:147 | An element that passes the test appears in the result as often as in the input. Any other element does not appear. |
| `Sequences.FilterIsSubsequence` | src/pages/Home.tsx:95 | The filtered list is a subsequence of the input: the kept elements keep their relative order. |
| `Sequences.Join` | src/pages/Home.tsx:114 | A single part joins to itself, and a joined text is long enough to hold a separator between every two parts. `SplitJoinAll` and `JoinSplit` fix the joined text for every list, including parts that hold the separator. |
| `Sequences.SplitJoin` | src/pages/Home.tsx:114 | Joining a non-empty selection whose tags hold no comma is lossless: splitting on commas gives the selection back. |
| `Sequences.SplitJoinAll` | src/pages/Home.tsx:114 | For any non-empty selection, even one whose tags hold commas, splitting the joined text gives the comma-separated pieces of each tag in turn. |
| `Sequences.SplitAfterAny` | src/pages/Home.tsx:114 | Splitting a text at one separator gives the pieces before it followed by the pieces after it. |
| `Sequences.JoinSplit` | src/pages/Home.tsx:114 | Joining the pieces of a split text gives the text back, so two texts with the same pieces are equal. |
| `Sequences.JoinEmptyIsAmbiguous` | src/pages/Home.tsx:114 | An empty selection and a selection holding only the empty tag both write `tags=`. |
| `Text.Lower` | src/pages/Home.tsx:96 | The result has the input's length. Every character is the lower-case form of the input character at the same position. |
| `Text.Includes` | src/pages/Home.tsx:96 | The empty needle is always included, and an included needle is no longer than the text. |
| `Text.IncludesIffOccurs` | src/pages/Home.tsx:96 | `Includes` holds exactly when the needle occurs at some index of the text. |

## Left out

- Network I/O: the `fetch` call, `res.json()` and the `try/catch` (lines 83-111) are not modelled. The response is an input value of type `FetchOutcome`. `Failed` stands for the failures that reach the `catch`: a network error, a body that is not JSON, or, in search mode, a body without `posts` (line 95 throws) or a post without `body` (line 96 throws).
- Home.ApplyFetch: a `Response` always has `posts` and `total`. Without a search query, lines 102-103 store `jsonData.posts` and `jsonData.total` unchecked. A JSON body without them, such as an error object from an HTTP 4xx/5xx reply (which `fetch` does not reject), sets `data` to `undefined`. The next render then fails at line 173 (when a tag is selected) or line 152, outside the `try`. The model does not capture this case.
- The loading flag, `console.log`/`console.error` and the `toast.error` notification have no model. They are side effects that do not change the stored listing.
- React hooks and scheduling are not modelled: `useState`, `useEffect`, `useRef`, `useLocation` and `useNavigate`, the three overlapping fetch effects (lines 113-128) and the order in which their responses land. This is framework behaviour and concurrency.
- `toggleFilter`'s `classList` toggle, the `Tag`/`Table`/`Pagination`/`Checkbox`/`Input.Search` widgets and `tag.toUpperCase()` for display are left out, as UI and library internals. The `onShowSizeChange`/`onPageChange` handlers are left out because they only store their arguments.
- Text.Lower: it lower-cases the ASCII letters A-Z only, not the full Unicode case mapping of `toLowerCase`.
- Home.NavigateQuery: `skip` and `limit` are unbounded integers, not JavaScript doubles. The text rendering of numbers and `URLSearchParams` parsing are not modelled. The joined tags are pasted into the address unescaped (line 115), so a tag holding `&`, `#`, `+` or `%` is not read back as written; the model keeps the query as a record of parameters.
- Home.RequestFor: the source pastes the search text into the request URL without escaping (line 86). A query such as `a&limit=100`, or one holding `#`, `+` or `%`, does not reach the server as typed. The model treats the query string as a record of parameters, so `req.search` is the query as typed.
- Home.SearchNavigation: the search text is pasted into the address unescaped (line 132), with the same consequence as for `RequestFor`. The model records it as a parameter value.
- The `tags` address parameter is written but never read back by the page, so only its construction is modelled.
- src/App.tsx, src/components/Navbar.tsx and tailwind.config.js are not part of this model. They hold routing, static markup and build configuration, and no logic.
