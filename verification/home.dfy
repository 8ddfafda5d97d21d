/**
 * The list and string rules of the post listing page: the colour of a tag,
 * the client-side tag filter, the tag-selection toggle, the list of tags
 * offered as check boxes, the query written to the address bar, the request
 * sent to the posts endpoint and what is stored from its response.
 */
module Home {
  import opened Sequences
  import opened Text

  /** One fetched post, as the listing page types it. */
  datatype Post = Post(key: string, title: string, body: string, address: string, tags: seq<string>)

  // ---------------------------------------------------------------------------
  // Tag colours (the `Tags` column renderer)

  /** The tags that get a colour of their own. */
  const ColouredTags: set<string> := {"crime", "love", "mystery", "history", "fiction"}

  /**
   * The colour of a tag chip. The chain tests "mystery" twice; the second test,
   * whose colour is "green", comes after the first and is never taken.
   */
  function TagColor(tag: string): (color: string)
    ensures color != "green"
    ensures color in {"volcano", "pink", "purple", "black", "orange", "geekblue"}
    ensures color == "geekblue" <==> tag !in ColouredTags
  {
    if tag == "crime" then "volcano"
    else if tag == "love" then "pink"
    else if tag == "mystery" then "purple"
    else if tag == "history" then "black"
    else if tag == "mystery" then "green"
    else if tag == "fiction" then "orange"
    else "geekblue"
  }

  /** Two tags with the same non-default colour are the same tag. */
  lemma TagColorInjective(a: string, b: string)
    requires TagColor(a) == TagColor(b) != "geekblue"
    ensures a == b
  {
  }

  /** The whole table of special colours. */
  lemma TagColorTable()
    ensures TagColor("crime") == "volcano" && TagColor("love") == "pink"
    ensures TagColor("mystery") == "purple" && TagColor("history") == "black"
    ensures TagColor("fiction") == "orange"
  {
  }

  // ---------------------------------------------------------------------------
  // Tag filter (`filteredData`)

  /** `post.tags.some(tag => selectedTags.includes(tag))`. */
  predicate SharesTag(post: Post, selectedTags: seq<string>)
    ensures selectedTags == [] ==> !SharesTag(post, selectedTags)
    ensures post.tags == [] ==> !SharesTag(post, selectedTags)
  {
    exists t :: t in post.tags && t in selectedTags
  }

  function SharesTagWith(selectedTags: seq<string>): Post -> bool
  {
    post => SharesTag(post, selectedTags)
  }

  /** The rows shown in the table: every post when no tag is selected, else the posts carrying a selected tag. */
  function FilteredData(data: seq<Post>, selectedTags: seq<string>): (visible: seq<Post>)
    ensures selectedTags == [] ==> visible == data
    ensures forall p :: p in visible <==> p in data && (selectedTags == [] || SharesTag(p, selectedTags))
    ensures IsSubsequence(visible, data) && |visible| <= |data|
  {
    if |selectedTags| > 0 then
      var visible := Filter(data, SharesTagWith(selectedTags));
      FilterIsSubsequence(data, SharesTagWith(selectedTags));
      forall p ensures p in visible <==> p in data && SharesTag(p, selectedTags) {
        FilterMembership(data, SharesTagWith(selectedTags), p);
      }
      visible
    else
      assert IsSubsequence(data, data) by { SubsequenceReflexive(data); }
      data
  }

  /**
   * With a selection, each post is shown as many times as it was fetched when
   * it carries a selected tag, and not at all otherwise; with the subsequence
   * property this fixes the visible list completely.
   */
  lemma FilteredDataCount(data: seq<Post>, selectedTags: seq<string>, p: Post)
    requires selectedTags != []
    ensures multiset(FilteredData(data, selectedTags))[p] == if SharesTag(p, selectedTags) then multiset(data)[p] else 0
  {
    FilterCount(data, SharesTagWith(selectedTags), p);
  }

  /** Selecting more tags never hides a row. */
  lemma {:induction false} FilteredDataMonotone(data: seq<Post>, selected: seq<string>, more: seq<string>, p: Post)
    requires selected != []
    requires forall t :: t in selected ==> t in more
    requires p in FilteredData(data, selected)
    ensures p in FilteredData(data, more)
  {
    var t :| t in p.tags && t in selected;
    assert t in more;
  }

  // ---------------------------------------------------------------------------
  // Tag selection toggle (`handleTagChange`)

  /** The selection after a check box changes: append on check, drop every occurrence on uncheck. */
  function NextSelectedTags(selectedTags: seq<string>, tag: string, checked: bool): (next: seq<string>)
    ensures checked ==> |next| == |selectedTags| + 1 && next[..|selectedTags|] == selectedTags && next[|selectedTags|] == tag
    ensures !checked ==> tag !in next && IsSubsequence(next, selectedTags)
    ensures !checked ==> forall t :: t != tag ==> (t in next <==> t in selectedTags)
  {
    if checked then selectedTags + [tag]
    else
      var next := Filter(selectedTags, IsNot(tag));
      FilterIsSubsequence(selectedTags, IsNot(tag));
      forall t ensures t in next <==> t in selectedTags && t != tag {
        FilterMembership(selectedTags, IsNot(tag), t);
      }
      next
  }

  /** Unchecking keeps every other tag exactly as often as it was selected. */
  lemma UncheckKeepsOthers(selectedTags: seq<string>, tag: string, t: string)
    requires t != tag
    ensures multiset(NextSelectedTags(selectedTags, tag, false))[t] == multiset(selectedTags)[t]
  {
    FilterCount(selectedTags, IsNot(tag), t);
  }

  /** Unchecking a tag that is not selected leaves the selection as it was. */
  lemma UncheckAbsent(selectedTags: seq<string>, tag: string)
    requires tag !in selectedTags
    ensures NextSelectedTags(selectedTags, tag, false) == selectedTags
  {
    FilterKeepsAll(selectedTags, IsNot(tag));
  }

  /**
   * A check box is shown checked exactly when its tag is selected, so it is only
   * checked for an unselected tag; unchecking it again restores the selection.
   */
  lemma CheckThenUncheck(selectedTags: seq<string>, tag: string)
    requires tag !in selectedTags
    ensures NextSelectedTags(NextSelectedTags(selectedTags, tag, true), tag, false) == selectedTags
  {
    FilterAppend(selectedTags, [tag], IsNot(tag));
    FilterKeepsAll(selectedTags, IsNot(tag));
  }

  /** Unchecking twice is unchecking once. */
  lemma UncheckIdempotent(selectedTags: seq<string>, tag: string)
    ensures var once := NextSelectedTags(selectedTags, tag, false);
            NextSelectedTags(once, tag, false) == once
  {
    UncheckAbsent(NextSelectedTags(selectedTags, tag, false), tag);
  }

  // ---------------------------------------------------------------------------
  // Tag check boxes (`renderTagsCheckbox`)

  /** One `forEach` over a post's tags: push each tag not yet in the accumulator. */
  function AddNewTags(acc: seq<string>, tags: seq<string>): (r: seq<string>)
    ensures acc <= r
    ensures forall t :: t in r <==> t in acc || t in tags
    decreases |tags|
  {
    if tags == [] then acc
    else AddNewTags(if tags[0] in acc then acc else acc + [tags[0]], tags[1..])
  }

  /** The `reduce` over the posts, continuing from the accumulator `acc`. */
  function CollectTags(acc: seq<string>, data: seq<Post>): (r: seq<string>)
    ensures acc <= r
    ensures forall t :: t in r <==> t in acc || exists p :: p in data && t in p.tags
    decreases |data|
  {
    if data == [] then acc
    else
      assert forall p :: p in data <==> p == data[0] || p in data[1..];
      CollectTags(AddNewTags(acc, data[0].tags), data[1..])
  }

  /** Every tag of every post, in post order and, within a post, in tag order. */
  function AllTagOccurrences(data: seq<Post>): (flat: seq<string>)
    ensures forall t :: t in flat <==> exists p :: p in data && t in p.tags
  {
    if data == [] then []
    else
      var flat := data[0].tags + AllTagOccurrences(data[1..]);
      assert forall p :: p in data <==> p == data[0] || p in data[1..];
      flat
  }

  /** The tags offered as check boxes: the `reduce` started from `[]`. */
  function AllTags(data: seq<Post>): (allTags: seq<string>)
    ensures forall t :: t in allTags <==> exists p :: p in data && t in p.tags
  {
    CollectTags([], data)
  }

  /**
   * `renderTagsCheckbox`'s accumulation: for each post, for each of its tags,
   * push the tag when the accumulator does not yet include it.
   */
  method RenderTagList(data: seq<Post>) returns (allTags: seq<string>)
    ensures allTags == AllTags(data)
    ensures Distinct(allTags)
    ensures forall t :: t in allTags <==> exists p :: p in data && t in p.tags
    ensures InFirstAppearanceOrder(allTags, AllTagOccurrences(data))
  {
    allTags := [];
    var i := 0;
    while i < |data|
      invariant 0 <= i <= |data|
      invariant CollectTags(allTags, data[i..]) == AllTags(data)
    {
      var tags := data[i].tags;
      ghost var before := allTags;
      var j := 0;
      while j < |tags|
        invariant 0 <= j <= |tags|
        invariant AddNewTags(allTags, tags[j..]) == AddNewTags(before, tags)
      {
        if tags[j] !in allTags {
          allTags := allTags + [tags[j]];
        }
        j := j + 1;
      }
      assert tags[j..] == [];
      assert data[i..][1..] == data[i + 1..];
      i := i + 1;
    }
    assert data[i..] == [];
    AllTagsProperties(data);
  }

  /** Continuing the accumulation over `a + b` is continuing over `a`, then over `b`. */
  lemma {:induction false} AddNewTagsAppend(acc: seq<string>, a: seq<string>, b: seq<string>)
    ensures AddNewTags(acc, a + b) == AddNewTags(AddNewTags(acc, a), b)
    decreases |a|
  {
    if a == [] {
      assert a + b == b;
    } else {
      assert (a + b)[0] == a[0] && (a + b)[1..] == a[1..] + b;
      AddNewTagsAppend(if a[0] in acc then acc else acc + [a[0]], a[1..], b);
    }
  }

  /** Accumulating post by post is accumulating over all tag occurrences at once. */
  lemma {:induction false} CollectTagsFlat(acc: seq<string>, data: seq<Post>)
    ensures CollectTags(acc, data) == AddNewTags(acc, AllTagOccurrences(data))
    decreases |data|
  {
    if data != [] {
      CollectTagsFlat(AddNewTags(acc, data[0].tags), data[1..]);
      AddNewTagsAppend(acc, data[0].tags, AllTagOccurrences(data[1..]));
    }
  }

  /** The effect of one more tag at the end: it is pushed exactly when it is not there yet. */
  lemma {:induction false} AddNewTagsSnoc(acc: seq<string>, s: seq<string>, x: string)
    ensures AddNewTags(acc, s + [x]) ==
            (var r := AddNewTags(acc, s); if x in r then r else r + [x])
  {
    AddNewTagsAppend(acc, s, [x]);
    var r := AddNewTags(acc, s);
    assert [x][1..] == [];
  }

  /** Pushing only absent tags keeps a duplicate-free accumulator duplicate-free. */
  lemma {:induction false} AddNewTagsDistinct(acc: seq<string>, s: seq<string>)
    requires Distinct(acc)
    ensures Distinct(AddNewTags(acc, s))
    decreases |s|
  {
    if s != [] {
      var next := if s[0] in acc then acc else acc + [s[0]];
      assert Distinct(next);
      AddNewTagsDistinct(next, s[1..]);
    }
  }

  /** The accumulator built from `s` lists its tags in the order in which they first occur in `s`. */
  lemma {:induction false} DedupOrder(s: seq<string>)
    ensures InFirstAppearanceOrder(AddNewTags([], s), s)
    decreases |s|
  {
    if s != [] {
      var init, x := s[..|s| - 1], s[|s| - 1];
      assert s == init + [x];
      DedupOrder(init);
      AddNewTagsSnoc([], init, x);
      var r0 := AddNewTags([], init);
      var r := AddNewTags([], s);
      forall y | y in init ensures y in s && FirstIndex(s, y) == FirstIndex(init, y) {
        FirstIndexAppend(init, [x], y);
      }
      if x !in r0 {
        FirstIndexLast(init, x);
        assert r == r0 + [x];
        forall i, j | 0 <= i < j < |r|
          ensures r[i] in s && r[j] in s && FirstIndex(s, r[i]) < FirstIndex(s, r[j])
        {
          assert r[i] == r0[i];
          if j < |r0| {
            assert r[j] == r0[j];
          }
        }
      }
    }
  }

  /** The accumulator built from `s` is duplicate-free, holds exactly the tags of `s`, in first-appearance order. */
  lemma DedupProperties(s: seq<string>)
    ensures var r := AddNewTags([], s);
            Distinct(r) && (forall t :: t in r <==> t in s) && InFirstAppearanceOrder(r, s)
  {
    AddNewTagsDistinct([], s);
    DedupOrder(s);
  }

  /** The tag list is duplicate-free, holds exactly the posts' tags, and lists them in first-appearance order. */
  lemma AllTagsProperties(data: seq<Post>)
    ensures Distinct(AllTags(data))
    ensures forall t :: t in AllTags(data) <==> exists p :: p in data && t in p.tags
    ensures InFirstAppearanceOrder(AllTags(data), AllTagOccurrences(data))
  {
    CollectTagsFlat([], data);
    DedupProperties(AllTagOccurrences(data));
  }

  // ---------------------------------------------------------------------------
  // Address bar query (the pagination effect)

  /** The query the page writes to the address bar: `/?skip=…&limit=…&tags=…`. */
  datatype PageQuery = PageQuery(skip: int, limit: int, tags: string)

  /** `skip = (currentPage - 1) * pageSize`, `limit = pageSize`, `tags` the selection joined with commas. */
  function NavigateQuery(currentPage: int, pageSize: int, selectedTags: seq<string>): (q: PageQuery)
    ensures q.limit == pageSize
    ensures selectedTags == [] ==> q.tags == ""
    ensures currentPage >= 1 && pageSize >= 1 ==>
              q.skip >= 0 && q.skip % pageSize == 0 && q.skip / pageSize == currentPage - 1
    ensures selectedTags != [] && (forall t :: t in selectedTags ==> ',' !in t) ==>
              Split(q.tags, ',') == selectedTags
    ensures selectedTags != [] ==> Split(q.tags, ',') == Concat(SplitEach(selectedTags, ','))
  {
    var q := PageQuery((currentPage - 1) * pageSize, pageSize, Join(selectedTags, ','));
    assert currentPage >= 1 && pageSize >= 1 ==>
             q.skip >= 0 && q.skip % pageSize == 0 && q.skip / pageSize == currentPage - 1 by {
      if currentPage >= 1 && pageSize >= 1 {
        MultipleOfPageSize(currentPage - 1, pageSize);
      }
    }
    assert selectedTags != [] && (forall t :: t in selectedTags ==> ',' !in t) ==>
             Split(q.tags, ',') == selectedTags by {
      if selectedTags != [] && (forall t :: t in selectedTags ==> ',' !in t) {
        SplitJoin(selectedTags, ',');
      }
    }
    assert selectedTags != [] ==> Split(q.tags, ',') == Concat(SplitEach(selectedTags, ',')) by {
      if selectedTags != [] {
        SplitJoinAll(selectedTags, ',');
      }
    }
    q
  }

  /** Dividing `pages * pageSize` by the page size gives back the number of pages, with nothing left over. */
  lemma MultipleOfPageSize(pages: int, pageSize: int)
    requires pageSize >= 1
    ensures (pages * pageSize) % pageSize == 0 && (pages * pageSize) / pageSize == pages
  {
    var n := pages * pageSize;
    var d := pages - n / pageSize;
    assert n == (n / pageSize) * pageSize + n % pageSize;
    assert d * pageSize == n % pageSize by {
      assert d * pageSize == pages * pageSize - (n / pageSize) * pageSize;
    }
  }

  /** The page number can be read back from the query's `skip` and `limit`. */
  lemma PageFromQuery(currentPage: int, pageSize: int, selectedTags: seq<string>)
    requires currentPage >= 1 && pageSize >= 1
    ensures var q := NavigateQuery(currentPage, pageSize, selectedTags);
            q.skip / q.limit + 1 == currentPage
  {
  }

  // ---------------------------------------------------------------------------
  // Request to the posts endpoint (`fetchData`)

  datatype Option<T> = None | Some(value: T)

  /** `param || fallback` for a value read with `URLSearchParams.get`: a missing or empty value falls back. */
  function ParamOr(param: Option<string>, fallback: string): (v: string)
    ensures param.Some? && param.value != "" ==> v == param.value
    ensures param.None? || param.value == "" ==> v == fallback
    ensures fallback != "" ==> v != ""
  {
    if param.Some? && param.value != "" then param.value else fallback
  }

  /** The parameters of `GET https://dummyjson.com/posts?skip=…&limit=…[&search=…]`. */
  datatype PostsRequest = PostsRequest(skip: string, limit: string, search: Option<string>)

  /** The request built from the address bar's `skip` and `limit` and the search box. */
  function RequestFor(skipParam: Option<string>, limitParam: Option<string>, searchQuery: string): (req: PostsRequest)
    ensures req.skip != "" && req.limit != ""
    ensures skipParam.None? || skipParam.value == "" ==> req.skip == "0"
    ensures limitParam.None? || limitParam.value == "" ==> req.limit == "10"
    ensures skipParam.Some? && skipParam.value != "" ==> req.skip == skipParam.value
    ensures limitParam.Some? && limitParam.value != "" ==> req.limit == limitParam.value
    ensures req.search.Some? <==> searchQuery != ""
    ensures req.search.Some? ==> req.search.value == searchQuery
  {
    PostsRequest(ParamOr(skipParam, "0"), ParamOr(limitParam, "10"),
                 if searchQuery != "" then Some(searchQuery) else None)
  }

  /** The address written when a search is submitted: `/?skip=…&limit=…&search=…`. */
  datatype SearchQuery = SearchQuery(skip: string, limit: string, search: string)

  /** `handleSearch`: keeps the current window (or the defaults) and records the search text. */
  function SearchNavigation(skipParam: Option<string>, limitParam: Option<string>, value: string): (q: SearchQuery)
    ensures q.search == value
    ensures var req := RequestFor(skipParam, limitParam, value);
            q.skip == req.skip && q.limit == req.limit
  {
    SearchQuery(ParamOr(skipParam, "0"), ParamOr(limitParam, "10"), value)
  }

  // ---------------------------------------------------------------------------
  // Storing the response (`fetchData`)

  /** The JSON body `{ posts, total }`. */
  datatype Response = Response(posts: seq<Post>, total: int)

  /** What the page keeps of the last successful fetch: `data` and `totalPost`. */
  datatype Listing = Listing(data: seq<Post>, totalPost: int)

  /** A fetch either yields a response body or fails (network or parse error). */
  datatype FetchOutcome = Fetched(response: Response) | Failed

  /** `post.body.toLowerCase().includes(searchQuery.toLowerCase())`. */
  predicate BodyMatches(post: Post, searchQuery: string)
    ensures searchQuery == "" ==> BodyMatches(post, searchQuery)
    ensures BodyMatches(post, searchQuery) ==> |searchQuery| <= |post.body|
  {
    Includes(Lower(post.body), Lower(searchQuery))
  }

  function MatchesQuery(searchQuery: string): Post -> bool
  {
    post => BodyMatches(post, searchQuery)
  }

  /**
   * With a search query, keep the posts whose body contains it, ignoring ASCII
   * case, and count them for the total; without one, keep the server's page and total.
   */
  function StoreResponse(searchQuery: string, response: Response): (stored: Listing)
    ensures searchQuery == "" ==> stored == Listing(response.posts, response.total)
    ensures searchQuery != "" ==> stored.totalPost == |stored.data| <= |response.posts|
    ensures searchQuery != "" ==> IsSubsequence(stored.data, response.posts)
    ensures searchQuery != "" ==>
              forall p :: p in stored.data <==> p in response.posts && BodyMatches(p, searchQuery)
    ensures searchQuery != "" ==>
              forall p :: multiset(stored.data)[p] == if BodyMatches(p, searchQuery) then multiset(response.posts)[p] else 0
  {
    if searchQuery != "" then
      var filtered := Filter(response.posts, MatchesQuery(searchQuery));
      FilterIsSubsequence(response.posts, MatchesQuery(searchQuery));
      forall p ensures p in filtered <==> p in response.posts && BodyMatches(p, searchQuery) {
        FilterMembership(response.posts, MatchesQuery(searchQuery), p);
      }
      forall p ensures multiset(filtered)[p] == if BodyMatches(p, searchQuery) then multiset(response.posts)[p] else 0 {
        FilterCount(response.posts, MatchesQuery(searchQuery), p);
      }
      Listing(filtered, |filtered|)
    else
      Listing(response.posts, response.total)
  }

  /** The result of a fetch: a failure leaves the previously stored listing as it was. */
  function ApplyFetch(current: Listing, searchQuery: string, outcome: FetchOutcome): (next: Listing)
    ensures outcome.Failed? ==> next == current
    ensures outcome.Fetched? && searchQuery == "" ==>
              next.data == outcome.response.posts && next.totalPost == outcome.response.total
    ensures outcome.Fetched? && searchQuery != "" ==>
              next.totalPost == |next.data| && IsSubsequence(next.data, outcome.response.posts)
    ensures outcome.Fetched? && searchQuery != "" ==>
              forall p :: p in next.data <==> p in outcome.response.posts && BodyMatches(p, searchQuery)
    ensures outcome.Fetched? && searchQuery != "" ==>
              forall p :: multiset(next.data)[p] ==
                if BodyMatches(p, searchQuery) then multiset(outcome.response.posts)[p] else 0
  {
    match outcome
    case Fetched(response) => StoreResponse(searchQuery, response)
    case Failed => current
  }

  /** Queries that differ only in ASCII case store the same posts and total from the same response. */
  lemma SearchIgnoresCase(q1: string, q2: string, response: Response)
    requires Lower(q1) == Lower(q2)
    ensures StoreResponse(q1, response) == StoreResponse(q2, response)
  {
    LowerEmpty(q1);
    LowerEmpty(q2);
    FilterAgree(response.posts, MatchesQuery(q1), MatchesQuery(q2));
  }

  /** With a query, each stored post shows the query in its body at some position, ignoring ASCII case. */
  lemma StoredPostsShowQuery(searchQuery: string, response: Response, p: Post)
    requires searchQuery != ""
    requires p in StoreResponse(searchQuery, response).data
    ensures exists i: nat :: OccursAt(Lower(p.body), Lower(searchQuery), i)
  {
    IncludesIffOccurs(Lower(p.body), Lower(searchQuery));
  }
}
