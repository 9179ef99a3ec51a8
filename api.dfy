/** Fetching the home timeline: pages are read until one comes back empty or a
    thousand items have been inspected; each item is unwrapped to the post it
    carries, dropped when its URL was accepted before or the reader wrote it or
    already interacted with it, and appended to the posts or the boosts. */
module Api {
  import opened Wrappers
  import opened Statuses
  import Text
  import opened Models

  /** The number of inspected items past which no further page is requested. */
  const TimelineLimit: nat := 1000

  /** The local filter: the reader has not boosted, favourited or bookmarked the
      post and is not its author, handles compared trimmed and lower-cased. */
  predicate Admissible(post: Status, username: string) {
    !post.reblogged && !post.favourited && !post.bookmarked
    && Text.Lower(Text.Strip(post.account.acct)) != Text.Lower(Text.Strip(username))
  }

  /** The post a timeline item carries: the boosted post for a boost, the item itself
      otherwise. */
  function Carried(item: Status): Status {
    match item.reblog
    case Some(inner) => inner
    case None => item
  }

  predicate IsBoost(item: Status) {
    item.reblog.Some?
  }

  /** A page after the server-side filters, which are applied only when there are any. */
  function Filtered<F>(page: seq<Status>, filters: seq<F>, filtersApply: (seq<Status>, seq<F>) -> seq<Status>): seq<Status> {
    if |filters| > 0 then filtersApply(page, filters) else page
  }

  /** The page the client hands back after i calls; past the last page, nothing. */
  function PageAt(pages: seq<seq<Status>>, i: nat): seq<Status> {
    if i < |pages| then pages[i] else []
  }

  /** The items inspected from page i on, once count items have been inspected:
      the next page is read while it is non-empty and the count is below the limit. */
  function Inspected<F>(pages: seq<seq<Status>>, i: nat, count: nat, filters: seq<F>,
                        filtersApply: (seq<Status>, seq<F>) -> seq<Status>): seq<Status>
    decreases |pages| - i
  {
    if PageAt(pages, i) == [] || count >= TimelineLimit then []
    else
      var page := Filtered(pages[i], filters, filtersApply);
      page + Inspected(pages, i + 1, count + |page|, filters, filtersApply)
  }

  /** What the loop has gathered: the two lists and the URLs accepted so far. */
  datatype Harvest = Harvest(posts: seq<ScoredPost>, boosts: seq<ScoredPost>, seen: set<string>)

  /** One item of the inner loop. */
  function Step(h: Harvest, item: Status, username: string): Harvest {
    var scored := ScoredPost(Carried(item));
    if scored.Url() in h.seen || !Admissible(scored.info, username) then h
    else if IsBoost(item) then Harvest(h.posts, h.boosts + [scored], h.seen + {scored.Url()})
    else Harvest(h.posts + [scored], h.boosts, h.seen + {scored.Url()})
  }

  /** The state after the given items, taken in order from state h. */
  function HarvestFrom(h: Harvest, items: seq<Status>, username: string): Harvest
    decreases |items|
  {
    if items == [] then h else HarvestFrom(Step(h, items[0], username), items[1..], username)
  }

  const NothingSeen: Harvest := Harvest([], [], {})

  /** fetch_posts_and_boosts on the given pages: the posts and boosts gathered from
      exactly the items the paging rule inspects. */
  method FetchPostsAndBoosts<F>(pages: seq<seq<Status>>, filters: seq<F>,
                                filtersApply: (seq<Status>, seq<F>) -> seq<Status>, username: string)
    returns (posts: seq<ScoredPost>, boosts: seq<ScoredPost>)
    ensures posts == HarvestFrom(NothingSeen, Inspected(pages, 0, 0, filters, filtersApply), username).posts
    ensures boosts == HarvestFrom(NothingSeen, Inspected(pages, 0, 0, filters, filtersApply), username).boosts
  {
    posts, boosts := [], [];
    var seen: set<string> := {};
    var totalPostsSeen: nat := 0;
    var i := 0;
    var response := PageAt(pages, 0);
    ghost var target := HarvestFrom(NothingSeen, Inspected(pages, 0, 0, filters, filtersApply), username);
    while response != [] && totalPostsSeen < TimelineLimit
      invariant i <= |pages|
      invariant response == PageAt(pages, i)
      invariant target == HarvestFrom(Harvest(posts, boosts, seen),
                                      Inspected(pages, i, totalPostsSeen, filters, filtersApply), username)
      decreases |pages| - i
    {
      var filteredResponse := if |filters| > 0 then filtersApply(response, filters) else response;
      assert response == pages[i] && filteredResponse == Filtered(pages[i], filters, filtersApply);
      ghost var rest := Inspected(pages, i + 1, totalPostsSeen + |filteredResponse|, filters, filtersApply);
      InspectedPage(pages, i, totalPostsSeen, filters, filtersApply);
      ghost var pageStart := Harvest(posts, boosts, seen);
      HarvestFromAppend(pageStart, filteredResponse, rest, username);
      assert target == HarvestFrom(HarvestFrom(pageStart, filteredResponse, username), rest, username);
      posts, boosts, seen, totalPostsSeen := HarvestPage(filteredResponse, username, posts, boosts, seen, totalPostsSeen);
      i := i + 1;
      response := PageAt(pages, i);
    }
    assert Inspected(pages, i, totalPostsSeen, filters, filtersApply) == [];
  }

  /** The inner loop over one filtered page: every item counts as inspected, and the
      state moves on by one step per item. */
  method HarvestPage(filteredResponse: seq<Status>, username: string, posts0: seq<ScoredPost>,
                     boosts0: seq<ScoredPost>, seen0: set<string>, count0: nat)
    returns (posts: seq<ScoredPost>, boosts: seq<ScoredPost>, seen: set<string>, totalPostsSeen: nat)
    ensures totalPostsSeen == count0 + |filteredResponse|
    ensures Harvest(posts, boosts, seen) == HarvestFrom(Harvest(posts0, boosts0, seen0), filteredResponse, username)
  {
    posts, boosts, seen, totalPostsSeen := posts0, boosts0, seen0, count0;
    for j := 0 to |filteredResponse|
      invariant totalPostsSeen == count0 + j
      invariant HarvestFrom(Harvest(posts, boosts, seen), filteredResponse[j..], username)
             == HarvestFrom(Harvest(posts0, boosts0, seen0), filteredResponse, username)
    {
      totalPostsSeen := totalPostsSeen + 1;
      var post := filteredResponse[j];
      var boost := false;
      if post.reblog.Some? {
        post := post.reblog.value;
        boost := true;
      }
      var scoredPost := ScoredPost(post);
      ghost var h := Harvest(posts, boosts, seen);
      if scoredPost.Url() !in seen {
        if !post.reblogged && !post.favourited && !post.bookmarked
           && Text.Lower(Text.Strip(post.account.acct)) != Text.Lower(Text.Strip(username))
        {
          if boost {
            boosts := boosts + [scoredPost];
          } else {
            posts := posts + [scoredPost];
          }
          seen := seen + {scoredPost.Url()};
        }
      }
      assert Harvest(posts, boosts, seen) == Step(h, filteredResponse[j], username);
      HarvestFromCons(h, filteredResponse[j..], username);
      assert filteredResponse[j..][0] == filteredResponse[j];
      assert filteredResponse[j..][1..] == filteredResponse[j + 1..];
    }
    assert filteredResponse[|filteredResponse|..] == [];
  }

  lemma InspectedPage<F>(pages: seq<seq<Status>>, i: nat, count: nat, filters: seq<F>,
                         filtersApply: (seq<Status>, seq<F>) -> seq<Status>)
    requires PageAt(pages, i) != [] && count < TimelineLimit
    ensures Inspected(pages, i, count, filters, filtersApply)
         == Filtered(pages[i], filters, filtersApply)
            + Inspected(pages, i + 1, count + |Filtered(pages[i], filters, filtersApply)|, filters, filtersApply)
  {
  }

  lemma HarvestFromCons(h: Harvest, items: seq<Status>, username: string)
    requires items != []
    ensures HarvestFrom(h, items, username) == HarvestFrom(Step(h, items[0], username), items[1..], username)
  {
  }

  /** Taking a + b is taking a, then b. */
  lemma {:induction false} HarvestFromAppend(h: Harvest, a: seq<Status>, b: seq<Status>, username: string)
    ensures HarvestFrom(h, a + b, username) == HarvestFrom(HarvestFrom(h, a, username), b, username)
    decreases |a|
  {
    if a == [] {
      assert a + b == b;
    } else {
      assert (a + b)[0] == a[0] && (a + b)[1..] == a[1..] + b;
      HarvestFromAppend(Step(h, a[0], username), a[1..], b, username);
    }
  }

  // ---------------------------------------------------------------------------
  // What the gathered lists satisfy

  function UrlsOf(ps: seq<ScoredPost>): set<string> {
    set i | 0 <= i < |ps| :: ps[i].Url()
  }

  predicate DistinctUrls(ps: seq<ScoredPost>) {
    forall i, j :: 0 <= i < j < |ps| ==> ps[i].Url() != ps[j].Url()
  }

  /** The loop's invariant: the seen set is exactly the URLs of the two lists, no
      URL occurs twice across them, and every post in them passed the local filter. */
  predicate ValidHarvest(h: Harvest, username: string) {
    && h.seen == UrlsOf(h.posts) + UrlsOf(h.boosts)
    && DistinctUrls(h.posts) && DistinctUrls(h.boosts) && UrlsOf(h.posts) !! UrlsOf(h.boosts)
    && (forall i :: 0 <= i < |h.posts| ==> Admissible(h.posts[i].info, username))
    && (forall i :: 0 <= i < |h.boosts| ==> Admissible(h.boosts[i].info, username))
  }

  lemma AppendUrl(ps: seq<ScoredPost>, p: ScoredPost, username: string)
    requires DistinctUrls(ps) && p.Url() !in UrlsOf(ps)
    requires forall i :: 0 <= i < |ps| ==> Admissible(ps[i].info, username)
    requires Admissible(p.info, username)
    ensures UrlsOf(ps + [p]) == UrlsOf(ps) + {p.Url()}
    ensures DistinctUrls(ps + [p])
    ensures forall i :: 0 <= i < |ps| + 1 ==> Admissible((ps + [p])[i].info, username)
  {
    var qs := ps + [p];
    assert forall i :: 0 <= i < |ps| ==> qs[i] == ps[i];
    assert qs[|ps|] == p;
  }

  /** One step keeps the invariant. */
  lemma StepValid(h: Harvest, item: Status, username: string)
    requires ValidHarvest(h, username)
    ensures ValidHarvest(Step(h, item, username), username)
  {
    var scored := ScoredPost(Carried(item));
    if scored.Url() !in h.seen && Admissible(scored.info, username) {
      if IsBoost(item) {
        AppendUrl(h.boosts, scored, username);
        assert Step(h, item, username) == Harvest(h.posts, h.boosts + [scored], h.seen + {scored.Url()});
      } else {
        AppendUrl(h.posts, scored, username);
        assert Step(h, item, username) == Harvest(h.posts + [scored], h.boosts, h.seen + {scored.Url()});
      }
    } else {
      assert Step(h, item, username) == h;
    }
  }

  /** Any number of steps keep the invariant; from nothing seen, so does the fetch. */
  lemma {:induction false} HarvestValid(h: Harvest, items: seq<Status>, username: string)
    requires ValidHarvest(h, username)
    ensures ValidHarvest(HarvestFrom(h, items, username), username)
    decreases |items|
  {
    if items != [] {
      StepValid(h, items[0], username);
      HarvestValid(Step(h, items[0], username), items[1..], username);
    }
  }

  /** The URLs of the items whose carried post passes the local filter. */
  function AdmissibleUrls(items: seq<Status>, username: string): set<string> {
    set k | 0 <= k < |items| && Admissible(Carried(items[k]), username) :: Carried(items[k]).url
  }

  lemma AdmissibleUrlsCons(items: seq<Status>, username: string)
    requires items != []
    ensures AdmissibleUrls(items, username)
         == (if Admissible(Carried(items[0]), username) then {Carried(items[0]).url} else {})
            + AdmissibleUrls(items[1..], username)
  {
  }

  /** A URL is marked seen exactly when some item carried a post with that URL that
      passed the local filter: a rejected post marks nothing, and a duplicate adds
      nothing new. */
  lemma {:induction false} HarvestSeen(h: Harvest, items: seq<Status>, username: string)
    ensures HarvestFrom(h, items, username).seen == h.seen + AdmissibleUrls(items, username)
    decreases |items|
  {
    if items == [] {
      assert AdmissibleUrls(items, username) == {};
    } else {
      AdmissibleUrlsCons(items, username);
      HarvestSeen(Step(h, items[0], username), items[1..], username);
    }
  }

  /** Steps only append: the lists and the seen set grow at the end and never lose
      or reorder an entry. */
  lemma {:induction false} HarvestExtends(h: Harvest, items: seq<Status>, username: string)
    ensures h.posts <= HarvestFrom(h, items, username).posts
    ensures h.boosts <= HarvestFrom(h, items, username).boosts
    ensures h.seen <= HarvestFrom(h, items, username).seen
    decreases |items|
  {
    if items != [] {
      HarvestExtends(Step(h, items[0], username), items[1..], username);
    }
  }

  /** Item k is the first to carry its URL among the items passing the local filter. */
  predicate FirstAccepted(items: seq<Status>, k: nat, username: string)
    requires k < |items|
  {
    Admissible(Carried(items[k]), username) && Carried(items[k]).url !in AdmissibleUrls(items[..k], username)
  }

  /** The reference result, item by item: the carried posts of the first-accepted
      items, boosts in one list and the rest in the other, in encounter order. */
  function Chosen(items: seq<Status>, boosts: bool, username: string): seq<ScoredPost>
    decreases |items|
  {
    if items == [] then []
    else
      var n := |items| - 1;
      Chosen(items[..n], boosts, username)
      + (if FirstAccepted(items, n, username) && IsBoost(items[n]) == boosts
         then [ScoredPost(Carried(items[n]))] else [])
  }

  lemma HarvestFromSnoc(h: Harvest, items: seq<Status>, item: Status, username: string)
    ensures HarvestFrom(h, items + [item], username) == Step(HarvestFrom(h, items, username), item, username)
  {
    HarvestFromAppend(h, items, [item], username);
    assert [item][1..] == [];
  }

  /** Starting from nothing seen, the posts and the boosts are exactly the reference
      lists: first occurrence of a URL wins, whether it comes as an original or as
      a boost, and a boost contributes the post it carries. */
  lemma {:induction false} HarvestIsChosen(items: seq<Status>, username: string)
    ensures HarvestFrom(NothingSeen, items, username).posts == Chosen(items, false, username)
    ensures HarvestFrom(NothingSeen, items, username).boosts == Chosen(items, true, username)
    decreases |items|
  {
    if items != [] {
      var n := |items| - 1;
      var init := items[..n];
      assert items == init + [items[n]];
      HarvestIsChosen(init, username);
      HarvestFromSnoc(NothingSeen, init, items[n], username);
      HarvestSeen(NothingSeen, init, username);
    }
  }

  /** The paging rule: with every filtered page at most b items long, the count ends
      below the limit plus b, since a page is read only while the count is below the
      limit. */
  lemma {:induction false} InspectedBound<F>(pages: seq<seq<Status>>, i: nat, count: nat, filters: seq<F>,
                                             filtersApply: (seq<Status>, seq<F>) -> seq<Status>, b: nat)
    requires count < TimelineLimit
    requires forall k :: 0 <= k < |pages| ==> |Filtered(pages[k], filters, filtersApply)| <= b
    ensures count + |Inspected(pages, i, count, filters, filtersApply)| < TimelineLimit + b
    decreases |pages| - i
  {
    if PageAt(pages, i) != [] {
      var page := Filtered(pages[i], filters, filtersApply);
      InspectedPage(pages, i, count, filters, filtersApply);
      if count + |page| < TimelineLimit {
        InspectedBound(pages, i + 1, count + |page|, filters, filtersApply, b);
      }
    }
  }

  /** Without filters the server-side filter is never consulted: the pages are read
      as they come. */
  lemma {:induction false} InspectedWithoutFilters<F>(pages: seq<seq<Status>>, i: nat, count: nat,
                                                      filtersApply: (seq<Status>, seq<F>) -> seq<Status>)
    ensures Inspected(pages, i, count, [], filtersApply)
         == Inspected(pages, i, count, [], (page: seq<Status>, filters: seq<F>) => [])
    decreases |pages| - i
  {
    if PageAt(pages, i) != [] && count < TimelineLimit {
      InspectedWithoutFilters(pages, i + 1, count + |pages[i]|, filtersApply);
    }
  }
}
