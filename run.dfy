/** The entry point's pure steps: normalising the server URL and the timeline
    selector, and the run itself, which fetches, thresholds posts and boosts
    separately, and either renders the digest or exits when nothing is left. */
module Run {
  import opened Statuses
  import Text
  import Scorers
  import opened Models
  import Thresholds
  import Api

  /** format_base_url: surrounding whitespace removed, then every trailing '/'. */
  function FormatBaseUrl(mastodonBaseUrl: string): (r: string)
    ensures |r| <= |Text.Strip(mastodonBaseUrl)| && r == Text.Strip(mastodonBaseUrl)[..|r|]
    ensures r == [] || r[|r| - 1] != '/'
    ensures forall i :: |r| <= i < |Text.Strip(mastodonBaseUrl)| ==> Text.Strip(mastodonBaseUrl)[i] == '/'
  {
    Text.RStrip(Text.Strip(mastodonBaseUrl), '/')
  }

  /** The formatted URL is a contiguous piece of the input. */
  lemma FormatBaseUrlSlice(mastodonBaseUrl: string) returns (k: nat)
    ensures k + |FormatBaseUrl(mastodonBaseUrl)| <= |mastodonBaseUrl|
    ensures FormatBaseUrl(mastodonBaseUrl) == mastodonBaseUrl[k..k + |FormatBaseUrl(mastodonBaseUrl)|]
  {
    var s := Text.Strip(mastodonBaseUrl);
    k := Text.StripSlice(mastodonBaseUrl);
    var r := FormatBaseUrl(mastodonBaseUrl);
    assert r == s[..|r|];
    assert s[..|r|] == mastodonBaseUrl[k..k + |r|];
  }

  /** Formatting twice can differ from formatting once: " a /" becomes "a ", and
      that becomes "a". */
  lemma FormatBaseUrlNotIdempotent()
    ensures FormatBaseUrl(" a /") == "a "
    ensures FormatBaseUrl("a ") == "a"
  {
    assert Text.TrimStart(" a /") == "a /" by {
      assert " a /"[1..] == "a /";
    }
    assert Text.TrimEnd("a /") == "a /";
    assert Text.RStrip("a /", '/') == "a " by {
      assert "a /"[..2] == "a ";
    }
    assert Text.TrimStart("a ") == "a ";
    assert Text.TrimEnd("a ") == "a" by {
      assert "a "[..1] == "a";
    }
  }

  const ValidTimelineTypes: seq<string> := ["home", "local", "federated", "hashtag", "list"]

  /** The timeline selector, trimmed and lower-cased, kept when the text before its
      first ':' names a timeline type, replaced by "home" otherwise. */
  function NormaliseTimeline(timeline: string): (r: string)
    ensures Text.BeforeFirst(r, ':') in ValidTimelineTypes
    ensures r == "home" || r == Text.Lower(Text.Strip(timeline))
    ensures r == Text.Lower(Text.Strip(timeline)) <==>
      Text.BeforeFirst(Text.Lower(Text.Strip(timeline)), ':') in ValidTimelineTypes
  {
    var t := Text.Lower(Text.Strip(timeline));
    if Text.BeforeFirst(t, ':') in ValidTimelineTypes then t
    else
      assert Text.BeforeFirst("home", ':') == "home" by { HomeHasNoColon(); }
      "home"
  }

  lemma HomeHasNoColon()
    ensures Text.BeforeFirst("home", ':') == "home"
  {
  }

  /** "home" is its own normal form. */
  lemma HomeNormal()
    ensures NormaliseTimeline("home") == "home"
  {
    assert Text.TrimStart("home") == "home";
    assert Text.TrimEnd("home") == "home";
    assert Text.Lower("home") == "home";
    HomeHasNoColon();
  }

  /** An unknown type falls back to "home", even one that starts like a known
      type... */
  lemma NormaliseHomework()
    ensures NormaliseTimeline("homework") == "home"
  {
    Plain("homework");
    assert ':' !in "homework";
    assert "homework" !in ValidTimelineTypes;
  }

  /** ...or one that differs from a known type by a suffix before the ':'... */
  lemma NormaliseUnknownListType()
    ensures NormaliseTimeline("list2:x") == "home"
  {
    Plain("list2:x");
    assert "list2:x" == "list2" + [':'] + "x";
    Text.BeforeFirstJoin("list2", ':', "x");
  }

  /** ...while what follows the ':' is not looked at. */
  lemma NormaliseListSelector()
    ensures NormaliseTimeline("list:abc") == "list:abc"
  {
    Plain("list:abc");
    assert "list:abc" == "list" + [':'] + "abc";
    Text.BeforeFirstJoin("list", ':', "abc");
  }

  /** A lower-case selector without surrounding whitespace normalises to itself
      before the type check. */
  lemma Plain(s: string)
    requires s != [] && !Text.IsSpace(s[0]) && !Text.IsSpace(s[|s| - 1])
    requires forall i :: 0 <= i < |s| ==> !('A' <= s[i] <= 'Z')
    ensures Text.Lower(Text.Strip(s)) == s
  {
  }

  /** Normalising a normalised selector changes nothing. */
  lemma NormaliseIdempotent(timeline: string)
    ensures NormaliseTimeline(NormaliseTimeline(timeline)) == NormaliseTimeline(timeline)
  {
    var s := Text.Strip(timeline);
    var t := Text.Lower(s);
    if NormaliseTimeline(timeline) == t {
      var _ := Text.StripSlice(timeline);
      Text.LowerFacts(s);
      Text.StripUnchanged(t);
      assert Text.Lower(Text.Strip(t)) == t;
    } else {
      HomeNormal();
    }
  }

  // ---------------------------------------------------------------------------
  // run

  const NoPostsMessage: string := "No posts or boosts were found for the provided digest arguments. Exiting."

  /** How a run ends: an exit with a message, or the digest context handed to the
      renderer. */
  datatype Outcome =
    | Exit(message: string)
    | Render(posts: seq<ScoredPost>, boosts: seq<ScoredPost>, mastodonBaseUrl: string,
             timelineName: string, threshold: string, scorer: string)

  /** Steps 2 and 3 of a run on the fetched lists. */
  function Digest(m: Scorers.Roots, t: Thresholds.Threshold, scorer: Scorers.Scorer,
                  posts: seq<ScoredPost>, boosts: seq<ScoredPost>,
                  mastodonBaseUrl: string, timeline: string): (r: Outcome)
    ensures r.Exit? <==> (Thresholds.PostsMeetingCriteria(m, t, posts, scorer) == []
                          && Thresholds.PostsMeetingCriteria(m, t, boosts, scorer) == [])
    ensures r.Exit? ==> r.message == NoPostsMessage
    ensures r.Render? ==>
      r.posts == Thresholds.PostsMeetingCriteria(m, t, posts, scorer) &&
      r.boosts == Thresholds.PostsMeetingCriteria(m, t, boosts, scorer) &&
      r.mastodonBaseUrl == mastodonBaseUrl && r.timelineName == timeline &&
      r.threshold == Thresholds.GetName(t) && r.scorer == Scorers.GetName(scorer)
    ensures r.Render? ==> Thresholds.IsSubsequence(r.posts, posts) && Thresholds.IsSubsequence(r.boosts, boosts)
  {
    var thresholdPosts := Thresholds.PostsMeetingCriteria(m, t, posts, scorer);
    var thresholdBoosts := Thresholds.PostsMeetingCriteria(m, t, boosts, scorer);
    if |thresholdPosts| == 0 && |thresholdBoosts| == 0 then Exit(NoPostsMessage)
    else Render(thresholdPosts, thresholdBoosts, mastodonBaseUrl, timeline,
                Thresholds.GetName(t), Scorers.GetName(scorer))
  }

  /** An empty fetch ends in the exit, not in an empty digest. */
  lemma EmptyFetchExits(m: Scorers.Roots, t: Thresholds.Threshold, scorer: Scorers.Scorer,
                        mastodonBaseUrl: string, timeline: string)
    ensures Digest(m, t, scorer, [], [], mastodonBaseUrl, timeline) == Exit(NoPostsMessage)
  {
  }

  /** Posts and boosts are thresholded each against its own list: a list whose top
      score is unique always contributes its top post, so the digest is rendered. */
  lemma TopPostRendered(m: Scorers.Roots, t: Thresholds.Threshold, scorer: Scorers.Scorer,
                        posts: seq<ScoredPost>, boosts: seq<ScoredPost>,
                        mastodonBaseUrl: string, timeline: string, k: nat)
    requires k < |posts|
    requires forall i :: 0 <= i < |posts| && i != k ==>
      posts[i].GetScore(m, scorer) < posts[k].GetScore(m, scorer)
    ensures Digest(m, t, scorer, posts, boosts, mastodonBaseUrl, timeline).Render?
    ensures posts[k] in Digest(m, t, scorer, posts, boosts, mastodonBaseUrl, timeline).posts
  {
    Thresholds.TopPostKept(m, t, posts, scorer, k);
  }

  /** A run on the given timeline pages: fetch, threshold, then exit or render. */
  method RunDigest<F>(m: Scorers.Roots, scorer: Scorers.Scorer, threshold: Thresholds.Threshold,
                      mastodonBaseUrl: string, mastodonUsername: string, timeline: string,
                      pages: seq<seq<Status>>, filters: seq<F>,
                      filtersApply: (seq<Status>, seq<F>) -> seq<Status>)
    returns (outcome: Outcome)
    ensures outcome == Digest(m, threshold, scorer,
                              Api.HarvestFrom(Api.NothingSeen, Api.Inspected(pages, 0, 0, filters, filtersApply), mastodonUsername).posts,
                              Api.HarvestFrom(Api.NothingSeen, Api.Inspected(pages, 0, 0, filters, filtersApply), mastodonUsername).boosts,
                              mastodonBaseUrl, timeline)
  {
    var posts, boosts := Api.FetchPostsAndBoosts(pages, filters, filtersApply, mastodonUsername);
    var thresholdPosts := Thresholds.PostsMeetingCriteria(m, threshold, posts, scorer);
    var thresholdBoosts := Thresholds.PostsMeetingCriteria(m, threshold, boosts, scorer);
    if |thresholdPosts| == 0 && |thresholdBoosts| == 0 {
      outcome := Exit(NoPostsMessage);
    } else {
      outcome := Render(thresholdPosts, thresholdBoosts, mastodonBaseUrl, timeline,
                        Thresholds.GetName(threshold), Scorers.GetName(scorer));
    }
  }
}
