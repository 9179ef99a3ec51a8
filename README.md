# Mastodon Digest, modelled in Dafny

Mastodon Digest reads a user's home timeline and keeps the posts that people
engaged with most. It renders those posts as a static HTML page. A run has three
steps:

1. **Fetch.** Timeline pages are read until a page comes back empty or a
   thousand items have been inspected. Server-side filters are applied when
   there are any. Each boost is unwrapped to the post it carries. A post is
   dropped when:
   - its URL was accepted before, or
   - the reader wrote it, or
   - the reader already boosted, favourited or bookmarked it.

   The survivors are split into two lists, one for posts and one for boosts.
2. **Score and threshold.**
   - A scorer gives every post a number: the geometric mean of its inflated
     engagement counters, optionally weighted by the inverse square root of
     the author's follower count.
   - A configured scorer multiplies that number by a per-account
     amplification factor.
   - A threshold (lax, normal or strict: the 90th, 95th or 98th percentile)
     keeps the posts whose score ranks at or above it among the scores of
     their own list.
3. **Render or exit.** If both lists end up empty the run exits with a
   message. Otherwise it hands the two lists, with the threshold and scorer
   names, to the renderer.

The model is organised as follows:

| file | module | covers |
|---|---|---|
| `wrappers.dfy` | `Wrappers` | `Option` and `Result` |
| `statuses.dfy` | `Statuses` | the status record the API returns, reduced to the fields the digest reads |
| `text.dfy` | `Text` | the Python string methods used (strip, rstrip, lower, upper, split at the first separator, `%s` interpolation), over ASCII |
| `scorers.dfy` | `Scorers` | weights, the four scorer classes, the configured scorer, the scorer registry and scorer names |
| `models.dfy` | `Models` | the `ScoredPost` wrapper |
| `thresholds.dfy` | `Thresholds` | the threshold enum, `percentileofscore` with its default `rank` kind, and post selection |
| `api.dfy` | `Api` | the timeline fetch |
| `run.dfy` | `Run` | base-URL formatting, timeline-selector normalisation, and the run itself |

How the Python code is represented:

- **Scorer classes.** Python's scorer class hierarchy becomes a tagged variant.
  The method resolution order of each class is written out: which `weight` a
  `super()` call reaches, and which `score`.
- **Numerics.** Scores are exact reals.
- **Percentile comparison.** The comparison against the threshold is
  cross-multiplied into integers. `MeetsIsPercentile` proves that this equals
  comparing `percentileofscore` with the threshold value.
- **The fetch.** `Api.FetchPostsAndBoosts` is imperative, like the source. It
  is a `while` loop over pages and a `for` loop over each page's items (that
  loop is in `Api.HarvestPage`). It is proved against a left fold
  (`Api.HarvestFrom`) over exactly the items the paging rule inspects
  (`Api.Inspected`). The fold is then proved to:
  - keep its invariant (`Api.HarvestValid`);
  - mark seen exactly the URLs that passed the local filter
    (`Api.HarvestSeen`);
  - equal an item-by-item reference definition (`Api.HarvestIsChosen`).

Three properties a reader might expect do not hold for the code, and the
model keeps the code's behaviour. Each is proved:

- **Equal scores.** When all of two or more scores in a list are equal, every
  one of them has percentile 50 + 50/n. So every post of such a list is
  dropped (`Thresholds.AllEqualDropped`); a list where every post scores the
  same contributes nothing.
- **Repeated selection.** Selection is not idempotent. Three posts scoring 0
  and two scoring 1 leave the two under lax. Selecting again from those two
  keeps neither (`Thresholds.SelectionNotIdempotent`).
- **Timeline selector.** Only the text before the first `:` is checked, so
  `"list:abc"` passes unchanged (`Run.NormaliseListSelector`), although the
  `-f` help text (run.py:104) describes the form `list:id`.

## Model

| member | source | states |
|---|---|---|
| Text.TrimStartFacts | run.py:39 | `str.strip`'s left half drops exactly the leading whitespace: the result is a suffix starting with a non-space, and everything removed is whitespace |
| Text.TrimEndFacts | run.py:39 | `str.strip`'s right half drops exactly the trailing whitespace: the result is a prefix ending with a non-space, and everything removed is whitespace |
| Text.StripSlice | api.py:57 | `strip()` yields a contiguous slice of its input, with whitespace only on either side and no whitespace at either end |
| Text.StripUnchanged | run.py:168 | a string without whitespace at either end is its own strip |
| Text.RStrip | run.py:39 | `rstrip("/")` leaves a prefix that does not end in `/`, and only `/` characters were removed |
| Text.LowerFacts | run.py:168 | `lower()` is idempotent and keeps each character's whitespace class |
| Text.BeforeFirst | run.py:170 | `split(":", 1)[0]` is a prefix without the separator, either the whole string or followed by the separator |
| Text.BeforeFirstJoin | run.py:170 | splitting `a + ":" + b` at the first `:` gives `a` whenever `a` holds no `:` |
| Text.Interpolate | scorers.py:121 | `%` formatting succeeds exactly when the number of arguments equals the number of `%s` conversions, and raises otherwise |
| Scorers.GetWeight | scorers.py:25-41 | the uniform weight is 1; the inverse-follower weight lies in [0, 1] and is 0 exactly when the follower count is 0 or hidden (-1) |
| Scorers.InverseFollowerWeightDecreasing | scorers.py:31-41 | when both follower counts are positive, more followers give a strictly smaller positive inverse-follower weight |
| Scorers.SimpleMetric | scorers.py:58-69 | the two-counter geometric mean is 0 exactly when boosts and favourites are both 0, and at least 1 otherwise |
| Scorers.ExtendedMetric | scorers.py:82-98 | the three-counter mean is 0 exactly when boosts, favourites and replies are all 0, and at least 1 otherwise |
| Scorers.ClassScore | scorers.py:55-105 | every class's score is non-negative. It is 0 exactly when the counters the class reads are all 0, or, for a weighted class, when the follower count is not positive. An unweighted class scores at least 1 otherwise |
| Scorers.WeightedProduct | scorers.py:76 | a score times a weight in [0, 1] never exceeds the score, and is 0 exactly when one factor is |
| Scorers.WeightedScore | scorers.py:73-76 | a weighted class's score is its unweighted parent's score times the inverse-follower weight, hence never larger |
| Scorers.WeightedScoreDecreasing | scorers.py:102-105 | for an engaged post whose author has a positive follower count, an equally engaged post whose author has more followers scores strictly lower, and still positive, under a weighted scorer |
| Scorers.SameCountersSameScore | scorers.py:55-105 | posts with the same counters the class reads (replies only for the extended classes), and for weighted classes the same follower count, score the same |
| Scorers.ConfiguredScoreWeighted | scorers.py:127-136 | over a weighted base class the configured score applies the inverse-follower weight twice, once in the base score and once in the configured weight, then the amplification factor |
| Scorers.ConfiguredScoreUnweighted | scorers.py:127-136 | over an unweighted base class the configured score is the base score times the factor, and is the base score itself for an unlisted account |
| Scorers.ConfiguredScoreNonNegative | scorers.py:127-136 | a non-negative amplification factor gives a non-negative configured score |
| Scorers.AmplifiedScore | scorers.py:131-136 | the configured score is the account's factor times the score the same scorer gives without an amplification map |
| Scorers.AmplifiedAgainstUnlisted | scorers.py:131-136 | over an unweighted base class, a listed author scores its factor times an identically engaged unlisted author |
| Scorers.ClassGetName | scorers.py:50-52 | a class's display name is its class name without the `Scorer` suffix |
| Scorers.GetScorers | scorers.py:145-148 | the registry maps exactly the four display names to their classes, and leaves out `Configured` |
| Scorers.GetName | scorers.py:124-125 | a registered scorer's name maps back to its class. A configured scorer's name is `Configured` followed by a registry name that maps back to its base class |
| Scorers.FormatPlaceholders | scorers.py:121 | the exit format holds two `%s` conversions |
| Scorers.CheckParamsAsWrittenRaises | scorers.py:118-121 | as written, an unknown base scorer name raises a formatting TypeError, not the intended exit |
| Scorers.CheckParams | scorers.py:118-121 | corrected check: accepts exactly the admissible base names, raises KeyError without a `scorer` key, and otherwise exits with the message naming the rejected scorer and the admissible set |
| Scorers.NewConfiguredScorer | scorers.py:138-142 | construction succeeds exactly when the base name is registered and a default host is given. The scorer then has that base class, host and amplification map (empty when absent), and its name is `Configured` plus the base name |
| Models.ScoredPost.GetHomeUrl | models.py:17-18 | the home URL is the base URL, `/@`, the author's handle, `/`, the status id, in that layout |
| Models.SplitHomeUrl | models.py:17-18 | a successful split reassembles into the URL it was given, and yields a handle without `/` |
| Models.HomeUrlRoundTrip | models.py:17-18 | splitting a post's home URL recovers its handle and id whenever the handle holds no `/` |
| Models.ScoredPost.GetScore | models.py:20-21 | the score delegated to a registered scorer, or to a configured scorer with a non-negative factor, is non-negative |
| Thresholds.GetName | thresholds.py:18-19 | the name is the lower-cased member name, and upper-casing it restores the member name |
| Thresholds.GetThresholds | thresholds.py:37-40 | the map has exactly the keys `lax`, `normal` and `strict`, each mapped to its member's value |
| Thresholds.GetThresholdFromName | thresholds.py:43-46 | finds member t exactly when the upper-cased name is t's member name, and otherwise fails as the KeyError does |
| Thresholds.NameRoundTrip | thresholds.py:43-46 | looking a threshold up by its own name finds it |
| Thresholds.CountAtMost | thresholds.py:30 | the weak count lies between the strict count and the list length, and exceeds the strict count by the multiplicity of the score |
| Thresholds.PercentileOfScore | thresholds.py:30 | the percentile of a score in a non-empty list is non-negative |
| Thresholds.MeetsIsPercentile | thresholds.py:30-31 | the integer cross-multiplied test holds exactly when `percentileofscore >= value` |
| Thresholds.KeepCriterion | thresholds.py:30-31 | for a score from the list, the test reads (#below + #at-most + 1) * 50 >= value * n |
| Thresholds.MeetsMonotone | thresholds.py:30-31 | a higher score from the same list meets every threshold a lower one meets |
| Thresholds.MeetsNested | thresholds.py:13-16 | a score meeting a stricter threshold meets every laxer one |
| Thresholds.MaximumIsHundred | thresholds.py:30-31 | a score above every other score in the list has percentile 100 and meets every threshold |
| Thresholds.AllEqualFails | thresholds.py:30-31 | in a list of two or more equal scores, the score meets no threshold |
| Thresholds.SelectFacts | thresholds.py:27-32 | the comprehension keeps a subsequence of the posts: every post whose score meets the threshold, and only such posts |
| Thresholds.SelectCounts | thresholds.py:26-32 | when each score is its own post's score, the comprehension keeps every copy of a post whose score meets the threshold and no copy of any other post |
| Thresholds.PostsMeetingCriteria | thresholds.py:21-34 | the result is empty for no posts and keeps the input order. It contains a post exactly when its percentile among all the list's scores reaches the threshold, and then as many times as the input does |
| Thresholds.StricterKeepsSubsequence | thresholds.py:21-34 | strict keeps a subsequence of what normal keeps, and normal a subsequence of what lax keeps |
| Thresholds.KeptMonotone | thresholds.py:21-34 | if a post is kept, every post of the list scoring at least as much is kept, and equal scores are kept or dropped together |
| Thresholds.TopPostKept | thresholds.py:21-34 | a post scoring strictly above all others in its list is always kept |
| Thresholds.AllEqualDropped | thresholds.py:21-34 | two or more posts with equal scores are all dropped |
| Thresholds.LaxKeepsTopTwo | thresholds.py:21-34 | of scores 0, 0, 0, 1, 1, lax keeps the two posts scoring 1 |
| Thresholds.SelectionNotIdempotent | thresholds.py:21-34 | selecting again from lax's output for 0, 0, 0, 1, 1 keeps nothing |
| Thresholds.NormalScenario | thresholds.py:21-34 | SimpleWeightedScorer on (10 boosts, 10 favourites, 100 followers), (no engagement), (5, 5, no followers): normal keeps only the first post |
| Thresholds.NormalScenarioScore | scorers.py:73-76 | with gmean(11, 11) = 11 and sqrt(100) = 10, that first post scores 1.1 |
| Api.FetchPostsAndBoosts | api.py:12-70 | the returned posts and boosts are the left fold of the per-item step over exactly the items inspected from the pages, starting from nothing seen |
| Api.HarvestPage | api.py:40-64 | the inner loop counts every item of the page as inspected and advances the state by one step per item |
| Api.StepValid | api.py:43-64 | one item keeps the invariant: seen = URLs of both lists, no URL twice across them, and every kept post passed the local filter |
| Api.HarvestValid | api.py:25-70 | the invariant holds after any sequence of items, so for the fetch from the empty start |
| Api.HarvestSeen | api.py:50-64 | the seen set grows by exactly the URLs of carried posts that pass the local filter |
| Api.HarvestExtends | api.py:60-64 | the lists and the seen set only grow at the end |
| Api.HarvestIsChosen | api.py:40-64 | from nothing seen, the posts and boosts are exactly the carried posts of the items that were the first to carry their URL among those passing the local filter. Boosts go to one list and the rest to the other, in encounter order |
| Api.InspectedBound | api.py:32-41 | with pages of at most b filtered items, fewer than 1000 + b items are inspected |
| Api.InspectedWithoutFilters | api.py:35-38 | without filters, the server-side filter function is never consulted |
| Run.FormatBaseUrl | run.py:38-39 | the formatted URL is a prefix of the stripped input that does not end in `/`, and only `/` characters follow it there |
| Run.FormatBaseUrlSlice | run.py:38-39 | the formatted URL is a contiguous slice of the raw input |
| Run.FormatBaseUrlNotIdempotent | run.py:38-39 | formatting twice can differ from formatting once (`" a /"` → `"a "` → `"a"`) |
| Run.NormaliseTimeline | run.py:166-172 | the trimmed, lower-cased selector is kept exactly when its text before the first `:` is a valid timeline type, and is replaced by `home` otherwise; the result always has a valid type |
| Run.HomeNormal | run.py:168-172 | `home` normalises to itself |
| Run.NormaliseHomework | run.py:168-172 | `homework` is not a timeline type and falls back to `home` |
| Run.NormaliseUnknownListType | run.py:168-172 | `list2:x` falls back to `home` |
| Run.NormaliseListSelector | run.py:168-172 | `list:abc` is kept as it is |
| Run.NormaliseIdempotent | run.py:168-172 | normalising a normalised selector changes nothing |
| Run.Digest | run.py:66-89 | the run exits exactly when both thresholded lists are empty, and then with the no-posts message. Otherwise it renders the posts and the boosts that meet the threshold in their own lists, with the base URL, the timeline selector and the threshold and scorer names |
| Run.EmptyFetchExits | run.py:70-73 | an empty fetch ends in the exit, not an empty digest |
| Run.TopPostRendered | run.py:66-89 | a post list with a unique top score is always rendered, with that post in it |
| Run.RunDigest | run.py:42-89 | a run's outcome is the digest of the fold-specified fetch of the given pages |

## Left out

- **Mastodon client.** The client and its network calls are not modelled:
  - The first timeline page (`timeline(min_id=start)`) and each
    `fetch_previous` result become the sequence `pages`. A missing page counts
    as empty.
  - `filters()` becomes the parameter `filters`.
  - `filters_apply` becomes a function parameter. Its third argument,
    `"home"`, is not passed.
- **Clock and `hours`.** The clock (api.py:23) and `hours` set the first page
  request (`min_id=start`). `hours` is also printed (run.py:55) and rendered
  (run.py:77), and the clock also gives `rendered_at` (run.py:81). None of these
  is modelled.
- **Entry point I/O.** Not modelled:
  - argument parsing, `.env` loading and environment-variable checks;
  - output-directory and theme checks;
  - `print`, `render_digest` and HTML templating;
  - `sys.exit`, which becomes the `Exit` outcome.
- **Render context.** The rendered context omits `hours`, `rendered_at` and
  `language`.
- **Fetch arguments.** run.py:63 passes `timeline` and `language` to
  `fetch_posts_and_boosts`, but the api.py shown takes three parameters. The
  model follows api.py. The selector reaches only the render context.
- **Floating point.**
  - Scores are exact reals.
  - `math.sqrt` and scipy's `gmean` are abstract functions (`Scorers.Roots`)
    from values of at least 1 to values of at least 1.
  - Strict monotonicity of the square root is a separate hypothesis
    (`Scorers.SqrtIncreasing`).
  - Rounding in `percentileofscore` and in the `>=` comparison is not modelled.
- **Scorer reflection.** `get_scorers` builds its map by reflection over the
  module's classes. It is a fixed map of the four scorer classes.
- **Account names.** `get_full_account_name` (imported at scorers.py:12) is
  not part of this model. It is carried as a given function in
  `ConfiguredScorer`.
- **Missing account field.** The `info.get("account", {})` fallback at
  scorers.py:133 is not modelled: every status record has an account.
- **Strings.**
  - `strip`, `lower` and `upper` are modelled over ASCII. Unicode
    whitespace and case mapping are not.
  - `%` formatting is modelled for `%s` conversions only.
- **Set order.** Python's set order in the exit message of `check_params` is
  unspecified. One order is fixed (`Scorers.AdmissibleListing`).
- **Unused members.** `get_additional_scorer_pars` (scorers.py:110-115) is not
  called by the code shown, so it is not modelled.
- **Weaker contracts.**
  - Models.ScoredPost.GetScore: its contract states only non-negativity. The
    score itself is `Scorers.Score`, and its properties are the `Scorers`
    lemmas.
  - Thresholds.PercentileOfScore: its contract states only non-negativity. The
    selection uses the integer test `Thresholds.Meets`, related to it by
    `Thresholds.MeetsIsPercentile`.
  - Thresholds.SelectFacts: states order and membership for any score list, not
    multiplicity. Multiplicity holds only when each score is its own post's
    score, so it is stated by `Thresholds.SelectCounts` and carried into
    `Thresholds.PostsMeetingCriteria`.
- Scorers.NewConfiguredScorer: for an unknown base scorer name it returns the
  intended exit (`Scorers.CheckParams`). The code as written raises a TypeError
  there instead (`Scorers.CheckParamsAsWrittenRaises`; see Findings).

## Findings

| source | as written | input that shows it | evidently intended | confidence | as-written member | corrected member |
|---|---|---|---|---|---|---|
| scorers.py:121 | the exit format has two `%s` but is applied to the admissible set alone, one argument, so `%` raises TypeError | `ConfiguredScorer(scorer="Bogus", default_host="example.social")` | exit with "Configure scorer 'Bogus' must be one of {…}" | high; not executed | Scorers.CheckParamsAsWrittenRaises | Scorers.CheckParams |
