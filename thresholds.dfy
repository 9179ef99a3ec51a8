/** Percentile thresholds: a post survives when its score, ranked among the scores
    of the list it came in, reaches the threshold's percentile. */
module Thresholds {
  import opened Wrappers
  import opened Statuses
  import Text
  import Scorers
  import opened Models

  datatype Threshold = Lax | Normal | Strict

  /** The enum values. */
  function Value(t: Threshold): nat {
    match t
    case Lax => 90
    case Normal => 95
    case Strict => 98
  }

  /** The enum member names. */
  function MemberName(t: Threshold): string {
    match t
    case Lax => "LAX"
    case Normal => "NORMAL"
    case Strict => "STRICT"
  }

  /** The lowercase member name; upper-casing it gives the member name back. */
  function GetName(t: Threshold): (r: string)
    ensures Text.Upper(r) == MemberName(t)
    ensures r == match t case Lax => "lax" case Normal => "normal" case Strict => "strict"
  {
    var r := Text.Lower(MemberName(t));
    assert r == match t case Lax => "lax" case Normal => "normal" case Strict => "strict";
    r
  }

  /** Lowercase name to value, one entry per member. */
  function GetThresholds(): (r: map<string, nat>)
    ensures r.Keys == {"lax", "normal", "strict"}
    ensures forall t :: GetName(t) in r && r[GetName(t)] == Value(t)
  {
    map[GetName(Lax) := Value(Lax), GetName(Normal) := Value(Normal), GetName(Strict) := Value(Strict)]
  }

  /** Threshold[name.upper()]: the member whose name is the upper-cased argument, or
      None where Python raises KeyError. */
  function GetThresholdFromName(name: string): (r: Option<Threshold>)
    ensures forall t :: r == Some(t) <==> Text.Upper(name) == MemberName(t)
  {
    var u := Text.Upper(name);
    if u == "LAX" then Some(Lax)
    else if u == "NORMAL" then Some(Normal)
    else if u == "STRICT" then Some(Strict)
    else None
  }

  /** Looking a threshold up by its own name finds it. */
  lemma NameRoundTrip(t: Threshold)
    ensures GetThresholdFromName(GetName(t)) == Some(t)
  {
  }

  // ---------------------------------------------------------------------------
  // percentileofscore(a, x) with kind = "rank"

  /** #{s in a | s < x} */
  function CountBelow(a: seq<real>, x: real): (r: nat)
    ensures r <= |a|
  {
    if a == [] then 0 else (if a[0] < x then 1 else 0) + CountBelow(a[1..], x)
  }

  /** #{s in a | s <= x}; it exceeds CountBelow by the number of occurrences of x. */
  function CountAtMost(a: seq<real>, x: real): (r: nat)
    ensures CountBelow(a, x) <= r <= |a|
    ensures r - CountBelow(a, x) == multiset(a)[x]
  {
    if a == [] then 0
    else
      assert a == [a[0]] + a[1..];
      (if a[0] <= x then 1 else 0) + CountAtMost(a[1..], x)
  }

  /** The rank sum of x in a: the strict and the weak rank, plus one when x occurs
      in a. */
  function RankSum(a: seq<real>, x: real): nat {
    var left := CountBelow(a, x);
    var right := CountAtMost(a, x);
    left + right + (if left < right then 1 else 0)
  }

  /** percentileofscore(a, x): the mean of the strict and the weak percentile rank,
      with a one-place bonus when x occurs in a. */
  function PercentileOfScore(a: seq<real>, x: real): (r: real)
    requires |a| > 0
    ensures r >= 0.0
  {
    (RankSum(a, x) * 50) as real / |a| as real
  }

  /** The comparison against the threshold's value, cross-multiplied so that it
      stays in exact integers. */
  predicate Meets(a: seq<real>, x: real, t: Threshold) {
    RankSum(a, x) * 50 >= Value(t) * |a|
  }

  /** The integer comparison is the percentile comparison of the source. */
  lemma MeetsIsPercentile(a: seq<real>, x: real, t: Threshold)
    requires |a| > 0
    ensures Meets(a, x, t) <==> PercentileOfScore(a, x) >= Value(t) as real
  {
    RatioAtLeast(RankSum(a, x) * 50, |a|, Value(t));
  }

  lemma RatioAtLeast(k: int, n: int, v: int)
    requires n > 0
    ensures (k as real / n as real >= v as real) <==> k >= v * n
  {
  }

  /** For a score taken from the list, the percentile test reads
      (#{s < x} + #{s <= x} + 1) * 50 >= value * n. */
  lemma KeepCriterion(a: seq<real>, x: real, t: Threshold)
    requires x in a
    ensures Meets(a, x, t) <==> (CountBelow(a, x) + CountAtMost(a, x) + 1) * 50 >= Value(t) * |a|
  {
    assert multiset(a)[x] > 0;
  }

  lemma {:induction false} CountsMonotone(a: seq<real>, x: real, y: real)
    requires x <= y
    ensures CountBelow(a, x) <= CountBelow(a, y) && CountAtMost(a, x) <= CountAtMost(a, y)
  {
    if a != [] {
      CountsMonotone(a[1..], x, y);
    }
  }

  /** A higher score taken from the same list meets every threshold a lower one meets. */
  lemma MeetsMonotone(a: seq<real>, x: real, y: real, t: Threshold)
    requires x in a && y in a && x <= y
    requires Meets(a, x, t)
    ensures Meets(a, y, t)
  {
    KeepCriterion(a, x, t);
    KeepCriterion(a, y, t);
    CountsMonotone(a, x, y);
  }

  /** A stricter threshold is met only where a laxer one is. */
  lemma MeetsNested(a: seq<real>, x: real, t: Threshold, u: Threshold)
    requires Value(u) <= Value(t)
    requires Meets(a, x, t)
    ensures Meets(a, x, u)
  {
    assert Value(u) * |a| <= Value(t) * |a|;
  }

  lemma {:induction false} CountsAllBelow(a: seq<real>, x: real)
    requires forall i :: 0 <= i < |a| ==> a[i] < x
    ensures CountBelow(a, x) == |a| && CountAtMost(a, x) == |a|
  {
    if a != [] {
      CountsAllBelow(a[1..], x);
    }
  }

  lemma {:induction false} CountsAtMaximum(a: seq<real>, k: nat)
    requires k < |a|
    requires forall i :: 0 <= i < |a| && i != k ==> a[i] < a[k]
    ensures CountBelow(a, a[k]) == |a| - 1 && CountAtMost(a, a[k]) == |a|
  {
    if k == 0 {
      CountsAllBelow(a[1..], a[k]);
    } else {
      assert a[1..][k - 1] == a[k];
      CountsAtMaximum(a[1..], k - 1);
    }
  }

  lemma Hundred(n: int)
    requires n > 0
    ensures (100 * n) as real / n as real == 100.0
  {
  }

  /** A score above every other score in the list has percentile 100, and so meets
      every threshold. */
  lemma MaximumIsHundred(a: seq<real>, k: nat, t: Threshold)
    requires k < |a|
    requires forall i :: 0 <= i < |a| && i != k ==> a[i] < a[k]
    ensures PercentileOfScore(a, a[k]) == 100.0
    ensures Meets(a, a[k], t)
  {
    CountsAtMaximum(a, k);
    assert RankSum(a, a[k]) * 50 == 100 * |a|;
    Hundred(|a|);
    assert Value(t) * |a| <= 100 * |a|;
  }

  lemma {:induction false} CountsAllEqual(a: seq<real>, x: real)
    requires forall i :: 0 <= i < |a| ==> a[i] == x
    ensures CountBelow(a, x) == 0 && CountAtMost(a, x) == |a|
  {
    if a != [] {
      CountsAllEqual(a[1..], x);
    }
  }

  /** When every score in a list of two or more is the same, each has percentile
      50 + 50/n, below every threshold. */
  lemma AllEqualFails(a: seq<real>, t: Threshold)
    requires |a| >= 2
    requires forall i :: 0 <= i < |a| ==> a[i] == a[0]
    ensures !Meets(a, a[0], t)
  {
    CountsAllEqual(a, a[0]);
    KeepCriterion(a, a[0], t);
  }

  // ---------------------------------------------------------------------------
  // posts_meeting_criteria

  /** The scores of a list of posts, in list order. */
  function Scores(m: Scorers.Roots, posts: seq<ScoredPost>, scorer: Scorers.Scorer): (r: seq<real>)
    ensures |r| == |posts|
    ensures forall i :: 0 <= i < |posts| ==> r[i] == posts[i].GetScore(m, scorer)
  {
    seq(|posts|, i requires 0 <= i < |posts| => posts[i].GetScore(m, scorer))
  }

  /** s is t with some elements removed and the rest left in their order. */
  predicate IsSubsequence<T(==)>(s: seq<T>, t: seq<T>)
    decreases |t|
  {
    if s == [] then true
    else if t == [] then false
    else (s[0] == t[0] && IsSubsequence(s[1..], t[1..])) || IsSubsequence(s, t[1..])
  }

  lemma SubsequenceSkip<T>(s: seq<T>, u: seq<T>, x: T)
    requires IsSubsequence(s, u)
    ensures IsSubsequence(s, [x] + u)
  {
  }

  lemma SubsequenceCons<T>(s: seq<T>, u: seq<T>, x: T)
    requires IsSubsequence(s, u)
    ensures IsSubsequence([x] + s, [x] + u)
  {
  }

  /** The comprehension over posts, each tested by its score against all the scores. */
  function Select(posts: seq<ScoredPost>, scores: seq<real>, all: seq<real>, t: Threshold): seq<ScoredPost>
    requires |scores| == |posts|
    requires posts == [] || |all| > 0
  {
    if posts == [] then []
    else if Meets(all, scores[0], t) then [posts[0]] + Select(posts[1..], scores[1..], all, t)
    else Select(posts[1..], scores[1..], all, t)
  }

  /** Select keeps the order, keeps every post whose score meets the threshold and
      nothing else. */
  lemma {:induction false} SelectFacts(posts: seq<ScoredPost>, scores: seq<real>, all: seq<real>, t: Threshold)
    requires |scores| == |posts|
    requires posts == [] || |all| > 0
    ensures IsSubsequence(Select(posts, scores, all, t), posts)
    ensures forall i :: 0 <= i < |posts| && Meets(all, scores[i], t) ==> posts[i] in Select(posts, scores, all, t)
    ensures forall p :: p in Select(posts, scores, all, t) ==>
      exists i :: 0 <= i < |posts| && posts[i] == p && Meets(all, scores[i], t)
  {
    if posts != [] {
      var rest := Select(posts[1..], scores[1..], all, t);
      SelectFacts(posts[1..], scores[1..], all, t);
      assert posts == [posts[0]] + posts[1..];
      if Meets(all, scores[0], t) {
        SubsequenceCons(rest, posts[1..], posts[0]);
      } else {
        SubsequenceSkip(rest, posts[1..], posts[0]);
      }
      forall i | 1 <= i < |posts| && Meets(all, scores[i], t)
        ensures posts[i] in Select(posts, scores, all, t)
      {
        assert posts[1..][i - 1] == posts[i] && scores[1..][i - 1] == scores[i];
      }
      forall p | p in rest
        ensures exists i :: 0 <= i < |posts| && posts[i] == p && Meets(all, scores[i], t)
      {
        var j :| 0 <= j < |posts| - 1 && posts[1..][j] == p && Meets(all, scores[1..][j], t);
        assert posts[j + 1] == p && scores[j + 1] == scores[1..][j];
      }
    }
  }

  /** scores[i] is the score of posts[i]. */
  predicate ScoredBy(m: Scorers.Roots, scorer: Scorers.Scorer, posts: seq<ScoredPost>, scores: seq<real>) {
    |scores| == |posts| && forall i :: 0 <= i < |posts| ==> scores[i] == posts[i].GetScore(m, scorer)
  }

  /** When each score is its post's score, Select keeps every copy of a kept post
      and no copy of a dropped one. */
  lemma {:induction false} SelectCounts(m: Scorers.Roots, scorer: Scorers.Scorer, posts: seq<ScoredPost>,
                                        scores: seq<real>, all: seq<real>, t: Threshold)
    requires ScoredBy(m, scorer, posts, scores)
    requires posts == [] || |all| > 0
    ensures forall p ::
      multiset(Select(posts, scores, all, t))[p] == (if Meets(all, p.GetScore(m, scorer), t) then multiset(posts)[p] else 0)
  {
    if posts != [] {
      var x, tail := posts[0], posts[1..];
      assert posts == [x] + tail;
      assert ScoredBy(m, scorer, tail, scores[1..]);
      SelectCounts(m, scorer, tail, scores[1..], all, t);
    }
  }

  /** The posts whose score ranks at or above the threshold among all the posts'
      scores: in input order, and exactly those posts. */
  function PostsMeetingCriteria(m: Scorers.Roots, t: Threshold, posts: seq<ScoredPost>,
                                scorer: Scorers.Scorer): (r: seq<ScoredPost>)
    ensures posts == [] ==> r == []
    ensures IsSubsequence(r, posts)
    ensures forall p :: p in posts ==>
      (p in r <==> Meets(Scores(m, posts, scorer), p.GetScore(m, scorer), t))
    ensures forall p ::
      multiset(r)[p] == (if Meets(Scores(m, posts, scorer), p.GetScore(m, scorer), t) then multiset(posts)[p] else 0)
  {
    var all := Scores(m, posts, scorer);
    SelectFacts(posts, all, all, t);
    var r := Select(posts, all, all, t);
    forall p | p in posts
      ensures p in r <==> Meets(all, p.GetScore(m, scorer), t)
    {
      var i :| 0 <= i < |posts| && posts[i] == p;
      if p in r {
        var j :| 0 <= j < |posts| && posts[j] == p && Meets(all, all[j], t);
        assert all[j] == all[i];
      }
    }
    SelectCounts(m, scorer, posts, all, all, t);
    r
  }

  lemma {:induction false} SelectNone(posts: seq<ScoredPost>, scores: seq<real>, all: seq<real>, t: Threshold)
    requires |scores| == |posts|
    requires posts == [] || |all| > 0
    requires forall i :: 0 <= i < |scores| ==> !Meets(all, scores[i], t)
    ensures Select(posts, scores, all, t) == []
  {
    if posts != [] {
      assert forall i :: 0 <= i < |scores| - 1 ==> scores[1..][i] == scores[i + 1];
      SelectNone(posts[1..], scores[1..], all, t);
    }
  }

  lemma {:induction false} SelectNested(posts: seq<ScoredPost>, scores: seq<real>, all: seq<real>,
                                        t: Threshold, u: Threshold)
    requires |scores| == |posts|
    requires posts == [] || |all| > 0
    requires Value(u) <= Value(t)
    ensures IsSubsequence(Select(posts, scores, all, t), Select(posts, scores, all, u))
  {
    if posts != [] {
      SelectNested(posts[1..], scores[1..], all, t, u);
      var st := Select(posts[1..], scores[1..], all, t);
      var su := Select(posts[1..], scores[1..], all, u);
      if Meets(all, scores[0], t) {
        MeetsNested(all, scores[0], t, u);
        SubsequenceCons(st, su, posts[0]);
      } else if Meets(all, scores[0], u) {
        SubsequenceSkip(st, su, posts[0]);
      }
    }
  }

  /** strict keeps a subsequence of what normal keeps, and normal of what lax keeps. */
  lemma StricterKeepsSubsequence(m: Scorers.Roots, posts: seq<ScoredPost>, scorer: Scorers.Scorer)
    ensures IsSubsequence(PostsMeetingCriteria(m, Strict, posts, scorer),
                          PostsMeetingCriteria(m, Normal, posts, scorer))
    ensures IsSubsequence(PostsMeetingCriteria(m, Normal, posts, scorer),
                          PostsMeetingCriteria(m, Lax, posts, scorer))
  {
    var all := Scores(m, posts, scorer);
    SelectNested(posts, all, all, Strict, Normal);
    SelectNested(posts, all, all, Normal, Lax);
  }

  /** A kept post keeps every post of the list scoring at least as much; posts with
      equal scores are kept or dropped together. */
  lemma KeptMonotone(m: Scorers.Roots, t: Threshold, posts: seq<ScoredPost>,
                     scorer: Scorers.Scorer, p: ScoredPost, q: ScoredPost)
    requires p in posts && q in posts
    requires p.GetScore(m, scorer) <= q.GetScore(m, scorer)
    ensures p in PostsMeetingCriteria(m, t, posts, scorer) ==> q in PostsMeetingCriteria(m, t, posts, scorer)
    ensures p.GetScore(m, scorer) == q.GetScore(m, scorer) ==>
      (p in PostsMeetingCriteria(m, t, posts, scorer) <==> q in PostsMeetingCriteria(m, t, posts, scorer))
  {
    var all := Scores(m, posts, scorer);
    var i :| 0 <= i < |posts| && posts[i] == p;
    var j :| 0 <= j < |posts| && posts[j] == q;
    assert all[i] == p.GetScore(m, scorer) && all[j] == q.GetScore(m, scorer);
    if Meets(all, all[i], t) {
      MeetsMonotone(all, all[i], all[j], t);
    }
  }

  /** A post scoring strictly above every other post of the list is kept. */
  lemma TopPostKept(m: Scorers.Roots, t: Threshold, posts: seq<ScoredPost>,
                    scorer: Scorers.Scorer, k: nat)
    requires k < |posts|
    requires forall i :: 0 <= i < |posts| && i != k ==>
      posts[i].GetScore(m, scorer) < posts[k].GetScore(m, scorer)
    ensures posts[k] in PostsMeetingCriteria(m, t, posts, scorer)
  {
    var all := Scores(m, posts, scorer);
    MaximumIsHundred(all, k, t);
    assert posts[k] in posts && posts[k].GetScore(m, scorer) == all[k];
  }

  /** Two or more posts that all score the same are all dropped. */
  lemma AllEqualDropped(m: Scorers.Roots, t: Threshold, posts: seq<ScoredPost>, scorer: Scorers.Scorer)
    requires |posts| >= 2
    requires forall i :: 0 <= i < |posts| ==> posts[i].GetScore(m, scorer) == posts[0].GetScore(m, scorer)
    ensures PostsMeetingCriteria(m, t, posts, scorer) == []
  {
    var all := Scores(m, posts, scorer);
    AllEqualFails(all, t);
    assert forall i :: 0 <= i < |all| ==> all[i] == all[0];
    SelectNone(posts, all, all, t);
  }

  lemma {:induction false} CountsAllAbove(a: seq<real>, x: real)
    requires forall i :: 0 <= i < |a| ==> x < a[i]
    ensures CountBelow(a, x) == 0 && CountAtMost(a, x) == 0
  {
    if a != [] {
      CountsAllAbove(a[1..], x);
    }
  }

  lemma {:induction false} CountsAppend(a: seq<real>, b: seq<real>, x: real)
    ensures CountBelow(a + b, x) == CountBelow(a, x) + CountBelow(b, x)
    ensures CountAtMost(a + b, x) == CountAtMost(a, x) + CountAtMost(b, x)
  {
    if a == [] {
      assert a + b == b;
    } else {
      assert (a + b)[1..] == a[1..] + b;
      CountsAppend(a[1..], b, x);
    }
  }

  /** Among three scores x and two scores y > x, a y has rank sum 9 (percentile 90)
      and an x rank sum 4 (percentile 40). */
  lemma ThreeLowTwoHigh(lo: seq<real>, hi: seq<real>, x: real, y: real)
    requires |lo| == 3 && |hi| == 2 && x < y
    requires forall i :: 0 <= i < 3 ==> lo[i] == x
    requires forall i :: 0 <= i < 2 ==> hi[i] == y
    ensures Meets(lo + hi, y, Lax)
    ensures !Meets(lo + hi, x, Lax)
  {
    CountsAppend(lo, hi, y);
    CountsAllBelow(lo, y);
    CountsAllEqual(hi, y);
    CountsAppend(lo, hi, x);
    CountsAllEqual(lo, x);
    CountsAllAbove(hi, x);
  }

  lemma {:induction false} SelectAppend(xs: seq<ScoredPost>, sx: seq<real>, ys: seq<ScoredPost>, sy: seq<real>,
                                        all: seq<real>, t: Threshold)
    requires |sx| == |xs| && |sy| == |ys| && |all| > 0
    ensures Select(xs + ys, sx + sy, all, t) == Select(xs, sx, all, t) + Select(ys, sy, all, t)
  {
    if xs == [] {
      assert xs + ys == ys && sx + sy == sy;
    } else {
      assert (xs + ys)[1..] == xs[1..] + ys && (sx + sy)[1..] == sx[1..] + sy;
      SelectAppend(xs[1..], sx[1..], ys, sy, all, t);
    }
  }

  lemma {:induction false} SelectAll(posts: seq<ScoredPost>, scores: seq<real>, all: seq<real>, t: Threshold)
    requires |scores| == |posts| && |all| > 0
    requires forall i :: 0 <= i < |scores| ==> Meets(all, scores[i], t)
    ensures Select(posts, scores, all, t) == posts
  {
    if posts != [] {
      assert forall i :: 0 <= i < |scores| - 1 ==> scores[1..][i] == scores[i + 1];
      SelectAll(posts[1..], scores[1..], all, t);
    }
  }

  /** Of three posts scoring 0 and two scoring 1, lax keeps the two. */
  lemma LaxKeepsTopTwo(m: Scorers.Roots, posts: seq<ScoredPost>, scorer: Scorers.Scorer)
    requires Scores(m, posts, scorer) == [0.0, 0.0, 0.0, 1.0, 1.0]
    ensures PostsMeetingCriteria(m, Lax, posts, scorer) == posts[3..]
  {
    SelectTopTwo(posts, Scores(m, posts, scorer), 0.0, 1.0);
  }

  lemma SelectTopTwo(posts: seq<ScoredPost>, all: seq<real>, x: real, y: real)
    requires |posts| == 5 && |all| == 5 && x < y
    requires forall i :: 0 <= i < 3 ==> all[i] == x
    requires forall i :: 3 <= i < 5 ==> all[i] == y
    ensures Select(posts, all, all, Lax) == posts[3..]
  {
    var lo, hi := all[..3], all[3..];
    assert forall i :: 0 <= i < 2 ==> hi[i] == all[i + 3];
    assert all == lo + hi;
    SelectLowHigh(posts[..3], posts[3..], lo, hi, x, y);
    assert posts[..3] + posts[3..] == posts;
  }

  /** Three posts scoring x followed by two scoring y > x: lax keeps the two. */
  lemma SelectLowHigh(xs: seq<ScoredPost>, ys: seq<ScoredPost>, lo: seq<real>, hi: seq<real>, x: real, y: real)
    requires |xs| == |lo| == 3 && |ys| == |hi| == 2 && x < y
    requires forall i :: 0 <= i < 3 ==> lo[i] == x
    requires forall i :: 0 <= i < 2 ==> hi[i] == y
    ensures Select(xs + ys, lo + hi, lo + hi, Lax) == ys
  {
    ThreeLowTwoHigh(lo, hi, x, y);
    SelectNone(xs, lo, lo + hi, Lax);
    SelectAll(ys, hi, lo + hi, Lax);
    SelectAppend(xs, lo, ys, hi, lo + hi, Lax);
  }

  /** Selection is not idempotent: lax applied again to the two posts it kept keeps
      neither. */
  lemma SelectionNotIdempotent(m: Scorers.Roots, posts: seq<ScoredPost>, scorer: Scorers.Scorer)
    requires Scores(m, posts, scorer) == [0.0, 0.0, 0.0, 1.0, 1.0]
    ensures PostsMeetingCriteria(m, Lax, posts, scorer) == posts[3..]
    ensures PostsMeetingCriteria(m, Lax, PostsMeetingCriteria(m, Lax, posts, scorer), scorer) == []
  {
    LaxKeepsTopTwo(m, posts, scorer);
    var all := Scores(m, posts, scorer);
    assert all[3] == all[4];
    PairDropped(m, posts[3..], scorer);
  }

  lemma PairDropped(m: Scorers.Roots, kept: seq<ScoredPost>, scorer: Scorers.Scorer)
    requires |kept| == 2 && kept[0].GetScore(m, scorer) == kept[1].GetScore(m, scorer)
    ensures PostsMeetingCriteria(m, Lax, kept, scorer) == []
  {
    AllEqualDropped(m, Lax, kept, scorer);
  }

  /** Among scores x, 0, 0 with x > 0, a 0 has rank sum 3 (percentile 50). */
  lemma ThreeScores(x: real)
    requires x > 0.0
    ensures !Meets([x, 0.0, 0.0], 0.0, Normal)
  {
  }

  /** Three posts scored by SimpleWeightedScorer: one with 10 boosts, 10 favourites
      and 100 followers, one without engagement, one whose author has no followers.
      Only the first scores above zero, and normal keeps just that one. */
  lemma NormalScenario(m: Scorers.Roots, p1: ScoredPost, p2: ScoredPost, p3: ScoredPost)
    requires p1.info.reblogsCount == 10 && p1.info.favouritesCount == 10 && p1.info.account.followersCount == 100
    requires p2.info.reblogsCount == 0 && p2.info.favouritesCount == 0 && p2.info.account.followersCount == 50
    requires p3.info.reblogsCount == 5 && p3.info.favouritesCount == 5 && p3.info.account.followersCount == 0
    ensures PostsMeetingCriteria(m, Normal, [p1, p2, p3], Scorers.Registered(Scorers.SimpleWeightedScorer)) == [p1]
  {
    var scorer := Scorers.Registered(Scorers.SimpleWeightedScorer);
    var posts := [p1, p2, p3];
    var all := Scores(m, posts, scorer);
    assert all[1] == 0.0 && all[2] == 0.0 && all[0] > 0.0;
    assert all == [all[0], 0.0, 0.0];
    SelectLeader(posts, all[0]);
  }

  /** Among three posts scoring x > 0, 0 and 0, normal keeps the first alone. */
  lemma SelectLeader(posts: seq<ScoredPost>, x: real)
    requires |posts| == 3 && x > 0.0
    ensures Select(posts, [x, 0.0, 0.0], [x, 0.0, 0.0], Normal) == [posts[0]]
  {
    var all := [x, 0.0, 0.0];
    MaximumIsHundred(all, 0, Normal);
    ThreeScores(x);
    assert posts[1..][1..][1..] == [] && all[1..][1..] == [0.0];
    assert Select(posts[1..][1..], all[1..][1..], all, Normal) == [];
    assert Select(posts[1..], all[1..], all, Normal) == [];
  }

  /** With gmean(11, 11) = 11 and sqrt(100) = 10 the first of those posts scores
      11 * (1 / 10) = 1.1. */
  lemma NormalScenarioScore(m: Scorers.Roots, p1: ScoredPost)
    requires p1.info.reblogsCount == 10 && p1.info.favouritesCount == 10 && p1.info.account.followersCount == 100
    requires m.gmean2(11.0, 11.0) == 11.0 && m.sqrt(100.0) == 10.0
    ensures p1.GetScore(m, Scorers.Registered(Scorers.SimpleWeightedScorer)) == 1.1
  {
  }
}
