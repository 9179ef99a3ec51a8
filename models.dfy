/** The post wrapper the rest of the digest passes around: the raw status record,
    its URL, its address on the reader's own server, and its score under a scorer. */
module Models {
  import opened Wrappers
  import opened Statuses
  import Text
  import Scorers

  datatype ScoredPost = ScoredPost(info: Status) {

    /** The "url" field of the wrapped record. */
    function Url(): string {
      info.url
    }

    /** The post's address on the reader's server: the base URL, "/@", the author's
        handle, "/", the status id. */
    function GetHomeUrl(base: string): (r: string)
      ensures |r| == |base| + 2 + |info.account.acct| + 1 + |info.id|
      ensures r[..|base|] == base && r[|base|..|base| + 2] == "/@"
      ensures r[|base| + 2..|base| + 2 + |info.account.acct|] == info.account.acct
      ensures r[|base| + 2 + |info.account.acct|] == '/'
      ensures r[|base| + 2 + |info.account.acct| + 1..] == info.id
    {
      base + "/@" + info.account.acct + "/" + info.id
    }

    /** scorer.score(self): delegated on every call, never cached. Every registered
        scorer, and a configured one whose factor for this author is non-negative,
        gives a non-negative score. */
    function GetScore(m: Scorers.Roots, scorer: Scorers.Scorer): (r: real)
      ensures scorer.Registered? ==> r >= 0.0
      ensures scorer.Configured? && Scorers.AmplifyFactor(scorer.cs, info) >= 0.0 ==> r >= 0.0
    {
      if scorer.Configured? && Scorers.AmplifyFactor(scorer.cs, info) >= 0.0 then
        Scorers.ConfiguredScoreNonNegative(m, scorer.cs, info);
        Scorers.Score(m, scorer, info)
      else
        Scorers.Score(m, scorer, info)
    }
  }

  /** Reads a home URL back against its base: the handle up to the next '/', and
      the id after it. */
  function SplitHomeUrl(base: string, u: string): (r: Option<(string, string)>)
    ensures r.Some? ==> u == base + "/@" + r.value.0 + "/" + r.value.1 && '/' !in r.value.0
  {
    if |u| < |base| + 2 || u[..|base|] != base || u[|base|..|base| + 2] != "/@" then None
    else
      var rest := u[|base| + 2..];
      var acct := Text.BeforeFirst(rest, '/');
      if acct == rest then None
      else
        assert rest == acct + "/" + rest[|acct| + 1..];
        assert u == u[..|base| + 2] + rest;
        Some((acct, rest[|acct| + 1..]))
  }

  /** A home URL splits back into the post's handle and id whenever the handle
      holds no '/'. */
  lemma HomeUrlRoundTrip(p: ScoredPost, base: string)
    requires '/' !in p.info.account.acct
    ensures SplitHomeUrl(base, p.GetHomeUrl(base)) == Some((p.info.account.acct, p.info.id))
  {
    var u := p.GetHomeUrl(base);
    var acct := p.info.account.acct;
    var rest := u[|base| + 2..];
    assert rest == acct + ['/'] + p.info.id;
    Text.BeforeFirstJoin(acct, '/', p.info.id);
  }
}
