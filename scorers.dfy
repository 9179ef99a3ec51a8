/** Weights and scorers: a post's score is a geometric mean of its inflated
    engagement counters times a weight, and a configured scorer further multiplies
    by a per-account amplification factor. Python's class hierarchy becomes a
    tagged variant; each class's method resolution order is written out. */
module Scorers {
  import opened Wrappers
  import opened Statuses
  import Text

  /** Real numbers from one on: every inflated counter (count + 1) and every
      positive follower count. */
  type AtLeastOne = x: real | 1.0 <= x witness 1.0

  /** The numerical library the scorers call: math.sqrt, and scipy's gmean of two
      and of three values. The scorers only ever apply them to values of at least
      one, and of them rely only on the results being at least one too, which the
      types say; the square root's monotonicity is a separate assumption used by
      the lemmas that need it. */
  datatype Roots = Roots(
    sqrt: AtLeastOne -> AtLeastOne,
    gmean2: (AtLeastOne, AtLeastOne) -> AtLeastOne,
    gmean3: (AtLeastOne, AtLeastOne, AtLeastOne) -> AtLeastOne)

  /** The square root is strictly increasing. */
  ghost predicate SqrtIncreasing(m: Roots) {
    forall x: AtLeastOne, y: AtLeastOne :: x < y ==> m.sqrt(x) < m.sqrt(y)
  }

  // Real arithmetic used below, stated over distinct variables and kept free of
  // the library functions.

  lemma MulLe(a: real, c: real, b: real, d: real)
    requires 0.0 <= a <= b && 0.0 <= c <= d
    ensures a * c <= b * d
  {
  }

  lemma ScaleLt(u: real, x: real, y: real)
    requires 0.0 < u && x < y
    ensures u * x < u * y
  {
  }

  lemma Product(a: real, b: real)
    requires 0.0 <= a && 0.0 <= b
    ensures 0.0 <= a * b
    ensures a * b == 0.0 <==> a == 0.0 || b == 0.0
  {
  }

  lemma InverseLess(a: real, b: real)
    requires 0.0 < a < b
    ensures 0.0 < 1.0 / b < 1.0 / a
  {
  }

  // ---------------------------------------------------------------- weights

  datatype Weight = UniformWeight | InverseFollowerWeight

  /** Weight.weight: one for every post, or the inverse square root of the
      author's follower count, zeroed when that count is zero or hidden (-1). */
  function GetWeight(m: Roots, w: Weight, post: Status): (r: real)
    ensures w.UniformWeight? ==> r == 1.0
    ensures w.InverseFollowerWeight? ==> (r == 0.0 <==> post.account.followersCount <= 0)
    ensures 0.0 <= r <= 1.0
  {
    match w
    case UniformWeight => 1.0
    case InverseFollowerWeight =>
      if post.account.followersCount <= 0 then 0.0
      else 1.0 / m.sqrt(post.account.followersCount as real)
  }

  /** The inverse-follower weight falls strictly as the follower count grows. */
  lemma InverseFollowerWeightDecreasing(m: Roots, p: Status, q: Status)
    requires SqrtIncreasing(m)
    requires 0 < p.account.followersCount < q.account.followersCount
    ensures 0.0 < GetWeight(m, InverseFollowerWeight, q) < GetWeight(m, InverseFollowerWeight, p)
  {
    var x: AtLeastOne, y: AtLeastOne := p.account.followersCount as real, q.account.followersCount as real;
    InverseLess(m.sqrt(x), m.sqrt(y));
  }

  // ---------------------------------------------------------------- scorers

  /** The four scorer classes the registry finds. */
  datatype ScorerClass =
    | SimpleScorer
    | SimpleWeightedScorer
    | ExtendedSimpleScorer
    | ExtendedSimpleWeightedScorer

  predicate IsWeighted(c: ScorerClass) {
    c.SimpleWeightedScorer? || c.ExtendedSimpleWeightedScorer?
  }

  predicate IsExtended(c: ScorerClass) {
    c.ExtendedSimpleScorer? || c.ExtendedSimpleWeightedScorer?
  }

  /** The class a weighted scorer extends (and an unweighted one itself). */
  function Unweighted(c: ScorerClass): ScorerClass {
    if IsExtended(c) then ExtendedSimpleScorer else SimpleScorer
  }

  /** The counters a class's metric reads are all zero. */
  predicate NoEngagement(c: ScorerClass, post: Status) {
    post.reblogsCount == 0 && post.favouritesCount == 0 && (IsExtended(c) ==> post.repliesCount == 0)
  }

  /** The weight classmethod a class inherits first in its method resolution order:
      SimpleWeightedScorer(InverseFollowerWeight, SimpleScorer) finds
      InverseFollowerWeight, SimpleScorer(UniformWeight, Scorer) UniformWeight. */
  function ClassWeight(c: ScorerClass): Weight {
    if IsWeighted(c) then InverseFollowerWeight else UniformWeight
  }

  /** SimpleScorer's metric: gmean(reblogs + 1, favourites + 1), or 0 when both are 0. */
  function SimpleMetric(m: Roots, post: Status): (r: real)
    ensures r == 0.0 <==> post.reblogsCount == 0 && post.favouritesCount == 0
    ensures r != 0.0 ==> 1.0 <= r
  {
    if post.reblogsCount != 0 || post.favouritesCount != 0 then
      m.gmean2((post.reblogsCount + 1) as real, (post.favouritesCount + 1) as real)
    else 0.0
  }

  /** ExtendedSimpleScorer's metric: the same with replies + 1 as a third factor. */
  function ExtendedMetric(m: Roots, post: Status): (r: real)
    ensures r == 0.0 <==> post.reblogsCount == 0 && post.favouritesCount == 0 && post.repliesCount == 0
    ensures r != 0.0 ==> 1.0 <= r
  {
    if post.reblogsCount != 0 || post.favouritesCount != 0 || post.repliesCount != 0 then
      m.gmean3((post.reblogsCount + 1) as real, (post.favouritesCount + 1) as real,
               (post.repliesCount + 1) as real)
    else 0.0
  }

  /** cls.score(post). SimpleScorer.score multiplies its metric by super().weight,
      which for every class below SimpleScorer is UniformWeight's; a weighted
      class takes super().score, its unweighted parent's score, times its own
      super().weight, InverseFollowerWeight's. A post scores zero exactly when
      the counters the class reads are all zero or, for a weighted class, its
      author's follower count is zero or hidden; an unweighted class scores at
      least one otherwise, and a weighted one never more than its parent. */
  function ClassScore(m: Roots, c: ScorerClass, post: Status): (r: real)
    ensures 0.0 <= r
    ensures r == 0.0 <==> NoEngagement(c, post) || (IsWeighted(c) && post.account.followersCount <= 0)
    ensures !IsWeighted(c) ==> r == 0.0 || 1.0 <= r
    decreases IsWeighted(c)
  {
    match c
    case SimpleScorer =>
      SimpleMetric(m, post) * GetWeight(m, UniformWeight, post)
    case SimpleWeightedScorer =>
      WeightedProduct(ClassScore(m, SimpleScorer, post), GetWeight(m, InverseFollowerWeight, post))
    case ExtendedSimpleScorer =>
      ExtendedMetric(m, post) * GetWeight(m, UniformWeight, post)
    case ExtendedSimpleWeightedScorer =>
      WeightedProduct(ClassScore(m, ExtendedSimpleScorer, post), GetWeight(m, InverseFollowerWeight, post))
  }

  /** A score times a weight in [0, 1]: no more than the score, and zero exactly
      when one of the two is. */
  function WeightedProduct(u: real, w: real): (r: real)
    requires 0.0 <= u && 0.0 <= w <= 1.0
    ensures 0.0 <= r <= u
    ensures r == 0.0 <==> u == 0.0 || w == 0.0
  {
    MulLe(u, w, u, 1.0);
    Product(u, w);
    u * w
  }

  /** A weighted scorer's score is its unweighted parent's score times the
      inverse-follower weight, so never above it. */
  lemma WeightedScore(m: Roots, c: ScorerClass, post: Status)
    requires IsWeighted(c)
    ensures ClassScore(m, c, post)
      == WeightedProduct(ClassScore(m, Unweighted(c), post), GetWeight(m, InverseFollowerWeight, post))
    ensures ClassScore(m, c, post) <= ClassScore(m, Unweighted(c), post)
  {
  }

  /** Of two posts with the same engagement, a weighted scorer ranks the one whose
      author has more followers strictly lower, unless neither is engaged with. */
  lemma WeightedScoreDecreasing(m: Roots, c: ScorerClass, p: Status, q: Status)
    requires SqrtIncreasing(m) && IsWeighted(c)
    requires p.reblogsCount == q.reblogsCount && p.favouritesCount == q.favouritesCount
    requires IsExtended(c) ==> p.repliesCount == q.repliesCount
    requires 0 < p.account.followersCount < q.account.followersCount
    requires !NoEngagement(c, p)
    ensures 0.0 < ClassScore(m, c, q) < ClassScore(m, c, p)
  {
    var u := ClassScore(m, Unweighted(c), p);
    SameCountersSameScore(m, Unweighted(c), p, q);
    WeightedScore(m, c, p);
    WeightedScore(m, c, q);
    InverseFollowerWeightDecreasing(m, p, q);
    ProductDecreasing(u, GetWeight(m, InverseFollowerWeight, p), GetWeight(m, InverseFollowerWeight, q));
  }

  lemma ProductDecreasing(u: real, x: real, y: real)
    requires 0.0 < u && 0.0 < y < x <= 1.0
    ensures 0.0 < WeightedProduct(u, y) < WeightedProduct(u, x)
  {
    ScaleLt(u, y, x);
    assert WeightedProduct(u, y) == u * y;
    assert WeightedProduct(u, x) == u * x;
  }

  /** Scores depend only on the engagement counters and, for a weighted scorer,
      the follower count. */
  lemma SameCountersSameScore(m: Roots, c: ScorerClass, p: Status, q: Status)
    requires p.reblogsCount == q.reblogsCount && p.favouritesCount == q.favouritesCount
    requires IsExtended(c) ==> p.repliesCount == q.repliesCount
    requires IsWeighted(c) ==> p.account.followersCount == q.account.followersCount
    ensures ClassScore(m, c, p) == ClassScore(m, c, q)
    decreases IsWeighted(c)
  {
    match c
    case SimpleScorer =>
      assert SimpleMetric(m, p) == SimpleMetric(m, q);
    case ExtendedSimpleScorer =>
      assert ExtendedMetric(m, p) == ExtendedMetric(m, q);
    case SimpleWeightedScorer =>
      SameCountersSameScore(m, SimpleScorer, p, q);
      assert GetWeight(m, InverseFollowerWeight, p) == GetWeight(m, InverseFollowerWeight, q);
    case ExtendedSimpleWeightedScorer =>
      SameCountersSameScore(m, ExtendedSimpleScorer, p, q);
      assert GetWeight(m, InverseFollowerWeight, p) == GetWeight(m, InverseFollowerWeight, q);
  }

  // ---------------------------------------------------------------- configured scorer

  /** ConfiguredScorer's state, set once by its constructor. The handle
      normalisation it calls, get_full_account_name, is not part of this model
      and is carried as a given function of (handle, default host). */
  datatype ConfiguredScorer = ConfiguredScorer(
    defaultHost: string,
    baseScorer: ScorerClass,
    amplifyAccounts: map<string, real>,
    fullAccountName: (string, string) -> string)

  /** amplify_accounts.get(full account name, 1.0) */
  function AmplifyFactor(cs: ConfiguredScorer, post: Status): real {
    var acct := cs.fullAccountName(post.account.acct, cs.defaultHost);
    if acct in cs.amplifyAccounts then cs.amplifyAccounts[acct] else 1.0
  }

  /** ConfiguredScorer.weight: the base class's weight times the amplification. */
  function ConfiguredWeight(m: Roots, cs: ConfiguredScorer, post: Status): real {
    GetWeight(m, ClassWeight(cs.baseScorer), post) * AmplifyFactor(cs, post)
  }

  /** ConfiguredScorer.score: the base class's score times this scorer's weight. */
  function ConfiguredScore(m: Roots, cs: ConfiguredScorer, post: Status): real {
    ClassScore(m, cs.baseScorer, post) * ConfiguredWeight(m, cs, post)
  }

  /** What a configured scorer computes over a weighted base class: the inverse
      follower weight is applied twice, once in the base class's score and once in
      the configured weight, then the amplification factor. */
  lemma ConfiguredScoreWeighted(m: Roots, cs: ConfiguredScorer, post: Status)
    requires IsWeighted(cs.baseScorer)
    ensures var w := GetWeight(m, InverseFollowerWeight, post);
      ConfiguredScore(m, cs, post)
        == (ClassScore(m, Unweighted(cs.baseScorer), post) * w) * (w * AmplifyFactor(cs, post))
  {
    WeightedScore(m, cs.baseScorer, post);
  }

  /** Over an unweighted base class a configured scorer is the base score times the
      amplification factor, and so the base score itself for an unlisted account. */
  lemma ConfiguredScoreUnweighted(m: Roots, cs: ConfiguredScorer, post: Status)
    requires !IsWeighted(cs.baseScorer)
    ensures ConfiguredScore(m, cs, post) == ClassScore(m, cs.baseScorer, post) * AmplifyFactor(cs, post)
    ensures cs.fullAccountName(post.account.acct, cs.defaultHost) !in cs.amplifyAccounts ==>
      ConfiguredScore(m, cs, post) == ClassScore(m, cs.baseScorer, post)
  {
    UnitWeight(ClassScore(m, cs.baseScorer, post), AmplifyFactor(cs, post));
  }

  lemma UnitWeight(s: real, a: real)
    ensures s * (1.0 * a) == s * a
  {
  }

  /** A non-negative amplification factor keeps a configured score non-negative. */
  lemma ConfiguredScoreNonNegative(m: Roots, cs: ConfiguredScorer, post: Status)
    requires AmplifyFactor(cs, post) >= 0.0
    ensures ConfiguredScore(m, cs, post) >= 0.0
  {
    var w := GetWeight(m, ClassWeight(cs.baseScorer), post);
    MulLe(0.0, 0.0, w, AmplifyFactor(cs, post));
    MulLe(0.0, 0.0, ClassScore(m, cs.baseScorer, post), ConfiguredWeight(m, cs, post));
  }

  /** Amplification multiplies a configured score by the author's factor and
      changes nothing else: the score is the factor times what the same scorer
      without an amplification map gives. */
  lemma AmplifiedScore(m: Roots, cs: ConfiguredScorer, post: Status)
    ensures ConfiguredScore(m, cs, post)
      == AmplifyFactor(cs, post) * ConfiguredScore(m, cs.(amplifyAccounts := map[]), post)
  {
    var plain := cs.(amplifyAccounts := map[]);
    var w := GetWeight(m, ClassWeight(cs.baseScorer), post);
    assert AmplifyFactor(plain, post) == 1.0;
    assert ConfiguredWeight(m, plain, post) == w;
    ScaleFactor(ClassScore(m, cs.baseScorer, post), w, AmplifyFactor(cs, post));
  }

  lemma ScaleFactor(s: real, w: real, a: real)
    ensures s * (w * a) == a * (s * w)
  {
  }

  /** Over an unweighted base class, a post whose author is listed with factor f
      scores f times an identically engaged post by an unlisted author. */
  lemma AmplifiedAgainstUnlisted(m: Roots, cs: ConfiguredScorer, p: Status, q: Status)
    requires !IsWeighted(cs.baseScorer)
    requires p.reblogsCount == q.reblogsCount && p.favouritesCount == q.favouritesCount
    requires IsExtended(cs.baseScorer) ==> p.repliesCount == q.repliesCount
    requires cs.fullAccountName(q.account.acct, cs.defaultHost) !in cs.amplifyAccounts
    ensures ConfiguredScore(m, cs, p) == AmplifyFactor(cs, p) * ConfiguredScore(m, cs, q)
  {
  }

  // ---------------------------------------------------------------- names and registry

  datatype Scorer = Registered(cls: ScorerClass) | Configured(cs: ConfiguredScorer)

  /** scorer.score(post) */
  function Score(m: Roots, s: Scorer, post: Status): real {
    match s
    case Registered(c) => ClassScore(m, c, post)
    case Configured(cs) => ConfiguredScore(m, cs, post)
  }

  function ClassName(c: ScorerClass): string {
    match c
    case SimpleScorer => "SimpleScorer"
    case SimpleWeightedScorer => "SimpleWeightedScorer"
    case ExtendedSimpleScorer => "ExtendedSimpleScorer"
    case ExtendedSimpleWeightedScorer => "ExtendedSimpleWeightedScorer"
  }

  /** Scorer.get_name: the class name with "Scorer" removed. In every class name
      "Scorer" occurs once, as the suffix, so the removal drops that suffix. */
  function ClassGetName(c: ScorerClass): (r: string)
    ensures ClassName(c) == r + "Scorer"
  {
    match c
    case SimpleScorer => "Simple"
    case SimpleWeightedScorer => "SimpleWeighted"
    case ExtendedSimpleScorer => "ExtendedSimple"
    case ExtendedSimpleWeightedScorer => "ExtendedSimpleWeighted"
  }

  /** get_scorers: display name to scorer class, over the classes the module's
      reflection finds (every Scorer subclass but the abstract Scorer and
      ConfiguredScorer). */
  function GetScorers(): (r: map<string, ScorerClass>)
    ensures r.Keys == {"Simple", "SimpleWeighted", "ExtendedSimple", "ExtendedSimpleWeighted"}
    ensures "Configured" !in r
    ensures forall c :: ClassGetName(c) in r && r[ClassGetName(c)] == c
  {
    map[
      ClassGetName(ExtendedSimpleScorer) := ExtendedSimpleScorer,
      ClassGetName(ExtendedSimpleWeightedScorer) := ExtendedSimpleWeightedScorer,
      ClassGetName(SimpleScorer) := SimpleScorer,
      ClassGetName(SimpleWeightedScorer) := SimpleWeightedScorer]
  }

  /** scorer.get_name(); a configured scorer's instance override prefixes
      "Configured" to its base class's name. Either way the registry maps the
      name (after that prefix) back to the scorer class. */
  function GetName(s: Scorer): (r: string)
    ensures s.Registered? ==> r in GetScorers() && GetScorers()[r] == s.cls
    ensures s.Configured? ==>
      |r| >= 10 && r[..10] == "Configured" &&
      r[10..] in GetScorers() && GetScorers()[r[10..]] == s.cs.baseScorer
  {
    match s
    case Registered(c) => ClassGetName(c)
    case Configured(cs) =>
      var r := "Configured" + ClassGetName(cs.baseScorer);
      assert r[10..] == ClassGetName(cs.baseScorer);
      r
  }

  // ---------------------------------------------------------------- construction

  /** The keyword arguments ConfiguredScorer(**pars) reads. */
  datatype ConfiguredParams = ConfiguredParams(
    scorer: Option<string>,
    defaultHost: Option<string>,
    amplifyAccounts: Option<map<string, real>>)

  datatype ConfigError =
    | KeyError(key: string)           // a required keyword is absent
    | FormatTypeError                 // "%" raised: arguments do not match the format
    | ConfigurationExit(message: string)  // sys.exit with this message

  const ExitPrefix: string := "Configure scorer '"
  const ExitMiddle: string := "' must be one of "

  /** The format check_params exits with: two "%s" conversions. */
  const CheckParamsFormat: string := ExitPrefix + ("%s" + (ExitMiddle + "%s"))

  /** The rendering of the admissible name set in the exit message. Python's set
      order is unspecified; one order is fixed here. */
  const AdmissibleListing: string := "{'Simple', 'SimpleWeighted', 'ExtendedSimple', 'ExtendedSimpleWeighted'}"

  function AdmissibleBaseScorers(): set<string> {
    GetScorers().Keys - {"Configured"}
  }

  /** The exit format holds exactly two conversions. */
  lemma {:induction false} FormatPlaceholders()
    ensures Text.Placeholders(CheckParamsFormat) == 2
  {
    var tail := ExitMiddle + "%s";
    Text.PlaceholdersLiteral(ExitPrefix, "%s" + tail);
    assert ("%s" + tail)[..2] == "%s" && ("%s" + tail)[2..] == tail;
    Text.PlaceholdersLiteral(ExitMiddle, "%s");
    assert "%s"[2..] == "";
  }

  /** Formatting the exit message with a name and the listing splices both in. */
  lemma {:induction false} FormatMessage(name: string)
    ensures Text.Interpolate(CheckParamsFormat, [name, AdmissibleListing])
      == Some(ExitPrefix + (name + (ExitMiddle + AdmissibleListing)))
  {
    var tail := ExitMiddle + "%s";
    assert "%s"[2..] == "" && AdmissibleListing + "" == AdmissibleListing;
    assert Text.Interpolate("%s", [AdmissibleListing]) == Some(AdmissibleListing);
    Text.InterpolateLiteral(ExitMiddle, "%s", [AdmissibleListing]);
    assert Text.Interpolate(tail, [AdmissibleListing]) == Some(ExitMiddle + AdmissibleListing);
    assert ("%s" + tail)[..2] == "%s" && ("%s" + tail)[2..] == tail;
    assert [name, AdmissibleListing][1..] == [AdmissibleListing];
    assert Text.Interpolate("%s" + tail, [name, AdmissibleListing])
      == Some(name + (ExitMiddle + AdmissibleListing));
    Text.InterpolateLiteral(ExitPrefix, "%s" + tail, [name, AdmissibleListing]);
  }

  /** check_params as written: the format has two "%s" but is given the set alone
      (a set is one argument, not a tuple). */
  function CheckParamsAsWritten(pars: ConfiguredParams): Result<(), ConfigError> {
    match pars.scorer
    case None => Err(KeyError("scorer"))
    case Some(name) =>
      if name in AdmissibleBaseScorers() then Ok(())
      else match Text.Interpolate(CheckParamsFormat, [AdmissibleListing])
        case Some(msg) => Err(ConfigurationExit(msg))
        case None => Err(FormatTypeError)
  }

  /** As written, an unknown base scorer raises TypeError from the formatting and
      never reaches the intended exit message. */
  lemma CheckParamsAsWrittenRaises(pars: ConfiguredParams)
    requires pars.scorer.Some? && pars.scorer.value !in AdmissibleBaseScorers()
    ensures CheckParamsAsWritten(pars) == Err(FormatTypeError)
  {
    FormatPlaceholders();
  }

  /** check_params as evidently intended: the message is formatted with the
      rejected name and the admissible set, and the process exits with it. */
  function CheckParams(pars: ConfiguredParams): (r: Result<(), ConfigError>)
    ensures r.Ok? <==> pars.scorer.Some? && pars.scorer.value in AdmissibleBaseScorers()
    ensures pars.scorer.None? ==> r == Err(KeyError("scorer"))
    ensures pars.scorer.Some? && pars.scorer.value !in AdmissibleBaseScorers() ==>
      r == Err(ConfigurationExit(ExitPrefix + (pars.scorer.value + (ExitMiddle + AdmissibleListing))))
  {
    match pars.scorer
    case None => Err(KeyError("scorer"))
    case Some(name) =>
      if name in AdmissibleBaseScorers() then Ok(())
      else
        FormatMessage(name);
        match Text.Interpolate(CheckParamsFormat, [name, AdmissibleListing])
        case Some(msg) => Err(ConfigurationExit(msg))
        case None => Err(FormatTypeError)
  }

  /** ConfiguredScorer(**pars): checks the base scorer name, then reads the default
      host and the optional amplification map (empty when absent). */
  function NewConfiguredScorer(pars: ConfiguredParams, fullAccountName: (string, string) -> string)
    : (r: Result<ConfiguredScorer, ConfigError>)
    ensures r.Ok? <==> pars.scorer.Some? && pars.scorer.value in GetScorers() && pars.defaultHost.Some?
    ensures r.Ok? ==>
      r.value.baseScorer == GetScorers()[pars.scorer.value] &&
      GetName(Configured(r.value)) == "Configured" + pars.scorer.value &&
      r.value.defaultHost == pars.defaultHost.value &&
      r.value.amplifyAccounts == (if pars.amplifyAccounts.Some? then pars.amplifyAccounts.value else map[])
  {
    match CheckParams(pars)
    case Err(e) => Err(e)
    case Ok(_) =>
      match pars.defaultHost
      case None => Err(KeyError("default_host"))
      case Some(host) =>
        var base := GetScorers()[pars.scorer.value];
        var amplify := if pars.amplifyAccounts.Some? then pars.amplifyAccounts.value else map[];
        Ok(ConfiguredScorer(host, base, amplify, fullAccountName))
  }
}
