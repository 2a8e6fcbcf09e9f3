/** The fitness Bayes network: observed input counts Z (pseudocount already
    added) and output counts X, a Dirichlet layer theta with concentration
    alpha * Z * w, and a prior on the fitness vector w that is log-normal,
    shifted Pareto or Gamma.  This module holds the closed-form log-likelihood
    terms and the per-component Metropolis-Hastings log acceptance ratio of
    each family, exactly as the network classes compute them. */
module FitnessNetworks {
  import opened Numeric

  /** The prior family and its hyperparameters. */
  datatype Prior =
    | LogNormal(mu: real, sigma: real)
    | Pareto(t: real)
    | Gamma(scale: real, shape: real)

  /** A network instance: the data, alpha, the prior, and the three constants
      `a`, `b`, `c` its constructor precomputes. */
  datatype Network = Network(Z: seq<nat>, X: seq<nat>, alpha: real, prior: Prior,
                             a: real, b: real, c: real)
  {
    /** `self.N = len(X)` */
    function N(): nat { |X| }

    /** `self.n = sum(X)` */
    function n(): nat { SumNat(X) }
  }

  /** The constant `a` of each family: the part of the log prior density of
      N independent components that does not depend on w. */
  function PriorConstant(m: Elementary, prior: Prior, N: nat): real
  {
    match prior
    case LogNormal(mu, sigma) => -(N as real) * m.log(2.0 * Pi * Square(sigma)) / 2.0
    case Pareto(t) => N as real * m.log(t)
    case Gamma(scale, shape) => -shape * (N as real) * m.log(scale) - (N as real) * m.gammaln(shape)
  }

  /** The constants hold what the constructor put in them. */
  predicate Consistent(m: Elementary, net: Network)
  {
    && net.a == PriorConstant(m, net.prior, net.N())
    && net.b == LogFactorial(m, net.n())
    && net.c == Sum(LogFactorials(m, net.X))
  }

  /** Hyperparameters the formulas divide by are nonzero. */
  predicate NonDegenerate(prior: Prior)
  {
    match prior
    case LogNormal(_, sigma) => sigma != 0.0
    case Pareto(_) => true
    case Gamma(scale, _) => scale != 0.0
  }

  /** A vector indexed like the items of the network. */
  predicate Fits(net: Network, v: seq<real>)
  {
    |net.Z| == |net.X| == |v|
  }

  /** `LogNormalFitnessNetwork(Z, X, mu, sigma)`: the base constructor with
      its default alpha of 1, then the three constants. */
  function LogNormalNetwork(m: Elementary, Z: seq<nat>, X: seq<nat>, mu: real, sigma: real): (net: Network)
    ensures Consistent(m, net)
    ensures net.Z == Z && net.X == X && net.prior == LogNormal(mu, sigma) && net.alpha == 1.0
  {
    Network(Z, X, 1.0, LogNormal(mu, sigma),
            -(|X| as real) * m.log(2.0 * Pi * Square(sigma)) / 2.0,
            LogFactorial(m, SumNat(X)),
            Sum(LogFactorials(m, X)))
  }

  /** `ParetoFitnessNetwork(Z, X, t)` */
  function ParetoNetwork(m: Elementary, Z: seq<nat>, X: seq<nat>, t: real): (net: Network)
    ensures Consistent(m, net)
    ensures net.Z == Z && net.X == X && net.prior == Pareto(t) && net.alpha == 1.0
  {
    Network(Z, X, 1.0, Pareto(t),
            |X| as real * m.log(t),
            LogFactorial(m, SumNat(X)),
            Sum(LogFactorials(m, X)))
  }

  /** `GammaFitnessNetwork(Z, X, scale, shape)` */
  function GammaNetwork(m: Elementary, Z: seq<nat>, X: seq<nat>, scale: real, shape: real): (net: Network)
    ensures Consistent(m, net)
    ensures net.Z == Z && net.X == X && net.prior == Gamma(scale, shape) && net.alpha == 1.0
  {
    Network(Z, X, 1.0, Gamma(scale, shape),
            -shape * (|X| as real) * m.log(scale) - (|X| as real) * m.gammaln(shape),
            LogFactorial(m, SumNat(X)),
            Sum(LogFactorials(m, X)))
  }

  /** `self.alpha * self.Z[i] * x`: component i's share of the Dirichlet
      concentration when its fitness is x. */
  function Weight(net: Network, i: nat, x: real): real
    requires i < |net.Z|
  {
    net.alpha * (net.Z[i] as real) * x
  }

  /** `self.alpha * self.Z * w` */
  function AZW(net: Network, w: seq<real>): (r: seq<real>)
    requires |w| == |net.Z|
    ensures |r| == |w|
  {
    seq(|w|, j requires 0 <= j < |w| => Weight(net, j, w[j]))
  }

  /** `x - 1`, applied element-wise to `alpha * Z * w`. */
  function Decrement(x: real): real
  {
    x - 1.0
  }

  /** `log(x) - mu` */
  function LogDeviation(m: Elementary, mu: real, x: real): real
  {
    m.log(x) - mu
  }

  /** `(log(w) - mu) ** 2`, element-wise. */
  function SquaredLogDeviation(m: Elementary, mu: real): real -> real
  {
    x => Square(LogDeviation(m, mu, x))
  }

  /** `sum(u * log(theta))` */
  function SumTimesLog(m: Elementary, u: seq<real>, theta: seq<real>): real
    requires |u| == |theta|
  {
    Sum(seq(|u|, j requires 0 <= j < |u| => u[j] * m.log(theta[j])))
  }

  /** `X` as a float vector. */
  function AsReals(xs: seq<nat>): (r: seq<real>)
    ensures |r| == |xs|
    ensures forall j :: 0 <= j < |xs| ==> r[j] == xs[j] as real
  {
    seq(|xs|, j requires 0 <= j < |xs| => xs[j] as real)
  }

  /** `2 * sigma ** 2`, the denominator of the log-normal exponent. */
  function TwiceVariance(sigma: real): (d: real)
    ensures sigma != 0.0 ==> d > 0.0
  {
    SquarePositiveIfNonzero(sigma); 2.0 * Square(sigma)
  }

  /** `loglikelihood_w(w)`: the log prior density of w. */
  function LogLikelihoodW(net: Network, m: Elementary, w: seq<real>): real
    requires NonDegenerate(net.prior)
  {
    match net.prior
    case LogNormal(mu, sigma) =>
      net.a - Sum(Map(m.log, w)) - Sum(Map(SquaredLogDeviation(m, mu), w)) / TwiceVariance(sigma)
    case Pareto(t) =>
      net.a - (t + 1.0) * Sum(Map(m.log, w))
    case Gamma(scale, shape) =>
      net.a + (shape - 1.0) * Sum(Map(m.log, w)) - Sum(w) / scale
  }

  /** `loglikelihood_theta(theta, w)`: the Dirichlet log density of theta,
      the same for every family. */
  function LogLikelihoodTheta(net: Network, m: Elementary, theta: seq<real>, w: seq<real>): real
    requires Fits(net, w) && Fits(net, theta)
  {
    var azw := AZW(net, w);
    SumTimesLog(m, Map(Decrement, azw), theta) + m.gammaln(Sum(azw)) - Sum(Map(m.gammaln, azw))
  }

  /** `loglikelihood_X(theta)`: the multinomial log probability of X. */
  function LogLikelihoodX(net: Network, m: Elementary, theta: seq<real>): real
    requires Fits(net, theta)
  {
    net.b - net.c + SumTimesLog(m, AsReals(net.X), theta)
  }

  /** `FitnessNetwork.loglikelihood(theta, w)` */
  function LogLikelihood(net: Network, m: Elementary, theta: seq<real>, w: seq<real>): real
    requires NonDegenerate(net.prior) && Fits(net, w) && Fits(net, theta)
  {
    LogLikelihoodW(net, m, w) + LogLikelihoodTheta(net, m, theta, w) + LogLikelihoodX(net, m, theta)
  }

  /** `sum_aZw_not_i`: the total of `alpha * Z * w` minus component i. */
  function SumNotI(net: Network, w: seq<real>, i: nat): real
    requires |w| == |net.Z| && i < |w|
  {
    Sum(AZW(net, w)) - Weight(net, i, w[i])
  }

  /** Computed as the total minus component i, `sum_aZw_not_i` is the sum
      over every other component of the current w. */
  lemma SumNotIIsSumOfOthers(net: Network, w: seq<real>, i: nat)
    requires |w| == |net.Z| && i < |w|
    ensures SumNotI(net, w, i) == Sum(AZW(net, w)[..i]) + Sum(AZW(net, w)[i + 1..])
  {
    SumWithout(AZW(net, w), i);
  }

  /** The Dirichlet part of `log_ratio`, the same in every family: the
      change in `(alpha Z_i w_i - 1) log theta_i` and in the two `gammaln`
      terms of component i when it moves from w[i] to v, with the sum of the
      other components taken from the current w.  (The Pareto class lists
      the four `gammaln` terms in another order; the value is the same.) */
  function DirichletTerm(net: Network, m: Elementary, w: seq<real>, v: real, theta: seq<real>, i: nat): real
    requires Fits(net, w) && Fits(net, theta) && i < |w|
  {
    (v - w[i]) * net.alpha * (net.Z[i] as real) * m.log(theta[i])
    + m.gammaln(TotalWith(net, w, i, v)) - m.gammaln(Weight(net, i, v))
    - (m.gammaln(TotalWith(net, w, i, w[i])) - m.gammaln(Weight(net, i, w[i])))
  }

  /** `sum_aZw_not_i + alpha * Z[i] * x`: the total concentration once
      component i is set to x. */
  function TotalWith(net: Network, w: seq<real>, i: nat, x: real): real
    requires |w| == |net.Z| && i < |w|
  {
    SumNotI(net, w, i) + Weight(net, i, x)
  }

  /** The prior part of `log_ratio` as each family writes it, for a move of
      one component from `wi` to `wsi`. */
  function PriorTerm(net: Network, m: Elementary, wi: real, wsi: real): real
    requires NonDegenerate(net.prior)
  {
    var lw, lws := m.log(wi), m.log(wsi);
    match net.prior
    case LogNormal(mu, sigma) =>
      lw - lws - (Square(LogDeviation(m, mu, wsi)) + Square(LogDeviation(m, mu, wi))) / TwiceVariance(sigma)
    case Pareto(t) =>
      (t + 1.0) * (lw - lws)
    case Gamma(scale, shape) =>
      (shape - 1.0) * (lw - lws) - (wsi - wi) / scale
  }

  /** `log_ratio` for component i in `sample_w_given_theta`, given the
      current w and the proposals w_star. */
  function LogRatio(net: Network, m: Elementary, w: seq<real>, wStar: seq<real>,
                    theta: seq<real>, i: nat): real
    requires NonDegenerate(net.prior)
    requires Fits(net, w) && Fits(net, wStar) && Fits(net, theta) && i < |w|
  {
    PriorTerm(net, m, w[i], wStar[i]) + DirichletTerm(net, m, w, wStar[i], theta, i)
  }

  lemma AZWUpdate(net: Network, w: seq<real>, i: nat, v: real)
    requires |w| == |net.Z| && i < |w|
    ensures AZW(net, w[i := v]) == AZW(net, w)[i := Weight(net, i, v)]
  {
    var l, r := AZW(net, w[i := v]), AZW(net, w)[i := Weight(net, i, v)];
    assert forall j :: 0 <= j < |w| ==> l[j] == r[j];
  }

  lemma {:induction false} SumTimesLogUpdate(m: Elementary, u: seq<real>, theta: seq<real>, i: nat, v: real)
    requires |u| == |theta| && i < |u|
    ensures SumTimesLog(m, u[i := v], theta)
         == SumTimesLog(m, u, theta) - u[i] * m.log(theta[i]) + v * m.log(theta[i])
  {
    var terms := seq(|u|, j requires 0 <= j < |u| => u[j] * m.log(theta[j]));
    var terms' := seq(|u|, j requires 0 <= j < |u| => u[i := v][j] * m.log(theta[j]));
    assert forall j :: 0 <= j < |u| ==> terms'[j] == terms[i := v * m.log(theta[i])][j];
    assert terms' == terms[i := v * m.log(theta[i])];
    SumUpdate(terms, i, v * m.log(theta[i]));
  }

  lemma DivDifference(x: real, y: real, d: real)
    requires d != 0.0
    ensures x / d - y / d == (x - y) / d
  {
  }

  /** The change in `loglikelihood` when only w changes is the change in
      the prior term plus the change in the Dirichlet term. */
  lemma JointChange(net: Network, m: Elementary, theta: seq<real>, w: seq<real>, w': seq<real>)
    requires NonDegenerate(net.prior) && Fits(net, w) && Fits(net, w') && Fits(net, theta)
    ensures LogLikelihood(net, m, theta, w') - LogLikelihood(net, m, theta, w)
         == (LogLikelihoodW(net, m, w') - LogLikelihoodW(net, m, w))
            + (LogLikelihoodTheta(net, m, theta, w') - LogLikelihoodTheta(net, m, theta, w))
  {
  }

  lemma SumMapUpdate(f: real -> real, s: seq<real>, i: nat, v: real)
    requires i < |s|
    ensures Sum(Map(f, s[i := v])) == Sum(Map(f, s)) - f(s[i]) + f(v)
  {
    MapUpdate(f, s, i, v, f(v));
    SumUpdate(Map(f, s), i, f(v));
  }

  lemma LogNormalChangeArithmetic(a: real, L: real, L': real, Q: real, Q': real, d: real,
                                  x: real, y: real, qx: real, qy: real)
    requires d != 0.0 && L' == L - x + y && Q' == Q - qx + qy
    ensures (a - L' - Q' / d) - (a - L - Q / d) == x - y - (qy - qx) / d
  {
    DivDifference(Q', Q, d);
  }

  /** The change in the log-normal `loglikelihood_w` when component i moves to v. */
  lemma LogNormalPriorChange(net: Network, m: Elementary, w: seq<real>, i: nat, v: real)
    requires net.prior.LogNormal? && net.prior.sigma != 0.0 && i < |w|
    ensures
      var mu, d := net.prior.mu, TwiceVariance(net.prior.sigma);
      LogLikelihoodW(net, m, w[i := v]) - LogLikelihoodW(net, m, w)
      == m.log(w[i]) - m.log(v) - (Square(LogDeviation(m, mu, v)) - Square(LogDeviation(m, mu, w[i]))) / d
  {
    var sq, d := SquaredLogDeviation(m, net.prior.mu), TwiceVariance(net.prior.sigma);
    SumMapUpdate(m.log, w, i, v);
    SumMapUpdate(sq, w, i, v);
    LogNormalChangeArithmetic(net.a, Sum(Map(m.log, w)), Sum(Map(m.log, w[i := v])),
                              Sum(Map(sq, w)), Sum(Map(sq, w[i := v])), d,
                              m.log(w[i]), m.log(v), sq(w[i]), sq(v));
  }

  /** The change in the Pareto `loglikelihood_w` when component i moves to v. */
  lemma ParetoPriorChange(net: Network, m: Elementary, w: seq<real>, i: nat, v: real)
    requires net.prior.Pareto? && i < |w|
    ensures LogLikelihoodW(net, m, w[i := v]) - LogLikelihoodW(net, m, w)
         == (net.prior.t + 1.0) * (m.log(w[i]) - m.log(v))
  {
    SumMapUpdate(m.log, w, i, v);
    var t, L, L' := net.prior.t, Sum(Map(m.log, w)), Sum(Map(m.log, w[i := v]));
    assert (t + 1.0) * L - (t + 1.0) * L' == (t + 1.0) * (L - L');
  }

  /** The change in the Gamma `loglikelihood_w` when component i moves to v. */
  lemma GammaPriorChange(net: Network, m: Elementary, w: seq<real>, i: nat, v: real)
    requires net.prior.Gamma? && net.prior.scale != 0.0 && i < |w|
    ensures LogLikelihoodW(net, m, w[i := v]) - LogLikelihoodW(net, m, w)
         == (net.prior.shape - 1.0) * (m.log(v) - m.log(w[i])) - (v - w[i]) / net.prior.scale
  {
    SumMapUpdate(m.log, w, i, v);
    SumUpdate(w, i, v);
    var k, L, L' := net.prior.shape - 1.0, Sum(Map(m.log, w)), Sum(Map(m.log, w[i := v]));
    assert k * L' - k * L == k * (L' - L);
    DivDifference(Sum(w[i := v]), Sum(w), net.prior.scale);
  }

  /** The parts of `loglikelihood_theta` that a move of component i from
      w[i] to v changes. */
  /** `loglikelihood_theta` with its total concentration written as the
      sum over the components other than i plus component i. */
  lemma ThetaSplit(net: Network, m: Elementary, theta: seq<real>, w: seq<real>, i: nat)
    requires Fits(net, w) && Fits(net, theta) && i < |w|
    ensures LogLikelihoodTheta(net, m, theta, w)
         == SumTimesLog(m, Map(Decrement, AZW(net, w)), theta)
            + m.gammaln(TotalWith(net, w, i, w[i])) - Sum(Map(m.gammaln, AZW(net, w)))
  {
    assert Sum(AZW(net, w)) == TotalWith(net, w, i, w[i]);
  }

  /** The same after component i moves to v: the other components' sum is
      unchanged. */
  lemma ThetaSplitMoved(net: Network, m: Elementary, theta: seq<real>, w: seq<real>, i: nat, v: real)
    requires Fits(net, w) && Fits(net, theta) && i < |w|
    ensures LogLikelihoodTheta(net, m, theta, w[i := v])
         == SumTimesLog(m, Map(Decrement, AZW(net, w[i := v])), theta)
            + m.gammaln(TotalWith(net, w, i, v)) - Sum(Map(m.gammaln, AZW(net, w[i := v])))
  {
    AZWUpdate(net, w, i, v);
    SumUpdate(AZW(net, w), i, Weight(net, i, v));
    assert Sum(AZW(net, w[i := v])) == TotalWith(net, w, i, v);
  }

  lemma GammalnPart(net: Network, m: Elementary, w: seq<real>, i: nat, v: real)
    requires |w| == |net.Z| && i < |w|
    ensures Sum(Map(m.gammaln, AZW(net, w[i := v])))
         == Sum(Map(m.gammaln, AZW(net, w))) - m.gammaln(Weight(net, i, w[i])) + m.gammaln(Weight(net, i, v))
  {
    AZWUpdate(net, w, i, v);
    SumMapUpdate(m.gammaln, AZW(net, w), i, Weight(net, i, v));
  }

  lemma DecrementPart(net: Network, m: Elementary, theta: seq<real>, w: seq<real>, i: nat, v: real)
    requires Fits(net, w) && Fits(net, theta) && i < |w|
    ensures
      var x, x0 := Weight(net, i, v), Weight(net, i, w[i]);
      SumTimesLog(m, Map(Decrement, AZW(net, w[i := v])), theta)
      == SumTimesLog(m, Map(Decrement, AZW(net, w)), theta) - (x0 - 1.0) * m.log(theta[i]) + (x - 1.0) * m.log(theta[i])
  {
    var x := Weight(net, i, v);
    var azw := AZW(net, w);
    AZWUpdate(net, w, i, v);
    MapUpdate(Decrement, azw, i, x, x - 1.0);
    SumTimesLogUpdate(m, Map(Decrement, azw), theta, i, x - 1.0);
  }

  /** The change in `(alpha Z_i w_i - 1) log theta_i` is the first term of
      the Dirichlet part of the ratio. */
  lemma WeightDifference(net: Network, i: nat, v: real, wi: real, lt: real)
    requires i < |net.Z|
    ensures (Weight(net, i, v) - 1.0) * lt - (Weight(net, i, wi) - 1.0) * lt
         == (v - wi) * net.alpha * (net.Z[i] as real) * lt
  {
  }

  lemma DirichletArithmetic(lt: real, x: real, x0: real, K: real,
                            P': real, P: real, A: real, B: real, Q': real, Q: real, g: real, g0: real,
                            T': real, T: real, D: real)
    requires (x - 1.0) * lt - (x0 - 1.0) * lt == K
    requires P' == P - (x0 - 1.0) * lt + (x - 1.0) * lt
    requires Q' == Q - g0 + g
    requires T' == P' + A - Q' && T == P + B - Q
    requires D == K + A - g - (B - g0)
    ensures T' - T == D
  {
  }

  /** Moving component i from w[i] to v changes `loglikelihood_theta` by the
      Dirichlet part of the log ratio. */
  lemma ThetaChange(net: Network, m: Elementary, theta: seq<real>, w: seq<real>, i: nat, v: real)
    requires Fits(net, w) && Fits(net, theta) && i < |w|
    ensures LogLikelihoodTheta(net, m, theta, w[i := v]) - LogLikelihoodTheta(net, m, theta, w)
         == DirichletTerm(net, m, w, v, theta, i)
  {
    var w' := w[i := v];
    var lt := m.log(theta[i]);
    ThetaMoveParts(net, m, theta, w, i, v);
    WeightDifference(net, i, v, w[i], lt);
    DirichletArithmetic(lt, Weight(net, i, v), Weight(net, i, w[i]),
                        (v - w[i]) * net.alpha * (net.Z[i] as real) * lt,
                        SumTimesLog(m, Map(Decrement, AZW(net, w')), theta),
                        SumTimesLog(m, Map(Decrement, AZW(net, w)), theta),
                        m.gammaln(TotalWith(net, w, i, v)), m.gammaln(TotalWith(net, w, i, w[i])),
                        Sum(Map(m.gammaln, AZW(net, w'))), Sum(Map(m.gammaln, AZW(net, w))),
                        m.gammaln(Weight(net, i, v)), m.gammaln(Weight(net, i, w[i])),
                        LogLikelihoodTheta(net, m, theta, w'), LogLikelihoodTheta(net, m, theta, w),
                        DirichletTerm(net, m, w, v, theta, i));
  }

  lemma ThetaMoveParts(net: Network, m: Elementary, theta: seq<real>, w: seq<real>, i: nat, v: real)
    requires Fits(net, w) && Fits(net, theta) && i < |w|
    ensures
      var w', x, x0, lt := w[i := v], Weight(net, i, v), Weight(net, i, w[i]), m.log(theta[i]);
      && LogLikelihoodTheta(net, m, theta, w)
         == SumTimesLog(m, Map(Decrement, AZW(net, w)), theta)
            + m.gammaln(TotalWith(net, w, i, w[i])) - Sum(Map(m.gammaln, AZW(net, w)))
      && LogLikelihoodTheta(net, m, theta, w')
         == SumTimesLog(m, Map(Decrement, AZW(net, w')), theta)
            + m.gammaln(TotalWith(net, w, i, v)) - Sum(Map(m.gammaln, AZW(net, w')))
      && Sum(Map(m.gammaln, AZW(net, w'))) == Sum(Map(m.gammaln, AZW(net, w))) - m.gammaln(x0) + m.gammaln(x)
      && SumTimesLog(m, Map(Decrement, AZW(net, w')), theta)
         == SumTimesLog(m, Map(Decrement, AZW(net, w)), theta) - (x0 - 1.0) * lt + (x - 1.0) * lt
  {
    ThetaSplit(net, m, theta, w, i);
    ThetaSplitMoved(net, m, theta, w, i, v);
    GammalnPart(net, m, w, i, v);
    DecrementPart(net, m, theta, w, i, v);
  }

  /** How far each family's written prior term is from the change in its own
      log prior density when component i moves from `wi` to `wsi`. */
  function PriorTermDeviation(net: Network, m: Elementary, wi: real, wsi: real): real
    requires NonDegenerate(net.prior)
  {
    match net.prior
    case LogNormal(mu, sigma) => -2.0 * Square(LogDeviation(m, mu, wi)) / TwiceVariance(sigma)
    case Pareto(_) => 0.0
    case Gamma(_, shape) => 2.0 * (shape - 1.0) * (m.log(wi) - m.log(wsi))
  }

  /** The log acceptance ratio each family writes, against the change in the
      joint log density `loglikelihood` caused by accepting the proposal:
      the two agree up to `PriorTermDeviation`, which is zero for the Pareto
      prior, `-(log w[i] - mu)^2 / sigma^2` for the log-normal prior (its
      written ratio is lower than the density change by the current
      component's squared log deviation over the variance), and `2 (shape - 1)(log w[i] - log w*[i])` for the
      Gamma prior (its written ratio has the (shape - 1) term with the
      opposite sign, which vanishes at the default shape of 1). */
  lemma LogRatioVsJoint(net: Network, m: Elementary, w: seq<real>, wStar: seq<real>,
                        theta: seq<real>, i: nat)
    requires NonDegenerate(net.prior)
    requires Fits(net, w) && Fits(net, wStar) && Fits(net, theta) && i < |w|
    ensures LogRatio(net, m, w, wStar, theta, i)
         == LogLikelihood(net, m, theta, w[i := wStar[i]]) - LogLikelihood(net, m, theta, w)
            + PriorTermDeviation(net, m, w[i], wStar[i])
  {
    var v := wStar[i];
    JointChange(net, m, theta, w, w[i := v]);
    ThetaChange(net, m, theta, w, i, v);
    PriorTermVsPrior(net, m, w, i, v);
  }

  /** The written prior part of the ratio is the change in
      `loglikelihood_w` plus `PriorTermDeviation`. */
  lemma PriorTermVsPrior(net: Network, m: Elementary, w: seq<real>, i: nat, v: real)
    requires NonDegenerate(net.prior) && i < |w|
    ensures PriorTerm(net, m, w[i], v)
         == LogLikelihoodW(net, m, w[i := v]) - LogLikelihoodW(net, m, w) + PriorTermDeviation(net, m, w[i], v)
  {
    match net.prior
    case LogNormal(_, _) => LogNormalTermVsPrior(net, m, w, i, v);
    case Pareto(_) => ParetoPriorChange(net, m, w, i, v);
    case Gamma(_, _) => GammaTermVsPrior(net, m, w, i, v);
  }

  lemma LogNormalTermVsPrior(net: Network, m: Elementary, w: seq<real>, i: nat, v: real)
    requires net.prior.LogNormal? && net.prior.sigma != 0.0 && i < |w|
    ensures PriorTerm(net, m, w[i], v)
         == LogLikelihoodW(net, m, w[i := v]) - LogLikelihoodW(net, m, w) + PriorTermDeviation(net, m, w[i], v)
  {
    var mu := net.prior.mu;
    LogNormalPriorChange(net, m, w, i, v);
    LogNormalDeviationArithmetic(m.log(w[i]), m.log(v), Square(LogDeviation(m, mu, v)),
                                 Square(LogDeviation(m, mu, w[i])), TwiceVariance(net.prior.sigma));
  }

  lemma GammaTermVsPrior(net: Network, m: Elementary, w: seq<real>, i: nat, v: real)
    requires net.prior.Gamma? && net.prior.scale != 0.0 && i < |w|
    ensures PriorTerm(net, m, w[i], v)
         == LogLikelihoodW(net, m, w[i := v]) - LogLikelihoodW(net, m, w) + PriorTermDeviation(net, m, w[i], v)
  {
    GammaPriorChange(net, m, w, i, v);
    GammaDeviationArithmetic(m.log(w[i]), m.log(v), net.prior.shape - 1.0, (v - w[i]) / net.prior.scale);
  }

  lemma LogNormalDeviationArithmetic(lw: real, lws: real, A: real, B: real, d: real)
    requires d != 0.0
    ensures lw - lws - (A + B) / d == (lw - lws - (A - B) / d) + -2.0 * B / d
  {
  }

  lemma GammaDeviationArithmetic(lw: real, lws: real, k: real, q: real)
    ensures k * (lw - lws) - q == (k * (lws - lw) - q) + 2.0 * k * (lw - lws)
  {
  }

  /** For the Pareto prior the written ratio is exactly the change in the
      joint log density, so the reverse move has the opposite ratio. */
  lemma ParetoRatioAntisymmetric(net: Network, m: Elementary, w: seq<real>, wStar: seq<real>,
                                 theta: seq<real>, i: nat)
    requires net.prior.Pareto?
    requires Fits(net, w) && Fits(net, wStar) && Fits(net, theta) && i < |w|
    ensures LogRatio(net, m, w[i := wStar[i]], wStar[i := w[i]], theta, i)
         == -LogRatio(net, m, w, wStar, theta, i)
  {
    var w', wStar' := w[i := wStar[i]], wStar[i := w[i]];
    LogRatioVsJoint(net, m, w, wStar, theta, i);
    LogRatioVsJoint(net, m, w', wStar', theta, i);
    assert w'[i := wStar'[i]] == w;
  }

  /** The constant `a` of N components is N times that of one. */
  lemma PriorConstantScales(m: Elementary, prior: Prior, N: nat)
    ensures PriorConstant(m, prior, N) == N as real * PriorConstant(m, prior, 1)
  {
    match prior
    case LogNormal(_, sigma) => ScaleHalf(N as real, m.log(2.0 * Pi * Square(sigma)));
    case Pareto(_) =>
    case Gamma(scale, shape) => ScaleGamma(N as real, shape, m.log(scale), m.gammaln(shape));
  }

  lemma ScaleHalf(N: real, x: real)
    ensures -N * x / 2.0 == N * (-(1 as real) * x / 2.0)
  {
  }

  lemma ScaleGamma(N: real, shape: real, ls: real, gs: real)
    ensures -shape * N * ls - N * gs == N * (-shape * (1 as real) * ls - (1 as real) * gs)
  {
  }

  /** `loglikelihood_X` is the log multinomial probability of X under theta:
      log n! minus the sum of log X_i! plus the sum of X_i log theta_i. */
  lemma LogLikelihoodXIsMultinomial(net: Network, m: Elementary, theta: seq<real>)
    requires Consistent(m, net) && Fits(net, theta)
    ensures LogLikelihoodX(net, m, theta)
         == LogFactorial(m, SumNat(net.X)) - Sum(LogFactorials(m, net.X))
            + Sum(seq(|theta|, j requires 0 <= j < |theta| => net.X[j] as real * m.log(theta[j])))
  {
    CountsTimesLog(m, net.X, theta);
  }

  lemma CountsTimesLog(m: Elementary, xs: seq<nat>, theta: seq<real>)
    requires |xs| == |theta|
    ensures SumTimesLog(m, AsReals(xs), theta)
         == Sum(seq(|theta|, j requires 0 <= j < |theta| => xs[j] as real * m.log(theta[j])))
  {
    var l := seq(|theta|, j requires 0 <= j < |theta| => AsReals(xs)[j] * m.log(theta[j]));
    var r := seq(|theta|, j requires 0 <= j < |theta| => xs[j] as real * m.log(theta[j]));
    assert forall j :: 0 <= j < |theta| ==> l[j] == r[j];
    assert l == r;
  }
}
