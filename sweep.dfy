/** One call of `sample_w_given_theta`: a single-site Metropolis-Hastings
    sweep over the fitness vector w, given theta.  All the randomness is
    drawn before the loop (the log-normal step sizes `r`, the log uniform
    variates `accept`, the visiting permutation), so here it is an input,
    and the sweep is a deterministic in-place update of the array w. */
module MetropolisSweep {
  import opened Numeric
  import opened FitnessNetworks

  /** The variates one sweep consumes: theta from `sample_theta_given_w`,
      `r = normal(0, 0.1, N)`, `accept = log(rand(N))`, and
      `permutation(N)`. */
  datatype Draws = Draws(theta: seq<real>, r: seq<real>, logu: seq<real>, order: seq<nat>)

  /** `order` lists every index below N exactly once. */
  predicate IsPermutation(order: seq<nat>, N: nat)
  {
    && |order| == N
    && (forall p :: 0 <= p < |order| ==> order[p] < N)
    && (forall p, q :: 0 <= p < q < |order| ==> order[p] != order[q])
    && (forall i :: 0 <= i < N ==> i in order)
  }

  /** The draws are shaped for the network. */
  predicate DrawsFit(net: Network, d: Draws)
  {
    Fits(net, d.theta) && Fits(net, d.r) && Fits(net, d.logu) && IsPermutation(d.order, |net.X|)
  }

  /** `w_star = w * exp(r)`, taken from w before the sweep starts. */
  function Proposal(m: Elementary, w0: seq<real>, r: seq<real>): (wStar: seq<real>)
    requires |r| == |w0|
    ensures |wStar| == |w0|
  {
    seq(|w0|, j requires 0 <= j < |w0| => w0[j] * m.exp(r[j]))
  }

  /** A positive vector has positive proposals. */
  lemma ProposalPositive(m: Elementary, w0: seq<real>, r: seq<real>)
    requires ExpPositive(m) && |r| == |w0|
    requires forall j :: 0 <= j < |w0| ==> w0[j] > 0.0
    ensures forall j :: 0 <= j < |w0| ==> Proposal(m, w0, r)[j] > 0.0
  {
    forall j | 0 <= j < |w0|
      ensures Proposal(m, w0, r)[j] > 0.0
    {
      var e := m.exp(r[j]);
      ExpPositiveAt(m, r[j]);
      calc { w0[j] * e; > 0.0 * e; == 0.0; }
    }
  }

  /** The Metropolis test `accept[i] < log_ratio + r[i]` for component i,
      with the ratio computed from the current w; `r[i]` is the Jacobian of
      the log-normal step. */
  predicate Accepts(net: Network, m: Elementary, w: seq<real>, wStar: seq<real>, d: Draws, i: nat)
    requires NonDegenerate(net.prior) && DrawsFit(net, d)
    requires Fits(net, w) && Fits(net, wStar) && i < |w|
  {
    d.logu[i] < LogRatio(net, m, w, wStar, d.theta, i) + d.r[i]
  }

  /** The loop state: the current w and `num_accepted`. */
  datatype SweepState = SweepState(w: seq<real>, accepted: nat)

  /** The visiting order lists indices of w. */
  predicate Indexes(order: seq<nat>, n: nat)
  {
    forall p :: 0 <= p < |order| ==> order[p] < n
  }

  /** The state after the loop has visited the first k entries of `order`,
      starting from w0: at each visited index i, when `test(w, i)` holds for
      the current w, w[i] becomes `wStar[i]` and the counter goes up.  The
      test is a parameter so that the bookkeeping below does not depend on
      how the ratio is computed. */
  function Swept(test: (seq<real>, nat) -> bool, w0: seq<real>, wStar: seq<real>,
                 order: seq<nat>, k: nat): (s: SweepState)
    requires |wStar| == |w0| && Indexes(order, |w0|) && k <= |order|
    ensures |s.w| == |w0| && s.accepted <= k
  {
    if k == 0 then SweepState(w0, 0)
    else
      var s := Swept(test, w0, wStar, order, k - 1);
      var i := order[k - 1];
      if test(s.w, i) then SweepState(s.w[i := wStar[i]], s.accepted + 1) else s
  }

  /** Each entry of w is either its starting value or its proposal. */
  lemma {:induction false} SweptCandidates(test: (seq<real>, nat) -> bool, w0: seq<real>, wStar: seq<real>,
                                           order: seq<nat>, k: nat, j: nat)
    requires |wStar| == |w0| && Indexes(order, |w0|) && k <= |order| && j < |w0|
    ensures Swept(test, w0, wStar, order, k).w[j] in {w0[j], wStar[j]}
  {
    if k > 0 {
      SweptCandidates(test, w0, wStar, order, k - 1, j);
    }
  }

  /** Visits at positions k..l-1 that skip index j leave w[j] as it was. */
  lemma {:induction false} SweptKeeps(test: (seq<real>, nat) -> bool, w0: seq<real>, wStar: seq<real>,
                                      order: seq<nat>, k: nat, l: nat, j: nat)
    requires |wStar| == |w0| && Indexes(order, |w0|) && k <= l <= |order| && j < |w0|
    requires forall p :: k <= p < l ==> order[p] != j
    ensures Swept(test, w0, wStar, order, l).w[j] == Swept(test, w0, wStar, order, k).w[j]
    decreases l
  {
    if k < l {
      SweptKeeps(test, w0, wStar, order, k, l - 1, j);
    }
  }

  /** The visit at position k sets its index to `wStar` or leaves it. */
  lemma SweptStep(test: (seq<real>, nat) -> bool, w0: seq<real>, wStar: seq<real>, order: seq<nat>, k: nat)
    requires |wStar| == |w0| && Indexes(order, |w0|) && k < |order|
    ensures Swept(test, w0, wStar, order, k + 1).w[order[k]]
         == if PassesAt(test, w0, wStar, order, k) then wStar[order[k]]
            else Swept(test, w0, wStar, order, k).w[order[k]]
  {
  }

  /** The index visited at position k ends at `wStar` when the test passes
      there and at its starting value otherwise, provided no other position
      visits it. */
  lemma SweptOutcome(test: (seq<real>, nat) -> bool, w0: seq<real>, wStar: seq<real>, order: seq<nat>, k: nat)
    requires |wStar| == |w0| && Indexes(order, |w0|) && k < |order|
    requires forall p :: 0 <= p < |order| && p != k ==> order[p] != order[k]
    ensures Swept(test, w0, wStar, order, |order|).w[order[k]]
         == if PassesAt(test, w0, wStar, order, k) then wStar[order[k]] else w0[order[k]]
  {
    var i := order[k];
    SweptKeeps(test, w0, wStar, order, 0, k, i);
    SweptStep(test, w0, wStar, order, k);
    SweptKeeps(test, w0, wStar, order, k + 1, |order|, i);
  }

  /** The test as the loop meets it at position k. */
  predicate PassesAt(test: (seq<real>, nat) -> bool, w0: seq<real>, wStar: seq<real>, order: seq<nat>, k: nat)
    requires |wStar| == |w0| && Indexes(order, |w0|) && k < |order|
  {
    test(Swept(test, w0, wStar, order, k).w, order[k])
  }

  /** The positions whose test passed among the first k visits. */
  function PassedPositions(test: (seq<real>, nat) -> bool, w0: seq<real>, wStar: seq<real>,
                           order: seq<nat>, k: nat): set<nat>
    requires |wStar| == |w0| && Indexes(order, |w0|) && k <= |order|
  {
    set p: nat | p < k && PassesAt(test, w0, wStar, order, p)
  }

  /** The counter counts the visits whose test passed. */
  lemma {:induction false} SweptCount(test: (seq<real>, nat) -> bool, w0: seq<real>, wStar: seq<real>,
                                      order: seq<nat>, k: nat)
    requires |wStar| == |w0| && Indexes(order, |w0|) && k <= |order|
    ensures Swept(test, w0, wStar, order, k).accepted == |PassedPositions(test, w0, wStar, order, k)|
  {
    if k > 0 {
      SweptCount(test, w0, wStar, order, k - 1);
      var before := PassedPositions(test, w0, wStar, order, k - 1);
      if PassesAt(test, w0, wStar, order, k - 1) {
        assert PassedPositions(test, w0, wStar, order, k) == before + {k - 1};
      } else {
        assert PassedPositions(test, w0, wStar, order, k) == before;
      }
    }
  }

  /** The network's acceptance test for the proposals wStar, as a value. */
  function Test(net: Network, m: Elementary, wStar: seq<real>, d: Draws): (seq<real>, nat) -> bool
    requires NonDegenerate(net.prior) && DrawsFit(net, d) && Fits(net, wStar)
  {
    (w: seq<real>, i: nat) => Fits(net, w) && i < |w| && Accepts(net, m, w, wStar, d, i)
  }

  /** The state after the first k visits of `sample_w_given_theta`. */
  function SweptBy(net: Network, m: Elementary, w0: seq<real>, d: Draws, k: nat): (s: SweepState)
    requires NonDegenerate(net.prior) && DrawsFit(net, d) && Fits(net, w0) && k <= |w0|
  {
    var wStar := Proposal(m, w0, d.r);
    Swept(Test(net, m, wStar, d), w0, wStar, d.order, k)
  }

  /** The whole sweep. */
  function Sweep(net: Network, m: Elementary, w0: seq<real>, d: Draws): SweepState
    requires NonDegenerate(net.prior) && DrawsFit(net, d) && Fits(net, w0)
  {
    SweptBy(net, m, w0, d, |w0|)
  }

  /** The value `sample_w_given_theta` returns. */
  function AcceptedFraction(net: Network, m: Elementary, w0: seq<real>, d: Draws): real
    requires NonDegenerate(net.prior) && DrawsFit(net, d) && Fits(net, w0) && |w0| > 0
  {
    Sweep(net, m, w0, d).accepted as real / |w0| as real
  }

  /** Whether the test passes at the k-th visit, with the ratio computed
      from w as the loop has left it after k visits. */
  predicate AcceptedAt(net: Network, m: Elementary, w0: seq<real>, d: Draws, k: nat)
    requires NonDegenerate(net.prior) && DrawsFit(net, d) && Fits(net, w0) && k < |w0|
  {
    Accepts(net, m, SweptBy(net, m, w0, d, k).w, Proposal(m, w0, d.r), d, d.order[k])
  }

  /** `sample_w_given_theta(w, theta)`: changes w in place and returns the
      fraction of accepted moves. */
  method SampleWGivenTheta(net: Network, m: Elementary, w: array<real>, d: Draws) returns (frac: real)
    requires NonDegenerate(net.prior) && DrawsFit(net, d) && Fits(net, w[..]) && w.Length > 0
    modifies w
    ensures w[..] == Sweep(net, m, old(w[..]), d).w
    ensures frac == AcceptedFraction(net, m, old(w[..]), d)
  {
    var n := w.Length;
    var w0 := w[..];
    var wStar := Proposal(m, w0, d.r);
    ghost var test := Test(net, m, wStar, d);
    var numAccepted := 0;
    for k := 0 to n
      invariant w[..] == Swept(test, w0, wStar, d.order, k).w
      invariant numAccepted == Swept(test, w0, wStar, d.order, k).accepted
    {
      var i := d.order[k];
      var logRatio := LogRatio(net, m, w[..], wStar, d.theta, i);
      assert test(w[..], i) <==> d.logu[i] < logRatio + d.r[i];
      if d.logu[i] < logRatio + d.r[i] {
        w[i] := wStar[i];
        numAccepted := numAccepted + 1;
      }
    }
    frac := numAccepted as real / n as real;
  }

  /** Midway through the sweep, w is partly updated: an index visited at a
      position before k already holds its final value, one visited at k or
      later still holds its pre-sweep value.  So the ratios of later visits
      see the earlier acceptances. */
  lemma SweptPartial(net: Network, m: Elementary, w0: seq<real>, d: Draws, k: nat, p: nat)
    requires NonDegenerate(net.prior) && DrawsFit(net, d) && Fits(net, w0)
    requires k <= |w0| && p < |w0|
    ensures p < k ==> SweptBy(net, m, w0, d, k).w[d.order[p]] == Sweep(net, m, w0, d).w[d.order[p]]
    ensures k <= p ==> SweptBy(net, m, w0, d, k).w[d.order[p]] == w0[d.order[p]]
  {
    var wStar := Proposal(m, w0, d.r);
    var test := Test(net, m, wStar, d);
    if p < k {
      SweptKeeps(test, w0, wStar, d.order, k, |w0|, d.order[p]);
    } else {
      SweptKeeps(test, w0, wStar, d.order, 0, k, d.order[p]);
    }
  }

  /** The component visited at position k ends the sweep at its proposal
      when the test passes at that visit, and at its pre-sweep value when it
      fails. */
  lemma SweepOutcome(net: Network, m: Elementary, w0: seq<real>, d: Draws, k: nat)
    requires NonDegenerate(net.prior) && DrawsFit(net, d) && Fits(net, w0) && k < |w0|
    ensures Sweep(net, m, w0, d).w[d.order[k]]
         == if AcceptedAt(net, m, w0, d, k) then Proposal(m, w0, d.r)[d.order[k]] else w0[d.order[k]]
  {
    var wStar := Proposal(m, w0, d.r);
    SweptOutcome(Test(net, m, wStar, d), w0, wStar, d.order, k);
  }

  /** Every component is visited at some position, so every component's
      final value is decided by its own test. */
  lemma EveryComponentDecided(net: Network, m: Elementary, w0: seq<real>, d: Draws, i: nat)
    requires NonDegenerate(net.prior) && DrawsFit(net, d) && Fits(net, w0) && i < |w0|
    ensures exists k :: 0 <= k < |w0| && d.order[k] == i &&
              Sweep(net, m, w0, d).w[i]
              == if AcceptedAt(net, m, w0, d, k) then Proposal(m, w0, d.r)[i] else w0[i]
  {
    assert i in d.order;
    var k :| 0 <= k < |d.order| && d.order[k] == i;
    SweepOutcome(net, m, w0, d, k);
  }

  /** `num_accepted` counts the visits whose test passed. */
  lemma AcceptedCount(net: Network, m: Elementary, w0: seq<real>, d: Draws)
    requires NonDegenerate(net.prior) && DrawsFit(net, d) && Fits(net, w0)
    ensures Sweep(net, m, w0, d).accepted
         == |set p: nat | p < |w0| && AcceptedAt(net, m, w0, d, p)|
  {
    var wStar := Proposal(m, w0, d.r);
    var test := Test(net, m, wStar, d);
    SweptCount(test, w0, wStar, d.order, |w0|);
    assert PassedPositions(test, w0, wStar, d.order, |w0|)
        == set p: nat | p < |w0| && AcceptedAt(net, m, w0, d, p);
  }

  /** A count over a nonempty range, as a fraction of the range, lies in [0, 1]. */
  lemma FractionBounds(a: nat, n: nat)
    requires a <= n && n > 0
    ensures 0.0 <= a as real / n as real <= 1.0
  {
    var x, y := a as real, n as real;
    var q := x / y;
    assert q * y == x;
    if q > 1.0 {
      calc { x; == q * y; > 1.0 * y; == y; }
    }
    if q < 0.0 {
      calc { x; == q * y; < 0.0 * y; == 0.0; }
    }
  }

  /** The returned fraction lies in [0, 1]. */
  lemma AcceptedFractionBounds(net: Network, m: Elementary, w0: seq<real>, d: Draws)
    requires NonDegenerate(net.prior) && DrawsFit(net, d) && Fits(net, w0) && |w0| > 0
    ensures 0.0 <= AcceptedFraction(net, m, w0, d) <= 1.0
  {
    FractionBounds(Sweep(net, m, w0, d).accepted, |w0|);
  }

  /** Started from a positive w, the sweep leaves w positive. */
  lemma SweepKeepsPositive(net: Network, m: Elementary, w0: seq<real>, d: Draws)
    requires ExpPositive(m) && NonDegenerate(net.prior) && DrawsFit(net, d) && Fits(net, w0)
    requires forall j :: 0 <= j < |w0| ==> w0[j] > 0.0
    ensures forall j :: 0 <= j < |w0| ==> Sweep(net, m, w0, d).w[j] > 0.0
  {
    var wStar := Proposal(m, w0, d.r);
    ProposalPositive(m, w0, d.r);
    forall j | 0 <= j < |w0|
      ensures Sweep(net, m, w0, d).w[j] > 0.0
    {
      SweptCandidates(Test(net, m, wStar, d), w0, wStar, d.order, |w0|, j);
    }
  }

  /** The test, read against the joint log density: a visit accepts exactly
      when the log uniform variate is below the change in `loglikelihood`
      caused by the move, plus the family's `PriorTermDeviation`, plus the
      Jacobian `r[i]`. */
  lemma AcceptsVsJoint(net: Network, m: Elementary, w: seq<real>, wStar: seq<real>, d: Draws, i: nat)
    requires NonDegenerate(net.prior) && DrawsFit(net, d)
    requires Fits(net, w) && Fits(net, wStar) && i < |w|
    ensures Accepts(net, m, w, wStar, d, i)
        <==> d.logu[i] < LogLikelihood(net, m, d.theta, w[i := wStar[i]]) - LogLikelihood(net, m, d.theta, w)
                         + PriorTermDeviation(net, m, w[i], wStar[i]) + d.r[i]
  {
    LogRatioVsJoint(net, m, w, wStar, d.theta, i);
  }
}
