/** The Gibbs sampling driver of the sampler script: starting from a draw
    of w, each iteration draws theta given w, sweeps w given theta in place,
    and appends to the trace lists; at the end the last (up to) 1000 rows
    of the w trace are reduced to a per-component median and mean. */
module GibbsDriver {
  import opened Numeric
  import opened FitnessNetworks
  import opened MetropolisSweep
  import opened TraceSummary

  /** Every iteration's draws are shaped for the network. */
  predicate AllDrawsFit(net: Network, draws: seq<Draws>)
  {
    forall q :: 0 <= q < |draws| ==> DrawsFit(net, draws[q])
  }

  /** The fitness vector after k iterations of a loop whose iteration q
      takes w to `step(w, draws[q])`. */
  function ChainOf(step: (seq<real>, Draws) -> seq<real>, w0: seq<real>, draws: seq<Draws>, k: nat): seq<real>
    requires k <= |draws|
  {
    if k == 0 then w0 else step(ChainOf(step, w0, draws, k - 1), draws[k - 1])
  }

  /** One iteration of the main loop as a value: the sweep of w with that
      iteration's draws (the guard only keeps the value total). */
  function SweepStep(net: Network, m: Elementary): (seq<real>, Draws) -> seq<real>
  {
    (w: seq<real>, d: Draws) =>
      if NonDegenerate(net.prior) && DrawsFit(net, d) && Fits(net, w) then Sweep(net, m, w, d).w else w
  }

  /** The fitness vector after k iterations of the main loop. */
  function Chain(net: Network, m: Elementary, w0: seq<real>, draws: seq<Draws>, k: nat): (w: seq<real>)
    requires k <= |draws|
    ensures NonDegenerate(net.prior) && AllDrawsFit(net, draws) && Fits(net, w0) ==> Fits(net, w)
  {
    if NonDegenerate(net.prior) && AllDrawsFit(net, draws) && Fits(net, w0) then
      ChainFits(net, m, w0, draws, k);
      ChainOf(SweepStep(net, m), w0, draws, k)
    else
      ChainOf(SweepStep(net, m), w0, draws, k)
  }

  /** Each iteration sweeps the vector the previous one left, and keeps its
      length. */
  lemma ChainStep(net: Network, m: Elementary, w0: seq<real>, draws: seq<Draws>, k: nat)
    requires NonDegenerate(net.prior) && AllDrawsFit(net, draws) && k < |draws|
    requires Fits(net, Chain(net, m, w0, draws, k))
    ensures Chain(net, m, w0, draws, k + 1) == Sweep(net, m, Chain(net, m, w0, draws, k), draws[k]).w
    ensures Fits(net, Chain(net, m, w0, draws, k + 1))
  {
  }

  /** Every vector of the chain fits the network. */
  lemma {:induction false} ChainFits(net: Network, m: Elementary, w0: seq<real>, draws: seq<Draws>, k: nat)
    requires NonDegenerate(net.prior) && AllDrawsFit(net, draws) && Fits(net, w0) && k <= |draws|
    ensures Fits(net, ChainOf(SweepStep(net, m), w0, draws, k))
  {
    if k > 0 {
      ChainFits(net, m, w0, draws, k - 1);
      var w := ChainOf(SweepStep(net, m), w0, draws, k - 1);
      assert ChainOf(SweepStep(net, m), w0, draws, k) == SweepStep(net, m)(w, draws[k - 1]);
    }
  }

  /** The copies of w the first k iterations append to `ws`, in order. */
  function Copies(net: Network, m: Elementary, w0: seq<real>, draws: seq<Draws>, k: nat): (rows: seq<seq<real>>)
    requires k <= |draws|
    ensures |rows| == k
    ensures forall q :: 0 <= q < k ==> rows[q] == Chain(net, m, w0, draws, q + 1)
  {
    if k == 0 then [] else Copies(net, m, w0, draws, k - 1) + [Chain(net, m, w0, draws, k)]
  }

  /** The rows of `np.asarray(ws)` after n iterations: row 0 is the live
      array that the loop kept sweeping, so it holds the final w, and rows
      1..n are the copies taken after each iteration. */
  function Trace(net: Network, m: Elementary, w0: seq<real>, draws: seq<Draws>): (rows: seq<seq<real>>)
  {
    [Chain(net, m, w0, draws, |draws|)] + Copies(net, m, w0, draws, |draws|)
  }

  /** The contents of a list of arrays, row by row. */
  function Contents(ws: seq<array<real>>): seq<seq<real>>
    reads ws
  {
    seq(|ws|, q requires 0 <= q < |ws| reads ws => ws[q][..])
  }

  /** What one iteration appends to the lists when its sweep takes w from
      `before` to `after`: the theta it drew, the fraction the sweep
      accepted, and the three log-likelihood terms of the swept w with their
      total. */
  predicate Recorded(net: Network, m: Elementary, before: seq<real>, after: seq<real>, d: Draws,
                     theta: seq<real>, frac: real, llw: real, llth: real, llX: real, ll: real)
    requires NonDegenerate(net.prior) && Fits(net, before) && before != [] && Fits(net, after) && DrawsFit(net, d)
  {
    && theta == d.theta
    && frac == AcceptedFraction(net, m, before, d)
    && llw == LogLikelihoodW(net, m, after)
    && llth == LogLikelihoodTheta(net, m, theta, after)
    && llX == LogLikelihoodX(net, m, theta)
    && ll == llw + llth + llX
    && ll == LogLikelihood(net, m, theta, after)
  }

  /** `states` lists the vectors a loop with iteration `step` goes through. */
  predicate Steps(step: (seq<real>, Draws) -> seq<real>, states: seq<seq<real>>, draws: seq<Draws>)
  {
    && |states| == |draws| + 1
    && (forall q :: 0 <= q < |draws| ==> states[q + 1] == step(states[q], draws[q]))
  }

  /** The vectors such a loop goes through are those of `ChainOf`. */
  lemma {:induction false} StepsAreChain(step: (seq<real>, Draws) -> seq<real>, states: seq<seq<real>>,
                                         draws: seq<Draws>, k: nat)
    requires Steps(step, states, draws) && k < |states|
    ensures states[k] == ChainOf(step, states[0], draws, k)
  {
    if k > 0 {
      StepsAreChain(step, states, draws, k - 1);
    }
  }

  /** The vectors the main loop goes through are those of `Chain`, and the
      trace rows are the last of them followed by all but the first. */
  lemma StatesAreChain(net: Network, m: Elementary, states: seq<seq<real>>, draws: seq<Draws>)
    requires Steps(SweepStep(net, m), states, draws)
    requires NonDegenerate(net.prior) && AllDrawsFit(net, draws) && Fits(net, states[0])
    ensures forall k :: 0 <= k < |states| ==> states[k] == Chain(net, m, states[0], draws, k)
    ensures Trace(net, m, states[0], draws) == [states[|draws|]] + states[1..]
  {
    forall k | 0 <= k < |states|
      ensures states[k] == Chain(net, m, states[0], draws, k)
    {
      StepsAreChain(SweepStep(net, m), states, draws, k);
    }
  }

  /** Taking one more step extends the list of vectors the loop goes through. */
  lemma StepsExtend(step: (seq<real>, Draws) -> seq<real>, states: seq<seq<real>>, draws: seq<Draws>,
                    it: nat, x: seq<real>)
    requires it < |draws| && Steps(step, states, draws[..it]) && x == step(states[it], draws[it])
    ensures Steps(step, states + [x], draws[..it + 1])
  {
    assert draws[..it + 1][..it] == draws[..it];
  }

  /** One pass of the loop body: sweep w in place, copy it, and compute the
      log-likelihood entries of the swept w. */
  method Iteration(net: Network, m: Elementary, w: array<real>, d: Draws)
    returns (frac: real, copy: array<real>, llw: real, llth: real, llX: real, ll: real)
    requires NonDegenerate(net.prior) && Fits(net, w[..]) && w.Length > 0 && DrawsFit(net, d)
    modifies w
    ensures w[..] == Sweep(net, m, old(w[..]), d).w && Fits(net, w[..])
    ensures w[..] == SweepStep(net, m)(old(w[..]), d)
    ensures fresh(copy) && copy[..] == w[..]
    ensures Recorded(net, m, old(w[..]), w[..], d, d.theta, frac, llw, llth, llX, ll)
  {
    frac := SampleWGivenTheta(net, m, w, d);
    copy := new real[w.Length](j requires 0 <= j < w.Length reads w => w[j]);
    llw := LogLikelihoodW(net, m, w[..]);
    llth := LogLikelihoodTheta(net, m, d.theta, w[..]);
    llX := LogLikelihoodX(net, m, d.theta);
    ll := llw + llth + llX;
  }

  /** Entries recorded for the iterations before `it` and for iteration
      `it` itself: the lists with one more entry each. */
  predicate RecordedUpTo(net: Network, m: Elementary, states: seq<seq<real>>, draws: seq<Draws>, it: nat,
                         thetas: seq<seq<real>>, fracAccepted: seq<real>,
                         llws: seq<real>, llths: seq<real>, llXs: seq<real>, lls: seq<real>)
    requires it < |states| && it <= |draws| && |thetas| == |fracAccepted| == |llws| == |llths| == |llXs| == |lls| == it
    requires forall q :: 0 <= q < |states| ==> Fits(net, states[q]) && states[q] != []
    requires NonDegenerate(net.prior) && AllDrawsFit(net, draws)
  {
    forall k :: 0 <= k < it ==>
      Recorded(net, m, states[k], states[k + 1], draws[k],
               thetas[k], fracAccepted[k], llws[k], llths[k], llXs[k], lls[k])
  }

  /** Appending the entries of one more iteration. */
  lemma RecordedExtend(net: Network, m: Elementary, states: seq<seq<real>>, draws: seq<Draws>, it: nat,
                       thetas: seq<seq<real>>, fracAccepted: seq<real>,
                       llws: seq<real>, llths: seq<real>, llXs: seq<real>, lls: seq<real>,
                       theta: seq<real>, frac: real, llw: real, llth: real, llX: real, ll: real)
    requires it + 1 < |states| && it < |draws| && |thetas| == |fracAccepted| == |llws| == |llths| == |llXs| == |lls| == it
    requires forall q :: 0 <= q < |states| ==> Fits(net, states[q]) && states[q] != []
    requires NonDegenerate(net.prior) && AllDrawsFit(net, draws)
    requires RecordedUpTo(net, m, states[..it + 1], draws, it, thetas, fracAccepted, llws, llths, llXs, lls)
    requires Recorded(net, m, states[it], states[it + 1], draws[it], theta, frac, llw, llth, llX, ll)
    ensures RecordedUpTo(net, m, states, draws, it + 1, thetas + [theta], fracAccepted + [frac],
                         llws + [llw], llths + [llth], llXs + [llX], lls + [ll])
  {
    var thetas', fracAccepted' := thetas + [theta], fracAccepted + [frac];
    var llws', llths', llXs', lls' := llws + [llw], llths + [llth], llXs + [llX], lls + [ll];
    forall k | 0 <= k < it + 1
      ensures Recorded(net, m, states[k], states[k + 1], draws[k],
                       thetas'[k], fracAccepted'[k], llws'[k], llths'[k], llXs'[k], lls'[k])
    {
      if k < it {
        assert states[..it + 1][k] == states[k] && states[..it + 1][k + 1] == states[k + 1];
        assert thetas'[k] == thetas[k] && fracAccepted'[k] == fracAccepted[k];
        assert llws'[k] == llws[k] && llths'[k] == llths[k] && llXs'[k] == llXs[k] && lls'[k] == lls[k];
      }
    }
  }

  /** The main loop: w is swept in place once per iteration, with the
      variates of that iteration taken from `draws`; `ws` starts as `[w]`
      (the array itself, not a copy) and gets a fresh copy of w after each
      sweep; the other lists get one entry per iteration. The loop is
      specified by the vectors `states` it takes w through. */
  method SweepLoop(net: Network, m: Elementary, w: array<real>, draws: seq<Draws>)
    returns (ws: seq<array<real>>, thetas: seq<seq<real>>, fracAccepted: seq<real>,
             llws: seq<real>, llths: seq<real>, llXs: seq<real>, lls: seq<real>, ghost states: seq<seq<real>>)
    requires NonDegenerate(net.prior) && Fits(net, w[..]) && w.Length > 0 && AllDrawsFit(net, draws)
    modifies w
    ensures Steps(SweepStep(net, m), states, draws) && states[0] == old(w[..]) && w[..] == states[|draws|]
    ensures forall q :: 0 <= q < |states| ==> Fits(net, states[q])
    ensures |ws| == |states| && ws[0] == w
    ensures forall q :: 1 <= q < |ws| ==> fresh(ws[q]) && ws[q][..] == states[q]
    ensures |thetas| == |fracAccepted| == |llws| == |llths| == |llXs| == |lls| == |draws|
    ensures forall k :: 0 <= k < |draws| ==>
      Recorded(net, m, states[k], states[k + 1], draws[k],
               thetas[k], fracAccepted[k], llws[k], llths[k], llXs[k], lls[k])
  {
    states := [w[..]];
    ws := [w];
    thetas, fracAccepted, llws, llths, llXs, lls := [], [], [], [], [], [];
    for it := 0 to |draws|
      invariant |states| == |ws| == it + 1 && ws[0] == w && w[..] == states[it] && states[0] == old(w[..])
      invariant Steps(SweepStep(net, m), states, draws[..it])
      invariant forall q :: 0 <= q < |states| ==> Fits(net, states[q]) && states[q] != []
      invariant forall q :: 1 <= q < |ws| ==> fresh(ws[q]) && ws[q][..] == states[q]
      invariant |thetas| == |fracAccepted| == |llws| == |llths| == |llXs| == |lls| == it
      invariant RecordedUpTo(net, m, states, draws, it, thetas, fracAccepted, llws, llths, llXs, lls)
    {
      ghost var before := ws;
      label L:
      var frac, copy, llw, llth, llX, ll := Iteration(net, m, w, draws[it]);
      states := states + [w[..]];
      assert states[..it + 1] + [w[..]] == states;
      ws := ws + [copy];
      forall q | 1 <= q < |ws|
        ensures ws[q][..] == states[q]
      {
        if q < |before| {
          assert ws[q] == before[q];
          assert old@L(before[q][..]) == states[q];
        }
      }
      StepsExtend(SweepStep(net, m), states[..it + 1], draws, it, w[..]);
      RecordedExtend(net, m, states, draws, it, thetas, fracAccepted, llws, llths, llXs, lls,
                     draws[it].theta, frac, llw, llth, llX, ll);
      thetas, fracAccepted := thetas + [draws[it].theta], fracAccepted + [frac];
      llws, llths, llXs, lls := llws + [llw], llths + [llth], llXs + [llX], lls + [ll];
    }
    assert draws[..|draws|] == draws;
  }

  /** The main loop, read against the chain: w ends as the chain's last
      vector, the rows of `ws` are the trace, and iteration k recorded the
      entries of the sweep from the chain's vector k to vector k + 1. */
  method RunChain(net: Network, m: Elementary, w: array<real>, draws: seq<Draws>)
    returns (ws: seq<array<real>>, thetas: seq<seq<real>>, fracAccepted: seq<real>,
             llws: seq<real>, llths: seq<real>, llXs: seq<real>, lls: seq<real>)
    requires NonDegenerate(net.prior) && Fits(net, w[..]) && w.Length > 0 && AllDrawsFit(net, draws)
    modifies w
    ensures |ws| == |draws| + 1 && ws[0] == w
    ensures forall q :: 1 <= q < |ws| ==> fresh(ws[q])
    ensures Contents(ws) == Trace(net, m, old(w[..]), draws)
    ensures w[..] == Chain(net, m, old(w[..]), draws, |draws|)
    ensures |thetas| == |fracAccepted| == |llws| == |llths| == |llXs| == |lls| == |draws|
    ensures forall k :: 0 <= k < |draws| ==>
      Recorded(net, m, Chain(net, m, old(w[..]), draws, k), Chain(net, m, old(w[..]), draws, k + 1), draws[k],
               thetas[k], fracAccepted[k], llws[k], llths[k], llXs[k], lls[k])
  {
    ghost var states;
    ws, thetas, fracAccepted, llws, llths, llXs, lls, states := SweepLoop(net, m, w, draws);
    TraceOfStates(net, m, states, draws, Contents(ws));
    RecordsAlongChain(net, m, states, draws, thetas, fracAccepted, llws, llths, llXs, lls);
    StatesAreChain(net, m, states, draws);
  }

  /** Rows that hold the last vector the loop went through followed by all
      of them but the first are the trace. */
  lemma TraceOfStates(net: Network, m: Elementary, states: seq<seq<real>>, draws: seq<Draws>, rows: seq<seq<real>>)
    requires Steps(SweepStep(net, m), states, draws)
    requires NonDegenerate(net.prior) && AllDrawsFit(net, draws) && Fits(net, states[0])
    requires |rows| == |states| && rows[0] == states[|draws|]
    requires forall q :: 1 <= q < |rows| ==> rows[q] == states[q]
    ensures rows == Trace(net, m, states[0], draws)
  {
    StatesAreChain(net, m, states, draws);
    assert rows == [states[|draws|]] + states[1..];
  }

  /** Entries recorded along the vectors the loop went through are recorded
      along the chain. */
  lemma RecordsAlongChain(net: Network, m: Elementary, states: seq<seq<real>>, draws: seq<Draws>,
                          thetas: seq<seq<real>>, fracAccepted: seq<real>,
                          llws: seq<real>, llths: seq<real>, llXs: seq<real>, lls: seq<real>)
    requires Steps(SweepStep(net, m), states, draws)
    requires NonDegenerate(net.prior) && AllDrawsFit(net, draws) && Fits(net, states[0]) && states[0] != []
    requires forall q :: 0 <= q < |states| ==> Fits(net, states[q])
    requires |thetas| == |fracAccepted| == |llws| == |llths| == |llXs| == |lls| == |draws|
    requires forall k :: 0 <= k < |draws| ==>
      Recorded(net, m, states[k], states[k + 1], draws[k],
               thetas[k], fracAccepted[k], llws[k], llths[k], llXs[k], lls[k])
    ensures forall k :: 0 <= k < |draws| ==>
      Recorded(net, m, Chain(net, m, states[0], draws, k), Chain(net, m, states[0], draws, k + 1), draws[k],
               thetas[k], fracAccepted[k], llws[k], llths[k], llXs[k], lls[k])
  {
    StatesAreChain(net, m, states, draws);
  }

  /** Started from a positive w, every vector of the chain is positive. */
  lemma {:induction false} ChainKeepsPositive(net: Network, m: Elementary, w0: seq<real>, draws: seq<Draws>, k: nat)
    requires ExpPositive(m) && NonDegenerate(net.prior) && AllDrawsFit(net, draws) && Fits(net, w0)
    requires forall j :: 0 <= j < |w0| ==> w0[j] > 0.0
    requires k <= |draws|
    ensures forall j :: 0 <= j < |w0| ==> Chain(net, m, w0, draws, k)[j] > 0.0
  {
    if k > 0 {
      ChainKeepsPositive(net, m, w0, draws, k - 1);
      var w := Chain(net, m, w0, draws, k - 1);
      ChainStep(net, m, w0, draws, k - 1);
      SweepKeepsPositive(net, m, w, draws[k - 1]);
    }
  }

  /** Row q of the trace: the vector after q iterations for q >= 1, and
      the final vector for row 0. */
  lemma TraceRow(net: Network, m: Elementary, w0: seq<real>, draws: seq<Draws>, q: nat)
    requires q <= |draws|
    ensures |Trace(net, m, w0, draws)| == |draws| + 1
    ensures Trace(net, m, w0, draws)[q] == Chain(net, m, w0, draws, if q == 0 then |draws| else q)
  {
    if q > 0 {
      assert Trace(net, m, w0, draws)[q] == Copies(net, m, w0, draws, |draws|)[q - 1];
    }
  }

  /** The trace has one row per iteration plus the first, each as long as
      w; row k >= 1 is the vector after k iterations, and row 0, being the
      live array, equals the last row. */
  lemma TraceRows(net: Network, m: Elementary, w0: seq<real>, draws: seq<Draws>)
    requires NonDegenerate(net.prior) && Fits(net, w0) && AllDrawsFit(net, draws)
    ensures var rows := Trace(net, m, w0, draws);
      && |rows| == |draws| + 1
      && Rectangular(rows, |w0|)
      && rows[0] == rows[|draws|]
      && forall k :: 1 <= k <= |draws| ==> rows[k] == Chain(net, m, w0, draws, k)
  {
    var rows := Trace(net, m, w0, draws);
    TraceRow(net, m, w0, draws, 0);
    TraceRow(net, m, w0, draws, |draws|);
    forall k | 0 <= k < |rows|
      ensures |rows[k]| == |w0|
      ensures k >= 1 ==> rows[k] == Chain(net, m, w0, draws, k)
    {
      TraceRow(net, m, w0, draws, k);
      assert Fits(net, Chain(net, m, w0, draws, if k == 0 then |draws| else k));
    }
  }

  /** The summary window of the trace: with at least 1000 iterations it is
      the vectors after the last 1000 iterations, and row 0 is not in it;
      with fewer it is the whole trace, whose first and last rows are both
      the final w. */
  lemma TraceWindow(net: Network, m: Elementary, w0: seq<real>, draws: seq<Draws>)
    ensures var window := Window(Trace(net, m, w0, draws));
      && (|draws| >= WindowSize ==>
            |window| == WindowSize
            && forall k :: 0 <= k < WindowSize ==>
                 window[k] == Chain(net, m, w0, draws, |draws| - WindowSize + 1 + k))
      && (|draws| < WindowSize ==>
            |window| == |draws| + 1
            && window[0] == window[|draws|] == Chain(net, m, w0, draws, |draws|))
  {
    var window := Window(Trace(net, m, w0, draws));
    TraceRow(net, m, w0, draws, 0);
    TraceRow(net, m, w0, draws, |draws|);
    if |draws| >= WindowSize {
      forall k | 0 <= k < WindowSize
        ensures window[k] == Chain(net, m, w0, draws, |draws| - WindowSize + 1 + k)
      {
        TraceRow(net, m, w0, draws, |draws| - WindowSize + 1 + k);
      }
    }
  }

  /** Started from a positive w, every entry of the trace is positive. */
  lemma TraceRowPositive(net: Network, m: Elementary, w0: seq<real>, draws: seq<Draws>, q: nat, j: nat)
    requires ExpPositive(m) && NonDegenerate(net.prior) && Fits(net, w0) && AllDrawsFit(net, draws)
    requires forall i :: 0 <= i < |w0| ==> w0[i] > 0.0
    requires q <= |draws| && j < |w0|
    ensures Trace(net, m, w0, draws)[q][j] > 0.0
  {
    var it := if q == 0 then |draws| else q;
    TraceRow(net, m, w0, draws, q);
    ChainKeepsPositive(net, m, w0, draws, it);
  }

  /** Started from a positive w, every column of the summary has a
      positive median and a positive mean. */
  lemma TraceSummaryPositive(net: Network, m: Elementary, w0: seq<real>, draws: seq<Draws>, j: nat)
    requires ExpPositive(m) && NonDegenerate(net.prior) && Fits(net, w0) && AllDrawsFit(net, draws)
    requires forall i :: 0 <= i < |w0| ==> w0[i] > 0.0
    requires j < |w0|
    ensures var rows := Trace(net, m, w0, draws);
      Rectangular(rows, |w0|)
      && Summary(rows, |w0|).0[j] > 0.0 && Summary(rows, |w0|).1[j] > 0.0
  {
    var rows := Trace(net, m, w0, draws);
    TraceRows(net, m, w0, draws);
    forall q | 0 <= q < |rows|
      ensures rows[q][j] > 0.0
    {
      TraceRowPositive(net, m, w0, draws, q, j);
    }
    WindowPositive(rows, j);
    SummaryPositive(rows, |w0|, j);
  }
}
