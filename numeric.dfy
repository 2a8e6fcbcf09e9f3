/** Numeric primitives the sampler is written with: sums over vectors,
    element-wise maps, numpy's `arange`, and `logfactorial`.
    The transcendental functions (log, exp, gammaln) are not defined here:
    they are carried as an `Elementary` record of arbitrary real functions,
    so every result below holds whatever those functions are. */
module Numeric {

  /** The elementary functions the sampler calls, as opaque real functions. */
  datatype Elementary = Elementary(log: real -> real, exp: real -> real, gammaln: real -> real)

  /** The one fact about them that the model ever relies on. */
  ghost predicate ExpPositive(m: Elementary)
  {
    forall x: real :: m.exp(x) > 0.0
  }

  lemma ExpPositiveAt(m: Elementary, x: real)
    requires ExpPositive(m)
    ensures m.exp(x) > 0.0
  {
  }

  /** numpy's `pi`. */
  const Pi: real := 3.141592653589793

  /** `x ** 2` */
  function Square(x: real): real
  {
    x * x
  }

  /** The square of a nonzero number is positive. */
  lemma SquarePositiveIfNonzero(x: real)
    ensures x != 0.0 ==> Square(x) > 0.0
  {
    if x > 0.0 {
      calc { Square(x); == x * x; > 0.0 * x; == 0.0; }
    } else if x < 0.0 {
      calc { Square(x); == (-x) * (-x); > 0.0 * (-x); == 0.0; }
    }
  }

  /** `sum` of a float vector. */
  function Sum(s: seq<real>): real
  {
    if |s| == 0 then 0.0 else s[0] + Sum(s[1..])
  }

  /** `sum` of an integer vector. */
  function SumNat(s: seq<nat>): nat
  {
    if |s| == 0 then 0 else s[0] + SumNat(s[1..])
  }

  /** Element-wise application of `f`, as numpy applies a ufunc. */
  function Map(f: real -> real, s: seq<real>): (r: seq<real>)
    ensures |r| == |s|
    ensures forall j :: 0 <= j < |s| ==> r[j] == f(s[j])
  {
    seq(|s|, j requires 0 <= j < |s| => f(s[j]))
  }

  /** `np.arange(lo, hi)`, as reals. */
  function Arange(lo: int, hi: int): (r: seq<real>)
    ensures |r| == if lo < hi then hi - lo else 0
    decreases hi - lo
  {
    if lo >= hi then [] else [lo as real] + Arange(lo + 1, hi)
  }

  /** `logfactorial = lambda n: sum(log(np.arange(1, n + 1)))`. */
  function LogFactorial(m: Elementary, n: int): real
  {
    Sum(Map(m.log, Arange(1, n + 1)))
  }

  /** `[logfactorial(x) for x in X]`. */
  function LogFactorials(m: Elementary, xs: seq<nat>): seq<real>
  {
    seq(|xs|, j requires 0 <= j < |xs| => LogFactorial(m, xs[j]))
  }

  lemma {:induction false} SumAppend(s: seq<real>, x: real)
    ensures Sum(s + [x]) == Sum(s) + x
  {
    if |s| > 0 {
      assert (s + [x])[1..] == s[1..] + [x];
      SumAppend(s[1..], x);
    }
  }

  lemma {:induction false} SumConcat(s: seq<real>, t: seq<real>)
    ensures Sum(s + t) == Sum(s) + Sum(t)
  {
    if |s| > 0 {
      assert (s + t)[1..] == s[1..] + t;
      SumConcat(s[1..], t);
    } else {
      assert s + t == t;
    }
  }

  /** Replacing one entry changes the sum by exactly the difference. */
  lemma {:induction false} SumUpdate(s: seq<real>, i: nat, v: real)
    requires i < |s|
    ensures Sum(s[i := v]) == Sum(s) - s[i] + v
  {
    if i > 0 {
      assert s[i := v][1..] == s[1..][i - 1 := v];
      SumUpdate(s[1..], i - 1, v);
    } else {
      assert s[i := v][1..] == s[1..];
    }
  }

  /** The total minus one entry is the sum of all the other entries. */
  lemma SumWithout(s: seq<real>, i: nat)
    requires i < |s|
    ensures Sum(s) - s[i] == Sum(s[..i]) + Sum(s[i + 1..])
  {
    assert s == s[..i] + ([s[i]] + s[i + 1..]);
    SumConcat(s[..i], [s[i]] + s[i + 1..]);
    assert ([s[i]] + s[i + 1..])[1..] == s[i + 1..];
  }

  /** A sum of entries that all lie in [lo, hi] lies in [n * lo, n * hi]. */
  lemma {:induction false} SumBounds(s: seq<real>, lo: real, hi: real)
    requires forall j :: 0 <= j < |s| ==> lo <= s[j] <= hi
    ensures |s| as real * lo <= Sum(s) <= |s| as real * hi
  {
    if |s| > 0 {
      SumBounds(s[1..], lo, hi);
    }
  }

  /** A nonempty sum of positive entries is positive. */
  lemma {:induction false} SumPositive(s: seq<real>)
    requires |s| > 0 && forall j :: 0 <= j < |s| ==> s[j] > 0.0
    ensures Sum(s) > 0.0
  {
    if |s| > 1 {
      SumPositive(s[1..]);
    }
  }

  lemma MapUpdate(f: real -> real, s: seq<real>, i: nat, v: real, fv: real)
    requires i < |s| && fv == f(v)
    ensures Map(f, s[i := v]) == Map(f, s)[i := fv]
  {
    var l, r := Map(f, s[i := v]), Map(f, s)[i := fv];
    assert forall j :: 0 <= j < |s| ==> l[j] == r[j];
  }

  lemma MapAppend(f: real -> real, s: seq<real>, x: real)
    ensures Map(f, s + [x]) == Map(f, s) + [f(x)]
  {
  }

  lemma MapTail(f: real -> real, s: seq<real>)
    requires |s| > 0
    ensures Map(f, s)[1..] == Map(f, s[1..])
  {
  }

  lemma {:induction false} ArangeSnoc(lo: int, hi: int)
    requires lo <= hi
    ensures Arange(lo, hi + 1) == Arange(lo, hi) + [hi as real]
    decreases hi - lo
  {
    if lo < hi {
      ArangeSnoc(lo + 1, hi);
    }
  }

  /** `logfactorial(n)` is 0 for n <= 0 and otherwise
      `logfactorial(n - 1) + log(n)`: the logarithm of n!. */
  lemma LogFactorialRecurrence(m: Elementary, n: int)
    ensures LogFactorial(m, n) == if n <= 0 then 0.0 else LogFactorial(m, n - 1) + m.log(n as real)
  {
    if n > 0 {
      ArangeSnoc(1, n);
      MapAppend(m.log, Arange(1, n), n as real);
      SumAppend(Map(m.log, Arange(1, n)), m.log(n as real));
    }
  }
}
