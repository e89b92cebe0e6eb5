/** The one-pass weighted choice of probe_impl (book.cpp:1735-1760) is
    exact: over uniformly drawn values, each candidate ends the pass for
    the share of the draw vectors its weight is of the sum of the weights.
    Draw vectors are counted one by one, each draw ranging over the running
    sum it is bounded by. */
module WeightedPass {
  import opened BookTypes
  import opened Selector

  /** The number of values the draw at candidate j ranges over: the
      running sum when it is positive, a single value where the pass takes
      no draw. */
  function Span(ws: seq<nat>, j: nat): (s: nat)
    requires j < |ws|
    ensures s > 0
  {
    if Sum(ws[..j + 1]) > 0 then Sum(ws[..j + 1]) else 1
  }

  /** The number of draw values at candidate j that make it hit: its
      weight when the running sum is positive, none otherwise. */
  function HitCount(ws: seq<nat>, j: nat): (h: nat)
    requires j < |ws|
    ensures h <= Span(ws, j)
  {
    assert ws[..j + 1][..j] == ws[..j];
    if Sum(ws[..j + 1]) > 0 then ws[j] else 0
  }

  /** The answer of the weighted pass over the first n candidates when the
      draw at candidate j is ds[j]: the last candidate whose running sum is
      positive and whose draw falls below its weight, or none. */
  function Outcome(ws: seq<nat>, ds: seq<nat>, n: nat): (r: Option<nat>)
    requires n <= |ws| && n <= |ds|
    ensures r.Some? ==> r.value < n
  {
    if n == 0 then None
    else if Sum(ws[..n]) > 0 && ds[n - 1] < ws[n - 1] then Some(n - 1)
    else Outcome(ws, ds, n - 1)
  }

  /** The number of draw vectors ds of length n that begin with pre, each
      draw ds[j] in [0, Span(ws, j)), under which the pass over the first n
      candidates ends on r. */
  function Ways(ws: seq<nat>, n: nat, pre: seq<nat>, r: Option<nat>): nat
    requires n <= |ws| && |pre| <= n
    decreases n - |pre|, 1
  {
    if |pre| == n then (if Outcome(ws, pre, n) == r then 1 else 0)
    else WaysBelow(ws, n, pre, r, Span(ws, |pre|))
  }

  /** The same count over the vectors whose next draw is below k. */
  function WaysBelow(ws: seq<nat>, n: nat, pre: seq<nat>, r: Option<nat>, k: nat): nat
    requires n <= |ws| && |pre| < n
    decreases n - |pre|, 0, k
  {
    if k == 0 then 0 else WaysBelow(ws, n, pre, r, k - 1) + Ways(ws, n, pre + [k - 1], r)
  }

  /** The number of draw vectors for candidates a to b - 1. */
  function SpanProd(ws: seq<nat>, a: nat, b: nat): nat
    requires a <= b <= |ws|
    decreases b - a
  {
    if a == b then 1 else Span(ws, a) * SpanProd(ws, a + 1, b)
  }

  /** The number of those vectors under which none of them hits. */
  function MissProd(ws: seq<nat>, a: nat, b: nat): nat
    requires a <= b <= |ws|
    decreases b - a
  {
    if a == b then 1 else (Span(ws, a) - HitCount(ws, a)) * MissProd(ws, a + 1, b)
  }

  /** The number of those vectors under which the last hit is r. */
  function LastHitWays(ws: seq<nat>, a: nat, b: nat, r: Option<nat>): nat
    requires a <= b <= |ws|
  {
    match r
    case None => 0
    case Some(i) => if a <= i < b then SpanProd(ws, a, i) * HitCount(ws, i) * MissProd(ws, i + 1, b) else 0
  }

  lemma MulAssoc(a: int, b: int, c: int)
    ensures a * (b * c) == (a * b) * c
  {
  }

  lemma MulComm(a: int, b: int)
    ensures a * b == b * a
  {
  }

  /** The pass over the first m candidates reads only the first m draws. */
  lemma {:induction false} OutcomePrefix(ws: seq<nat>, ds: seq<nat>, ds': seq<nat>, m: nat)
    requires m <= |ws| && m <= |ds| && m <= |ds'| && ds[..m] == ds'[..m]
    ensures Outcome(ws, ds, m) == Outcome(ws, ds', m)
    decreases m
  {
    if m > 0 {
      assert ds[m - 1] == ds[..m][m - 1] == ds'[m - 1];
      assert ds[..m - 1] == ds[..m][..m - 1] && ds'[..m - 1] == ds'[..m][..m - 1];
      OutcomePrefix(ws, ds, ds', m - 1);
    }
  }

  /** One more draw d: it makes its candidate the answer exactly when it
      is one of the HitCount values that hit. */
  lemma OutcomeStep(ws: seq<nat>, pre: seq<nat>, d: nat)
    requires |pre| < |ws|
    ensures Outcome(ws, pre + [d], |pre| + 1) ==
      if d < HitCount(ws, |pre|) then Some(|pre|) else Outcome(ws, pre, |pre|)
  {
    assert (pre + [d])[..|pre|] == pre[..|pre|];
    OutcomePrefix(ws, pre + [d], pre, |pre|);
  }

  /** The count over vectors beginning with pre splits into those whose
      later draws all miss, answered by pre, and those with a later hit. */
  lemma {:induction false} WaysSplit(ws: seq<nat>, n: nat, pre: seq<nat>, r: Option<nat>)
    requires n <= |ws| && |pre| <= n
    ensures Ways(ws, n, pre, r) ==
      (if Outcome(ws, pre, |pre|) == r then MissProd(ws, |pre|, n) else 0) + LastHitWays(ws, |pre|, n, r)
    decreases n - |pre|, 1
  {
    var m := |pre|;
    if m < n {
      var S, H := Span(ws, m), HitCount(ws, m);
      var M, L := MissProd(ws, m + 1, n), LastHitWays(ws, m + 1, n, r);
      assert Ways(ws, n, pre, r) ==
        (if r == Some(m) then M * H else 0) + (if Outcome(ws, pre, m) == r then M * (S - H) else 0) + S * L by {
        WaysBelowSplit(ws, n, pre, r, S);
      }
      assert LastHitWays(ws, m, n, r) == (if r == Some(m) then H * M else 0) + S * L by {
        LastHitWaysStep(ws, m, n, r);
      }
      assert MissProd(ws, m, n) == (S - H) * M;
      MulComm(M, H);
      MulComm(M, S - H);
    } else {
      assert pre[..m] == pre;
    }
  }

  /** The count over the vectors whose next draw is below k: the first
      HitCount values of that draw hit, the others leave the answer to pre
      and the later draws. */
  lemma {:induction false} WaysBelowSplit(ws: seq<nat>, n: nat, pre: seq<nat>, r: Option<nat>, k: nat)
    requires n <= |ws| && |pre| < n && k <= Span(ws, |pre|)
    ensures var m := |pre|;
      var M, L := MissProd(ws, m + 1, n), LastHitWays(ws, m + 1, n, r);
      var h := if k < HitCount(ws, m) then k else HitCount(ws, m);
      WaysBelow(ws, n, pre, r, k) ==
        (if r == Some(m) then M * h else 0) + (if Outcome(ws, pre, m) == r then M * (k - h) else 0) + k * L
    decreases n - |pre|, 0, k
  {
    if k > 0 {
      var m := |pre|;
      var H := HitCount(ws, m);
      var M, L := MissProd(ws, m + 1, n), LastHitWays(ws, m + 1, n, r);
      var h0 := if k - 1 < H then k - 1 else H;
      assert WaysBelow(ws, n, pre, r, k - 1) ==
        (if r == Some(m) then M * h0 else 0) + (if Outcome(ws, pre, m) == r then M * (k - 1 - h0) else 0) + (k - 1) * L by {
        WaysBelowSplit(ws, n, pre, r, k - 1);
      }
      NextDraw(ws, n, pre, r, k - 1);
      var x, y := r == Some(m), Outcome(ws, pre, m) == r;
      assert WaysBelow(ws, n, pre, r, k) == WaysBelow(ws, n, pre, r, k - 1) + Ways(ws, n, pre + [k - 1], r);
      BelowStep(x, y, M, L, H, k, WaysBelow(ws, n, pre, r, k - 1), Ways(ws, n, pre + [k - 1], r));
    }
  }

  /** The count over the vectors whose next draw is d. */
  lemma {:induction false} NextDraw(ws: seq<nat>, n: nat, pre: seq<nat>, r: Option<nat>, d: nat)
    requires n <= |ws| && |pre| < n
    ensures var m := |pre|;
      Ways(ws, n, pre + [d], r) ==
        (if (if d < HitCount(ws, m) then Some(m) else Outcome(ws, pre, m)) == r then MissProd(ws, m + 1, n) else 0)
        + LastHitWays(ws, m + 1, n, r)
    decreases n - |pre|, 0, 0
  {
    WaysSplit(ws, n, pre + [d], r);
    OutcomeStep(ws, pre, d);
  }

  /** The arithmetic of one step of WaysBelowSplit: x says the answer is
      candidate m, y that it is pre's own answer. */
  lemma BelowStep(x: bool, y: bool, M: int, L: int, H: nat, k: nat, prev: int, next: int)
    requires k >= 1
    requires var h0 := if k - 1 < H then k - 1 else H;
      prev == (if x then M * h0 else 0) + (if y then M * (k - 1 - h0) else 0) + (k - 1) * L
    requires next == (if (if k - 1 < H then x else y) then M else 0) + L
    ensures var h := if k < H then k else H;
      prev + next == (if x then M * h else 0) + (if y then M * (k - h) else 0) + k * L
  {
    MulSucc(L, k - 1);
    if k - 1 < H {
      MulSucc(M, k - 1);
    } else {
      MulSucc(M, k - 1 - H);
    }
  }

  lemma MulSucc(a: int, b: int)
    ensures a * b + a == a * (b + 1) && b * a + a == (b + 1) * a
  {
  }

  /** The last hit among candidates m and on: m itself, or one after it
      with any draw at m. */
  lemma LastHitWaysStep(ws: seq<nat>, m: nat, n: nat, r: Option<nat>)
    requires m < n <= |ws|
    ensures LastHitWays(ws, m, n, r) ==
      (if r == Some(m) then HitCount(ws, m) * MissProd(ws, m + 1, n) else 0)
      + Span(ws, m) * LastHitWays(ws, m + 1, n, r)
  {
    var S := Span(ws, m);
    if r.Some? && m < r.value < n {
      var i := r.value;
      var P, Hi, Mi := SpanProd(ws, m + 1, i), HitCount(ws, i), MissProd(ws, i + 1, n);
      assert SpanProd(ws, m, i) == S * P;
      assert LastHitWays(ws, m, n, r) == ((S * P) * Hi) * Mi;
      assert LastHitWays(ws, m + 1, n, r) == (P * Hi) * Mi;
      assert (S * P) * Hi == S * (P * Hi) by { MulAssoc(S, P, Hi); }
      assert (S * (P * Hi)) * Mi == S * ((P * Hi) * Mi) by { MulAssoc(S, P * Hi, Mi); }
    } else if r == Some(m) {
      assert SpanProd(ws, m, m) == 1;
      assert LastHitWays(ws, m + 1, n, r) == 0;
    } else {
      assert LastHitWays(ws, m + 1, n, r) == 0;
    }
  }

  lemma {:induction false} SpanProdSplit(ws: seq<nat>, a: nat, m: nat, b: nat)
    requires a <= m <= b <= |ws|
    ensures SpanProd(ws, a, b) == SpanProd(ws, a, m) * SpanProd(ws, m, b)
    decreases m - a
  {
    if a < m {
      var A, X, Y := Span(ws, a), SpanProd(ws, a + 1, m), SpanProd(ws, m, b);
      SpanProdSplit(ws, a + 1, m, b);
      assert SpanProd(ws, a, b) == A * SpanProd(ws, a + 1, b);
      assert SpanProd(ws, a, m) == A * X;
      MulAssoc(A, X, Y);
    } else {
      assert SpanProd(ws, a, a) == 1;
    }
  }

  /** Past the first positive weight a miss at candidate a leaves exactly
      the values of the running sum before it, so the misses from a on,
      times the whole sum, count every vector from a - 1 on. */
  lemma {:induction false} MissProdTimesSum(ws: seq<nat>, a: nat, n: nat)
    requires FirstPositive(ws) < a <= n <= |ws|
    ensures MissProd(ws, a, n) * Sum(ws[..n]) == SpanProd(ws, a - 1, n)
    decreases n - a
  {
    PrefixPositive(ws, a - 1);
    var before := Sum(ws[..a]);
    assert ws[..a - 1 + 1] == ws[..a];
    assert Span(ws, a - 1) == before;
    if a < n {
      var T := Sum(ws[..n]);
      MissProdTimesSum(ws, a + 1, n);
      PrefixPositive(ws, a);
      assert ws[..a + 1][..a] == ws[..a];
      assert Sum(ws[..a + 1]) == before + ws[a];
      assert Span(ws, a) - HitCount(ws, a) == before;
      var M := MissProd(ws, a + 1, n);
      assert MissProd(ws, a, n) == before * M;
      assert SpanProd(ws, a - 1, n) == before * SpanProd(ws, a, n);
      MulAssoc(before, M, T);
    } else {
      assert SpanProd(ws, a - 1, n) == Span(ws, a - 1) * SpanProd(ws, n, n);
    }
  }

  /** The first positive weight always hits, so no vector misses it. */
  lemma {:induction false} MissProdZero(ws: seq<nat>, a: nat, n: nat)
    requires a <= FirstPositive(ws) < n <= |ws|
    ensures MissProd(ws, a, n) == 0
    decreases FirstPositive(ws) - a
  {
    PrefixPositive(ws, FirstPositive(ws));
    if a < FirstPositive(ws) {
      MissProdZero(ws, a + 1, n);
    }
  }

  /** The weighted pass is exact: among all the draw vectors, those that
      end the pass on candidate i are the share ws[i] / Sum(ws). */
  lemma PassIsExact(ws: seq<nat>, i: nat)
    requires i < |ws|
    ensures Ways(ws, |ws|, [], Some(i)) * Sum(ws) == ws[i] * SpanProd(ws, 0, |ws|)
  {
    var n := |ws|;
    var P, M := SpanProd(ws, 0, i), MissProd(ws, i + 1, n);
    var W, T, wi := Ways(ws, n, [], Some(i)), Sum(ws), ws[i];
    var Hi := HitCount(ws, i);
    assert Hi == wi by {
      PrefixPositive(ws, i);
    }
    assert W == LastHitWays(ws, 0, n, Some(i)) by {
      WaysSplit(ws, n, [], Some(i));
      assert Outcome(ws, [], 0) == None;
    }
    assert LastHitWays(ws, 0, n, Some(i)) == P * Hi * M;
    if FirstPositive(ws) <= i {
      var Q := SpanProd(ws, i, n);
      assert M * T == Q by {
        assert ws[..n] == ws;
        MissProdTimesSum(ws, i + 1, n);
      }
      assert SpanProd(ws, 0, n) == P * Q by { SpanProdSplit(ws, 0, i, n); }
      ExactArith(W, T, P, wi, M, Q);
    } else {
      assert wi == 0;
      ZeroProduct(P, M, W, T, SpanProd(ws, 0, n));
    }
  }

  lemma ZeroProduct(P: int, M: int, W: int, T: int, S: int)
    requires W == P * 0 * M
    ensures W * T == 0 * S
  {
  }

  lemma ExactArith(W: int, T: int, P: int, wi: int, M: int, Q: int)
    requires W == P * wi * M && M * T == Q
    ensures W * T == wi * (P * Q)
  {
    calc {
      W * T;
      ((P * wi) * M) * T;
      { MulAssoc(P * wi, M, T); }
      (P * wi) * (M * T);
      (P * wi) * Q;
      { MulComm(P, wi); }
      (wi * P) * Q;
      { MulAssoc(wi, P, Q); }
      wi * (P * Q);
    }
  }

  /** With a positive weight no draw vector leaves the pass without a hit,
      so the uniform pick is always overridden. */
  lemma PassNeverFallsBack(ws: seq<nat>)
    requires Sum(ws) > 0
    ensures Ways(ws, |ws|, [], None) == 0
  {
    var n := |ws|;
    assert ws[..n] == ws;
    if FirstPositive(ws) == n {
      ZeroPrefix(ws, n);
    }
    WaysSplit(ws, n, [], None);
    MissProdZero(ws, 0, n);
  }

  /** The draws the weighted pass takes from draw number c, one per
      candidate: bounded by the running sum where it is positive, and 0
      where the pass takes none. */
  function PassDrawsOf(ws: seq<nat>, rng: (nat, nat) -> nat, c: nat): (ds: seq<nat>)
    ensures |ds| == |ws| && forall j :: 0 <= j < |ws| ==> ds[j] < Span(ws, j)
  {
    seq(|ws|, j requires 0 <= j < |ws| => Draw(rng, c + PassDraws(ws, j), Span(ws, j)))
  }

  /** The pass with the generator's draws is the pass on one of the
      vectors Ways counts. */
  lemma {:induction false} LastHitIsOutcome(ws: seq<nat>, n: nat, rng: (nat, nat) -> nat, c: nat, u: nat)
    requires n <= |ws|
    ensures LastHit(ws, n, rng, c, u) ==
      match Outcome(ws, PassDrawsOf(ws, rng, c), n) case None => u case Some(i) => i
    decreases n
  {
    if n > 0 {
      var ds := PassDrawsOf(ws, rng, c);
      assert HitAt(ws, n - 1, rng, c) <==> Sum(ws[..n]) > 0 && ds[n - 1] < ws[n - 1] by {
        HitStep(ws, n - 1, rng, c);
        assert ws[..n - 1 + 1] == ws[..n];
      }
      if HitAt(ws, n - 1, rng, c) {
        assert Outcome(ws, ds, n) == Some(n - 1);
      } else {
        assert Outcome(ws, ds, n) == Outcome(ws, ds, n - 1);
        LastHitIsOutcome(ws, n - 1, rng, c, u);
      }
    }
  }

  /** The weighted pass of probe_impl over non-empty candidates l: it ends
      on the answer of the pass on the generator's draws, which is always a
      candidate, and over uniformly drawn values candidate i is that answer
      for the share Weights(l)[i] / Sum(Weights(l)) of the draw vectors. */
  lemma WeightedPassIsExact(l: seq<BookMove>, rng: (nat, nat) -> nat, c: nat, u: nat)
    requires l != []
    ensures var ws := Weights(l);
      Sum(ws) > 0 && Ways(ws, |ws|, [], None) == 0
    ensures var ws := Weights(l);
      Outcome(ws, PassDrawsOf(ws, rng, c), |ws|) == Some(LastHit(ws, |ws|, rng, c, u))
    ensures var ws := Weights(l);
      forall i :: 0 <= i < |l| ==> Ways(ws, |ws|, [], Some(i)) * Sum(ws) == ws[i] * SpanProd(ws, 0, |ws|)
  {
    var ws := Weights(l);
    WeightsHavePositive(l);
    PrefixPositive(ws, |ws| - 1);
    assert ws[..|ws|] == ws;
    PassNeverFallsBack(ws);
    var ds := PassDrawsOf(ws, rng, c);
    OutcomeHits(ws, ds, |ws|);
    LastHitIsOutcome(ws, |ws|, rng, c, u);
    forall i | 0 <= i < |l|
      ensures Ways(ws, |ws|, [], Some(i)) * Sum(ws) == ws[i] * SpanProd(ws, 0, |ws|)
    {
      PassIsExact(ws, i);
    }
  }

  /** A vector in range always hits at the first positive weight. */
  lemma {:induction false} OutcomeHits(ws: seq<nat>, ds: seq<nat>, n: nat)
    requires FirstPositive(ws) < n <= |ws| && n <= |ds|
    requires ds[FirstPositive(ws)] < Span(ws, FirstPositive(ws))
    ensures Outcome(ws, ds, n).Some?
    decreases n
  {
    var z := FirstPositive(ws);
    PrefixPositive(ws, z);
    if n - 1 > z {
      OutcomeHits(ws, ds, n - 1);
    }
  }
}
