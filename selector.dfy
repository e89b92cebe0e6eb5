/** BookMoveSelector::probe_impl (book.cpp:1567-1790): deciding whether to
    play from the book and which record to play. The list the book finds
    for the position is an argument, the engine options a record, and the
    pseudo-random generator an oracle: draw number k with bound n is
    rng(k, n) reduced into [0, n). */
module Selector {
  import opened BookTypes

  /** The options probe_impl reads: BookIgnoreRate, BookMoves, NarrowBook,
      BookDepthLimit, BookEvalDiff, BookEvalBlackLimit, BookEvalWhiteLimit
      and ConsiderBookMoveCount. */
  datatype Options = Options(
    ignoreRate: int,
    bookMoves: int,
    narrowBook: bool,
    depthLimit: int,
    evalDiff: int,
    blackLimit: int,
    whiteLimit: int,
    considerCount: bool)

  /** The outcome of a probe: the record played, if any, and the number of
      draws taken from the generator so far. */
  datatype Probe = Probe(choice: Option<BookMove>, draws: nat)

  /** prng.rand(n): draw number k, a value in [0, n). */
  function Draw(rng: (nat, nat) -> nat, k: nat, n: nat): (r: nat)
    ensures n > 0 ==> r < n
  {
    if n == 0 then 0 else rng(k, n) % n
  }

  /** The sum of the occurrence counts of a list. */
  function TotalNum(l: seq<BookMove>): nat
    decreases |l|
  {
    if l == [] then 0 else TotalNum(l[..|l| - 1]) + l[|l| - 1].num
  }

  /** num_total: the total count, floored at 1 against division by zero. */
  function NumTotal(l: seq<BookMove>): (r: nat)
    ensures r >= 1 && r >= TotalNum(l)
    ensures TotalNum(l) > 0 ==> r == TotalNum(l)
  {
    if TotalNum(l) > 1 then TotalNum(l) else 1
  }

  /** The total count is positive exactly when some record was seen. */
  lemma {:induction false} TotalNumPositive(l: seq<BookMove>)
    ensures TotalNum(l) > 0 <==> exists i :: 0 <= i < |l| && l[i].num > 0
    decreases |l|
  {
    if l != [] {
      var init := l[..|l| - 1];
      TotalNumPositive(init);
      assert forall i :: 0 <= i < |init| ==> init[i] == l[i];
    }
  }

  /** std::remove_if then erase: the records that pass p, in their order. */
  function Keep(s: seq<BookMove>, p: BookMove -> bool): (r: seq<BookMove>)
    ensures forall x :: x in r <==> x in s && p(x)
    ensures |r| <= |s|
    decreases |s|
  {
    if s == [] then []
    else (if p(s[0]) then [s[0]] else []) + Keep(s[1..], p)
  }

  /** Filtering a concatenation filters each part: the records kept keep
      their relative order. */
  lemma {:induction false} KeepAppend(s1: seq<BookMove>, s2: seq<BookMove>, p: BookMove -> bool)
    ensures Keep(s1 + s2, p) == Keep(s1, p) + Keep(s2, p)
    decreases |s1|
  {
    if s1 != [] {
      assert (s1 + s2)[0] == s1[0] && (s1 + s2)[1..] == s1[1..] + s2;
      KeepAppend(s1[1..], s2, p);
      var h := if p(s1[0]) then [s1[0]] else [];
      assert Keep(s1 + s2, p) == h + (Keep(s1[1..], p) + Keep(s2, p));
      assert h + (Keep(s1[1..], p) + Keep(s2, p)) == (h + Keep(s1[1..], p)) + Keep(s2, p);
    } else {
      assert s1 + s2 == s2;
    }
  }

  /** A filter every record passes removes nothing. */
  lemma {:induction false} KeepAll(s: seq<BookMove>, p: BookMove -> bool)
    requires forall i :: 0 <= i < |s| ==> p(s[i])
    ensures Keep(s, p) == s
    decreases |s|
  {
    if s != [] {
      KeepAll(s[1..], p);
    }
  }

  /** The least value a record may have, given the best record's value:
      max(best - BookEvalDiff, the side to move's limit). */
  function ValueLimit(best: int, opts: Options, blackToMove: bool): (r: int)
    ensures r >= best - opts.evalDiff
    ensures r >= (if blackToMove then opts.blackLimit else opts.whiteLimit)
    ensures r == best - opts.evalDiff || r == (if blackToMove then opts.blackLimit else opts.whiteLimit)
  {
    var sideLimit := if blackToMove then opts.blackLimit else opts.whiteLimit;
    if best - opts.evalDiff > sideLimit then best - opts.evalDiff else sideLimit
  }

  /** NarrowBook: the records chosen at least a tenth of the time. */
  function Narrowed(ms: seq<BookMove>): (r: seq<BookMove>)
    ensures forall x :: x in r <==> x in ms && 10 * x.num >= NumTotal(ms)
  {
    Keep(ms, (b: BookMove) => 10 * b.num >= NumTotal(ms))
  }

  /** The candidates that survive the filters of probe_impl:
      - forced, those valued at least as the first record;
      - else, after NarrowBook, nothing when the first survivor is shallower
        than a nonzero BookDepthLimit, and otherwise those valued at least
        ValueLimit of the first survivor. */
  function Candidates(ms: seq<BookMove>, opts: Options, blackToMove: bool, forceHit: bool): (r: seq<BookMove>)
    requires ms != []
    ensures forall x :: x in r ==> x in ms
    ensures forceHit ==> r != [] && forall x :: x in r <==> x in ms && x.value >= ms[0].value
    ensures !forceHit && opts.narrowBook ==> forall x :: x in r ==> 10 * x.num >= NumTotal(ms)
    ensures !forceHit ==>
      var l1 := if opts.narrowBook then Narrowed(ms) else ms;
      && (l1 == [] || (opts.depthLimit != 0 && l1[0].depth < opts.depthLimit) ==> r == [])
      && (l1 != [] && !(opts.depthLimit != 0 && l1[0].depth < opts.depthLimit) ==>
            forall x :: x in r <==> x in l1 && x.value >= ValueLimit(l1[0].value, opts, blackToMove))
  {
    if forceHit then
      Keep(ms, (b: BookMove) => b.value >= ms[0].value)
    else
      var l1 := if opts.narrowBook then Narrowed(ms) else ms;
      if l1 == [] then []
      else if opts.depthLimit != 0 && l1[0].depth < opts.depthLimit then []
      else
        var limit := ValueLimit(l1[0].value, opts, blackToMove);
        Keep(l1, (b: BookMove) => b.value >= limit)
  }

  /** The weight of each candidate in the one-pass choice: its count, or 1
      for every candidate when all counts are 0. */
  function Weights(l: seq<BookMove>): (ws: seq<nat>)
    ensures |ws| == |l|
  {
    if TotalNum(l) == 0 then seq(|l|, i => 1) else seq(|l|, i requires 0 <= i < |l| => l[i].num)
  }

  /** The sum of a sequence of weights. */
  function Sum(ws: seq<nat>): nat
    decreases |ws|
  {
    if ws == [] then 0 else Sum(ws[..|ws| - 1]) + ws[|ws| - 1]
  }

  /** The index of the first positive weight, |ws| when there is none. */
  function FirstPositive(ws: seq<nat>): (z: nat)
    ensures z <= |ws|
    ensures forall j :: 0 <= j < z ==> ws[j] == 0
    ensures z < |ws| ==> ws[z] > 0
    decreases |ws|
  {
    if ws == [] then 0
    else if ws[0] > 0 then 0
    else FirstPositive(ws[1..]) + 1
  }

  /** The running sum after index i is positive exactly from the first
      positive weight on. */
  lemma {:induction false} PrefixPositive(ws: seq<nat>, i: nat)
    requires i < |ws|
    ensures Sum(ws[..i + 1]) > 0 <==> FirstPositive(ws) <= i
    ensures FirstPositive(ws) == i ==> Sum(ws[..i + 1]) == ws[i]
  {
    var z := FirstPositive(ws);
    ZeroPrefix(ws, if z <= i then z else i + 1);
    if z <= i {
      PrefixAtLeast(ws, z, i);
    }
  }

  /** Before the first positive weight the running sum is 0. */
  lemma {:induction false} ZeroPrefix(ws: seq<nat>, n: nat)
    requires n <= |ws| && forall j :: 0 <= j < n ==> ws[j] == 0
    ensures Sum(ws[..n]) == 0
    decreases n
  {
    if n > 0 {
      assert ws[..n][..n - 1] == ws[..n - 1];
      ZeroPrefix(ws, n - 1);
    }
  }

  /** The running sum only grows: once weight z is in, it is at least
      the sum up to z. */
  lemma {:induction false} PrefixAtLeast(ws: seq<nat>, z: nat, i: nat)
    requires z <= i < |ws|
    ensures Sum(ws[..i + 1]) >= Sum(ws[..z + 1])
    ensures Sum(ws[..z + 1]) == Sum(ws[..z]) + ws[z]
    decreases i - z
  {
    assert ws[..z + 1][..z] == ws[..z];
    if z < i {
      PrefixAtLeast(ws, z, i - 1);
      assert ws[..i + 1][..i] == ws[..i];
    }
  }

  /** Candidate i replaces the pick: its running sum is positive, and
      draw number c + (i - z), where z is the first positive weight, falls
      below its weight. */
  predicate HitAt(ws: seq<nat>, i: nat, rng: (nat, nat) -> nat, c: nat)
    requires i < |ws|
  {
    var z := FirstPositive(ws);
    z <= i && Draw(rng, c + (i - z), Sum(ws[..i + 1])) < ws[i]
  }

  /** The choice among the first n candidates: the last one that hit, or
      the uniform pick u when none did. */
  function LastHit(ws: seq<nat>, n: nat, rng: (nat, nat) -> nat, c: nat, u: nat): (r: nat)
    requires n <= |ws|
    ensures r == u || (r < n && HitAt(ws, r, rng, c))
    ensures r != u ==> forall j :: r < j < n ==> !HitAt(ws, j, rng, c)
    decreases n
  {
    if n == 0 then u
    else if HitAt(ws, n - 1, rng, c) then n - 1
    else LastHit(ws, n - 1, rng, c, u)
  }

  /** A draw taken at candidate i decides whether it hits. */
  lemma HitIs(ws: seq<nat>, i: nat, rng: (nat, nat) -> nat, c: nat, d: nat)
    requires i < |ws| && Sum(ws[..i + 1]) > 0
    requires d == Draw(rng, c + PassDraws(ws, i), Sum(ws[..i + 1]))
    ensures HitAt(ws, i, rng, c) <==> d < ws[i]
  {
    HitStep(ws, i, rng, c);
  }

  /** The choice among one more candidate. */
  lemma LastHitStep(ws: seq<nat>, i: nat, rng: (nat, nat) -> nat, c: nat, u: nat)
    requires i < |ws|
    ensures LastHit(ws, i + 1, rng, c, u) == if HitAt(ws, i, rng, c) then i else LastHit(ws, i, rng, c, u)
  {
  }

  /** The number of draws the weighted pass takes over the first n
      candidates: one per candidate from the first positive weight on. */
  function PassDraws(ws: seq<nat>, n: nat): nat {
    var z := FirstPositive(ws);
    if z < n then n - z else 0
  }

  /** One more candidate in the weighted pass: it hits exactly when its
      running sum is positive and the next draw, bounded by that sum, falls
      below its weight; a draw is taken exactly when that sum is positive. */
  lemma HitStep(ws: seq<nat>, i: nat, rng: (nat, nat) -> nat, c: nat)
    requires i < |ws|
    ensures HitAt(ws, i, rng, c) <==>
      Sum(ws[..i + 1]) > 0 && Draw(rng, c + PassDraws(ws, i), Sum(ws[..i + 1])) < ws[i]
    ensures PassDraws(ws, i + 1) == PassDraws(ws, i) + (if Sum(ws[..i + 1]) > 0 then 1 else 0)
    ensures Sum(ws[..i + 1]) == Sum(ws[..i]) + ws[i]
  {
    PrefixPositive(ws, i);
    assert ws[..i + 1][..i] == ws[..i];
  }

  /** When some weight is positive, the weighted pass picks a candidate of
      positive weight: the first such candidate always hits, and a
      zero-weight one never does. */
  lemma WeightedPickPositive(ws: seq<nat>, rng: (nat, nat) -> nat, c: nat, u: nat)
    requires FirstPositive(ws) < |ws|
    ensures var r := LastHit(ws, |ws|, rng, c, u);
      r < |ws| && ws[r] > 0
  {
    var z := FirstPositive(ws);
    PrefixPositive(ws, z);
    assert HitAt(ws, z, rng, c);
    LastHitAtLeast(ws, |ws|, rng, c, u, z);
  }

  /** A hit at z means the last hit is at z or after it. */
  lemma {:induction false} LastHitAtLeast(ws: seq<nat>, n: nat, rng: (nat, nat) -> nat, c: nat, u: nat, z: nat)
    requires z < n <= |ws| && HitAt(ws, z, rng, c)
    ensures var r := LastHit(ws, n, rng, c, u);
      z <= r < n && HitAt(ws, r, rng, c)
    decreases n
  {
    if !HitAt(ws, n - 1, rng, c) {
      LastHitAtLeast(ws, n - 1, rng, c, u, z);
    }
  }

  /** The weights of a non-empty list always include a positive one. */
  lemma WeightsHavePositive(l: seq<BookMove>)
    requires l != []
    ensures FirstPositive(Weights(l)) < |Weights(l)|
    ensures forall i :: 0 <= i < |l| ==> Weights(l)[i] == if TotalNum(l) == 0 then 1 else l[i].num
  {
    var ws := Weights(l);
    TotalNumPositive(l);
    if TotalNum(l) != 0 {
      var i :| 0 <= i < |l| && l[i].num > 0;
      assert ws[i] > 0;
    } else {
      assert ws[0] > 0;
    }
  }

  /** The pick among the non-empty candidates l from draw number c: a
      uniform draw, overridden, when weighted, by the one-pass choice. */
  function Choose(l: seq<BookMove>, weighted: bool, rng: (nat, nat) -> nat, c: nat): Probe
    requires l != []
  {
    var u := Draw(rng, c, |l|);
    if weighted then
      var ws := Weights(l);
      Probe(Some(l[LastHit(ws, |ws|, rng, c + 1, u)]), c + 1 + PassDraws(ws, |ws|))
    else
      Probe(Some(l[u]), c + 1)
  }

  /** The pick is one of the candidates, and the weighted pick is a
      candidate some game chose whenever there is one. */
  lemma ChooseSpec(l: seq<BookMove>, weighted: bool, rng: (nat, nat) -> nat, c: nat)
    requires l != []
    ensures var p := Choose(l, weighted, rng, c);
      && p.choice.Some? && p.choice.value in l
      && (weighted && TotalNum(l) > 0 ==> p.choice.value.num > 0)
  {
    var u := Draw(rng, c, |l|);
    if weighted {
      var ws := Weights(l);
      WeightsHavePositive(l);
      WeightedPickPositive(ws, rng, c + 1, u);
      assert l[LastHit(ws, |ws|, rng, c + 1, u)] in l;
    } else {
      assert l[u] in l;
    }
  }

  /** The whole of probe_impl from draw number c:
      - unless forced, the book is ignored when BookIgnoreRate beats
        rand(100), and past BookMoves plies;
      - no list, or an empty one, or no candidate left: no move;
      - else a uniform pick among the candidates, overridden, when forced
        or with ConsiderBookMoveCount, by the weighted one-pass choice. */
  function ProbeSpec(entry: Option<seq<BookMove>>, opts: Options, gamePly: int, blackToMove: bool,
                     forceHit: bool, rng: (nat, nat) -> nat, c: nat): Probe
  {
    if !forceHit && opts.ignoreRate > Draw(rng, c, 100) then Probe(None, c + 1)
    else
      var c1 := if forceHit then c else c + 1;
      if !forceHit && gamePly > opts.bookMoves then Probe(None, c1)
      else if entry.None? || entry.value == [] then Probe(None, c1)
      else
        var l := Candidates(entry.value, opts, blackToMove, forceHit);
        if l == [] then Probe(None, c1)
        else Choose(l, forceHit || opts.considerCount, rng, c1)
  }

  /** A move is played only from the list the book holds, and only if it
      passed the filters. */
  lemma ProbeChoosesCandidate(entry: Option<seq<BookMove>>, opts: Options, gamePly: int, blackToMove: bool,
                              forceHit: bool, rng: (nat, nat) -> nat, c: nat)
    ensures var p := ProbeSpec(entry, opts, gamePly, blackToMove, forceHit, rng, c);
      p.choice.Some? ==>
        && entry.Some? && entry.value != []
        && p.choice.value in Candidates(entry.value, opts, blackToMove, forceHit)
        && p.choice.value in entry.value
  {
    var p := ProbeSpec(entry, opts, gamePly, blackToMove, forceHit, rng, c);
    if p.choice.Some? {
      var c1 := if forceHit then c else c + 1;
      var l := Candidates(entry.value, opts, blackToMove, forceHit);
      ChooseSpec(l, forceHit || opts.considerCount, rng, c1);
    }
  }

  /** The gates: unforced, past BookMoves plies or with no list, the book
      plays nothing; forced, a non-empty list always yields a move valued
      at least as its first record. */
  lemma ProbeGates(entry: Option<seq<BookMove>>, opts: Options, gamePly: int, blackToMove: bool,
                   forceHit: bool, rng: (nat, nat) -> nat, c: nat)
    ensures var p := ProbeSpec(entry, opts, gamePly, blackToMove, forceHit, rng, c);
      && (!forceHit && gamePly > opts.bookMoves ==> p.choice.None?)
      && (entry.None? || entry == Some([]) ==> p.choice.None?)
      && (forceHit && entry.Some? && entry.value != [] ==> p.choice.Some? && p.choice.value.value >= entry.value[0].value)
  {
    if forceHit && entry.Some? && entry.value != [] {
      ProbeChoosesCandidate(entry, opts, gamePly, blackToMove, forceHit, rng, c);
      ChooseSpec(Candidates(entry.value, opts, blackToMove, forceHit), true, rng, c);
    }
  }

  /** With the weighted pass, a record never chosen (num 0) is not played
      while some candidate was. */
  lemma ProbeAvoidsZeroCount(entry: Option<seq<BookMove>>, opts: Options, gamePly: int, blackToMove: bool,
                             forceHit: bool, rng: (nat, nat) -> nat, c: nat)
    requires forceHit || opts.considerCount
    ensures var p := ProbeSpec(entry, opts, gamePly, blackToMove, forceHit, rng, c);
      p.choice.Some? && TotalNum(Candidates(entry.value, opts, blackToMove, forceHit)) > 0 ==>
        p.choice.value.num > 0
  {
    var p := ProbeSpec(entry, opts, gamePly, blackToMove, forceHit, rng, c);
    if p.choice.Some? {
      var c1 := if forceHit then c else c + 1;
      ChooseSpec(Candidates(entry.value, opts, blackToMove, forceHit), true, rng, c1);
    }
  }

  class BookMoveSelector {
    /** The generator's outputs: rng(k, n) for draw number k with bound n. */
    const rng: (nat, nat) -> nat
    /** The generator's state: how many draws were taken. */
    var draws: nat

    constructor (rng: (nat, nat) -> nat)
      ensures this.rng == rng && draws == 0
    {
      this.rng := rng;
      draws := 0;
    }

    /** prng.rand(n). */
    method Rand(n: nat) returns (r: nat)
      requires n > 0
      modifies this`draws
      ensures r == Draw(rng, old(draws), n) && r < n
      ensures draws == old(draws) + 1
    {
      r := Draw(rng, draws, n);
      draws := draws + 1;
    }

    /** The one-pass weighted choice of probe_impl over the candidates l,
        starting from the uniform pick u: the sum of the counts first,
        then each candidate replaces the pick when a draw bounded by the
        running sum falls below its weight. */
    method WeightedPick(l: seq<BookMove>, u: nat) returns (b: nat)
      requires l != [] && u < |l|
      modifies this`draws
      ensures b == LastHit(Weights(l), |l|, rng, old(draws), u)
      ensures draws == old(draws) + PassDraws(Weights(l), |l|)
    {
      WeightsHavePositive(l);
      var sum := 0;
      var j := 0;
      while j < |l|
        invariant 0 <= j <= |l|
        invariant sum == TotalNum(l[..j])
      {
        assert l[..j + 1][..j] == l[..j];
        sum := sum + l[j].num;
        j := j + 1;
      }
      assert l[..j] == l;
      b := OnePass(l, Weights(l), sum, u);
    }

    /** The second pass of the weighted choice, with the weights ws the
        total count sum gives. */
    method OnePass(l: seq<BookMove>, ghost ws: seq<nat>, sum: nat, u: nat) returns (b: nat)
      requires |ws| == |l| && forall i :: 0 <= i < |l| ==> ws[i] == if sum == 0 then 1 else l[i].num
      modifies this`draws
      ensures b == LastHit(ws, |l|, rng, old(draws), u)
      ensures draws == old(draws) + PassDraws(ws, |l|)
    {
      ghost var c := draws;
      var acc := 0;
      b := u;
      var i := 0;
      while i < |l|
        invariant 0 <= i <= |l|
        invariant acc == Sum(ws[..i])
        invariant draws == c + PassDraws(ws, i)
        invariant b == LastHit(ws, i, rng, c, u)
      {
        var w := if sum == 0 then 1 else l[i].num;
        acc := acc + w;
        HitStep(ws, i, rng, c);
        LastHitStep(ws, i, rng, c, u);
        if acc != 0 {
          var d := Rand(acc);
          HitIs(ws, i, rng, c, d);
          if d < w {
            b := i;
          }
        }
        i := i + 1;
      }
    }

    /** The pick among the candidates: a uniform draw, then, when
        weighted, the one-pass choice. */
    method PickFrom(l: seq<BookMove>, weighted: bool) returns (best: BookMove)
      requires l != []
      modifies this`draws
      ensures var p := Choose(l, weighted, rng, old(draws));
        Some(best) == p.choice && draws == p.draws
    {
      var u := Rand(|l|);
      if weighted {
        var b := WeightedPick(l, u);
        best := l[b];
      } else {
        best := l[u];
      }
    }

    /** probe_impl on the list the book found for the position (entry):
        the record played, if any (its move and ponder move are
        bestMove and ponderMove). */
    method ProbeImpl(entry: Option<seq<BookMove>>, opts: Options, gamePly: int, blackToMove: bool, forceHit: bool)
      returns (found: bool, best: BookMove)
      modifies this`draws
      ensures var p := ProbeSpec(entry, opts, gamePly, blackToMove, forceHit, rng, old(draws));
        && found == p.choice.Some?
        && (found ==> best == p.choice.value)
        && draws == p.draws
    {
      best := BookMove(MoveNone, MoveNone, 0, 0, 0, 0, 0);
      if !forceHit {
        var d := Rand(100);
        if opts.ignoreRate > d {
          return false, best;
        }
        if gamePly > opts.bookMoves {
          return false, best;
        }
      }
      if entry.None? || |entry.value| == 0 {
        return false, best;
      }
      var moveList := Candidates(entry.value, opts, blackToMove, forceHit);
      if |moveList| == 0 {
        return false, best;
      }
      best := PickFrom(moveList, forceHit || opts.considerCount);
      found := true;
    }
  }
}
