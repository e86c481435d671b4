/**
 Constant-product swap arithmetic: a ceiling fee, a floor output and the new reserves, as the oracle
 of the arithmetic pilot recomputes them, and what whole runs of swaps and burns can never do.
 */
module Swap {
  import opened Ir
  import opened Wide
  import opened Instructions

  const FEE_SCALE := 10000

  /** ceil(gross * rate / 10000), with Python's flooring division. */
  function Fee(gross: int, rate: int): int { FloorDiv(gross * rate + 9999, FEE_SCALE) }

  function Net(gross: int, rate: int): int { gross - Fee(gross, rate) }

  /** floor(rout * net / (rin + net)) */
  function Out(rin: int, rout: int, net: int): int
    requires rin + net != 0
  {
    FloorDiv(rout * net, rin + net)
  }

  /** A row the oracle checks: the inputs of one swap and what the subject computed. */
  datatype SwapRow = SwapRow(gross: int, rate: int, rin: int, rout: int,
                             fee: int, net: int, out: int, postin: int, postout: int)

  /** The recomputation accepts the row. */
  predicate Exact(r: SwapRow)
    requires r.rin + Net(r.gross, r.rate) != 0
  {
    var net := Net(r.gross, r.rate);
    var out := Out(r.rin, r.rout, net);
    && r.fee == Fee(r.gross, r.rate) && r.net == net && r.out == out
    && r.postin == r.rin + net && r.postout == r.rout - out
  }

  /** The separate check that the product of the reserves does not fall. */
  predicate KeepsK(r: SwapRow) { r.postin * r.postout >= r.rin * r.rout }

  /** The fee is the exact ceiling of gross * rate over ten thousand, for every integer, and nothing else is. */
  lemma FeeIsCeiling(gross: int, rate: int, fee: int)
    ensures fee == Fee(gross, rate) <==> 10000 * fee >= gross * rate > 10000 * (fee - 1)
  {
  }

  /** What a row says of itself: a ceiling fee, the rest paid in, a floor output of a sign-aware division. */
  predicate RightRow(r: SwapRow) {
    && 10000 * r.fee >= r.gross * r.rate > 10000 * (r.fee - 1)
    && r.fee + r.net == r.gross
    && r.postin == r.rin + r.net && r.postout + r.out == r.rout
    && (r.postin > 0 ==> r.out * r.postin <= r.rout * r.net < (r.out + 1) * r.postin)
    && (r.postin < 0 ==> r.out * r.postin >= r.rout * r.net > (r.out + 1) * r.postin)
  }

  /** The recomputation accepts a row exactly when it is right. */
  lemma ExactIffRight(r: SwapRow)
    requires r.rin + Net(r.gross, r.rate) != 0
    ensures Exact(r) <==> RightRow(r)
  {
    FeeIsCeiling(r.gross, r.rate, r.fee);
    hide Fee;
    if r.fee == Fee(r.gross, r.rate) && r.net == r.gross - r.fee {
      FloorIs(r.out, r.rout * r.net, r.rin + r.net);
    }
  }

  /** A burn row is right exactly when its amount is the floor of lp * reserve over the supply. */
  lemma BurnedIsFloor(lp: int, reserve: int, supply: int, out: int)
    requires supply != 0
    ensures out == Burned(lp, reserve, supply) <==>
      && (supply > 0 ==> out * supply <= lp * reserve < (out + 1) * supply)
      && (supply < 0 ==> out * supply >= lp * reserve > (out + 1) * supply)
  {
    FloorIs(out, lp * reserve, supply);
  }

  // ---------------------------------------------------------------- one swap

  /** The output reserve after a swap is the exact ceiling of the old product over the new reserve. */
  lemma PostIsCeiling(rin: int, rout: int, net: int)
    requires rin + net != 0
    ensures rout - Out(rin, rout, net) == CeilDiv(rin * rout, rin + net)
  {
    var s := rin + net;
    assert rout * net == rout * s - rin * rout;
    FloorShift(rout, -(rin * rout), s);
  }

  /** Whole multiples of the divisor pass through flooring division. */
  lemma FloorShift(q: int, p: int, s: int)
    requires s != 0
    ensures FloorDiv(q * s + p, s) == q + FloorDiv(p, s)
  {
    if s > 0 {
      QuotientOf(p, s);
      var d := p / s;
      assert (q + d) * s == q * s + d * s && (q + d + 1) * s == q * s + (d + 1) * s;
      QuotientIs(q * s + p, s, q + d);
    } else {
      var d := (-p) / (-s);
      QuotientOf(-p, -s);
      assert (q + d) * -s == q * -s + d * -s && (q + d + 1) * -s == q * -s + (d + 1) * -s;
      assert -(q * s + p) == q * -s + -p;
      QuotientIs(-(q * s + p), -s, q + d);
    }
  }

  lemma CeilBounds(p: int, s: int)
    requires s != 0
    ensures s > 0 ==> CeilDiv(p, s) * s >= p && (CeilDiv(p, s) - 1) * s < p
    ensures s < 0 ==> CeilDiv(p, s) * s <= p && (CeilDiv(p, s) - 1) * s > p
  {
    var f := FloorDiv(-p, s);
    if s > 0 {
      QuotientOf(-p, s);
      assert -f * s == -(f * s) && (-f - 1) * s == -((f + 1) * s);
    } else {
      QuotientOf(p, -s);
      assert -f * s == f * -s && (-f - 1) * s == (f + 1) * -s;
    }
  }

  /** A multiple of a negative number inside the ceiling's bracket is the ceiling's own multiple. */
  lemma ExactMultiple(p: int, s: int, c: int)
    requires s < 0 && c * s <= p < (c - 1) * s
    ensures p % s == 0 <==> c * s == p
  {
    var d := p / s;
    assert p == d * s + p % s;
    if p % s == 0 {
      if d > c { MulOrder(c, d, -s); }
      if d < c { MulOrder(d, c - 1, -s); }
    }
    if c * s == p {
      var e := d - c;
      assert e * s + p % s == 0;
      if e > 0 { assert p % s == e * -s; MulOrder(0, e - 1, -s); }
      if e < 0 { MulOrder(e, 0, -s); }
    }
  }

  /**
   The oracle's product check after its recomputation: on a row it has recomputed, the product check
   passes exactly when the new input reserve is positive, or divides the old product.  Inside the
   declared domain it is therefore never what refuses a row.
   */
  lemma ProductCheckExactly(r: SwapRow)
    requires r.rin + Net(r.gross, r.rate) != 0 && Exact(r)
    ensures KeepsK(r) <==> r.rin + Net(r.gross, r.rate) > 0 || (r.rin * r.rout) % (r.rin + Net(r.gross, r.rate)) == 0
  {
    var s, p := r.rin + Net(r.gross, r.rate), r.rin * r.rout;
    PostIsCeiling(r.rin, r.rout, r.net);
    CeilBounds(p, s);
    assert r.postin * r.postout == r.postout * s;
    if s < 0 { ExactMultiple(p, s, r.postout); }
  }

  /** Outside the domain the product check does refuse a recomputed row. */
  lemma ProductCheckRefuses()
    ensures var r := SwapRow(1, 0, -3, 1, 0, 1, -1, -2, 2);
      r.rin + Net(r.gross, r.rate) != 0 && Exact(r) && !KeepsK(r)
  {
    assert Fee(1, 0) == 0 && Net(1, 0) == 1;
    assert Out(-3, 1, 1) == -1;
    hide Net;
    hide Out;
    hide Fee;
  }

  /** The fee never exceeds the amount, at any rate up to the scale. */
  lemma FeeBounds(gross: nat, rate: nat)
    requires rate <= FEE_SCALE
    ensures 0 <= Fee(gross, rate) <= gross && 0 <= Net(gross, rate) <= gross
  {
    MulBound(gross, rate, gross, FEE_SCALE);
  }

  /** Ceiling fees on parts add up to at least the fee on the whole. */
  lemma FeesAddUp(a: nat, b: nat, rate: nat)
    ensures Fee(a, rate) + Fee(b, rate) >= Fee(a + b, rate)
    ensures Net(a, rate) + Net(b, rate) <= Net(a + b, rate)
  {
    assert (a + b) * rate == a * rate + b * rate;
  }

  // ---------------------------------------------------------------- runs of swaps

  datatype Pool = Pool(x: int, y: int) {
    predicate Funded() { x >= 1 && y >= 1 }
    function K(): int { x * y }
  }

  /** One swap: `forward` pays x and takes y. */
  datatype Step = Step(forward: bool, gross: nat, rate: nat)

  predicate InScale(steps: seq<Step>) { forall i :: 0 <= i < |steps| ==> steps[i].rate <= FEE_SCALE }

  /** What a swap pays out. */
  function Paid(p: Pool, s: Step): int
    requires p.Funded() && s.rate <= FEE_SCALE
  {
    FeeBounds(s.gross, s.rate);
    if s.forward then Out(p.x, p.y, Net(s.gross, s.rate)) else Out(p.y, p.x, Net(s.gross, s.rate))
  }

  function After(p: Pool, s: Step): (q: Pool)
    requires p.Funded() && s.rate <= FEE_SCALE
    ensures q.Funded()
  {
    var net := Net(s.gross, s.rate);
    FeeBounds(s.gross, s.rate);
    OneSwap(if s.forward then p.x else p.y, if s.forward then p.y else p.x, net);
    if s.forward then Pool(p.x + net, p.y - Paid(p, s)) else Pool(p.x - Paid(p, s), p.y + net)
  }

  lemma OneSwap(rin: int, rout: int, net: int)
    requires rin >= 1 && rout >= 1 && net >= 0
    ensures var post := rout - Out(rin, rout, net);
      && 1 <= post <= rout
      && (rin + net) * post >= rin * rout
      && (rin + net) * (post - 1) < rin * rout
  {
    PostIsCeiling(rin, rout, net);
    CeilBounds(rin * rout, rin + net);
    CeilingRange(rin, rout, net, rout - Out(rin, rout, net));
  }

  lemma CeilingRange(rin: int, rout: int, net: int, post: int)
    requires rin >= 1 && rout >= 1 && net >= 0
    requires post * (rin + net) >= rin * rout > (post - 1) * (rin + net)
    ensures 1 <= post <= rout && (rin + net) * post >= rin * rout > (rin + net) * (post - 1)
  {
    var s := rin + net;
    MulBound(1, 1, rin, rout);
    MulBound(rin, rout, s, rout);
    if post <= 0 { MulOrder(post, 0, s); }
    if post > rout { MulOrder(rout, post - 1, s); }
  }

  /** Every swap keeps both reserves positive and the product from falling, and pays a natural amount. */
  lemma SwapKeeps(p: Pool, s: Step)
    requires p.Funded() && s.rate <= FEE_SCALE
    ensures After(p, s).Funded() && After(p, s).K() >= p.K() && 0 <= Paid(p, s)
  {
    FeeBounds(s.gross, s.rate);
    if s.forward { OneSwap(p.x, p.y, Net(s.gross, s.rate)); } else { OneSwap(p.y, p.x, Net(s.gross, s.rate)); }
    hide Out;
    hide Net;
  }

  /** What a swap did to the pool, as a row of the oracle in the swap's own direction. */
  function RowOf(p: Pool, s: Step, q: Pool): SwapRow {
    if s.forward
    then SwapRow(s.gross, s.rate, p.x, p.y, s.gross - (q.x - p.x), q.x - p.x, p.y - q.y, q.x, q.y)
    else SwapRow(s.gross, s.rate, p.y, p.x, s.gross - (q.y - p.y), q.y - p.y, p.x - q.x, q.y, q.x)
  }

  /** A swap leaves exactly the pool whose row is right. */
  lemma SwapIsRightRow(p: Pool, s: Step, q: Pool)
    requires p.Funded() && s.rate <= 10000
    ensures q == After(p, s) <==> RightRow(RowOf(p, s, q))
  {
    hide Fee;
    hide Out;
    FeeBounds(s.gross, s.rate);
    var r := RowOf(p, s, q);
    ExactIffRight(r);
    assert Exact(r) <==> q == After(p, s);
  }

  /** The pool after a run of swaps in either direction. */
  function Run(p: Pool, steps: seq<Step>): (q: Pool)
    requires p.Funded() && InScale(steps)
    ensures q.Funded()
    decreases |steps|
  {
    if steps == [] then p else Run(After(p, steps[0]), steps[1..])
  }

  /** A run is one swap after the other, in order, each on what the ones before it left. */
  lemma {:induction false} RunExtends(p: Pool, steps: seq<Step>, s: Step)
    requires p.Funded() && InScale(steps) && s.rate <= FEE_SCALE
    ensures InScale(steps + [s]) && Run(p, steps + [s]) == After(Run(p, steps), s)
    decreases |steps|
  {
    hide After;
    if steps == [] {
      assert (steps + [s])[1..] == [];
    } else {
      assert (steps + [s])[1..] == steps[1..] + [s];
      RunExtends(After(p, steps[0]), steps[1..], s);
    }
  }

  /** Over every run the product never falls and both reserves stay at least one. */
  lemma {:induction false} RunKeeps(p: Pool, steps: seq<Step>)
    requires p.Funded() && InScale(steps)
    ensures Run(p, steps).Funded() && Run(p, steps).K() >= p.K()
    decreases |steps|
  {
    hide After;
    hide Pool.K;
    if steps != [] {
      SwapKeeps(p, steps[0]);
      RunKeeps(After(p, steps[0]), steps[1..]);
    }
  }

  /** No run takes from one reserve without putting into the other. */
  lemma NothingForNothing(p: Pool, steps: seq<Step>)
    requires p.Funded() && InScale(steps)
    ensures var q := Run(p, steps); q.x <= p.x && q.y <= p.y ==> q == p
  {
    RunKeeps(p, steps);
    hide Run;
    SmallerProduct(Run(p, steps).x, Run(p, steps).y, p.x, p.y);
  }

  lemma SmallerProduct(a: int, b: int, x: int, y: int)
    requires 1 <= a <= x && 1 <= b <= y ==> a * b >= x * y
    requires x >= 1 && y >= 1
    ensures 1 <= a <= x && 1 <= b <= y ==> a == x && b == y
  {
    if 1 <= a <= x && 1 <= b <= y {
      MulBound(a, b, a, y);
      MulBound(a, b, x, b);
      MulOrder(a, x, y);
      MulOrder(b, y, x);
      assert x * b == b * x && x * y == y * x;
    }
  }

  /** Swapping in and swapping the proceeds straight back never returns more than was put in. */
  lemma OutAndBack(p: Pool, gross: nat, there: nat, back: nat)
    requires p.Funded() && there <= FEE_SCALE && back <= FEE_SCALE
    ensures var s := Step(true, gross, there);
      && 0 <= Paid(p, s) && After(p, s).Funded()
      && Paid(After(p, s), Step(false, Paid(p, s), back)) <= Net(gross, there) <= gross
  {
    var s := Step(true, gross, there);
    SwapKeeps(p, s);
    FeeBounds(gross, there);
    var q, out := After(p, s), Paid(p, s);
    var t := Step(false, out, back);
    SwapKeeps(q, t);
    FeeBounds(out, back);
    var net := Net(out, back);
    OneSwap(q.y, q.x, net);
    OneSwap(p.x, p.y, Net(gross, there));
    var r := After(q, t);
    // The output reserve is at most what it was, so the other one is at least what it was.
    assert r.y <= p.y;
    assert r.x * r.y >= p.x * p.y;
    if r.x < p.x { MulBound(r.x, r.y, r.x, p.y); MulOrder(r.x, p.x, p.y); }
  }

  // ---------------------------------------------------------------- splitting

  function Total(grosses: seq<nat>): nat {
    if grosses == [] then 0 else grosses[0] + Total(grosses[1..])
  }

  /** Consecutive forward swaps at one rate. */
  function Split(grosses: seq<nat>, rate: nat): (r: seq<Step>)
    ensures |r| == |grosses| && forall i :: 0 <= i < |r| ==> r[i] == Step(true, grosses[i], rate)
  {
    seq(|grosses|, i requires 0 <= i < |grosses| => Step(true, grosses[i], rate))
  }

  /** All the net amounts a split pays in are at most the net amount of the whole. */
  lemma {:induction false} SplitPaysIn(p: Pool, grosses: seq<nat>, rate: nat)
    requires p.Funded() && rate <= FEE_SCALE
    ensures Run(p, Split(grosses, rate)).x <= p.x + Net(Total(grosses), rate)
    decreases |grosses|
  {
    FeeBounds(Total(grosses), rate);
    if grosses != [] {
      var steps := Split(grosses, rate);
      var q := After(p, steps[0]);
      assert q.x == p.x + Net(grosses[0], rate);
      hide After;
      hide Net;
      assert steps[1..] == Split(grosses[1..], rate);
      SplitPaysIn(q, grosses[1..], rate);
      FeesAddUp(grosses[0], Total(grosses[1..]), rate);
    }
  }

  /** Splitting a swap into any number of consecutive swaps never pays more in total. */
  lemma SplittingNeverPays(p: Pool, grosses: seq<nat>, rate: nat)
    requires p.Funded() && rate <= FEE_SCALE
    ensures var whole := Step(true, Total(grosses), rate);
      p.y - Run(p, Split(grosses, rate)).y <= Paid(p, whole)
  {
    var whole := Step(true, Total(grosses), rate);
    var q := Run(p, Split(grosses, rate));
    RunKeeps(p, Split(grosses, rate));
    SplitPaysIn(p, grosses, rate);
    FeeBounds(Total(grosses), rate);
    var net := Net(Total(grosses), rate);
    OneSwap(p.x, p.y, net);
    var post, s := p.y - Paid(p, whole), p.x + net;
    if q.y < post {
      MulBound(q.x, q.y, s, post - 1);
    }
  }

  // ---------------------------------------------------------------- burning shares

  /** What burning `lp` of `supply` shares pays out of a reserve. */
  function Burned(lp: int, reserve: int, supply: int): int
    requires supply != 0
  {
    FloorDiv(lp * reserve, supply)
  }

  datatype Vault = Vault(reserve: nat, supply: nat)

  /** What a burn leaves in the reserve is the exact ceiling of the remaining shares' part. */
  lemma BurnLeaves(lp: nat, v: Vault)
    requires lp <= v.supply && v.supply > 0
    ensures var left := v.reserve - Burned(lp, v.reserve, v.supply);
      && 0 <= left <= v.reserve && left == CeilDiv(v.reserve * (v.supply - lp), v.supply)
      && left * v.supply >= v.reserve * (v.supply - lp)
      && (left - 1) * v.supply < v.reserve * (v.supply - lp)
  {
    var r, n, s := v.reserve, v.supply - lp, v.supply;
    assert lp * r == r * s + -(r * n) by { Difference(lp, n, r); }
    FloorShift(r, -(r * n), s);
    CeilBounds(r * n, s);
    MulBound(0, 0, r, n);
    MulBound(r, n, r, s);
    CeilingInside(CeilDiv(r * n, s), r, n, s);
  }

  lemma Difference(a: int, b: int, r: int)
    ensures a * r == r * (a + b) + -(r * b)
  {
  }

  lemma CeilingInside(c: int, r: int, n: int, s: int)
    requires s > 0 && 0 <= r * n <= r * s && c * s >= r * n && (c - 1) * s < r * n
    ensures 0 <= c <= r
  {
    if c < 0 { MulOrder(c, 0, s); }
    if c > r { MulOrder(r, c - 1, s); }
  }

  function Burn(v: Vault, lp: nat): (w: Vault)
    requires lp <= v.supply && v.supply > 0
  {
    BurnLeaves(lp, v);
    Vault(v.reserve - Burned(lp, v.reserve, v.supply), v.supply - lp)
  }

  /** Burns one after the other, within the supply; once it is exhausted a further burn is refused. */
  function BurnAll(v: Vault, lps: seq<nat>): Vault
    requires Total(lps) <= v.supply
    decreases |lps|
  {
    if lps == [] || v.supply == 0 then v else BurnAll(Burn(v, lps[0]), lps[1..])
  }

  lemma BurnKeeps(v: Vault, lp: nat)
    requires lp <= v.supply && v.supply > 0
    ensures var u := Burn(v, lp);
      u.supply == v.supply - lp && u.reserve * v.supply >= v.reserve * u.supply && (u.supply == 0 ==> u.reserve == 0)
  {
    BurnLeaves(lp, v);
    hide Burned;
    var u := Burn(v, lp);
    if u.supply == 0 && u.reserve > 0 { MulBound(0, 0, u.reserve - 1, v.supply); }
  }

  /** A share's part of the reserve never falls, and burning the whole supply pays out the whole reserve. */
  lemma {:induction false} SharesNeverFall(v: Vault, lps: seq<nat>)
    requires Total(lps) <= v.supply
    ensures var w := BurnAll(v, lps);
      && w.supply == v.supply - Total(lps) && w.reserve * v.supply >= v.reserve * w.supply
      && (w.supply == 0 < v.supply ==> w.reserve == 0)
    decreases |lps|
  {
    if lps != [] && v.supply > 0 {
      BurnKeeps(v, lps[0]);
      hide Burn;
      var u, w := Burn(v, lps[0]), BurnAll(v, lps);
      SharesNeverFall(u, lps[1..]);
      if u.supply > 0 { Cross(w.reserve, w.supply, u.reserve, u.supply, v.reserve, v.supply); }
      else { MulBound(0, 0, w.reserve, v.supply); }
    }
  }

  /** Comparing fractions is transitive. */
  lemma Cross(a: nat, b: nat, c: nat, d: nat, e: nat, f: nat)
    requires d > 0 && a * d >= c * b && c * f >= e * d
    ensures a * f >= e * b
  {
    assert a * d * f >= c * b * f by { MulBound(c * b, f, a * d, f); MulBound(0, 0, c, b); }
    assert c * f * b >= e * d * b by { MulBound(e * d, b, c * f, b); MulBound(0, 0, e, d); }
    assert c * b * f == c * f * b;
    assert a * d * f == a * f * d && e * d * b == e * b * d;
    if a * f < e * b { MulOrder(a * f, e * b, d); }
  }

  /** Burning in any number of parts never pays more than burning at once. */
  lemma BurningInPartsNeverPays(v: Vault, lps: seq<nat>)
    requires Total(lps) <= v.supply && v.supply > 0
    ensures v.reserve - BurnAll(v, lps).reserve <= Burned(Total(lps), v.reserve, v.supply)
  {
    SharesNeverFall(v, lps);
    BurnLeaves(Total(lps), v);
    var left := v.reserve - Burned(Total(lps), v.reserve, v.supply);
    var w := BurnAll(v, lps);
    hide BurnAll;
    hide Burned;
    MulOrder(w.reserve, left - 1, v.supply);
  }
}
