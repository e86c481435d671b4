/**
 The exhaustive comparison of two finite programs: an odometer that steps an input tuple in place,
 last input fastest, against the plain enumeration of the product of the input domains.
 */
module Odometer {
  import opened Ir
  import opened Wide

  function Size(d: Domain): int { d.max - d.min + 1 }

  predicate NonEmpty(ds: seq<Domain>) { forall i :: 0 <= i < |ds| ==> ds[i].min <= ds[i].max }

  /** The number of tuples. */
  function Product(ds: seq<Domain>): int {
    if ds == [] then 1 else Product(ds[..|ds| - 1]) * Size(ds[|ds| - 1])
  }

  /** The mixed-radix ordinal of a tuple, last input fastest. */
  function Rank(ds: seq<Domain>, xs: seq<int>): int
    requires |ds| == |xs|
  {
    if ds == [] then 0 else
      var k := |ds| - 1;
      Rank(ds[..k], xs[..k]) * Size(ds[k]) + (xs[k] - ds[k].min)
  }

  /** Every input at its minimum. */
  function First(ds: seq<Domain>): (xs: seq<int>)
    ensures |xs| == |ds| && forall i :: 0 <= i < |xs| ==> xs[i] == ds[i].min
  {
    seq(|ds|, i requires 0 <= i < |ds| => ds[i].min)
  }

  // ---------------------------------------------------------------- the plain enumeration

  /** One tuple extended by every value of a domain. */
  function Row(x: seq<int>, d: Domain): (r: seq<seq<int>>)
    requires d.min <= d.max
    ensures |r| == Size(d) && forall j :: 0 <= j < |r| ==> r[j] == x + [d.min + j]
  {
    seq(Size(d), j => x + [d.min + j])
  }

  /** All tuples so far, each extended by every value. */
  function Extend(ps: seq<seq<int>>, d: Domain): seq<seq<int>>
    requires d.min <= d.max
  {
    if ps == [] then [] else Row(ps[0], d) + Extend(ps[1..], d)
  }

  /** The product of the domains, in the order of nested loops over the inputs. */
  function Points(ds: seq<Domain>): seq<seq<int>>
    requires NonEmpty(ds)
  {
    if ds == [] then [[]] else Extend(Points(ds[..|ds| - 1]), ds[|ds| - 1])
  }

  lemma {:induction false} ExtendAt(ps: seq<seq<int>>, d: Domain, i: nat, j: nat)
    requires d.min <= d.max && i < |ps| && j < Size(d)
    ensures |Extend(ps, d)| == |ps| * Size(d)
    ensures 0 <= i * Size(d) + j < |ps| * Size(d)
    ensures Extend(ps, d)[i * Size(d) + j] == ps[i] + [d.min + j]
  {
    var w := Size(d);
    ExtendLength(ps, d);
    Position(i, j, |ps|, w);
    if i > 0 {
      ExtendAt(ps[1..], d, i - 1, j);
      assert i * w + j == w + ((i - 1) * w + j);
    }
  }

  lemma {:induction false} ExtendLength(ps: seq<seq<int>>, d: Domain)
    requires d.min <= d.max
    ensures |Extend(ps, d)| == |ps| * Size(d)
  {
    if ps != [] {
      ExtendLength(ps[1..], d);
      assert |ps| * Size(d) == Size(d) + (|ps| - 1) * Size(d);
    }
  }

  lemma Position(i: int, j: int, n: int, w: int)
    requires 0 <= i < n && 0 <= j < w
    ensures 0 <= i * w + j < n * w
  {
    MulBound(i, w, n - 1, w);
    assert n * w == (n - 1) * w + w;
  }

  /** Taking the last input apart. */
  lemma Last(ds: seq<Domain>, xs: seq<int>)
    requires |ds| == |xs| > 0
    ensures var k := |ds| - 1;
      && (InDomains(ds, xs) <==> InDomains(ds[..k], xs[..k]) && ds[k].Has(xs[k]))
      && (NonEmpty(ds) <==> NonEmpty(ds[..k]) && ds[k].min <= ds[k].max)
      && xs == xs[..k] + [xs[k]]
  {
    var k := |ds| - 1;
    hide Domain.Has;
    DomainsStep(ds, xs);
    if NonEmpty(ds[..k]) && ds[k].min <= ds[k].max {
      forall i | 0 <= i < |ds|
        ensures ds[i].min <= ds[i].max
      {
        if i < k { assert ds[..k][i] == ds[i]; }
      }
    }
  }

  /** A tuple stands at its rank in the plain enumeration. */
  lemma {:induction false} PointAtRank(ds: seq<Domain>, xs: seq<int>)
    requires NonEmpty(ds) && InDomains(ds, xs)
    ensures |Points(ds)| == Product(ds)
    ensures 0 <= Rank(ds, xs) < Product(ds) && Points(ds)[Rank(ds, xs)] == xs
  {
    if ds != [] {
      var k := |ds| - 1;
      var d, init := ds[k], ds[..k];
      Last(ds, xs);
      hide InDomains;
      hide Extend;
      PointAtRank(init, xs[..k]);
      ExtendAt(Points(init), d, Rank(init, xs[..k]), xs[k] - d.min);
    }
  }

  lemma {:induction false} RankBounds(ds: seq<Domain>, xs: seq<int>)
    requires InDomains(ds, xs)
    ensures 0 <= Rank(ds, xs) < Product(ds)
  {
    if ds != [] {
      var k := |ds| - 1;
      Last(ds, xs);
      hide InDomains;
      RankBounds(ds[..k], xs[..k]);
      Position(Rank(ds[..k], xs[..k]), xs[k] - ds[k].min, Product(ds[..k]), Size(ds[k]));
    }
  }

  /** Every position of the plain enumeration holds a tuple of that rank: ranks are a bijection. */
  lemma {:induction false} RankOfPoint(ds: seq<Domain>, n: nat)
    requires NonEmpty(ds) && n < Product(ds)
    ensures |Points(ds)| == Product(ds)
    ensures InDomains(ds, Points(ds)[n]) && Rank(ds, Points(ds)[n]) == n
  {
    if ds != [] {
      var k := |ds| - 1;
      var d, init := ds[k], ds[..k];
      var w := Size(d);
      var i, j := n / w, n % w;
      assert n == i * w + j;
      QuotientOf(n, w);
      if i >= Product(init) { MulOrder(Product(init), i, w); }
      RankOfPoint(init, i);
      ExtendAt(Points(init), d, i, j);
      var xs := Points(ds)[n];
      assert xs == Points(init)[i] + [d.min + j];
      assert xs[..k] == Points(init)[i];
      Last(ds, xs);
    }
  }

  /** The order of nested loops: the first input that differs decides. */
  predicate Precedes(x: seq<int>, y: seq<int>) {
    |x| == |y| && exists k :: 0 <= k < |x| && x[k] < y[k] && x[..k] == y[..k]
  }

  lemma {:induction false} SomePrecedes(x: seq<int>, y: seq<int>)
    requires |x| == |y| && x != y
    ensures Precedes(x, y) || Precedes(y, x)
    decreases |x|
  {
    var k := |x| - 1;
    if x[..k] == y[..k] {
      assert x == x[..k] + [x[k]] && y == y[..k] + [y[k]];
      assert x[k] < y[k] || y[k] < x[k];
    } else {
      SomePrecedes(x[..k], y[..k]);
      PrecedesLonger(x, y);
      PrecedesLonger(y, x);
    }
  }

  lemma PrecedesLonger(x: seq<int>, y: seq<int>)
    requires |x| == |y| > 0
    ensures var k := |x| - 1; Precedes(x, y) <==> Precedes(x[..k], y[..k]) || (x[..k] == y[..k] && x[k] < y[k])
  {
    var k := |x| - 1;
    var x', y' := x[..k], y[..k];
    if Precedes(x', y') {
      var j :| 0 <= j < k && x'[j] < y'[j] && x'[..j] == y'[..j];
      assert x'[..j] == x[..j] && y'[..j] == y[..j];
      assert x[j] < y[j];
    }
    if Precedes(x, y) {
      var j :| 0 <= j < |x| && x[j] < y[j] && x[..j] == y[..j];
      if j < k {
        assert x'[..j] == x[..j] && y'[..j] == y[..j];
        assert x'[j] < y'[j];
      }
    }
  }

  lemma {:induction false} RankFollows(ds: seq<Domain>, x: seq<int>, y: seq<int>)
    requires InDomains(ds, x) && InDomains(ds, y) && Precedes(x, y)
    ensures Rank(ds, x) < Rank(ds, y)
  {
    var k := |ds| - 1;
    Last(ds, x);
    Last(ds, y);
    PrecedesLonger(x, y);
    hide InDomains;
    hide Precedes;
    if x[..k] != y[..k] {
      RankFollows(ds[..k], x[..k], y[..k]);
      var w := Size(ds[k]);
      RankGap(Rank(ds[..k], x[..k]), Rank(ds[..k], y[..k]), x[k] - ds[k].min, y[k] - ds[k].min, w);
    }
  }

  lemma RankGap(a: int, b: int, i: int, j: int, w: int)
    requires a < b && 0 <= i < w && 0 <= j
    ensures a * w + i < b * w + j
  {
    MulOrder(a, b - 1, w);
    assert (b - 1) * w == b * w - w;
  }

  /** The plain enumeration holds exactly the tuples of the domains, each after those that precede it. */
  lemma PointsAscend(ds: seq<Domain>)
    requires NonEmpty(ds)
    ensures forall xs: seq<int> :: xs in Points(ds) <==> InDomains(ds, xs)
    ensures forall i, j :: 0 <= i < j < |Points(ds)| ==> Precedes(Points(ds)[i], Points(ds)[j])
  {
    var ps := Points(ds);
    PointAtRank(ds, First(ds));
    hide Points;
    forall i | 0 <= i < |ps|
      ensures InDomains(ds, ps[i]) && Rank(ds, ps[i]) == i
    {
      RankOfPoint(ds, i);
    }
    forall xs: seq<int> | InDomains(ds, xs)
      ensures xs in ps
    {
      PointAtRank(ds, xs);
    }
    hide InDomains;
    forall i, j | 0 <= i < j < |ps|
      ensures Precedes(ps[i], ps[j])
    {
      Lengths(ds, ps[i], ps[j]);
      SomePrecedes(ps[i], ps[j]);
      if Precedes(ps[j], ps[i]) { RankFollows(ds, ps[j], ps[i]); }
    }
  }

  lemma Lengths(ds: seq<Domain>, x: seq<int>, y: seq<int>)
    requires InDomains(ds, x) && InDomains(ds, y)
    ensures |x| == |y| == |ds|
  {
  }

  lemma {:induction false} ProductPositive(ds: seq<Domain>)
    requires NonEmpty(ds)
    ensures Product(ds) >= 1
  {
    if ds != [] {
      ProductPositive(ds[..|ds| - 1]);
      MulBound(1, 1, Product(ds[..|ds| - 1]), Size(ds[|ds| - 1]));
    }
  }

  lemma {:induction false} FirstRank(ds: seq<Domain>)
    ensures Rank(ds, First(ds)) == 0
  {
    if ds != [] {
      FirstRank(ds[..|ds| - 1]);
      assert First(ds)[..|ds| - 1] == First(ds[..|ds| - 1]);
    }
  }

  // ---------------------------------------------------------------- the odometer

  /** The successor of a tuple, and whether there is one; after the last tuple comes the first. */
  function Advanced(ds: seq<Domain>, xs: seq<int>): (r: (seq<int>, bool))
    requires |ds| == |xs|
    ensures |r.0| == |xs|
  {
    if ds == [] then ([], false) else
      var k := |ds| - 1;
      if xs[k] < ds[k].max then (xs[k := xs[k] + 1], true)
      else var r := Advanced(ds[..k], xs[..k]); (r.0 + [ds[k].min], r.1)
  }

  /** The carry: a full last digit resets and raises the rest by one. */
  lemma Carry(a: int, n: int, w: int)
    requires 0 <= a < n && w >= 1
    ensures (a + 1) * w == a * w + (w - 1) + 1
    ensures a + 1 < n ==> a * w + (w - 1) + 1 < n * w
    ensures a + 1 == n ==> a * w + (w - 1) == n * w - 1
  {
    if a + 1 < n { MulOrder(a + 1, n, w); }
  }

  /** Each step raises the rank by exactly one, and stops exactly after the last tuple. */
  lemma {:induction false} AdvancedRank(ds: seq<Domain>, xs: seq<int>)
    requires InDomains(ds, xs)
    ensures var r := Advanced(ds, xs);
      && InDomains(ds, r.0)
      && (r.1 <==> Rank(ds, xs) + 1 < Product(ds))
      && (r.1 ==> Rank(ds, r.0) == Rank(ds, xs) + 1)
      && (!r.1 ==> r.0 == First(ds) && Rank(ds, xs) == Product(ds) - 1)
  {
    if ds != [] {
      var k := |ds| - 1;
      var init, d, r := ds[..k], ds[k], Advanced(ds, xs);
      var w := Size(d);
      Last(ds, xs);
      Last(ds, r.0);
      hide InDomains;
      RankBounds(init, xs[..k]);
      var a, n := Rank(init, xs[..k]), Product(init);
      if xs[k] < d.max {
        assert r.0[..k] == xs[..k];
        Position(a, xs[k] + 1 - d.min, n, w);
      } else {
        AdvancedRank(init, xs[..k]);
        assert r.0[..k] == Advanced(init, xs[..k]).0;
        assert First(ds) == First(init) + [d.min];
        Carry(a, n, w);
      }
    }
  }

  /** What the step computes once positions from `p` on hold their final values `rest`. */
  function Joined(fs: seq<Domain>, xs: seq<int>, p: nat, rest: seq<int>): (seq<int>, bool)
    requires |fs| == |xs| && p <= |fs|
  {
    var r := Advanced(fs[..p], xs[..p]);
    (r.0 + rest, r.1)
  }

  lemma JoinedEnds(fs: seq<Domain>, xs: seq<int>, rest: seq<int>)
    requires |fs| == |xs|
    ensures Joined(fs, xs, |fs|, []) == Advanced(fs, xs)
    ensures Joined(fs, xs, 0, rest) == (rest, false)
  {
    assert fs[..|fs|] == fs && xs[..|fs|] == xs;
    assert Advanced(fs, xs).0 + [] == Advanced(fs, xs).0;
    assert [] + rest == rest;
  }

  lemma JoinedStep(fs: seq<Domain>, xs: seq<int>, p: nat, rest: seq<int>)
    requires |fs| == |xs| && 0 < p <= |fs|
    ensures Joined(fs, xs, p, rest) ==
      if xs[p - 1] < fs[p - 1].max then (xs[..p - 1] + [xs[p - 1] + 1] + rest, true)
      else Joined(fs, xs, p - 1, [fs[p - 1].min] + rest)
  {
    var k := p - 1;
    assert fs[..p][..k] == fs[..k] && xs[..p][..k] == xs[..k];
    if xs[k] < fs[k].max {
      assert xs[..p][k := xs[k] + 1] == xs[..k] + [xs[k] + 1];
    } else {
      var a := Advanced(fs[..k], xs[..k]).0;
      assert a + [fs[k].min] + rest == a + ([fs[k].min] + rest);
    }
  }

  /** The in-place step.  Only as many positions as both the tuple and the domains have take part. */
  method Advance(ds: seq<Domain>, tuple: array<int>) returns (more: bool)
    modifies tuple
    ensures var n := if tuple.Length < |ds| then tuple.Length else |ds|;
      && (tuple[..n], more) == Advanced(ds[..n], old(tuple[..n]))
      && tuple[n..] == old(tuple[n..])
  {
    hide Joined;
    hide Advanced;
    var n := if tuple.Length < |ds| then tuple.Length else |ds|;
    var position := n;
    ghost var xs, fs := tuple[..n], ds[..n];
    JoinedEnds(fs, xs, []);
    assert tuple[n..n] == [];
    while position > 0
      invariant 0 <= position <= n
      invariant tuple[..position] == xs[..position] && tuple[n..] == old(tuple[n..])
      invariant Advanced(fs, xs) == Joined(fs, xs, position, tuple[position..n])
      decreases position
    {
      ghost var rest := tuple[position..n];
      JoinedStep(fs, xs, position, rest);
      position := position - 1;
      assert tuple[position] == tuple[..position + 1][position] == xs[position];
      if tuple[position] < ds[position].max {
        tuple[position] := tuple[position] + 1;
        assert tuple[..n] == xs[..position] + [xs[position] + 1] + rest;
        return true;
      }
      tuple[position] := ds[position].min;
      assert tuple[position..n] == [ds[position].min] + rest;
    }
    JoinedEnds(fs, xs, tuple[0..n]);
    assert tuple[..n] == tuple[0..n];
    return false;
  }
}
