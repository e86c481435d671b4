/**
 The example policies of a capture session over a complete reference table: which ordinals a
 candidate gets wrong, the precheck over selected examples, the farthest counterexample, and the
 outcomes of every selection computed from the eager node prefix.
 */
module Policy {
  import opened Patterns
  import opened Ir
  import opened Kinds
  import opened Odometer

  datatype Table = Table(inputs: seq<Domain>, outputs: seq<Domain>, rows: seq<seq<int>>)

  /** One successful row per point, every value in its output domain. */
  predicate Complete(w: Width, t: Table) {
    && w.least <= 0 && 1 <= w.most
    && Declared(w, t.inputs) && Declared(w, t.outputs) && NonEmpty(t.inputs)
    && |t.rows| == |Points(t.inputs)|
    && forall i :: 0 <= i < |t.rows| ==> InDomains(t.outputs, t.rows[i])
  }

  /** A candidate that passes its kind check and declares the table's interface. */
  predicate Admitted(w: Width, t: Table, p: Program) {
    && Checked(w, p) && p.inputs == t.inputs && p.outputs == t.outputs
    && (CheckedScoped(w, p); WellScoped(p))
  }

  function PointAt(t: Table, i: nat): (x: seq<int>)
    requires NonEmpty(t.inputs) && i < |Points(t.inputs)|
    ensures InDomains(t.inputs, x) && Rank(t.inputs, x) == i
  {
    PointsLength(t.inputs);
    RankOfPoint(t.inputs, i);
    Points(t.inputs)[i]
  }

  lemma PointsLength(ds: seq<Domain>)
    requires NonEmpty(ds)
    ensures |Points(ds)| == Product(ds) >= 1
  {
    ProductPositive(ds);
    RankOfPoint(ds, 0);
  }

  /** The candidate succeeds at this point with the table's row. */
  predicate Matches(w: Width, t: Table, p: Program, i: nat)
    requires Complete(w, t) && Admitted(w, t, p) && i < |t.rows|
  {
    Eval(w, p, PointAt(t, i)) == Some(t.rows[i])
  }

  // ---------------------------------------------------------------- failing ordinals

  /** The failing ordinals below `n`, ascending. */
  function BadBelow(w: Width, t: Table, p: Program, n: nat): seq<nat>
    requires Complete(w, t) && Admitted(w, t, p) && n <= |t.rows|
  {
    if n == 0 then [] else
      BadBelow(w, t, p, n - 1) + if Matches(w, t, p, n - 1) then [] else [n - 1]
  }

  function Bad(w: Width, t: Table, p: Program): (r: seq<nat>)
    requires Complete(w, t) && Admitted(w, t, p)
    ensures Ordinals(t, r)
  {
    BadOrdinals(w, t, p);
    BadBelow(w, t, p, |t.rows|)
  }

  lemma BadOrdinals(w: Width, t: Table, p: Program)
    requires Complete(w, t) && Admitted(w, t, p)
    ensures Ordinals(t, BadBelow(w, t, p, |t.rows|))
  {
    hide Points;
    hide Admitted;
    hide Matches;
    hide Declared;
    BadBelowIs(w, t, p, |t.rows|);
    var bad := BadBelow(w, t, p, |t.rows|);
    hide BadBelow;
    forall k | 0 <= k < |bad|
      ensures bad[k] < |Points(t.inputs)|
    {
      assert bad[k] in bad;
    }
  }

  predicate Ascending(s: seq<nat>) { forall i, j :: 0 <= i < j < |s| ==> s[i] < s[j] }

  lemma {:induction false} BadBelowIs(w: Width, t: Table, p: Program, n: nat)
    requires Complete(w, t) && Admitted(w, t, p) && n <= |t.rows|
    ensures Ascending(BadBelow(w, t, p, n))
    ensures forall i: nat :: i in BadBelow(w, t, p, n) <==> i < n && !Matches(w, t, p, i)
  {
    hide Complete;
    hide Admitted;
    hide Matches;
    if n > 0 {
      BadBelowIs(w, t, p, n - 1);
      var rest := BadBelow(w, t, p, n - 1);
      forall k | 0 <= k < |rest|
        ensures rest[k] < n - 1
      {
        assert rest[k] in rest;
      }
    }
  }

  lemma BadIs(w: Width, t: Table, p: Program, i: nat)
    requires Complete(w, t) && Admitted(w, t, p)
    ensures i in Bad(w, t, p) <==> i < |t.rows| && !Matches(w, t, p, i)
    ensures Ascending(Bad(w, t, p))
  {
    BadBelowIs(w, t, p, |t.rows|);
  }

  /** The exact verdict: the candidate matches every row. */
  predicate Replay(w: Width, t: Table, p: Program)
    requires Complete(w, t) && Admitted(w, t, p)
  {
    forall i :: 0 <= i < |t.rows| ==> Matches(w, t, p, i)
  }

  /** The row the table gives a tuple of its domain. */
  function RowOf(w: Width, t: Table, xs: seq<int>): seq<int>
    requires Complete(w, t) && InDomains(t.inputs, xs)
  {
    PointAtRank(t.inputs, xs);
    t.rows[Rank(t.inputs, xs)]
  }

  /** No failing ordinal, a positive replay, and computing the table on the whole domain are one thing. */
  lemma NoneBadIffReplay(w: Width, t: Table, p: Program)
    requires Complete(w, t) && Admitted(w, t, p)
    ensures Bad(w, t, p) == [] <==> Replay(w, t, p)
    ensures Replay(w, t, p) <==>
      forall xs: seq<int> :: InDomains(t.inputs, xs) ==> Eval(w, p, xs) == Some(RowOf(w, t, xs))
  {
    hide Points;
    hide Rank;
    hide Eval;
    hide Bad;
    hide Declared;
    assert WellScoped(p);
    hide WellScoped;
    hide Checked;
    if Bad(w, t, p) == [] {
      forall i | 0 <= i < |t.rows|
        ensures Matches(w, t, p, i)
      {
        BadIs(w, t, p, i);
      }
    }
    if Replay(w, t, p) {
      if Bad(w, t, p) != [] {
        var i := Bad(w, t, p)[0];
        assert i in Bad(w, t, p);
        BadIs(w, t, p, i);
      }
      forall xs: seq<int> | InDomains(t.inputs, xs)
        ensures Eval(w, p, xs) == Some(RowOf(w, t, xs))
      {
        PointAtRank(t.inputs, xs);
        assert Matches(w, t, p, Rank(t.inputs, xs));
      }
    }
    if forall xs: seq<int> :: InDomains(t.inputs, xs) ==> Eval(w, p, xs) == Some(RowOf(w, t, xs)) {
      forall i | 0 <= i < |t.rows|
        ensures Matches(w, t, p, i)
      {
        assert InDomains(t.inputs, PointAt(t, i));
      }
    }
  }

  // ---------------------------------------------------------------- precheck

  /** The first selected example the candidate gets wrong. */
  function Precheck(w: Width, t: Table, p: Program, examples: seq<nat>): (r: Option<nat>)
    requires Complete(w, t) && Admitted(w, t, p)
    requires forall k :: 0 <= k < |examples| ==> examples[k] < |t.rows|
  {
    if examples == [] then None
    else if !Matches(w, t, p, examples[0]) then Some(examples[0])
    else Precheck(w, t, p, examples[1..])
  }

  predicate AllBefore(w: Width, t: Table, p: Program, examples: seq<nat>, k: nat)
    requires Complete(w, t) && Admitted(w, t, p) && k <= |examples|
    requires forall j :: 0 <= j < |examples| ==> examples[j] < |t.rows|
  {
    forall j :: 0 <= j < k ==> Matches(w, t, p, examples[j])
  }

  /** It passes exactly when every selected example is matched, and names the first that is not. */
  lemma {:induction false} PrecheckIs(w: Width, t: Table, p: Program, examples: seq<nat>)
    requires Complete(w, t) && Admitted(w, t, p)
    requires forall k :: 0 <= k < |examples| ==> examples[k] < |t.rows|
    ensures var r := Precheck(w, t, p, examples);
      && (r.None? <==> forall k :: 0 <= k < |examples| ==> Matches(w, t, p, examples[k]))
      && (r.Some? ==> r.value in examples && r.value < |t.rows| && !Matches(w, t, p, r.value))
      && (r.Some? ==> exists k :: 0 <= k < |examples| && r.value == examples[k] && AllBefore(w, t, p, examples, k))
  {
    hide Complete;
    hide Admitted;
    hide Matches;
    if examples != [] && Matches(w, t, p, examples[0]) {
      PrecheckIs(w, t, p, examples[1..]);
      var rest := examples[1..];
      var r := Precheck(w, t, p, rest);
      if r.Some? {
        var k :| 0 <= k < |rest| && r.value == rest[k] && AllBefore(w, t, p, rest, k);
        assert r.value == examples[k + 1] && AllBefore(w, t, p, examples, k + 1) by {
          forall j | 0 <= j < k + 1
            ensures Matches(w, t, p, examples[j])
          {
            if j > 0 { assert rest[j - 1] == examples[j]; }
          }
        }
      }
      if forall k :: 0 <= k < |rest| ==> Matches(w, t, p, rest[k]) {
        forall k | 0 <= k < |examples|
          ensures Matches(w, t, p, examples[k])
        {
          if k > 0 { assert rest[k - 1] == examples[k]; }
        }
      }
      if forall k :: 0 <= k < |examples| ==> Matches(w, t, p, examples[k]) {
        forall k | 0 <= k < |rest|
          ensures Matches(w, t, p, rest[k])
        {
          assert rest[k] == examples[k + 1];
        }
      }
    }
  }

  // ---------------------------------------------------------------- farthest failure

  function Abs(z: int): nat { if z < 0 then -z else z }

  /** The sum of coordinate distances. */
  function Distance(x: seq<int>, y: seq<int>): nat
    requires |x| == |y|
  {
    if x == [] then 0 else Abs(x[0] - y[0]) + Distance(x[1..], y[1..])
  }

  /** Moving one coordinate changes the distance by what it changes that coordinate's own distance. */
  lemma {:induction false} DistanceMoves(x: seq<int>, y: seq<int>, i: nat, v: int)
    requires |x| == |y| && i < |x|
    ensures Distance(x[i := v], y) - Distance(x, y) == Abs(v - y[i]) - Abs(x[i] - y[i])
  {
    var z := x[i := v];
    if i == 0 {
      assert z[1..] == x[1..];
    } else {
      assert z[1..] == x[1..][i - 1 := v] && x[1..][i - 1] == x[i] && y[1..][i - 1] == y[i];
      DistanceMoves(x[1..], y[1..], i - 1, v);
    }
  }

  /** It is zero exactly between equal tuples, and the same in either direction. */
  lemma {:induction false} DistanceIsMetric(x: seq<int>, y: seq<int>)
    requires |x| == |y|
    ensures Distance(x, y) == 0 <==> x == y
    ensures Distance(x, y) == Distance(y, x)
  {
    if x != [] {
      DistanceIsMetric(x[1..], y[1..]);
      assert x == [x[0]] + x[1..] && y == [y[0]] + y[1..];
    }
  }

  /** The distance of a point from the anchor; without an anchor all are equal. */
  function Far(t: Table, anchor: Option<nat>, i: nat): nat
    requires NonEmpty(t.inputs) && i < |Points(t.inputs)| && (anchor.Some? ==> anchor.value < |Points(t.inputs)|)
  {
    if anchor.None? then 0 else Distance(PointAt(t, i), PointAt(t, anchor.value))
  }

  /** `i` is preferred to `j`: farther, or as far and of a lower ordinal. */
  predicate Preferred(t: Table, anchor: Option<nat>, i: nat, j: nat)
    requires NonEmpty(t.inputs) && i < |Points(t.inputs)| && j < |Points(t.inputs)|
    requires anchor.Some? ==> anchor.value < |Points(t.inputs)|
  {
    Far(t, anchor, i) > Far(t, anchor, j) || (Far(t, anchor, i) == Far(t, anchor, j) && i <= j)
  }

  predicate Ordinals(t: Table, s: seq<nat>)
    requires NonEmpty(t.inputs)
  {
    forall k :: 0 <= k < |s| ==> s[k] < |Points(t.inputs)|
  }

  /** The chosen failing ordinal. */
  method Choose(t: Table, bad: seq<nat>, anchor: Option<nat>) returns (r: Option<nat>)
    requires NonEmpty(t.inputs) && Ordinals(t, bad)
    requires anchor.Some? ==> anchor.value < |Points(t.inputs)|
    ensures r == Chosen(t, bad, anchor)
  {
    r := None;
    var n := 0;
    hide Far;
    hide Points;
    while n < |bad|
      invariant n <= |bad| && Ordinals(t, bad[..n])
      invariant r == Chosen(t, bad[..n], anchor)
    {
      assert bad[..n + 1][..n] == bad[..n];
      assert Ordinals(t, bad[..n + 1]);
      ChosenIs(t, bad[..n], anchor);
      if r.None? || !Preferred(t, anchor, r.value, bad[n]) { r := Some(bad[n]); }
      n := n + 1;
    }
    assert bad[..n] == bad;
  }

  function Chosen(t: Table, bad: seq<nat>, anchor: Option<nat>): (r: Option<nat>)
    requires NonEmpty(t.inputs) && Ordinals(t, bad)
    requires anchor.Some? ==> anchor.value < |Points(t.inputs)|
    ensures r.Some? ==> r.value in bad
    ensures r.Some? <==> bad != []
  {
    if bad == [] then None else
      var k := |bad| - 1;
      var best := Chosen(t, bad[..k], anchor);
      if best.Some? && Preferred(t, anchor, best.value, bad[k]) then best else Some(bad[k])
  }

  /** A failing ordinal preferred to every failing ordinal. */
  predicate Farthest(t: Table, bad: seq<nat>, anchor: Option<nat>, c: nat)
    requires NonEmpty(t.inputs) && Ordinals(t, bad)
    requires anchor.Some? ==> anchor.value < |Points(t.inputs)|
  {
    c in bad && forall k :: 0 <= k < |bad| ==> Preferred(t, anchor, c, bad[k])
  }

  /** The choice is the farthest failure with the least ordinal, and the only such one. */
  lemma {:induction false} ChosenIs(t: Table, bad: seq<nat>, anchor: Option<nat>)
    requires NonEmpty(t.inputs) && Ordinals(t, bad)
    requires anchor.Some? ==> anchor.value < |Points(t.inputs)|
    ensures forall c: nat :: Chosen(t, bad, anchor) == Some(c) <==> Farthest(t, bad, anchor, c)
  {
    hide Far;
    hide Points;
    hide NonEmpty;
    if bad != [] {
      var k := |bad| - 1;
      var rest := bad[..k];
      ChosenIs(t, rest, anchor);
      var c := Chosen(t, bad, anchor).value;
      assert Farthest(t, bad, anchor, c) by {
        forall j | 0 <= j < |bad|
          ensures Preferred(t, anchor, c, bad[j])
        {
          if j < k {
            assert rest[j] == bad[j];
            assert Farthest(t, rest, anchor, Chosen(t, rest, anchor).value);
          }
        }
      }
      forall d: nat | Farthest(t, bad, anchor, d)
        ensures d == c
      {
        var j :| 0 <= j < |bad| && bad[j] == d;
        var i :| 0 <= i < |bad| && bad[i] == c;
        assert Preferred(t, anchor, d, bad[i]) && Preferred(t, anchor, c, bad[j]);
      }
    }
  }

  /** Seen from the point of `a`, `i` is farther than `j`, or as far and not later. */
  predicate Beats(t: Table, a: nat, i: nat, j: nat)
    requires NonEmpty(t.inputs) && a < |Points(t.inputs)| && i < |Points(t.inputs)| && j < |Points(t.inputs)|
  {
    var p, q, z := PointAt(t, i), PointAt(t, j), PointAt(t, a);
    Distance(p, z) > Distance(q, z) || (Distance(p, z) == Distance(q, z) && i <= j)
  }

  /** With no anchor the least failing ordinal is chosen; with one, the farthest from it, the least of equals. */
  lemma ChosenMeans(t: Table, bad: seq<nat>, anchor: Option<nat>, c: nat)
    requires NonEmpty(t.inputs) && Ordinals(t, bad) && (anchor.Some? ==> anchor.value < |Points(t.inputs)|)
    ensures anchor.None? ==> (Chosen(t, bad, anchor) == Some(c) <==> c in bad && forall j :: j in bad ==> c <= j)
    ensures anchor.Some? ==>
      (Chosen(t, bad, anchor) == Some(c) <==> c in bad && forall j :: j in bad ==> Beats(t, anchor.value, c, j))
  {
    hide Points;
    hide NonEmpty;
    ChosenIs(t, bad, anchor);
    hide Chosen;
    if c in bad {
      assert Farthest(t, bad, anchor, c) <==> forall j :: j in bad ==> Preferred(t, anchor, c, j);
    }
  }

  // ---------------------------------------------------------------- selection outcomes

  const BOOLEAN := Domain(true, 0, 1)

  predicate IsSelect(p: Program, j: nat) { j < |p.nodes| && p.nodes[j].Apply? && p.nodes[j].code.Select? }

  /** The program that computes only the condition of the selection at `j`. */
  function ConditionOf(w: Width, p: Program, j: nat): (q: Program)
    requires Checked(w, p) && IsSelect(p, j)
    ensures Checked(w, q) && WellScoped(q) && q.inputs == p.inputs
  {
    var q := Program(p.inputs, [BOOLEAN], p.nodes[..j], [ConditionRef(w, p, j)]);
    PrefixKinds(w, p.inputs, p.nodes, j);
    NodeKind(w, p.inputs, p.nodes, j);
    CheckedScoped(w, q);
    q
  }

  function ConditionRef(w: Width, p: Program, j: nat): (c: nat)
    requires Checked(w, p) && IsSelect(p, j)
    ensures c < j && |p.nodes[j].args| == 3 && c == p.nodes[j].args[0] && KindsOf(w, p.inputs, p.nodes).value[c]
  {
    NodeKind(w, p.inputs, p.nodes, j);
    p.nodes[j].args[0]
  }

  /** The outcome of the selection's condition at an input, if the nodes before it succeed. */
  predicate HasOutcome(w: Width, p: Program, j: nat, o: int, xs: seq<int>)
    requires Checked(w, p) && IsSelect(p, j)
  {
    Eval(w, ConditionOf(w, p, j), xs) == Some([o])
  }

  /** At an input of the domain, exactly one outcome is seen when the prefix succeeds, and none otherwise. */
  lemma OutcomeOfPrefix(w: Width, p: Program, j: nat, xs: seq<int>)
    requires w.least <= 0 && 1 <= w.most && Declared(w, p.inputs) && InDomains(p.inputs, xs)
    requires Checked(w, p) && IsSelect(p, j) && Scoped(p.nodes[..j], |xs|)
    ensures NodeValues(w, p.nodes[..j], xs).Some? <==> HasOutcome(w, p, j, 0, xs) || HasOutcome(w, p, j, 1, xs)
    ensures !(HasOutcome(w, p, j, 0, xs) && HasOutcome(w, p, j, 1, xs))
    ensures forall o :: HasOutcome(w, p, j, o, xs) ==>
      && (o == 0 || o == 1) && NodeValues(w, p.nodes[..j], xs).Some?
      && NodeValues(w, p.nodes[..j], xs).value[ConditionRef(w, p, j)] == o
  {
    hide KindsOf;
    hide Declared;
    hide InDomains;
    hide NodeValues;
    hide Scoped;
    hide Checked;
    var q, c := ConditionOf(w, p, j), ConditionRef(w, p, j);
    if NodeValues(w, p.nodes[..j], xs).Some? {
      ConditionKind(w, p, j);
      KindsAreSound(w, p.inputs, p.nodes[..j], xs);
      var v := NodeValues(w, p.nodes[..j], xs).value[c];
      assert OfKind(w, KindsOf(w, p.inputs, p.nodes[..j]).value[c], v);
      SingleOutput(q, v);
      assert Project(NodeValues(w, p.nodes[..j], xs).value, q.roots) == [v];
      assert Eval(w, q, xs) == Some([v]);
      assert HasOutcome(w, p, j, v, xs);
      forall o | HasOutcome(w, p, j, o, xs)
        ensures o == v
      {
        assert Some([o]) == Some([v]);
        assert [o][0] == [v][0];
      }
    }
  }

  lemma ConditionKind(w: Width, p: Program, j: nat)
    requires Checked(w, p) && IsSelect(p, j)
    ensures var ks := KindsOf(w, p.inputs, p.nodes[..j]);
      ks.Some? && |ks.value| == j && ks.value[ConditionRef(w, p, j)]
  {
    PrefixKinds(w, p.inputs, p.nodes, j);
  }

  lemma SingleOutput(q: Program, v: int)
    requires q.outputs == [BOOLEAN]
    ensures InDomains(q.outputs, [v]) <==> v == 0 || v == 1
  {
    if InDomains(q.outputs, [v]) { assert q.outputs[0].Has([v][0]); }
  }

  /** Where the whole program succeeds, each selection takes exactly one outcome, and yields that arm. */
  lemma SelectionsAreDecided(w: Width, p: Program, j: nat, xs: seq<int>)
    requires w.least <= 0 && 1 <= w.most && Declared(w, p.inputs) && InDomains(p.inputs, xs)
    requires Checked(w, p) && IsSelect(p, j) && WellScoped(p) && Eval(w, p, xs).Some?
    ensures HasOutcome(w, p, j, 0, xs) <==> !HasOutcome(w, p, j, 1, xs)
    ensures var vs := NodeValues(w, p.nodes, xs).value;
      && |p.nodes[j].args| == 3 && Below(p.nodes[j].args, j)
      && vs[j] == if HasOutcome(w, p, j, 1, xs) then vs[p.nodes[j].args[1]] else vs[p.nodes[j].args[2]]
  {
    hide KindsOf;
    hide Declared;
    hide HasOutcome;
    hide Checked;
    var c := ConditionRef(w, p, j);
    var vs := NodeValues(w, p.nodes, xs).value;
    PrefixValues(w, p.nodes, j, xs);
    assert ScopedOp(p.nodes[j], j, |p.inputs|);
    OutcomeOfPrefix(w, p, j, xs);
    ValueAt(w, p.nodes, j, xs);
    assert NodeValues(w, p.nodes[..j], xs).value[c] == vs[c];
  }

  /** The value of a node is its instruction applied to the values before it. */
  lemma ValueAt(w: Width, nodes: seq<Op>, j: nat, xs: seq<int>)
    requires Scoped(nodes, |xs|) && j < |nodes| && NodeValues(w, nodes, xs).Some?
    ensures var vs := NodeValues(w, nodes, xs).value;
      && |vs| == |nodes| && ScopedOp(nodes[j], |vs[..j]|, |xs|)
      && OpValue(w, nodes[j], vs[..j], xs) == Some(vs[j])
  {
    var vs := NodeValues(w, nodes, xs).value;
    PrefixValues(w, nodes, j + 1, xs);
    PrefixValues(w, nodes, j, xs);
    assert nodes[..j + 1][..j] == nodes[..j];
    hide OpValue;
    hide NodeValues;
    ValuesStep(w, nodes[..j + 1], xs);
    assert vs[..j + 1][j] == vs[j] && vs[..j + 1][..j] == vs[..j];
  }

  lemma ValuesStep(w: Width, nodes: seq<Op>, xs: seq<int>)
    requires Scoped(nodes, |xs|) && nodes != [] && NodeValues(w, nodes, xs).Some?
    ensures var k := |nodes| - 1;
      var vs := NodeValues(w, nodes, xs).value;
      && Scoped(nodes[..k], |xs|) && NodeValues(w, nodes[..k], xs) == Some(vs[..k])
      && OpValue(w, nodes[k], vs[..k], xs) == Some(vs[k])
  {
    var k := |nodes| - 1;
    var us := NodeValues(w, nodes[..k], xs).value;
    assert NodeValues(w, nodes, xs).value[..k] == us;
  }

  // ---------------------------------------------------------------- coverage rows

  /** One outcome of one selection: the first point showing it, and whether an example shows it. */
  datatype Row = Row(node: nat, outcome: int, first: Option<nat>, covered: bool)

  /** The point at ordinal `i` shows the outcome. */
  predicate Shows(w: Width, t: Table, p: Program, j: nat, o: int, i: nat)
    requires Complete(w, t) && Admitted(w, t, p) && IsSelect(p, j)
  {
    i < |t.rows| && HasOutcome(w, p, j, o, PointAt(t, i))
  }

  /** The least ordinal from `n` on that shows the outcome. */
  function FirstShowing(w: Width, t: Table, p: Program, j: nat, o: int, n: nat): (r: Option<nat>)
    requires Complete(w, t) && Admitted(w, t, p) && IsSelect(p, j) && n <= |t.rows|
    ensures r.None? <==> forall i: nat :: n <= i < |t.rows| ==> !Shows(w, t, p, j, o, i)
    ensures r.Some? ==> n <= r.value < |t.rows| && Shows(w, t, p, j, o, r.value)
    ensures r.Some? ==> forall i: nat :: n <= i < r.value ==> !Shows(w, t, p, j, o, i)
    decreases |t.rows| - n
  {
    if n == |t.rows| then None
    else if Shows(w, t, p, j, o, n) then Some(n)
    else FirstShowing(w, t, p, j, o, n + 1)
  }

  predicate CoveredBy(w: Width, t: Table, p: Program, j: nat, o: int, examples: seq<nat>)
    requires Complete(w, t) && Admitted(w, t, p) && IsSelect(p, j)
  {
    exists k :: 0 <= k < |examples| && Shows(w, t, p, j, o, examples[k])
  }

  function RowFor(w: Width, t: Table, p: Program, j: nat, o: int, examples: seq<nat>): (r: Row)
    requires Complete(w, t) && Admitted(w, t, p) && IsSelect(p, j)
  {
    Row(j, o, FirstShowing(w, t, p, j, o, 0), CoveredBy(w, t, p, j, o, examples))
  }

  /** Both outcomes of every selection among the first `n` nodes, in node order. */
  function CoverageBelow(w: Width, t: Table, p: Program, examples: seq<nat>, n: nat): seq<Row>
    requires Complete(w, t) && Admitted(w, t, p) && n <= |p.nodes|
  {
    if n == 0 then [] else
      CoverageBelow(w, t, p, examples, n - 1)
      + if IsSelect(p, n - 1) then [RowFor(w, t, p, n - 1, 0, examples), RowFor(w, t, p, n - 1, 1, examples)] else []
  }

  function Coverage(w: Width, t: Table, p: Program, examples: seq<nat>): seq<Row>
    requires Complete(w, t) && Admitted(w, t, p)
  {
    CoverageBelow(w, t, p, examples, |p.nodes|)
  }

  /** The rows are exactly one per outcome of each selection. */
  lemma {:induction false} CoverageIs(w: Width, t: Table, p: Program, examples: seq<nat>, n: nat)
    requires Complete(w, t) && Admitted(w, t, p) && n <= |p.nodes|
    ensures forall r :: r in CoverageBelow(w, t, p, examples, n) <==>
      && r.node < n && IsSelect(p, r.node) && (r.outcome == 0 || r.outcome == 1)
      && r == RowFor(w, t, p, r.node, r.outcome, examples)
  {
    hide Complete;
    hide Admitted;
    hide RowFor;
    if n > 0 {
      CoverageIs(w, t, p, examples, n - 1);
      if IsSelect(p, n - 1) {
        RowForTags(w, t, p, n - 1, 0, examples);
        RowForTags(w, t, p, n - 1, 1, examples);
      }
    }
  }

  /** The least ordinal at which the outcome shows, if there is one. */
  ghost predicate LeastShowing(w: Width, t: Table, p: Program, j: nat, o: int, first: Option<nat>)
    requires Complete(w, t) && Admitted(w, t, p) && IsSelect(p, j)
  {
    match first
    case None => forall i: nat :: i < |t.rows| ==> !Shows(w, t, p, j, o, i)
    case Some(n) => Shows(w, t, p, j, o, n) && forall i: nat :: i < n ==> !Shows(w, t, p, j, o, i)
  }

  /** What a row says: a selection, an outcome, the least ordinal that shows it, and whether an example does. */
  lemma CoverageMeans(w: Width, t: Table, p: Program, examples: seq<nat>, r: Row)
    requires Complete(w, t) && Admitted(w, t, p)
    ensures r in Coverage(w, t, p, examples) <==>
      && IsSelect(p, r.node) && (r.outcome == 0 || r.outcome == 1)
      && LeastShowing(w, t, p, r.node, r.outcome, r.first)
      && (r.covered <==> exists k :: 0 <= k < |examples| && Shows(w, t, p, r.node, r.outcome, examples[k]))
  {
    CoverageIs(w, t, p, examples, |p.nodes|);
    hide Complete;
    hide Admitted;
    hide CoverageBelow;
    if IsSelect(p, r.node) {
      var first := FirstShowing(w, t, p, r.node, r.outcome, 0);
      ShowsInRange(w, t, p, r.node, r.outcome);
      hide Shows;
      assert LeastShowing(w, t, p, r.node, r.outcome, r.first) <==> r.first == first;
    }
  }

  lemma ShowsInRange(w: Width, t: Table, p: Program, j: nat, o: int)
    requires Complete(w, t) && Admitted(w, t, p) && IsSelect(p, j)
    ensures forall i: nat :: Shows(w, t, p, j, o, i) ==> i < |t.rows|
  {
  }

  predicate RowBefore(a: Row, b: Row) { a.node < b.node || (a.node == b.node && a.outcome < b.outcome) }

  predicate InOrder(rows: seq<Row>) { forall i, j :: 0 <= i < j < |rows| ==> RowBefore(rows[i], rows[j]) }

  /** They come in node order, and for each node zero before one. */
  lemma {:induction false} CoverageInOrder(w: Width, t: Table, p: Program, examples: seq<nat>, n: nat)
    requires Complete(w, t) && Admitted(w, t, p) && n <= |p.nodes|
    ensures InOrder(CoverageBelow(w, t, p, examples, n))
  {
    hide Complete;
    hide Admitted;
    hide RowFor;
    if n > 0 {
      CoverageInOrder(w, t, p, examples, n - 1);
      CoverageIs(w, t, p, examples, n - 1);
      var before, rows := CoverageBelow(w, t, p, examples, n - 1), CoverageBelow(w, t, p, examples, n);
      if IsSelect(p, n - 1) {
        RowForTags(w, t, p, n - 1, 0, examples);
        RowForTags(w, t, p, n - 1, 1, examples);
      }
      assert before <= rows;
      forall i, j | 0 <= i < j < |rows|
        ensures RowBefore(rows[i], rows[j])
      {
        if i < |before| { assert before[i] in before && rows[i] == before[i]; }
        if j < |before| { assert RowBefore(before[i], before[j]); }
      }
    }
  }

  lemma RowForTags(w: Width, t: Table, p: Program, j: nat, o: int, examples: seq<nat>)
    requires Complete(w, t) && Admitted(w, t, p) && IsSelect(p, j)
    ensures RowFor(w, t, p, j, o, examples).node == j && RowFor(w, t, p, j, o, examples).outcome == o
  {
  }

  /** The nested loops over nodes and outcomes, appending one row at a time. */
  method CoverageRows(w: Width, t: Table, p: Program, examples: seq<nat>) returns (rows: seq<Row>)
    requires Complete(w, t) && Admitted(w, t, p)
    ensures rows == Coverage(w, t, p, examples)
  {
    hide Complete;
    hide Admitted;
    hide RowFor;
    rows := [];
    var j := 0;
    while j < |p.nodes|
      invariant 0 <= j <= |p.nodes|
      invariant rows == CoverageBelow(w, t, p, examples, j)
    {
      if IsSelect(p, j) {
        var o := 0;
        while o < 2
          invariant 0 <= o <= 2
          invariant rows == CoverageBelow(w, t, p, examples, j)
            + [RowFor(w, t, p, j, 0, examples), RowFor(w, t, p, j, 1, examples)][..o]
        {
          rows := rows + [RowFor(w, t, p, j, o, examples)];
          o := o + 1;
        }
      }
      j := j + 1;
    }
  }
}
