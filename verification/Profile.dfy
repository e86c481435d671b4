/**
 Replay under a narrower integer profile: the independent reference keeps 64-bit integers while the
 checker's programs have 128-bit ones.
 */
module Profile {
  import opened Patterns
  import opened Ir
  import opened Kinds
  import opened Odometer
  import opened Policy

  /** Every integer of the first width is one of the second. */
  predicate Narrower(v: Width, w: Width) { w.least <= v.least <= 0 && 1 <= v.most <= w.most }

  predicate InWidth(v: Width, z: int) { v.least <= z <= v.most }

  predicate AllInWidth(v: Width, vs: seq<int>) { forall k :: 0 <= k < |vs| ==> InWidth(v, vs[k]) }

  /** One instruction on operands of the narrower width: the same value, refused exactly where it leaves that width. */
  lemma OpNarrower(v: Width, w: Width, inputs: seq<Domain>, ks: seq<bool>, op: Op, vs: seq<int>, input: seq<int>)
    requires Narrower(v, w) && |ks| == |vs| && AllInWidth(v, vs) && AllInWidth(v, input)
    requires OpKind(v, inputs, ks, op).Some? && ScopedOp(op, |vs|, |input|)
    ensures OpKind(w, inputs, ks, op) == OpKind(v, inputs, ks, op)
    ensures forall z :: OpValue(v, op, vs, input) == Some(z) <==> OpValue(w, op, vs, input) == Some(z) && InWidth(v, z)
  {
    match op
    case Input(i) => assert InWidth(v, input[i]);
    case Int(_) =>
    case Bool(_) =>
    case Apply(code, args) =>
      if code.Select? {
        assert InWidth(v, vs[args[1]]);
        assert InWidth(v, vs[args[2]]);
      }
  }

  lemma {:induction false} KindsWiden(v: Width, w: Width, inputs: seq<Domain>, nodes: seq<Op>)
    requires Narrower(v, w) && KindsOf(v, inputs, nodes).Some?
    ensures KindsOf(w, inputs, nodes) == KindsOf(v, inputs, nodes)
  {
    if nodes != [] { KindsWiden(v, w, inputs, nodes[..|nodes| - 1]); }
  }

  /** Nodes have values under the narrower profile exactly when they have the same under the wider and all fit. */
  lemma {:induction false} NodesNarrower(v: Width, w: Width, inputs: seq<Domain>, nodes: seq<Op>, input: seq<int>)
    requires Narrower(v, w) && KindsOf(v, inputs, nodes).Some? && Scoped(nodes, |input|) && AllInWidth(v, input)
    ensures forall vs :: NodeValues(v, nodes, input) == Some(vs) <==>
      NodeValues(w, nodes, input) == Some(vs) && AllInWidth(v, vs)
  {
    hide OpKind;
    hide OpValue;
    hide Narrower;
    hide InWidth;
    if nodes != [] {
      var k := |nodes| - 1;
      var init := nodes[..k];
      NodesNarrower(v, w, inputs, init, input);
      var a, b := NodeValues(v, init, input), NodeValues(w, init, input);
      if a.Some? {
        assert NodeValues(v, init, input) == Some(a.value);
        OpNarrower(v, w, inputs, KindsOf(v, inputs, init).value, nodes[k], a.value, input);
        var c := OpValue(w, nodes[k], a.value, input);
        assert c.Some? ==> (AllInWidth(v, a.value + [c.value]) <==> InWidth(v, c.value)) by {
          if c.Some? { LastInWidth(v, a.value, c.value); }
        }
        assert c.Some? ==> (OpValue(v, nodes[k], a.value, input) == Some(c.value) <==> InWidth(v, c.value));
      } else if b.Some? {
        assert !AllInWidth(v, b.value);
        if NodeValues(w, nodes, input).Some? {
          var all := NodeValues(w, nodes, input).value;
          assert all[..k] == b.value;
          FirstInWidth(v, all, k);
        }
      }
    }
  }

  lemma LastInWidth(v: Width, vs: seq<int>, z: int)
    requires AllInWidth(v, vs)
    ensures AllInWidth(v, vs + [z]) <==> InWidth(v, z)
  {
    if AllInWidth(v, vs + [z]) { assert (vs + [z])[|vs|] == z; }
  }

  lemma FirstInWidth(v: Width, vs: seq<int>, k: nat)
    requires k <= |vs|
    ensures AllInWidth(v, vs) ==> AllInWidth(v, vs[..k])
  {
  }

  lemma DomainInWidth(v: Width, ds: seq<Domain>, xs: seq<int>)
    requires Declared(v, ds) && InDomains(ds, xs)
    ensures AllInWidth(v, xs)
  {
    forall k | 0 <= k < |xs|
      ensures InWidth(v, xs[k])
    {
      assert ds[k].Has(xs[k]);
    }
  }

  /** What a table and a candidate of the narrower profile are under the wider. */
  lemma AdmittedWiden(v: Width, w: Width, t: Table, p: Program)
    requires Narrower(v, w) && Complete(v, t) && Admitted(v, t, p)
    ensures Complete(w, t) && Admitted(w, t, p)
  {
    KindsWiden(v, w, p.inputs, p.nodes);
    hide Points;
  }

  /** Every node's value, at every tuple of the domain, fits the narrower width. */
  ghost predicate StaysWithin(v: Width, w: Width, t: Table, p: Program)
    requires Complete(w, t) && Admitted(w, t, p)
  {
    forall xs: seq<int> :: InDomains(t.inputs, xs) && NodeValues(w, p.nodes, xs).Some? ==>
      AllInWidth(v, NodeValues(w, p.nodes, xs).value)
  }

  /** A replay is narrower exactly when it is a wider one in which no node's value leaves the narrower width. */
  lemma NarrowReplayExactly(v: Width, w: Width, t: Table, p: Program)
    requires Narrower(v, w) && Complete(v, t) && Admitted(v, t, p)
    ensures Complete(w, t) && Admitted(w, t, p)
    ensures Replay(v, t, p) <==> Replay(w, t, p) && StaysWithin(v, w, t, p)
  {
    AdmittedWiden(v, w, t, p);
    NoneBadIffReplay(v, t, p);
    NoneBadIffReplay(w, t, p);
    hide Complete;
    hide Replay;
    if Replay(v, t, p) {
      forall xs: seq<int> | InDomains(t.inputs, xs)
        ensures Eval(w, p, xs) == Some(RowOf(w, t, xs))
        ensures NodeValues(w, p.nodes, xs).Some? ==> AllInWidth(v, NodeValues(w, p.nodes, xs).value)
      {
        EvalNarrower(v, w, t, p, xs);
      }
    }
    if Replay(w, t, p) && StaysWithin(v, w, t, p) {
      forall xs: seq<int> | InDomains(t.inputs, xs)
        ensures Eval(v, p, xs) == Some(RowOf(v, t, xs))
      {
        EvalNarrower(v, w, t, p, xs);
      }
    }
  }

  lemma EvalNarrower(v: Width, w: Width, t: Table, p: Program, xs: seq<int>)
    requires Narrower(v, w) && Complete(v, t) && Admitted(v, t, p) && InDomains(t.inputs, xs)
    ensures forall out :: Eval(v, p, xs) == Some(out) <==>
      Eval(w, p, xs) == Some(out) && AllInWidth(v, NodeValues(w, p.nodes, xs).value)
  {
    DomainInWidth(v, t.inputs, xs);
    NodesNarrower(v, w, p.inputs, p.nodes, xs);
    hide NodeValues;
    hide KindsOf;
    hide AllInWidth;
    var a, b := NodeValues(v, p.nodes, xs), NodeValues(w, p.nodes, xs);
    assert a.Some? ==> NodeValues(v, p.nodes, xs) == Some(a.value);
    assert b.Some? ==> NodeValues(w, p.nodes, xs) == Some(b.value);
  }

  /** The two profiles of the repository. */
  lemma ReferenceProfile(t: Table, p: Program)
    requires Complete(I64, t) && Admitted(I64, t, p)
    ensures Complete(I128, t) && Admitted(I128, t, p)
    ensures Replay(I64, t, p) <==> Replay(I128, t, p) && StaysWithin(I64, I128, t, p)
  {
    NarrowReplayExactly(I64, I128, t, p);
  }

  /** A dead sum beyond 64 bits: the wider profile computes the table, the narrower one refuses it. */
  function WideOnly(): Program {
    Program([], [BOOLEAN], [Int(I64.most), Apply(Add, [0, 0]), Apply(Eq, [0, 0])], [2])
  }

  lemma ValuesPush(w: Width, nodes: seq<Op>, op: Op, input: seq<int>, vs: seq<int>)
    requires Scoped(nodes + [op], |input|) && Scoped(nodes, |input|) && NodeValues(w, nodes, input) == Some(vs)
    requires ScopedOp(op, |vs|, |input|)
    ensures NodeValues(w, nodes + [op], input) ==
      match OpValue(w, op, vs, input) case None => None case Some(v) => Some(vs + [v])
  {
    assert (nodes + [op])[..|nodes|] == nodes;
  }

  lemma RefusalPush(w: Width, nodes: seq<Op>, op: Op, input: seq<int>)
    requires Scoped(nodes + [op], |input|) && Scoped(nodes, |input|) && NodeValues(w, nodes, input).None?
    ensures NodeValues(w, nodes + [op], input).None?
  {
    assert (nodes + [op])[..|nodes|] == nodes;
  }

  lemma WideValues(w: Width)
    requires Scoped(WideOnly().nodes, 0)
    ensures NodeValues(w, WideOnly().nodes, []) ==
      if w.least <= 2 * I64.most <= w.most then Some([I64.most, 2 * I64.most, 1]) else None
  {
    var big: int := I64.most;
    var a, b, c := Int(big), Apply(Add, [0, 0]), Apply(Eq, [0, 0]);
    assert WideOnly().nodes == [] + [a] + [b] + [c];
    assert NodeValues(w, [], []) == Some([]);
    hide NodeValues;
    ValuesPush(w, [], a, [], []);
    assert [] + [big] == [big] && Project([big], b.args) == [big, big];
    ValuesPush(w, [] + [a], b, [], [big]);
    if w.least <= 2 * big <= w.most {
      assert [big] + [2 * big] == [big, 2 * big] && Project([big, 2 * big], c.args) == [big, big];
      ValuesPush(w, [] + [a] + [b], c, [], [big, 2 * big]);
      assert [big, 2 * big] + [1] == [big, 2 * big, 1];
    } else {
      RefusalPush(w, [] + [a] + [b], c, []);
    }
  }

  /** So a captured program can fail the independent replay. */
  lemma WideOnlyReplays()
    ensures var p, t := WideOnly(), Table([], [BOOLEAN], [[1]]);
      && Complete(I64, t) && Admitted(I64, t, p) && !Replay(I64, t, p)
      && Complete(I128, t) && Admitted(I128, t, p) && Replay(I128, t, p)
  {
    var p, t := WideOnly(), Table([], [BOOLEAN], [[1]]);
    WideKinds();
    CheckedScoped(I64, p);
    assert BOOLEAN.Has([1][0]);
    assert InDomains(t.outputs, [1]);
    assert Complete(I64, t);
    AdmittedWiden(I64, I128, t, p);
    WideValues(I64);
    WideValues(I128);
    assert PointAt(t, 0) == [];
    assert Project([I64.most, 2 * I64.most, 1], p.roots) == [1];
    hide KindsOf;
    hide NodeValues;
    assert Matches(I128, t, p, 0) && !Matches(I64, t, p, 0);
  }

  lemma KindsPush(w: Width, nodes: seq<Op>, op: Op, ks: seq<bool>)
    requires KindsOf(w, [], nodes) == Some(ks)
    ensures KindsOf(w, [], nodes + [op]) == match OpKind(w, [], ks, op) case None => None case Some(k) => Some(ks + [k])
  {
    assert (nodes + [op])[..|nodes|] == nodes;
  }

  lemma WideKinds()
    ensures Checked(I64, WideOnly())
  {
    var a, b, c := Int(I64.most), Apply(Add, [0, 0]), Apply(Eq, [0, 0]);
    assert WideOnly().nodes == [] + [a] + [b] + [c];
    assert KindsOf(I64, [], []) == Some([]);
    hide KindsOf;
    KindsPush(I64, [], a, []);
    assert [] + [false] == [false];
    KindsPush(I64, [] + [a], b, [false]);
    assert [false] + [false] == [false, false];
    KindsPush(I64, [] + [a] + [b], c, [false, false]);
    assert [false, false] + [true] == [false, false, true];
  }
}
