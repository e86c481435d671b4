/**
 The exact lookup encoding of a complete table: a decision program that splits the product of the
 input domains in halves, sharing equal nodes, and computes the table's row at every tuple.
 */
module Lookup {
  import opened Patterns
  import opened Ir
  import opened Wide
  import opened Kinds
  import opened Odometer
  import opened Policy

  const MAX_NODES: nat := 256

  // ---------------------------------------------------------------- ranks from the front

  lemma {:induction false} ProductFront(ds: seq<Domain>)
    requires ds != []
    ensures Product(ds) == Size(ds[0]) * Product(ds[1..])
  {
    var k := |ds| - 1;
    if k > 0 {
      ProductFront(ds[..k]);
      assert ds[..k][1..] == ds[1..][..k - 1];
      Associate(Size(ds[0]), Product(ds[1..][..k - 1]), Size(ds[k]));
    } else {
      assert ds[..0] == [] && ds[1..] == [];
    }
  }

  lemma Associate(a: int, b: int, c: int)
    ensures (a * b) * c == a * (b * c)
  {
  }

  /** The first input counts whole blocks of the rest. */
  lemma {:induction false} RankFront(ds: seq<Domain>, xs: seq<int>)
    requires |ds| == |xs| > 0
    ensures Rank(ds, xs) == (xs[0] - ds[0].min) * Product(ds[1..]) + Rank(ds[1..], xs[1..])
  {
    var k := |ds| - 1;
    if k > 0 {
      RankFront(ds[..k], xs[..k]);
      var es, ys := ds[1..], xs[1..];
      assert ds[..k][1..] == es[..k - 1] && xs[..k][1..] == ys[..k - 1];
      var a, b, c, w := xs[0] - ds[0].min, Product(es[..k - 1]), Rank(es[..k - 1], ys[..k - 1]), Size(ds[k]);
      assert Rank(ds[..k], xs[..k]) == a * b + c;
      assert Rank(ds, xs) == (a * b + c) * w + (xs[k] - ds[k].min);
      Regroup(a, b, c, w);
      assert Product(es) == b * w;
      assert Rank(es, ys) == c * w + (ys[k - 1] - es[k - 1].min);
    } else {
      assert ds[..0] == [] && ds[1..] == [];
    }
  }

  lemma Regroup(a: int, b: int, c: int, w: int)
    ensures (a * b + c) * w == a * (b * w) + c * w
  {
  }

  // ---------------------------------------------------------------- blocks of the table

  /** The part of one input's domain still to be told apart. */
  datatype Range = Range(lo: int, width: nat)

  /** The block starting at input `dim`: all of its domain, or the given part of it. */
  predicate Block(ds: seq<Domain>, dim: nat, range: Option<Range>) {
    && dim <= |ds| && NonEmpty(ds)
    && (range.Some? ==>
        && dim < |ds| && range.value.width >= 1
        && ds[dim].min <= range.value.lo && range.value.lo + range.value.width - 1 <= ds[dim].max)
  }

  function Stride(ds: seq<Domain>, dim: nat): int
    requires dim < |ds|
  {
    Product(ds[dim + 1..])
  }

  function Count(ds: seq<Domain>, dim: nat, range: Option<Range>): int
    requires Block(ds, dim, range)
  {
    if range.None? then Product(ds[dim..]) else range.value.width * Stride(ds, dim)
  }

  predicate InBlock(ds: seq<Domain>, dim: nat, range: Option<Range>, xs: seq<int>)
    requires Block(ds, dim, range)
  {
    InDomains(ds, xs) && (range.Some? ==> range.value.lo <= xs[dim] < range.value.lo + range.value.width)
  }

  /** The position of a tuple in its block. */
  function At(ds: seq<Domain>, dim: nat, range: Option<Range>, xs: seq<int>): int
    requires Block(ds, dim, range) && |xs| == |ds|
  {
    if range.None? then Rank(ds[dim..], xs[dim..])
    else (xs[dim] - range.value.lo) * Stride(ds, dim) + Rank(ds[dim + 1..], xs[dim + 1..])
  }

  /** All of an input's domain is the part of it that leaves nothing out. */
  lemma WholeRange(ds: seq<Domain>, dim: nat, xs: seq<int>)
    requires dim < |ds| && NonEmpty(ds)
    ensures var whole := Some(Range(ds[dim].min, Size(ds[dim])));
      && Block(ds, dim, whole) && Count(ds, dim, None) == Count(ds, dim, whole)
      && (|xs| == |ds| ==> At(ds, dim, None, xs) == At(ds, dim, whole, xs))
      && (InBlock(ds, dim, None, xs) <==> InBlock(ds, dim, whole, xs))
  {
    var es := ds[dim..];
    assert es[1..] == ds[dim + 1..];
    ProductFront(es);
    if |xs| == |ds| {
      var ys := xs[dim..];
      assert ys[1..] == xs[dim + 1..];
      RankFront(es, ys);
    }
    if InDomains(ds, xs) { assert ds[dim].Has(xs[dim]); }
  }

  /** A one-value part is a block of the remaining inputs. */
  lemma OneValue(ds: seq<Domain>, dim: nat, range: Option<Range>, xs: seq<int>)
    requires Block(ds, dim, range) && range.Some? && range.value.width == 1
    ensures Block(ds, dim + 1, None) && Count(ds, dim, range) == Count(ds, dim + 1, None)
    ensures InBlock(ds, dim, range, xs) ==>
      InBlock(ds, dim + 1, None, xs) && At(ds, dim, range, xs) == At(ds, dim + 1, None, xs)
  {
    if InBlock(ds, dim, range, xs) { assert xs[dim] - range.value.lo == 0; }
  }

  /** Splitting a part in two splits its positions at the pivot. */
  lemma Halves(ds: seq<Domain>, dim: nat, lo: int, width: nat, half: nat, xs: seq<int>)
    requires Block(ds, dim, Some(Range(lo, width))) && 1 <= half < width
    ensures var left, right := Some(Range(lo, half)), Some(Range(lo + half, width - half));
      && Block(ds, dim, left) && Block(ds, dim, right)
      && Count(ds, dim, left) == half * Stride(ds, dim) && Count(ds, dim, right) == (width - half) * Stride(ds, dim)
      && Count(ds, dim, Some(Range(lo, width))) == half * Stride(ds, dim) + (width - half) * Stride(ds, dim)
      && (InBlock(ds, dim, Some(Range(lo, width)), xs) ==>
          if xs[dim] < lo + half
          then InBlock(ds, dim, left, xs) && At(ds, dim, left, xs) == At(ds, dim, Some(Range(lo, width)), xs)
          else && InBlock(ds, dim, right, xs)
               && half * Stride(ds, dim) + At(ds, dim, right, xs) == At(ds, dim, Some(Range(lo, width)), xs))
  {
    hide InDomains;
    var s := Stride(ds, dim);
    Distribute(half, width - half, s);
    if |xs| == |ds| { Distribute(half, xs[dim] - lo - half, s); }
  }

  lemma Distribute(a: int, b: int, c: int)
    ensures a * c + b * c == (a + b) * c
  {
  }

  lemma {:induction false} InSuffix(ds: seq<Domain>, xs: seq<int>, k: nat)
    requires InDomains(ds, xs) && k <= |ds|
    ensures InDomains(ds[k..], xs[k..])
  {
    forall i | 0 <= i < |ds[k..]|
      ensures ds[k..][i].Has(xs[k..][i])
    {
      assert ds[k + i].Has(xs[k + i]);
    }
  }

  lemma CountPositive(ds: seq<Domain>, dim: nat, range: Option<Range>)
    requires Block(ds, dim, range)
    ensures Count(ds, dim, range) >= 1
    ensures range.Some? ==> Stride(ds, dim) >= 1
  {
    if range.None? { ProductPositive(ds[dim..]); }
    else {
      ProductPositive(ds[dim + 1..]);
      MulBound(1, 1, range.value.width, Stride(ds, dim));
    }
  }

  lemma AtBounds(ds: seq<Domain>, dim: nat, range: Option<Range>, xs: seq<int>)
    requires Block(ds, dim, range) && InBlock(ds, dim, range, xs)
    ensures 0 <= At(ds, dim, range, xs) < Count(ds, dim, range)
  {
    InSuffix(ds, xs, dim);
    if range.None? { RankBounds(ds[dim..], xs[dim..]); }
    else {
      InSuffix(ds, xs, dim + 1);
      RankBounds(ds[dim + 1..], xs[dim + 1..]);
      Position(xs[dim] - range.value.lo, Rank(ds[dim + 1..], xs[dim + 1..]), range.value.width, Stride(ds, dim));
    }
  }

  // ---------------------------------------------------------------- nodes of a lookup

  /** Instructions that cannot refuse. */
  predicate Safe(op: Op) { op.Apply? ==> op.code.Lt? || op.code.Select? }

  predicate Sound(w: Width, ds: seq<Domain>, nodes: seq<Op>) {
    KindsOf(w, ds, nodes).Some? && forall k :: 0 <= k < |nodes| ==> Safe(nodes[k])
  }

  function Kind(w: Width, ds: seq<Domain>, nodes: seq<Op>, id: nat): bool
    requires Sound(w, ds, nodes) && id < |nodes|
  {
    KindsOf(w, ds, nodes).value[id]
  }

  /** Safe nodes always evaluate. */
  lemma {:induction false} NeverRefuses(w: Width, ds: seq<Domain>, nodes: seq<Op>, xs: seq<int>)
    requires Sound(w, ds, nodes) && |xs| == |ds|
    ensures Scoped(nodes, |xs|) && NodeValues(w, nodes, xs).Some?
  {
    CheckedScoped(w, Program(ds, [], nodes, []));
    if nodes != [] {
      var k := |nodes| - 1;
      PrefixKinds(w, ds, nodes, k);
      NeverRefuses(w, ds, nodes[..k], xs);
      NodeKind(w, ds, nodes, k);
    }
  }

  function Value(w: Width, ds: seq<Domain>, nodes: seq<Op>, id: nat, xs: seq<int>): int
    requires Sound(w, ds, nodes) && id < |nodes| && |xs| == |ds|
  {
    NeverRefuses(w, ds, nodes, xs);
    NodeValues(w, nodes, xs).value[id]
  }

  /** Later nodes change neither the kind nor the value of earlier ones. */
  lemma Grown(w: Width, ds: seq<Domain>, before: seq<Op>, nodes: seq<Op>, id: nat, xs: seq<int>)
    requires before <= nodes && Sound(w, ds, nodes) && Sound(w, ds, before) && id < |before|
    ensures Kind(w, ds, before, id) == Kind(w, ds, nodes, id)
    ensures |xs| == |ds| ==> Value(w, ds, before, id, xs) == Value(w, ds, nodes, id, xs)
  {
    hide OpKind;
    hide NodeValues;
    hide KindsOf;
    assert nodes[..|before|] == before;
    PrefixKinds(w, ds, nodes, |before|);
    if |xs| == |ds| {
      NeverRefuses(w, ds, nodes, xs);
      PrefixValues(w, nodes, |before|, xs);
    }
  }

  /** Appending a node of a known kind. */
  lemma Appended(w: Width, ds: seq<Domain>, nodes: seq<Op>, op: Op)
    requires Sound(w, ds, nodes) && Safe(op) && OpKind(w, ds, KindsOf(w, ds, nodes).value, op).Some?
    ensures Sound(w, ds, nodes + [op])
    ensures Kind(w, ds, nodes + [op], |nodes|) == OpKind(w, ds, KindsOf(w, ds, nodes).value, op).value
  {
    assert (nodes + [op])[..|nodes|] == nodes;
  }

  /** The arm a selection takes. */
  function Picked(w: Width, ds: seq<Domain>, nodes: seq<Op>, a: seq<nat>, xs: seq<int>): int
    requires Sound(w, ds, nodes) && |a| == 3 && Below(a, |nodes|) && |xs| == |ds|
  {
    if Value(w, ds, nodes, a[0], xs) == 1 then Value(w, ds, nodes, a[1], xs) else Value(w, ds, nodes, a[2], xs)
  }

  /** The kind of a node from the kinds of its operands. */
  lemma KindOf(w: Width, ds: seq<Domain>, nodes: seq<Op>, id: nat)
    requires Sound(w, ds, nodes) && id < |nodes|
    ensures match nodes[id]
      case Input(i) => i < |ds| && Kind(w, ds, nodes, id) == ds[i].boolean
      case Int(_) => !Kind(w, ds, nodes, id)
      case Bool(_) => Kind(w, ds, nodes, id)
      case Apply(code, a) =>
        && |a| == code.Arity() && Below(a, id) && (code.Lt? ==> Kind(w, ds, nodes, id))
        && (code.Select? ==> Kind(w, ds, nodes, id) == Kind(w, ds, nodes, a[1]))
  {
    hide KindsOf;
    NodeKind(w, ds, nodes, id);
  }

  /** The value of a node from the values of its operands. */
  lemma ValueOf(w: Width, ds: seq<Domain>, nodes: seq<Op>, id: nat, xs: seq<int>)
    requires Sound(w, ds, nodes) && id < |nodes| && |xs| == |ds|
    ensures match nodes[id]
      case Input(i) => i < |xs| && Value(w, ds, nodes, id, xs) == xs[i]
      case Int(z) => Value(w, ds, nodes, id, xs) == z
      case Bool(b) => Value(w, ds, nodes, id, xs) == Flag(b)
      case Apply(code, a) =>
        && |a| == code.Arity() && Below(a, id)
        && (code.Lt? ==>
            Value(w, ds, nodes, id, xs) == Flag(Value(w, ds, nodes, a[0], xs) < Value(w, ds, nodes, a[1], xs)))
        && (code.Select? ==> Value(w, ds, nodes, id, xs) == Picked(w, ds, nodes, a, xs))
  {
    NeverRefuses(w, ds, nodes, xs);
    hide NodeValues;
    hide KindsOf;
    ValueAt(w, nodes, id, xs);
  }

  /** The node computes the block's values: at every tuple of the block, the value at its position. */
  ghost predicate Computes(w: Width, ds: seq<Domain>, nodes: seq<Op>, id: nat, dim: nat, range: Option<Range>,
                           values: seq<int>)
    requires Sound(w, ds, nodes) && Block(ds, dim, range) && |values| == Count(ds, dim, range)
  {
    id < |nodes| && forall xs: seq<int> :: InBlock(ds, dim, range, xs) ==>
      IsValueAt(w, ds, nodes, id, dim, range, values, xs)
  }

  ghost predicate IsValueAt(w: Width, ds: seq<Domain>, nodes: seq<Op>, id: nat, dim: nat, range: Option<Range>,
                            values: seq<int>, xs: seq<int>)
    requires Sound(w, ds, nodes) && id < |nodes| && Block(ds, dim, range) && InBlock(ds, dim, range, xs)
    requires |values| == Count(ds, dim, range)
  {
    AtBounds(ds, dim, range, xs);
    Value(w, ds, nodes, id, xs) == values[At(ds, dim, range, xs)]
  }

  lemma GrownComputes(w: Width, ds: seq<Domain>, before: seq<Op>, nodes: seq<Op>, id: nat, dim: nat,
                      range: Option<Range>, values: seq<int>)
    requires before <= nodes && Sound(w, ds, nodes) && Sound(w, ds, before)
    requires Block(ds, dim, range) && |values| == Count(ds, dim, range)
    requires Computes(w, ds, before, id, dim, range, values)
    ensures Computes(w, ds, nodes, id, dim, range, values)
  {
    hide Sound;
    hide Block;
    hide Count;
    hide At;
    forall xs: seq<int> | InBlock(ds, dim, range, xs)
      ensures IsValueAt(w, ds, nodes, id, dim, range, values, xs)
    {
      Grown(w, ds, before, nodes, id, xs);
      assert IsValueAt(w, ds, before, id, dim, range, values, xs);
    }
  }

  /** A literal computes a block of equal values. */
  lemma ConstantComputes(w: Width, ds: seq<Domain>, nodes: seq<Op>, id: nat, dim: nat, range: Option<Range>,
                         values: seq<int>, c: int)
    requires Sound(w, ds, nodes) && Block(ds, dim, range) && |values| == Count(ds, dim, range) && id < |nodes|
    requires forall k :: 0 <= k < |values| ==> values[k] == c
    requires nodes[id] == Int(c) || (nodes[id].Bool? && Flag(nodes[id].b) == c)
    ensures Computes(w, ds, nodes, id, dim, range, values)
  {
    hide Sound;
    hide Block;
    hide Count;
    hide At;
    forall xs: seq<int> | InBlock(ds, dim, range, xs)
      ensures IsValueAt(w, ds, nodes, id, dim, range, values, xs)
    {
      ValueOf(w, ds, nodes, id, xs);
      AtBounds(ds, dim, range, xs);
    }
  }

  /** The rest of the inputs computes a part of one value. */
  lemma OneValueComputes(w: Width, ds: seq<Domain>, nodes: seq<Op>, id: nat, dim: nat, range: Option<Range>,
                         values: seq<int>)
    requires Sound(w, ds, nodes) && Block(ds, dim, range) && range.Some? && range.value.width == 1
    requires Block(ds, dim + 1, None) && |values| == Count(ds, dim + 1, None) == Count(ds, dim, range)
    requires Computes(w, ds, nodes, id, dim + 1, None, values)
    ensures Computes(w, ds, nodes, id, dim, range, values)
  {
    hide Sound;
    hide Count;
    hide At;
    forall xs: seq<int> | InBlock(ds, dim, range, xs)
      ensures IsValueAt(w, ds, nodes, id, dim, range, values, xs)
    {
      OneValue(ds, dim, range, xs);
      assert IsValueAt(w, ds, nodes, id, dim + 1, None, values, xs);
    }
  }

  /** Computing the whole part is computing the block. */
  lemma WholeComputes(w: Width, ds: seq<Domain>, nodes: seq<Op>, id: nat, dim: nat, values: seq<int>)
    requires Sound(w, ds, nodes) && dim < |ds| && NonEmpty(ds)
    requires var whole := Some(Range(ds[dim].min, Size(ds[dim])));
      && Block(ds, dim, whole) && |values| == Count(ds, dim, whole) == Count(ds, dim, None)
      && Computes(w, ds, nodes, id, dim, whole, values)
    ensures Computes(w, ds, nodes, id, dim, None, values)
  {
    hide Sound;
    hide Count;
    hide At;
    var whole := Some(Range(ds[dim].min, Size(ds[dim])));
    forall xs: seq<int> | InBlock(ds, dim, None, xs)
      ensures IsValueAt(w, ds, nodes, id, dim, None, values, xs)
    {
      WholeRange(ds, dim, xs);
      assert IsValueAt(w, ds, nodes, id, dim, whole, values, xs);
    }
  }

  /** At every tuple, node `id` takes `a` below the pivot and `b` from it on. */
  ghost predicate Splits(w: Width, ds: seq<Domain>, nodes: seq<Op>, id: nat, dim: nat, pivot: int, a: nat, b: nat)
    requires Sound(w, ds, nodes) && id < |nodes| && a < |nodes| && b < |nodes| && dim < |ds|
  {
    forall xs: seq<int> :: InDomains(ds, xs) ==>
      Value(w, ds, nodes, id, xs) == Value(w, ds, nodes, if xs[dim] < pivot then a else b, xs)
  }

  /** Two halves told apart at the pivot compute their union. */
  lemma HalvesCompute(w: Width, ds: seq<Domain>, nodes: seq<Op>, id: nat, dim: nat, lo: int, width: nat, half: nat,
                      a: nat, b: nat, values: seq<int>)
    requires Sound(w, ds, nodes) && dim < |ds| && Block(ds, dim, Some(Range(lo, width))) && 1 <= half < width
    requires |values| == Count(ds, dim, Some(Range(lo, width)))
    requires Block(ds, dim, Some(Range(lo, half))) && Block(ds, dim, Some(Range(lo + half, width - half)))
    requires 0 <= half * Stride(ds, dim) == Count(ds, dim, Some(Range(lo, half))) <= |values|
    requires |values| - half * Stride(ds, dim) == Count(ds, dim, Some(Range(lo + half, width - half)))
    requires Computes(w, ds, nodes, a, dim, Some(Range(lo, half)), values[..half * Stride(ds, dim)])
    requires Computes(w, ds, nodes, b, dim, Some(Range(lo + half, width - half)), values[half * Stride(ds, dim)..])
    requires id < |nodes| && Splits(w, ds, nodes, id, dim, lo + half, a, b)
    ensures Computes(w, ds, nodes, id, dim, Some(Range(lo, width)), values)
  {
    hide Sound;
    hide Block;
    hide Count;
    hide At;
    hide Stride;
    var cut, whole := half * Stride(ds, dim), Some(Range(lo, width));
    forall xs: seq<int> | InBlock(ds, dim, whole, xs)
      ensures IsValueAt(w, ds, nodes, id, dim, whole, values, xs)
    {
      Halves(ds, dim, lo, width, half, xs);
      AtBounds(ds, dim, whole, xs);
      assert InDomains(ds, xs);
      assert Value(w, ds, nodes, id, xs) == Value(w, ds, nodes, if xs[dim] < lo + half then a else b, xs);
      if xs[dim] < lo + half {
        assert IsValueAt(w, ds, nodes, a, dim, Some(Range(lo, half)), values[..cut], xs);
        AtBounds(ds, dim, Some(Range(lo, half)), xs);
      } else {
        assert IsValueAt(w, ds, nodes, b, dim, Some(Range(lo + half, width - half)), values[cut..], xs);
        AtBounds(ds, dim, Some(Range(lo + half, width - half)), xs);
      }
    }
  }

  lemma LtKind(w: Width, ds: seq<Domain>, nodes: seq<Op>, a: nat, b: nat)
    requires Sound(w, ds, nodes) && a < |nodes| && b < |nodes| && !Kind(w, ds, nodes, a) && !Kind(w, ds, nodes, b)
    ensures OpKind(w, ds, KindsOf(w, ds, nodes).value, Apply(Lt, [a, b])).Some?
  {
    hide KindsOf;
  }

  lemma SelectKind(w: Width, ds: seq<Domain>, nodes: seq<Op>, c: nat, a: nat, b: nat)
    requires Sound(w, ds, nodes) && a < |nodes| && b < |nodes| && c < |nodes|
    requires Kind(w, ds, nodes, c) && Kind(w, ds, nodes, a) == Kind(w, ds, nodes, b)
    ensures OpKind(w, ds, KindsOf(w, ds, nodes).value, Apply(Select, [c, a, b])).Some?
  {
    hide KindsOf;
  }

  lemma SameSplits(w: Width, ds: seq<Domain>, nodes: seq<Op>, id: nat, dim: nat, pivot: int)
    requires Sound(w, ds, nodes) && id < |nodes| && dim < |ds|
    ensures Splits(w, ds, nodes, id, dim, pivot, id, id)
  {
  }

  /** The length of the first half, from the length of the whole. */
  lemma Cut(ds: seq<Domain>, dim: nat, part: Range, half: nat, n: int)
    requires Block(ds, dim, Some(part)) && n == Count(ds, dim, Some(part)) && 1 <= half < part.width
    ensures var left, right := Some(Range(part.lo, half)), Some(Range(part.lo + half, part.width - half));
      && n / part.width == Stride(ds, dim) >= 1
      && Block(ds, dim, left) && Block(ds, dim, right)
      && 0 < half * Stride(ds, dim) == Count(ds, dim, left) < n
      && Count(ds, dim, right) == n - half * Stride(ds, dim) < n
  {
    Halves(ds, dim, part.lo, part.width, half, []);
    CountPositive(ds, dim, Some(Range(part.lo, half)));
    CountPositive(ds, dim, Some(Range(part.lo + half, part.width - half)));
    ExactQuotient(part.width, Stride(ds, dim));
  }

  lemma ExactQuotient(a: int, b: int)
    requires a >= 1
    ensures (a * b) / a == b
  {
    var p := a * b;
    assert b * a <= p < (b + 1) * a;
    QuotientIs(p, a, b);
  }

  /** At every tuple, node `c` tells whether the input lies below the pivot. */
  ghost predicate Compares(w: Width, ds: seq<Domain>, nodes: seq<Op>, c: nat, dim: nat, pivot: int)
    requires Sound(w, ds, nodes) && c < |nodes| && dim < |ds|
  {
    forall xs: seq<int> :: InDomains(ds, xs) ==> Value(w, ds, nodes, c, xs) == Flag(xs[dim] < pivot)
  }

  lemma LtCompares(w: Width, ds: seq<Domain>, nodes: seq<Op>, dim: nat, pivot: int, input: nat, threshold: nat, c: nat)
    requires Sound(w, ds, nodes) && dim < |ds| && input < |nodes| && threshold < |nodes| && c < |nodes|
    requires nodes[input] == Input(dim) && nodes[threshold] == Int(pivot) && nodes[c] == Apply(Lt, [input, threshold])
    ensures Compares(w, ds, nodes, c, dim, pivot)
  {
    hide Sound;
    forall xs: seq<int> | InDomains(ds, xs)
      ensures Value(w, ds, nodes, c, xs) == Flag(xs[dim] < pivot)
    {
      ValueOf(w, ds, nodes, c, xs);
      ValueOf(w, ds, nodes, threshold, xs);
      ValueOf(w, ds, nodes, input, xs);
    }
  }

  /** A selection on a comparison of the input with the pivot splits at the pivot. */
  lemma ComparisonSplits(w: Width, ds: seq<Domain>, before: seq<Op>, nodes: seq<Op>, id: nat, dim: nat, pivot: int,
                         a: nat, b: nat, c: nat)
    requires Sound(w, ds, nodes) && Sound(w, ds, before) && before <= nodes
    requires id < |nodes| && a < |nodes| && b < |nodes| && c < |before| && dim < |ds|
    requires Compares(w, ds, before, c, dim, pivot) && nodes[id] == Apply(Select, [c, a, b])
    ensures Splits(w, ds, nodes, id, dim, pivot, a, b)
  {
    hide Sound;
    forall xs: seq<int> | InDomains(ds, xs)
      ensures Value(w, ds, nodes, id, xs) == Value(w, ds, nodes, if xs[dim] < pivot then a else b, xs)
    {
      ValueOf(w, ds, nodes, id, xs);
      Grown(w, ds, before, nodes, c, xs);
    }
  }

  /** A selection on a Boolean input splits between zero and one. */
  lemma BooleanSplits(w: Width, ds: seq<Domain>, nodes: seq<Op>, id: nat, dim: nat, a: nat, b: nat, input: nat)
    requires Sound(w, ds, nodes) && id < |nodes| && a < |nodes| && b < |nodes| && input < |nodes|
    requires dim < |ds| && ds[dim].min == 0 && ds[dim].max == 1
    requires nodes[input] == Input(dim) && nodes[id] == Apply(Select, [input, b, a])
    ensures Splits(w, ds, nodes, id, dim, 1, a, b)
  {
    hide Sound;
    forall xs: seq<int> | InDomains(ds, xs)
      ensures Value(w, ds, nodes, id, xs) == Value(w, ds, nodes, if xs[dim] < 1 then a else b, xs)
    {
      assert ds[dim].Has(xs[dim]);
      ValueOf(w, ds, nodes, id, xs);
      ValueOf(w, ds, nodes, input, xs);
    }
  }

  // ---------------------------------------------------------------- the builder

  /** The index finds every node, and only nodes: no instruction occurs twice. */
  predicate Indexed(nodes: seq<Op>, index: map<Op, nat>) {
    && (forall op :: op in index ==> index[op] < |nodes| && nodes[index[op]] == op)
    && (forall k :: 0 <= k < |nodes| ==> nodes[k] in index && index[nodes[k]] == k)
  }

  /** The literal of a value of a domain. */
  function Literal(d: Domain, v: int): Op { if d.boolean then Bool(v == 1) else Int(v) }

  predicate AllHave(d: Domain, values: seq<int>) { forall k :: 0 <= k < |values| ==> d.Has(values[k]) }

  predicate Uniform(values: seq<int>) { forall k :: 0 <= k < |values| ==> values[k] == values[0] }

  // ---------------------------------------------------------------- the encoding, without a capacity

  /** Nodes, and the one that was asked for. */
  datatype Built = Built(nodes: seq<Op>, id: nat)

  ghost function IndexIn(nodes: seq<Op>, op: Op): (k: nat)
    requires op in nodes
    ensures k < |nodes| && nodes[k] == op
  {
    var k :| 0 <= k < |nodes| && nodes[k] == op;
    k
  }

  /** An instruction among the nodes, appended only if it is not there. */
  ghost function Put(nodes: seq<Op>, op: Op): (r: Built)
    ensures nodes <= r.nodes && |r.nodes| <= |nodes| + 1 && r.id < |r.nodes| && r.nodes[r.id] == op
  {
    if op in nodes then Built(nodes, IndexIn(nodes, op)) else Built(nodes + [op], |nodes|)
  }

  ghost function ComparisonOf(nodes: seq<Op>, pivot: int, input: nat): (r: Built)
    ensures nodes <= r.nodes && |r.nodes| <= |nodes| + 2 && r.id < |r.nodes|
  {
    var threshold := Put(nodes, Int(pivot));
    Put(threshold.nodes, Apply(Lt, [input, threshold.id]))
  }

  /** The decision between two nodes at a pivot of one input. */
  ghost function DecisionOf(d: Domain, nodes: seq<Op>, dim: nat, pivot: int, a: nat, b: nat): (r: Built)
    ensures nodes <= r.nodes && |r.nodes| <= |nodes| + 4 && r.id < |r.nodes|
  {
    var input := Put(nodes, Input(dim));
    if d.boolean then Put(input.nodes, Apply(Select, [input.id, b, a]))
    else
      var c := ComparisonOf(input.nodes, pivot, input.id);
      Put(c.nodes, Apply(Select, [c.id, a, b]))
  }

  /** The encoding of one block: a literal if its values are one, else of the part that is all of the next domain. */
  ghost function BranchOf(ds: seq<Domain>, nodes: seq<Op>, dim: nat, values: seq<int>, output: Domain,
                          range: Option<Range>): (r: Built)
    requires Block(ds, dim, range) && |values| == Count(ds, dim, range)
    ensures nodes <= r.nodes && |r.nodes| <= |nodes| + 5 * |values| - 4 && r.id < |r.nodes|
    decreases |ds| - dim, |values|, 1
  {
    CountPositive(ds, dim, range);
    assert dim == |ds| ==> ds[dim..] == [];
    if Uniform(values) then Put(nodes, Literal(output, values[0]))
    else if range.Some? then PartOf(ds, nodes, dim, values, output, range.value)
    else
      WholeRange(ds, dim, []);
      PartOf(ds, nodes, dim, values, output, Range(ds[dim].min, Size(ds[dim])))
  }

  /** The encoding of a part: of the next input, or of two halves and the decision between them. */
  ghost function PartOf(ds: seq<Domain>, nodes: seq<Op>, dim: nat, values: seq<int>, output: Domain,
                        part: Range): (r: Built)
    requires Block(ds, dim, Some(part)) && |values| == Count(ds, dim, Some(part))
    ensures nodes <= r.nodes && |r.nodes| <= |nodes| + 5 * |values| - 4 && r.id < |r.nodes|
    decreases |ds| - dim, |values|, 0
  {
    hide Count;
    if part.width == 1 then
      OneValue(ds, dim, Some(part), []);
      BranchOf(ds, nodes, dim + 1, values, output, None)
    else
      var half := part.width / 2;
      Cut(ds, dim, part, half, |values|);
      var cut, pivot := half * Stride(ds, dim), part.lo + half;
      var a := BranchOf(ds, nodes, dim, values[..cut], output, Some(Range(part.lo, half)));
      var b := BranchOf(ds, a.nodes, dim, values[cut..], output, Some(Range(pivot, part.width - half)));
      if a.id == b.id then Built(b.nodes, a.id) else DecisionOf(ds[dim], b.nodes, dim, pivot, a.id, b.id)
  }

  /** The encoding of a part of several values, taken apart. */
  lemma HalvesOf(ds: seq<Domain>, nodes: seq<Op>, dim: nat, values: seq<int>, output: Domain, part: Range,
                 half: nat, cut: nat)
    requires Block(ds, dim, Some(part)) && |values| == Count(ds, dim, Some(part)) && part.width > 1
    requires half == part.width / 2 && dim < |ds| && cut == half * Stride(ds, dim)
    ensures var left, right := Some(Range(part.lo, half)), Some(Range(part.lo + half, part.width - half));
      && Block(ds, dim, left) && Block(ds, dim, right) && cut <= |values|
      && Count(ds, dim, left) == cut && Count(ds, dim, right) == |values| - cut
      && var a := BranchOf(ds, nodes, dim, values[..cut], output, left);
         var b := BranchOf(ds, a.nodes, dim, values[cut..], output, right);
         PartOf(ds, nodes, dim, values, output, part) ==
           if a.id == b.id then Built(b.nodes, a.id) else DecisionOf(ds[dim], b.nodes, dim, part.lo + half, a.id, b.id)
  {
    hide BranchOf;
    hide DecisionOf;
    hide Count;
    Cut(ds, dim, part, half, |values|);
  }

  class TableBuilder {
    const w: Width
    const ds: seq<Domain>
    var nodes: seq<Op>
    var index: map<Op, nat>

    ghost predicate Valid()
      reads this
    {
      && w.least <= 0 && 1 <= w.most && Declared(w, ds) && NonEmpty(ds)
      && Sound(w, ds, nodes) && |nodes| <= MAX_NODES && Indexed(nodes, index)
    }

    constructor (w: Width, ds: seq<Domain>)
      requires w.least <= 0 && 1 <= w.most && Declared(w, ds) && NonEmpty(ds)
      ensures Valid() && nodes == [] && this.w == w && this.ds == ds
    {
      this.w, this.ds, nodes, index := w, ds, [], map[];
    }

    /** The capacity is all that can stop the encoding: it is reached exactly when the encoding needs more nodes. */
    ghost predicate Follows(r: Option<nat>, e: Built)
      reads this
    {
      (r.Some? <==> |e.nodes| <= MAX_NODES) && (r.Some? ==> nodes == e.nodes && r.value == e.id)
    }

    /** The node holding an instruction, appended unless it exists already. */
    method Add(op: Op) returns (r: Option<nat>)
      requires Valid() && Safe(op) && OpKind(w, ds, KindsOf(w, ds, nodes).value, op).Some?
      modifies this
      ensures Valid() && old(nodes) <= nodes
      ensures Follows(r, Put(old(nodes), op))
      ensures r.None? <==> op !in old(nodes) && |old(nodes)| == MAX_NODES
      ensures r.None? ==> |nodes| == MAX_NODES
      ensures r.Some? ==> r.value < |nodes| && nodes[r.value] == op
      ensures nodes == if r.None? || op in old(nodes) then old(nodes) else old(nodes) + [op]
    {
      hide KindsOf;
      hide OpKind;
      hide Declared;
      hide NonEmpty;
      if op in index { return Some(index[op]); }
      if |nodes| >= MAX_NODES { return None; }
      Appended(w, ds, nodes, op);
      r := Some(|nodes|);
      index := index[op := |nodes|];
      nodes := nodes + [op];
    }

    /** What a finished branch leaves: a node of the output's kind that computes the block. */
    ghost predicate Done(id: nat, dim: nat, range: Option<Range>, values: seq<int>, output: Domain)
      requires Valid() && Block(ds, dim, range) && |values| == Count(ds, dim, range)
      reads this
    {
      id < |nodes| && Kind(w, ds, nodes, id) == output.boolean && Computes(w, ds, nodes, id, dim, range, values)
    }

    /** Encodes one block of one output column. */
    method Branch(dim: nat, values: seq<int>, output: Domain, range: Option<Range>) returns (r: Option<nat>)
      requires Valid() && Block(ds, dim, range) && |values| == Count(ds, dim, range)
      requires BooleanRange(output) && w.least <= output.min && output.max <= w.most && AllHave(output, values)
      modifies this
      ensures Valid() && old(nodes) <= nodes
      ensures Follows(r, BranchOf(ds, old(nodes), dim, values, output, range))
      ensures |nodes| <= |old(nodes)| + 5 * |values| - 4 && (|old(nodes)| + 5 * |values| - 4 <= MAX_NODES ==> r.Some?)
      ensures r.None? ==> |nodes| == MAX_NODES
      ensures r.Some? ==> Done(r.value, dim, range, values, output)
      decreases |ds| - dim, |values|, 2
    {
      hide KindsOf;
      hide Computes;
      hide Declared;
      hide NonEmpty;
      hide Indexed;
      hide Sound;
      CountPositive(ds, dim, range);
      assert dim == |ds| ==> ds[dim..] == [];
      if Uniform(values) {
        r := Constant(dim, values, output, range);
        return;
      }
      if range.None? { WholeRange(ds, dim, []); }
      var part := if range.Some? then range.value else Range(ds[dim].min, Size(ds[dim]));
      r := Part(dim, values, output, part);
      if r.Some? && range.None? { WholeComputes(w, ds, nodes, r.value, dim, values); }
    }

    /** Encodes a part of one input's domain: the next input, or two halves told apart at a pivot. */
    method Part(dim: nat, values: seq<int>, output: Domain, part: Range) returns (r: Option<nat>)
      requires Valid() && Block(ds, dim, Some(part)) && |values| == Count(ds, dim, Some(part))
      requires BooleanRange(output) && w.least <= output.min && output.max <= w.most && AllHave(output, values)
      modifies this
      ensures Valid() && old(nodes) <= nodes
      ensures Follows(r, PartOf(ds, old(nodes), dim, values, output, part))
      ensures r.None? ==> |nodes| == MAX_NODES
      ensures r.Some? ==> Done(r.value, dim, Some(part), values, output)
      decreases |ds| - dim, |values|, 1
    {
      hide KindsOf;
      hide Computes;
      hide Declared;
      hide NonEmpty;
      hide Indexed;
      hide Sound;
      hide Count;
      if part.width == 1 {
        OneValue(ds, dim, Some(part), []);
        r := Branch(dim + 1, values, output, None);
        if r.Some? { OneValueComputes(w, ds, nodes, r.value, dim, Some(part), values); }
        return;
      }
      r := Halve(dim, values, output, part);
    }

    method Halve(dim: nat, values: seq<int>, output: Domain, part: Range) returns (r: Option<nat>)
      requires Valid() && Block(ds, dim, Some(part)) && |values| == Count(ds, dim, Some(part)) && part.width > 1
      requires BooleanRange(output) && w.least <= output.min && output.max <= w.most && AllHave(output, values)
      modifies this
      ensures Valid() && old(nodes) <= nodes
      ensures Follows(r, PartOf(ds, old(nodes), dim, values, output, part))
      ensures r.None? ==> |nodes| == MAX_NODES
      ensures r.Some? ==> Done(r.value, dim, Some(part), values, output)
      decreases |ds| - dim, |values|, 0
    {
      hide KindsOf;
      hide Computes;
      hide Declared;
      hide NonEmpty;
      hide Indexed;
      hide Sound;
      hide Count;
      hide PartOf;
      hide BranchOf;
      hide DecisionOf;
      hide Stride;
      hide Block;
      ghost var start := nodes;
      var half := part.width / 2;
      Cut(ds, dim, part, half, |values|);
      var stride := |values| / part.width;
      var cut, pivot := half * stride, part.lo + half;
      HalvesOf(ds, start, dim, values, output, part, half, cut);
      var left, right := Some(Range(part.lo, half)), Some(Range(pivot, part.width - half));
      var a := Branch(dim, values[..cut], output, left);
      if a.None? { return None; }
      ghost var before := nodes;
      var b := Branch(dim, values[cut..], output, right);
      if b.None? { return None; }
      Grown(w, ds, before, nodes, a.value, []);
      GrownComputes(w, ds, before, nodes, a.value, dim, left, values[..cut]);
      r := Join(dim, part, half, cut, values, output, a.value, b.value);
    }

    /** Two encoded halves become one node, or stay the one node they share. */
    method Join(dim: nat, part: Range, half: nat, cut: nat, values: seq<int>, output: Domain, a: nat, b: nat)
      returns (r: Option<nat>)
      requires Valid() && Block(ds, dim, Some(part)) && |values| == Count(ds, dim, Some(part))
      requires 1 <= half < part.width && half == part.width / 2
      requires var left, right := Some(Range(part.lo, half)), Some(Range(part.lo + half, part.width - half));
        && Block(ds, dim, left) && Block(ds, dim, right) && cut <= |values| && cut == half * Stride(ds, dim)
        && Count(ds, dim, left) == cut && Count(ds, dim, right) == |values| - cut
        && Done(a, dim, left, values[..cut], output) && Done(b, dim, right, values[cut..], output)
      modifies this
      ensures Valid() && old(nodes) <= nodes
      ensures Follows(r, if a == b then Built(old(nodes), a)
                         else DecisionOf(ds[dim], old(nodes), dim, part.lo + half, a, b))
      ensures r.None? ==> |nodes| == MAX_NODES
      ensures r.Some? ==> Done(r.value, dim, Some(part), values, output)
    {
      hide KindsOf;
      hide Computes;
      hide NonEmpty;
      hide Indexed;
      hide Sound;
      hide Count;
      hide Splits;
      ghost var before := nodes;
      var pivot := part.lo + half;
      if a == b {
        SameSplits(w, ds, nodes, a, dim, pivot);
        HalvesCompute(w, ds, nodes, a, dim, part.lo, part.width, half, a, b, values);
        return Some(a);
      }
      assert ds[dim].boolean ==> pivot == 1;
      r := Decision(dim, pivot, a, b);
      if r.Some? {
        var left, right := Some(Range(part.lo, half)), Some(Range(pivot, part.width - half));
        GrownComputes(w, ds, before, nodes, a, dim, left, values[..cut]);
        GrownComputes(w, ds, before, nodes, b, dim, right, values[cut..]);
        HalvesCompute(w, ds, nodes, r.value, dim, part.lo, part.width, half, a, b, values);
      }
    }

    /** A node that takes `a` below the pivot and `b` from it on. */
    method Decision(dim: nat, pivot: int, a: nat, b: nat) returns (r: Option<nat>)
      requires Valid() && dim < |ds| && a < |nodes| && b < |nodes|
      requires Kind(w, ds, nodes, a) == Kind(w, ds, nodes, b)
      requires w.least <= pivot <= w.most && (ds[dim].boolean ==> pivot == 1)
      modifies this
      ensures Valid() && old(nodes) <= nodes
      ensures Follows(r, DecisionOf(ds[dim], old(nodes), dim, pivot, a, b))
      ensures r.None? ==> |nodes| == MAX_NODES
      ensures r.Some? ==> r.value < |nodes| && Kind(w, ds, nodes, r.value) == old(Kind(w, ds, nodes, a))
      ensures r.Some? ==> Splits(w, ds, nodes, r.value, dim, pivot, a, b)
    {
      hide KindsOf;
      hide NonEmpty;
      hide Indexed;
      hide Sound;
      hide Splits;
      hide ComparisonOf;
      hide Put;
      ghost var before := nodes;
      var input := Add(Input(dim));
      if input.None? { return None; }
      Grown(w, ds, before, nodes, a, []);
      Grown(w, ds, before, nodes, b, []);
      if ds[dim].boolean { r := OnBoolean(dim, a, b, input.value); }
      else { r := OnThreshold(dim, pivot, a, b, input.value); }
    }

    /** The decision on a Boolean input is a selection on the input itself. */
    method OnBoolean(dim: nat, a: nat, b: nat, input: nat) returns (r: Option<nat>)
      requires Valid() && dim < |ds| && ds[dim].boolean && a < |nodes| && b < |nodes|
      requires input < |nodes| && nodes[input] == Input(dim) && Kind(w, ds, nodes, a) == Kind(w, ds, nodes, b)
      modifies this
      ensures Valid() && old(nodes) <= nodes
      ensures Follows(r, Put(old(nodes), Apply(Select, [input, b, a])))
      ensures r.None? ==> |nodes| == MAX_NODES
      ensures r.Some? ==> r.value < |nodes| && Kind(w, ds, nodes, r.value) == old(Kind(w, ds, nodes, a))
      ensures r.Some? ==> Splits(w, ds, nodes, r.value, dim, 1, a, b)
    {
      hide KindsOf;
      hide NonEmpty;
      hide Indexed;
      hide Sound;
      hide Splits;
      hide Put;
      ghost var before := nodes;
      assert ds[dim].min == 0 && ds[dim].max == 1;
      KindOf(w, ds, nodes, input);
      SelectKind(w, ds, nodes, input, b, a);
      r := Add(Apply(Select, [input, b, a]));
      if r.Some? {
        BooleanSplits(w, ds, nodes, r.value, dim, a, b, input);
        KindOf(w, ds, nodes, r.value);
        Grown(w, ds, before, nodes, b, []);
      }
    }

    /** The decision on an integer input is a selection on its comparison with the pivot. */
    method OnThreshold(dim: nat, pivot: int, a: nat, b: nat, input: nat) returns (r: Option<nat>)
      requires Valid() && dim < |ds| && !ds[dim].boolean && w.least <= pivot <= w.most && a < |nodes| && b < |nodes|
      requires input < |nodes| && nodes[input] == Input(dim) && Kind(w, ds, nodes, a) == Kind(w, ds, nodes, b)
      modifies this
      ensures Valid() && old(nodes) <= nodes
      ensures var c := ComparisonOf(old(nodes), pivot, input);
        Follows(r, Put(c.nodes, Apply(Select, [c.id, a, b])))
      ensures r.None? ==> |nodes| == MAX_NODES
      ensures r.Some? ==> r.value < |nodes| && Kind(w, ds, nodes, r.value) == old(Kind(w, ds, nodes, a))
      ensures r.Some? ==> Splits(w, ds, nodes, r.value, dim, pivot, a, b)
    {
      hide KindsOf;
      hide NonEmpty;
      hide Indexed;
      hide Sound;
      hide Splits;
      hide Declared;
      hide ComparisonOf;
      hide Put;
      ghost var before := nodes;
      var c := Comparison(dim, pivot, input);
      if c.None? { return None; }
      Grown(w, ds, before, nodes, a, []);
      Grown(w, ds, before, nodes, b, []);
      SelectKind(w, ds, nodes, c.value, a, b);
      ghost var middle := nodes;
      r := Add(Apply(Select, [c.value, a, b]));
      if r.Some? {
        ComparisonSplits(w, ds, middle, nodes, r.value, dim, pivot, a, b, c.value);
        KindOf(w, ds, nodes, r.value);
        Grown(w, ds, before, nodes, a, []);
      }
    }

    /** A Boolean node telling whether an input lies below the pivot. */
    method Comparison(dim: nat, pivot: int, input: nat) returns (c: Option<nat>)
      requires Valid() && dim < |ds| && !ds[dim].boolean && w.least <= pivot <= w.most
      requires input < |nodes| && nodes[input] == Input(dim)
      modifies this
      ensures Valid() && old(nodes) <= nodes
      ensures Follows(c, ComparisonOf(old(nodes), pivot, input))
      ensures c.None? ==> |nodes| == MAX_NODES
      ensures c.Some? ==>
        c.value < |nodes| && Kind(w, ds, nodes, c.value) && Compares(w, ds, nodes, c.value, dim, pivot)
    {
      hide KindsOf;
      hide NonEmpty;
      hide Indexed;
      hide Sound;
      hide Declared;
      hide Compares;
      var threshold := Add(Int(pivot));
      if threshold.None? { return None; }
      KindOf(w, ds, nodes, input);
      KindOf(w, ds, nodes, threshold.value);
      LtKind(w, ds, nodes, input, threshold.value);
      c := Add(Apply(Lt, [input, threshold.value]));
      if c.Some? {
        KindOf(w, ds, nodes, c.value);
        LtCompares(w, ds, nodes, dim, pivot, input, threshold.value, c.value);
      }
    }

    /** A block of equal values is one literal. */
    method Constant(dim: nat, values: seq<int>, output: Domain, range: Option<Range>) returns (r: Option<nat>)
      requires Valid() && Block(ds, dim, range) && |values| == Count(ds, dim, range) && values != []
      requires BooleanRange(output) && w.least <= output.min && output.max <= w.most && AllHave(output, values)
      requires forall k :: 0 <= k < |values| ==> values[k] == values[0]
      modifies this
      ensures Valid() && old(nodes) <= nodes
      ensures Follows(r, Put(old(nodes), Literal(output, values[0])))
      ensures r.None? ==> |nodes| == MAX_NODES
      ensures r.Some? ==> Done(r.value, dim, range, values, output)
    {
      hide KindsOf;
      hide Computes;
      hide Count;
      hide Declared;
      hide NonEmpty;
      hide Indexed;
      assert output.Has(values[0]);
      r := Add(Literal(output, values[0]));
      if r.Some? {
        KindOf(w, ds, nodes, r.value);
        ConstantComputes(w, ds, nodes, r.value, dim, range, values, values[0]);
      }
    }
  }

  // ---------------------------------------------------------------- the whole table

  function Column(w: Width, t: Table, j: nat): (c: seq<int>)
    requires Complete(w, t) && j < |t.outputs|
    ensures |c| == |t.rows| && forall i :: 0 <= i < |c| ==> c[i] == t.rows[i][j]
  {
    seq(|t.rows|, i requires 0 <= i < |t.rows| => t.rows[i][j])
  }

  lemma ColumnFits(w: Width, t: Table, j: nat)
    requires Complete(w, t) && j < |t.outputs|
    ensures AllHave(t.outputs[j], Column(w, t, j)) && |Column(w, t, j)| == Count(t.inputs, 0, None)
    ensures BooleanRange(t.outputs[j]) && w.least <= t.outputs[j].min && t.outputs[j].max <= w.most
  {
    hide Points;
    PointsLength(t.inputs);
    assert t.inputs[0..] == t.inputs;
    forall i | 0 <= i < |t.rows|
      ensures t.outputs[j].Has(Column(w, t, j)[i])
    {
      assert InDomains(t.outputs, t.rows[i]);
    }
  }

  /** Root `k` computes column `k`, with the kind of output `k`. */
  ghost predicate Rooted(w: Width, t: Table, nodes: seq<Op>, root: nat, k: nat)
    requires Complete(w, t) && Sound(w, t.inputs, nodes) && k < |t.outputs|
  {
    ColumnFits(w, t, k);
    && root < |nodes| && Kind(w, t.inputs, nodes, root) == t.outputs[k].boolean
    && Computes(w, t.inputs, nodes, root, 0, None, Column(w, t, k))
  }

  lemma GrownRooted(w: Width, t: Table, before: seq<Op>, nodes: seq<Op>, root: nat, k: nat)
    requires Complete(w, t) && Sound(w, t.inputs, nodes) && Sound(w, t.inputs, before) && before <= nodes
    requires k < |t.outputs|
    requires Rooted(w, t, before, root, k)
    ensures Rooted(w, t, nodes, root, k)
  {
    hide Sound;
    hide Computes;
    ColumnFits(w, t, k);
    Grown(w, t.inputs, before, nodes, root, []);
    GrownComputes(w, t.inputs, before, nodes, root, 0, None, Column(w, t, k));
  }

  ghost predicate AllRooted(w: Width, t: Table, nodes: seq<Op>, roots: seq<nat>)
    requires Complete(w, t) && Sound(w, t.inputs, nodes) && |roots| <= |t.outputs|
  {
    forall k :: 0 <= k < |roots| ==> Rooted(w, t, nodes, roots[k], k)
  }

  lemma AllRootedNone(w: Width, t: Table, nodes: seq<Op>)
    requires Complete(w, t) && Sound(w, t.inputs, nodes)
    ensures AllRooted(w, t, nodes, [])
  {
  }

  lemma AllRootedNext(w: Width, t: Table, before: seq<Op>, nodes: seq<Op>, roots: seq<nat>, root: nat)
    requires Complete(w, t) && Sound(w, t.inputs, nodes) && Sound(w, t.inputs, before) && before <= nodes
    requires |roots| < |t.outputs| && AllRooted(w, t, before, roots) && Rooted(w, t, nodes, root, |roots|)
    ensures AllRooted(w, t, nodes, roots + [root])
  {
    hide Complete;
    hide Sound;
    hide Rooted;
    forall k | 0 <= k < |roots|
      ensures Rooted(w, t, nodes, roots[k], k)
    {
      GrownRooted(w, t, before, nodes, roots[k], k);
    }
  }

  /** A program whose roots compute the columns is admitted and computes the table. */
  lemma RootedReplays(w: Width, t: Table, p: Program)
    requires Complete(w, t) && Sound(w, t.inputs, p.nodes) && p.inputs == t.inputs && p.outputs == t.outputs
    requires |p.roots| == |t.outputs|
    requires AllRooted(w, t, p.nodes, p.roots)
    ensures Admitted(w, t, p) && Replay(w, t, p)
  {
    assert Checked(w, p) by {
      hide Complete;
      hide KindsOf;
      forall k | 0 <= k < |p.roots|
        ensures p.roots[k] < |p.nodes| && KindsOf(w, p.inputs, p.nodes).value[p.roots[k]] == p.outputs[k].boolean
      {
        assert Rooted(w, t, p.nodes, p.roots[k], k);
      }
    }
    CheckedScoped(w, p);
    hide Complete;
    hide Sound;
    hide Checked;
    hide WellScoped;
    forall i | 0 <= i < |t.rows|
      ensures Matches(w, t, p, i)
    {
      RootedMatches(w, t, p, i);
    }
  }

  lemma RootedMatches(w: Width, t: Table, p: Program, i: nat)
    requires Complete(w, t) && Sound(w, t.inputs, p.nodes) && Admitted(w, t, p) && i < |t.rows|
    requires forall k :: 0 <= k < |t.outputs| ==> Rooted(w, t, p.nodes, p.roots[k], k)
    ensures Matches(w, t, p, i)
  {
    hide Points;
    hide Sound;
    hide Checked;
    hide Declared;
    var xs := PointAt(t, i);
    NeverRefuses(w, t.inputs, p.nodes, xs);
    var vs := NodeValues(w, p.nodes, xs).value;
    hide NodeValues;
    var out := Project(vs, p.roots);
    assert InDomains(t.outputs, t.rows[i]);
    forall k | 0 <= k < |out|
      ensures out[k] == t.rows[i][k]
    {
      RootValue(w, t, p.nodes, p.roots[k], k, i);
    }
    assert out == t.rows[i];
  }

  lemma RootValue(w: Width, t: Table, nodes: seq<Op>, root: nat, k: nat, i: nat)
    requires Complete(w, t) && Sound(w, t.inputs, nodes) && k < |t.outputs| && i < |t.rows|
    requires Rooted(w, t, nodes, root, k)
    ensures root < |nodes| && Value(w, t.inputs, nodes, root, PointAt(t, i)) == t.rows[i][k]
  {
    hide Points;
    hide Sound;
    hide Rank;
    hide Declared;
    ColumnFits(w, t, k);
    var xs := PointAt(t, i);
    assert t.inputs[0..] == t.inputs && xs[0..] == xs;
    assert InBlock(t.inputs, 0, None, xs);
    assert IsValueAt(w, t.inputs, nodes, root, 0, None, Column(w, t, k), xs);
  }

  /** The nodes and roots that encode the first `n` columns. */
  ghost function ColumnsOf(w: Width, t: Table, n: nat): (r: (seq<Op>, seq<nat>))
    requires Complete(w, t) && n <= |t.outputs|
    ensures |r.1| == n && |r.0| <= n * Cost(t)
  {
    if n == 0 then ([], []) else
      var (nodes, roots) := ColumnsOf(w, t, n - 1);
      ColumnFits(w, t, n - 1);
      var e := BranchOf(t.inputs, nodes, 0, Column(w, t, n - 1), t.outputs[n - 1], None);
      MoreCost(n - 1, n, Cost(t));
      (e.nodes, roots + [e.id])
  }

  /** What one column can cost at most. */
  function Cost(t: Table): nat { if t.rows == [] then 0 else 5 * |t.rows| - 4 }

  /** The whole table as a program, however many nodes it takes. */
  ghost function EncodingOf(w: Width, t: Table): (p: Program)
    requires Complete(w, t)
    ensures |p.nodes| <= |t.outputs| * Cost(t)
  {
    var (nodes, roots) := ColumnsOf(w, t, |t.outputs|);
    Program(t.inputs, t.outputs, nodes, roots)
  }

  lemma ColumnsNext(w: Width, t: Table, n: nat)
    requires Complete(w, t) && n < |t.outputs|
    ensures var (nodes, roots) := ColumnsOf(w, t, n);
      && |Column(w, t, n)| == Count(t.inputs, 0, None)
      && var e := BranchOf(t.inputs, nodes, 0, Column(w, t, n), t.outputs[n], None);
         ColumnsOf(w, t, n + 1) == (e.nodes, roots + [e.id])
  {
    ColumnFits(w, t, n);
    hide BranchOf;
    hide Complete;
  }

  lemma {:induction false} ColumnsGrow(w: Width, t: Table, n: nat, k: nat)
    requires Complete(w, t) && n <= k <= |t.outputs|
    ensures |ColumnsOf(w, t, n).0| <= |ColumnsOf(w, t, k).0|
  {
    if n < k {
      ColumnsGrow(w, t, n, k - 1);
      ColumnsNext(w, t, k - 1);
      hide ColumnsOf;
    }
  }

  /**
   The encoded table: an admitted program that replays the table.  It exists exactly when the encoding
   fits the capacity, and then is that encoding.
   */
  method TableProgram(w: Width, t: Table) returns (r: Option<Program>)
    requires Complete(w, t)
    ensures r.Some? <==> |EncodingOf(w, t).nodes| <= MAX_NODES
    ensures r.Some? ==> r.value == EncodingOf(w, t) && Admitted(w, t, r.value) && Replay(w, t, r.value)
  {
    var builder := new TableBuilder(w, t.inputs);
    var roots := [];
    assert ColumnsOf(w, t, 0) == ([], []);
    hide Complete;
    hide Sound;
    hide Rooted;
    hide ColumnsOf;
    hide BranchOf;
    hide AllRooted;
    hide Indexed;
    hide Declared;
    AllRootedNone(w, t, builder.nodes);
    while |roots| < |t.outputs|
      invariant builder.Valid() && builder.w == w && builder.ds == t.inputs && fresh(builder)
      invariant |roots| <= |t.outputs| && ColumnsOf(w, t, |roots|) == (builder.nodes, roots)
      invariant Sound(w, t.inputs, builder.nodes) && AllRooted(w, t, builder.nodes, roots)
    {
      var j := |roots|;
      ColumnFits(w, t, j);
      ColumnsNext(w, t, j);
      ghost var before := builder.nodes;
      var root := builder.Branch(0, Column(w, t, j), t.outputs[j], None);
      if root.None? {
        ColumnsGrow(w, t, j + 1, |t.outputs|);
        return None;
      }
      DoneRooted(builder, t, root.value, j);
      AllRootedNext(w, t, before, builder.nodes, roots, root.value);
      roots := roots + [root.value];
    }
    var p := Program(t.inputs, t.outputs, builder.nodes, roots);
    RootedReplays(w, t, p);
    return Some(p);
  }

  lemma MoreCost(j: nat, n: nat, cost: nat)
    requires j < n
    ensures j * cost + cost == (j + 1) * cost <= n * cost
  {
    MulBound(j + 1, cost, n, cost);
  }

  lemma DoneRooted(builder: TableBuilder, t: Table, root: nat, j: nat)
    requires Complete(builder.w, t) && builder.ds == t.inputs && builder.Valid() && j < |t.outputs|
    requires |Column(builder.w, t, j)| == Count(t.inputs, 0, None)
    requires builder.Done(root, 0, None, Column(builder.w, t, j), t.outputs[j])
    ensures Rooted(builder.w, t, builder.nodes, root, j)
  {
    hide Complete;
    hide Computes;
  }
}
