/**
 The shared comparison of two finite programs: admission of the pair, an exhaustive scan with the
 odometer, step accounting, and the verdict.  Programs are their observations.
 */
module Checker {
  import opened Patterns
  import opened Ir
  import opened Wide
  import opened Odometer

  datatype Observation<R> = Observation(result: R, steps: nat)

  /** A program as the checker sees it: its interface and what it does on each tuple. */
  datatype Subject<!R> = Subject(inputs: seq<Domain>, outputs: seq<Domain>, observe: seq<int> -> Observation<R>)

  /** Step statistics over the tuples visited: largest uses, runs over the limit, and differences. */
  datatype Tally = Tally(maxA: nat, maxB: nat, overA: nat, overB: nat, more: nat, differs: bool)

  datatype Failure<R> =
    | InputAbi
    | OutputAbi
    | EmptyInputDomain(position: nat)
    | DomainTooLarge(size: Option<nat>, limit: nat)
    | Counterexample(ordinal: nat, input: seq<int>, original: Observation<R>, candidate: Observation<R>)
    | CoverageMismatch(expected: nat, visited: nat)
    | BudgetBoundary(overA: nat, overB: nat, minimum: nat)

  datatype Outcome<T, R> = Passed(value: T) | Failed(failure: Failure<R>)

  // ---------------------------------------------------------------- cardinality

  /** The first empty domain, or the exact product when it fits 128 bits. */
  datatype Cardinality = Empty(position: nat) | Exact(size: nat) | TooLarge

  function CardinalityOf(ds: seq<Domain>): Cardinality {
    if ds == [] then Exact(1)
    else var k := |ds| - 1;
      match CardinalityOf(ds[..k])
      case Empty(i) => Empty(i)
      case Exact(n) =>
        if ds[k].min > ds[k].max then Empty(k)
        else if n * Size(ds[k]) >= SCALE then TooLarge
        else MulBound(0, 0, n, Size(ds[k])); Exact(n * Size(ds[k]))
      case TooLarge => if ds[k].min > ds[k].max then Empty(k) else TooLarge
  }

  /** The loop: an empty domain is reported even after the product has overflowed. */
  method DomainSize(ds: seq<Domain>) returns (r: Cardinality)
    ensures r == CardinalityOf(ds)
  {
    var size, position := Some(1), 0;
    while position < |ds|
      invariant 0 <= position <= |ds|
      invariant size.Some? ==> size.value >= 0
      invariant CardinalityOf(ds[..position]) == if size.Some? then Exact(size.value) else TooLarge
    {
      assert ds[..position + 1][..position] == ds[..position];
      if ds[position].min > ds[position].max {
        EmptyStays(ds, position + 1);
        return Empty(position);
      }
      var width := Size(ds[position]);
      if size.Some? { MulBound(0, 0, size.value, width); }
      size := if size.Some? && size.value * width < SCALE then Some(size.value * width) else None;
      position := position + 1;
    }
    assert ds[..|ds|] == ds;
    return if size.Some? then Exact(size.value) else TooLarge;
  }

  lemma {:induction false} EmptyStays(ds: seq<Domain>, k: nat)
    requires k <= |ds| && CardinalityOf(ds[..k]).Empty?
    ensures CardinalityOf(ds) == CardinalityOf(ds[..k])
    decreases |ds| - k
  {
    if k == |ds| { assert ds[..k] == ds; }
    else {
      assert ds[..k + 1][..k] == ds[..k];
      EmptyStays(ds, k + 1);
    }
  }

  /** The cardinality is the product, refused at the first empty domain or beyond 128 bits. */
  lemma {:induction false} CardinalityIs(ds: seq<Domain>)
    ensures match CardinalityOf(ds)
      case Empty(i) => i < |ds| && NonEmpty(ds[..i]) && ds[i].min > ds[i].max
      case Exact(n) => NonEmpty(ds) && n == Product(ds) < SCALE
      case TooLarge => NonEmpty(ds) && Product(ds) >= SCALE
  {
    if ds != [] {
      var k := |ds| - 1;
      CardinalityIs(ds[..k]);
      assert forall i :: 0 <= i < k ==> ds[..k][i] == ds[i];
      match CardinalityOf(ds[..k])
      case Empty(i) => assert ds[..k][..i] == ds[..i];
      case Exact(n) => if NonEmpty(ds) { MulBound(0, 0, n, Size(ds[k])); }
      case TooLarge => if NonEmpty(ds) { MulBound(SCALE, 1, Product(ds[..k]), Size(ds[k])); }
    }
  }

  // ---------------------------------------------------------------- the scan

  function Max(a: nat, b: nat): nat { if a > b then a else b }

  function Record(t: Tally, a: nat, b: nat, limit: nat): Tally {
    Tally(Max(a, t.maxA), Max(b, t.maxB), t.overA + (if a > limit then 1 else 0),
          t.overB + (if b > limit then 1 else 0), t.more + (if b > a then 1 else 0), t.differs || b != a)
  }

  const NOTHING := Tally(0, 0, 0, 0, 0, false)

  /** The statistics over the first `n` points. */
  function TallyOf<R>(a: Subject<R>, b: Subject<R>, ps: seq<seq<int>>, limit: nat, n: nat): Tally
    requires n <= |ps|
  {
    if n == 0 then NOTHING
    else Record(TallyOf(a, b, ps, limit, n - 1), a.observe(ps[n - 1]).steps, b.observe(ps[n - 1]).steps, limit)
  }

  predicate Same<R(==)>(a: Subject<R>, b: Subject<R>, xs: seq<int>) { a.observe(xs).result == b.observe(xs).result }

  /** The programs agree on every tuple of the domain. */
  ghost predicate AllEqual<R(!new)>(a: Subject<R>, b: Subject<R>) {
    forall xs: seq<int> :: InDomains(a.inputs, xs) ==> Same(a, b, xs)
  }

  /** The programs agree on the first `n` points of the plain enumeration. */
  ghost predicate EqualPrefix<R>(a: Subject<R>, b: Subject<R>, ps: seq<seq<int>>, n: nat) {
    n <= |ps| && forall k :: 0 <= k < n ==> Same(a, b, ps[k])
  }

  /** Agreeing on all points of the enumeration is agreeing everywhere. */
  lemma PrefixIsEverything<R(!new)>(a: Subject<R>, b: Subject<R>)
    requires NonEmpty(a.inputs)
    ensures Product(a.inputs) >= 1 && |Points(a.inputs)| == Product(a.inputs)
    ensures EqualPrefix(a, b, Points(a.inputs), Product(a.inputs)) <==> AllEqual(a, b)
  {
    var ds := a.inputs;
    ProductPositive(ds);
    RankOfPoint(ds, 0);
    if EqualPrefix(a, b, Points(ds), Product(ds)) {
      forall xs: seq<int> | InDomains(ds, xs)
        ensures Same(a, b, xs)
      {
        PointAtRank(ds, xs);
      }
    }
    if AllEqual(a, b) {
      forall k | 0 <= k < Product(ds)
        ensures Same(a, b, Points(ds)[k])
      {
        RankOfPoint(ds, k);
      }
    }
  }

  /** A reported counterexample is the first point on which the programs differ. */
  ghost predicate Witness<R>(a: Subject<R>, b: Subject<R>, f: Failure<R>)
    requires NonEmpty(a.inputs)
  {
    && f.Counterexample? && f.ordinal < |Points(a.inputs)| && f.input == Points(a.inputs)[f.ordinal]
    && f.original == a.observe(f.input) && f.candidate == b.observe(f.input)
    && f.original.result != f.candidate.result && EqualPrefix(a, b, Points(a.inputs), f.ordinal)
  }

  /** Before each tuple: it is the one at ordinal `visited`, and all earlier ones agreed and were counted. */
  ghost predicate Reached<R>(a: Subject<R>, b: Subject<R>, limit: nat, xs: seq<int>, visited: nat, tally: Tally)
    requires NonEmpty(a.inputs)
  {
    && InDomains(a.inputs, xs) && Rank(a.inputs, xs) == visited && visited < |Points(a.inputs)| == Product(a.inputs)
    && EqualPrefix(a, b, Points(a.inputs), visited) && tally == TallyOf(a, b, Points(a.inputs), limit, visited)
  }

  /** All tuples agreed and were counted. */
  ghost predicate Covered<R(!new)>(a: Subject<R>, b: Subject<R>, limit: nat, visited: nat, tally: Tally)
    requires NonEmpty(a.inputs)
  {
    && AllEqual(a, b) && visited == |Points(a.inputs)| == Product(a.inputs)
    && tally == TallyOf(a, b, Points(a.inputs), limit, visited)
  }

  lemma ReachedFirst<R(!new)>(a: Subject<R>, b: Subject<R>, limit: nat)
    requires NonEmpty(a.inputs)
    ensures Reached(a, b, limit, First(a.inputs), 0, NOTHING)
  {
    hide Points;
    FirstRank(a.inputs);
    PrefixIsEverything(a, b);
  }

  lemma ReachedWitness<R(!new)>(a: Subject<R>, b: Subject<R>, limit: nat, xs: seq<int>, visited: nat, tally: Tally)
    requires NonEmpty(a.inputs) && Reached(a, b, limit, xs, visited, tally) && !Same(a, b, xs)
    ensures Witness(a, b, Counterexample(visited, xs, a.observe(xs), b.observe(xs)))
  {
    hide Points;
    hide Rank;
    hide Product;
    PointAtRank(a.inputs, xs);
  }

  lemma ReachedNext<R(!new)>(a: Subject<R>, b: Subject<R>, limit: nat, xs: seq<int>, visited: nat, tally: Tally)
    requires NonEmpty(a.inputs) && Reached(a, b, limit, xs, visited, tally) && Same(a, b, xs)
    ensures var (ys, more) := Advanced(a.inputs, xs);
      var next := Record(tally, a.observe(xs).steps, b.observe(xs).steps, limit);
      if more then Reached(a, b, limit, ys, visited + 1, next) else Covered(a, b, limit, visited + 1, next)
  {
    hide Points;
    hide Rank;
    hide Product;
    hide Advanced;
    hide AllEqual;
    hide InDomains;
    hide NonEmpty;
    hide Record;
    PointAtRank(a.inputs, xs);
    AdvancedRank(a.inputs, xs);
    PrefixIsEverything(a, b);
    assert EqualPrefix(a, b, Points(a.inputs), visited + 1);
  }

  /**
   The exhaustive scan with the in-place odometer.  On an admitted pair it passes exactly when the
   programs agree on every tuple, and otherwise reports the least ordinal on which they differ.
   */
  method Scan<R(==, !new)>(a: Subject<R>, b: Subject<R>, size: nat, limit: nat) returns (r: Outcome<Tally, R>)
    ensures NonEmpty(a.inputs) && size == Product(a.inputs) ==>
      match r
      case Passed(t) => Covered(a, b, limit, size, t)
      case Failed(f) => Witness(a, b, f)
  {
    hide Reached;
    hide Covered;
    hide Witness;
    hide Product;
    hide Record;
    hide Advanced;
    hide NonEmpty;
    var ds := a.inputs;
    var input := FirstTuple(ds);
    var tally, visited := NOTHING, 0;
    ghost var qualified := NonEmpty(ds) && size == Product(ds);
    if qualified { ReachedFirst(a, b, limit); ReachedBelow(a, b, limit, First(ds), 0, tally); }
    while true
      invariant input.Length == |ds| && visited <= size && fresh(input)
      invariant qualified ==> visited < size && Reached(a, b, limit, input[..], visited, tally)
      decreases size - visited
    {
      if visited == size { return Failed(CoverageMismatch(size, visited + 1)); }
      ghost var xs, before := input[..], tally;
      var left, right := a.observe(input[..]), b.observe(input[..]);
      if left.result != right.result {
        if qualified { ReachedWitness(a, b, limit, xs, visited, tally); }
        return Failed(Counterexample(visited, input[..], left, right));
      }
      tally := Record(tally, left.steps, right.steps, limit);
      if qualified { ReachedNext(a, b, limit, xs, visited, before); }
      visited := visited + 1;
      var more := Advance(ds, input);
      assert (input[..], more) == Advanced(ds, xs) by {
        assert input[..|ds|] == input[..] && ds[..|ds|] == ds && xs == xs[..|ds|];
      }
      if !more { break; }
      if qualified { ReachedBelow(a, b, limit, input[..], visited, tally); }
    }
    if visited != size {
      if qualified { CoveredSize(a, b, limit, visited, tally); }
      return Failed(CoverageMismatch(size, visited));
    }
    return Passed(tally);
  }

  lemma ReachedBelow<R>(a: Subject<R>, b: Subject<R>, limit: nat, xs: seq<int>, visited: nat, tally: Tally)
    requires NonEmpty(a.inputs) && Reached(a, b, limit, xs, visited, tally)
    ensures visited < Product(a.inputs)
  {
  }

  lemma CoveredSize<R(!new)>(a: Subject<R>, b: Subject<R>, limit: nat, visited: nat, tally: Tally)
    requires NonEmpty(a.inputs) && Covered(a, b, limit, visited, tally)
    ensures visited == Product(a.inputs)
  {
  }

  method FirstTuple(ds: seq<Domain>) returns (tuple: array<int>)
    ensures fresh(tuple) && tuple[..] == First(ds)
  {
    tuple := new int[|ds|](i requires 0 <= i < |ds| => ds[i].min);
  }

  // ---------------------------------------------------------------- the verdict

  /** The largest number of steps either program takes on the first `n` points. */
  ghost predicate StepsWithin<R>(a: Subject<R>, ps: seq<seq<int>>, n: nat, bound: nat) {
    n <= |ps| && forall k :: 0 <= k < n ==> a.observe(ps[k]).steps <= bound
  }

  /** The counts are zero exactly when every run is within the limit; the maxima are exact. */
  lemma {:induction false} TallyMeans<R>(a: Subject<R>, b: Subject<R>, ps: seq<seq<int>>, limit: nat, n: nat)
    requires n <= |ps|
    ensures var t := TallyOf(a, b, ps, limit, n);
      && (t.overA == 0 <==> StepsWithin(a, ps, n, limit)) && (t.overB == 0 <==> StepsWithin(b, ps, n, limit))
      && (forall bound: nat :: StepsWithin(a, ps, n, bound) <==> t.maxA <= bound)
      && (forall bound: nat :: StepsWithin(b, ps, n, bound) <==> t.maxB <= bound)
  {
    if n > 0 {
      TallyMeans(a, b, ps, limit, n - 1);
      hide StepsWithin;
      StepsNext(a, ps, n - 1);
      StepsNext(b, ps, n - 1);
      forall bound: nat
        ensures StepsWithin(a, ps, n, bound) <==> TallyOf(a, b, ps, limit, n).maxA <= bound
        ensures StepsWithin(b, ps, n, bound) <==> TallyOf(a, b, ps, limit, n).maxB <= bound
      {
        assert StepsWithin(a, ps, n - 1, bound) <==> TallyOf(a, b, ps, limit, n - 1).maxA <= bound;
        assert StepsWithin(b, ps, n - 1, bound) <==> TallyOf(a, b, ps, limit, n - 1).maxB <= bound;
      }
    }
  }

  /** The points on which a program takes more than `limit` steps. */
  ghost function Over<R>(a: Subject<R>, limit: nat, ps: seq<seq<int>>, n: nat): set<nat>
    requires n <= |ps|
  {
    set k | 0 <= k < n && a.observe(ps[k]).steps > limit
  }

  /** The points on which the second program takes more steps than the first. */
  ghost function Dearer<R>(a: Subject<R>, b: Subject<R>, ps: seq<seq<int>>, n: nat): set<nat>
    requires n <= |ps|
  {
    set k | 0 <= k < n && b.observe(ps[k]).steps > a.observe(ps[k]).steps
  }

  lemma OverNext<R>(a: Subject<R>, limit: nat, ps: seq<seq<int>>, n: nat)
    requires n < |ps|
    ensures |Over(a, limit, ps, n + 1)| == |Over(a, limit, ps, n)| + if a.observe(ps[n]).steps > limit then 1 else 0
  {
    var before, after := Over(a, limit, ps, n), Over(a, limit, ps, n + 1);
    assert n !in before;
    assert after == before + if a.observe(ps[n]).steps > limit then {n} else {};
  }

  lemma DearerNext<R>(a: Subject<R>, b: Subject<R>, ps: seq<seq<int>>, n: nat)
    requires n < |ps|
    ensures |Dearer(a, b, ps, n + 1)|
         == |Dearer(a, b, ps, n)| + if b.observe(ps[n]).steps > a.observe(ps[n]).steps then 1 else 0
  {
    var before, after := Dearer(a, b, ps, n), Dearer(a, b, ps, n + 1);
    assert n !in before;
    assert after == before + if b.observe(ps[n]).steps > a.observe(ps[n]).steps then {n} else {};
  }

  /** What a tally says: each count is the number of points it is about, and usage differs where some point tells. */
  ghost predicate Counts<R>(a: Subject<R>, b: Subject<R>, ps: seq<seq<int>>, limit: nat, n: nat, t: Tally)
    requires n <= |ps|
  {
    && t.overA == |Over(a, limit, ps, n)| && t.overB == |Over(b, limit, ps, n)| && t.more == |Dearer(a, b, ps, n)|
    && (t.differs <==> exists k :: 0 <= k < n && a.observe(ps[k]).steps != b.observe(ps[k]).steps)
  }

  lemma {:induction false} TallyCounts<R>(a: Subject<R>, b: Subject<R>, ps: seq<seq<int>>, limit: nat, n: nat)
    requires n <= |ps|
    ensures Counts(a, b, ps, limit, n, TallyOf(a, b, ps, limit, n))
  {
    if n == 0 {
      assert Over(a, limit, ps, 0) == {} && Over(b, limit, ps, 0) == {} && Dearer(a, b, ps, 0) == {};
    } else {
      TallyCounts(a, b, ps, limit, n - 1);
      OverNext(a, limit, ps, n - 1);
      OverNext(b, limit, ps, n - 1);
      DearerNext(a, b, ps, n - 1);
    }
  }

  lemma StepsNext<R>(a: Subject<R>, ps: seq<seq<int>>, n: nat)
    requires n < |ps|
    ensures forall bound: nat :: StepsWithin(a, ps, n + 1, bound) <==>
      StepsWithin(a, ps, n, bound) && a.observe(ps[n]).steps <= bound
  {
    forall bound: nat
      ensures StepsWithin(a, ps, n + 1, bound) <==> StepsWithin(a, ps, n, bound) && a.observe(ps[n]).steps <= bound
    {
      if StepsWithin(a, ps, n + 1, bound) { assert a.observe(ps[n]).steps <= bound; }
    }
  }

  /** No run of the program on a tuple of its domain takes more than `limit` steps. */
  ghost predicate AllWithin<R(!new)>(a: Subject<R>, ds: seq<Domain>, limit: nat) {
    forall xs: seq<int> :: InDomains(ds, xs) ==> a.observe(xs).steps <= limit
  }

  lemma WithinIsEverywhere<R(!new)>(a: Subject<R>, ds: seq<Domain>, limit: nat)
    requires NonEmpty(ds)
    ensures |Points(ds)| == Product(ds)
    ensures StepsWithin(a, Points(ds), |Points(ds)|, limit) <==> AllWithin(a, ds, limit)
  {
    hide Points;
    hide Rank;
    hide Product;
    hide InDomains;
    ProductPositive(ds);
    RankOfPoint(ds, 0);
    if StepsWithin(a, Points(ds), |Points(ds)|, limit) {
      forall xs: seq<int> | InDomains(ds, xs)
        ensures a.observe(xs).steps <= limit
      {
        PointAtRank(ds, xs);
      }
    }
    if AllWithin(a, ds, limit) {
      forall k | 0 <= k < |Points(ds)|
        ensures a.observe(Points(ds)[k]).steps <= limit
      {
        RankOfPoint(ds, k);
      }
    }
  }

  /** The two programs declare the same inputs and outputs. */
  predicate Aligned<R>(a: Subject<R>, b: Subject<R>) { a.inputs == b.inputs && a.outputs == b.outputs }

  /** The usage summary of a whole domain: exact counts, and maxima that are the least bounds. */
  ghost predicate Usage<R(!new)>(a: Subject<R>, b: Subject<R>, limit: nat, t: Tally)
    requires NonEmpty(a.inputs)
  {
    && Counts(a, b, Points(a.inputs), limit, |Points(a.inputs)|, t)
    && (forall bound: nat :: AllWithin(a, a.inputs, bound) <==> t.maxA <= bound)
    && (forall bound: nat :: AllWithin(b, a.inputs, bound) <==> t.maxB <= bound)
  }

  /** What a full comparison demands of the pair. */
  ghost predicate Equivalent<R(!new)>(a: Subject<R>, b: Subject<R>, cap: nat, limit: nat) {
    && Aligned(a, b) && NonEmpty(a.inputs) && Product(a.inputs) <= cap
    && AllEqual(a, b) && AllWithin(a, a.inputs, limit) && AllWithin(b, a.inputs, limit)
  }

  /** Each refusal names its own cause, and every cause checked before it is absent. */
  ghost predicate Explains<R(!new)>(a: Subject<R>, b: Subject<R>, cap: nat, limit: nat, f: Failure<R>) {
    match f
    case InputAbi => a.inputs != b.inputs
    case OutputAbi => a.inputs == b.inputs && a.outputs != b.outputs
    case EmptyInputDomain(i) =>
      Aligned(a, b) && i < |a.inputs| && NonEmpty(a.inputs[..i]) && a.inputs[i].min > a.inputs[i].max
    case DomainTooLarge(size, l) =>
      && Aligned(a, b) && NonEmpty(a.inputs) && Product(a.inputs) > cap == l
      && (if size.Some? then size.value == Product(a.inputs) else Product(a.inputs) >= SCALE)
    case Counterexample(_, _, _, _) =>
      Aligned(a, b) && NonEmpty(a.inputs) && Product(a.inputs) <= cap && Witness(a, b, f)
    case BudgetBoundary(x, y, m) =>
      && Aligned(a, b) && NonEmpty(a.inputs) && Product(a.inputs) <= cap && AllEqual(a, b) && m > limit
      && x == |Over(a, limit, Points(a.inputs), |Points(a.inputs)|)|
      && y == |Over(b, limit, Points(a.inputs), |Points(a.inputs)|)|
      && (forall bound: nat :: AllWithin(a, a.inputs, bound) && AllWithin(b, a.inputs, bound) <==> m <= bound)
    case CoverageMismatch(_, _) => false
  }

  /** A comparison passes exactly on equivalent pairs within the limits; a refusal is explained. */
  method CompareWithUsage<R(==, !new)>(a: Subject<R>, b: Subject<R>, cap: nat, limit: nat)
    returns (r: Outcome<Tally, R>)
    requires cap < SCALE
    ensures r.Passed? <==> Equivalent(a, b, cap, limit)
    ensures r.Passed? ==> NonEmpty(a.inputs) && Usage(a, b, limit, r.value)
    ensures r.Failed? ==> Explains(a, b, cap, limit, r.failure)
  {
    hide Covered;
    hide Product;
    hide AllEqual;
    hide AllWithin;
    hide Witness;
    hide Points;
    hide Over;
    if a.inputs != b.inputs { return Failed(InputAbi); }
    if a.outputs != b.outputs { return Failed(OutputAbi); }
    var size := DomainSize(a.inputs);
    CardinalityIs(a.inputs);
    match size {
      case Empty(position) => return Failed(EmptyInputDomain(position));
      case TooLarge => return Failed(DomainTooLarge(None, cap));
      case Exact(n) =>
        if n > cap { return Failed(DomainTooLarge(Some(n), cap)); }
        var scanned := Scan(a, b, n, limit);
        match scanned {
          case Failed(f) =>
            WitnessDiffers(a, b, f);
            return Failed(f);
          case Passed(t) =>
            CoveredMeans(a, b, limit, n, t);
            if t.overA != 0 || t.overB != 0 { return Failed(BudgetBoundary(t.overA, t.overB, Max(t.maxA, t.maxB))); }
            return Passed(t);
        }
    }
  }

  lemma WitnessDiffers<R(!new)>(a: Subject<R>, b: Subject<R>, f: Failure<R>)
    requires NonEmpty(a.inputs) && Witness(a, b, f)
    ensures f.Counterexample? && !AllEqual(a, b)
  {
    hide Points;
    PrefixIsEverything(a, b);
    RankOfPoint(a.inputs, f.ordinal);
    assert !Same(a, b, f.input);
  }

  lemma CoveredMeans<R(!new)>(a: Subject<R>, b: Subject<R>, limit: nat, n: nat, t: Tally)
    requires NonEmpty(a.inputs) && Covered(a, b, limit, n, t)
    ensures AllEqual(a, b) && Usage(a, b, limit, t)
    ensures t.overA == 0 <==> AllWithin(a, a.inputs, limit)
    ensures t.overB == 0 <==> AllWithin(b, a.inputs, limit)
    ensures forall bound: nat :: AllWithin(a, a.inputs, bound) <==> t.maxA <= bound
    ensures forall bound: nat :: AllWithin(b, a.inputs, bound) <==> t.maxB <= bound
  {
    hide Points;
    hide Product;
    hide AllEqual;
    hide AllWithin;
    hide StepsWithin;
    hide TallyOf;
    TallyMeans(a, b, Points(a.inputs), limit, n);
    TallyCounts(a, b, Points(a.inputs), limit, n);
    hide Counts;
    forall bound: nat
      ensures StepsWithin(a, Points(a.inputs), n, bound) <==> AllWithin(a, a.inputs, bound)
      ensures StepsWithin(b, Points(a.inputs), n, bound) <==> AllWithin(b, a.inputs, bound)
    {
      WithinIsEverywhere(a, a.inputs, bound);
      WithinIsEverywhere(b, a.inputs, bound);
    }
  }
}
