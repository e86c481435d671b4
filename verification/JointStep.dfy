/**
 Joint steps of composed components: members decide in order until one of them ends the step, then
 the resolution is applied to the owned states.  Over every history each component keeps its law and
 each coupling between owned states holds.
 */
module JointStep {
  import opened Patterns

  datatype Local = Skip | Commit | Reject | Refused | CommitFailure

  datatype End = Accept | Rejected(at: nat) | RefusedAt(at: nat) | CommittedFailure(at: nat)

  datatype Resolution = Resolution(end: End, committed: nat)

  predicate Terminal(d: Local) { d.Reject? || d.Refused? || d.CommitFailure? }

  // ---------------------------------------------------------------- resolution

  /** The first member that ends the step, or the number of members. */
  function Stop(ds: seq<Local>): (t: nat)
    ensures t <= |ds| && (t < |ds| ==> Terminal(ds[t]))
    ensures forall i :: 0 <= i < t ==> !Terminal(ds[i])
  {
    if ds == [] || Terminal(ds[0]) then 0 else
      var t := Stop(ds[1..]);
      assert forall i :: 0 < i < 1 + t ==> ds[i] == ds[1..][i - 1];
      1 + t
  }

  /** What the step comes to. */
  function Resolved(ds: seq<Local>): Resolution {
    var t := Stop(ds);
    if t == |ds| then Resolution(Accept, t)
    else match ds[t]
      case Reject => Resolution(Rejected(t), 0)
      case Refused => Resolution(RefusedAt(t), 0)
      case _ => Resolution(CommittedFailure(t), t + 1)
  }

  predicate RollsBack(r: Resolution) { r.end.Rejected? || r.end.RefusedAt? }

  /** Two lists of decisions that differ, if at all, only from `n` on. */
  predicate AgreeOn(n: nat, ds: seq<Local>, es: seq<Local>) {
    |ds| == |es| && forall k :: 0 <= k < n && k < |ds| ==> es[k] == ds[k]
  }

  /** Later decisions play no part: what is decided through the stop settles the resolution. */
  lemma StopSettles(ds: seq<Local>, es: seq<Local>)
    requires AgreeOn(Stop(ds) + 1, ds, es)
    ensures Resolved(es) == Resolved(ds)
  {
    StopIs(es, Stop(ds));
  }

  /** What every member would decide. */
  function All(n: nat, decide: nat -> Local): (ds: seq<Local>)
    ensures |ds| == n && forall i :: 0 <= i < n ==> ds[i] == decide(i)
  {
    seq(n, i requires 0 <= i => decide(i))
  }

  /** The scan asks the members in order, each once, and none after the one that ends the step. */
  method Resolve(n: nat, decide: nat -> Local) returns (r: Resolution, asked: seq<nat>)
    ensures r == Resolved(All(n, decide))
    ensures |asked| <= n && forall k :: 0 <= k < |asked| ==> asked[k] == k
    ensures forall k :: 0 <= k < |asked| - 1 ==> !Terminal(decide(k))
    ensures |asked| < n ==> |asked| > 0 && Terminal(decide(|asked| - 1))
    ensures match r.end
      case Accept => |asked| == n == r.committed && forall k :: 0 <= k < n ==> !Terminal(decide(k))
      case Rejected(k) => |asked| == k + 1 && decide(k) == Reject && r.committed == 0
      case RefusedAt(k) => |asked| == k + 1 && decide(k) == Refused && r.committed == 0
      case CommittedFailure(k) => |asked| == k + 1 == r.committed && decide(k) == CommitFailure
  {
    ghost var ds := All(n, decide);
    var at := 0;
    asked := [];
    while at < n
      invariant 0 <= at <= n && |asked| == at
      invariant forall k :: 0 <= k < at ==> asked[k] == k && !Terminal(decide(k))
    {
      var kind := decide(at);
      asked := asked + [at];
      assert ds[at] == kind;
      match kind {
        case Reject => StopIs(ds, at); return Resolution(Rejected(at), 0), asked;
        case Refused => StopIs(ds, at); return Resolution(RefusedAt(at), 0), asked;
        case CommitFailure => StopIs(ds, at); return Resolution(CommittedFailure(at), at + 1), asked;
        case Skip =>
        case Commit =>
      }
      at := at + 1;
    }
    StopIs(ds, n);
    r := Resolution(Accept, n);
  }

  lemma StopIs(ds: seq<Local>, t: nat)
    requires t <= |ds| && (t < |ds| ==> Terminal(ds[t])) && forall i :: 0 <= i < t ==> !Terminal(ds[i])
    ensures Stop(ds) == t
  {
  }

  // ---------------------------------------------------------------- application

  /** The state at one position after a step: the successor of an owner that committed, else as before. */
  function AppliedAt<S>(pre: seq<S>, posts: seq<Option<S>>, owns: seq<bool>, r: Resolution, i: nat): S
    requires |posts| == |owns| == |pre| && i < |pre|
  {
    if !RollsBack(r) && i < r.committed && owns[i] && posts[i].Some? then posts[i].value else pre[i]
  }

  function Applied<S>(pre: seq<S>, posts: seq<Option<S>>, owns: seq<bool>, r: Resolution): (after: seq<S>)
    requires |posts| == |owns| == |pre|
    ensures |after| == |pre| && forall i :: 0 <= i < |pre| ==> after[i] == AppliedAt(pre, posts, owns, r, i)
  {
    seq(|pre|, i requires 0 <= i < |pre| => AppliedAt(pre, posts, owns, r, i))
  }

  method Apply<S>(pre: seq<S>, posts: seq<Option<S>>, owns: seq<bool>, r: Resolution) returns (after: seq<S>)
    requires |posts| == |owns| == |pre|
    ensures after == Applied(pre, posts, owns, r)
  {
    var rollback := r.end.Rejected? || r.end.RefusedAt?;
    after := [];
    var at := 0;
    while at < |pre|
      invariant 0 <= at <= |pre| && after == Applied(pre, posts, owns, r)[..at]
    {
      var value := pre[at];
      if !rollback && at < r.committed && owns[at] {
        match posts[at] {
          case Some(post) => value := post;
          case None =>
        }
      }
      ghost var all := Applied(pre, posts, owns, r);
      assert all[at] == value && all[..at + 1] == all[..at] + [all[at]];
      after := after + [value];
      at := at + 1;
    }
  }

  // ---------------------------------------------------------------- components

  /**
   A component: whether it owns its state, whether a committed failure is declared possible, which
   earlier owners it observes, the law of its states, the inputs it assumes, when it takes part, how
   its state (if it does not own it) and input are bound, and how it decides.
   */
  datatype Component<!S, !I, !R> = Component(
    owns: bool, fails: bool, providers: seq<nat>,
    law: S -> bool, admits: I -> bool,
    joins: (seq<S>, R) -> bool, bindState: seq<S> -> Option<S>, bindInput: (seq<S>, R) -> Option<I>,
    decide: (S, I) -> (Local, S))

  /** A relation between the states of some owned components, given in order. */
  datatype Coupling<!S> = Coupling(members: seq<nat>, holds: seq<S> -> bool)

  datatype Model<!S, !I, !R> = Model(
    components: seq<Component<S, I, R>>, couplings: seq<Coupling<S>>, genesis: seq<S>, requests: R -> bool)

  predicate OrderedMembers(members: seq<nat>, n: nat) {
    && (forall p :: 0 <= p < |members| ==> members[p] < n)
    && forall p, q :: 0 <= p < q < |members| ==> members[p] < members[q]
  }

  /** Providers are earlier owners; couplings relate owned states and read no others. */
  ghost predicate WellFormed<S(!new), I, R>(m: Model<S, I, R>) {
    && |m.genesis| == |m.components|
    && (forall i :: 0 <= i < |m.components| ==> ProvidersOk(m, i))
    && (forall k :: 0 <= k < |m.couplings| ==> CouplingOk(m, k))
  }

  predicate ProvidersOk<S, I, R>(m: Model<S, I, R>, i: nat)
    requires i < |m.components|
  {
    var ps := m.components[i].providers;
    forall j :: 0 <= j < |ps| ==> ps[j] < i && m.components[ps[j]].owns
  }

  ghost predicate CouplingOk<S(!new), I, R>(m: Model<S, I, R>, k: nat)
    requires k < |m.couplings|
  {
    var c := m.couplings[k];
    && OrderedMembers(c.members, |m.components|)
    && (forall p :: 0 <= p < |c.members| ==> m.components[c.members[p]].owns)
    && (forall a: seq<S>, b: seq<S> ::
        |a| == |b| == |m.components| && SameOn(c.members, a, b) ==> c.holds(a) == c.holds(b))
  }

  predicate SameOn<S(==)>(members: seq<nat>, a: seq<S>, b: seq<S>) {
    |a| == |b| && forall p :: 0 <= p < |members| ==> members[p] < |a| && a[members[p]] == b[members[p]]
  }

  ghost predicate Shaped<S(!new), I, R>(m: Model<S, I, R>, pre: seq<S>) { WellFormed(m) && |pre| == |m.components| }

  function Observed<S, I, R>(m: Model<S, I, R>, pre: seq<S>, i: nat): seq<S>
    requires |pre| == |m.components| && i < |pre| && ProvidersOk(m, i)
  {
    var ps := m.components[i].providers;
    seq(|ps|, j requires 0 <= j < |ps| => pre[ps[j]])
  }

  predicate Joins<S, I, R>(m: Model<S, I, R>, pre: seq<S>, r: R, i: nat)
    requires |pre| == |m.components| && i < |pre| && ProvidersOk(m, i)
  {
    m.components[i].joins(Observed(m, pre, i), r)
  }

  function Input<S, I, R>(m: Model<S, I, R>, pre: seq<S>, r: R, i: nat): Option<I>
    requires |pre| == |m.components| && i < |pre| && ProvidersOk(m, i)
  {
    m.components[i].bindInput(Observed(m, pre, i), r)
  }

  /** The state a component decides on: its own, or one bound from its providers. */
  function StateFor<S, I, R>(m: Model<S, I, R>, pre: seq<S>, i: nat): Option<S>
    requires |pre| == |m.components| && i < |pre| && ProvidersOk(m, i)
  {
    if m.components[i].owns then Some(pre[i]) else m.components[i].bindState(Observed(m, pre, i))
  }

  /** A component's decision; a reader that would change its state is refused. */
  function Outcome<S(==), I, R>(m: Model<S, I, R>, pre: seq<S>, r: R, i: nat): (Local, S)
    requires |pre| == |m.components| && i < |pre| && ProvidersOk(m, i)
  {
    var c := m.components[i];
    if !Joins(m, pre, r, i) then (Skip, pre[i])
    else
      var input, state := Input(m, pre, r, i), StateFor(m, pre, i);
      if input.None? || state.None? then (Refused, pre[i])
      else
        var d := c.decide(state.value, input.value);
        if !c.owns && (d.0.Commit? || d.0.CommitFailure?) && d.1 != state.value then (Refused, pre[i]) else d
  }

  ghost function Decisions<S(!new), I, R>(m: Model<S, I, R>, pre: seq<S>, r: R): (ds: seq<Local>)
    requires Shaped(m, pre)
    ensures |ds| == |pre| && forall i :: 0 <= i < |pre| ==> ProvidersOk(m, i) && ds[i] == Outcome(m, pre, r, i).0
  {
    seq(|pre|, i requires 0 <= i < |pre| => Outcome(m, pre, r, i).0)
  }

  function Post<S>(d: (Local, S)): Option<S> { if d.0.Commit? || d.0.CommitFailure? then Some(d.1) else None }

  ghost function Posts<S(!new), I, R>(m: Model<S, I, R>, pre: seq<S>, r: R): (ps: seq<Option<S>>)
    requires Shaped(m, pre)
    ensures |ps| == |pre| && forall i :: 0 <= i < |pre| ==> ProvidersOk(m, i) && ps[i] == Post(Outcome(m, pre, r, i))
  {
    seq(|pre|, i requires 0 <= i < |pre| => Post(Outcome(m, pre, r, i)))
  }

  function Owns<S, I, R>(m: Model<S, I, R>): (os: seq<bool>)
    ensures |os| == |m.components| && forall i :: 0 <= i < |os| ==> os[i] == m.components[i].owns
  {
    seq(|m.components|, i requires 0 <= i < |m.components| => m.components[i].owns)
  }

  /** One joint step. */
  ghost function Step<S(!new), I, R>(m: Model<S, I, R>, pre: seq<S>, r: R): (after: seq<S>)
    requires Shaped(m, pre)
    ensures |after| == |pre|
  {
    Applied(pre, Posts(m, pre, r), Owns(m), Resolved(Decisions(m, pre, r)))
  }

  // ---------------------------------------------------------------- what one step does

  /**
   A step by cases: a rollback changes nothing; otherwise exactly the owners through the cut take their
   successors.
   */
  lemma StepMeans<S(!new), I, R>(m: Model<S, I, R>, pre: seq<S>, r: R)
    requires Shaped(m, pre)
    ensures var ds, after := Decisions(m, pre, r), Step(m, pre, r);
      var t := Stop(ds);
      && (t < |ds| && (ds[t].Reject? || ds[t].Refused?) ==> after == pre)
      && (t < |ds| && ds[t].CommitFailure? ==>
          forall i :: 0 <= i < |pre| ==> after[i] == Successor(m, pre, r, t + 1, i))
      && (t == |ds| ==> forall i :: 0 <= i < |pre| ==> after[i] == Successor(m, pre, r, t, i))
  {
    hide Outcome;
    hide ProvidersOk;
  }

  /** The successor of an owner before the cut that commits; any other state as before. */
  ghost function Successor<S(!new), I, R>(m: Model<S, I, R>, pre: seq<S>, r: R, cut: nat, i: nat): S
    requires Shaped(m, pre) && i < |pre|
  {
    var d := Outcome(m, pre, r, i);
    if i < cut && m.components[i].owns && (d.0.Commit? || d.0.CommitFailure?) then d.1 else pre[i]
  }

  /** `o` is what component `i` observes: the states of its providers before the step, in order. */
  predicate Sees<S(==), I, R>(m: Model<S, I, R>, pre: seq<S>, i: nat, o: seq<S>)
    requires |pre| == |m.components| && i < |pre| && ProvidersOk(m, i)
  {
    var ps := m.components[i].providers;
    |o| == |ps| && forall j :: 0 <= j < |ps| ==> o[j] == pre[ps[j]]
  }

  /**
   How a component comes to its decision: it stays out if it does not join on what it observes; it is refused if its
   input or the state it reads cannot be bound; an owner decides on its own state; a reader decides on the bound one,
   and is refused exactly when it would commit another.
   */
  lemma OutcomeIs<S(!new), I, R>(m: Model<S, I, R>, pre: seq<S>, r: R, i: nat, o: seq<S>)
    requires |pre| == |m.components| && i < |pre| && ProvidersOk(m, i) && Sees(m, pre, i, o)
    ensures var c, d := m.components[i], Outcome(m, pre, r, i);
      var input, bound := c.bindInput(o, r), c.bindState(o);
      && (!c.joins(o, r) ==> d.0 == Skip)
      && (c.joins(o, r) && input.None? ==> d.0 == Refused)
      && (c.joins(o, r) && input.Some? && c.owns ==> d == c.decide(pre[i], input.value))
      && (c.joins(o, r) && !c.owns && bound.None? ==> d.0 == Refused)
      && (c.joins(o, r) && input.Some? && !c.owns && bound.Some? ==>
        var e := c.decide(bound.value, input.value);
        if e.1 == bound.value || !(e.0.Commit? || e.0.CommitFailure?) then d == e else d.0 == Refused)
  {
    assert Observed(m, pre, i) == o;
  }

  /** A component that does not own its state never changes it. */
  lemma ReadersNeverWrite<S(!new), I, R>(m: Model<S, I, R>, pre: seq<S>, r: R, i: nat)
    requires Shaped(m, pre) && i < |pre| && !m.components[i].owns
    ensures Step(m, pre, r)[i] == pre[i]
  {
  }

  /** The decision of a member that exists, and no opinion of any other. */
  function DecisionAt<S(==), I, R>(m: Model<S, I, R>, pre: seq<S>, r: R, i: nat): (Local, Option<S>)
    requires |pre| == |m.components|
  {
    if i < |pre| && ProvidersOk(m, i) then (Outcome(m, pre, r, i).0, Post(Outcome(m, pre, r, i))) else (Skip, None)
  }

  /**
   A joint step as it runs: members are asked in order, only the asked ones leave a successor, and the
   resolution is applied.  It is the joint step of all decisions, although later ones were never made.
   */
  method Perform<S(==, !new), I, R>(m: Model<S, I, R>, pre: seq<S>, r: R) returns (after: seq<S>, asked: seq<nat>)
    requires Shaped(m, pre)
    ensures after == Step(m, pre, r)
    ensures forall k :: 0 <= k < |asked| ==> asked[k] == k
    ensures var t := Stop(Decisions(m, pre, r)); |asked| == if t < |pre| then t + 1 else t
    ensures forall es: seq<Local> :: AgreeOn(|asked|, Decisions(m, pre, r), es) ==>
      after == Applied(pre, Posts(m, pre, r), Owns(m), Resolved(es))
    ensures var ds := Decisions(m, pre, r);
      && (Stop(ds) < |ds| && !ds[Stop(ds)].CommitFailure? ==> after == pre)
      && (Stop(ds) == |ds| || ds[Stop(ds)].CommitFailure? ==>
          forall i :: 0 <= i < |pre| ==> after[i] == Successor(m, pre, r, |asked|, i))
  {
    var decide := (i: nat) => DecisionAt(m, pre, r, i).0;
    var resolution;
    resolution, asked := Resolve(|pre|, decide);
    var posts := seq(|pre|, i requires 0 <= i => if i < |asked| then DecisionAt(m, pre, r, i).1 else None);
    after := Apply(pre, posts, Owns(m), resolution);
    ghost var ds := Decisions(m, pre, r);
    DecisionsAre(m, pre, r);
    assert All(|pre|, decide) == ds;
    AskedIsStop(ds, asked);
    hide Outcome;
    hide WellFormed;
    forall i | 0 <= i < |pre|
      ensures AppliedAt(pre, posts, Owns(m), resolution, i) == AppliedAt(pre, Posts(m, pre, r), Owns(m), resolution, i)
    {
      assert DecisionAt(m, pre, r, i).1 == Posts(m, pre, r)[i];
    }
    assert after == Step(m, pre, r);
    StepMeans(m, pre, r);
    forall es: seq<Local> | AgreeOn(|asked|, ds, es)
      ensures Resolved(es) == Resolved(ds)
    {
      StopSettles(ds, es);
    }
  }

  lemma DecisionsAre<S(!new), I, R>(m: Model<S, I, R>, pre: seq<S>, r: R)
    requires Shaped(m, pre)
    ensures forall i :: 0 <= i < |pre| ==> DecisionAt(m, pre, r, i) == (Decisions(m, pre, r)[i], Posts(m, pre, r)[i])
  {
    hide Outcome;
  }

  lemma AskedIsStop(ds: seq<Local>, asked: seq<nat>)
    requires |asked| <= |ds| && forall k :: 0 <= k < |asked| - 1 ==> !Terminal(ds[k])
    requires |asked| < |ds| ==> |asked| > 0 && Terminal(ds[|asked| - 1])
    ensures |asked| == if Stop(ds) < |ds| then Stop(ds) + 1 else Stop(ds)
  {
    var n := |asked|;
    if n > 0 && Terminal(ds[n - 1]) { StopIs(ds, n - 1); } else { StopIs(ds, n); }
  }

  // ---------------------------------------------------------------- component laws

  /** Every owned state is lawful. */
  predicate Lawful<S, I, R>(m: Model<S, I, R>, pre: seq<S>) {
    |pre| == |m.components| && forall i :: 0 <= i < |pre| && m.components[i].owns ==> m.components[i].law(pre[i])
  }

  /** Alone, a component keeps its law, readers keep their state, and only declared ones commit failures. */
  ghost predicate LocalDuty<S(!new), I(!new), R>(m: Model<S, I, R>, i: nat)
    requires i < |m.components|
  {
    var c := m.components[i];
    && (forall s: S, x: I :: c.law(s) && c.admits(x) ==>
      var d := c.decide(s, x);
      d.0.Commit? || d.0.CommitFailure? ==> c.law(d.1) && (!c.owns ==> d.1 == s))
    && (forall s: S, x: I :: c.decide(s, x).0.CommitFailure? ==> c.fails)
  }

  /** What a participating component is handed: an admitted input and a lawful state. */
  predicate Delivered<S, I, R>(m: Model<S, I, R>, pre: seq<S>, r: R, i: nat)
    requires |pre| == |m.components| && i < |pre| && ProvidersOk(m, i)
  {
    var input, state := Input(m, pre, r, i), StateFor(m, pre, i);
    input.Some? && m.components[i].admits(input.value) && state.Some? && m.components[i].law(state.value)
  }

  /** Together, lawful owners hand every participant what it assumes. */
  ghost predicate DeliveryDuty<S(!new), I, R(!new)>(m: Model<S, I, R>)
    requires WellFormed(m)
  {
    forall pre: seq<S>, r: R, i: nat ::
      Lawful(m, pre) && m.requests(r) && i < |m.components| && Joins(m, pre, r, i) ==> Delivered(m, pre, r, i)
  }

  ghost predicate Duties<S(!new), I(!new), R(!new)>(m: Model<S, I, R>) {
    WellFormed(m) && DeliveryDuty(m) && forall i :: 0 <= i < |m.components| ==> LocalDuty(m, i)
  }

  lemma SuccessorLawful<S(!new), I(!new), R(!new)>(m: Model<S, I, R>, pre: seq<S>, r: R, i: nat)
    requires Duties(m) && Lawful(m, pre) && m.requests(r) && i < |pre| && m.components[i].owns
    ensures var d := Outcome(m, pre, r, i); d.0.Commit? || d.0.CommitFailure? ==> m.components[i].law(d.1)
  {
    assert ProvidersOk(m, i) && LocalDuty(m, i);
    if Joins(m, pre, r, i) { assert Delivered(m, pre, r, i); }
  }

  /** A joint step keeps every owned state lawful. */
  lemma StepKeepsLaws<S(!new), I(!new), R(!new)>(m: Model<S, I, R>, pre: seq<S>, r: R)
    requires Duties(m) && Lawful(m, pre) && m.requests(r)
    ensures Lawful(m, Step(m, pre, r))
  {
    var after := Step(m, pre, r);
    forall i | 0 <= i < |after| && m.components[i].owns
      ensures m.components[i].law(after[i])
    {
      SuccessorLawful(m, pre, r, i);
      hide Duties;
      hide Outcome;
      hide WellFormed;
      assert after[i] == AppliedAt(pre, Posts(m, pre, r), Owns(m), Resolved(Decisions(m, pre, r)), i);
    }
  }

  // ---------------------------------------------------------------- couplings

  /** Only the coupling's members take their successors, up to the cut. */
  ghost function Prefix<S(!new), I, R>(m: Model<S, I, R>, pre: seq<S>, r: R, k: nat, cut: nat): (p: seq<S>)
    requires Shaped(m, pre) && k < |m.couplings|
    ensures |p| == |pre| && forall i :: 0 <= i < |pre| ==>
      p[i] == if i in m.couplings[k].members then Successor(m, pre, r, cut, i) else pre[i]
  {
    seq(|pre|, i requires 0 <= i < |pre| =>
      if i in m.couplings[k].members then Successor(m, pre, r, cut, i) else pre[i])
  }

  /** The members before a position do not end the step. */
  predicate Continue(members: seq<nat>, ds: seq<Local>, until: int) {
    forall p :: 0 <= p < |members| && members[p] < until && members[p] < |ds| ==> !Terminal(ds[members[p]])
  }

  /** The step may end at a member's own failure, or run to its end. */
  predicate MemberEnd(members: seq<nat>, ds: seq<Local>, cut: nat) {
    || (cut == |ds| && Continue(members, ds, cut))
    || (0 < cut <= |ds| && cut - 1 in members && ds[cut - 1].CommitFailure? && Continue(members, ds, cut - 1))
  }

  /** The step may end at a failure declared outside the coupling. */
  predicate OutsideCut(members: seq<nat>, fails: seq<bool>, ds: seq<Local>, cut: nat)
    requires |fails| == |ds|
  {
    0 < cut <= |ds| && cut - 1 !in members && fails[cut - 1] && Continue(members, ds, cut - 1)
  }

  function Fails<S, I, R>(m: Model<S, I, R>): (fs: seq<bool>)
    ensures |fs| == |m.components| && forall i :: 0 <= i < |fs| ==> fs[i] == m.components[i].fails
  {
    seq(|m.components|, i requires 0 <= i < |m.components| => m.components[i].fails)
  }

  /** A coupling survives every cut the step may make, as far as its own members' decisions tell. */
  ghost predicate CouplingDuty<S(!new), I, R(!new)>(m: Model<S, I, R>, k: nat)
    requires WellFormed(m) && k < |m.couplings|
  {
    forall pre: seq<S>, r: R, cut: nat ::
      Lawful(m, pre) && m.requests(r) && m.couplings[k].holds(pre)
      && (|| MemberEnd(m.couplings[k].members, Decisions(m, pre, r), cut)
          || OutsideCut(m.couplings[k].members, Fails(m), Decisions(m, pre, r), cut))
      ==> m.couplings[k].holds(Prefix(m, pre, r, k, cut))
  }

  /** On the coupling's members, a step that cuts at `cut` is the members' prefix. */
  lemma StepOnMembers<S(!new), I, R>(m: Model<S, I, R>, pre: seq<S>, r: R, k: nat, cut: nat)
    requires Shaped(m, pre) && k < |m.couplings|
    requires !RollsBack(Resolved(Decisions(m, pre, r))) && Resolved(Decisions(m, pre, r)).committed == cut
    ensures m.couplings[k].holds(Step(m, pre, r)) == m.couplings[k].holds(Prefix(m, pre, r, k, cut))
  {
    assert CouplingOk(m, k);
    hide WellFormed;
    hide Outcome;
    var c, a, b := m.couplings[k], Step(m, pre, r), Prefix(m, pre, r, k, cut);
    forall p | 0 <= p < |c.members|
      ensures c.members[p] < |a| && a[c.members[p]] == b[c.members[p]]
    {
      assert m.components[c.members[p]].owns;
    }
    assert SameOn(c.members, a, b);
  }

  /** A committed failure is always a declared one. */
  lemma FailureDeclared<S(!new), I(!new), R(!new)>(m: Model<S, I, R>, pre: seq<S>, r: R, i: nat)
    requires Duties(m) && |pre| == |m.components| && i < |pre| && ProvidersOk(m, i)
    requires Outcome(m, pre, r, i).0.CommitFailure?
    ensures m.components[i].fails
  {
    assert LocalDuty(m, i);
  }

  /** A joint step keeps every coupling. */
  lemma StepKeepsCoupling<S(!new), I(!new), R(!new)>(m: Model<S, I, R>, pre: seq<S>, r: R, k: nat)
    requires Duties(m) && Lawful(m, pre) && m.requests(r)
    requires k < |m.couplings| && CouplingDuty(m, k) && m.couplings[k].holds(pre)
    ensures m.couplings[k].holds(Step(m, pre, r))
  {
    var ds := Decisions(m, pre, r);
    var t := Stop(ds);
    if t < |ds| && ds[t].CommitFailure? {
      FailureDeclared(m, pre, r, t);
    }
    StepMeans(m, pre, r);
    hide Duties;
    hide Lawful;
    var c := m.couplings[k].members;
    if t == |ds| {
      assert MemberEnd(c, ds, t);
      StepOnMembers(m, pre, r, k, t);
    } else if ds[t].CommitFailure? {
      assert MemberEnd(c, ds, t + 1) || OutsideCut(c, Fails(m), ds, t + 1);
      StepOnMembers(m, pre, r, k, t + 1);
    }
  }

  // ---------------------------------------------------------------- histories

  ghost predicate AllHold<S, I, R>(m: Model<S, I, R>, s: seq<S>) {
    forall k :: 0 <= k < |m.couplings| ==> m.couplings[k].holds(s)
  }

  /** The states of a history of admitted requests. */
  ghost function Reached<S(!new), I, R>(m: Model<S, I, R>, requests: seq<R>): (s: seq<S>)
    requires WellFormed(m)
    ensures |s| == |m.components|
  {
    if requests == [] then m.genesis
    else Step(m, Reached(m, requests[..|requests| - 1]), requests[|requests| - 1])
  }

  ghost predicate AllDuties<S(!new), I(!new), R(!new)>(m: Model<S, I, R>) {
    Duties(m) && forall k :: 0 <= k < |m.couplings| ==> CouplingDuty(m, k)
  }

  /** Over every history, every owned state is lawful and every coupling holds. */
  lemma {:induction false} HistoriesAreSafe<S(!new), I(!new), R(!new)>(m: Model<S, I, R>, requests: seq<R>)
    requires AllDuties(m) && Lawful(m, m.genesis) && AllHold(m, m.genesis)
    requires forall j :: 0 <= j < |requests| ==> m.requests(requests[j])
    ensures Lawful(m, Reached(m, requests)) && AllHold(m, Reached(m, requests))
  {
    hide Lawful;
    hide Step;
    hide CouplingDuty;
    if requests != [] {
      var n := |requests| - 1;
      HistoriesAreSafe(m, requests[..n]);
      var pre, r := Reached(m, requests[..n]), requests[n];
      StepKeepsLaws(m, pre, r);
      forall k | 0 <= k < |m.couplings|
        ensures m.couplings[k].holds(Step(m, pre, r))
      {
        StepKeepsCoupling(m, pre, r, k);
      }
    }
  }

  /** At every point of a history, whoever takes part is handed an admitted input and a lawful state. */
  lemma HistoriesDeliver<S(!new), I(!new), R(!new)>(m: Model<S, I, R>, requests: seq<R>, r: R, i: nat)
    requires AllDuties(m) && Lawful(m, m.genesis) && AllHold(m, m.genesis)
    requires (forall j :: 0 <= j < |requests| ==> m.requests(requests[j])) && m.requests(r)
    requires i < |m.components| && ProvidersOk(m, i) && Joins(m, Reached(m, requests), r, i)
    ensures Delivered(m, Reached(m, requests), r, i)
  {
    HistoriesAreSafe(m, requests);
  }

  /** A reader's slot is never written in any history. */
  lemma {:induction false} HistoriesNeverWriteReaders<S(!new), I, R>(m: Model<S, I, R>, requests: seq<R>, i: nat)
    requires WellFormed(m) && i < |m.components| && !m.components[i].owns
    ensures Reached(m, requests)[i] == m.genesis[i]
  {
    if requests != [] {
      var n := |requests| - 1;
      HistoriesNeverWriteReaders(m, requests[..n], i);
      ReadersNeverWrite(m, Reached(m, requests[..n]), requests[n], i);
    }
  }

  // ---------------------------------------------------------------- finitely many cuts

  /** All flagged positions of an interval, in order. */
  predicate ExactInterval(cutters: seq<nat>, fails: seq<bool>, from: nat, until: nat)
    requires until <= |fails|
  {
    && (forall j :: 0 <= j < |cutters| ==> from <= cutters[j] < until && fails[cutters[j]])
    && (forall t :: from <= t < until && fails[t] ==> t in cutters)
    && (forall i, j :: 0 <= i < j < |cutters| ==> cutters[i] < cutters[j])
  }

  method IntervalCutters(fails: seq<bool>, from: nat, until: nat) returns (cutters: seq<nat>)
    requires from <= until <= |fails|
    ensures ExactInterval(cutters, fails, from, until)
  {
    cutters := [];
    var at := from;
    while at < until
      invariant from <= at <= until && ExactInterval(cutters, fails, from, at)
    {
      if fails[at] { cutters := cutters + [at]; }
      at := at + 1;
    }
  }

  /** Where the positions before member `p` and after the one before it start. */
  function GroupStart(members: seq<nat>, p: nat): nat
    requires p <= |members|
  {
    if p == 0 then 0 else members[p - 1] + 1
  }

  /** Before each member, the flagged positions since the previous one. */
  ghost predicate Grouped(groups: seq<seq<nat>>, fails: seq<bool>, members: seq<nat>) {
    && OrderedMembers(members, |fails|) && |groups| == |members|
    && forall p :: 0 <= p < |members| ==> ExactInterval(groups[p], fails, GroupStart(members, p), members[p])
  }

  method OutsideFailureCutters(fails: seq<bool>, members: seq<nat>) returns (groups: seq<seq<nat>>)
    requires OrderedMembers(members, |fails|)
    ensures Grouped(groups, fails, members)
  {
    groups := [];
    var position, from := 0, 0;
    while position < |members|
      invariant 0 <= position <= |members| && |groups| == position && from == GroupStart(members, position)
      invariant forall p :: 0 <= p < position ==> ExactInterval(groups[p], fails, GroupStart(members, p), members[p])
    {
      var member := members[position];
      var cutters := IntervalCutters(fails, from, member);
      groups := groups + [cutters];
      from := member + 1;
      position := position + 1;
    }
  }

  /** How many members stand before a position. */
  function Boundary(members: seq<nat>, cut: nat): (p: nat)
    ensures p <= |members| && (p < |members| ==> cut <= members[p])
    ensures forall q :: 0 <= q < p ==> members[q] < cut
  {
    if members == [] || cut <= members[0] then 0 else
      var p := Boundary(members[1..], cut);
      assert forall q :: 0 < q < 1 + p ==> members[q] == members[1..][q - 1];
      1 + p
  }

  /** Where no member stands between two cuts, the members' prefixes are the same. */
  lemma PrefixBetween<S(!new), I, R>(m: Model<S, I, R>, pre: seq<S>, r: R, k: nat, left: nat, right: nat)
    requires Shaped(m, pre) && k < |m.couplings| && left <= right
    requires forall i :: left <= i < right ==> i !in m.couplings[k].members
    ensures Prefix(m, pre, r, k, left) == Prefix(m, pre, r, k, right)
  {
    hide Outcome;
  }

  /**
   What is left to check: each member's own end, and one checkpoint before each member with a flagged
   position before it.
   */
  ghost predicate CheckpointDuty<S(!new), I, R(!new)>(m: Model<S, I, R>, k: nat, groups: seq<seq<nat>>)
    requires WellFormed(m) && k < |m.couplings| && |groups| == |m.couplings[k].members|
  {
    forall pre: seq<S>, r: R :: Lawful(m, pre) && m.requests(r) && m.couplings[k].holds(pre) ==>
      Checkpoints(m, k, groups, pre, r)
  }

  ghost predicate Checkpoints<S(!new), I, R>(m: Model<S, I, R>, k: nat, groups: seq<seq<nat>>, pre: seq<S>, r: R)
    requires Shaped(m, pre) && k < |m.couplings| && |groups| == |m.couplings[k].members|
  {
    var c, ds := m.couplings[k], Decisions(m, pre, r);
    && (forall cut: nat :: MemberEnd(c.members, ds, cut) ==> c.holds(Prefix(m, pre, r, k, cut)))
    && (forall p :: 0 <= p < |groups| && groups[p] != [] && Continue(c.members, ds, c.members[p]) ==>
        c.holds(Prefix(m, pre, r, k, c.members[p])))
  }

  /** The members before the next one after a cut are those before the cut. */
  function NextMember(members: seq<nat>, cut: nat, n: nat): nat {
    var p := Boundary(members, cut);
    if p < |members| then members[p] else n
  }

  lemma NextMemberGap(members: seq<nat>, cut: nat, n: nat)
    requires OrderedMembers(members, n) && cut <= n
    ensures cut <= NextMember(members, cut, n) <= n
    ensures forall q :: 0 <= q < |members| ==> members[q] < cut || NextMember(members, cut, n) <= members[q]
    ensures forall i :: cut <= i < NextMember(members, cut, n) ==> i !in members
  {
    var p, end := Boundary(members, cut), NextMember(members, cut, n);
    forall q | 0 <= q < |members|
      ensures members[q] < cut || end <= members[q]
    {
      if q > p { assert members[p] < members[q]; }
    }
  }

  lemma ContinueToNext(members: seq<nat>, ds: seq<Local>, cut: nat)
    requires OrderedMembers(members, |ds|) && 0 < cut <= |ds| && cut - 1 !in members && Continue(members, ds, cut - 1)
    ensures Continue(members, ds, NextMember(members, cut, |ds|))
  {
    NextMemberGap(members, cut, |ds|);
    hide NextMember;
    forall q | 0 <= q < |members| && members[q] < NextMember(members, cut, |ds|)
      ensures !Terminal(ds[members[q]])
    {
      assert members[q] in members;
    }
  }

  lemma OutsideCutChecked<S(!new), I, R>(m: Model<S, I, R>, pre: seq<S>, r: R, k: nat, groups: seq<seq<nat>>, cut: nat)
    requires Shaped(m, pre) && k < |m.couplings| && Grouped(groups, Fails(m), m.couplings[k].members)
    requires Checkpoints(m, k, groups, pre, r)
    requires OutsideCut(m.couplings[k].members, Fails(m), Decisions(m, pre, r), cut)
    ensures m.couplings[k].holds(Prefix(m, pre, r, k, cut))
  {
    hide WellFormed;
    hide Outcome;
    hide Prefix;
    hide Continue;
    var c, ds := m.couplings[k].members, Decisions(m, pre, r);
    var p, end := Boundary(c, cut), NextMember(c, cut, |ds|);
    hide Boundary;
    NextMemberGap(c, cut, |ds|);
    ContinueToNext(c, ds, cut);
    PrefixBetween(m, pre, r, k, cut, end);
    hide Decisions;
    if p < |c| {
      FlaggedBefore(groups, Fails(m), c, cut);
      hide Grouped;
      assert Continue(c, ds, c[p]);
    } else {
      hide Grouped;
      assert MemberEnd(c, ds, end);
    }
  }

  lemma FlaggedBefore(groups: seq<seq<nat>>, fails: seq<bool>, members: seq<nat>, cut: nat)
    requires Grouped(groups, fails, members) && 0 < cut <= |fails| && cut - 1 !in members && fails[cut - 1]
    requires Boundary(members, cut) < |members|
    ensures groups[Boundary(members, cut)] != []
  {
    var p := Boundary(members, cut);
    assert p > 0 ==> members[p - 1] in members && members[p - 1] != cut - 1;
    assert ExactInterval(groups[p], fails, GroupStart(members, p), members[p]);
    assert cut - 1 in groups[p];
  }

  /** Finitely many checkpoints are enough: they imply the coupling's duty at every cut. */
  lemma CheckpointsSuffice<S(!new), I, R(!new)>(m: Model<S, I, R>, k: nat, groups: seq<seq<nat>>)
    requires WellFormed(m) && k < |m.couplings| && Grouped(groups, Fails(m), m.couplings[k].members)
    requires CheckpointDuty(m, k, groups)
    ensures CouplingDuty(m, k)
  {
    forall pre: seq<S>, r: R, cut: nat |
      Lawful(m, pre) && m.requests(r) && m.couplings[k].holds(pre)
      && (|| MemberEnd(m.couplings[k].members, Decisions(m, pre, r), cut)
          || OutsideCut(m.couplings[k].members, Fails(m), Decisions(m, pre, r), cut))
      ensures m.couplings[k].holds(Prefix(m, pre, r, k, cut))
    {
      hide WellFormed;
      hide MemberEnd;
      assert Checkpoints(m, k, groups, pre, r);
      if OutsideCut(m.couplings[k].members, Fails(m), Decisions(m, pre, r), cut) {
        OutsideCutChecked(m, pre, r, k, groups, cut);
      }
    }
  }

  // ---------------------------------------------------------------- the pilot

  function Owner(next: int): Component<int, bool, bool> {
    Component(true, false, [], (s: int) => 0 <= s <= 1, (x: bool) => true, (o: seq<int>, r: bool) => r,
      (o: seq<int>) => None, (o: seq<int>, r: bool) => Some(r), (s: int, x: bool) => (Commit, next))
  }

  function Guard(): Component<int, bool, bool> {
    Component(false, true, [0], (s: int) => 0 <= s <= 1, (x: bool) => true, (o: seq<int>, r: bool) => true,
      (o: seq<int>) => if o == [] then None else Some(o[0]), (o: seq<int>, r: bool) => Some(r),
      (s: int, x: bool) => (if x then Commit else CommitFailure, s))
  }

  /** Two owners around a read-only guard that fails when the owners stay away. */
  function Pilot(): Model<int, bool, bool> {
    Model([Owner(0), Guard(), Owner(1)], [Coupling([0, 2], (s: seq<int>) => |s| == 3 && s[0] <= s[2])],
          [0, 0, 0], (r: bool) => true)
  }

  lemma PilotWellFormed()
    ensures WellFormed(Pilot())
  {
    var m := Pilot();
    var c := m.couplings[0];
    assert c.members == [0, 2];
    forall a: seq<int>, b: seq<int> | |a| == |b| == |m.components| && SameOn(c.members, a, b)
      ensures c.holds(a) == c.holds(b)
    {
      assert c.members[0] == 0 && c.members[1] == 2;
    }
    assert CouplingOk(m, 0);
    assert ProvidersOk(m, 0) && ProvidersOk(m, 1) && ProvidersOk(m, 2);
  }

  lemma PilotDelivers()
    ensures WellFormed(Pilot()) && DeliveryDuty(Pilot())
  {
    PilotWellFormed();
    var m := Pilot();
    forall pre: seq<int>, r: bool, i: nat | Lawful(m, pre) && m.requests(r) && i < |m.components| && Joins(m, pre, r, i)
      ensures Delivered(m, pre, r, i)
    {
      if i == 1 {
        assert m.components[1].providers == [0];
        assert m.components[0].owns;
        assert Observed(m, pre, 1) == [pre[0]];
      }
    }
  }

  lemma PilotSuccessors(pre: seq<int>, r: bool, cut: nat)
    requires Shaped(Pilot(), pre)
    ensures var a := Successor(Pilot(), pre, r, cut, 0); a == 0 || a == pre[0]
    ensures var b := Successor(Pilot(), pre, r, cut, 2); b == 1 || b == pre[2]
  {
    var m := Pilot();
    assert m.components[0] == Owner(0) && m.components[2] == Owner(1);
  }

  lemma PilotCouples()
    ensures WellFormed(Pilot()) && CouplingDuty(Pilot(), 0)
  {
    PilotWellFormed();
    var m := Pilot();
    hide WellFormed;
    forall pre: seq<int>, r: bool, cut: nat | Lawful(m, pre) && m.couplings[0].holds(pre)
      ensures m.couplings[0].holds(Prefix(m, pre, r, 0, cut))
    {
      PilotSuccessors(pre, r, cut);
      hide Successor;
      var p := Prefix(m, pre, r, 0, cut);
      hide Prefix;
      assert m.couplings[0].members == [0, 2];
      assert 0 in m.couplings[0].members && 2 in m.couplings[0].members;
      assert m.components[0].law(pre[0]) && m.components[2].law(pre[2]);
    }
  }

  /** The pilot meets every duty, so the duties can be met. */
  lemma PilotMeetsDuties()
    ensures AllDuties(Pilot()) && Lawful(Pilot(), Pilot().genesis) && AllHold(Pilot(), Pilot().genesis)
  {
    PilotDelivers();
    PilotCouples();
    hide CouplingDuty;
    hide DeliveryDuty;
    hide WellFormed;
    var m := Pilot();
    assert LocalDuty(m, 0) && LocalDuty(m, 1) && LocalDuty(m, 2);
  }
}
