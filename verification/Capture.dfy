/**
 The capture session: candidates are proposed by anyone, prechecked on the selected examples, then
 compared with the complete table; a refuted candidate adds the farthest failure to the examples.
 Every call reads the stored session and replaces it atomically, so a call that is killed leaves
 the session as of its last completed save.
 */
module Capture {
  import opened Patterns
  import opened Ir
  import opened Kinds
  import opened Odometer
  import opened Policy
  import Lookup
  import Checker

  /** What a session is opened on: its budgets, and the program that encodes its table. */
  datatype Terms = Terms(rounds: nat, maxExamples: nat, visits: nat, encoded: Program) {
    function Invocations(): nat { 2 * rounds + 1 }
    function Lifetime(): nat { visits * Invocations() }
  }

  datatype State = State(attempts: nat, invocations: nat, reserved: nat, examples: seq<nat>,
                         captured: Option<Program>) {
    function Spend(): State { this.(attempts := attempts + 1) }
  }

  const OPENED := State(0, 0, 0, [], None)

  /** What the surroundings decide in one call: which stages finish, and how many saves complete. */
  datatype World = World(readable: bool, prechecked: bool, encoded: bool, decided: bool, searched: bool,
                         covered: bool, saves: nat)

  datatype Call = Call(proposal: Option<Program>, world: World)

  datatype Reply =
    | AlreadyCaptured
    | Inconclusive
    | Refused
    | CandidateRefused
    | PrecheckRefuted(seen: nat)
    | CapturedExact
    | Refuted(example: Option<nat>)

  // ---------------------------------------------------------------- the exact verdict

  /** Instruction attempts, including a refusing one. */
  function Attempts(w: Width, nodes: seq<Op>, input: seq<int>): (n: nat)
    requires Scoped(nodes, |input|)
    ensures n <= |nodes|
  {
    if nodes == [] then 0 else
      var k := |nodes| - 1;
      if NodeValues(w, nodes[..k], input).None? then Attempts(w, nodes[..k], input) else |nodes|
  }

  /** All of them, or up to and including the first that refuses. */
  lemma {:induction false} AttemptsAre(w: Width, nodes: seq<Op>, input: seq<int>)
    requires Scoped(nodes, |input|)
    ensures var n := Attempts(w, nodes, input);
      && (NodeValues(w, nodes, input).Some? ==> n == |nodes|)
      && (NodeValues(w, nodes, input).None? ==>
        && n >= 1 && Scoped(nodes[..n - 1], |input|) && Scoped(nodes[..n], |input|)
        && NodeValues(w, nodes[..n - 1], input).Some? && NodeValues(w, nodes[..n], input).None?)
  {
    if nodes != [] {
      var k := |nodes| - 1;
      var n := Attempts(w, nodes, input);
      if NodeValues(w, nodes[..k], input).None? {
        AttemptsAre(w, nodes[..k], input);
        assert nodes[..k][..n] == nodes[..n] && nodes[..k][..n - 1] == nodes[..n - 1];
      } else {
        assert nodes[..n] == nodes;
      }
    }
  }

  function Observe(w: Width, p: Program, input: seq<int>): Checker.Observation<Option<seq<int>>> {
    if !WellScoped(p) || !InDomains(p.inputs, input) then Checker.Observation(None, 0)
    else Checker.Observation(Eval(w, p, input), Attempts(w, p.nodes, input))
  }

  /** A program as the exhaustive checker sees it. */
  function SubjectOf(w: Width, p: Program): Checker.Subject<Option<seq<int>>> {
    Checker.Subject(p.inputs, p.outputs, xs => Observe(w, p, xs))
  }

  const MAX_TUPLES: nat := 4096

  datatype Verdict = Equal | Differs | Unsettled

  /** The checker's verdict on a candidate against the encoded table. */
  ghost function Compared(w: Width, q: Program, p: Program): Verdict {
    var a, b := SubjectOf(w, q), SubjectOf(w, p);
    if Checker.Equivalent(a, b, MAX_TUPLES, Lookup.MAX_NODES) then Equal
    else if Checker.Aligned(a, b) && NonEmpty(a.inputs) && Product(a.inputs) <= MAX_TUPLES && !Checker.AllEqual(a, b)
    then Differs
    else Unsettled
  }

  /** The exhaustive comparison decides it; a counterexample differs, any other refusal settles nothing. */
  method Compare(w: Width, q: Program, p: Program) returns (v: Verdict)
    ensures v == Compared(w, q, p)
  {
    var a, b := SubjectOf(w, q), SubjectOf(w, p);
    hide SubjectOf;
    var r := Checker.CompareWithUsage(a, b, MAX_TUPLES, Lookup.MAX_NODES);
    hide Checker.AllEqual;
    hide Product;
    match r {
      case Passed(_) => return Equal;
      case Failed(f) =>
        if f.Counterexample? {
          Checker.WitnessDiffers(a, b, f);
          return Differs;
        }
        return Unsettled;
    }
  }

  /** A proposal within the limits of the format. */
  predicate Proposed(w: Width, t: Table, p: Program) {
    Admitted(w, t, p) && 1 <= |p.nodes| <= Lookup.MAX_NODES
  }

  /** The encoded table of a session: within the limits, and computing the table. */
  predicate Encodes(w: Width, t: Table, q: Program) {
    && Complete(w, t) && |t.rows| <= MAX_TUPLES
    && Admitted(w, t, q) && |q.nodes| <= Lookup.MAX_NODES && Replay(w, t, q)
  }

  /** Agreeing everywhere with an encoding of the table is computing the table. */
  lemma EncodingDecides(w: Width, t: Table, q: Program, p: Program)
    requires Complete(w, t) && Admitted(w, t, q) && Replay(w, t, q) && Admitted(w, t, p)
    ensures Replay(w, t, p) <==> Checker.AllEqual(SubjectOf(w, q), SubjectOf(w, p))
  {
    NoneBadIffReplay(w, t, q);
    NoneBadIffReplay(w, t, p);
    assert WellScoped(p) && WellScoped(q);
    hide Admitted;
    hide Complete;
    hide Replay;
    hide Eval;
    hide InDomains;
    hide RowOf;
    var a, b := SubjectOf(w, q), SubjectOf(w, p);
    if Replay(w, t, p) {
      forall xs: seq<int> | InDomains(a.inputs, xs)
        ensures Checker.Same(a, b, xs)
      {
        assert Eval(w, p, xs) == Some(RowOf(w, t, xs)) == Eval(w, q, xs);
      }
    }
    if Checker.AllEqual(a, b) {
      forall xs: seq<int> | InDomains(t.inputs, xs)
        ensures Eval(w, p, xs) == Some(RowOf(w, t, xs))
      {
        assert Checker.Same(a, b, xs);
        assert Eval(w, q, xs) == Some(RowOf(w, t, xs));
      }
    }
  }

  lemma WithinSteps(w: Width, p: Program, ds: seq<Domain>, limit: nat)
    requires |p.nodes| <= limit
    ensures Checker.AllWithin(SubjectOf(w, p), ds, limit)
  {
  }

  /** Against an encoded table the checker always settles: equal exactly when the candidate computes the table. */
  lemma VerdictIsExact(w: Width, t: Table, q: Program, p: Program)
    requires Encodes(w, t, q) && Proposed(w, t, p)
    ensures Compared(w, q, p) == if Replay(w, t, p) then Equal else Differs
  {
    EncodingDecides(w, t, q, p);
    PointsLength(t.inputs);
    WithinSteps(w, q, t.inputs, Lookup.MAX_NODES);
    WithinSteps(w, p, t.inputs, Lookup.MAX_NODES);
    hide Points;
    hide Product;
    hide Checker.AllEqual;
    hide Checker.AllWithin;
    hide Replay;
    hide Checked;
    hide Declared;
  }

  // ---------------------------------------------------------------- work

  function PrecheckWork(s: State, p: Program): nat { |s.examples| * |p.nodes| }

  /** The exact check and its replay are charged at the capacity of any table program. */
  function ExactWork(t: Table, p: Program): nat { 2 * |t.rows| * (Lookup.MAX_NODES + |p.nodes|) }

  function ScanWork(t: Table, p: Program): nat { |t.rows| * |p.nodes| }

  function SelectIndices(nodes: seq<Op>): nat {
    if nodes == [] then 0 else
      var k := |nodes| - 1;
      SelectIndices(nodes[..k]) + if nodes[k].Apply? && nodes[k].code.Select? then k else 0
  }

  function CoverageWork(t: Table, p: Program): nat { SelectIndices(p.nodes) * |t.rows| }

  function DecisionWork(t: Table, s: State, p: Program): nat { PrecheckWork(s, p) + ExactWork(t, p) + ScanWork(t, p) }

  // ---------------------------------------------------------------- covering examples

  predicate InRange(t: Table, examples: seq<nat>) { forall k :: 0 <= k < |examples| ==> examples[k] < |t.rows| }

  predicate Distinct(s: seq<nat>) { forall i, j :: 0 <= i < j < |s| ==> s[i] != s[j] }

  /** One uncovered reachable outcome adds its first point while slots remain. */
  function CoverRow(r: Row, examples: seq<nat>, limit: nat): (e: seq<nat>)
    ensures examples <= e
  {
    if r.first.Some? && !r.covered && r.first.value !in examples && |examples| < limit
    then examples + [r.first.value] else examples
  }

  function Cover(rows: seq<Row>, examples: seq<nat>, limit: nat): (e: seq<nat>)
    ensures examples <= e
  {
    if rows == [] then examples else
      var k := |rows| - 1;
      CoverRow(rows[k], Cover(rows[..k], examples, limit), limit)
  }

  /** An uncovered reachable outcome without an example. */
  predicate Lacks(r: Row, examples: seq<nat>) { r.first.Some? && !r.covered && r.first.value !in examples }

  predicate Ready(t: Table, examples: seq<nat>, limit: nat) {
    Distinct(examples) && InRange(t, examples) && |examples| <= limit
  }

  lemma CoverRowIs(t: Table, r: Row, examples: seq<nat>, limit: nat)
    requires Ready(t, examples, limit) && (r.first.Some? ==> r.first.value < |t.rows|)
    ensures var e := CoverRow(r, examples, limit); Ready(t, e, limit) && (Lacks(r, e) ==> |e| == limit)
  {
  }

  /** The ordinal is the first point of an uncovered outcome. */
  predicate FirstOf(rows: seq<Row>, x: nat) {
    exists k :: 0 <= k < |rows| && rows[k].first == Some(x) && !rows[k].covered
  }

  /** Nothing else is ever added. */
  lemma {:induction false} CoverAdds(rows: seq<Row>, examples: seq<nat>, limit: nat, x: nat)
    requires x in Cover(rows, examples, limit)
    ensures x in examples || FirstOf(rows, x)
  {
    if rows != [] {
      var k := |rows| - 1;
      if x in Cover(rows[..k], examples, limit) {
        CoverAdds(rows[..k], examples, limit, x);
        if x !in examples {
          var i :| 0 <= i < k && rows[..k][i].first == Some(x) && !rows[..k][i].covered;
          assert rows[i].first == Some(x);
        }
      } else {
        assert rows[k].first == Some(x);
      }
    }
  }

  /** Examples stay distinct and bounded, and every reachable outcome gets an example or the slots are full. */
  lemma {:induction false} CoverIs(t: Table, rows: seq<Row>, examples: seq<nat>, limit: nat)
    requires Ready(t, examples, limit)
    requires forall k :: 0 <= k < |rows| ==> rows[k].first.Some? ==> rows[k].first.value < |t.rows|
    ensures var e := Cover(rows, examples, limit);
      Ready(t, e, limit) && forall k :: 0 <= k < |rows| ==> Lacks(rows[k], e) ==> |e| == limit
  {
    hide Ready;
    if rows != [] {
      var k := |rows| - 1;
      CoverIs(t, rows[..k], examples, limit);
      var f, e := Cover(rows[..k], examples, limit), Cover(rows, examples, limit);
      CoverRowIs(t, rows[k], f, limit);
      assert Ready(t, e, limit) && f <= e;
      CountBound(t, e, limit);
      hide CoverRow;
      forall i | 0 <= i < |rows| && Lacks(rows[i], e)
        ensures |e| == limit
      {
        if i < k { assert rows[..k][i] == rows[i] && Lacks(rows[i], f); }
      }
    }
  }

  lemma CountBound(t: Table, examples: seq<nat>, limit: nat)
    requires Ready(t, examples, limit)
    ensures |examples| <= limit
  {
  }

  // ---------------------------------------------------------------- one call

  predicate Fine(w: Width, t: Table, s: State) { Complete(w, t) && InRange(t, s.examples) }

  function Anchor(s: State): Option<nat> {
    if s.examples == [] then None else Some(s.examples[|s.examples| - 1])
  }

  /** The counterexample a refutation selects. */
  function Selected(w: Width, t: Table, s: State, p: Program): Option<nat>
    requires Fine(w, t, s) && Admitted(w, t, p)
  {
    Chosen(t, Bad(w, t, p), Anchor(s))
  }

  /** The examples after a refutation that selected `i`. */
  function Recorded(w: Width, t: Table, b: Terms, s: State, p: Program, i: nat, covered: bool): seq<nat>
    requires Complete(w, t) && Admitted(w, t, p)
  {
    var e := if i in s.examples then s.examples else s.examples + [i];
    if covered && DecisionWork(t, s, p) + CoverageWork(t, p) <= b.visits
    then Cover(Coverage(w, t, p, e), e, b.maxExamples) else e
  }

  /** The states a refutation saves after the reservation, and its reply. */
  function Refutation(w: Width, t: Table, b: Terms, s: State, p: Program, world: World): (seq<State>, Reply)
    requires Fine(w, t, s) && Admitted(w, t, p)
  {
    var d := s.Spend();
    var i := Selected(w, t, s, p);
    if !world.searched || i.None? then ([d, d], Refuted(None))
    else if i.value !in s.examples && |s.examples| >= b.maxExamples then ([d, d], Refuted(None))
    else ([d, d.(examples := Recorded(w, t, b, s, p, i.value, world.covered))], Refuted(i))
  }

  /** The states saved after the reservation of work, and the reply. */
  ghost function Judged(w: Width, t: Table, b: Terms, s: State, call: Call): (seq<State>, Reply)
    requires Fine(w, t, s)
  {
    var world := call.world;
    if !world.readable then ([s], Refused)
    else if call.proposal.None? || !Proposed(w, t, call.proposal.value) then ([s.Spend()], CandidateRefused)
    else
      var p := call.proposal.value;
      if PrecheckWork(s, p) > b.visits || !world.prechecked then ([s], Inconclusive)
      else
        var pre := Precheck(w, t, p, s.examples);
        if pre.Some? then ([s.Spend()], PrecheckRefuted(pre.value))
        else if DecisionWork(t, s, p) > b.visits then ([s], Inconclusive)
        else if !world.encoded then ([s.Spend()], CandidateRefused)
        else if !world.decided then ([s], Inconclusive)
        else
          match Compared(w, b.encoded, p)
          case Equal => ([s.Spend().(captured := Some(p))], CapturedExact)
          case Differs => Refutation(w, t, b, s, p, world)
          case Unsettled => ([s], Inconclusive)
  }

  /** A whole unit of work is reserved before the proposal is read. */
  function Reserve(b: Terms, s: State): State {
    s.(invocations := s.invocations + 1, reserved := s.reserved + b.visits)
  }

  /** Every state one call saves, in order, and its reply. */
  ghost function Saved(w: Width, t: Table, b: Terms, s: State, call: Call): (seq<State>, Reply)
    requires Fine(w, t, s)
  {
    if s.captured.Some? then ([], AlreadyCaptured)
    else if s.attempts >= b.rounds || s.invocations >= b.Invocations() || s.reserved + b.visits > b.Lifetime()
    then ([], Inconclusive)
    else
      var r := Reserve(b, s);
      var (saves, reply) := Judged(w, t, b, r, call);
      ([r] + saves, reply)
  }

  /** The stored session once `n` of the saves have completed. */
  function Stored(s: State, saves: seq<State>, n: nat): State {
    if n == 0 || saves == [] then s else if n <= |saves| then saves[n - 1] else saves[|saves| - 1]
  }

  /** The reply a call gives: none but a refusal unless every save completed. */
  function Given(saves: seq<State>, reply: Reply, n: nat): Reply { if n < |saves| then Refused else reply }

  ghost function Next(w: Width, t: Table, b: Terms, s: State, call: Call): State
    requires Fine(w, t, s)
  {
    Stored(s, Saved(w, t, b, s, call).0, call.world.saves)
  }

  /** The reply, if every save completed. */
  ghost function ReplyOf(w: Width, t: Table, b: Terms, s: State, call: Call): Reply
    requires Fine(w, t, s)
  {
    Given(Saved(w, t, b, s, call).0, Saved(w, t, b, s, call).1, call.world.saves)
  }

  // ---------------------------------------------------------------- what every save keeps

  /** What loading a stored session demands of it, and that a captured program computes the table. */
  ghost predicate Sound(w: Width, t: Table, b: Terms, s: State) {
    && Encodes(w, t, b.encoded) && Ready(t, s.examples, b.maxExamples)
    && s.attempts <= b.rounds && s.attempts <= s.invocations <= b.Invocations()
    && s.reserved == b.visits * s.invocations
    && (s.captured.Some? ==> Admitted(w, t, s.captured.value) && Replay(w, t, s.captured.value))
  }

  /** Nothing is forgotten: counters and examples only grow, and a capture is final. */
  predicate Later(s: State, u: State) {
    && s.attempts <= u.attempts && s.invocations <= u.invocations && s.examples <= u.examples
    && (s.captured.Some? ==> u == s)
  }

  ghost predicate Kept(w: Width, t: Table, b: Terms, s: State, u: State) { Sound(w, t, b, u) && Later(s, u) }

  lemma OpenedSound(w: Width, t: Table, b: Terms)
    requires Encodes(w, t, b.encoded)
    ensures Sound(w, t, b, OPENED)
  {
  }

  /**
   A failing ordinal that no failing ordinal beats: with no example yet the least, otherwise the farthest from the
   example selected last, the least of equals.
   */
  ghost predicate WorstFailure(w: Width, t: Table, p: Program, examples: seq<nat>, i: nat)
    requires Complete(w, t) && Admitted(w, t, p) && InRange(t, examples)
  {
    && i < |t.rows| && !Matches(w, t, p, i)
    && forall j: nat :: j < |t.rows| && !Matches(w, t, p, j) ==>
      if examples == [] then i <= j else Beats(t, examples[|examples| - 1], i, j)
  }

  /** The selected counterexample is the one the policy names. */
  lemma SelectedIs(w: Width, t: Table, s: State, p: Program, i: nat)
    requires Fine(w, t, s) && Admitted(w, t, p)
    ensures Selected(w, t, s, p) == Some(i) <==> WorstFailure(w, t, p, s.examples, i)
  {
    hide Points;
    hide Admitted;
    hide Declared;
    hide Matches;
    hide Beats;
    var bad := Bad(w, t, p);
    forall j: nat
      ensures j in bad <==> j < |t.rows| && !Matches(w, t, p, j)
    {
      BadIs(w, t, p, j);
    }
    ChosenMeans(t, bad, Anchor(s), i);
    hide Bad;
    hide Chosen;
    if i in bad {
      hide Complete;
      if s.examples == [] {
        assert (forall j :: j in bad ==> i <= j) <==> WorstFailure(w, t, p, s.examples, i);
      } else {
        var a := s.examples[|s.examples| - 1];
        assert (forall j :: j in bad ==> Beats(t, a, i, j)) <==> WorstFailure(w, t, p, s.examples, i);
      }
    }
  }

  /** The selected counterexample fails, and is new once the precheck has passed. */
  lemma SelectedIsNew(w: Width, t: Table, s: State, p: Program)
    requires Fine(w, t, s) && Admitted(w, t, p)
    ensures Selected(w, t, s, p).None? <==> Replay(w, t, p)
    ensures var i := Selected(w, t, s, p);
      i.Some? ==> WorstFailure(w, t, p, s.examples, i.value)
    ensures var i := Selected(w, t, s, p);
      i.Some? && Precheck(w, t, p, s.examples).None? ==> i.value !in s.examples
  {
    hide Points;
    hide Admitted;
    hide Declared;
    hide Bad;
    hide Matches;
    hide Chosen;
    NoneBadIffReplay(w, t, p);
    hide Replay;
    var i := Selected(w, t, s, p);
    if i.Some? {
      SelectedIs(w, t, s, p, i.value);
      PrecheckIs(w, t, p, s.examples);
    }
  }

  lemma RowsInRange(w: Width, t: Table, p: Program, e: seq<nat>)
    requires Complete(w, t) && Admitted(w, t, p)
    ensures var rows := Coverage(w, t, p, e);
      forall k :: 0 <= k < |rows| ==> rows[k].first.Some? ==> rows[k].first.value < |t.rows|
  {
    CoverageIs(w, t, p, e, |p.nodes|);
    hide Complete;
    hide Admitted;
    var rows := Coverage(w, t, p, e);
    forall k | 0 <= k < |rows|
      ensures rows[k].first.Some? ==> rows[k].first.value < |t.rows|
    {
      assert rows[k] in rows;
      var r := rows[k];
      assert r == RowFor(w, t, p, r.node, r.outcome, e);
    }
  }

  /** The recorded examples extend the old ones by the counterexample, distinct and within the slots. */
  lemma RecordedIs(w: Width, t: Table, b: Terms, s: State, p: Program, i: nat, covered: bool)
    requires Complete(w, t) && Admitted(w, t, p) && Ready(t, s.examples, b.maxExamples)
    requires i < |t.rows| && i !in s.examples && |s.examples| < b.maxExamples
    ensures var e := Recorded(w, t, b, s, p, i, covered);
      s.examples + [i] <= e && Ready(t, e, b.maxExamples)
  {
    hide Complete;
    hide Admitted;
    hide Coverage;
    var e := s.examples + [i];
    RowsInRange(w, t, p, e);
    CoverIs(t, Coverage(w, t, p, e), e, b.maxExamples);
  }

  /** A recorded refutation: a failing, new ordinal, the farthest from the last example, joins the examples. */
  ghost predicate Records(w: Width, t: Table, s: State, p: Program, u: State, i: nat)
    requires Fine(w, t, s) && Admitted(w, t, p)
  {
    WorstFailure(w, t, p, s.examples, i) && i !in s.examples && s.examples + [i] <= u.examples
  }

  lemma RefutationKeeps(w: Width, t: Table, b: Terms, s: State, p: Program, world: World)
    requires Sound(w, t, b, s) && s.captured.None? && s.attempts < b.rounds && s.attempts < s.invocations
    requires Admitted(w, t, p) && Precheck(w, t, p, s.examples).None?
    ensures var (saves, reply) := Refutation(w, t, b, s, p, world);
      && |saves| == 2 && Kept(w, t, b, s, saves[0]) && Kept(w, t, b, s, saves[1]) && reply.Refuted?
      && (forall k :: 0 <= k < 2 ==> saves[k].captured.None?)
      && (reply.example.Some? ==> Records(w, t, s, p, saves[1], reply.example.value))
      && (reply.example.None? ==> !world.searched || |s.examples| >= b.maxExamples || Replay(w, t, p))
  {
    hide Complete;
    hide Admitted;
    hide Matches;
    hide Selected;
    hide Beats;
    hide Precheck;
    SelectedIsNew(w, t, s, p);
    var i := Selected(w, t, s, p);
    hide Recorded;
    if i.Some? && |s.examples| < b.maxExamples {
      RecordedIs(w, t, b, s, p, i.value, world.covered);
    }
  }

  /** The examples a reply reports as recorded are recorded. */
  ghost predicate Truthful(w: Width, t: Table, b: Terms, s: State, call: Call, u: State, reply: Reply)
    requires Fine(w, t, s)
  {
    && (reply.Refuted? || reply.CapturedExact? || reply.PrecheckRefuted? ==>
        call.proposal.Some? && Admitted(w, t, call.proposal.value))
    && (reply.Refuted? && reply.example.Some? ==> Records(w, t, s, call.proposal.value, u, reply.example.value))
    && (reply.CapturedExact? ==> u.captured == call.proposal)
    && (!reply.CapturedExact? ==> u.captured == s.captured)
  }

  lemma JudgedKeeps(w: Width, t: Table, b: Terms, s: State, call: Call)
    requires Sound(w, t, b, s) && s.captured.None? && s.attempts < b.rounds && s.attempts < s.invocations
    ensures var (saves, reply) := Judged(w, t, b, s, call);
      && 1 <= |saves| <= 2 && (forall k :: 0 <= k < |saves| ==> Kept(w, t, b, s, saves[k]))
      && Truthful(w, t, b, s, call, saves[|saves| - 1], reply)
      && (|saves| == 2 ==> saves[0].captured.None?)
  {
    hide Complete;
    hide Admitted;
    hide Matches;
    hide Replay;
    hide Refutation;
    hide Records;
    hide Precheck;
    hide Compared;
    if call.proposal.Some? && Proposed(w, t, call.proposal.value) {
      var p := call.proposal.value;
      VerdictIsExact(w, t, b.encoded, p);
      if Precheck(w, t, p, s.examples).None? { RefutationKeeps(w, t, b, s, p, call.world); }
    }
  }

  lemma JudgedSaves(w: Width, t: Table, b: Terms, s: State, call: Call)
    requires Fine(w, t, s)
    ensures |Judged(w, t, b, s, call).0| >= 1
  {
    hide Compared;
    hide Precheck;
    hide Complete;
    hide Admitted;
  }

  lemma ReserveSound(w: Width, t: Table, b: Terms, s: State)
    requires Sound(w, t, b, s) && s.captured.None? && s.invocations < b.Invocations()
    ensures Kept(w, t, b, s, Reserve(b, s)) && Reserve(b, s).captured.None?
  {
    hide Complete;
    assert b.visits * s.invocations + b.visits == b.visits * (s.invocations + 1);
  }

  /** Every state a call saves is sound and later than the one before; a reply is true of the last. */
  lemma SavesKeep(w: Width, t: Table, b: Terms, s: State, call: Call)
    requires Sound(w, t, b, s)
    ensures var (saves, reply) := Saved(w, t, b, s, call);
      && |saves| <= 3 && (forall k :: 0 <= k < |saves| ==> Kept(w, t, b, s, saves[k]))
      && Truthful(w, t, b, s, call, Stored(s, saves, |saves|), reply)
      && (forall k :: 0 <= k < |saves| - 1 ==> saves[k].captured == s.captured)
  {
    hide Judged;
    hide Sound;
    hide Admitted;
    hide Complete;
    hide Matches;
    if && s.captured.None? && s.attempts < b.rounds
       && s.invocations < b.Invocations() && s.reserved + b.visits <= b.Lifetime() {
      var r := Reserve(b, s);
      ReserveSound(w, t, b, s);
      SoundCounts(w, t, b, s);
      SoundCounts(w, t, b, r);
      JudgedKeeps(w, t, b, r, call);
      var (saves, _) := Judged(w, t, b, r, call);
      assert ([r] + saves)[1..] == saves;
    }
  }

  lemma SoundCounts(w: Width, t: Table, b: Terms, s: State)
    requires Sound(w, t, b, s)
    ensures Fine(w, t, s) && s.attempts <= s.invocations && |s.examples| <= b.maxExamples
  {
  }

  /** A call keeps the session sound however many of its saves complete. */
  lemma NextKeeps(w: Width, t: Table, b: Terms, s: State, call: Call)
    requires Sound(w, t, b, s)
    ensures Kept(w, t, b, s, Next(w, t, b, s, call))
    ensures Truthful(w, t, b, s, call, Next(w, t, b, s, call), ReplyOf(w, t, b, s, call))
  {
    hide Sound;
    hide Saved;
    hide Records;
    hide Admitted;
    SavesKeep(w, t, b, s, call);
  }

  // ---------------------------------------------------------------- whole sessions

  /** The stored session after a run of calls, by any proposer in any surroundings. */
  ghost function Run(w: Width, t: Table, b: Terms, s: State, calls: seq<Call>): (u: State)
    requires Sound(w, t, b, s)
    ensures Kept(w, t, b, s, u) && Fine(w, t, u)
  {
    if calls == [] then s else
      var v := Run(w, t, b, s, calls[..|calls| - 1]);
      NextKeeps(w, t, b, v, calls[|calls| - 1]);
      Next(w, t, b, v, calls[|calls| - 1])
  }

  /** The captured program of any run computes the table on the whole domain. */
  lemma CaptureIsExact(w: Width, t: Table, b: Terms, calls: seq<Call>, xs: seq<int>)
    requires Encodes(w, t, b.encoded) && InDomains(t.inputs, xs)
    ensures Sound(w, t, b, OPENED)
    ensures var u := Run(w, t, b, OPENED, calls);
      u.captured.Some? ==> Admitted(w, t, u.captured.value) && Eval(w, u.captured.value, xs) == Some(RowOf(w, t, xs))
  {
    OpenedSound(w, t, b);
    var u := Run(w, t, b, OPENED, calls);
    hide Complete;
    hide Admitted;
    hide Run;
    hide Replay;
    if u.captured.Some? { NoneBadIffReplay(w, t, u.captured.value); }
  }

  /** How many calls of a run recorded an exact refutation. */
  ghost function Refutations(w: Width, t: Table, b: Terms, s: State, calls: seq<Call>): nat
    requires Sound(w, t, b, s)
  {
    if calls == [] then 0 else
      var k := |calls| - 1;
      var reply := ReplyOf(w, t, b, Run(w, t, b, s, calls[..k]), calls[k]);
      Refutations(w, t, b, s, calls[..k]) + if reply.Refuted? && reply.example.Some? then 1 else 0
  }

  lemma {:induction false} RefutationsGrow(w: Width, t: Table, b: Terms, s: State, calls: seq<Call>)
    requires Sound(w, t, b, s)
    ensures Refutations(w, t, b, s, calls) + |s.examples| <= |Run(w, t, b, s, calls).examples|
  {
    hide Sound;
    hide ReplyOf;
    hide Next;
    hide Admitted;
    hide Matches;
    if calls != [] {
      var k := |calls| - 1;
      RefutationsGrow(w, t, b, s, calls[..k]);
      NextKeeps(w, t, b, Run(w, t, b, s, calls[..k]), calls[k]);
    }
  }

  /** Distinct ordinals are no more than there are ordinals. */
  lemma {:induction false} Pigeonhole(s: seq<nat>, n: nat)
    requires Distinct(s) && forall k :: 0 <= k < |s| ==> s[k] < n
    ensures |s| <= n
  {
    assert |s| > 0 ==> s[0] < n;
    if n == 0 { return; }
    if n - 1 in s {
      var i :| 0 <= i < |s| && s[i] == n - 1;
      var rest := s[..i] + s[i + 1..];
      assert forall k :: 0 <= k < |rest| ==> rest[k] == s[if k < i then k else k + 1];
      Pigeonhole(rest, n - 1);
    } else {
      forall k | 0 <= k < |s|
        ensures s[k] < n - 1
      {
        assert s[k] in s;
      }
      Pigeonhole(s, n - 1);
    }
  }

  /** Against any proposer, a session records at most one exact refutation per point of the domain. */
  lemma RefutationsAreBounded(w: Width, t: Table, b: Terms, calls: seq<Call>)
    requires Sound(w, t, b, OPENED)
    ensures Refutations(w, t, b, OPENED, calls) <= |t.rows|
    ensures Refutations(w, t, b, OPENED, calls) <= b.maxExamples
  {
    RefutationsGrow(w, t, b, OPENED, calls);
    var e := Run(w, t, b, OPENED, calls).examples;
    hide Run;
    Pigeonhole(e, |t.rows|);
  }

  /** A candidate that fails a selected example is never captured or refuted exactly: the precheck catches it. */
  lemma Caught(w: Width, t: Table, b: Terms, s: State, call: Call, i: nat)
    requires Sound(w, t, b, s) && call.proposal.Some? && Admitted(w, t, call.proposal.value)
    requires i in s.examples && i < |t.rows| && !Matches(w, t, call.proposal.value, i)
    ensures var reply := ReplyOf(w, t, b, s, call); !reply.CapturedExact? && !reply.Refuted?
    ensures Next(w, t, b, s, call).captured == s.captured && Next(w, t, b, s, call).examples == s.examples
  {
    hide Complete;
    hide Admitted;
    hide Matches;
    PrecheckIs(w, t, call.proposal.value, s.examples);
    var k :| 0 <= k < |s.examples| && s.examples[k] == i;
    assert !Matches(w, t, call.proposal.value, s.examples[k]);
  }

  /** Where the session is open and the stages finish, it is refuted by the precheck. */
  lemma CaughtByPrecheck(w: Width, t: Table, b: Terms, s: State, call: Call, i: nat)
    requires Sound(w, t, b, s) && call.proposal.Some? && Proposed(w, t, call.proposal.value)
    requires i in s.examples && i < |t.rows| && !Matches(w, t, call.proposal.value, i)
    requires s.captured.None? && s.attempts < b.rounds && s.invocations < b.Invocations()
    requires call.world.readable && call.world.prechecked && call.world.saves >= 2
    requires PrecheckWork(s, call.proposal.value) <= b.visits
    ensures ReplyOf(w, t, b, s, call).PrecheckRefuted?
    ensures var e := ReplyOf(w, t, b, s, call).seen;
      e in s.examples && e < |t.rows| && !Matches(w, t, call.proposal.value, e)
  {
    hide Complete;
    hide Admitted;
    hide Matches;
    PrecheckIs(w, t, call.proposal.value, s.examples);
    var k :| 0 <= k < |s.examples| && s.examples[k] == i;
    assert !Matches(w, t, call.proposal.value, s.examples[k]);
    LifetimeLeft(b, s);
  }

  lemma Mul(a: nat, m: nat, n: nat)
    requires m <= n
    ensures a * m <= a * n
  {
  }

  lemma LifetimeLeft(b: Terms, s: State)
    requires s.invocations < b.Invocations() && s.reserved == b.visits * s.invocations
    ensures s.reserved + b.visits <= b.Lifetime()
  {
    var n, m := b.Invocations(), s.invocations + 1;
    Mul(b.visits, m, n);
    assert b.visits * m == b.visits * s.invocations + b.visits;
  }

  /** After a recorded refutation, the same candidate is caught ever after. */
  lemma RefutedIsCaughtEverAfter(w: Width, t: Table, b: Terms, s: State, call: Call, calls: seq<Call>, again: Call)
    requires Sound(w, t, b, s) && again.proposal == call.proposal
    requires var reply := ReplyOf(w, t, b, s, call); reply.Refuted? && reply.example.Some?
    ensures var u := Next(w, t, b, s, call);
      && Sound(w, t, b, u)
      && var v := Run(w, t, b, u, calls);
         var reply := ReplyOf(w, t, b, v, again);
         !reply.CapturedExact? && !reply.Refuted? && v.captured != call.proposal
  {
    hide Complete;
    hide Admitted;
    hide Matches;
    hide ReplyOf;
    hide Next;
    hide Run;
    NextKeeps(w, t, b, s, call);
    var u := Next(w, t, b, s, call);
    var i := ReplyOf(w, t, b, s, call).example.value;
    var v := Run(w, t, b, u, calls);
    assert i == (s.examples + [i])[|s.examples|] == u.examples[|s.examples|] == v.examples[|s.examples|];
    Caught(w, t, b, v, again, i);
  }

  /** A call at which nothing in the surroundings gives out, by a proposer who respects the examples. */
  predicate Steady(w: Width, t: Table, b: Terms, s: State, call: Call)
    requires Fine(w, t, s)
  {
    && call.world == World(true, true, true, true, true, call.world.covered, call.world.saves) && call.world.saves >= 3
    && call.proposal.Some? && Proposed(w, t, call.proposal.value)
    && DecisionWork(t, Reserve(b, s), call.proposal.value) <= b.visits
    && Precheck(w, t, call.proposal.value, s.examples).None?
  }

  lemma SteadyStep(w: Width, t: Table, b: Terms, s: State, call: Call)
    requires Sound(w, t, b, s) && s.captured.None? && s.attempts == s.invocations < b.rounds
    requires |t.rows| <= b.maxExamples && Steady(w, t, b, s, call)
    ensures var u := Next(w, t, b, s, call);
      u.captured.Some? || (u.attempts == u.invocations == s.attempts + 1 && |u.examples| > |s.examples|)
  {
    hide Complete;
    hide Admitted;
    hide Matches;
    hide Replay;
    hide Precheck;
    hide Selected;
    hide Compared;
    hide Recorded;
    hide Beats;
    var p, r := call.proposal.value, Reserve(b, s);
    ReserveSound(w, t, b, s);
    LifetimeLeft(b, s);
    VerdictIsExact(w, t, b.encoded, p);
    SelectedIsNew(w, t, r, p);
    if !Replay(w, t, p) {
      var i := Selected(w, t, r, p).value;
      NewFits(t, s.examples, i);
      RecordedIs(w, t, b, r, p, i, call.world.covered);
    }
  }

  /** While an ordinal is missing, the examples are fewer than the points. */
  lemma NewFits(t: Table, e: seq<nat>, i: nat)
    requires Distinct(e) && InRange(t, e) && i < |t.rows| && i !in e
    ensures |e| < |t.rows|
  {
    var more := e + [i];
    assert forall k :: 0 <= k < |e| ==> more[k] == e[k];
    Pigeonhole(more, |t.rows|);
  }

  ghost predicate SteadyRun(w: Width, t: Table, b: Terms, calls: seq<Call>)
    requires Sound(w, t, b, OPENED)
  {
    forall k :: 0 <= k < |calls| ==> SteadyAt(w, t, b, calls, k)
  }

  ghost predicate SteadyAt(w: Width, t: Table, b: Terms, calls: seq<Call>, k: nat)
    requires Sound(w, t, b, OPENED) && k < |calls|
  {
    var u := Run(w, t, b, OPENED, calls[..k]);
    u.captured.None? ==> Steady(w, t, b, u, calls[k])
  }

  lemma {:induction false} SteadyProgress(w: Width, t: Table, b: Terms, calls: seq<Call>, n: nat)
    requires Sound(w, t, b, OPENED) && |calls| <= b.rounds && |t.rows| <= b.maxExamples
    requires n <= |calls| && SteadyRun(w, t, b, calls)
    ensures var u := Run(w, t, b, OPENED, calls[..n]);
      u.captured.Some? || (u.attempts == u.invocations == n && |u.examples| >= n)
  {
    hide Sound;
    hide Steady;
    hide Next;
    if n > 0 {
      SteadyProgress(w, t, b, calls, n - 1);
      var u := Run(w, t, b, OPENED, calls[..n - 1]);
      assert calls[..n][..n - 1] == calls[..n - 1];
      assert SteadyAt(w, t, b, calls, n - 1);
      NextKeeps(w, t, b, u, calls[n - 1]);
      if u.captured.None? { SteadyStep(w, t, b, u, calls[n - 1]); }
    }
  }

  /** With slots for every point, a proposer who respects the examples captures within one more call than points. */
  lemma RespectfulProposerCaptures(w: Width, t: Table, b: Terms, calls: seq<Call>)
    requires Sound(w, t, b, OPENED) && |calls| <= b.rounds && |t.rows| <= b.maxExamples
    requires SteadyRun(w, t, b, calls) && |calls| > |t.rows|
    ensures Run(w, t, b, OPENED, calls).captured.Some?
  {
    hide Run;
    hide SteadyRun;
    assert calls[..|calls|] == calls;
    SteadyProgress(w, t, b, calls, |calls|);
    Pigeonhole(Run(w, t, b, OPENED, calls).examples, |t.rows|);
  }

  /** After a refutation with coverage, every reachable outcome is shown by an example, or the slots are full. */
  lemma CoverageCompletes(w: Width, t: Table, b: Terms, s: State, p: Program, i: nat, j: nat, o: int)
    requires Sound(w, t, b, s) && Admitted(w, t, p) && i < |t.rows| && i !in s.examples && |s.examples| < b.maxExamples
    requires DecisionWork(t, s, p) + CoverageWork(t, p) <= b.visits
    requires IsSelect(p, j) && (o == 0 || o == 1) && FirstShowing(w, t, p, j, o, 0).Some?
    ensures var e := Recorded(w, t, b, s, p, i, true); CoveredBy(w, t, p, j, o, e) || |e| == b.maxExamples
  {
    hide Complete;
    hide Admitted;
    hide Shows;
    var start := s.examples + [i];
    var rows := Coverage(w, t, p, start);
    RowsInRange(w, t, p, start);
    CoverIs(t, rows, start, b.maxExamples);
    CoverageIs(w, t, p, start, |p.nodes|);
    var r := RowFor(w, t, p, j, o, start);
    assert r in rows;
    var k :| 0 <= k < |rows| && rows[k] == r;
    hide Coverage;
    hide Cover;
    var e := Recorded(w, t, b, s, p, i, true);
    if !Lacks(r, e) {
      if r.covered {
        var m :| 0 <= m < |start| && Shows(w, t, p, j, o, start[m]);
        assert e[m] == start[m];
      } else {
        var m :| 0 <= m < |e| && e[m] == r.first.value;
      }
    }
  }

  // ---------------------------------------------------------------- the stored session

  /** The session file, replaced atomically until the surroundings stop the call. */
  class Session {
    const w: Width
    const t: Table
    const b: Terms
    var disk: State
    var left: nat

    constructor (w: Width, t: Table, b: Terms)
      requires Encodes(w, t, b.encoded)
      ensures this.w == w && this.t == t && this.b == b && disk == OPENED && Sound(w, t, b, disk)
    {
      this.w, this.t, this.b, disk, left := w, t, b, OPENED, 0;
      OpenedSound(w, t, b);
    }

    /** Replaces the stored session, or finds that it no longer can. */
    method Save(state: State) returns (ok: bool)
      modifies this
      ensures ok == (old(left) > 0)
      ensures disk == (if ok then state else old(disk)) && left == (if ok then old(left) - 1 else 0)
    {
      ok := left > 0;
      if ok { disk, left := state, left - 1; }
    }

    /** The last save of a call; a reply is given only if it completed. */
    method Finish(state: State, reply: Reply) returns (r: Reply)
      modifies this
      ensures disk == Stored(old(disk), [state], old(left)) && r == Given([state], reply, old(left))
    {
      var ok := Save(state);
      return if ok then reply else Refused;
    }

    /** One candidate call: the stored session stays sound whatever is proposed and whenever it stops. */
    method Candidate(call: Call) returns (reply: Reply)
      requires Sound(w, t, b, disk)
      modifies this
      ensures Kept(w, t, b, old(disk), disk)
      ensures disk == Next(w, t, b, old(disk), call)
      ensures reply == ReplyOf(w, t, b, old(disk), call)
    {
      ghost var s := disk;
      NextKeeps(w, t, b, s, call);
      SavesKeep(w, t, b, s, call);
      hide Sound;
      hide Kept;
      hide Truthful;
      hide Complete;
      hide Admitted;
      hide InRange;
      hide Judged;
      left := call.world.saves;
      var state := disk;
      if state.captured.Some? { return AlreadyCaptured; }
      if state.attempts >= b.rounds { return Inconclusive; }
      if state.invocations >= b.Invocations() { return Inconclusive; }
      if state.reserved + b.visits > b.Lifetime() { return Inconclusive; }
      state := Reserve(b, state);
      var ok := Save(state);
      if !ok { return Refused; }
      JudgedSaves(w, t, b, state, call);
      reply := Judge(call, state);
    }

    method Judge(call: Call, state: State) returns (reply: Reply)
      requires Fine(w, t, state)
      modifies this
      ensures var (saves, r) := Judged(w, t, b, state, call);
        reply == Given(saves, r, old(left)) && disk == Stored(old(disk), saves, old(left))
    {
      hide Complete;
      hide Admitted;
      hide Precheck;
      hide Matches;
      hide Compared;
      hide Refutation;
      if !call.world.readable { reply := Finish(state, Refused); return; }
      if call.proposal.None? || !Proposed(w, t, call.proposal.value) {
        reply := Finish(state.Spend(), CandidateRefused);
        return;
      }
      var p := call.proposal.value;
      var pre := PrecheckWork(state, p);
      if pre > b.visits { reply := Finish(state, Inconclusive); return; }
      if !call.world.prechecked { reply := Finish(state, Inconclusive); return; }
      var seen := Precheck(w, t, p, state.examples);
      if seen.Some? { reply := Finish(state.Spend(), PrecheckRefuted(seen.value)); return; }
      if pre + ExactWork(t, p) + ScanWork(t, p) > b.visits { reply := Finish(state, Inconclusive); return; }
      if !call.world.encoded { reply := Finish(state.Spend(), CandidateRefused); return; }
      if !call.world.decided { reply := Finish(state, Inconclusive); return; }
      var verdict := Compare(w, b.encoded, p);
      match verdict {
        case Equal => reply := Finish(state.Spend().(captured := Some(p)), CapturedExact);
        case Unsettled => reply := Finish(state, Inconclusive);
        case Differs => reply := Refute(call.world, state, p);
      }
    }

    /** The decided refutation is stored before any example is selected. */
    method Refute(world: World, state: State, p: Program) returns (reply: Reply)
      requires Fine(w, t, state) && Admitted(w, t, p)
      modifies this
      ensures var (saves, r) := Refutation(w, t, b, state, p, world);
        reply == Given(saves, r, old(left)) && disk == Stored(old(disk), saves, old(left))
    {
      hide Admitted;
      hide Matches;
      hide Points;
      var after := state.Spend();
      var ok := Save(after);
      if !ok { return Refused; }
      if !world.searched { reply := Finish(after, Refuted(None)); return; }
      var ordinal := Choose(t, Bad(w, t, p), Anchor(state));
      if ordinal.None? { reply := Finish(after, Refuted(None)); return; }
      if ordinal.value !in after.examples {
        if |after.examples| >= b.maxExamples { reply := Finish(after, Refuted(None)); return; }
        after := after.(examples := after.examples + [ordinal.value]);
      }
      if DecisionWork(t, state, p) + CoverageWork(t, p) <= b.visits && world.covered {
        var rows := CoverageRows(w, t, p, after.examples);
        var examples := AddCovering(rows, after.examples, b.maxExamples);
        after := after.(examples := examples);
      }
      reply := Finish(after, Refuted(ordinal));
    }
  }

  /** Opening a session: it succeeds exactly when the table is within the limit and its encoding fits. */
  method Open(w: Width, t: Table, rounds: nat, maxExamples: nat, visits: nat) returns (r: Option<Terms>)
    requires Complete(w, t)
    ensures r.Some? ==> Encodes(w, t, r.value.encoded) && Sound(w, t, r.value, OPENED)
    ensures r.Some? ==> r.value.rounds == rounds && r.value.maxExamples == maxExamples && r.value.visits == visits
    ensures r.Some? ==> r.value.encoded == Lookup.EncodingOf(w, t)
    ensures r.Some? <==> |t.rows| <= 4096 && |Lookup.EncodingOf(w, t).nodes| <= 256
  {
    hide Complete;
    hide Replay;
    hide Admitted;
    if |t.rows| > MAX_TUPLES { return None; }
    var q := Lookup.TableProgram(w, t);
    if q.None? { return None; }
    var b := Terms(rounds, maxExamples, visits, q.value);
    OpenedSound(w, t, b);
    return Some(b);
  }

  /** The loop over coverage rows. */
  method AddCovering(rows: seq<Row>, start: seq<nat>, limit: nat) returns (examples: seq<nat>)
    ensures examples == Cover(rows, start, limit)
  {
    examples := start;
    var n := 0;
    while n < |rows|
      invariant 0 <= n <= |rows| && examples == Cover(rows[..n], start, limit)
    {
      var r := rows[n];
      assert rows[..n + 1][..n] == rows[..n];
      if r.first.Some? && !r.covered && r.first.value !in examples && |examples| < limit {
        examples := examples + [r.first.value];
      }
      n := n + 1;
    }
    assert rows[..n] == rows;
  }
}
