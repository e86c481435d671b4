/** What one completed call to a capture session replies, and what it charges, in terms of the table alone. */
module Replies {
  import opened Ir
  import opened Policy
  import opened Capture

  /** The session still takes proposals. */
  predicate IsOpen(b: Terms, s: State) {
    s.captured.None? && s.attempts < b.rounds && s.invocations < 2 * b.rounds + 1
  }

  /** A proposal of one to 256 nodes that passes its kind check and declares the table's interface. */
  predicate Fits(w: Width, t: Table, call: Call) {
    call.proposal.Some? && Admitted(w, t, call.proposal.value) && 1 <= |call.proposal.value.nodes| <= 256
  }

  /** Some selected example is not matched. */
  predicate FailsOne(w: Width, t: Table, s: State, p: Program)
    requires Fine(w, t, s) && Admitted(w, t, p)
  {
    exists k :: 0 <= k < |s.examples| && !Matches(w, t, p, s.examples[k])
  }

  /** The call comes to check its proposal against the selected examples. */
  predicate Prechecks(w: Width, t: Table, b: Terms, s: State, call: Call)
    requires Fine(w, t, s)
  {
    && IsOpen(b, s) && call.world.readable && Fits(w, t, call) && call.world.prechecked
    && |s.examples| * |call.proposal.value.nodes| <= b.visits
  }

  /** It passes them, and the budget covers two full comparisons at capacity and one scan. */
  predicate Passes(w: Width, t: Table, b: Terms, s: State, call: Call)
    requires Fine(w, t, s)
  {
    && Prechecks(w, t, b, s, call) && !FailsOne(w, t, s, call.proposal.value)
    && var n, m := |call.proposal.value.nodes|, |t.rows|;
       |s.examples| * n + 2 * m * (256 + n) + m * n <= b.visits
  }

  /** The exact comparison settles it. */
  predicate Settles(w: Width, t: Table, b: Terms, s: State, call: Call)
    requires Fine(w, t, s)
  {
    Passes(w, t, b, s, call) && call.world.encoded && call.world.decided
  }

  /** The reply that the table and the surroundings determine. */
  ghost predicate Replied(w: Width, t: Table, b: Terms, s: State, call: Call, reply: Reply)
    requires Fine(w, t, s)
  {
    match reply
    case AlreadyCaptured => s.captured.Some?
    case Refused => IsOpen(b, s) && !call.world.readable
    case CandidateRefused =>
      || (IsOpen(b, s) && call.world.readable && !Fits(w, t, call))
      || (Passes(w, t, b, s, call) && !call.world.encoded)
    case PrecheckRefuted(i) =>
      && Prechecks(w, t, b, s, call)
      && exists k :: 0 <= k < |s.examples| && i == s.examples[k] && FirstFailing(w, t, s, call.proposal.value, k)
    case CapturedExact => Settles(w, t, b, s, call) && Replay(w, t, call.proposal.value)
    case Refuted(Some(i)) =>
      && Settles(w, t, b, s, call) && call.world.searched && |s.examples| < b.maxExamples
      && WorstFailure(w, t, call.proposal.value, s.examples, i)
    case Refuted(None) =>
      && Settles(w, t, b, s, call) && !Replay(w, t, call.proposal.value)
      && (!call.world.searched || |s.examples| >= b.maxExamples)
    case Inconclusive => Stops(w, t, b, s, call)
  }

  predicate FirstFailing(w: Width, t: Table, s: State, p: Program, k: nat)
    requires Fine(w, t, s) && Admitted(w, t, p) && k < |s.examples|
  {
    !Matches(w, t, p, s.examples[k]) && AllBefore(w, t, p, s.examples, k)
  }

  /** A budget or a stage gives out before anything is decided. */
  predicate Stops(w: Width, t: Table, b: Terms, s: State, call: Call)
    requires Fine(w, t, s)
  {
    || (s.captured.None? && !IsOpen(b, s))
    || (IsOpen(b, s) && call.world.readable && Fits(w, t, call) && !Prechecks(w, t, b, s, call))
    || (Prechecks(w, t, b, s, call) && !FailsOne(w, t, s, call.proposal.value) && !Passes(w, t, b, s, call))
    || (Passes(w, t, b, s, call) && call.world.encoded && !call.world.decided)
  }

  /** The reply decides the proposal, and uses up a round. */
  predicate Decides(reply: Reply) {
    reply.CandidateRefused? || reply.PrecheckRefuted? || reply.CapturedExact? || reply.Refuted?
  }

  /** The budget also covers the outcomes of every selection, and that stage finishes. */
  predicate Covers(t: Table, b: Terms, s: State, call: Call) {
    && call.world.covered && call.proposal.Some?
    && var n, m := |call.proposal.value.nodes|, |t.rows|;
       |s.examples| * n + 2 * m * (256 + n) + m * n + |Pairs(call.proposal.value.nodes)| * m <= b.visits
  }

  /** What a completed call leaves: a unit of work charged, a round if it decided, and what the reply says. */
  ghost predicate Charged(w: Width, t: Table, b: Terms, s: State, call: Call, reply: Reply, u: State) {
    && u.invocations == s.invocations + (if IsOpen(b, s) then 1 else 0)
    && u.reserved == s.reserved + (if IsOpen(b, s) then b.visits else 0)
    && u.attempts == s.attempts + (if Decides(reply) then 1 else 0)
    && u.captured == (if reply.CapturedExact? then call.proposal else s.captured)
    && (reply.Refuted? && reply.example.Some? ==> s.examples + [reply.example.value] <= u.examples)
    && (!(reply.Refuted? && reply.example.Some?) ==> u.examples == s.examples)
    && (reply.Refuted? && reply.example.Some? && !Covers(t, b, s, call) ==>
      u.examples == s.examples + [reply.example.value])
  }

  /** At most one reply is determined. */
  lemma OneReply(w: Width, t: Table, b: Terms, s: State, call: Call, x: Reply, y: Reply)
    requires Fine(w, t, s) && Replied(w, t, b, s, call, x) && Replied(w, t, b, s, call, y)
    ensures x == y
  {
    hide Admitted;
    hide Complete;
    hide Matches;
    hide WorstFailure;
    if x.PrecheckRefuted? || y.PrecheckRefuted? {
      OneExample(w, t, b, s, call, x, y);
    } else if x.Refuted? && x.example.Some? {
      SelectedIs(w, t, s, call.proposal.value, x.example.value);
      SelectedIsNew(w, t, s, call.proposal.value);
      if y.Refuted? && y.example.Some? { SelectedIs(w, t, s, call.proposal.value, y.example.value); }
    } else if y.Refuted? && y.example.Some? {
      SelectedIs(w, t, s, call.proposal.value, y.example.value);
      SelectedIsNew(w, t, s, call.proposal.value);
    }
  }

  lemma OneExample(w: Width, t: Table, b: Terms, s: State, call: Call, x: Reply, y: Reply)
    requires Fine(w, t, s) && Replied(w, t, b, s, call, x) && Replied(w, t, b, s, call, y)
    requires x.PrecheckRefuted? || y.PrecheckRefuted?
    ensures x == y
  {
    hide Admitted;
    hide Complete;
    hide Matches;
    hide WorstFailure;
    var p := call.proposal.value;
    assert FailsOne(w, t, s, p);
    var i :| 0 <= i < |s.examples| && (x.PrecheckRefuted? ==> x.seen == s.examples[i] && FirstFailing(w, t, s, p, i));
    var j :| 0 <= j < |s.examples| && (y.PrecheckRefuted? ==> y.seen == s.examples[j] && FirstFailing(w, t, s, p, j));
  }

  /** On an open session the judgement is the reply, and its last save what the reply says. */
  lemma JudgedReplies(w: Width, t: Table, b: Terms, s: State, call: Call)
    requires Sound(w, t, b, s) && IsOpen(b, s)
    ensures Fine(w, t, s)
    ensures var (saves, reply) := Judged(w, t, b, Reserve(b, s), call);
      && 1 <= |saves| <= 2 && Replied(w, t, b, s, call, reply)
      && Charged(w, t, b, s, call, reply, saves[|saves| - 1])
  {
    hide Complete;
    hide Admitted;
    hide Matches;
    hide Replay;
    hide Precheck;
    hide Refutation;
    hide Compared;
    hide WorstFailure;
    hide AllBefore;
    var r := Reserve(b, s);
    if Fits(w, t, call) {
      var p := call.proposal.value;
      VerdictIsExact(w, t, b.encoded, p);
      PrecheckIs(w, t, p, s.examples);
      if Settles(w, t, b, s, call) && !Replay(w, t, p) { RefutationReplies(w, t, b, s, call); }
    }
  }

  lemma RefutationReplies(w: Width, t: Table, b: Terms, s: State, call: Call)
    requires Sound(w, t, b, s) && Settles(w, t, b, s, call) && !Replay(w, t, call.proposal.value)
    ensures var (saves, reply) := Refutation(w, t, b, Reserve(b, s), call.proposal.value, call.world);
      && |saves| == 2 && reply.Refuted? && Replied(w, t, b, s, call, reply)
      && Charged(w, t, b, s, call, reply, saves[1])
  {
    hide Complete;
    hide Admitted;
    hide Matches;
    hide Replay;
    hide Precheck;
    hide Selected;
    hide Recorded;
    hide Beats;
    var p, r := call.proposal.value, Reserve(b, s);
    PrecheckIs(w, t, p, s.examples);
    SelectedIsNew(w, t, r, p);
    var i := Selected(w, t, r, p);
    if i.Some? && |s.examples| < b.maxExamples {
      RecordedIs(w, t, b, r, p, i.value, call.world.covered);
      if !Covers(t, b, s, call) { RecordedAlone(w, t, b, s, call, i.value); }
    }
  }

  /** Without coverage only the counterexample is added. */
  lemma RecordedAlone(w: Width, t: Table, b: Terms, s: State, call: Call, i: nat)
    requires Complete(w, t) && call.proposal.Some? && Admitted(w, t, call.proposal.value) && i !in s.examples
    requires !Covers(t, b, s, call)
    ensures Recorded(w, t, b, Reserve(b, s), call.proposal.value, i, call.world.covered) == s.examples + [i]
  {
    hide Complete;
    hide Admitted;
    CoverageChargeIs(t, call.proposal.value);
  }

  /**
   A completed call gives exactly the reply that the table and the surroundings determine, charges a whole unit of
   work whenever the session is open, and a round exactly when the reply decides the proposal.
   */
  lemma RepliesAre(w: Width, t: Table, b: Terms, s: State, call: Call, reply: Reply)
    requires Sound(w, t, b, s) && call.world.saves >= 3
    ensures Fine(w, t, s)
    ensures ReplyOf(w, t, b, s, call) == reply <==> Replied(w, t, b, s, call, reply)
    ensures Charged(w, t, b, s, call, ReplyOf(w, t, b, s, call), Next(w, t, b, s, call))
  {
    hide Judged;
    hide Replied;
    SoundCounts(w, t, b, s);
    var given := ReplyOf(w, t, b, s, call);
    if IsOpen(b, s) {
      JudgedReplies(w, t, b, s, call);
      LifetimeLeft(b, s);
    } else {
      ClosedReplies(w, t, b, s, call);
    }
    assert Replied(w, t, b, s, call, given);
    if Replied(w, t, b, s, call, reply) { OneReply(w, t, b, s, call, reply, given); }
  }

  lemma ClosedReplies(w: Width, t: Table, b: Terms, s: State, call: Call)
    requires Sound(w, t, b, s) && !IsOpen(b, s) && Fine(w, t, s)
    ensures Replied(w, t, b, s, call, if s.captured.Some? then AlreadyCaptured else Inconclusive)
  {
    hide Admitted;
    hide Complete;
  }

  /** The same call with every save completing. */
  function Whole(call: Call): Call { call.(world := call.world.(saves := 3)) }

  /** What a call decides does not depend on how many of its saves complete. */
  lemma JudgedWhole(w: Width, t: Table, b: Terms, s: State, call: Call)
    requires Fine(w, t, s)
    ensures Judged(w, t, b, s, call) == Judged(w, t, b, s, Whole(call))
  {
    hide Compared;
    hide Precheck;
    hide Complete;
    hide Admitted;
    hide Selected;
    hide Recorded;
  }

  lemma JudgedShape(w: Width, t: Table, b: Terms, s: State, call: Call)
    requires Fine(w, t, s)
    ensures var (saves, reply) := Judged(w, t, b, s, call);
      if reply.Refuted? then |saves| == 2 && saves[0] == s.(attempts := s.attempts + 1) else |saves| == 1
  {
    hide Compared;
    hide Precheck;
    hide Complete;
    hide Admitted;
    hide Selected;
    hide Recorded;
  }

  /**
   A stopped call: before its first save it leaves nothing; after it, one unit of work charged; after the second, all
   it decided, but of a refutation only the round, not yet the examples.
   */
  lemma StoppedCallLeaves(w: Width, t: Table, b: Terms, s: State, call: Call)
    requires Sound(w, t, b, s)
    ensures Fine(w, t, s)
    ensures var u, reply := Next(w, t, b, s, call), ReplyOf(w, t, b, s, call);
      var v, given := Next(w, t, b, s, Whole(call)), ReplyOf(w, t, b, s, Whole(call));
      var charged := s.(invocations := s.invocations + 1, reserved := s.reserved + b.visits);
      if !IsOpen(b, s) then u == v == s && reply == given
      else match call.world.saves
        case 0 => u == s && reply == Refused
        case 1 => u == charged && reply == Refused
        case 2 =>
          if given.Refuted? then u == charged.(attempts := s.attempts + 1) && reply == Refused
          else u == v && reply == given
        case _ => u == v && reply == given
  {
    hide Judged;
    SoundCounts(w, t, b, s);
    hide Sound;
    hide Fine;
    if IsOpen(b, s) {
      var r := Reserve(b, s);
      LifetimeOpen(w, t, b, s);
      JudgedWhole(w, t, b, r, call);
      JudgedShape(w, t, b, r, call);
    }
  }

  lemma LifetimeOpen(w: Width, t: Table, b: Terms, s: State)
    requires Sound(w, t, b, s) && IsOpen(b, s)
    ensures s.reserved + b.visits <= b.Lifetime()
  {
    LifetimeLeft(b, s);
  }

  // ---------------------------------------------------------------- whole runs

  /** How many calls of a run decided their proposals. */
  ghost function Decisions(w: Width, t: Table, b: Terms, s: State, calls: seq<Call>): nat
    requires Sound(w, t, b, s)
  {
    if calls == [] then 0 else
      var k := |calls| - 1;
      var reply := ReplyOf(w, t, b, Run(w, t, b, s, calls[..k]), calls[k]);
      Decisions(w, t, b, s, calls[..k]) + if Decides(reply) then 1 else 0
  }

  predicate Completed(calls: seq<Call>) { forall k :: 0 <= k < |calls| ==> calls[k].world.saves >= 3 }

  /** Over every run of completed calls, rounds count the decided proposals, so no more of them are decided. */
  lemma {:induction false} RoundsCountDecisions(w: Width, t: Table, b: Terms, calls: seq<Call>)
    requires Sound(w, t, b, OPENED) && Completed(calls)
    ensures Run(w, t, b, OPENED, calls).attempts == Decisions(w, t, b, OPENED, calls) <= b.rounds
  {
    hide ReplyOf;
    hide Next;
    hide Decides;
    if calls != [] {
      var k := |calls| - 1;
      RoundsCountDecisions(w, t, b, calls[..k]);
      RepliesAre(w, t, b, Run(w, t, b, OPENED, calls[..k]), calls[k], Refused);
    }
  }

  // ---------------------------------------------------------------- the charge for coverage

  /** A node before a selection. */
  predicate Under(nodes: seq<Op>, j: nat, k: nat) {
    k < j < |nodes| && nodes[j].Apply? && nodes[j].code.Select?
  }

  function Pairs(nodes: seq<Op>): set<(nat, nat)> {
    set j: nat, k: nat | j < |nodes| && k < j && Under(nodes, j, k) :: (j, k)
  }

  /** Coverage is charged one visit for each selection, each node before it and each row. */
  lemma CoverageChargeIs(t: Table, p: Program)
    ensures CoverageWork(t, p) == |Pairs(p.nodes)| * |t.rows|
  {
    SelectIndicesAre(p.nodes);
  }

  lemma {:induction false} SelectIndicesAre(nodes: seq<Op>)
    ensures SelectIndices(nodes) == |Pairs(nodes)|
  {
    if nodes == [] {
      assert Pairs(nodes) == {};
    } else {
      var n := |nodes| - 1;
      SelectIndicesAre(nodes[..n]);
      PairsStep(nodes);
      hide Pairs;
      Line(n, n);
    }
  }

  function Before(n: nat, j: nat): set<(nat, nat)> { set k: nat | k < n :: (j, k) }

  lemma PairsStep(nodes: seq<Op>)
    requires nodes != []
    ensures var n := |nodes| - 1;
      |Pairs(nodes)| == |Pairs(nodes[..n])| + if nodes[n].Apply? && nodes[n].code.Select? then |Before(n, n)| else 0
  {
    var n := |nodes| - 1;
    var last := if nodes[n].Apply? && nodes[n].code.Select? then Before(n, n) else {};
    forall j: nat, k: nat
      ensures (j, k) in Pairs(nodes) <==> (j, k) in Pairs(nodes[..n]) || (j, k) in last
    {
      if j < n { assert Under(nodes, j, k) <==> Under(nodes[..n], j, k); }
    }
    assert Pairs(nodes) == Pairs(nodes[..n]) + last;
    assert Pairs(nodes[..n]) !! last;
  }

  lemma {:induction false} Line(j: nat, n: nat)
    ensures |Before(n, j)| == n
  {
    if n > 0 {
      Line(j, n - 1);
      assert Before(n, j) == Before(n - 1, j) + {(j, n - 1)};
    }
  }
}
