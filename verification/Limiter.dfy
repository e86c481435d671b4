/**
 The fixed-window rate limiter: a window opens at the first request after expiry and admits a quota
 of requests; supplied times may repeat or go back.
 */
module Limiter {
  import opened Wide

  /** Window length and quota. */
  datatype Limits = Limits(window: nat, quota: nat) {
    predicate Valid() { window >= 1 && quota >= 1 }
  }

  datatype State = State(start: nat, used: nat)

  const GENESIS := State(0, 0)

  datatype Request = Request(now: nat, authorized: bool)

  datatype Decision = Accept | Reject(reason: nat)

  /** One transition: the decision and the successor. */
  function Step(l: Limits, s: State, r: Request): (Decision, State) {
    if !r.authorized then (Reject(200), s)
    else if r.now < s.start then (Reject(201), s)
    else if r.now < s.start + l.window && s.used == l.quota then (Reject(202), s)
    else if r.now >= s.start + l.window then (Accept, State(r.now, 1))
    else (Accept, State(s.start, s.used + 1))
  }

  /** The state after a trace of requests. */
  function Run(l: Limits, trace: seq<Request>): State {
    if trace == [] then GENESIS else Step(l, Run(l, trace[..|trace| - 1]), trace[|trace| - 1]).1
  }

  predicate AcceptedAt(l: Limits, trace: seq<Request>, k: nat)
    requires k < |trace|
  {
    Step(l, Run(l, trace[..k]), trace[k]).0.Accept?
  }

  // ---------------------------------------------------------------- decisions, from the trace alone

  /** The decision on each request of a trace. */
  function Decisions(l: Limits, trace: seq<Request>): (ds: seq<Decision>)
    ensures |ds| == |trace|
  {
    seq(|trace|, k requires 0 <= k < |trace| => Step(l, Run(l, trace[..k]), trace[k]).0)
  }

  /** Request `k` was accepted a full window length or more after the window before it opened. */
  predicate Opens(l: Limits, trace: seq<Request>, ds: seq<Decision>, k: nat)
    requires k < |trace| == |ds|
    decreases k, 1
  {
    ds[k].Accept? && trace[k].now >= Opened(l, trace, ds, k) + l.window
  }

  /** When the window before request `k` opened: at the last request that opened one, or at time zero. */
  function Opened(l: Limits, trace: seq<Request>, ds: seq<Decision>, k: nat): nat
    requires k <= |trace| == |ds|
    decreases k, 0
  {
    if k == 0 then 0 else if Opens(l, trace, ds, k - 1) then trace[k - 1].now else Opened(l, trace, ds, k - 1)
  }

  /** The last request before `k` that opened a window, or the first of all. */
  function Opener(l: Limits, trace: seq<Request>, ds: seq<Decision>, k: nat): (j: nat)
    requires k <= |trace| == |ds|
    ensures j <= k
  {
    if k == 0 then 0 else if Opens(l, trace, ds, k - 1) then k - 1 else Opener(l, trace, ds, k - 1)
  }

  /** How many of the requests from `i` to before `k` were accepted. */
  function Acceptances(ds: seq<Decision>, i: nat, k: nat): nat
    requires i <= k <= |ds|
  {
    |AcceptedIn(ds, i, k)|
  }

  function AcceptedIn(ds: seq<Decision>, i: nat, k: nat): set<nat>
    requires i <= k <= |ds|
  {
    set j | i <= j < k && ds[j].Accept?
  }

  /** The window before request `k` has not expired, and the quota is accepted in it. */
  predicate FullAt(l: Limits, trace: seq<Request>, ds: seq<Decision>, k: nat)
    requires k < |trace| == |ds|
  {
    && trace[k].now < Opened(l, trace, ds, k) + l.window
    && Acceptances(ds, Opener(l, trace, ds, k), k) >= l.quota
  }

  /** A request is refused for the first cause that applies, and accepted if none does. */
  predicate Decided(l: Limits, trace: seq<Request>, ds: seq<Decision>, k: nat)
    requires k < |trace| == |ds|
  {
    && (ds[k] == Reject(200) <==> !trace[k].authorized)
    && (ds[k] == Reject(201) <==> trace[k].authorized && trace[k].now < Opened(l, trace, ds, k))
    && (ds[k] == Reject(202) <==>
      trace[k].authorized && trace[k].now >= Opened(l, trace, ds, k) && FullAt(l, trace, ds, k))
    && (ds[k] == Accept <==>
      trace[k].authorized && trace[k].now >= Opened(l, trace, ds, k) && !FullAt(l, trace, ds, k))
  }

  predicate Follows(l: Limits, trace: seq<Request>, ds: seq<Decision>) {
    |ds| == |trace| && forall k :: 0 <= k < |ds| ==> Decided(l, trace, ds, k)
  }

  lemma OneMore(ds: seq<Decision>, i: nat, k: nat)
    requires i <= k < |ds|
    ensures Acceptances(ds, i, k + 1) == Acceptances(ds, i, k) + if ds[k].Accept? then 1 else 0
    ensures Acceptances(ds, k, k) == 0
  {
    assert AcceptedIn(ds, i, k + 1) == AcceptedIn(ds, i, k) + if ds[k].Accept? then {k} else {};
    assert AcceptedIn(ds, k, k) == {};
  }

  lemma OneStep(l: Limits, trace: seq<Request>, k: nat)
    requires k < |trace|
    ensures var s := Run(l, trace[..k]);
      Decisions(l, trace)[k] == Step(l, s, trace[k]).0 && Run(l, trace[..k + 1]) == Step(l, s, trace[k]).1
  {
    assert trace[..k + 1][..k] == trace[..k];
  }

  lemma StateNext(l: Limits, trace: seq<Request>, ds: seq<Decision>, s: State, k: nat)
    requires k < |trace| == |ds| && ds[k] == Step(l, s, trace[k]).0
    requires s == State(Opened(l, trace, ds, k), Acceptances(ds, Opener(l, trace, ds, k), k))
    ensures Step(l, s, trace[k]).1
         == State(Opened(l, trace, ds, k + 1), Acceptances(ds, Opener(l, trace, ds, k + 1), k + 1))
  {
    OneMore(ds, Opener(l, trace, ds, k), k);
    OneMore(ds, k, k);
    hide Acceptances;
  }

  /** The state before request `k` is when its window opened and how many were accepted since. */
  lemma {:induction false} StateIs(l: Limits, trace: seq<Request>, k: nat)
    requires k <= |trace|
    ensures var ds := Decisions(l, trace);
      Run(l, trace[..k]) == State(Opened(l, trace, ds, k), Acceptances(ds, Opener(l, trace, ds, k), k))
  {
    hide *;
    if k == 0 { StateFirst(l, trace); }
    else {
      StateIs(l, trace, k - 1);
      OneStep(l, trace, k - 1);
      StateNext(l, trace, Decisions(l, trace), Run(l, trace[..k - 1]), k - 1);
    }
  }

  lemma StateFirst(l: Limits, trace: seq<Request>)
    ensures Run(l, trace[..0]) == State(Opened(l, trace, Decisions(l, trace), 0), 0)
    ensures Acceptances(Decisions(l, trace), Opener(l, trace, Decisions(l, trace), 0), 0) == 0
  {
    hide Decisions;
    assert AcceptedIn(Decisions(l, trace), 0, 0) == {};
  }

  /** The decisions of every trace are these, and a refused request changes nothing. */
  lemma DecisionsFollow(l: Limits, trace: seq<Request>)
    requires l.Valid()
    ensures Follows(l, trace, Decisions(l, trace))
    ensures forall k :: 0 <= k < |trace| && Decisions(l, trace)[k].Reject? ==>
      Run(l, trace[..k + 1]) == Run(l, trace[..k])
  {
    var ds := Decisions(l, trace);
    forall k | 0 <= k < |trace|
      ensures ds[k] == Step(l, Run(l, trace[..k]), trace[k]).0
      ensures Run(l, trace[..k + 1]) == Step(l, Run(l, trace[..k]), trace[k]).1
      ensures Run(l, trace[..k]) == State(Opened(l, trace, ds, k), Acceptances(ds, Opener(l, trace, ds, k), k))
      ensures Run(l, trace[..k]).used <= l.quota
    {
      OneStep(l, trace, k);
      StateIs(l, trace, k);
      WithinQuota(l, trace[..k]);
    }
    hide Decisions;
    hide Run;
    hide Acceptances;
    hide Opened;
    hide Opener;
  }

  /** No other decisions follow the rules. */
  lemma DecisionsAreTheOnly(l: Limits, trace: seq<Request>, ds: seq<Decision>)
    requires l.Valid() && Follows(l, trace, ds)
    ensures ds == Decisions(l, trace)
  {
    var es := Decisions(l, trace);
    DecisionsFollow(l, trace);
    hide Decisions;
    assert |ds| == |es| == |trace|;
    hide Follows;
    SamePrefix(l, trace, ds, es, |trace|);
    assert ds[..|trace|] == ds && es[..|trace|] == es;
  }

  lemma {:induction false} SamePrefix(l: Limits, trace: seq<Request>, ds: seq<Decision>, es: seq<Decision>, k: nat)
    requires Follows(l, trace, ds) && Follows(l, trace, es) && k <= |trace|
    ensures ds[..k] == es[..k]
    ensures Opened(l, trace, ds, k) == Opened(l, trace, es, k) && Opener(l, trace, ds, k) == Opener(l, trace, es, k)
  {
    if k > 0 {
      SamePrefix(l, trace, ds, es, k - 1);
      SameDecision(l, trace, ds, es, k - 1);
      hide Follows;
      assert ds[..k] == ds[..k - 1] + [ds[k - 1]] && es[..k] == es[..k - 1] + [es[k - 1]];
    }
  }

  lemma SameDecision(l: Limits, trace: seq<Request>, ds: seq<Decision>, es: seq<Decision>, k: nat)
    requires k < |trace| == |ds| == |es| && Decided(l, trace, ds, k) && Decided(l, trace, es, k) && ds[..k] == es[..k]
    requires Opened(l, trace, ds, k) == Opened(l, trace, es, k) && Opener(l, trace, ds, k) == Opener(l, trace, es, k)
    ensures ds[k] == es[k]
  {
    SameCount(ds, es, Opener(l, trace, ds, k), k);
    hide Acceptances;
    hide Opened;
    hide Opener;
  }

  lemma SameCount(ds: seq<Decision>, es: seq<Decision>, i: nat, k: nat)
    requires i <= k <= |ds| && k <= |es| && ds[..k] == es[..k]
    ensures Acceptances(ds, i, k) == Acceptances(es, i, k)
  {
    assert forall j :: 0 <= j < k ==> ds[j] == ds[..k][j] && es[j] == es[..k][j];
    assert AcceptedIn(ds, i, k) == AcceptedIn(es, i, k);
  }

  // ---------------------------------------------------------------- quotas and windows

  /** How many requests of a trace with times in `from <= now < until` were accepted. */
  function Accepted(l: Limits, trace: seq<Request>, from: int, until: int): nat {
    if trace == [] then 0 else
      var k := |trace| - 1;
      assert trace[..k] == trace[..|trace| - 1];
      Accepted(l, trace[..k], from, until) + if AcceptedAt(l, trace, k) && from <= trace[k].now < until then 1 else 0
  }

  /** How many requests of a trace were accepted. */
  function Total(l: Limits, trace: seq<Request>): nat {
    if trace == [] then 0 else
      var k := |trace| - 1;
      Total(l, trace[..k]) + if AcceptedAt(l, trace, k) then 1 else 0
  }

  /** The positions of the accepted requests with times in `from <= now < until`. */
  function Within(l: Limits, trace: seq<Request>, from: int, until: int): set<nat> {
    Among(Decisions(l, trace), trace, from, until)
  }

  function Among(ds: seq<Decision>, trace: seq<Request>, from: int, until: int): set<nat>
    requires |ds| == |trace|
  {
    set k | 0 <= k < |ds| && ds[k].Accept? && from <= trace[k].now < until
  }

  lemma AmongStep(ds: seq<Decision>, trace: seq<Request>, from: int, until: int)
    requires |ds| == |trace| > 0
    ensures var k := |ds| - 1;
      |Among(ds, trace, from, until)| == |Among(ds[..k], trace[..k], from, until)| +
        if ds[k].Accept? && from <= trace[k].now < until then 1 else 0
  {
    var k := |ds| - 1;
    var last: set<nat> := if ds[k].Accept? && from <= trace[k].now < until then {k} else {};
    assert Among(ds, trace, from, until) == Among(ds[..k], trace[..k], from, until) + last;
  }

  lemma PrefixDecisions(l: Limits, trace: seq<Request>, n: nat)
    requires n <= |trace|
    ensures Decisions(l, trace[..n]) == Decisions(l, trace)[..n]
  {
    forall k | 0 <= k < n
      ensures Decisions(l, trace[..n])[k] == Decisions(l, trace)[k]
    {
      assert trace[..n][..k] == trace[..k];
    }
  }

  lemma WithinStep(l: Limits, trace: seq<Request>, from: int, until: int)
    requires trace != []
    ensures var k := |trace| - 1;
      |Within(l, trace, from, until)| == |Within(l, trace[..k], from, until)| +
        if Decisions(l, trace)[k].Accept? && from <= trace[k].now < until then 1 else 0
  {
    var k := |trace| - 1;
    PrefixDecisions(l, trace, k);
    AmongStep(Decisions(l, trace), trace, from, until);
    hide Decisions;
    hide Among;
  }

  /** Both counts count positions of the trace. */
  lemma {:induction false} CountsAre(l: Limits, trace: seq<Request>, from: int, until: int)
    ensures Accepted(l, trace, from, until) == |Within(l, trace, from, until)|
    ensures Total(l, trace) == Acceptances(Decisions(l, trace), 0, |trace|)
  {
    var ds := Decisions(l, trace);
    if trace == [] {
      assert AcceptedIn(ds, 0, 0) == {};
      assert Within(l, trace, from, until) == {};
    } else {
      var k := |trace| - 1;
      CountsAre(l, trace[..k], from, until);
      OneStep(l, trace, k);
      hide Step;
      WithinStep(l, trace, from, until);
      PrefixDecisions(l, trace, k);
      hide Decisions;
      hide Within;
      hide Run;
      hide Acceptances;
      assert ds[..k][..k] == ds[..k];
      SameCount(ds, ds[..k], 0, k);
      OneMore(ds, 0, k);
    }
  }

  /** The quota is never exceeded. */
  lemma {:induction false} WithinQuota(l: Limits, trace: seq<Request>)
    requires l.Valid()
    ensures Run(l, trace).used <= l.quota
  {
    if trace != [] { WithinQuota(l, trace[..|trace| - 1]); }
  }

  /** Windows open at least one window length apart, the first that long after time zero. */
  lemma StartsApart(l: Limits, trace: seq<Request>, ds: seq<Decision>, i: nat, j: nat)
    requires i < j < |trace| == |ds| && Opens(l, trace, ds, j)
    ensures Opens(l, trace, ds, i) ==> trace[i].now + l.window <= trace[j].now
    ensures l.window <= trace[j].now
  {
    OpenedGrows(l, trace, ds, i + 1, j);
    hide Opened;
    OpenedNext(l, trace, ds, i);
  }

  lemma OpenedNext(l: Limits, trace: seq<Request>, ds: seq<Decision>, i: nat)
    requires i < |trace| == |ds|
    ensures Opens(l, trace, ds, i) ==> Opened(l, trace, ds, i + 1) == trace[i].now
  {
  }

  lemma {:induction false} OpenedGrows(l: Limits, trace: seq<Request>, ds: seq<Decision>, i: nat, j: nat)
    requires i <= j <= |trace| == |ds|
    ensures Opened(l, trace, ds, i) <= Opened(l, trace, ds, j)
    decreases j
  {
    if i < j { OpenedGrows(l, trace, ds, i, j - 1); }
  }

  lemma LaterQuotient(a: nat, b: nat, w: nat)
    requires w >= 1 && a + w <= b
    ensures a / w + 1 <= b / w
  {
    QuotientOf(a, w);
    QuotientOf(b, w);
    assert (a / w + 1) * w == a / w * w + w;
    if b / w < a / w + 1 { MulBound(b / w + 1, w, a / w + 1, w); }
  }

  /** A full quota for every window length before the start. */
  function Full(l: Limits, start: nat): nat
    requires l.Valid()
  {
    l.quota * (start / l.window)
  }

  lemma FullGrows(l: Limits, a: nat, b: nat)
    requires l.Valid() && a + l.window <= b
    ensures Full(l, a) + l.quota <= Full(l, b)
  {
    LaterQuotient(a, b, l.window);
    var p, q, n := a / l.window, b / l.window, l.quota;
    MulBound(n, p + 1, n, q);
    Next(n, p);
  }

  /**
   Every accepted request is charged: the total is at most a full quota for each earlier window length, plus
   what is used.
   */
  lemma {:induction false} TotalCharged(l: Limits, trace: seq<Request>)
    requires l.Valid()
    ensures Total(l, trace) <= Full(l, Run(l, trace).start) + Run(l, trace).used
  {
    if trace != [] {
      var k := |trace| - 1;
      TotalCharged(l, trace[..k]);
      WithinQuota(l, trace[..k]);
      var s, u := Run(l, trace[..k]), Run(l, trace);
      if s.start + l.window <= u.start { FullGrows(l, s.start, u.start); }
      hide Full;
      hide Total;
      TotalStep(l, trace);
    }
  }

  lemma TotalStep(l: Limits, trace: seq<Request>)
    requires trace != []
    ensures var k := |trace| - 1; Total(l, trace) == Total(l, trace[..k]) + if AcceptedAt(l, trace, k) then 1 else 0
  {
  }

  /** The total of any trace is bounded by where its last window starts. */
  lemma TotalBounded(l: Limits, trace: seq<Request>)
    requires l.Valid()
    ensures Total(l, trace) <= l.quota * (Run(l, trace).start / l.window + 1)
  {
    hide Run;
    hide Total;
    hide Full;
    TotalCharged(l, trace);
    WithinQuota(l, trace);
    FullNext(l, Run(l, trace).start);
  }

  lemma FullNext(l: Limits, start: nat)
    requires l.Valid()
    ensures Full(l, start) + l.quota == l.quota * (start / l.window + 1)
  {
    Next(l.quota, start / l.window);
  }

  lemma Next(n: int, a: int)
    ensures n * a + n == n * (a + 1)
  {
  }

  /** The most that an interval of one window length can hold: two quotas, or one if no two windows fit. */
  function Burst(l: Limits): nat { if l.window == 1 then l.quota else 2 * l.quota }

  /** What an interval can have taken, from where the current window stands. */
  function Taken(l: Limits, s: State, from: int): nat {
    if s.start + l.window <= from then 0
    else if s.start <= from then s.used
    else if s.start < from + l.window then l.quota + s.used
    else Burst(l)
  }

  lemma {:induction false} IntervalTaken(l: Limits, trace: seq<Request>, from: int)
    requires l.Valid()
    ensures Accepted(l, trace, from, from + l.window) <= Taken(l, Run(l, trace), from)
  {
    if trace != [] {
      IntervalTaken(l, trace[..|trace| - 1], from);
      WithinQuota(l, trace[..|trace| - 1]);
    }
  }

  /** Any interval of one window length holds at most the burst, even where times go back. */
  lemma IntervalBounded(l: Limits, trace: seq<Request>, from: int)
    requires l.Valid()
    ensures Accepted(l, trace, from, from + l.window) <= Burst(l) <= 2 * l.quota
  {
    IntervalTaken(l, trace, from);
    WithinQuota(l, trace);
  }

  // ---------------------------------------------------------------- the bound is reached

  /** `n` authorized requests at one time. */
  function Volley(now: nat, n: nat): seq<Request> { seq(n, _ => Request(now, true)) }

  /** One window filled at its last instant, and the next as it opens. */
  function Worst(l: Limits, n: nat): seq<Request>
    requires l.Valid()
  {
    if n <= l.quota then Volley(l.window - 1, n) else Volley(l.window - 1, l.quota) + Volley(l.window, n - l.quota)
  }

  lemma WorstAt(l: Limits, n: nat, k: nat)
    requires l.Valid() && k < n
    ensures |Worst(l, n)| == n && Worst(l, n)[k] == Request(if k < l.quota then l.window - 1 else l.window, true)
  {
  }

  lemma WorstPrefix(l: Limits, n: nat)
    requires l.Valid() && 0 < n
    ensures var k := n - 1; |Worst(l, n)| == n && Worst(l, n)[..k] == Worst(l, k)
  {
    var k := n - 1;
    WorstAt(l, n, k);
    assert |Worst(l, k)| == k;
    hide Worst;
    forall i | 0 <= i < k
      ensures Worst(l, n)[..k][i] == Worst(l, k)[i]
    {
      WorstAt(l, n, i);
      WorstAt(l, k, i);
    }
  }

  lemma {:induction false} WorstRun(l: Limits, n: nat)
    requires l.Valid() && l.window >= 2 && n <= 2 * l.quota
    ensures Run(l, Worst(l, n)) == if n <= l.quota then State(0, n) else State(l.window, n - l.quota)
    ensures Accepted(l, Worst(l, n), l.window - 1, 2 * l.window - 1) == n
  {
    if n > 0 {
      WorstRun(l, n - 1);
      var trace := Worst(l, n);
      WorstPrefix(l, n);
      WorstAt(l, n, n - 1);
      hide Worst;
    }
  }

  /** From two instants on, the burst of two quotas is reached: the bound is exact. */
  lemma BurstIsReached(l: Limits)
    requires l.Valid() && l.window >= 2
    ensures Accepted(l, Worst(l, 2 * l.quota), l.window - 1, l.window - 1 + l.window) == Burst(l)
  {
    WorstRun(l, 2 * l.quota);
  }
}
