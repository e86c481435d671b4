/**
 Resumable acceptance runs.  Each scenario leaves a receipt and a log; before it runs again the
 earlier ones are renamed to numbered attempts.  A run may stop between any two file operations and
 be resumed later.
 */
module Runs {
  import opened Patterns
  import opened Digits
  import Wide

  // ---------------------------------------------------------------- names

  datatype Folder = Receipts | Logs

  datatype Path = Path(folder: Folder, name: string)

  const JSON := ".json"
  const LOG := ".log"
  const ATTEMPT := ".attempt"

  function Ext(f: Folder): string { if f.Receipts? then JSON else LOG }

  /** The latest receipt or log of a scenario. */
  function Current(f: Folder, id: string): Path { Path(f, id + Ext(f)) }

  /** An earlier one, kept under a number. */
  function Attempt(f: Folder, id: string, k: nat): Path { Path(f, id + ATTEMPT + Print(k) + Ext(f)) }

  /** Scenario names are words joined by hyphens, so they have no dot. */
  predicate DotFree(id: string) { forall i :: 0 <= i < |id| ==> id[i] != '.' }

  predicate EndsWith(s: string, t: string) { |t| <= |s| && s[|s| - |t|..] == t }

  predicate IsCurrent(p: Path) {
    EndsWith(p.name, Ext(p.folder)) && DotFree(p.name[..|p.name| - |Ext(p.folder)|])
  }

  /** `ID.attemptK.json` or `ID.attemptK.log`, with K from one on and no leading zero. */
  function AttemptOf(id: string, name: string): Option<nat> {
    var head := id + ATTEMPT;
    var ext := if EndsWith(name, JSON) then JSON else LOG;
    if |head| + |ext| <= |name| && name[..|head|] == head && EndsWith(name, ext) then
      var digits := name[|head|..|name| - |ext|];
      if Canonical(digits) && Value(digits) >= 1 then Some(Value(digits)) else None
    else None
  }

  lemma EndsApart(name: string)
    requires EndsWith(name, LOG)
    ensures !EndsWith(name, JSON)
  {
    LastChar(name, LOG);
    if EndsWith(name, JSON) { LastChar(name, JSON); }
  }

  lemma LastChar(s: string, t: string)
    requires EndsWith(s, t) && t != ""
    ensures s != "" && s[|s| - 1] == t[|t| - 1]
  {
    assert s[|s| - |t|..][|t| - 1] == s[|s| - 1];
  }

  lemma AttemptOfAttempt(f: Folder, id: string, k: nat)
    requires k >= 1
    ensures AttemptOf(id, Attempt(f, id, k).name) == Some(k)
  {
    var head, digits, ext := id + ATTEMPT, Print(k), Ext(f);
    var name := Attempt(f, id, k).name;
    assert name == head + digits + ext;
    assert EndsWith(name, ext);
    if f.Logs? { EndsApart(name); }
    assert name[..|head|] == head && name[|head|..|name| - |ext|] == digits;
    ValueOfPrint(k);
  }

  /** A name is read as attempt `k` exactly when it is the scenario's name, the mark, `k` in decimal and a suffix. */
  lemma AttemptOfIs(id: string, name: string, k: nat)
    ensures AttemptOf(id, name) == Some(k) <==>
      k >= 1 && (name == id + ".attempt" + Print(k) + ".json" || name == id + ".attempt" + Print(k) + ".log")
  {
    if AttemptOf(id, name) == Some(k) { AttemptParts(id, name); }
    if k >= 1 {
      AttemptOfAttempt(Receipts, id, k);
      AttemptOfAttempt(Logs, id, k);
    }
    hide AttemptOf;
    hide Print;
  }

  lemma AttemptParts(id: string, name: string)
    requires AttemptOf(id, name).Some?
    ensures var k := AttemptOf(id, name).value;
      k >= 1 && (name == id + ATTEMPT + Print(k) + JSON || name == id + ATTEMPT + Print(k) + LOG)
  {
    var head, ext := id + ATTEMPT, if EndsWith(name, JSON) then JSON else LOG;
    var digits := name[|head|..|name| - |ext|];
    assert Canonical(digits) && AttemptOf(id, name) == Some(Value(digits)) && Value(digits) >= 1;
    assert name[..|head|] == head && name[|name| - |ext|..] == ext;
    hide *;
    PrintOfCanonical(digits);
    ThreeParts(name, |head|, |name| - |ext|);
    assert name == head + digits + ext;
  }

  lemma ThreeParts(s: string, i: nat, j: nat)
    requires i <= j <= |s|
    ensures s == s[..i] + s[i..j] + s[j..]
  {
  }

  /** A numbered attempt is nobody's latest file. */
  lemma AttemptNotCurrent(f: Folder, id: string, k: nat)
    ensures !IsCurrent(Attempt(f, id, k))
  {
    var name, ext := Attempt(f, id, k).name, Ext(f);
    assert name == id + (ATTEMPT + Print(k)) + ext;
    assert name[|id|] == ATTEMPT[0] == '.';
    assert |id| < |name| - |ext|;
    assert name[..|name| - |ext|][|id|] == '.';
  }

  lemma CurrentIsCurrent(f: Folder, id: string)
    requires DotFree(id)
    ensures IsCurrent(Current(f, id))
  {
    assert (id + Ext(f))[..|id|] == id;
  }

  /** Different scenarios have different files. */
  lemma CurrentInjective(f: Folder, g: Folder, id: string, other: string)
    requires Current(f, id) == Current(g, other)
    ensures f == g && id == other
  {
    assert (id + Ext(f))[..|id|] == id && (other + Ext(g))[..|other|] == other;
  }

  // ---------------------------------------------------------------- files

  datatype Status = Pass | Fail | Blocked

  /** The state of the checkout a receipt is bound to. */
  datatype Source = Source(commit: string, changes: string)

  /** A receipt file as it reads: whether it has this tool's schema, its status and its binding. */
  datatype Receipt = Receipt(schema: bool, status: Status, source: Source)

  datatype Content = ReceiptFile(receipt: Receipt) | LogFile(text: string)

  type Disk = map<Path, Content>

  datatype Op =
    | Move(folder: Folder, id: string, k: nat)
    | Put(folder: Folder, id: string, content: Content)
    | Append(id: string, text: string)

  /** One file operation; replacing a file overwrites silently. */
  function Apply(d: Disk, op: Op): Disk {
    match op
    case Move(f, id, k) =>
      var from := Current(f, id);
      if from in d then (map p | p in d && p != from :: d[p])[Attempt(f, id, k) := d[from]] else d
    case Put(f, id, c) => d[Current(f, id) := c]
    case Append(id, t) =>
      var log := Current(Logs, id);
      if log in d && d[log].LogFile? then d[log := LogFile(d[log].text + t)] else d
  }

  /** A file is itself, or a log written further. */
  predicate Grown(a: Content, b: Content) { a == b || (a.LogFile? && b.LogFile? && a.text <= b.text) }

  /** The latest file is still the latest, or is now a numbered attempt under a name that was free. */
  ghost predicate Survives(d: Disk, e: Disk, f: Folder, id: string)
    requires Current(f, id) in d
  {
    var c := d[Current(f, id)];
    || (Current(f, id) in e && Grown(c, e[Current(f, id)]))
    || (exists k: nat :: Attempt(f, id, k) !in d && Attempt(f, id, k) in e && Grown(c, e[Attempt(f, id, k)]))
  }

  predicate Untouched(d: Disk, e: Disk) { forall p :: p in d && !IsCurrent(p) ==> p in e && e[p] == d[p] }

  /** Nothing written is overwritten or lost. */
  ghost predicate Preserves(d: Disk, e: Disk) {
    && Untouched(d, e)
    && forall f: Folder, id: string :: DotFree(id) && Current(f, id) in d ==> Survives(d, e, f, id)
  }

  lemma PreservesReflexive(d: Disk)
    ensures Preserves(d, d)
  {
  }

  lemma SurvivesOn(d: Disk, e: Disk, g: Disk, f: Folder, id: string)
    requires Preserves(d, e) && Preserves(e, g) && DotFree(id) && Current(f, id) in d
    ensures Survives(d, g, f, id)
  {
    hide Current;
    hide Attempt;
    assert Survives(d, e, f, id);
    if Current(f, id) in e && Grown(d[Current(f, id)], e[Current(f, id)]) {
      assert Survives(e, g, f, id);
      if !(Current(f, id) in g && Grown(e[Current(f, id)], g[Current(f, id)])) {
        var k: nat :|
          Attempt(f, id, k) !in e && Attempt(f, id, k) in g && Grown(e[Current(f, id)], g[Attempt(f, id, k)]);
        AttemptNotCurrent(f, id, k);
        assert Attempt(f, id, k) !in d;
      }
    } else {
      var k: nat :| Attempt(f, id, k) !in d && Attempt(f, id, k) in e && Grown(d[Current(f, id)], e[Attempt(f, id, k)]);
      AttemptNotCurrent(f, id, k);
    }
  }

  lemma PreservesTransitive(d: Disk, e: Disk, g: Disk)
    requires Preserves(d, e) && Preserves(e, g)
    ensures Preserves(d, g)
  {
    hide IsCurrent;
    hide Survives;
    forall f: Folder, id: string | DotFree(id) && Current(f, id) in d
      ensures Survives(d, g, f, id)
    {
      SurvivesOn(d, e, g, f, id);
    }
  }

  // ---------------------------------------------------------------- one operation

  /** An operation that overwrites nothing. */
  predicate Harmless(d: Disk, op: Op) {
    match op
    case Move(f, id, k) => DotFree(id) && Attempt(f, id, k) !in d
    case Put(f, id, _) => DotFree(id) && Current(f, id) !in d
    case Append(id, _) => DotFree(id)
  }

  lemma MoveSurvives(d: Disk, f: Folder, id: string, k: nat, g: Folder, other: string)
    requires DotFree(id) && Attempt(f, id, k) !in d && DotFree(other) && Current(g, other) in d
    ensures Survives(d, Apply(d, Move(f, id, k)), g, other)
  {
    var e := Apply(d, Move(f, id, k));
    AttemptNotCurrent(f, id, k);
    CurrentIsCurrent(g, other);
    hide IsCurrent;
    if Current(g, other) == Current(f, id) {
      CurrentInjective(g, f, other, id);
      assert e[Attempt(f, id, k)] == d[Current(f, id)];
    }
  }

  lemma HarmlessPreserves(d: Disk, op: Op)
    requires Harmless(d, op)
    ensures Preserves(d, Apply(d, op))
  {
    var e := Apply(d, op);
    if op.Append? { CurrentIsCurrent(Logs, op.id); } else { CurrentIsCurrent(op.folder, op.id); }
    hide IsCurrent;
    hide DotFree;
    forall f: Folder, id: string | DotFree(id) && Current(f, id) in d
      ensures Survives(d, e, f, id)
    {
      if op.Move? { MoveSurvives(d, op.folder, op.id, op.k, f, id); }
    }
  }

  // ---------------------------------------------------------------- attempt numbers

  /** The numbers of the kept attempts, from either folder. */
  function Attempts(d: Disk, id: string): set<nat> {
    set p | p in d && AttemptOf(id, p.name).Some? :: AttemptOf(id, p.name).value
  }

  /** The largest member, or zero. */
  ghost function Highest(s: set<nat>): (h: nat)
    ensures forall k :: k in s ==> k <= h
    ensures h == 0 || h in s
  {
    if s == {} then 0 else
      var k :| k in s;
      var h := Highest(s - {k});
      assert forall j :: j in s ==> j == k || j in s - {k};
      if h < k then k else h
  }

  /** The next attempt number. */
  ghost function Number(d: Disk, id: string): nat { Highest(Attempts(d, id)) + 1 }

  /** The next number is free in both folders, whatever is kept in either of them. */
  lemma NumberIsFree(d: Disk, id: string, f: Folder)
    ensures Attempt(f, id, Number(d, id)) !in d
  {
    var k := Number(d, id);
    AttemptOfAttempt(f, id, k);
    hide AttemptOf;
    hide Attempt;
    assert Attempt(f, id, k) in d ==> k in Attempts(d, id);
  }

  /** Some file in either folder is named as attempt `k` of the scenario. */
  ghost predicate Kept(d: Disk, id: string, k: nat) {
    exists p :: p in d && AttemptOf(id, p.name) == Some(k)
  }

  /** One more than the highest number kept, or one. */
  lemma NumberIs(d: Disk, id: string, n: nat)
    ensures n == Number(d, id) <==> n >= 1 && (n == 1 || Kept(d, id, n - 1)) && forall k :: k >= n ==> !Kept(d, id, k)
  {
    hide AttemptOf;
    assert forall k :: k in Attempts(d, id) <==> Kept(d, id, k);
    var m := Number(d, id);
    assert m - 1 == 0 || m - 1 in Attempts(d, id);
    if n >= 1 && (n == 1 || Kept(d, id, n - 1)) && (forall k :: k >= n ==> !Kept(d, id, k)) {
      assert n == 1 || n - 1 in Attempts(d, id);
      assert m > n ==> m - 1 in Attempts(d, id);
    }
  }

  // ---------------------------------------------------------------- a run that may stop

  /** A disk and how many more file operations take effect before the run is stopped. */
  datatype Machine = Machine(disk: Disk, left: nat)

  function Do(m: Machine, op: Op): Machine {
    if m.left == 0 then m else Machine(Apply(m.disk, op), m.left - 1)
  }

  function MoveIf(m: Machine, f: Folder, id: string, k: nat): Machine {
    if Current(f, id) in m.disk then Do(m, Move(f, id, k)) else m
  }

  /** Keeps the earlier receipt and log under the next number. */
  ghost function Archive(m: Machine, id: string): Machine {
    var k := Number(m.disk, id);
    MoveIf(MoveIf(m, Receipts, id, k), Logs, id, k)
  }

  /** What running a scenario writes: pieces of log, then a status. */
  datatype Outcome = Outcome(pieces: seq<string>, status: Status)

  function Write(m: Machine, id: string, pieces: seq<string>): Machine {
    if pieces == [] then m else
      var k := |pieces| - 1;
      Do(Write(m, id, pieces[..k]), Append(id, pieces[k]))
  }

  function Record(m: Machine, id: string, o: Outcome, src: Source): Machine {
    var begun := Do(m, Put(Logs, id, LogFile("")));
    Do(Write(begun, id, o.pieces), Put(Receipts, id, ReceiptFile(Receipt(true, o.status, src))))
  }

  /** The latest receipt, if it reads as one. */
  function ReceiptOf(d: Disk, id: string): Option<Receipt> {
    var p := Current(Receipts, id);
    if p in d && d[p].ReceiptFile? then Some(d[p].receipt) else None
  }

  function BoundTo(r: Option<Receipt>, src: Source): bool { r.Some? && r.value.source == src }

  /** A pass bound to this state of the checkout. */
  predicate Passed(d: Disk, id: string, src: Source) {
    BoundTo(ReceiptOf(d, id), src) && ReceiptOf(d, id).value.status.Pass?
  }

  ghost function Scenario(m: Machine, id: string, o: Outcome, src: Source): Machine {
    if Passed(m.disk, id, src) then m else Record(Archive(m, id), id, o, src)
  }

  ghost function Inventory(m: Machine, ids: seq<string>, os: seq<Outcome>, src: Source): Machine
    requires |os| == |ids|
  {
    if ids == [] then m else
      var k := |ids| - 1;
      Scenario(Inventory(m, ids[..k], os[..k], src), ids[k], os[k], src)
  }

  // ---------------------------------------------------------------- what one scenario does

  /** The latest files of all other scenarios are as before. */
  ghost predicate OthersSame(d: Disk, e: Disk, id: string) {
    forall f: Folder, other: string :: other != id && DotFree(other) ==> SameFile(d, e, f, other)
  }

  predicate SameFile(d: Disk, e: Disk, f: Folder, id: string) {
    var p := Current(f, id);
    (p in d <==> p in e) && (p in d ==> d[p] == e[p])
  }

  /** What a part of a scenario's work may do to the disk. */
  ghost predicate Works(d: Disk, e: Disk, id: string) { Preserves(d, e) && OthersSame(d, e, id) && |d| <= |e| }

  lemma WorksTransitive(d: Disk, e: Disk, g: Disk, id: string)
    requires Works(d, e, id) && Works(e, g, id)
    ensures Works(d, g, id)
  {
    hide Preserves;
    hide Current;
    hide DotFree;
    PreservesTransitive(d, e, g);
    forall f: Folder, other: string | other != id && DotFree(other)
      ensures SameFile(d, g, f, other)
    {
      assert SameFile(d, e, f, other) && SameFile(e, g, f, other);
    }
  }

  lemma WorksReflexive(d: Disk, id: string)
    ensures Works(d, d, id)
  {
    PreservesReflexive(d);
  }

  /** Moving a file aside changes no count; putting a new one adds one. */
  lemma MoveCount(d: Disk, f: Folder, id: string, k: nat)
    requires Current(f, id) in d && Attempt(f, id, k) !in d && DotFree(id)
    ensures var e := Apply(d, Move(f, id, k)); |e| == |d| && Current(f, id) !in e
    ensures forall p :: p != Current(f, id) && p != Attempt(f, id, k) ==> (p in Apply(d, Move(f, id, k)) <==> p in d)
  {
    var from, to, e := Current(f, id), Attempt(f, id, k), Apply(d, Move(f, id, k));
    AttemptNotCurrent(f, id, k);
    CurrentIsCurrent(f, id);
    assert e.Keys == d.Keys - {from} + {to};
    assert |e.Keys| == |d.Keys| && |e| == |e.Keys| && |d| == |d.Keys|;
  }

  lemma HarmlessWorks(d: Disk, op: Op)
    requires Harmless(d, op) && (op.Move? ==> Current(op.folder, op.id) in d)
    ensures Works(d, Apply(d, op), op.id)
  {
    hide Preserves;
    HarmlessPreserves(d, op);
    var e := Apply(d, op);
    forall f: Folder, other: string | other != op.id && DotFree(other)
      ensures SameFile(d, e, f, other)
    {
      SameElsewhere(d, op, f, other);
    }
    if op.Move? { MoveCount(d, op.folder, op.id, op.k); }
    else {
      var p := Current(if op.Put? then op.folder else Logs, op.id);
      assert e == d || e.Keys == d.Keys + {p};
      assert |d| == |d.Keys| && |e| == |e.Keys|;
    }
  }

  /** A scenario's latest file is neither another's nor a numbered attempt. */
  lemma CurrentApart(f: Folder, other: string, g: Folder, id: string, k: nat)
    requires other != id && DotFree(other)
    ensures Current(f, other) != Current(g, id) && Current(f, other) != Attempt(g, id, k)
  {
    AttemptNotCurrent(g, id, k);
    CurrentIsCurrent(f, other);
    hide IsCurrent;
    hide Attempt;
    if Current(f, other) == Current(g, id) { CurrentInjective(f, g, other, id); }
  }

  lemma SameElsewhere(d: Disk, op: Op, f: Folder, other: string)
    requires other != op.id && DotFree(other)
    ensures SameFile(d, Apply(d, op), f, other)
  {
    hide Current;
    hide Attempt;
    hide DotFree;
    CurrentApart(f, other, if op.Append? then Logs else op.folder, op.id, if op.Move? then op.k else 0);
  }

  lemma DoWorks(m: Machine, op: Op)
    requires m.left > 0 ==> Harmless(m.disk, op) && (op.Move? ==> Current(op.folder, op.id) in m.disk)
    ensures Works(m.disk, Do(m, op).disk, op.id)
    ensures Do(m, op).left > 0 ==> m.left > 0 && Do(m, op).disk == Apply(m.disk, op)
  {
    hide Works;
    if m.left > 0 { HarmlessWorks(m.disk, op); } else { WorksReflexive(m.disk, op.id); }
  }

  /** The latest file, if there was one, is now attempt `k`. */
  predicate KeptUnder(d: Disk, e: Disk, f: Folder, id: string, k: nat) {
    Current(f, id) in d ==> Attempt(f, id, k) in e && e[Attempt(f, id, k)] == d[Current(f, id)]
  }

  /** Archiving loses nothing wherever it stops, and clears both latest files when it finishes. */
  lemma ArchiveIs(m: Machine, id: string)
    requires DotFree(id)
    ensures var e := Archive(m, id);
      && Works(m.disk, e.disk, id) && e.left <= m.left
      && (e.left > 0 ==> Current(Receipts, id) !in e.disk && Current(Logs, id) !in e.disk && |e.disk| == |m.disk|)
  {
    hide Works;
    hide Apply;
    hide Current;
    hide Attempt;
    var k := Number(m.disk, id);
    NumberIsFree(m.disk, id, Receipts);
    NumberIsFree(m.disk, id, Logs);
    hide Number;
    var u := MoveIf(m, Receipts, id, k);
    WorksReflexive(m.disk, id);
    if Current(Receipts, id) in m.disk {
      DoWorks(m, Move(Receipts, id, k));
      MoveCount(m.disk, Receipts, id, k);
    }
    FoldersApart(id, k);
    assert u.left > 0 ==> Attempt(Logs, id, k) !in u.disk && Current(Receipts, id) !in u.disk;
    WorksReflexive(u.disk, id);
    if Current(Logs, id) in u.disk {
      DoWorks(u, Move(Logs, id, k));
      if u.left > 0 { MoveCount(u.disk, Logs, id, k); }
    }
    WorksTransitive(m.disk, u.disk, Archive(m, id).disk, id);
  }

  /** When archiving finishes, both earlier files stand under the one next number. */
  lemma ArchiveKeeps(m: Machine, id: string, f: Folder)
    requires DotFree(id) && Archive(m, id).left > 0
    ensures KeptUnder(m.disk, Archive(m, id).disk, f, id, Number(m.disk, id))
  {
    var k := Number(m.disk, id);
    hide Number;
    FoldersApart(id, k);
    NumberIsFree(m.disk, id, Logs);
    hide Attempt;
    hide Current;
    var u := MoveIf(m, Receipts, id, k);
    assert u.left > 0 && m.left > 0;
    assert u.disk == m.disk || u.disk == Apply(m.disk, Move(Receipts, id, k));
    MoveMoves(m.disk, Receipts, id, k);
    MoveMoves(u.disk, Logs, id, k);
    hide Apply;
  }

  lemma MoveMoves(d: Disk, f: Folder, id: string, k: nat)
    ensures var e := Apply(d, Move(f, id, k));
      && (Current(f, id) in d ==> Attempt(f, id, k) in e && e[Attempt(f, id, k)] == d[Current(f, id)])
      && forall p :: p in d && p != Current(f, id) && p != Attempt(f, id, k) ==> p in e && e[p] == d[p]
  {
    hide Attempt;
    hide Current;
  }

  lemma FoldersApart(id: string, k: nat)
    ensures Current(Receipts, id) != Current(Logs, id) && Attempt(Receipts, id, k) != Attempt(Logs, id, k)
    ensures Current(Receipts, id) != Attempt(Logs, id, k) && Current(Logs, id) != Attempt(Receipts, id, k)
  {
  }

  function Joined(pieces: seq<string>): string {
    if pieces == [] then "" else Joined(pieces[..|pieces| - 1]) + pieces[|pieces| - 1]
  }

  /** The latest log holds exactly this text, and no receipt is there yet. */
  predicate Logged(d: Disk, id: string, text: string) {
    Current(Logs, id) in d && d[Current(Logs, id)] == LogFile(text) && Current(Receipts, id) !in d
  }

  lemma {:induction false} WriteIs(m: Machine, id: string, pieces: seq<string>)
    requires DotFree(id) && (m.left > 0 ==> Logged(m.disk, id, ""))
    ensures var e := Write(m, id, pieces);
      && Works(m.disk, e.disk, id) && e.left <= m.left
      && (e.left > 0 ==> Logged(e.disk, id, Joined(pieces)) && |e.disk| == |m.disk|)
  {
    hide Works;
    if pieces == [] { WorksReflexive(m.disk, id); }
    else {
      var k := |pieces| - 1;
      WriteIs(m, id, pieces[..k]);
      var u := Write(m, id, pieces[..k]);
      hide Current;
      DoWorks(u, Append(id, pieces[k]));
      WorksTransitive(m.disk, u.disk, Write(m, id, pieces).disk, id);
      if u.left > 0 { AppendCount(u.disk, id, Joined(pieces[..k]), pieces[k]); }
    }
  }

  lemma AppendCount(d: Disk, id: string, text: string, piece: string)
    requires Logged(d, id, text)
    ensures var e := Apply(d, Append(id, piece)); Logged(e, id, text + piece) && |e| == |d|
  {
    FoldersApart(id, 0);
    var e := Apply(d, Append(id, piece));
    assert e.Keys == d.Keys;
    assert |e| == |e.Keys| && |d| == |d.Keys|;
  }

  lemma PutCount(d: Disk, f: Folder, id: string, c: Content)
    requires Current(f, id) !in d
    ensures var e := Apply(d, Put(f, id, c)); |e| == |d| + 1
  {
    var e := Apply(d, Put(f, id, c));
    assert e.Keys == d.Keys + {Current(f, id)};
    assert |e| == |e.Keys| && |d| == |d.Keys|;
  }

  /** A finished scenario leaves its own receipt and the whole log, and adds exactly two files. */
  predicate Finished(d: Disk, e: Disk, id: string, o: Outcome, src: Source) {
    && ReceiptOf(e, id) == Some(Receipt(true, o.status, src))
    && Current(Logs, id) in e && e[Current(Logs, id)] == LogFile(Joined(o.pieces))
    && |e| == |d| + 2
  }

  lemma RecordIs(m: Machine, id: string, o: Outcome, src: Source)
    requires DotFree(id) && (m.left > 0 ==> Current(Receipts, id) !in m.disk && Current(Logs, id) !in m.disk)
    ensures var e := Record(m, id, o, src);
      Works(m.disk, e.disk, id) && e.left <= m.left && (e.left > 0 ==> Finished(m.disk, e.disk, id, o, src))
  {
    hide Works;
    FoldersApart(id, 0);
    var begun := Do(m, Put(Logs, id, LogFile("")));
    DoWorks(m, Put(Logs, id, LogFile("")));
    if m.left > 0 { PutCount(m.disk, Logs, id, LogFile("")); }
    WriteIs(begun, id, o.pieces);
    var written := Write(begun, id, o.pieces);
    hide Write;
    var last := Put(Receipts, id, ReceiptFile(Receipt(true, o.status, src)));
    DoWorks(written, last);
    if written.left > 0 { PutCount(written.disk, Receipts, id, last.content); }
    WorksTransitive(m.disk, begun.disk, written.disk, id);
    WorksTransitive(m.disk, written.disk, Do(written, last).disk, id);
  }

  lemma {:induction false} WriteCounts(m: Machine, id: string, pieces: seq<string>)
    ensures var e := Write(m, id, pieces);
      && e.left == (if m.left >= |pieces| then m.left - |pieces| else 0)
      && (Current(Receipts, id) in e.disk <==> Current(Receipts, id) in m.disk)
  {
    FoldersApart(id, 0);
    hide Current;
    if pieces != [] { WriteCounts(m, id, pieces[..|pieces| - 1]); }
  }

  /** A receipt is there only once the whole log is: it takes one operation more than opening and writing the log. */
  lemma ReceiptComesLast(m: Machine, id: string, o: Outcome, src: Source)
    requires DotFree(id) && Current(Receipts, id) !in m.disk && Current(Logs, id) !in m.disk
    ensures var e := Record(m, id, o, src);
      && (Current(Receipts, id) in e.disk <==> m.left >= |o.pieces| + 2)
      && (Current(Receipts, id) in e.disk ==>
        Current(Logs, id) in e.disk && e.disk[Current(Logs, id)] == LogFile(Joined(o.pieces)))
  {
    FoldersApart(id, 0);
    var begun := Do(m, Put(Logs, id, LogFile("")));
    WriteCounts(begun, id, o.pieces);
    if m.left > 0 { WriteIs(begun, id, o.pieces); }
    hide Write;
    hide Works;
    hide Current;
    hide Joined;
  }

  /** One scenario, wherever it stops: nothing is lost, and a bound pass is not run again. */
  lemma ScenarioIs(m: Machine, id: string, o: Outcome, src: Source)
    requires DotFree(id)
    ensures var e := Scenario(m, id, o, src);
      && Works(m.disk, e.disk, id) && e.left <= m.left
      && (Passed(m.disk, id, src) ==> e == m)
      && (!Passed(m.disk, id, src) && e.left > 0 ==> Finished(m.disk, e.disk, id, o, src))
  {
    hide Works;
    hide Record;
    if Passed(m.disk, id, src) { WorksReflexive(m.disk, id); }
    else {
      ArchiveIs(m, id);
      var u := Archive(m, id);
      hide Archive;
      RecordIs(u, id, o, src);
      WorksTransitive(m.disk, u.disk, Record(u, id, o, src).disk, id);
    }
  }

  // ---------------------------------------------------------------- whole runs

  predicate AllDotFree(ids: seq<string>) { forall k :: 0 <= k < |ids| ==> DotFree(ids[k]) }

  lemma {:induction false} InventoryPreserves(m: Machine, ids: seq<string>, os: seq<Outcome>, src: Source)
    requires |os| == |ids| && AllDotFree(ids)
    ensures var e := Inventory(m, ids, os, src); Preserves(m.disk, e.disk) && |m.disk| <= |e.disk| && e.left <= m.left
  {
    hide Preserves;
    hide DotFree;
    if ids == [] { PreservesReflexive(m.disk); }
    else {
      var k := |ids| - 1;
      InventoryPreserves(m, ids[..k], os[..k], src);
      var u := Inventory(m, ids[..k], os[..k], src);
      ScenarioIs(u, ids[k], os[k], src);
      PreservesTransitive(m.disk, u.disk, Inventory(m, ids, os, src).disk);
    }
  }

  /** A run, or a resumption of one, that stops after `operations` file operations. */
  datatype Run = Run(ids: seq<string>, outcomes: seq<Outcome>, source: Source, operations: nat)

  predicate Possible(r: Run) { |r.ids| == |r.outcomes| && AllDotFree(r.ids) }

  predicate AllPossible(runs: seq<Run>) { forall k :: 0 <= k < |runs| ==> Possible(runs[k]) }

  ghost function After(d: Disk, runs: seq<Run>): Disk
    requires AllPossible(runs)
  {
    if runs == [] then d else
      var k := |runs| - 1;
      assert Possible(runs[k]);
      Inventory(Machine(After(d, runs[..k]), runs[k].operations), runs[k].ids, runs[k].outcomes, runs[k].source).disk
  }

  /** Over every sequence of runs, resumes and stops, no receipt or log once written is overwritten or lost. */
  lemma {:induction false} HistoryPreserves(d: Disk, runs: seq<Run>)
    requires AllPossible(runs)
    ensures Preserves(d, After(d, runs)) && |d| <= |After(d, runs)|
  {
    hide Preserves;
    hide AllDotFree;
    hide Inventory;
    if runs == [] { PreservesReflexive(d); }
    else {
      var k := |runs| - 1;
      HistoryPreserves(d, runs[..k]);
      var e, r := After(d, runs[..k]), runs[k];
      InventoryPreserves(Machine(e, r.operations), r.ids, r.outcomes, r.source);
      PreservesTransitive(d, e, After(d, runs));
    }
  }

  /** In plain words: a kept attempt never changes, and a receipt is found again, unchanged, under its scenario. */
  lemma ReceiptsAreNeverLost(d: Disk, runs: seq<Run>, id: string)
    requires AllPossible(runs) && DotFree(id)
    requires Current(Receipts, id) in d && d[Current(Receipts, id)].ReceiptFile?
    ensures var e, c := After(d, runs), d[Current(Receipts, id)];
      || (Current(Receipts, id) in e && e[Current(Receipts, id)] == c)
      || (exists k: nat ::
          Attempt(Receipts, id, k) !in d && Attempt(Receipts, id, k) in e && e[Attempt(Receipts, id, k)] == c)
    ensures forall f: Folder, k: nat :: Attempt(f, id, k) in d ==>
      Attempt(f, id, k) in After(d, runs) && After(d, runs)[Attempt(f, id, k)] == d[Attempt(f, id, k)]
  {
    HistoryPreserves(d, runs);
    var e, c := After(d, runs), d[Current(Receipts, id)];
    hide After;
    assert Survives(d, e, Receipts, id);
    forall f: Folder, k: nat | Attempt(f, id, k) in d
      ensures Attempt(f, id, k) in e && e[Attempt(f, id, k)] == d[Attempt(f, id, k)]
    {
      AttemptNotCurrent(f, id, k);
    }
  }

  // ---------------------------------------------------------------- the inventory

  datatype Row = Missing | Present(status: Status)

  function RowOf(d: Disk, id: string, src: Source): Row {
    var r := ReceiptOf(d, id);
    if BoundTo(r, src) && r.value.schema then Present(r.value.status) else Missing
  }

  /** A pass bound to this state that was written under another schema: kept, but not listed. */
  predicate Foreign(d: Disk, id: string, src: Source) {
    Passed(d, id, src) && !ReceiptOf(d, id).value.schema
  }

  /** The latest receipt and log are as they were. */
  predicate SameFiles(d: Disk, e: Disk, id: string) { SameFile(d, e, Receipts, id) && SameFile(d, e, Logs, id) }

  lemma SameFilesRead(d: Disk, e: Disk, id: string, src: Source)
    requires SameFiles(d, e, id)
    ensures ReceiptOf(d, id) == ReceiptOf(e, id) && RowOf(d, id, src) == RowOf(e, id, src)
    ensures (Foreign(d, id, src) <==> Foreign(e, id, src)) && (Passed(d, id, src) <==> Passed(e, id, src))
  {
  }

  /** What the first scenarios of a run have made of one scenario's files. */
  ghost predicate Settled(m: Machine, e: Machine, ids: seq<string>, id: string, src: Source) {
    && (id !in ids ==> SameFiles(m.disk, e.disk, id))
    && (Passed(m.disk, id, src) ==> SameFiles(m.disk, e.disk, id))
    && (id in ids && e.left > 0 ==> (RowOf(e.disk, id, src).Missing? <==> Foreign(m.disk, id, src)))
  }

  lemma {:induction false} InventorySettles(m: Machine, ids: seq<string>, os: seq<Outcome>, src: Source, id: string)
    requires |os| == |ids| && AllDotFree(ids) && DotFree(id)
    ensures Settled(m, Inventory(m, ids, os, src), ids, id, src)
  {
    hide DotFree;
    hide Scenario;
    hide Current;
    if ids != [] {
      var k := |ids| - 1;
      InventorySettles(m, ids[..k], os[..k], src, id);
      var u, e := Inventory(m, ids[..k], os[..k], src), Inventory(m, ids, os, src);
      assert ids == ids[..k] + [ids[k]];
      ScenarioIs(u, ids[k], os[k], src);
      if ids[k] != id {
        assert SameFile(u.disk, e.disk, Receipts, id) && SameFile(u.disk, e.disk, Logs, id);
        SameFilesRead(u.disk, e.disk, id, src);
      } else {
        if SameFiles(m.disk, u.disk, id) { SameFilesRead(m.disk, u.disk, id, src); }
      }
    }
  }

  /** A pass bound to the same state is neither rerun nor touched, however the run ends. */
  lemma PassesAreKept(m: Machine, ids: seq<string>, os: seq<Outcome>, src: Source, id: string)
    requires |os| == |ids| && AllDotFree(ids) && DotFree(id) && Passed(m.disk, id, src)
    ensures SameFiles(m.disk, Inventory(m, ids, os, src).disk, id)
  {
    InventorySettles(m, ids, os, src, id);
  }

  /** A completed run lists every selected scenario, but for a bound pass of another schema found at its start. */
  lemma InventoryIsComplete(m: Machine, ids: seq<string>, os: seq<Outcome>, src: Source, id: string)
    requires |os| == |ids| && AllDotFree(ids) && id in ids
    ensures var e := Inventory(m, ids, os, src);
      e.left > 0 ==> (RowOf(e.disk, id, src).Missing? <==> Foreign(m.disk, id, src))
  {
    InventorySettles(m, ids, os, src, id);
  }

  /** The last outcome of a scenario that runs at each of its places in the list until it passes. */
  function Outcomes(ids: seq<string>, os: seq<Outcome>, id: string): (r: Option<Status>)
    requires |os| == |ids|
    ensures r.Some? <==> id in ids
  {
    if ids == [] then None else
      var n := |ids| - 1;
      assert ids == ids[..n] + [ids[n]];
      var before := Outcomes(ids[..n], os[..n], id);
      if ids[n] != id || before == Some(Pass) then before else Some(os[n].status)
  }

  /** The scenario ran at place `k`, had not passed before, and passed there or has no later place. */
  predicate LastRun(ids: seq<string>, os: seq<Outcome>, id: string, k: nat)
    requires k < |ids| == |os|
  {
    && ids[k] == id && (forall j :: 0 <= j < k && ids[j] == id ==> !os[j].status.Pass?)
    && (os[k].status.Pass? || forall j :: k < j < |ids| ==> ids[j] != id)
  }

  lemma {:induction false} OutcomesAre(ids: seq<string>, os: seq<Outcome>, id: string)
    requires |os| == |ids|
    ensures id in ids ==>
      exists k :: 0 <= k < |ids| && LastRun(ids, os, id, k) && Outcomes(ids, os, id) == Some(os[k].status)
  {
    if id in ids {
      var n := |ids| - 1;
      OutcomesAre(ids[..n], os[..n], id);
      if ids[n] == id && Outcomes(ids[..n], os[..n], id) != Some(Pass) {
        if j :| 0 <= j < n && ids[j] == id && os[j].status.Pass? { PassStays(ids[..n], os[..n], id, j); }
        assert LastRun(ids, os, id, n);
      } else {
        var k :|
          0 <= k < n && LastRun(ids[..n], os[..n], id, k) && Outcomes(ids[..n], os[..n], id) == Some(os[k].status);
        assert forall j :: 0 <= j < n ==> ids[..n][j] == ids[j] && os[..n][j] == os[j];
        assert LastRun(ids, os, id, k);
      }
    }
  }

  lemma {:induction false} PassStays(ids: seq<string>, os: seq<Outcome>, id: string, j: nat)
    requires j < |ids| == |os| && ids[j] == id && os[j].status.Pass?
    ensures Outcomes(ids, os, id) == Some(Pass)
  {
    var n := |ids| - 1;
    if j < n { PassStays(ids[..n], os[..n], id, j); }
  }

  /** What a completed run reports of a scenario: the pass found at its start, or else this run's outcome. */
  function Reported(d: Disk, ids: seq<string>, os: seq<Outcome>, id: string, src: Source): Row
    requires |os| == |ids|
  {
    if Foreign(d, id, src) then Missing
    else if Passed(d, id, src) then Present(Pass)
    else match Outcomes(ids, os, id)
      case None => RowOf(d, id, src)
      case Some(status) => Present(status)
  }

  /** Every row of a completed run is the pass kept or the outcome of this run, even for a scenario listed twice. */
  lemma {:induction false} InventoryReports(m: Machine, ids: seq<string>, os: seq<Outcome>, src: Source, id: string)
    requires |os| == |ids| && AllDotFree(ids) && DotFree(id)
    ensures var e := Inventory(m, ids, os, src);
      e.left > 0 ==> RowOf(e.disk, id, src) == Reported(m.disk, ids, os, id, src)
    ensures var e := Inventory(m, ids, os, src);
      e.left > 0 && !Passed(m.disk, id, src) ==> (Passed(e.disk, id, src) <==> Outcomes(ids, os, id) == Some(Pass))
  {
    hide DotFree;
    hide Scenario;
    hide Current;
    hide Preserves;
    if ids != [] {
      var n := |ids| - 1;
      var u, e := Inventory(m, ids[..n], os[..n], src), Inventory(m, ids, os, src);
      InventoryReports(m, ids[..n], os[..n], src, id);
      InventorySettles(m, ids[..n], os[..n], src, id);
      ScenarioIs(u, ids[n], os[n], src);
      if Passed(m.disk, id, src) { SameFilesRead(m.disk, u.disk, id, src); }
      if ids[n] != id {
        assert SameFile(u.disk, e.disk, Receipts, id) && SameFile(u.disk, e.disk, Logs, id);
        SameFilesRead(u.disk, e.disk, id, src);
      }
    }
  }

  /** The exception does occur: such a receipt stays, and its scenario is reported missing. */
  lemma ForeignPassIsMissing(id: string, src: Source, o: Outcome)
    requires DotFree(id)
    ensures var d: Disk := map[Current(Receipts, id) := ReceiptFile(Receipt(false, Pass, src))];
      var e := Inventory(Machine(d, 1), [id], [o], src);
      e.left > 0 && RowOf(e.disk, id, src).Missing?
  {
    var d: Disk := map[Current(Receipts, id) := ReceiptFile(Receipt(false, Pass, src))];
    var m := Machine(d, 1);
    assert [id][..0] == [] && [o][..0] == [];
    assert Inventory(m, [id], [o], src) == Scenario(Inventory(m, [], [], src), id, o, src);
    assert Passed(d, id, src);
  }

  lemma RowCases(r: Row)
    ensures r == Missing || r == Present(Fail) || r == Present(Blocked) || r == Present(Pass)
  {
    match r
    case Missing =>
    case Present(s) => match s case Pass => case Fail => case Blocked =>
  }

  /** A receipt of this tool's schema, of the same commit and the same changes, stands under the scenario's name. */
  predicate Stands(d: Disk, id: string, src: Source, status: Status) {
    var p := Path(Receipts, id + ".json");
    && p in d && d[p].ReceiptFile? && d[p].receipt.schema && d[p].receipt.status == status
    && d[p].receipt.source.commit == src.commit && d[p].receipt.source.changes == src.changes
  }

  /** A row is present exactly with the status of such a receipt. */
  lemma RowIs(d: Disk, id: string, src: Source, status: Status)
    ensures RowOf(d, id, src) == Present(status) <==> Stands(d, id, src, status)
  {
  }

  /** The summary: one row per selected scenario, and the exit code. */
  method Summarize(d: Disk, ids: seq<string>, src: Source) returns (rows: seq<Row>, code: nat)
    ensures |rows| == |ids| && forall k :: 0 <= k < |ids| ==> rows[k] == RowOf(d, ids[k], src)
    ensures forall k, status :: 0 <= k < |ids| ==> (rows[k] == Present(status) <==> Stands(d, ids[k], src, status))
    ensures code == 0 <==> forall k :: 0 <= k < |ids| ==> rows[k] == Present(Pass)
    ensures code == 1 <==> exists k :: 0 <= k < |ids| && (rows[k] == Present(Fail) || rows[k] == Missing)
    ensures code <= 2
  {
    rows := [];
    var fail, blocked, missing := 0, 0, 0;
    var n := 0;
    while n < |ids|
      invariant 0 <= n <= |ids| && |rows| == n
      invariant forall k :: 0 <= k < n ==> rows[k] == RowOf(d, ids[k], src)
      invariant fail > 0 <==> exists k :: 0 <= k < n && rows[k] == Present(Fail)
      invariant blocked > 0 <==> exists k :: 0 <= k < n && rows[k] == Present(Blocked)
      invariant missing > 0 <==> exists k :: 0 <= k < n && rows[k] == Missing
    {
      var row := RowOf(d, ids[n], src);
      rows := rows + [row];
      match row {
        case Missing => missing := missing + 1;
        case Present(Fail) => fail := fail + 1;
        case Present(Blocked) => blocked := blocked + 1;
        case Present(Pass) =>
      }
      n := n + 1;
    }
    forall k | 0 <= k < n
      ensures rows[k] == Missing || rows[k] == Present(Fail) || rows[k] == Present(Blocked) || rows[k] == Present(Pass)
    {
      RowCases(rows[k]);
    }
    forall k, status | 0 <= k < |ids|
      ensures rows[k] == Present(status) <==> Stands(d, ids[k], src, status)
    {
      RowIs(d, ids[k], src, status);
    }
    code := if fail > 0 || missing > 0 then 1 else if blocked > 0 then 2 else 0;
  }

  // ---------------------------------------------------------------- the run directory

  class RunDirectory {
    var disk: Disk
    var left: nat

    constructor (disk: Disk, left: nat)
      ensures this.disk == disk && this.left == left
    {
      this.disk, this.left := disk, left;
    }

    ghost function Now(): Machine
      reads this
    {
      Machine(disk, left)
    }

    method Perform(op: Op)
      modifies this
      ensures Now() == Do(old(Now()), op)
    {
      if left > 0 { disk, left := Apply(disk, op), left - 1; }
    }

    /** One more than the highest kept number. */
    method NextNumber(id: string) returns (k: nat)
      ensures k == Number(disk, id)
    {
      var rest := Attempts(disk, id);
      var highest := 0;
      while rest != {}
        invariant rest <= Attempts(disk, id)
        invariant forall j :: j in Attempts(disk, id) ==> j in rest || j <= highest
        invariant highest == 0 || highest in Attempts(disk, id)
        decreases |rest|
      {
        var j :| j in rest;
        if highest < j { highest := j; }
        rest := rest - {j};
      }
      return highest + 1;
    }

    method ArchiveAttempt(id: string)
      modifies this
      ensures Now() == Archive(old(Now()), id)
    {
      hide Number;
      if Current(Receipts, id) !in disk && Current(Logs, id) !in disk { return; }
      var k := NextNumber(id);
      if Current(Receipts, id) in disk { Perform(Move(Receipts, id, k)); }
      if Current(Logs, id) in disk { Perform(Move(Logs, id, k)); }
    }

    method RecordScenario(id: string, o: Outcome, src: Source)
      modifies this
      ensures Now() == Record(old(Now()), id, o, src)
    {
      Perform(Put(Logs, id, LogFile("")));
      ghost var begun := Now();
      var n := 0;
      while n < |o.pieces|
        invariant 0 <= n <= |o.pieces| && Now() == Write(begun, id, o.pieces[..n])
      {
        assert o.pieces[..n + 1][..n] == o.pieces[..n];
        Perform(Append(id, o.pieces[n]));
        n := n + 1;
      }
      assert o.pieces[..n] == o.pieces;
      Perform(Put(Receipts, id, ReceiptFile(Receipt(true, o.status, src))));
    }

    /** A run or a resumption: passes bound to the same state are kept, everything else runs again. */
    method RunInventory(ids: seq<string>, os: seq<Outcome>, src: Source) returns (rows: seq<Row>, code: nat)
      requires |os| == |ids| && AllDotFree(ids)
      modifies this
      ensures Now() == Inventory(old(Now()), ids, os, src) && Preserves(old(disk), disk)
      ensures left > 0 ==>
        |rows| == |ids| && forall k :: 0 <= k < |ids| ==> (rows[k].Missing? <==> Foreign(old(disk), ids[k], src))
      ensures code == 0 <==> forall k :: 0 <= k < |ids| ==> RowOf(disk, ids[k], src) == Present(Pass)
      ensures left > 0 ==>
        |rows| == |ids| && forall k :: 0 <= k < |ids| ==> rows[k] == Reported(old(disk), ids, os, ids[k], src)
      ensures left > 0 ==>
        (code == 0 <==> forall k :: 0 <= k < |ids| ==> Reported(old(disk), ids, os, ids[k], src) == Present(Pass))
    {
      ghost var start := Now();
      InventoryPreserves(start, ids, os, src);
      hide Preserves;
      hide Scenario;
      var n := 0;
      while n < |ids|
        invariant 0 <= n <= |ids| && Now() == Inventory(start, ids[..n], os[..n], src)
      {
        assert ids[..n + 1][..n] == ids[..n] && os[..n + 1][..n] == os[..n];
        Visit(ids[n], os[n], src);
        n := n + 1;
      }
      assert ids[..n] == ids && os[..n] == os;
      rows, code := Summarize(disk, ids, src);
      forall k | 0 <= k < |ids|
        ensures left > 0 ==> (rows[k].Missing? <==> Foreign(start.disk, ids[k], src))
      {
        InventoryIsComplete(start, ids, os, src, ids[k]);
      }
      hide Reported;
      hide RowOf;
      forall k | 0 <= k < |ids| && left > 0
        ensures rows[k] == Reported(start.disk, ids, os, ids[k], src)
      {
        InventoryReports(start, ids, os, src, ids[k]);
      }
    }

    method Visit(id: string, o: Outcome, src: Source)
      modifies this
      ensures Now() == Scenario(old(Now()), id, o, src)
    {
      hide Archive;
      hide Record;
      if Passed(disk, id, src) { return; }
      ArchiveAttempt(id);
      RecordScenario(id, o, src);
    }
  }

  // ---------------------------------------------------------------- shards

  /** Every `count`th of the sorted names, starting at the `index`th. */
  function Shard<T>(s: seq<T>, index: nat, count: nat): seq<T>
    requires 1 <= index <= count
  {
    if s == [] then [] else
      var k := |s| - 1;
      Shard(s[..k], index, count) + if k % count == index - 1 then [s[k]] else []
  }

  /** The names in the first `upto` shards. */
  function Shards<T>(s: seq<T>, upto: nat, count: nat): multiset<T>
    requires upto <= count
  {
    if upto == 0 then multiset{} else Shards(s, upto - 1, count) + multiset(Shard(s, upto, count))
  }

  /** Where the next name goes. */
  function Turn(k: nat, count: nat): nat
    requires count >= 1
  {
    k % count
  }

  lemma ShardGrows<T>(s: seq<T>, index: nat, count: nat)
    requires 1 <= index <= count && s != []
    ensures var k := |s| - 1;
      multiset(Shard(s, index, count)) == multiset(Shard(s[..k], index, count))
        + if Turn(k, count) == index - 1 then multiset{s[k]} else multiset{}
  {
    var k := |s| - 1;
    var before, joins := Shard(s[..k], index, count), if Turn(k, count) == index - 1 then [s[k]] else [];
    assert Shard(s, index, count) == before + joins;
  }

  /** One more name joins exactly one shard. */
  lemma {:induction false} ShardsGrow<T>(s: seq<T>, upto: nat, count: nat)
    requires upto <= count && count >= 1 && s != []
    ensures var k := |s| - 1;
      Shards(s, upto, count) == Shards(s[..k], upto, count)
        + if Turn(k, count) < upto then multiset{s[k]} else multiset{}
  {
    hide Turn;
    hide Shard;
    if upto > 0 {
      ShardsGrow(s, upto - 1, count);
      ShardGrows(s, upto, count);
    }
  }

  /** The shards partition the names. */
  lemma {:induction false} ShardsPartition<T>(s: seq<T>, count: nat)
    requires count >= 1
    ensures Shards(s, count, count) == multiset(s)
  {
    hide Shards;
    hide Turn;
    if s == [] { NoShards<T>(count, count); }
    else {
      var k := |s| - 1;
      ShardsPartition(s[..k], count);
      ShardsGrow(s, count, count);
      TurnBound(k, count);
      assert multiset(s) == multiset(s[..k]) + multiset{s[k]} by { assert s == s[..k] + [s[k]]; }
    }
  }

  lemma TurnBound(k: nat, count: nat)
    requires count >= 1
    ensures Turn(k, count) < count
  {
  }

  lemma {:induction false} NoShards<T>(upto: nat, count: nat)
    requires upto <= count
    ensures Shards<T>([], upto, count) == multiset{}
  {
    if upto > 0 { NoShards<T>(upto - 1, count); }
  }

  /** Each shard has the quotient of names, and the first ones, as many as the remainder, one more. */
  lemma {:induction false} ShardSize<T>(s: seq<T>, index: nat, count: nat)
    requires 1 <= index <= count
    ensures |Shard(s, index, count)| == |s| / count + if index <= |s| % count then 1 else 0
  {
    if s != [] {
      var k := |s| - 1;
      ShardSize(s[..k], index, count);
      NextQuotient(k, count);
    }
  }

  /** In order: the names at index - 1 and every `count`th place after it. */
  lemma {:induction false} ShardAt<T>(s: seq<T>, index: nat, count: nat, j: nat)
    requires 1 <= index <= count && j < |Shard(s, index, count)|
    ensures 0 <= index - 1 + j * count < |s| && Shard(s, index, count)[j] == s[index - 1 + j * count]
  {
    var k := |s| - 1;
    var before := Shard(s[..k], index, count);
    if j < |before| {
      ShardAt(s[..k], index, count, j);
    } else {
      ShardSize(s[..k], index, count);
      assert k == k / count * count + (index - 1);
    }
  }

  lemma NextQuotient(k: nat, n: nat)
    requires n >= 1
    ensures (k + 1) / n == if k % n == n - 1 then k / n + 1 else k / n
    ensures (k + 1) % n == if k % n == n - 1 then 0 else k % n + 1
  {
    var q, r := k / n, k % n;
    assert k == q * n + r;
    if r == n - 1 { assert k + 1 == (q + 1) * n + 0; Division(k + 1, n, q + 1, 0); }
    else { Division(k + 1, n, q, r + 1); }
  }

  lemma Division(a: int, n: int, q: int, r: int)
    requires n >= 1 && a == q * n + r && 0 <= r < n
    ensures a / n == q && a % n == r
  {
    assert q * n <= a < (q + 1) * n;
    Wide.QuotientIs(a, n, q);
    assert a == a / n * n + a % n;
  }
}
