/**
 The export section of a compiler-produced Wasm module (section 5.5.10 of the WebAssembly Core
 Specification 1.0), rewritten so that only the seven functions of the scalar API stay exported.
 */
module Exports {
  import opened Octets
  import opened Patterns
  import opened Leb

  predicate IsAscii(s: string) { forall i :: 0 <= i < |s| ==> s[i] < 128 as char }

  function Ascii(s: string): (bs: seq<byte>)
    requires IsAscii(s)
    ensures |bs| == |s| && forall i :: 0 <= i < |s| ==> bs[i] == s[i] as int
  {
    seq(|s|, i requires 0 <= i < |s| => s[i] as int)
  }

  /** The names of the scalar API. */
  function Functions(): set<seq<byte>> {
    {Ascii("demo_abi_version"), Ascii("demo_begin"), Ascii("demo_write"), Ascii("demo_step"),
     Ascii("demo_read"), Ascii("demo_state"), Ascii("demo_reset")}
  }

  /** One export, with the bytes that spell it. */
  datatype Export = Export(name: seq<byte>, kind: byte, index: nat, raw: seq<byte>) {
    predicate Kept() { kind == 0 && name in Functions() }
    predicate Dropped() {
      || (name == Ascii("memory") && kind == 2 && index == 0)
      || (kind == 3 && (name == Ascii("__heap_base") || name == Ascii("__data_end")))
    }
  }

  datatype Parsed<T> = Parsed(value: T, next: nat)

  /** The export at an offset. */
  function ParseExport(payload: seq<byte>, offset: nat): (r: Option<Parsed<Export>>)
    ensures r.Some? ==> offset < r.value.next <= |payload| && r.value.value.raw == payload[offset..r.value.next]
  {
    match ReadU32(payload, offset)
    case None => None
    case Some(length) =>
      var end := length.next + length.value;
      if end >= |payload| then None
      else match ReadU32(payload, end + 1)
        case None => None
        case Some(index) =>
          Some(Parsed(Export(payload[length.next..end], payload[end], index.value, payload[offset..index.next]),
                      index.next))
  }

  function ParseExports(payload: seq<byte>, offset: nat, count: nat): Option<Parsed<seq<Export>>>
    decreases count
  {
    if count == 0 then Some(Parsed([], offset))
    else match ParseExport(payload, offset)
      case None => None
      case Some(first) =>
        match ParseExports(payload, first.next, count - 1)
        case None => None
        case Some(rest) => Some(Parsed([first.value] + rest.value, rest.next))
  }

  function Keep(es: seq<Export>): seq<Export> {
    if es == [] then [] else (if es[0].Kept() then [es[0]] else []) + Keep(es[1..])
  }

  function Raws(es: seq<Export>): seq<byte> {
    if es == [] then [] else es[0].raw + Raws(es[1..])
  }

  predicate DistinctNames(es: seq<Export>) {
    forall i, j :: 0 <= i < j < |es| ==> es[i].name != es[j].name
  }

  function NameSet(es: seq<Export>): set<seq<byte>> { set i | 0 <= i < |es| :: es[i].name }

  /** What the rewriter demands of the exports: no duplicate, nothing unknown, none of the seven missing. */
  predicate Acceptable(es: seq<Export>) {
    && DistinctNames(es)
    && (forall i :: 0 <= i < |es| ==> es[i].Kept() || es[i].Dropped())
    && Functions() <= NameSet(es)
  }

  /** The exports of a payload that is nothing but its exports. */
  function AllExports(payload: seq<byte>): Option<seq<Export>> {
    match ReadU32(payload, 0)
    case None => None
    case Some(count) =>
      match ParseExports(payload, count.next, count.value)
      case None => None
      case Some(es) => if es.next == |payload| then Some(es.value) else None
  }

  /** The rewritten payload, or a refusal. */
  function PrivateExports(payload: seq<byte>): Option<seq<byte>> {
    match AllExports(payload)
    case None => None
    case Some(es) => if Acceptable(es) then Some(Groups(|Keep(es)|) + Raws(Keep(es))) else None
  }

  // ---------------------------------------------------------------- sequences of exports

  lemma {:induction false} KeepAppend(a: seq<Export>, b: seq<Export>)
    ensures Keep(a + b) == Keep(a) + Keep(b)
  {
    if a == [] { assert a + b == b; }
    else {
      assert (a + b)[1..] == a[1..] + b;
      KeepAppend(a[1..], b);
    }
  }

  lemma {:induction false} RawsAppend(a: seq<Export>, b: seq<Export>)
    ensures Raws(a + b) == Raws(a) + Raws(b)
  {
    if a == [] { assert a + b == b; }
    else {
      assert (a + b)[1..] == a[1..] + b;
      RawsAppend(a[1..], b);
    }
  }

  // ---------------------------------------------------------------- the rewriting loop

  function Attach(es: seq<Export>, rest: Option<Parsed<seq<Export>>>): Option<Parsed<seq<Export>>> {
    match rest
    case None => None
    case Some(p) => Some(Parsed(es + p.value, p.next))
  }

  lemma AttachStep(payload: seq<byte>, offset: nat, count: nat, es: seq<Export>)
    requires count > 0
    ensures Attach(es, ParseExports(payload, offset, count)) ==
      match ParseExport(payload, offset)
      case None => None
      case Some(first) => Attach(es + [first.value], ParseExports(payload, first.next, count - 1))
  {
    hide ParseExport;
    match ParseExport(payload, offset)
    case None =>
    case Some(first) =>
      match ParseExports(payload, first.next, count - 1)
      case None =>
      case Some(rest) => assert es + ([first.value] + rest.value) == es + [first.value] + rest.value;
  }

  /** Exports read so far that already break a demand are never accepted. */
  predicate Clean(es: seq<Export>) {
    DistinctNames(es) && forall i :: 0 <= i < |es| ==> es[i].Kept() || es[i].Dropped()
  }

  lemma RefusedPrefix(es: seq<Export>, all: seq<Export>)
    requires es <= all && !Clean(es)
    ensures !Acceptable(all)
  {
    hide Export.Kept;
    hide Export.Dropped;
    assert forall i :: 0 <= i < |es| ==> es[i] == all[i];
  }

  lemma CleanNext(es: seq<Export>, e: Export)
    requires Clean(es)
    ensures Clean(es + [e]) <==> e.name !in NameSet(es) && (e.Kept() || e.Dropped())
    ensures NameSet(es + [e]) == NameSet(es) + {e.name}
  {
    hide Export.Kept;
    hide Export.Dropped;
    var next := es + [e];
    assert forall i :: 0 <= i < |es| ==> next[i] == es[i];
    assert next[|es|] == e;
    if e.name in NameSet(es) {
      var i :| 0 <= i < |es| && es[i].name == e.name;
      assert next[i].name == next[|es|].name;
    }
  }

  /** The kept exports of the loop so far, as raw bytes. */
  ghost predicate KeptSoFar(es: seq<Export>, kept: seq<byte>, count: nat) {
    kept == Raws(Keep(es)) && count == |Keep(es)|
  }

  lemma KeptNext(es: seq<Export>, e: Export, kept: seq<byte>, count: nat)
    requires KeptSoFar(es, kept, count)
    ensures if e.Kept() then KeptSoFar(es + [e], kept + e.raw, count + 1) else KeptSoFar(es + [e], kept, count)
  {
    KeepAppend(es, [e]);
    assert Keep([e]) == if e.Kept() then [e] else [];
    RawsAppend(Keep(es), Keep([e]));
    assert Raws([e]) == e.raw + Raws([]);
  }

  method NextExport(payload: seq<byte>, offset: nat) returns (r: Option<Parsed<Export>>)
    ensures r == ParseExport(payload, offset)
  {
    hide ReadU32;
    var length := ReadU32Loop(payload, offset);
    if length == None { return None; }
    var end := length.value.next + length.value.value;
    if end >= |payload| { return None; }
    var name, kind := payload[length.value.next..end], payload[end];
    var index := ReadU32Loop(payload, end + 1);
    if index == None { return None; }
    return Some(Parsed(Export(name, kind, index.value.value, payload[offset..index.value.next]), index.value.next));
  }

  /** The loop over the declared number of exports. */
  method PrivateExportsLoop(payload: seq<byte>) returns (r: Option<seq<byte>>)
    ensures r == PrivateExports(payload)
  {
    hide ParseExport;
    hide ParseExports;
    hide Export.Kept;
    hide Export.Dropped;
    hide KeptSoFar;
    hide Acceptable;
    hide Clean;
    hide NameSet;
    var count := ReadU32Loop(payload, 0);
    if count == None { return None; }
    var offset, kept: seq<byte>, n, names: set<seq<byte>> := count.value.next, [], 0, {};
    var left := count.value.value;
    ghost var es: seq<Export> := [];
    ghost var all := ParseExports(payload, offset, left);
    Start(all);
    while left > 0
      invariant left >= 0 && offset >= 0
      invariant all == Attach(es, ParseExports(payload, offset, left))
      invariant names == NameSet(es) && Clean(es) && KeptSoFar(es, kept, n)
    {
      var e := NextExport(payload, offset);
      AttachStep(payload, offset, left, es);
      if e == None { return None; }
      var entry := e.value.value;
      offset, left := e.value.next, left - 1;
      CleanNext(es, entry);
      KeptNext(es, entry, kept, n);
      es := es + [entry];
      if all.Some? && !Clean(es) { RefusedPrefix(es, all.value.value); }
      if entry.name in names { return None; }
      names := names + {entry.name};
      if entry.Kept() {
        kept, n := kept + entry.raw, n + 1;
      } else if !entry.Dropped() {
        return None;
      }
    }
    Finish(payload, offset, es, all, kept, n);
    if offset != |payload| || !(Functions() <= names) { return None; }
    return Some(Groups(n) + kept);
  }

  lemma Start(all: Option<Parsed<seq<Export>>>)
    ensures all == Attach([], all) && NameSet([]) == {} && Clean([]) && KeptSoFar([], [], 0)
  {
    if all.Some? { assert [] + all.value.value == all.value.value; }
  }

  lemma Finish(payload: seq<byte>, offset: nat, es: seq<Export>, all: Option<Parsed<seq<Export>>>, kept: seq<byte>,
               n: nat)
    requires all == Attach(es, ParseExports(payload, offset, 0)) && Clean(es) && KeptSoFar(es, kept, n)
    ensures all == Some(Parsed(es, offset)) && kept == Raws(Keep(es)) && n == |Keep(es)|
    ensures Acceptable(es) <==> Functions() <= NameSet(es)
  {
    assert es + [] == es;
  }

  // ---------------------------------------------------------------- exports stand alone

  /** The bytes of an export spell it wherever they stand. */
  predicate StandsAlone(e: Export) { ParseExport(e.raw, 0) == Some(Parsed(e, |e.raw|)) }

  lemma SubSlice(a: seq<byte>, at: nat, b: seq<byte>, offset: nat, size: nat, i: nat, j: nat)
    requires at + size <= |a| && offset + size <= |b| && i <= j <= size
    requires a[at..at + size] == b[offset..offset + size]
    ensures a[at + i..at + j] == b[offset + i..offset + j]
  {
    var x, y := a[at + i..at + j], b[offset + i..offset + j];
    forall k | 0 <= k < |x|
      ensures x[k] == y[k]
    {
      assert a[at..at + size][i + k] == b[offset..offset + size][i + k];
    }
  }

  lemma ExportElsewhere(payload: seq<byte>, offset: nat, other: seq<byte>, at: nat)
    requires ParseExport(payload, offset).Some?
    requires var p := ParseExport(payload, offset).value;
      at + |p.value.raw| <= |other| && other[at..at + |p.value.raw|] == p.value.raw
    ensures var p := ParseExport(payload, offset).value;
      ParseExport(other, at) == Some(Parsed(p.value, at + |p.value.raw|))
  {
    hide ReadU32;
    var p := ParseExport(payload, offset).value;
    var size := |p.value.raw|;
    var length := ReadU32(payload, offset).value;
    var shift, end := length.next - offset, length.next + length.value;
    var index := ReadU32(payload, end + 1).value;
    assert other[at..at + size] == payload[offset..offset + size];
    SubSlice(other, at, payload, offset, size, 0, shift);
    ReadElsewhere(payload, offset, length, other, at);
    SubSlice(other, at, payload, offset, size, end + 1 - offset, size);
    ReadElsewhere(payload, end + 1, index, other, at + (end + 1 - offset));
    SubSlice(other, at, payload, offset, size, shift, end - offset);
    SubSlice(other, at, payload, offset, size, end - offset, end + 1 - offset);
    assert other[at + (end - offset)..at + (end + 1 - offset)] == [other[at + (end - offset)]];
    assert payload[end..end + 1] == [payload[end]];
  }

  lemma ParsedStandsAlone(payload: seq<byte>, offset: nat)
    requires ParseExport(payload, offset).Some?
    ensures StandsAlone(ParseExport(payload, offset).value.value)
  {
    var e := ParseExport(payload, offset).value.value;
    assert e.raw[0..0 + |e.raw|] == e.raw;
    ExportElsewhere(payload, offset, e.raw, 0);
  }

  lemma StandsElsewhere(e: Export, payload: seq<byte>, at: nat)
    requires StandsAlone(e) && at + |e.raw| <= |payload| && payload[at..at + |e.raw|] == e.raw
    ensures ParseExport(payload, at) == Some(Parsed(e, at + |e.raw|))
  {
    ExportElsewhere(e.raw, 0, payload, at);
  }

  /** The exports parsed are spelled one after the other, each standing alone. */
  lemma {:induction false} ParsedRaws(payload: seq<byte>, offset: nat, count: nat)
    requires offset <= |payload| && ParseExports(payload, offset, count).Some?
    ensures var p := ParseExports(payload, offset, count).value;
      && offset <= p.next <= |payload| && payload[offset..p.next] == Raws(p.value) && |p.value| == count
      && forall i :: 0 <= i < |p.value| ==> StandsAlone(p.value[i])
    decreases count
  {
    hide ParseExport;
    hide StandsAlone;
    if count > 0 {
      var first := ParseExport(payload, offset).value;
      ParsedStandsAlone(payload, offset);
      ParsedRaws(payload, first.next, count - 1);
      var rest := ParseExports(payload, first.next, count - 1).value;
      assert payload[offset..rest.next] == payload[offset..first.next] + payload[first.next..rest.next];
      assert ([first.value] + rest.value)[1..] == rest.value;
    }
  }

  lemma ParseCons(payload: seq<byte>, offset: nat, count: nat, first: Parsed<Export>, rest: Parsed<seq<Export>>)
    requires ParseExport(payload, offset) == Some(first)
    requires ParseExports(payload, first.next, count) == Some(rest)
    ensures ParseExports(payload, offset, count + 1) == Some(Parsed([first.value] + rest.value, rest.next))
  {
    hide ParseExport;
  }

  lemma RawsSplit(before: seq<byte>, es: seq<Export>)
    requires es != []
    ensures var e, payload := es[0], before + Raws(es);
      && |Raws(es)| == |e.raw| + |Raws(es[1..])| && before + e.raw + Raws(es[1..]) == payload
      && payload[|before|..|before| + |e.raw|] == e.raw
  {
    var e := es[0];
    assert before + Raws(es) == before + e.raw + Raws(es[1..]);
  }

  /** Exports that stand alone, written one after the other, parse back to themselves. */
  lemma {:induction false} RawsParse(before: seq<byte>, es: seq<Export>)
    requires forall i :: 0 <= i < |es| ==> StandsAlone(es[i])
    ensures ParseExports(before + Raws(es), |before|, |es|) == Some(Parsed(es, |before| + |Raws(es)|))
    decreases |es|
  {
    hide ParseExport;
    hide StandsAlone;
    if es != [] {
      var e, payload := es[0], before + Raws(es);
      RawsSplit(before, es);
      hide ParseExports;
      hide Raws;
      StandsElsewhere(e, payload, |before|);
      RawsParse(before + e.raw, es[1..]);
      ParseCons(payload, |before|, |es| - 1, Parsed(e, |before| + |e.raw|),
                Parsed(es[1..], |before| + |e.raw| + |Raws(es[1..])|));
      assert es == [es[0]] + es[1..];
    }
  }

  lemma {:induction false} KeepKeeps(es: seq<Export>)
    ensures forall i :: 0 <= i < |Keep(es)| ==> Keep(es)[i].Kept() && Keep(es)[i] in es
    ensures forall e :: e in es && e.Kept() ==> e in Keep(es)
    ensures |Raws(Keep(es))| <= |Raws(es)| && |Keep(es)| <= |es|
  {
    hide Export.Kept;
    if es != [] {
      KeepKeeps(es[1..]);
      if es[0].Kept() { assert Keep(es)[1..] == Keep(es[1..]); }
      else { assert Keep(es) == Keep(es[1..]); }
    }
  }

  lemma {:induction false} KeepIdempotent(es: seq<Export>)
    requires forall i :: 0 <= i < |es| ==> es[i].Kept()
    ensures Keep(es) == es
  {
    hide Export.Kept;
    if es != [] { KeepIdempotent(es[1..]); }
  }

  lemma {:induction false} KeepDistinct(es: seq<Export>)
    requires DistinctNames(es)
    ensures DistinctNames(Keep(es))
  {
    hide Export.Kept;
    if es != [] {
      var tail, kept := es[1..], Keep(es[1..]);
      assert forall i :: 0 <= i < |tail| ==> tail[i] == es[i + 1];
      KeepDistinct(tail);
      KeepKeeps(tail);
      if es[0].Kept() {
        forall j | 0 <= j < |kept|
          ensures kept[j].name != es[0].name
        {
          assert kept[j] in tail;
        }
        assert Keep(es) == [es[0]] + kept;
      } else {
        assert Keep(es) == kept;
      }
    }
  }

  lemma {:induction false} DistinctCount(es: seq<Export>)
    requires DistinctNames(es)
    ensures |NameSet(es)| == |es|
  {
    if es == [] {
      assert NameSet(es) == {};
    } else {
      var k := |es| - 1;
      var init := es[..k];
      DistinctCount(init);
      assert NameSet(es) == NameSet(init) + {es[k].name};
      assert es[k].name !in NameSet(init);
    }
  }

  lemma SevenFunctions()
    ensures |Functions()| == 7
  {
    var a, b, c, d := Ascii("demo_abi_version"), Ascii("demo_begin"), Ascii("demo_write"), Ascii("demo_step");
    var e, f, g := Ascii("demo_read"), Ascii("demo_state"), Ascii("demo_reset");
    assert b[5] != c[5] && b[5] != f[5] && b[5] != g[5] && c[5] != f[5] && c[5] != g[5] && f[5] != g[5];
    assert d[5] != e[5];
    assert |{a}| == 1 && |{a, b}| == 2 && |{a, b, c}| == 3 && |{a, b, c, d}| == 4;
    assert |{a, b, c, d, e}| == 5 && |{a, b, c, d, e, f}| == 6;
  }

  lemma DroppedIsNoFunction(e: Export)
    requires e.Dropped()
    ensures e.name !in Functions()
  {
    var heap := Ascii("__heap_base");
    var data := Ascii("__data_end");
    var memory := Ascii("memory");
    assert heap[0] == '_' as int && data[0] == '_' as int && memory[0] == 'm' as int;
    forall f | f in Functions()
      ensures f[0] == 'd' as int
    {
    }
  }

  /** Acceptable exports keep exactly the seven functions, each once. */
  lemma KeptAreTheSeven(es: seq<Export>)
    requires Acceptable(es)
    ensures NameSet(Keep(es)) == Functions() && |Keep(es)| == 7 && DistinctNames(Keep(es))
  {
    hide Functions;
    hide Export.Dropped;
    KeepKeeps(es);
    KeepDistinct(es);
    DistinctCount(Keep(es));
    SevenFunctions();
    forall f | f in Functions()
      ensures f in NameSet(Keep(es))
    {
      var i :| 0 <= i < |es| && es[i].name == f;
      if es[i].Dropped() { DroppedIsNoFunction(es[i]); }
      assert es[i] in Keep(es);
    }
  }

  lemma AllExportsIs(payload: seq<byte>)
    requires AllExports(payload).Some?
    ensures var es := AllExports(payload).value;
      |Raws(es)| < |payload| && forall i :: 0 <= i < |es| ==> StandsAlone(es[i])
  {
    hide ParseExports;
    hide StandsAlone;
    hide ReadU32;
    var es := AllExports(payload).value;
    var count := ReadU32(payload, 0).value;
    ParsedRaws(payload, count.next, count.value);
    assert |payload[count.next..|payload|]| == |Raws(es)|;
  }

  /** A vector of seven exports that stand alone is read back. */
  lemma SevenRead(kept: seq<Export>)
    requires |kept| == 7 && forall i :: 0 <= i < |kept| ==> StandsAlone(kept[i])
    ensures Groups(7) == [7] && AllExports([7] + Raws(kept)) == Some(kept)
  {
    hide ParseExports;
    hide StandsAlone;
    hide ReadU32;
    var out := [7] + Raws(kept);
    assert Groups(7) == [7];
    RawsParse([7], kept);
    ReadOfU32([], 7, Raws(kept));
    assert [] + U32(7).value + Raws(kept) == out;
  }

  /**
   The rewritten payload: it exports exactly the seven functions, in their original relative order and
   with their original bytes, and it is no longer than the payload it replaces.
   */
  lemma PrivateExportsIs(payload: seq<byte>)
    requires PrivateExports(payload).Some?
    ensures AllExports(payload).Some?
    ensures var out, kept := PrivateExports(payload).value, Keep(AllExports(payload).value);
      && AllExports(out) == Some(kept)
      && NameSet(kept) == Functions() && |kept| == 7
      && |out| <= |payload|
  {
    hide AllExports;
    hide Acceptable;
    hide StandsAlone;
    hide Functions;
    hide Export.Kept;
    hide NameSet;
    hide Groups;
    var es := AllExports(payload).value;
    KeptAreTheSeven(es);
    KeepKeeps(es);
    AllExportsIs(payload);
    SevenRead(Keep(es));
  }

  /** Rewriting twice changes nothing more. */
  lemma PrivateExportsIdempotent(payload: seq<byte>)
    requires PrivateExports(payload).Some?
    ensures PrivateExports(PrivateExports(payload).value) == PrivateExports(payload)
  {
    PrivateExportsIs(payload);
    hide AllExports;
    hide Functions;
    hide Groups;
    var es := AllExports(payload).value;
    KeptAreTheSeven(es);
    KeepKeeps(es);
    KeepIdempotent(Keep(es));
  }
}
