/**
 The binary format by its grammar (sections 5.5.2 and 5.5.10 of the WebAssembly Core Specification 1.0), and the
 rewriter stated on it: which modules it takes, and the bytes it gives.
 */
module WasmFormat {
  import opened Octets
  import opened Patterns
  import opened Leb
  import opened Exports
  import opened Wasm

  /** The bytes denote the number. */
  predicate Spells(bs: seq<byte>, n: nat) { Encoding(bs) && Denoted(bs) == n }

  /** A length, a name of that length, a kind, and an index. */
  ghost predicate IsExport(e: Export) {
    exists length: seq<byte>, index: seq<byte> ::
      Spells(length, |e.name|) && Spells(index, e.index) && e.raw == length + e.name + [e.kind] + index
  }

  /** An identity, a length, and that many bytes. */
  ghost predicate IsSection(s: Section) {
    exists length: seq<byte> :: Spells(length, |s.payload|) && s.raw == [s.id] + length + s.payload
  }

  lemma ExportGrammar(e: Export)
    ensures StandsAlone(e) <==> IsExport(e)
  {
    hide ReadU32;
    if StandsAlone(e) {
      var n := ReadU32(e.raw, 0).value;
      var end := n.next + n.value;
      var i := ReadU32(e.raw, end + 1).value;
      ReadIsDenoted(e.raw, 0, n);
      ReadIsDenoted(e.raw, end + 1, i);
      assert Spells(e.raw[0..n.next], |e.name|) && Spells(e.raw[end + 1..i.next], e.index);
      assert e.raw == e.raw[0..n.next] + e.name + [e.kind] + e.raw[end + 1..i.next];
    }
    if IsExport(e) {
      var length: seq<byte>, index: seq<byte> :|
        Spells(length, |e.name|) && Spells(index, e.index) && e.raw == length + e.name + [e.kind] + index;
      ExportPieces(e, length, index);
    }
  }

  lemma ExportPieces(e: Export, length: seq<byte>, index: seq<byte>)
    requires Spells(length, |e.name|) && Spells(index, e.index) && e.raw == length + e.name + [e.kind] + index
    ensures StandsAlone(e)
  {
    hide ReadU32;
    var end := |length| + |e.name|;
    assert e.raw[0..|length|] == length && e.raw[|length|..end] == e.name && e.raw[end] == e.kind;
    assert e.raw[end + 1..|e.raw|] == index && e.raw[0..|e.raw|] == e.raw;
    ReadIsDenoted(e.raw, 0, Read(|e.name|, |length|));
    ReadIsDenoted(e.raw, end + 1, Read(e.index, |e.raw|));
  }

  lemma SectionGrammar(s: Section)
    ensures SectionStands(s) <==> IsSection(s)
  {
    hide ReadU32;
    if SectionStands(s) {
      var n := ReadU32(s.raw, 1).value;
      ReadIsDenoted(s.raw, 1, n);
      assert Spells(s.raw[1..n.next], |s.payload|);
      assert s.raw == [s.id] + s.raw[1..n.next] + s.payload;
    }
    if IsSection(s) {
      var length: seq<byte> :| Spells(length, |s.payload|) && s.raw == [s.id] + length + s.payload;
      SectionPieces(s, length);
    }
  }

  lemma SectionPieces(s: Section, length: seq<byte>)
    requires Spells(length, |s.payload|) && s.raw == [s.id] + length + s.payload
    ensures SectionStands(s)
  {
    hide ReadU32;
    var at := 1 + |length|;
    assert s.raw[1..at] == length && s.raw[at..|s.raw|] == s.payload && s.raw[0..|s.raw|] == s.raw;
    ReadIsDenoted(s.raw, 1, Read(|s.payload|, at));
  }

  ghost predicate AreExports(es: seq<Export>) { forall i :: 0 <= i < |es| ==> IsExport(es[i]) }

  ghost predicate AreSections(ss: seq<Section>) { forall i :: 0 <= i < |ss| ==> IsSection(ss[i]) }

  /** A payload is nothing but a count and that many exports. */
  ghost predicate IsPayload(payload: seq<byte>, es: seq<Export>) {
    AreExports(es) && exists count: seq<byte> :: Spells(count, |es|) && payload == count + Raws(es)
  }

  lemma PayloadGrammar(payload: seq<byte>, es: seq<Export>)
    ensures AllExports(payload) == Some(es) <==> IsPayload(payload, es)
  {
    hide ReadU32;
    hide ParseExports;
    hide Raws;
    forall e
      ensures StandsAlone(e) <==> IsExport(e)
    {
      ExportGrammar(e);
    }
    hide StandsAlone;
    hide IsExport;
    if AllExports(payload) == Some(es) {
      var n := ReadU32(payload, 0).value;
      ReadIsDenoted(payload, 0, n);
      ParsedRaws(payload, n.next, n.value);
      assert Spells(payload[0..n.next], |es|);
      assert payload == payload[0..n.next] + payload[n.next..|payload|];
    }
    if IsPayload(payload, es) {
      var count: seq<byte> :| Spells(count, |es|) && payload == count + Raws(es);
      assert payload[0..|count|] == count;
      ReadIsDenoted(payload, 0, Read(|es|, |count|));
      RawsParse(count, es);
    }
  }

  /** A module is its eight bytes of magic and version, and its sections. */
  predicate IsModule(m: seq<byte>, ss: seq<Section>) {
    m == [0x00, 0x61, 0x73, 0x6d, 0x01, 0x00, 0x00, 0x00] + Bytes(ss)
  }

  lemma ModuleGrammar(m: seq<byte>, ss: seq<Section>)
    ensures Sections(m) == Some(ss) <==> AreSections(ss) && IsModule(m, ss)
  {
    hide ParseSections;
    hide Bytes;
    forall s
      ensures SectionStands(s) <==> IsSection(s)
    {
      SectionGrammar(s);
    }
    hide SectionStands;
    hide IsSection;
    if Sections(m) == Some(ss) {
      SectionsParsed(m, 8);
      assert m == m[..8] + m[8..];
      assert m[..8] == HEADER;
    }
    if AreSections(ss) && IsModule(m, ss) { BytesParse(HEADER, ss); }
  }

  // ---------------------------------------------------------------- what is rewritten, and to what

  /** The seven names, the exports that may be left out, and nothing else. */
  predicate Name(bs: seq<byte>, s: string) { |bs| == |s| && forall i :: 0 <= i < |s| ==> bs[i] == s[i] as int }

  predicate IsFunction(e: Export) {
    && e.kind == 0
    && (|| Name(e.name, "demo_abi_version") || Name(e.name, "demo_begin") || Name(e.name, "demo_write")
        || Name(e.name, "demo_step") || Name(e.name, "demo_read") || Name(e.name, "demo_state")
        || Name(e.name, "demo_reset"))
  }

  predicate IsLeftOut(e: Export) {
    || (Name(e.name, "memory") && e.kind == 2 && e.index == 0)
    || ((Name(e.name, "__heap_base") || Name(e.name, "__data_end")) && e.kind == 3)
  }

  lemma NameIs(bs: seq<byte>, s: string)
    requires IsAscii(s)
    ensures Name(bs, s) <==> bs == Ascii(s)
  {
  }

  lemma KeptIs(e: Export)
    ensures e.Kept() <==> IsFunction(e)
  {
    NameIs(e.name, "demo_abi_version");
    NameIs(e.name, "demo_begin");
    NameIs(e.name, "demo_write");
    NameIs(e.name, "demo_step");
    NameIs(e.name, "demo_read");
    NameIs(e.name, "demo_state");
    NameIs(e.name, "demo_reset");
    hide Name;
    hide Ascii;
  }

  lemma DroppedIs(e: Export)
    ensures e.Dropped() <==> IsLeftOut(e)
  {
    NameIs(e.name, "memory");
    NameIs(e.name, "__heap_base");
    NameIs(e.name, "__data_end");
    hide Name;
    hide Ascii;
  }

  /** Distinct names; each one of the seven functions or one that may be left out; and seven of them functions. */
  ghost predicate RightExports(es: seq<Export>) {
    && (forall i, j :: 0 <= i < j < |es| ==> es[i].name != es[j].name)
    && (forall i :: 0 <= i < |es| ==> IsFunction(es[i]) || IsLeftOut(es[i]))
    && |set i | 0 <= i < |es| && IsFunction(es[i])| == 7
  }

  function FunctionsAt(es: seq<Export>): set<nat> { set i | 0 <= i < |es| && es[i].Kept() }

  lemma {:induction false} KeptCount(es: seq<Export>)
    ensures |Keep(es)| == |FunctionsAt(es)|
  {
    hide Export.Kept;
    if es == [] { assert FunctionsAt(es) == {}; }
    else {
      var k := |es| - 1;
      KeptCount(es[..k]);
      assert es == es[..k] + [es[k]];
      KeepAppend(es[..k], [es[k]]);
      var last: set<nat> := if es[k].Kept() then {k} else {};
      assert FunctionsAt(es) == FunctionsAt(es[..k]) + last;
      assert |Keep([es[k]])| == |last|;
    }
  }

  lemma AcceptableIs(es: seq<Export>)
    ensures Acceptable(es) <==> RightExports(es)
  {
    forall e: Export
      ensures (e.Kept() <==> IsFunction(e)) && (e.Dropped() <==> IsLeftOut(e))
    {
      KeptIs(e);
      DroppedIs(e);
    }
    hide IsFunction;
    hide IsLeftOut;
    hide Functions;
    KeptCount(es);
    assert FunctionsAt(es) == set i | 0 <= i < |es| && IsFunction(es[i]);
    if Acceptable(es) { KeptAreTheSeven(es); }
    if RightExports(es) {
      assert DistinctNames(es);
      AllSeven(es);
    }
  }

  /** Seven functions with distinct names are all of the seven. */
  lemma AllSeven(es: seq<Export>)
    requires DistinctNames(es) && |Keep(es)| == 7
    ensures Functions() <= NameSet(es)
  {
    hide Functions;
    var kept := Keep(es);
    KeepKeeps(es);
    KeepDistinct(es);
    DistinctCount(kept);
    SevenFunctions();
    assert NameSet(kept) <= Functions();
    assert |Functions() - NameSet(kept)| == |Functions()| - |NameSet(kept)|;
    forall n | n in NameSet(kept)
      ensures n in NameSet(es)
    {
      var i :| 0 <= i < |kept| && kept[i].name == n;
      assert kept[i] in es;
    }
  }

  // ---------------------------------------------------------------- the whole rewriting

  /** Section `k` is the export section, and the only one. */
  predicate OnlyExport(ss: seq<Section>, k: nat) {
    k < |ss| && forall i :: 0 <= i < |ss| ==> (ss[i].id == 7 <==> i == k)
  }

  /** A section of the seven functions as they were spelled, counted and measured in the fewest bytes. */
  function SevenSection(es: seq<Export>): seq<byte> {
    var payload := [7] + Raws(Keep(es));
    [7] + Groups(|payload|) + payload
  }

  /** The module has one export section, of the right exports; only that section is replaced. */
  ghost predicate Rewrites(m: seq<byte>, out: seq<byte>, ss: seq<Section>, k: nat, es: seq<Export>) {
    && AreSections(ss) && IsModule(m, ss) && OnlyExport(ss, k)
    && IsPayload(ss[k].payload, es) && RightExports(es)
    && out == [0x00, 0x61, 0x73, 0x6d, 0x01, 0x00, 0x00, 0x00]
      + Bytes(ss[..k]) + SevenSection(es) + Bytes(ss[k + 1..])
  }

  lemma {:induction false} BytesAppend(a: seq<Section>, b: seq<Section>)
    ensures Bytes(a + b) == Bytes(a) + Bytes(b)
  {
    if a == [] { assert a + b == b; }
    else {
      assert (a + b)[1..] == a[1..] + b;
      BytesAppend(a[1..], b);
    }
  }

  lemma {:induction false} ExportingIs(ss: seq<Section>)
    ensures Exporting(ss) == 0 <==> forall i :: 0 <= i < |ss| ==> ss[i].id != 7
    ensures Exporting(ss) == 1 <==> exists k: nat :: OnlyExport(ss, k)
  {
    if ss != [] {
      var rest := ss[1..];
      ExportingIs(rest);
      assert forall i :: 0 <= i < |rest| ==> rest[i] == ss[i + 1];
      if k: nat :| OnlyExport(rest, k) { assert ss[0].id != 7 ==> OnlyExport(ss, k + 1) by { Shifted(ss, k); } }
      if k: nat :| OnlyExport(ss, k) { assert k > 0 ==> OnlyExport(rest, k - 1); }
      if ss[0].id == 7 && Exporting(rest) == 0 { assert OnlyExport(ss, 0) by { FirstOnly(ss); } }
    }
  }

  lemma Shifted(ss: seq<Section>, k: nat)
    requires ss != [] && OnlyExport(ss[1..], k)
    ensures ss[0].id != 7 ==> OnlyExport(ss, k + 1)
  {
    forall i | 0 < i < |ss|
      ensures ss[i].id == 7 <==> i == k + 1
    {
      assert ss[i] == ss[1..][i - 1];
    }
  }

  lemma FirstOnly(ss: seq<Section>)
    requires ss != [] && ss[0].id == 7 && forall i :: 0 <= i < |ss[1..]| ==> ss[1..][i].id != 7
    ensures OnlyExport(ss, 0)
  {
    forall i | 0 < i < |ss|
      ensures ss[i].id != 7
    {
      assert ss[i] == ss[1..][i - 1];
    }
  }

  /** Renewing a list of sections replaces the bytes of the one that exports. */
  lemma RenewedBytes(ss: seq<Section>, k: nat)
    requires OnlyExport(ss, k)
    ensures Bytes(RenewAll(ss)) == Bytes(ss[..k]) + Renewed(ss[k]).raw + Bytes(ss[k + 1..])
  {
    hide PrivateExports;
    hide ExportSection;
    var ns := RenewAll(ss);
    forall i | 0 <= i < |ss| && i != k
      ensures ns[i] == ss[i]
    {
      assert ss[i].id != 7;
    }
    hide Renewed;
    hide RenewAll;
    assert ns[..k] == ss[..k] && ns[k + 1..] == ss[k + 1..] && ns == ns[..k] + ([ns[k]] + ns[k + 1..]);
    BytesAppend(ns[..k], [ns[k]] + ns[k + 1..]);
    BytesAppend([ns[k]], ns[k + 1..]);
    assert Bytes([ns[k]]) == ns[k].raw + Bytes([]);
  }

  /** The bytes of the renewed export section. */
  lemma RenewedSection(s: Section, es: seq<Export>)
    requires s.id == 7 && IsPayload(s.payload, es)
    ensures PrivateExports(s.payload).Some? <==> RightExports(es)
    ensures RightExports(es) ==> Renewed(s).raw == SevenSection(es)
  {
    PayloadGrammar(s.payload, es);
    AcceptableIs(es);
    hide AllExports;
    hide Acceptable;
    hide RightExports;
    if RightExports(es) {
      KeptAreTheSeven(es);
      assert Groups(7) == [7];
    }
  }

  lemma PrivateModuleBytes(m: seq<byte>, ss: seq<Section>)
    requires Sections(m) == Some(ss) && Exporting(ss) == 1 && ExportsAccepted(ss)
    ensures PrivateModule(m) == Some(HEADER + Bytes(RenewAll(ss)))
  {
    RewriteIs(ss, false);
    hide ParseSections;
    hide Rewrite;
    hide Bytes;
  }

  lemma AcceptedOnly(ss: seq<Section>, k: nat)
    requires OnlyExport(ss, k) && PrivateExports(ss[k].payload).Some?
    ensures ExportsAccepted(ss)
  {
    hide PrivateExports;
  }

  lemma FourParts(h: seq<byte>, a: seq<byte>, b: seq<byte>, c: seq<byte>)
    ensures h + (a + b + c) == h + a + b + c
  {
  }

  /** On one export section of the right exports the rewriter gives these bytes. */
  lemma RewriteGives(m: seq<byte>, ss: seq<Section>, k: nat, es: seq<Export>)
    requires Sections(m) == Some(ss) && OnlyExport(ss, k) && IsPayload(ss[k].payload, es) && RightExports(es)
    ensures PrivateModule(m) == Some(HEADER + Bytes(ss[..k]) + SevenSection(es) + Bytes(ss[k + 1..]))
  {
    assert ss[k].id == 7;
    hide *;
    ExportingIs(ss);
    RenewedSection(ss[k], es);
    AcceptedOnly(ss, k);
    PrivateModuleBytes(m, ss);
    RenewedBytes(ss, k);
    FourParts(HEADER, Bytes(ss[..k]), SevenSection(es), Bytes(ss[k + 1..]));
  }

  /** Whatever the rewriter accepts has one export section, of the right exports. */
  lemma RewriteNeeds(m: seq<byte>) returns (ss: seq<Section>, k: nat, es: seq<Export>)
    requires PrivateModule(m).Some?
    ensures Sections(m) == Some(ss) && OnlyExport(ss, k) && IsPayload(ss[k].payload, es) && RightExports(es)
  {
    PrivateModuleIs(m);
    ss := Sections(m).value;
    ExportingIs(ss);
    k :| OnlyExport(ss, k);
    assert ss[k].id == 7;
    hide PrivateModule;
    hide Sections;
    assert PrivateExports(ss[k].payload).Some?;
    es := AllExports(ss[k].payload).value;
    PayloadGrammar(ss[k].payload, es);
    hide AllExports;
    RenewedSection(ss[k], es);
  }

  /** The rewriter gives an output exactly for such a module, and exactly those bytes. */
  lemma RewriterIs(m: seq<byte>, out: seq<byte>)
    ensures PrivateModule(m) == Some(out) <==>
      exists ss: seq<Section>, k: nat, es: seq<Export> :: Rewrites(m, out, ss, k, es)
  {
    hide PrivateModule;
    hide Sections;
    hide Bytes;
    hide IsPayload;
    hide RightExports;
    hide SevenSection;
    if PrivateModule(m).Some? {
      var ss, k, es := RewriteNeeds(m);
      ModuleGrammar(m, ss);
      RewriteGives(m, ss, k, es);
      assert PrivateModule(m) == Some(out) ==> Rewrites(m, out, ss, k, es);
    }
    forall ss: seq<Section>, k: nat, es: seq<Export> | Rewrites(m, out, ss, k, es)
      ensures PrivateModule(m) == Some(out)
    {
      ModuleGrammar(m, ss);
      RewriteGives(m, ss, k, es);
    }
  }
}
