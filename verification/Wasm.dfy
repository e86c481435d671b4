/**
 The whole module: a header and a list of sections, copied byte for byte except the export section.
 */
module Wasm {
  import opened Octets
  import opened Patterns
  import opened Leb
  import opened Exports

  const HEADER: seq<byte> := [0, 97, 115, 109, 1, 0, 0, 0]

  const EXPORT_SECTION: byte := 7

  /** A section, its contents, and the bytes that spell it. */
  datatype Section = Section(id: byte, payload: seq<byte>, raw: seq<byte>)

  /** The section at an offset. */
  function ParseSection(m: seq<byte>, offset: nat): (r: Option<Parsed<Section>>)
    requires offset < |m|
    ensures r.Some? ==> offset < r.value.next <= |m| && r.value.value.raw == m[offset..r.value.next]
  {
    match ReadU32(m, offset + 1)
    case None => None
    case Some(length) =>
      var end := length.next + length.value;
      if end > |m| then None else Some(Parsed(Section(m[offset], m[length.next..end], m[offset..end]), end))
  }

  /** The sections from an offset to the end. */
  function ParseSections(m: seq<byte>, offset: nat): Option<seq<Section>>
    decreases |m| - offset
  {
    if offset >= |m| then Some([])
    else match ParseSection(m, offset)
      case None => None
      case Some(first) =>
        match ParseSections(m, first.next)
        case None => None
        case Some(rest) => Some([first.value] + rest)
  }

  /** The rewritten export section. */
  function ExportSection(payload: seq<byte>): seq<byte> {
    [EXPORT_SECTION] + Groups(|payload|) + payload
  }

  /** The rewritten bytes of the remaining sections; `found` tells whether exports came before. */
  function Rewrite(ss: seq<Section>, found: bool): Option<seq<byte>> {
    if ss == [] then (if found then Some([]) else None)
    else if ss[0].id == EXPORT_SECTION then
      if found then None
      else match PrivateExports(ss[0].payload)
        case None => None
        case Some(out) => Prepend(ExportSection(out), Rewrite(ss[1..], true))
    else Prepend(ss[0].raw, Rewrite(ss[1..], found))
  }

  function Prepend(a: seq<byte>, b: Option<seq<byte>>): Option<seq<byte>> {
    match b case None => None case Some(bs) => Some(a + bs)
  }

  /** The module with only the scalar API exported, or a refusal. */
  function PrivateModule(m: seq<byte>): Option<seq<byte>> {
    if !(HEADER <= m) then None
    else match ParseSections(m, 8)
      case None => None
      case Some(ss) => Prepend(HEADER, Rewrite(ss, false))
  }

  // ---------------------------------------------------------------- the copying loop

  method NextSection(m: seq<byte>, offset: nat) returns (r: Option<Parsed<Section>>)
    requires offset < |m|
    ensures r == ParseSection(m, offset)
  {
    hide ReadU32;
    var length := ReadU32Loop(m, offset + 1);
    if length == None { return None; }
    var end := length.value.next + length.value.value;
    if end > |m| { return None; }
    return Some(Parsed(Section(m[offset], m[length.value.next..end], m[offset..end]), end));
  }

  /** What remains to be written from an offset on. */
  function Rest(m: seq<byte>, offset: nat, found: bool): Option<seq<byte>> {
    match ParseSections(m, offset)
    case None => None
    case Some(ss) => Rewrite(ss, found)
  }

  lemma RestStep(m: seq<byte>, offset: nat, found: bool)
    requires offset < |m|
    ensures Rest(m, offset, found) ==
      match ParseSection(m, offset)
      case None => None
      case Some(first) =>
        if first.value.id == EXPORT_SECTION then
          if found then None
          else match PrivateExports(first.value.payload)
            case None => None
            case Some(out) => Prepend(ExportSection(out), Rest(m, first.next, true))
        else Prepend(first.value.raw, Rest(m, first.next, found))
  {
    hide ParseSection;
    hide PrivateExports;
    hide ExportSection;
    match ParseSection(m, offset)
    case None =>
    case Some(first) =>
      match ParseSections(m, first.next)
      case None =>
      case Some(rest) => assert ([first.value] + rest)[1..] == rest;
  }

  lemma PrependTwice(a: seq<byte>, b: seq<byte>, c: Option<seq<byte>>)
    ensures Prepend(a, Prepend(b, c)) == Prepend(a + b, c)
  {
    if c.Some? { assert a + (b + c.value) == a + b + c.value; }
  }

  /** An accepted payload is short enough for its length to be written. */
  lemma SectionLength(m: seq<byte>, offset: nat)
    requires offset < |m| && ParseSection(m, offset).Some?
    ensures var s := ParseSection(m, offset).value.value;
      && |s.payload| <= MAX
      && |s.raw| >= 1 + |Groups(|s.payload|)| + |s.payload|
  {
    ReadBounds(m, offset + 1);
  }

  /** The loop that copies sections and rewrites the exports. */
  method PrivateModuleLoop(m: seq<byte>) returns (r: Option<seq<byte>>)
    ensures r == PrivateModule(m)
  {
    hide ParseSection;
    hide ParseSections;
    hide PrivateExports;
    hide Rewrite;
    if !(HEADER <= m) { return None; }
    var output, offset, found := HEADER, 8, false;
    while offset < |m|
      invariant 0 <= offset <= |m|
      invariant PrivateModule(m) == Prepend(output, Rest(m, offset, found))
    {
      RestStep(m, offset, found);
      var section := NextSection(m, offset);
      if section == None { return None; }
      var s := section.value.value;
      SectionLength(m, offset);
      if s.id == EXPORT_SECTION {
        if found { return None; }
        found := true;
        var exports := PrivateExportsLoop(s.payload);
        if exports == None { return None; }
        PrivateExportsIs(s.payload);
        var length := U32Loop(|exports.value|);
        PrependTwice(output, ExportSection(exports.value), Rest(m, section.value.next, true));
        output := output + ([EXPORT_SECTION] + length.value + exports.value);
      } else {
        PrependTwice(output, s.raw, Rest(m, section.value.next, found));
        output := output + s.raw;
      }
      offset := section.value.next;
    }
    RestEnd(m, offset, found);
    if !found { return None; }
    assert output + [] == output;
    return Some(output);
  }

  lemma RestEnd(m: seq<byte>, offset: nat, found: bool)
    requires offset >= |m|
    ensures Rest(m, offset, found) == if found then Some([]) else None
  {
  }

  // ---------------------------------------------------------------- what the rewritten module is

  function Bytes(ss: seq<Section>): seq<byte> {
    if ss == [] then [] else ss[0].raw + Bytes(ss[1..])
  }

  /** The bytes of a section spell it wherever they stand. */
  predicate SectionStands(s: Section) { |s.raw| > 0 && ParseSection(s.raw, 0) == Some(Parsed(s, |s.raw|)) }

  lemma SectionElsewhere(m: seq<byte>, offset: nat, other: seq<byte>, at: nat)
    requires offset < |m| && ParseSection(m, offset).Some?
    requires var s := ParseSection(m, offset).value.value;
      at + |s.raw| <= |other| && other[at..at + |s.raw|] == s.raw
    ensures at < |other|
    ensures var s := ParseSection(m, offset).value.value; ParseSection(other, at) == Some(Parsed(s, at + |s.raw|))
  {
    hide ReadU32;
    var p := ParseSection(m, offset).value;
    var size := |p.value.raw|;
    var length := ReadU32(m, offset + 1).value;
    assert other[at..at + size] == m[offset..offset + size];
    SubSlice(other, at, m, offset, size, 1, length.next - offset);
    ReadElsewhere(m, offset + 1, length, other, at + 1);
    SubSlice(other, at, m, offset, size, length.next - offset, size);
    SubSlice(other, at, m, offset, size, 0, 1);
    assert other[at..at + 1] == [other[at]] && m[offset..offset + 1] == [m[offset]];
  }

  lemma ParsedStands(m: seq<byte>, offset: nat)
    requires offset < |m| && ParseSection(m, offset).Some?
    ensures SectionStands(ParseSection(m, offset).value.value)
  {
    var s := ParseSection(m, offset).value.value;
    assert s.raw[0..0 + |s.raw|] == s.raw;
    SectionElsewhere(m, offset, s.raw, 0);
  }

  lemma StandsAt(s: Section, m: seq<byte>, at: nat)
    requires SectionStands(s) && at + |s.raw| <= |m| && m[at..at + |s.raw|] == s.raw
    ensures at < |m| && ParseSection(m, at) == Some(Parsed(s, at + |s.raw|))
  {
    SectionElsewhere(s.raw, 0, m, at);
  }

  /** The rewritten export section reads back as itself. */
  lemma ExportSectionStands(out: seq<byte>)
    requires |out| <= MAX
    ensures SectionStands(Section(EXPORT_SECTION, out, ExportSection(out)))
  {
    var raw := ExportSection(out);
    ReadOfU32([EXPORT_SECTION], |out|, out);
    var at := 1 + |Groups(|out|)|;
    hide ReadU32;
    hide Groups;
    assert raw[at..at + |out|] == out && raw[0..at + |out|] == raw && at + |out| == |raw|;
  }

  predicate AllStand(ss: seq<Section>) { forall i :: 0 <= i < |ss| ==> SectionStands(ss[i]) }

  lemma {:induction false} SectionsParsed(m: seq<byte>, offset: nat)
    requires offset <= |m| && ParseSections(m, offset).Some?
    ensures AllStand(ParseSections(m, offset).value) && m[offset..] == Bytes(ParseSections(m, offset).value)
    decreases |m| - offset
  {
    hide ParseSection;
    hide SectionStands;
    if offset < |m| {
      var first := ParseSection(m, offset).value;
      ParsedStands(m, offset);
      SectionsParsed(m, first.next);
      var rest := ParseSections(m, first.next).value;
      assert m[offset..] == m[offset..first.next] + m[first.next..];
      assert ([first.value] + rest)[1..] == rest;
    }
  }

  lemma {:induction false} BytesParse(before: seq<byte>, ss: seq<Section>)
    requires AllStand(ss)
    ensures ParseSections(before + Bytes(ss), |before|) == Some(ss)
    decreases |ss|
  {
    hide ParseSection;
    if ss != [] {
      var s, m := ss[0], before + Bytes(ss);
      assert SectionStands(s);
      hide SectionStands;
      assert m[|before|..|before| + |s.raw|] == s.raw;
      StandsAt(s, m, |before|);
      BytesParse(before + s.raw, ss[1..]);
      assert before + s.raw + Bytes(ss[1..]) == m;
      assert ss == [ss[0]] + ss[1..];
    }
  }

  /** What becomes of a section: the export section loses exports, every other stays as it is. */
  function Renewed(s: Section): Section {
    if s.id == EXPORT_SECTION && PrivateExports(s.payload).Some? then
      var out := PrivateExports(s.payload).value;
      Section(EXPORT_SECTION, out, ExportSection(out))
    else s
  }

  function RenewAll(ss: seq<Section>): (r: seq<Section>)
    ensures |r| == |ss| && forall i :: 0 <= i < |ss| ==> r[i] == Renewed(ss[i])
  {
    seq(|ss|, i requires 0 <= i < |ss| => Renewed(ss[i]))
  }

  /** The number of export sections. */
  function Exporting(ss: seq<Section>): nat {
    if ss == [] then 0 else (if ss[0].id == EXPORT_SECTION then 1 else 0) + Exporting(ss[1..])
  }

  predicate ExportsAccepted(ss: seq<Section>) {
    forall i :: 0 <= i < |ss| && ss[i].id == EXPORT_SECTION ==> PrivateExports(ss[i].payload).Some?
  }

  /** Rewriting succeeds on exactly one acceptable export section, and renews every section in place. */
  lemma {:induction false} RewriteIs(ss: seq<Section>, found: bool)
    ensures Rewrite(ss, found) ==
      if ExportsAccepted(ss) && Exporting(ss) + (if found then 1 else 0) == 1 then Some(Bytes(RenewAll(ss))) else None
  {
    hide PrivateExports;
    hide ExportSection;
    if ss == [] {
      assert RenewAll(ss) == [];
    } else {
      var rest := ss[1..];
      RewriteIs(rest, found);
      RewriteIs(rest, true);
      assert RenewAll(ss)[1..] == RenewAll(rest);
      assert ExportsAccepted(ss) <==>
        ExportsAccepted(rest) && (ss[0].id == EXPORT_SECTION ==> PrivateExports(ss[0].payload).Some?) by {
        AcceptedCons(ss);
      }
    }
  }

  lemma AcceptedCons(ss: seq<Section>)
    requires ss != []
    ensures ExportsAccepted(ss) <==>
      ExportsAccepted(ss[1..]) && (ss[0].id == EXPORT_SECTION ==> PrivateExports(ss[0].payload).Some?)
  {
    hide PrivateExports;
    var rest := ss[1..];
    assert forall i :: 0 <= i < |rest| ==> rest[i] == ss[i + 1];
    if ExportsAccepted(rest) && (ss[0].id == EXPORT_SECTION ==> PrivateExports(ss[0].payload).Some?) {
      forall i | 0 <= i < |ss| && ss[i].id == EXPORT_SECTION
        ensures PrivateExports(ss[i].payload).Some?
      {
        if i > 0 { assert rest[i - 1] == ss[i]; }
      }
    }
  }

  lemma RenewedStands(s: Section)
    requires SectionStands(s)
    ensures SectionStands(Renewed(s)) && |Renewed(s).raw| <= |s.raw|
  {
    if s.id == EXPORT_SECTION && PrivateExports(s.payload).Some? {
      SectionLength(s.raw, 0);
      PrivateExportsIs(s.payload);
      var out := PrivateExports(s.payload).value;
      ExportSectionStands(out);
      GroupsMonotone(|out|, |s.payload|);
    }
  }

  lemma {:induction false} GroupsMonotone(a: nat, b: nat)
    requires a <= b
    ensures |Groups(a)| <= |Groups(b)|
  {
    if a >= 128 { GroupsMonotone(a / 128, b / 128); }
  }

  lemma {:induction false} BytesShrink(ss: seq<Section>)
    requires AllStand(ss)
    ensures AllStand(RenewAll(ss)) && |Bytes(RenewAll(ss))| <= |Bytes(ss)|
  {
    hide SectionStands;
    hide Renewed;
    forall i | 0 <= i < |ss|
      ensures SectionStands(RenewAll(ss)[i])
    {
      RenewedStands(ss[i]);
    }
    if ss != [] {
      BytesShrink(ss[1..]);
      RenewedStands(ss[0]);
      assert RenewAll(ss)[1..] == RenewAll(ss[1..]);
    }
  }

  /** The sections of a module with the right header. */
  function Sections(m: seq<byte>): Option<seq<Section>> {
    if HEADER <= m then ParseSections(m, 8) else None
  }

  /**
   The rewriter's result, in terms of sections: it succeeds exactly when the module splits into
   sections of which one exports, acceptably; then the result has the same sections in the same
   order, every non-export section byte for byte, and the export section with only the seven
   functions; and it is never longer than its input.
   */
  lemma PrivateModuleIs(m: seq<byte>)
    ensures PrivateModule(m).Some? <==>
      Sections(m).Some? && Exporting(Sections(m).value) == 1 && ExportsAccepted(Sections(m).value)
    ensures PrivateModule(m).Some? ==>
      Sections(PrivateModule(m).value) == Some(RenewAll(Sections(m).value)) && |PrivateModule(m).value| <= |m|
  {
    hide ParseSections;
    hide Rewrite;
    hide ExportsAccepted;
    hide RenewAll;
    hide AllStand;
    if Sections(m).Some? {
      var ss := Sections(m).value;
      RewriteIs(ss, false);
      SectionsParsed(m, 8);
      BytesShrink(ss);
      BytesParse(HEADER, RenewAll(ss));
    }
  }

  /** The export section of a rewritten module holds exactly the seven functions, in order, as they were. */
  lemma RewrittenExports(m: seq<byte>, i: nat)
    requires PrivateModule(m).Some? && Sections(m).Some? && i < |Sections(m).value|
    requires Sections(m).value[i].id == EXPORT_SECTION
    ensures Sections(PrivateModule(m).value).Some? && i < |Sections(PrivateModule(m).value).value|
    ensures var before, after := AllExports(Sections(m).value[i].payload),
                                 AllExports(Sections(PrivateModule(m).value).value[i].payload);
      && before.Some? && after == Some(Keep(before.value))
      && NameSet(after.value) == Functions() && |after.value| == 7
  {
    PrivateModuleIs(m);
    hide PrivateModule;
    hide Sections;
    hide AllExports;
    var s := Sections(m).value[i];
    assert PrivateExports(s.payload).Some?;
    PrivateExportsIs(s.payload);
    assert Sections(PrivateModule(m).value).value[i] == Renewed(s);
  }

  lemma RenewTwice(s: Section)
    ensures Renewed(Renewed(s)) == Renewed(s)
  {
    if s.id == EXPORT_SECTION && PrivateExports(s.payload).Some? { PrivateExportsIdempotent(s.payload); }
    hide PrivateExports;
  }

  lemma {:induction false} RenewedAccepted(ss: seq<Section>)
    requires ExportsAccepted(ss)
    ensures ExportsAccepted(RenewAll(ss)) && Exporting(RenewAll(ss)) == Exporting(ss)
    ensures RenewAll(RenewAll(ss)) == RenewAll(ss)
  {
    forall i | 0 <= i < |ss|
      ensures Renewed(Renewed(ss[i])) == Renewed(ss[i]) && Renewed(ss[i]).id == ss[i].id
    {
      RenewTwice(ss[i]);
    }
    forall i | 0 <= i < |ss| && RenewAll(ss)[i].id == EXPORT_SECTION
      ensures PrivateExports(RenewAll(ss)[i].payload).Some?
    {
      PrivateExportsIdempotent(ss[i].payload);
    }
    SameIds(ss, RenewAll(ss));
  }

  lemma {:induction false} SameIds(a: seq<Section>, b: seq<Section>)
    requires |a| == |b| && forall i :: 0 <= i < |a| ==> a[i].id == b[i].id
    ensures Exporting(a) == Exporting(b)
  {
    if a != [] { SameIds(a[1..], b[1..]); }
  }

  /** Rewriting a rewritten module gives it back unchanged. */
  lemma PrivateModuleIdempotent(m: seq<byte>)
    requires PrivateModule(m).Some?
    ensures PrivateModule(PrivateModule(m).value) == PrivateModule(m)
  {
    var o := PrivateModule(m).value;
    PrivateModuleIs(m);
    var ss := Sections(m).value;
    RenewedAccepted(ss);
    RewriteIs(ss, false);
    RewriteIs(RenewAll(ss), false);
    hide ParseSections;
    hide Rewrite;
    hide ExportsAccepted;
    hide RenewAll;
  }
}
