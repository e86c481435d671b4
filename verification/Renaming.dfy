/**
 Structural comparison of trees up to a bijection of identities: one pass over both trees threads two
 dictionaries that pair each identity on the left with one on the right.
 */
module Renaming {
  import opened Digits
  import opened Patterns

  datatype Tree = Atom(text: string) | Node(kids: seq<Tree>)

  /** An identity: the number of a read place, or a bound name with its number. */
  type Key = seq<string>

  type Pairing = map<Key, Key>

  /** Which identities are renamed: those of unfinalized reads, or those of variable bindings. */
  datatype Style = Reads | Bindings

  /** An identity node: what must agree exactly, and the identity if it is written as a number. */
  datatype Leaf = Leaf(context: Tree, key: Option<Key>)

  const READ := Atom("UnfinalizedReadKind")
  const KIND := Atom(":preliminary_kind")
  const ID := Atom(":id")
  const VAR := Atom("VarIdent")
  const DISAMBIGUATE := Atom("VarIdentDisambiguate")
  const RUSTC := Atom("RustcId")

  predicate Decimal(t: Tree) { t.Atom? && Numeral(t.text) }

  predicate IsRead(t: Tree) {
    t.Node? && |t.kids| == 5 && t.kids[0] == READ && t.kids[1] == KIND && t.kids[3] == ID
  }

  predicate IsBinding(t: Tree) {
    && t.Node? && |t.kids| == 3 && t.kids[0] == VAR && t.kids[1].Atom?
    && t.kids[2].Node? && |t.kids[2].kids| == 3 && t.kids[2].kids[0] == DISAMBIGUATE && t.kids[2].kids[1] == RUSTC
    && Decimal(t.kids[2].kids[2])
  }

  function LeafOf(style: Style, t: Tree): Option<Leaf> {
    match style
    case Reads =>
      if IsRead(t) then Some(Leaf(t.kids[2], if Decimal(t.kids[4]) then Some([t.kids[4].text]) else None)) else None
    case Bindings =>
      if IsBinding(t) then Some(Leaf(t.kids[1], Some([t.kids[1].text, t.kids[2].kids[2].text]))) else None
  }

  /** A read place, with the kind it was written with and its number. */
  function Read(kind: Tree, id: Tree): Tree {
    Node([Atom("UnfinalizedReadKind"), Atom(":preliminary_kind"), kind, Atom(":id"), id])
  }

  /** A variable with the number that tells it from others of its name. */
  function Binding(name: string, id: string): Tree {
    Node([Atom("VarIdent"), Atom(name), Node([Atom("VarIdentDisambiguate"), Atom("RustcId"), Atom(id)])])
  }

  /** Under either style the identity nodes are exactly these. */
  lemma LeavesAre(t: Tree)
    ensures LeafOf(Reads, t).Some? <==> exists kind, id :: t == Read(kind, id)
    ensures LeafOf(Bindings, t).Some? <==> exists name, id :: t == Binding(name, id) && Numeral(id)
    ensures forall kind, id :: t == Read(kind, id) ==>
      LeafOf(Reads, t) == Some(Leaf(kind, if id.Atom? && Numeral(id.text) then Some([id.text]) else None))
    ensures forall name, id :: t == Binding(name, id) && Numeral(id) ==>
      LeafOf(Bindings, t) == Some(Leaf(Atom(name), Some([name, id])))
  {
    if IsRead(t) {
      assert t.kids == [t.kids[0], t.kids[1], t.kids[2], t.kids[3], t.kids[4]];
      assert t == Read(t.kids[2], t.kids[4]);
    }
    if IsBinding(t) {
      var ks := t.kids[2].kids;
      assert ks == [ks[0], ks[1], ks[2]];
      assert t.kids == [t.kids[0], t.kids[1], t.kids[2]];
      assert t == Binding(t.kids[1].text, ks[2].text);
    }
  }

  /** Two reads are related when their kinds agree and the pairing maps the one number to the other. */
  lemma ReadsRelate(m: Pairing, kind: Tree, a: string, other: Tree, b: string)
    requires Numeral(a) && Numeral(b)
    ensures Related(Reads, None, m, Read(kind, Atom(a)), Read(other, Atom(b))) <==>
      kind == other && [a] in m && m[[a]] == [b]
  {
    LeavesAre(Read(kind, Atom(a)));
    LeavesAre(Read(other, Atom(b)));
  }

  /** Two bindings, when they have one name and the pairing maps name and number to name and number. */
  lemma BindingsRelate(m: Pairing, name: string, a: string, other: string, b: string)
    requires Numeral(a) && Numeral(b)
    ensures Related(Bindings, None, m, Binding(name, a), Binding(other, b)) <==>
      name == other && [name, a] in m && m[[name, a]] == [other, b]
  {
    LeavesAre(Binding(name, a));
    LeavesAre(Binding(other, b));
  }

  /** Two nodes compared as identities rather than child by child. */
  predicate Paired(style: Style, l: Tree, r: Tree) {
    LeafOf(style, l).Some? && (style.Bindings? || LeafOf(style, r).Some?)
  }

  /** Two identity nodes that agree but for their identities. */
  predicate Alike(style: Style, l: Tree, r: Tree) {
    var a, b := LeafOf(style, l), LeafOf(style, r);
    a.Some? && b.Some? && a.value.context == b.value.context && a.value.key.Some? && b.value.key.Some?
  }

  function KeyOf(style: Style, t: Tree): Key
    requires LeafOf(style, t).Some? && LeafOf(style, t).value.key.Some?
  {
    LeafOf(style, t).value.key.value
  }

  /** A pair of trees that stand for each other as a whole. */
  type Identity = Option<(Tree, Tree)>

  predicate Touches(identity: Identity, l: Tree, r: Tree) {
    identity.Some? && (l == identity.value.0 || r == identity.value.1)
  }

  // ---------------------------------------------------------------- the relation

  /** Renaming identities by `m` turns the left tree into the right one. */
  predicate Related(style: Style, identity: Identity, m: Pairing, l: Tree, r: Tree)
    decreases l
  {
    if Touches(identity, l, r) then (l, r) == identity.value
    else if Paired(style, l, r) then
      Alike(style, l, r) && KeyOf(style, l) in m && m[KeyOf(style, l)] == KeyOf(style, r)
    else if l.Node? && r.Node? then
      |l.kids| == |r.kids| && forall i :: 0 <= i < |l.kids| ==> Related(style, identity, m, l.kids[i], r.kids[i])
    else l == r
  }

  predicate Injective(m: Pairing) { forall a, b :: a in m && b in m && m[a] == m[b] ==> a == b }

  /** Every pair of `m` is a pair of `n`. */
  predicate Within(m: Pairing, n: Pairing) { forall a :: a in m ==> a in n && n[a] == m[a] }

  // ---------------------------------------------------------------- the walk

  /** Pairing two identities: both known to each other, or both new. */
  function Meet(m: Pairing, a: Key, b: Key): Option<Pairing> {
    if a in m then (if m[a] == b then Some(m) else None)
    else if b in m.Values then None
    else Some(m[a := b])
  }

  function Walk(style: Style, identity: Identity, m: Pairing, l: Tree, r: Tree): Option<Pairing>
    decreases l, 0
  {
    if Touches(identity, l, r) then (if (l, r) == identity.value then Some(m) else None)
    else if Paired(style, l, r) then
      if Alike(style, l, r) then Meet(m, KeyOf(style, l), KeyOf(style, r)) else None
    else if l.Node? && r.Node? then
      if |l.kids| == |r.kids| then WalkKids(style, identity, m, l.kids, r.kids) else None
    else if l == r then Some(m) else None
  }

  function WalkKids(style: Style, identity: Identity, m: Pairing, ls: seq<Tree>, rs: seq<Tree>): Option<Pairing>
    requires |ls| == |rs|
    decreases ls, 1
  {
    if ls == [] then Some(m) else
      var k := |ls| - 1;
      match WalkKids(style, identity, m, ls[..k], rs[..k])
      case None => None
      case Some(n) => Walk(style, identity, n, ls[k], rs[k])
  }

  predicate AllRelated(style: Style, identity: Identity, m: Pairing, ls: seq<Tree>, rs: seq<Tree>) {
    |ls| == |rs| && forall i :: 0 <= i < |ls| ==> Related(style, identity, m, ls[i], rs[i])
  }

  /** A larger pairing relates whatever a smaller one does. */
  lemma {:induction false} RelatedGrows(style: Style, identity: Identity, m: Pairing, n: Pairing, l: Tree, r: Tree)
    requires Within(m, n) && Related(style, identity, m, l, r)
    ensures Related(style, identity, n, l, r)
    decreases l
  {
    hide LeafOf;
    hide Paired;
    if !Touches(identity, l, r) && !Paired(style, l, r) && l.Node? && r.Node? {
      forall i | 0 <= i < |l.kids|
        ensures Related(style, identity, n, l.kids[i], r.kids[i])
      {
        RelatedGrows(style, identity, m, n, l.kids[i], r.kids[i]);
      }
    }
  }

  lemma MeetGives(m: Pairing, a: Key, b: Key)
    requires Injective(m) && Meet(m, a, b).Some?
    ensures var n := Meet(m, a, b).value; Within(m, n) && Injective(n) && a in n && n[a] == b
  {
    var n := Meet(m, a, b).value;
    if a !in m { assert forall x :: x in m ==> m[x] in m.Values; }
  }

  lemma MeetReaches(m: Pairing, rho: Pairing, a: Key, b: Key)
    requires Injective(rho) && Within(m, rho) && a in rho && rho[a] == b
    ensures Meet(m, a, b).Some? && Within(Meet(m, a, b).value, rho)
  {
    if b in m.Values {
      var x :| x in m && m[x] == b;
      assert rho[x] == rho[a];
    }
  }

  /** Soundness: a successful walk extends the pairing, keeps it injective, and relates the trees. */
  lemma {:induction false} WalkGives(style: Style, identity: Identity, m: Pairing, l: Tree, r: Tree)
    requires Injective(m) && Walk(style, identity, m, l, r).Some?
    ensures var n := Walk(style, identity, m, l, r).value;
      Within(m, n) && Injective(n) && Related(style, identity, n, l, r)
    decreases l, 0
  {
    hide LeafOf;
    hide Paired;
    hide Injective;
    hide Within;
    Refl(m);
    if !Touches(identity, l, r) {
      if Paired(style, l, r) {
        MeetGives(m, KeyOf(style, l), KeyOf(style, r));
        hide Alike;
        assert Within(m, Walk(style, identity, m, l, r).value);
      }
      else if l.Node? && r.Node? { WalkKidsGives(style, identity, m, l.kids, r.kids); }
    }
  }

  lemma Refl(m: Pairing)
    ensures Within(m, m)
  {
  }

  lemma {:induction false} WalkKidsGives(style: Style, identity: Identity, m: Pairing, ls: seq<Tree>, rs: seq<Tree>)
    requires |ls| == |rs| && Injective(m) && WalkKids(style, identity, m, ls, rs).Some?
    ensures var n := WalkKids(style, identity, m, ls, rs).value;
      Within(m, n) && Injective(n) && AllRelated(style, identity, n, ls, rs)
    decreases ls, 1
  {
    hide Walk;
    hide Injective;
    hide Related;
    if ls != [] {
      var k := |ls| - 1;
      WalkKidsGives(style, identity, m, ls[..k], rs[..k]);
      var p := WalkKids(style, identity, m, ls[..k], rs[..k]).value;
      WalkGives(style, identity, p, ls[k], rs[k]);
      var n := Walk(style, identity, p, ls[k], rs[k]).value;
      forall i | 0 <= i < |ls|
        ensures Related(style, identity, n, ls[i], rs[i])
      {
        if i < k {
          assert Related(style, identity, p, ls[..k][i], rs[..k][i]);
          RelatedGrows(style, identity, p, n, ls[i], rs[i]);
        }
      }
    }
  }

  /** Completeness: if any injective extension relates the trees, the walk succeeds within it. */
  lemma {:induction false} WalkReaches(style: Style, identity: Identity, m: Pairing, rho: Pairing, l: Tree, r: Tree)
    requires Injective(rho) && Within(m, rho) && Related(style, identity, rho, l, r)
    ensures Walk(style, identity, m, l, r).Some? && Within(Walk(style, identity, m, l, r).value, rho)
    decreases l, 0
  {
    hide LeafOf;
    hide Paired;
    hide Injective;
    hide Within;
    if !Touches(identity, l, r) {
      if Paired(style, l, r) { MeetReaches(m, rho, KeyOf(style, l), KeyOf(style, r)); }
      else if l.Node? && r.Node? { WalkKidsReaches(style, identity, m, rho, l.kids, r.kids); }
    }
  }

  lemma {:induction false} WalkKidsReaches(style: Style, identity: Identity, m: Pairing, rho: Pairing,
                                           ls: seq<Tree>, rs: seq<Tree>)
    requires Injective(rho) && Within(m, rho) && AllRelated(style, identity, rho, ls, rs)
    ensures WalkKids(style, identity, m, ls, rs).Some? && Within(WalkKids(style, identity, m, ls, rs).value, rho)
    decreases ls, 1
  {
    hide Walk;
    hide Injective;
    hide Related;
    hide Within;
    if ls != [] {
      var k := |ls| - 1;
      WalkKidsReaches(style, identity, m, rho, ls[..k], rs[..k]);
      WalkReaches(style, identity, WalkKids(style, identity, m, ls[..k], rs[..k]).value, rho, ls[k], rs[k]);
    }
  }

  /**
   From any injective pairing: the walk succeeds exactly when an injective extension relates the trees, and
   finds the least.
   */
  lemma WalkIffRelated(style: Style, identity: Identity, m: Pairing, l: Tree, r: Tree)
    requires Injective(m)
    ensures Walk(style, identity, m, l, r).Some? <==>
      exists rho: Pairing :: Injective(rho) && Within(m, rho) && Related(style, identity, rho, l, r)
    ensures Walk(style, identity, m, l, r).Some? ==>
      var n := Walk(style, identity, m, l, r).value;
      && Injective(n) && Within(m, n) && Related(style, identity, n, l, r)
      && forall rho: Pairing :: Injective(rho) && Within(m, rho) && Related(style, identity, rho, l, r) ==>
        Within(n, rho)
  {
    hide Walk;
    hide Related;
    hide Within;
    hide Injective;
    if Walk(style, identity, m, l, r).Some? { WalkGives(style, identity, m, l, r); }
    forall rho: Pairing | Injective(rho) && Within(m, rho) && Related(style, identity, rho, l, r)
      ensures Walk(style, identity, m, l, r).Some? && Within(Walk(style, identity, m, l, r).value, rho)
    {
      WalkReaches(style, identity, m, rho, l, r);
    }
  }

  // ---------------------------------------------------------------- many fields, one pairing

  /** Two trees to compare, with the pair of trees that stand for each other in this field. */
  datatype Field = Field(identity: Identity, left: Tree, right: Tree)

  predicate FieldsRelated(style: Style, m: Pairing, fs: seq<Field>) {
    forall i :: 0 <= i < |fs| ==> Related(style, fs[i].identity, m, fs[i].left, fs[i].right)
  }

  /** The fields compared one after the other with the same dictionaries. */
  function WalkFields(style: Style, m: Pairing, fs: seq<Field>): Option<Pairing> {
    if fs == [] then Some(m) else
      var k := |fs| - 1;
      match WalkFields(style, m, fs[..k])
      case None => None
      case Some(n) => Walk(style, fs[k].identity, n, fs[k].left, fs[k].right)
  }

  lemma {:induction false} WalkFieldsGives(style: Style, m: Pairing, fs: seq<Field>)
    requires Injective(m) && WalkFields(style, m, fs).Some?
    ensures var n := WalkFields(style, m, fs).value; Within(m, n) && Injective(n) && FieldsRelated(style, n, fs)
  {
    hide Walk;
    hide Injective;
    hide Related;
    if fs != [] {
      var k := |fs| - 1;
      WalkFieldsGives(style, m, fs[..k]);
      var p, f := WalkFields(style, m, fs[..k]).value, fs[k];
      WalkGives(style, f.identity, p, f.left, f.right);
      var n := Walk(style, f.identity, p, f.left, f.right).value;
      forall i | 0 <= i < |fs|
        ensures Related(style, fs[i].identity, n, fs[i].left, fs[i].right)
      {
        if i < k {
          assert fs[..k][i] == fs[i];
          RelatedGrows(style, fs[i].identity, p, n, fs[i].left, fs[i].right);
        }
      }
    }
  }

  lemma {:induction false} WalkFieldsReaches(style: Style, m: Pairing, rho: Pairing, fs: seq<Field>)
    requires Injective(rho) && Within(m, rho) && FieldsRelated(style, rho, fs)
    ensures WalkFields(style, m, fs).Some? && Within(WalkFields(style, m, fs).value, rho)
  {
    hide Walk;
    hide Injective;
    hide Related;
    hide Within;
    if fs != [] {
      var k := |fs| - 1;
      assert forall i :: 0 <= i < k ==> fs[..k][i] == fs[i];
      WalkFieldsReaches(style, m, rho, fs[..k]);
      WalkReaches(style, fs[k].identity, WalkFields(style, m, fs[..k]).value, rho, fs[k].left, fs[k].right);
    }
  }

  /**
   Sharing the dictionaries over all fields succeeds exactly when one injective pairing relates every field,
   and finds the least.
   */
  lemma FieldsIffRelated(style: Style, m: Pairing, fs: seq<Field>)
    requires Injective(m)
    ensures WalkFields(style, m, fs).Some? <==>
      exists rho: Pairing :: Injective(rho) && Within(m, rho) && FieldsRelated(style, rho, fs)
    ensures WalkFields(style, m, fs).Some? ==>
      var n := WalkFields(style, m, fs).value;
      && Injective(n) && Within(m, n) && FieldsRelated(style, n, fs)
      && forall rho: Pairing :: Injective(rho) && Within(m, rho) && FieldsRelated(style, rho, fs) ==> Within(n, rho)
  {
    hide WalkFields;
    hide FieldsRelated;
    hide Within;
    hide Injective;
    if WalkFields(style, m, fs).Some? { WalkFieldsGives(style, m, fs); }
    forall rho: Pairing | Injective(rho) && Within(m, rho) && FieldsRelated(style, rho, fs)
      ensures WalkFields(style, m, fs).Some? && Within(WalkFields(style, m, fs).value, rho)
    {
      WalkFieldsReaches(style, m, rho, fs);
    }
  }

  /** A field, and whether it is the result binder of a function whose contract was removed. */
  datatype Slot = Slot(field: Field, released: bool)

  const PARAM := Atom("Param")
  const NAME := Atom(":name")
  const RESULT := Atom("\"result\"")
  const RETURN := Node([VAR, Atom("\"%return\""), Node([DISAMBIGUATE, Atom("AirLocal")])])

  /** A named ghost result on the left, the unnamed one on the right. */
  predicate IsReleased(l: Tree, r: Tree) {
    && l.Node? && r.Node? && |l.kids| >= 3 && |r.kids| >= 3
    && l.kids[0] == r.kids[0] == PARAM && l.kids[1] == r.kids[1] == NAME
    && l.kids[2].Node? && |l.kids[2].kids| >= 2 && l.kids[2].kids[0] == VAR && l.kids[2].kids[1] == RESULT
    && r.kids[2] == RETURN
  }

  /** What is compared of a field: of a released binder only what follows the name. */
  function Compared(slot: Slot): Option<Field> {
    var f := slot.field;
    if !slot.released then Some(f)
    else if IsReleased(f.left, f.right) then Some(Field(f.identity, Node(f.left.kids[3..]), Node(f.right.kids[3..])))
    else None
  }

  /** A parameter that begins with this name. */
  function Param(name: Tree, rest: seq<Tree>): Tree { Node([Atom("Param"), Atom(":name"), name] + rest) }

  function ResultName(more: seq<Tree>): Tree { Node([Atom("VarIdent"), Atom("\"result\"")] + more) }

  function ReturnName(): Tree {
    Node([Atom("VarIdent"), Atom("\"%return\""), Node([Atom("VarIdentDisambiguate"), Atom("AirLocal")])])
  }

  /** A released binder is `result` on the left and the unnamed return on the right; what follows is compared. */
  lemma ReleasedIs(f: Field, g: Field)
    ensures Compared(Slot(f, true)) == Some(g) <==>
      exists more, ls, rs :: f == Field(g.identity, Param(ResultName(more), ls), Param(ReturnName(), rs))
        && g.left == Node(ls) && g.right == Node(rs)
  {
    if Compared(Slot(f, true)) == Some(g) {
      var l, r := f.left.kids, f.right.kids;
      var n := l[2].kids;
      assert n == [n[0], n[1]] + n[2..];
      assert l == [l[0], l[1], l[2]] + l[3..] && r == [r[0], r[1], r[2]] + r[3..];
      assert f == Field(g.identity, Param(ResultName(n[2..]), l[3..]), Param(ReturnName(), r[3..]));
    }
    forall more, ls, rs |
      f == Field(g.identity, Param(ResultName(more), ls), Param(ReturnName(), rs)) && g.left == Node(ls)
        && g.right == Node(rs)
      ensures Compared(Slot(f, true)) == Some(g)
    {
      assert f.left.kids[3..] == ls && f.right.kids[3..] == rs;
    }
  }

  function AllCompared(slots: seq<Slot>): Option<seq<Field>> {
    if slots == [] then Some([]) else
      var k := |slots| - 1;
      match AllCompared(slots[..k])
      case None => None
      case Some(fs) =>
        match Compared(slots[k])
        case None => None
        case Some(f) => Some(fs + [f])
  }

  /** The verdict on a mutation: all other fields agree, and a changed one does not agree with them. */
  function OnlyChanged(style: Style, slots: seq<Slot>, changed: Option<(Tree, Tree)>): bool {
    match AllCompared(slots)
    case None => false
    case Some(fs) =>
      var n := WalkFields(style, map[], fs);
      n.Some? && (changed.Some? ==> Walk(style, None, n.value, changed.value.0, changed.value.1).None?)
  }

  /** The verdict means: some injective pairing relates all other fields, but none relates them and the changed one. */
  lemma OnlyChangedMeans(style: Style, slots: seq<Slot>, changed: Option<(Tree, Tree)>)
    ensures OnlyChanged(style, slots, changed) <==>
      && AllCompared(slots).Some?
      && var fs := AllCompared(slots).value;
      && (exists rho: Pairing :: Injective(rho) && FieldsRelated(style, rho, fs))
      && (changed.Some? ==>
          !(exists rho: Pairing ::
            && Injective(rho) && FieldsRelated(style, rho, fs)
            && Related(style, None, rho, changed.value.0, changed.value.1)))
    ensures AllCompared(slots).Some? <==>
      forall k :: 0 <= k < |slots| && slots[k].released ==> IsReleased(slots[k].field.left, slots[k].field.right)
  {
    AllComparedIs(slots);
    hide IsReleased;
    hide Compared;
    hide AllCompared;
    hide WalkFields;
    hide Walk;
    hide FieldsRelated;
    hide Related;
    if AllCompared(slots).Some? {
      var fs := AllCompared(slots).value;
      var empty: Pairing := map[];
      FieldsIffRelated(style, empty, fs);
      assert forall rho: Pairing :: Within(empty, rho);
      if WalkFields(style, empty, fs).Some? && changed.Some? {
        var n := WalkFields(style, empty, fs).value;
        WalkIffRelated(style, None, n, changed.value.0, changed.value.1);
        forall rho: Pairing | Injective(rho) && Within(n, rho)
          ensures FieldsRelated(style, rho, fs)
        {
          FieldsGrow(style, n, rho, fs);
        }
      }
    }
  }

  /** Every slot is compared, a released one only if it has the released form. */
  lemma {:induction false} AllComparedIs(slots: seq<Slot>)
    ensures AllCompared(slots).Some? <==>
      forall k :: 0 <= k < |slots| && slots[k].released ==> IsReleased(slots[k].field.left, slots[k].field.right)
    ensures AllCompared(slots).Some? ==>
      && |AllCompared(slots).value| == |slots|
      && forall k :: 0 <= k < |slots| ==> Compared(slots[k]) == Some(AllCompared(slots).value[k])
  {
    hide IsReleased;
    if slots != [] {
      var n := |slots| - 1;
      AllComparedIs(slots[..n]);
      assert forall k :: 0 <= k < n ==> slots[..n][k] == slots[k];
    }
  }

  lemma FieldsGrow(style: Style, m: Pairing, n: Pairing, fs: seq<Field>)
    requires Within(m, n) && FieldsRelated(style, m, fs)
    ensures FieldsRelated(style, n, fs)
  {
    hide Related;
    forall i | 0 <= i < |fs|
      ensures Related(style, fs[i].identity, n, fs[i].left, fs[i].right)
    {
      RelatedGrows(style, fs[i].identity, m, n, fs[i].left, fs[i].right);
    }
  }

  // ---------------------------------------------------------------- renaming as a function on trees

  /** The node with another identity in its place. */
  function WithKey(style: Style, t: Tree, key: Key): Tree
    requires LeafOf(style, t).Some? && key != []
  {
    match style
    case Reads => Node(t.kids[4 := Atom(key[0])])
    case Bindings => Node(t.kids[2 := Node(t.kids[2].kids[2 := Atom(key[|key| - 1])])])
  }

  /** One pair renames a number to a number, and keeps a bound name. */
  predicate Renames(style: Style, a: Key, b: Key) {
    match style
    case Reads => |a| == |b| == 1 && Numeral(a[0]) && Numeral(b[0])
    case Bindings => |a| == |b| == 2 && a[0] == b[0] && Numeral(a[1]) && Numeral(b[1])
  }

  predicate Proper(style: Style, m: Pairing) { forall a :: a in m ==> Renames(style, a, m[a]) }

  /** Every identity node of the tree has an identity that the renaming covers. */
  predicate Covers(style: Style, m: Pairing, t: Tree) {
    var leaf := LeafOf(style, t);
    if leaf.Some? then leaf.value.key.Some? && leaf.value.key.value in m
    else t.Node? ==> forall i :: 0 <= i < |t.kids| ==> Covers(style, m, t.kids[i])
  }

  /** Every identity of the tree replaced. */
  function Rename(style: Style, m: Pairing, t: Tree): Tree
    requires Proper(style, m) && Covers(style, m, t)
    decreases t
  {
    if LeafOf(style, t).Some? then
      assert Renames(style, KeyOf(style, t), m[KeyOf(style, t)]);
      WithKey(style, t, m[KeyOf(style, t)])
    else if t.Node? then Node(seq(|t.kids|, i requires 0 <= i < |t.kids| => Rename(style, m, t.kids[i])))
    else t
  }

  /** An identity node whose identity is replaced is an identity node with that identity, and no other is. */
  lemma WithKeyIs(style: Style, l: Tree, r: Tree, key: Key)
    requires LeafOf(style, l).Some? && LeafOf(style, l).value.key.Some? && Renames(style, KeyOf(style, l), key)
    ensures WithKey(style, l, key) == r <==> Alike(style, l, r) && KeyOf(style, r) == key
  {
    match style
    case Reads => if Alike(style, l, r) && KeyOf(style, r) == key { assert r.kids == l.kids[4 := Atom(key[0])]; }
    case Bindings =>
      if Alike(style, l, r) && KeyOf(style, r) == key {
        assert r.kids[2].kids == l.kids[2].kids[2 := Atom(key[1])];
        assert r.kids == l.kids[2 := r.kids[2]];
      }
  }

  /** An atom is related only to itself. */
  lemma AtomRelated(style: Style, m: Pairing, l: Tree, r: Tree)
    requires Related(style, None, m, l, r) && (l.Atom? || r.Atom?)
    ensures l == r
  {
  }

  lemma AtomsRelated(style: Style, m: Pairing, l: Tree, r: Tree, i: nat)
    requires l.Node? && r.Node? && !Paired(style, l, r) && Related(style, None, m, l, r) && i < |l.kids|
    ensures i < |r.kids| && (l.kids[i].Atom? || r.kids[i].Atom? ==> l.kids[i] == r.kids[i])
  {
    assert Related(style, None, m, l.kids[i], r.kids[i]);
    if l.kids[i].Atom? || r.kids[i].Atom? { AtomRelated(style, m, l.kids[i], r.kids[i]); }
  }

  /** Related trees are identity nodes together. */
  lemma ShapeKept(style: Style, m: Pairing, l: Tree, r: Tree)
    requires Related(style, None, m, l, r)
    ensures LeafOf(style, l).Some? <==> LeafOf(style, r).Some?
  {
    if !Paired(style, l, r) && l.Node? && r.Node? {
      if style.Reads? { ReadShape(m, l, r); } else { BindingShape(m, l, r); }
    }
  }

  lemma ReadShape(m: Pairing, l: Tree, r: Tree)
    requires Related(Reads, None, m, l, r) && !Paired(Reads, l, r) && l.Node? && r.Node?
    ensures IsRead(l) <==> IsRead(r)
  {
    assert |l.kids| == |r.kids|;
    if |l.kids| == 5 {
      AtomsRelated(Reads, m, l, r, 0);
      AtomsRelated(Reads, m, l, r, 1);
      AtomsRelated(Reads, m, l, r, 3);
    }
  }

  lemma BindingShape(m: Pairing, l: Tree, r: Tree)
    requires Related(Bindings, None, m, l, r) && !Paired(Bindings, l, r) && l.Node? && r.Node?
    ensures IsBinding(l) <==> IsBinding(r)
  {
    assert |l.kids| == |r.kids|;
    if IsBinding(r) {
      AtomsRelated(Bindings, m, l, r, 0);
      AtomsRelated(Bindings, m, l, r, 1);
      var x, y := l.kids[2], r.kids[2];
      assert Related(Bindings, None, m, x, y);
      if x.Node? {
        NotBinding(y);
        assert !Paired(Bindings, x, y);
        AtomsRelated(Bindings, m, x, y, 0);
        AtomsRelated(Bindings, m, x, y, 1);
        AtomsRelated(Bindings, m, x, y, 2);
      }
    }
  }

  lemma NotBinding(y: Tree)
    requires y.Node? && |y.kids| == 3 && y.kids[0] == DISAMBIGUATE
    ensures !IsBinding(y)
  {
    assert |VAR.text| == 8 && |DISAMBIGUATE.text| == 20;
  }

  /** Being related is being the renamed tree. */
  lemma {:induction false} RelatedIffRenamed(style: Style, m: Pairing, l: Tree, r: Tree)
    requires Proper(style, m)
    ensures Related(style, None, m, l, r) <==> Covers(style, m, l) && Rename(style, m, l) == r
    decreases l
  {
    if LeafOf(style, l).Some? {
      LeafIffRenamed(style, m, l, r);
    } else if l.Node? && r.Node? && |l.kids| == |r.kids| {
      hide LeafOf;
      forall i | 0 <= i < |l.kids|
        ensures Related(style, None, m, l.kids[i], r.kids[i]) <==>
          Covers(style, m, l.kids[i]) && Rename(style, m, l.kids[i]) == r.kids[i]
      {
        RelatedIffRenamed(style, m, l.kids[i], r.kids[i]);
      }
      if Covers(style, m, l) && Rename(style, m, l) == r {
        assert forall i :: 0 <= i < |l.kids| ==> Rename(style, m, l).kids[i] == Rename(style, m, l.kids[i]);
      }
      if Related(style, None, m, l, r) {
        assert Covers(style, m, l);
        assert Rename(style, m, l).kids == r.kids;
      }
    }
  }

  lemma LeafIffRenamed(style: Style, m: Pairing, l: Tree, r: Tree)
    requires Proper(style, m) && LeafOf(style, l).Some?
    ensures Related(style, None, m, l, r) <==> Covers(style, m, l) && Rename(style, m, l) == r
  {
    if Related(style, None, m, l, r) { ShapeKept(style, m, l, r); }
    hide LeafOf;
    hide WithKey;
    if Covers(style, m, l) {
      var key := m[KeyOf(style, l)];
      assert Renames(style, KeyOf(style, l), key);
      WithKeyIs(style, l, r, key);
    }
  }

  lemma AlikeRenames(style: Style, l: Tree, r: Tree)
    requires Alike(style, l, r)
    ensures Renames(style, KeyOf(style, l), KeyOf(style, r))
  {
  }

  lemma {:induction false} WalkProper(style: Style, identity: Identity, m: Pairing, l: Tree, r: Tree)
    requires Proper(style, m) && Walk(style, identity, m, l, r).Some?
    ensures Proper(style, Walk(style, identity, m, l, r).value)
    decreases l, 0
  {
    hide LeafOf;
    hide Paired;
    hide Alike;
    hide Renames;
    if !Touches(identity, l, r) {
      if Paired(style, l, r) { AlikeRenames(style, l, r); }
      else if l.Node? && r.Node? { WalkKidsProper(style, identity, m, l.kids, r.kids); }
    }
  }

  lemma {:induction false} WalkKidsProper(style: Style, identity: Identity, m: Pairing, ls: seq<Tree>, rs: seq<Tree>)
    requires |ls| == |rs| && Proper(style, m) && WalkKids(style, identity, m, ls, rs).Some?
    ensures Proper(style, WalkKids(style, identity, m, ls, rs).value)
    decreases ls, 1
  {
    hide Walk;
    hide Proper;
    if ls != [] {
      var k := |ls| - 1;
      WalkKidsProper(style, identity, m, ls[..k], rs[..k]);
      WalkProper(style, identity, WalkKids(style, identity, m, ls[..k], rs[..k]).value, ls[k], rs[k]);
    }
  }

  // ---------------------------------------------------------------- sameness

  /** The comparison from empty dictionaries. */
  predicate Same(style: Style, l: Tree, r: Tree) { Walk(style, None, map[], l, r).Some? }

  /** Trees are the same exactly when some injective renaming of identities turns one into the other. */
  lemma SameIffRenaming(style: Style, l: Tree, r: Tree)
    ensures Same(style, l, r) <==>
      exists rho: Pairing :: Injective(rho) && Proper(style, rho) && Covers(style, rho, l) && Rename(style, rho, l) == r
  {
    hide Walk;
    hide Related;
    hide Covers;
    hide Rename;
    WalkIffRelated(style, None, map[], l, r);
    if Same(style, l, r) {
      var n := Walk(style, None, map[], l, r).value;
      WalkProper(style, None, map[], l, r);
      RelatedIffRenamed(style, n, l, r);
    }
    if rho: Pairing :| Injective(rho) && Proper(style, rho) && Covers(style, rho, l) && Rename(style, rho, l) == r {
      RelatedIffRenamed(style, rho, l, r);
    }
  }

  /** Every identity node of the tree is numbered. */
  predicate WellFormed(style: Style, t: Tree) {
    var leaf := LeafOf(style, t);
    if leaf.Some? then leaf.value.key.Some?
    else t.Node? ==> forall i :: 0 <= i < |t.kids| ==> WellFormed(style, t.kids[i])
  }

  predicate Fixed(m: Pairing) { forall a :: a in m ==> m[a] == a }

  lemma {:induction false} WalkSelf(style: Style, m: Pairing, t: Tree)
    requires Fixed(m)
    ensures Walk(style, None, m, t, t).Some? <==> WellFormed(style, t)
    ensures Walk(style, None, m, t, t).Some? ==> Fixed(Walk(style, None, m, t, t).value)
    decreases t, 0
  {
    hide LeafOf;
    if LeafOf(style, t).Some? {
      if LeafOf(style, t).value.key.Some? { MeetSelf(m, KeyOf(style, t)); }
    } else if t.Node? { WalkKidsSelf(style, m, t.kids); }
  }

  lemma MeetSelf(m: Pairing, a: Key)
    requires Fixed(m)
    ensures Meet(m, a, a).Some? && Fixed(Meet(m, a, a).value)
  {
  }

  lemma {:induction false} WalkKidsSelf(style: Style, m: Pairing, ts: seq<Tree>)
    requires Fixed(m)
    ensures WalkKids(style, None, m, ts, ts).Some? <==> forall i :: 0 <= i < |ts| ==> WellFormed(style, ts[i])
    ensures WalkKids(style, None, m, ts, ts).Some? ==> Fixed(WalkKids(style, None, m, ts, ts).value)
    decreases ts, 1
  {
    hide Walk;
    hide Fixed;
    hide WellFormed;
    if ts != [] {
      var k := |ts| - 1;
      WalkKidsSelf(style, m, ts[..k]);
      var front := WalkKids(style, None, m, ts[..k], ts[..k]);
      if front.Some? { WalkSelf(style, front.value, ts[k]); }
      assert (forall i :: 0 <= i < |ts| ==> WellFormed(style, ts[i])) <==>
        (forall i :: 0 <= i < k ==> WellFormed(style, ts[..k][i])) && WellFormed(style, ts[k]) by {
        if (forall i :: 0 <= i < k ==> WellFormed(style, ts[..k][i])) && WellFormed(style, ts[k]) {
          forall i | 0 <= i < |ts|
            ensures WellFormed(style, ts[i])
          {
            if i < k { assert ts[..k][i] == ts[i]; }
          }
        }
        if forall i :: 0 <= i < |ts| ==> WellFormed(style, ts[i]) {
          assert forall i :: 0 <= i < k ==> ts[..k][i] == ts[i];
        }
      }
    }
  }

  /** A tree is the same as itself exactly when all its identities are numbered. */
  lemma SameAsItself(style: Style, t: Tree)
    ensures Same(style, t, t) <==> WellFormed(style, t)
  {
    WalkSelf(style, map[], t);
  }

  /** A read whose identity is no number is not even the same as itself. */
  lemma UnnumberedDiffers(kind: Tree, id: Tree)
    requires !Decimal(id)
    ensures var t := Node([READ, KIND, kind, ID, id]); !Same(Reads, t, t)
  {
    var t := Node([READ, KIND, kind, ID, id]);
    assert IsRead(t) && t.kids[4] == id;
    SameAsItself(Reads, t);
  }

  function Inverse(m: Pairing): (n: Pairing)
    requires Injective(m)
    ensures Injective(n) && forall a :: a in m ==> m[a] in n && n[m[a]] == a
  {
    map a | a in m :: m[a] := a
  }

  lemma {:induction false} RelatedBack(style: Style, m: Pairing, l: Tree, r: Tree)
    requires Injective(m) && Related(style, None, m, l, r)
    ensures Related(style, None, Inverse(m), r, l)
    decreases l
  {
    ShapeKept(style, m, l, r);
    hide LeafOf;
    if !Paired(style, l, r) && l.Node? && r.Node? {
      forall i | 0 <= i < |l.kids|
        ensures Related(style, None, Inverse(m), r.kids[i], l.kids[i])
      {
        RelatedBack(style, m, l.kids[i], r.kids[i]);
      }
    }
  }

  function Compose(m: Pairing, n: Pairing): Pairing { map a | a in m && m[a] in n :: n[m[a]] }

  lemma {:induction false} RelatedThrough(style: Style, m: Pairing, n: Pairing, a: Tree, b: Tree, c: Tree)
    requires Related(style, None, m, a, b) && Related(style, None, n, b, c)
    ensures Related(style, None, Compose(m, n), a, c)
    decreases a
  {
    ShapeKept(style, m, a, b);
    ShapeKept(style, n, b, c);
    hide LeafOf;
    if !Paired(style, a, b) && a.Node? && b.Node? && c.Node? {
      forall i | 0 <= i < |a.kids|
        ensures Related(style, None, Compose(m, n), a.kids[i], c.kids[i])
      {
        RelatedThrough(style, m, n, a.kids[i], b.kids[i], c.kids[i]);
      }
    }
  }

  /** Sameness does not depend on the side. */
  lemma SameIsSymmetric(style: Style, l: Tree, r: Tree)
    ensures Same(style, l, r) <==> Same(style, r, l)
  {
    if Same(style, l, r) { SameTurns(style, l, r); }
    if Same(style, r, l) { SameTurns(style, r, l); }
  }

  lemma SameTurns(style: Style, l: Tree, r: Tree)
    requires Same(style, l, r)
    ensures Same(style, r, l)
  {
    hide Walk;
    WalkIffRelated(style, None, map[], l, r);
    WalkIffRelated(style, None, map[], r, l);
    RelatedBack(style, Walk(style, None, map[], l, r).value, l, r);
  }

  /** Sameness carries through a third tree. */
  lemma SameIsTransitive(style: Style, a: Tree, b: Tree, c: Tree)
    requires Same(style, a, b) && Same(style, b, c)
    ensures Same(style, a, c)
  {
    hide Walk;
    hide Related;
    WalkIffRelated(style, None, map[], a, b);
    WalkIffRelated(style, None, map[], b, c);
    WalkIffRelated(style, None, map[], a, c);
    var m, n := Walk(style, None, map[], a, b).value, Walk(style, None, map[], b, c).value;
    RelatedThrough(style, m, n, a, b, c);
    assert Injective(Compose(m, n));
  }

  // ---------------------------------------------------------------- the comparison in place

  /** The second dictionary is the first one turned round. */
  predicate Mutual(forward: Pairing, reverse: Pairing) {
    && (forall a :: a in forward ==> forward[a] in reverse && reverse[forward[a]] == a)
    && (forall b :: b in reverse ==> reverse[b] in forward && forward[reverse[b]] == b)
  }

  lemma MutualIsInjective(forward: Pairing, reverse: Pairing)
    requires Mutual(forward, reverse)
    ensures Injective(forward) && forall b :: b in reverse <==> b in forward.Values
  {
  }

  class Comparison {
    const style: Style
    var forward: Pairing
    var reverse: Pairing

    constructor (style: Style)
      ensures this.style == style && forward == map[] && reverse == map[]
    {
      this.style, forward, reverse := style, map[], map[];
    }

    /** Pairs two identities in both dictionaries, unless either is paired otherwise. */
    method Pair(a: Key, b: Key) returns (ok: bool)
      requires Mutual(forward, reverse)
      modifies this
      ensures Mutual(forward, reverse)
      ensures ok == Meet(old(forward), a, b).Some?
      ensures forward == if ok then Meet(old(forward), a, b).value else old(forward)
    {
      MutualIsInjective(forward, reverse);
      match style {
        case Reads =>
          if a in forward || b in reverse {
            return a in forward && forward[a] == b && b in reverse && reverse[b] == a;
          }
        case Bindings =>
          if (a in forward && forward[a] != b) || (b in reverse && reverse[b] != a) { return false; }
      }
      forward, reverse := forward[a := b], reverse[b := a];
      return true;
    }

    /**
     The comparison.  It succeeds exactly when the walk does, leaving the dictionaries at the walk's
     pairing; whatever the outcome, they stay each other's inverse.
     */
    method Compare(identity: Identity, l: Tree, r: Tree) returns (same: bool)
      requires Mutual(forward, reverse)
      modifies this
      ensures Mutual(forward, reverse)
      ensures same == Walk(style, identity, old(forward), l, r).Some?
      ensures same ==> forward == Walk(style, identity, old(forward), l, r).value
      decreases l, 0
    {
      hide LeafOf;
      hide Mutual;
      if identity.Some? && (l == identity.value.0 || r == identity.value.1) {
        return l == identity.value.0 && r == identity.value.1;
      }
      if Paired(style, l, r) {
        if !Alike(style, l, r) { return false; }
        same := Pair(KeyOf(style, l), KeyOf(style, r));
        return;
      }
      if l.Node? && r.Node? {
        if |l.kids| != |r.kids| { return false; }
        same := CompareKids(identity, l, r);
        return;
      }
      return l == r;
    }

    method CompareKids(identity: Identity, l: Tree, r: Tree) returns (same: bool)
      requires Mutual(forward, reverse) && l.Node? && r.Node? && |l.kids| == |r.kids|
      modifies this
      ensures Mutual(forward, reverse)
      ensures same == WalkKids(style, identity, old(forward), l.kids, r.kids).Some?
      ensures same ==> forward == WalkKids(style, identity, old(forward), l.kids, r.kids).value
      decreases l.kids, 1
    {
      hide Walk;
      hide Mutual;
      var i := 0;
      while i < |l.kids|
        invariant 0 <= i <= |l.kids| && Mutual(forward, reverse)
        invariant WalkKids(style, identity, old(forward), l.kids[..i], r.kids[..i]) == Some(forward)
      {
        assert l.kids[..i + 1][..i] == l.kids[..i] && r.kids[..i + 1][..i] == r.kids[..i];
        var ok := Compare(identity, l.kids[i], r.kids[i]);
        if !ok {
          WalkKidsStops(style, identity, old(forward), l.kids, r.kids, i + 1);
          return false;
        }
        i := i + 1;
      }
      assert l.kids[..i] == l.kids && r.kids[..i] == r.kids;
      return true;
    }

    /** All fields against the same dictionaries, stopping at the first that differs. */
    method CompareFields(fs: seq<Field>) returns (same: bool)
      requires Mutual(forward, reverse)
      modifies this
      ensures Mutual(forward, reverse)
      ensures same == WalkFields(style, old(forward), fs).Some?
      ensures same ==> forward == WalkFields(style, old(forward), fs).value
    {
      hide Walk;
      hide Mutual;
      var i := 0;
      while i < |fs|
        invariant 0 <= i <= |fs| && Mutual(forward, reverse)
        invariant WalkFields(style, old(forward), fs[..i]) == Some(forward)
      {
        assert fs[..i + 1][..i] == fs[..i];
        var ok := Compare(fs[i].identity, fs[i].left, fs[i].right);
        if !ok {
          WalkFieldsStops(style, old(forward), fs, i + 1);
          return false;
        }
        i := i + 1;
      }
      assert fs[..i] == fs;
      return true;
    }
  }

  lemma {:induction false} WalkFieldsStops(style: Style, m: Pairing, fs: seq<Field>, k: nat)
    requires k <= |fs| && WalkFields(style, m, fs[..k]).None?
    ensures WalkFields(style, m, fs).None?
    decreases |fs| - k
  {
    if k == |fs| { assert fs[..k] == fs; }
    else {
      assert fs[..k + 1][..k] == fs[..k];
      WalkFieldsStops(style, m, fs, k + 1);
    }
  }

  /** The attribution of one mutation: the other fields share dictionaries, a changed field gets copies. */
  method CoverageStructure(style: Style, slots: seq<Slot>, changed: Option<(Tree, Tree)>) returns (only: bool)
    ensures only == OnlyChanged(style, slots, changed)
  {
    var fs := AllCompared(slots);
    if fs.None? { return false; }
    var shared := new Comparison(style);
    var same := shared.CompareFields(fs.value);
    if !same { return false; }
    if changed.None? { return true; }
    var copy := new Comparison(style);
    copy.forward, copy.reverse := shared.forward, shared.reverse;
    var agrees := copy.Compare(None, changed.value.0, changed.value.1);
    return !agrees;
  }

  lemma {:induction false} WalkKidsStops(style: Style, identity: Identity, m: Pairing, ls: seq<Tree>,
                                         rs: seq<Tree>, k: nat)
    requires |ls| == |rs| && k <= |ls| && WalkKids(style, identity, m, ls[..k], rs[..k]).None?
    ensures WalkKids(style, identity, m, ls, rs).None?
    decreases |ls| - k
  {
    if k == |ls| { assert ls[..k] == ls && rs[..k] == rs; }
    else {
      assert ls[..k + 1][..k] == ls[..k] && rs[..k + 1][..k] == rs[..k];
      WalkKidsStops(style, identity, m, ls, rs, k + 1);
    }
  }
}
