/**
 Unsigned 32-bit integers in LEB128, as section 5.2.2 of the WebAssembly Core Specification 1.0
 defines them: seven bits per byte, least significant first, the top bit set on all but the last.
 */
module Leb {
  import opened Octets
  import opened Patterns

  const MAX: int := 0xffff_ffff

  /** The number a sequence of seven-bit groups denotes. */
  function Denoted(bs: seq<byte>): nat {
    if bs == [] then 0 else bs[0] % 128 + 128 * Denoted(bs[1..])
  }

  /** A complete encoding: continuation bits everywhere but on the last byte. */
  predicate Encoding(bs: seq<byte>) {
    && 1 <= |bs| <= 5 && bs[|bs| - 1] < 128 && Denoted(bs) < 0x1_0000_0000
    && forall i :: 0 <= i < |bs| - 1 ==> bs[i] >= 128
  }

  function Pow128(k: nat): (p: nat)
    ensures p >= 1
  {
    if k == 0 then 1 else 128 * Pow128(k - 1)
  }

  /** The contribution of the `k`th byte. */
  function Group(b: byte, k: nat): nat {
    assert Pow128(k) >= 1;
    b % 128 * Pow128(k)
  }

  datatype Read = Read(value: nat, next: nat)

  /** Reading with `k` bytes already taken, whose value is `value`. */
  function ReadFrom(data: seq<byte>, offset: nat, k: nat, value: nat): (r: Option<Read>)
    requires k <= 5
    ensures r.Some? ==> offset < r.value.next <= |data|
    decreases 5 - k
  {
    if k == 5 || offset >= |data| then None
    else
      var next := value + Group(data[offset], k);
      if next > MAX then None
      else if data[offset] < 128 then Some(Read(next, offset + 1))
      else ReadFrom(data, offset + 1, k + 1, next)
  }

  /** The 32-bit integer at an offset and the first unread offset, or a refusal. */
  function ReadU32(data: seq<byte>, offset: nat): (r: Option<Read>)
    ensures r.Some? ==> offset < r.value.next <= |data|
  {
    ReadFrom(data, offset, 0, 0)
  }

  /** The reading loop. */
  method ReadU32Loop(data: seq<byte>, offset: nat) returns (r: Option<Read>)
    ensures r == ReadU32(data, offset)
  {
    hide Group;
    var value: nat, at: nat, k := 0, offset, 0;
    while k < 5
      invariant 0 <= k <= 5
      invariant ReadU32(data, offset) == ReadFrom(data, at, k, value)
    {
      if at >= |data| { return None; }
      var b := data[at];
      at := at + 1;
      value := value + Group(b, k);
      if value > MAX { return None; }
      if b < 128 { return Some(Read(value, at)); }
      k := k + 1;
    }
    return None;
  }

  lemma {:induction false} DenotedAppend(bs: seq<byte>, b: byte)
    ensures Denoted(bs + [b]) == Denoted(bs) + Group(b, |bs|)
  {
    if bs == [] {
      assert Denoted([b]) == b % 128 + 128 * Denoted([]);
    } else {
      DenotedAppend(bs[1..], b);
      assert (bs + [b])[1..] == bs[1..] + [b];
      var p := Pow128(|bs| - 1);
      assert 128 * (b % 128 * p) == b % 128 * (128 * p);
    }
  }

  /** A prefix of an encoding denotes no more than the whole, so reading never refuses it early. */
  lemma {:induction false} DenotedPrefix(bs: seq<byte>, k: nat)
    requires k <= |bs|
    ensures Denoted(bs[..k]) <= Denoted(bs)
  {
    if k > 0 {
      DenotedPrefix(bs[1..], k - 1);
      assert bs[..k][1..] == bs[1..][..k - 1];
    }
  }

  /** What reading accepts, from any point inside the encoding. */
  lemma {:induction false} ReadFromIs(data: seq<byte>, start: nat, k: nat, r: Read)
    requires k <= 5 && start + k <= |data|
    requires forall i :: start <= i < start + k ==> data[i] >= 128
    ensures ReadFrom(data, start + k, k, Denoted(data[start..start + k])) == Some(r) <==>
      start + k < r.next <= |data| && Encoding(data[start..r.next]) && r.value == Denoted(data[start..r.next])
    decreases 5 - k
  {
    hide Group;
    var at := start + k;
    if k < 5 && at < |data| {
      var taken := data[start..at + 1];
      assert taken == data[start..at] + [data[at]];
      DenotedAppend(data[start..at], data[at]);
      if at < r.next <= |data| {
        assert data[start..r.next][..k + 1] == taken;
        DenotedPrefix(data[start..r.next], k + 1);
        assert data[start..r.next][k] == data[at];
      }
      if Denoted(taken) <= MAX && data[at] >= 128 { ReadFromIs(data, start, k + 1, r); }
    }
  }

  /** Reading accepts exactly the encodings, and yields the number they denote. */
  lemma ReadIsDenoted(data: seq<byte>, offset: nat, r: Read)
    requires offset <= |data|
    ensures ReadU32(data, offset) == Some(r) <==>
      offset < r.next <= |data| && Encoding(data[offset..r.next]) && r.value == Denoted(data[offset..r.next])
  {
    assert data[offset..offset] == [];
    ReadFromIs(data, offset, 0, r);
  }

  // ---------------------------------------------------------------- writing

  /** The shortest groups of a number. */
  function Groups(v: nat): (bs: seq<byte>)
    ensures |bs| >= 1
  {
    if v < 128 then [v] else [v % 128 + 128] + Groups(v / 128)
  }

  /** The encoding of a number, refused above 32 bits. */
  function U32(v: int): Option<seq<byte>> {
    if 0 <= v <= MAX then Some(Groups(v)) else None
  }

  /** The writing loop. */
  method U32Loop(v: int) returns (r: Option<seq<byte>>)
    ensures r == U32(v)
  {
    if !(0 <= v <= MAX) { return None; }
    var result: seq<byte>, value := [], v;
    while value >= 128
      invariant 0 <= value
      invariant Groups(v) == result + Groups(value)
    {
      result := result + [value % 128 + 128];
      value := value / 128;
    }
    return Some(result + [value]);
  }

  lemma {:induction false} GroupsDenote(v: nat)
    ensures Denoted(Groups(v)) == v
    ensures Groups(v)[|Groups(v)| - 1] < 128
    ensures forall i :: 0 <= i < |Groups(v)| - 1 ==> Groups(v)[i] >= 128
  {
    if v >= 128 {
      GroupsDenote(v / 128);
      assert Groups(v)[1..] == Groups(v / 128);
    } else {
      assert Denoted([v as byte][1..]) == 0;
    }
  }

  /** No other groups for the number are fewer. */
  lemma {:induction false} GroupsShortest(bs: seq<byte>)
    requires bs != []
    ensures |Groups(Denoted(bs))| <= |bs|
  {
    if |bs| > 1 {
      GroupsShortest(bs[1..]);
      assert Denoted(bs) / 128 == Denoted(bs[1..]);
    }
  }

  lemma GroupsLength(v: nat)
    requires v <= MAX
    ensures |Groups(v)| <= 5
  {
    assert v / 128 / 128 / 128 / 128 < 128;
    var a := v / 128;
    var b := a / 128;
    var c := b / 128;
    assert |Groups(c)| <= 2;
    assert |Groups(b)| <= 3;
    assert |Groups(a)| <= 4;
  }

  /** Writing produces the shortest encoding of the number. */
  lemma U32IsShortest(v: int)
    requires 0 <= v <= MAX
    ensures Encoding(U32(v).value) && Denoted(U32(v).value) == v
    ensures forall bs: seq<byte> :: Encoding(bs) && Denoted(bs) == v ==> |U32(v).value| <= |bs|
  {
    GroupsDenote(v);
    GroupsLength(v);
    forall bs: seq<byte> | Encoding(bs) && Denoted(bs) == v
      ensures |Groups(v)| <= |bs|
    {
      GroupsShortest(bs);
    }
  }

  /** Reading inverts writing, at any offset and whatever follows. */
  lemma ReadOfU32(before: seq<byte>, v: int, after: seq<byte>)
    requires 0 <= v <= MAX
    ensures ReadU32(before + U32(v).value + after, |before|) == Some(Read(v, |before| + |U32(v).value|))
  {
    U32IsShortest(v);
    var bs := U32(v).value;
    var data := before + bs + after;
    assert data[|before|..|before| + |bs|] == bs;
    ReadIsDenoted(data, |before|, Read(v, |before| + |bs|));
  }

  /** A reading depends only on the bytes it takes. */
  lemma ReadElsewhere(data: seq<byte>, offset: nat, r: Read, other: seq<byte>, at: nat)
    requires offset <= |data| && ReadU32(data, offset) == Some(r)
    requires at + (r.next - offset) <= |other| && other[at..at + (r.next - offset)] == data[offset..r.next]
    ensures ReadU32(other, at) == Some(Read(r.value, at + (r.next - offset)))
  {
    ReadIsDenoted(data, offset, r);
    ReadIsDenoted(other, at, Read(r.value, at + (r.next - offset)));
  }

  /** Readings move forward, by at least the shortest encoding of what they read. */
  lemma ReadBounds(data: seq<byte>, offset: nat)
    requires ReadU32(data, offset).Some?
    ensures var r := ReadU32(data, offset).value;
      offset < r.next <= |data| && r.value <= MAX && |Groups(r.value)| <= r.next - offset
  {
    var r := ReadU32(data, offset).value;
    ReadIsDenoted(data, offset, r);
    GroupsShortest(data[offset..r.next]);
  }
}
