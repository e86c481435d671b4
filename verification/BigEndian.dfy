/** Big-endian readers of canonical bytes: up to sixteen bytes as an unsigned number, sixteen as a signed one. */
module BigEndian {
  import opened Octets
  import opened Patterns
  import opened Wide

  const I128_MAX: int := SCALE / 2 - 1

  function Power(n: nat): (p: int)
    ensures p >= 1
  {
    if n == 0 then 1 else 256 * Power(n - 1)
  }

  /** The number a byte string denotes, most significant byte first. */
  function Number(bs: seq<byte>): (v: int)
    ensures v >= 0
  {
    if bs == [] then 0 else Number(bs[..|bs| - 1]) * 256 + bs[|bs| - 1]
  }

  /** The `n` bytes of a number, most significant first; higher bytes are dropped. */
  function Written(v: nat, n: nat): (bs: seq<byte>)
    ensures |bs| == n
  {
    if n == 0 then [] else Written(v / 256, n - 1) + [v % 256]
  }

  lemma {:induction false} NumberBound(bs: seq<byte>)
    ensures Number(bs) < Power(|bs|)
  {
    if bs != [] { NumberBound(bs[..|bs| - 1]); }
  }

  lemma {:induction false} PowerAdds(m: nat, n: nat)
    ensures Power(m + n) == Power(m) * Power(n)
  {
    if n > 0 {
      PowerAdds(m, n - 1);
      assert Power(m) * (256 * Power(n - 1)) == 256 * (Power(m) * Power(n - 1));
    }
  }

  lemma SixteenBytes()
    ensures Power(16) == SCALE
  {
    assert Power(2) == 65536;
    PowerAdds(2, 2);
    PowerAdds(4, 4);
    PowerAdds(8, 8);
  }

  lemma {:induction false} PowerGrows(m: nat, n: nat)
    requires m <= n
    ensures Power(m) <= Power(n)
  {
    if m < n { PowerGrows(m, n - 1); }
  }

  /** Reading a concatenation is positional. */
  lemma {:induction false} NumberJoins(a: seq<byte>, b: seq<byte>)
    ensures Number(a + b) == Number(a) * Power(|b|) + Number(b)
    ensures |b| == 1 ==> Number(b) == b[0]
  {
    if b == [] { assert a + b == a; }
    else {
      var k := |b| - 1;
      NumberJoins(a, b[..k]);
      assert (a + b)[..|a + b| - 1] == a + b[..k];
      Spread(Number(a), Power(k), Number(b[..k]));
    }
  }

  lemma Spread(x: int, p: int, y: int)
    ensures (x * p + y) * 256 == x * (256 * p) + y * 256
  {
  }

  /** Writing then reading gives the number back, when it fits. */
  lemma {:induction false} NumberOfWritten(v: nat, n: nat)
    requires v < Power(n)
    ensures Number(Written(v, n)) == v
  {
    if n > 0 {
      NumberOfWritten(v / 256, n - 1);
      var bs := Written(v, n);
      assert bs[..n - 1] == Written(v / 256, n - 1);
    }
  }

  /** Reading then writing gives the bytes back. */
  lemma {:induction false} WrittenOfNumber(bs: seq<byte>)
    ensures Written(Number(bs), |bs|) == bs
  {
    if bs != [] {
      var k := |bs| - 1;
      WrittenOfNumber(bs[..k]);
      assert bs == bs[..k] + [bs[k]];
    }
  }

  /** What the reader returns: the number and the first unread offset, or a refusal. */
  function ReadUnsigned(bytes: seq<byte>, offset: nat, width: nat): Option<(int, nat)> {
    if width > 16 || offset > |bytes| || width > |bytes| - offset then None
    else Some((Number(bytes[offset..offset + width]), offset + width))
  }

  /** The base-256 loop with checked arithmetic never refuses on overflow. */
  method ReadBigEndian(bytes: seq<byte>, offset: nat, width: nat) returns (r: Option<(u128, nat)>)
    ensures r.Some? <==> width <= 16 && offset + width <= |bytes|
    ensures r.Some? ==> ReadUnsigned(bytes, offset, width) == Some((r.value.0, r.value.1))
  {
    if width > 16 || offset > |bytes| || width > |bytes| - offset { return None; }
    var index, value: u128 := 0, 0;
    assert bytes[offset..offset] == [];
    while index < width
      invariant 0 <= index <= width
      invariant value == Number(bytes[offset..offset + index])
    {
      FitsSixteen(bytes[offset..offset + index + 1]);
      NumberNext(bytes, offset, index);
      var shifted := CheckedMul(value, 256);
      if shifted.None? { return None; }
      var next := CheckedAdd(shifted.value, bytes[offset + index]);
      if next.None? { return None; }
      value := next.value;
      index := index + 1;
    }
    return Some((value, offset + width));
  }

  function CheckedMul(a: u128, b: u128): Option<u128> {
    MulBound(0, 0, a, b);
    if a * b < SCALE then Some(a * b) else None
  }

  function CheckedAdd(a: u128, b: u128): Option<u128> { if a + b < SCALE then Some(a + b) else None }

  lemma NumberNext(bytes: seq<byte>, offset: nat, index: nat)
    requires offset + index < |bytes|
    ensures Number(bytes[offset..offset + index + 1])
         == Number(bytes[offset..offset + index]) * 256 + bytes[offset + index]
  {
    var bs := bytes[offset..offset + index + 1];
    assert bs[..|bs| - 1] == bytes[offset..offset + index];
  }

  lemma FitsSixteen(bs: seq<byte>)
    requires |bs| <= 16
    ensures Number(bs) < SCALE
  {
    NumberBound(bs);
    PowerGrows(|bs|, 16);
    SixteenBytes();
  }

  // ---------------------------------------------------------------- signed

  /** Two's complement of a signed 128-bit value. */
  function Complement(z: int): (v: nat)
    requires -SCALE / 2 <= z <= I128_MAX
    ensures v < SCALE
  {
    if z < 0 then z + SCALE else z
  }

  /** The signed reading of an unsigned 128-bit value. */
  function Signed(v: u128): int { if v <= I128_MAX then v else -(SCALE - 1 - v) - 1 }

  /** It is the one signed 128-bit value that differs from the unsigned one by nothing or by 256 to the sixteenth. */
  lemma SignedIs(v: u128, z: int)
    ensures Signed(v) == z <==> -Power(16) <= 2 * z < Power(16) && (z == v || z == v - Power(16))
  {
    SixteenBytes();
    hide Power;
  }

  method ReadSigned128(bytes: seq<byte>, offset: nat) returns (r: Option<(int, nat)>)
    ensures r.Some? <==> offset + 16 <= |bytes|
    ensures r.Some? ==> -SCALE / 2 <= r.value.0 <= I128_MAX && r.value.1 == offset + 16
    ensures r.Some? ==> bytes[offset..offset + 16] == Written(Complement(r.value.0), 16)
    ensures r.Some? ==> var v := Number(bytes[offset..offset + 16]); r.value.0 == v || r.value.0 == v - Power(16)
  {
    var read := ReadBigEndian(bytes, offset, 16);
    if read.None? { return None; }
    var (value, end) := read.value;
    var signed := if value <= I128_MAX then value else 0 - (SCALE - 1 - value) - 1;
    WrittenOfNumber(bytes[offset..offset + 16]);
    assert Complement(signed) == value;
    SixteenBytes();
    return Some((signed, end));
  }

  /** Every signed 128-bit value, written anywhere in a text, is read back; trailing bytes do not matter. */
  lemma SignedRoundTrip(z: int, before: seq<byte>, after: seq<byte>)
    requires -SCALE / 2 <= z <= I128_MAX
    ensures var bytes := before + Written(Complement(z), 16) + after;
      var read := ReadUnsigned(bytes, |before|, 16);
      read.Some? && 0 <= read.value.0 < SCALE && Signed(read.value.0) == z && read.value.1 == |before| + 16
  {
    var middle := Written(Complement(z), 16);
    var bytes := before + middle + after;
    assert bytes[|before|..|before| + 16] == middle;
    SixteenBytes();
    NumberOfWritten(Complement(z), 16);
  }

  /** Distinct sixteen-byte strings have distinct signed readings. */
  lemma SignedInjective(a: seq<byte>, b: seq<byte>)
    requires |a| == |b| == 16
    ensures Number(a) < SCALE && Number(b) < SCALE
    ensures Signed(Number(a)) == Signed(Number(b)) ==> a == b
  {
    FitsSixteen(a);
    FitsSixteen(b);
    WrittenOfNumber(a);
    WrittenOfNumber(b);
  }
}
