/** Base 128 varints as the generated OIM code writes and reads them. */
module Varint {
  import opened Wrappers
  import opened Bits

  type byte = b: int | 0 <= b < 0x100
  type u64 = x: int | 0 <= x < 0x1_0000_0000_0000_0000
  type i64 = x: int | -0x8000_0000_0000_0000 <= x < 0x8000_0000_0000_0000
  type Bytes = seq<byte>

  const TWO32: nat := 0x1_0000_0000
  const TWO63: nat := 0x8000_0000_0000_0000
  const TWO64: nat := 0x1_0000_0000_0000_0000

  datatype Error =
    | IntOverflow | UnexpectedEOF | InvalidLength | IllegalTag | WrongWireType | EndGroup | IllegalWireType

  /** The conversions between Go's int64 and uint64. */
  function ToU64(x: i64): u64 {
    if x < 0 then x + TWO64 else x
  }

  function ToI64(x: u64): i64 {
    if x >= TWO63 then x - TWO64 else x
  }

  // ---- Writing ----

  function Encode(v: nat): (r: Bytes)
    ensures |r| >= 1
  {
    if v < 128 then [v] else [v % 128 + 128] + Encode(v / 128)
  }

  /** `sovOim`: counts the 7-bit groups. */
  function Sov(x: nat): nat {
    if x / 128 == 0 then 1 else 1 + Sov(x / 128)
  }

  lemma {:induction false} SovIsLength(x: nat)
    ensures Sov(x) == |Encode(x)|
  {
    if x < 128 {
    } else {
      SovIsLength(x / 128);
    }
  }

  function Pow128(n: nat): nat {
    if n == 0 then 1 else 128 * Pow128(n - 1)
  }

  lemma {:induction false} EncodeLength(v: nat, n: nat)
    requires 1 <= n && v < Pow128(n)
    ensures |Encode(v)| <= n
  {
    if v < 128 {
    } else {
      EncodeLength(v / 128, n - 1);
    }
  }

  /** A uint64 never needs more than ten bytes. */
  lemma EncodeFitsTenBytes(v: u64)
    ensures |Encode(v)| <= 10
  {
    assert Pow128(10) == 128 * (128 * (128 * (128 * (128 * Pow128(5)))));
    assert Pow128(5) == 128 * (128 * (128 * (128 * (128 * Pow128(0)))));
    EncodeLength(v, 10);
  }

  // ---- Reading ----

  /** The number that varint bytes stand for before it is cut to 64 bits. */
  function Value(p: Bytes): nat {
    if p == [] then 0 else p[0] % 128 + 128 * Value(p[1..])
  }

  /** Continuation bytes followed by one final byte, ten bytes at most. */
  predicate IsVarint(p: Bytes) {
    && 1 <= |p| <= 10
    && p[|p| - 1] < 128
    && (forall i :: 0 <= i < |p| - 1 ==> p[i] >= 128)
  }

  /** The length of the varint at the start of `b`, when `k` bytes of it were read before. */
  function Scan(b: Bytes, k: nat): (r: Result<nat, Error>)
    ensures r.Ok? ==> 1 <= r.value <= |b| && k + r.value <= 10
  {
    if 7 * k >= 64 then Err(IntOverflow)
    else if b == [] then Err(UnexpectedEOF)
    else if b[0] < 128 then Ok(1)
    else match Scan(b[1..], k + 1)
      case Ok(n) => Ok(n + 1)
      case Err(e) => Err(e)
  }

  /** The value of the varint at the start of `b` and the number of bytes it takes. */
  function Decode(b: Bytes): (r: Result<(u64, nat), Error>)
    ensures r.Ok? ==> 1 <= r.value.1 <= |b|
  {
    match Scan(b, 0)
    case Ok(n) => Ok((Value(b[..n]) % TWO64, n))
    case Err(e) => Err(e)
  }

  lemma {:induction false} ScanReadsVarint(p: Bytes, rest: Bytes, k: nat)
    requires |p| >= 1 && k + |p| <= 10 && p[|p| - 1] < 128
    requires forall i :: 0 <= i < |p| - 1 ==> p[i] >= 128
    ensures Scan(p + rest, k) == Ok(|p|)
  {
    if |p| == 1 {
    } else {
      assert (p + rest)[1..] == p[1..] + rest;
      ScanReadsVarint(p[1..], rest, k + 1);
    }
  }

  lemma {:induction false} ScanFindsVarint(b: Bytes, k: nat)
    requires Scan(b, k).Ok?
    ensures var n := Scan(b, k).value;
            b[n - 1] < 128 && forall i :: 0 <= i < n - 1 ==> b[i] >= 128
  {
    if b[0] < 128 {
    } else {
      ScanFindsVarint(b[1..], k + 1);
      var n := Scan(b, k).value;
      forall i | 0 <= i < n - 1 ensures b[i] >= 128 {
        assert i > 0 ==> b[i] == b[1..][i - 1];
      }
    }
  }

  /** Reading succeeds on exactly the well-formed varints, and stops at their end. */
  lemma DecodeAcceptsVarints(p: Bytes, rest: Bytes)
    ensures IsVarint(p) <==> Decode(p + rest).Ok? && Decode(p + rest).value.1 == |p|
    ensures IsVarint(p) ==> Decode(p + rest).value.0 == Value(p) % TWO64
  {
    hide Value, Scan;
    if IsVarint(p) {
      ScanReadsVarint(p, rest, 0);
      assert (p + rest)[..|p|] == p;
    }
    if Decode(p + rest).Ok? && Decode(p + rest).value.1 == |p| {
      ScanFindsVarint(p + rest, 0);
      assert forall i :: 0 <= i < |p| ==> (p + rest)[i] == p[i];
    }
  }

  /** Why reading fails: ten bytes that all say there is more, or the input ends before that. */
  lemma {:induction false} ScanFailsExactly(b: Bytes, k: nat)
    requires k <= 10
    ensures Scan(b, k) == Err(IntOverflow) <==> |b| >= 10 - k && forall i :: 0 <= i < 10 - k ==> b[i] >= 128
    ensures Scan(b, k) == Err(UnexpectedEOF) <==> |b| < 10 - k && forall i :: 0 <= i < |b| ==> b[i] >= 128
    ensures Scan(b, k).Err? ==> Scan(b, k).error in {IntOverflow, UnexpectedEOF}
    decreases 10 - k
  {
    if k == 10 || b == [] || b[0] < 128 {
    } else {
      ScanFailsExactly(b[1..], k + 1);
      assert forall i :: 0 < i < |b| ==> b[i] == b[1..][i - 1];
      assert forall i :: 0 <= i < |b| - 1 ==> b[1..][i] == b[i + 1];
    }
  }

  lemma DecodeFailsExactly(b: Bytes)
    ensures Decode(b) == Err(IntOverflow) <==> |b| >= 10 && forall i :: 0 <= i < 10 ==> b[i] >= 128
    ensures Decode(b) == Err(UnexpectedEOF) <==> |b| < 10 && forall i :: 0 <= i < |b| ==> b[i] >= 128
    ensures Decode(b).Err? ==> Decode(b).error in {IntOverflow, UnexpectedEOF}
  {
    ScanFailsExactly(b, 0);
  }

  /** More input does not change what was read. */
  lemma DecodeExtends(a: Bytes, b: Bytes)
    requires Decode(a).Ok?
    ensures Decode(a + b) == Decode(a)
  {
    var n := Decode(a).value.1;
    assert a == a[..n] + a[n..] && a + b == a[..n] + (a[n..] + b);
    DecodeAcceptsVarints(a[..n], a[n..]);
    DecodeAcceptsVarints(a[..n], a[n..] + b);
  }

  lemma {:induction false} EncodeIsVarint(v: nat)
    ensures Value(Encode(v)) == v
    ensures Encode(v)[|Encode(v)| - 1] < 128
    ensures forall i :: 0 <= i < |Encode(v)| - 1 ==> Encode(v)[i] >= 128
  {
    if v < 128 {
    } else {
      EncodeIsVarint(v / 128);
      assert Encode(v)[1..] == Encode(v / 128);
      forall i | 0 <= i < |Encode(v)| - 1 ensures Encode(v)[i] >= 128 {
        assert i > 0 ==> Encode(v)[i] == Encode(v / 128)[i - 1];
      }
    }
  }

  /** What is written for a uint64 is read back, whatever follows it. */
  lemma RoundTrip(v: u64, rest: Bytes)
    ensures Decode(Encode(v) + rest) == Ok((v, |Encode(v)|))
  {
    hide Encode, Value, Decode;
    EncodeFitsTenBytes(v);
    EncodeIsVarint(v);
    DecodeAcceptsVarints(Encode(v), rest);
  }

  // ---- The loops ----

  lemma {:induction false} GroupsAreBits(k: nat)
    ensures Pow128(k) == Pow2(7 * k)
  {
    if k == 0 {
    } else {
      GroupsAreBits(k - 1);
      Widths();
      Pow2Add(7, 7 * (k - 1));
    }
  }

  lemma {:induction false} ValueBound(p: Bytes)
    ensures Value(p) < Pow128(|p|)
    decreases |p|
  {
    if p == [] {
    } else {
      ValueBound(p[1..]);
    }
  }

  lemma {:induction false} ValueAppend(p: Bytes, b: byte)
    ensures Value(p + [b]) == Value(p) + b % 128 * Pow128(|p|)
  {
    if p == [] {
      assert [b][1..] == [];
    } else {
      assert (p + [b])[1..] == p[1..] + [b];
      ValueAppend(p[1..], b);
      assert 128 * (b % 128 * Pow128(|p| - 1)) == b % 128 * Pow128(|p|);
    }
  }

  lemma {:induction false} ScanContinues(b: Bytes, k: nat, shift: nat)
    requires k <= |b| && shift + k <= 10
    requires forall i :: 0 <= i < k ==> b[i] >= 128
    ensures Scan(b, shift) == match Scan(b[k..], shift + k) case Ok(n) => Ok(n + k) case Err(e) => Err(e)
  {
    if k == 0 {
      assert b[0..] == b;
    } else {
      assert b[1..][k - 1..] == b[k..];
      ScanContinues(b[1..], k - 1, shift + 1);
    }
  }

  lemma ScanStep(b: Bytes, k: nat)
    ensures 7 * k >= 64 ==> Scan(b, k) == Err(IntOverflow)
    ensures 7 * k < 64 && b == [] ==> Scan(b, k) == Err(UnexpectedEOF)
    ensures 7 * k < 64 && b != [] && b[0] < 128 ==> Scan(b, k) == Ok(1)
  {
  }

  lemma ValueOfNothing()
    ensures Value([]) == 0
  {
  }

  /** Cutting to 64 bits first does not matter when the target has 32 bits. */
  lemma CutTwice(x: nat)
    ensures x % TWO64 % TWO32 == x % TWO32
  {
    var q := x / TWO64;
    assert x == x % TWO64 + TWO32 * (TWO32 * q);
    ModShift(x % TWO64, TWO32 * q, TWO32);
  }

  /** The reading loop. `width` is that of the variable that collects the value. */
  method ReadVarint(dAtA: Bytes, start: nat, width: nat) returns (r: Result<nat, Error>, iNdEx: nat)
    requires start <= |dAtA|
    ensures match Scan(dAtA[start..], 0)
            case Ok(n) => iNdEx == start + n && r == Ok(Value(dAtA[start..iNdEx]) % Pow2(width))
            case Err(e) => r == Err(e)
  {
    hide Value, Scan, Pow128, Pow2, Or, ShiftLeft;
    ghost var rest := dAtA[start..];
    var l := |dAtA|;
    var value := 0;
    ValueOfNothing();
    var shift := 0;
    iNdEx := start;
    ghost var k: nat := 0;
    while true
      invariant iNdEx == start + k <= l && shift == 7 * k && k <= 10
      invariant forall i :: 0 <= i < k ==> rest[i] >= 128
      invariant value == Value(rest[..k]) % Pow2(width)
      decreases 10 - k
    {
      ScanContinues(rest, k, 0);
      ScanStep(rest[k..], k);
      if shift >= 64 {
        return Err(IntOverflow), iNdEx;
      }
      if iNdEx >= l {
        return Err(UnexpectedEOF), iNdEx;
      }
      var b := dAtA[iNdEx];
      iNdEx := iNdEx + 1;
      assert rest[..k] + [b] == rest[..k + 1] == dAtA[start..iNdEx];
      NextGroup(rest[..k], b, width);
      value := Or(value, ShiftLeft(b % 0x80, shift, width));
      if b < 0x80 {
        return Ok(value), iNdEx;
      }
      shift := shift + 7;
      k := k + 1;
    }
  }

  /** One round of the reading loop: what was collected is below the bits that the group sets. */
  lemma NextGroup(p: Bytes, b: byte, width: nat)
    ensures Or(Value(p) % Pow2(width), ShiftLeft(b % 0x80, 7 * |p|, width)) == Value(p + [b]) % Pow2(width)
  {
    hide Value, Pow128, Pow2, Or, ShiftLeft;
    ValueAppend(p, b);
    ValueBound(p);
    GroupsAreBits(|p|);
    OrAddsTheNextGroup(Value(p), b % 0x80, 7 * |p|, width);
  }

  /** The varint loop over a suffix, as the value and end that `Decode` gives. */
  method ReadU64(dAtA: Bytes, start: nat) returns (r: Result<u64, Error>, iNdEx: nat)
    requires start <= |dAtA|
    ensures match Decode(dAtA[start..])
            case Ok((v, n)) => r == Ok(v) && iNdEx == start + n
            case Err(e) => r == Err(e)
  {
    hide Value, Scan, Pow2;
    Widths();
    var value, end := ReadVarint(dAtA, start, 64);
    iNdEx := end;
    match value
    case Err(e) => r := Err(e);
    case Ok(v) =>
      assert dAtA[start..end] == dAtA[start..][..end - start];
      r := Ok(v);
  }

  /** The same for the 32-bit fields: the value is cut to 32 bits. */
  method ReadU32(dAtA: Bytes, start: nat) returns (r: Result<u32, Error>, iNdEx: nat)
    requires start <= |dAtA|
    ensures match Decode(dAtA[start..])
            case Ok((v, n)) => r == Ok(v % TWO32) && iNdEx == start + n
            case Err(e) => r == Err(e)
  {
    hide Value, Scan, Pow2;
    Widths();
    var value, end := ReadVarint(dAtA, start, 32);
    iNdEx := end;
    match value
    case Err(e) => r := Err(e);
    case Ok(v) =>
      assert dAtA[start..end] == dAtA[start..][..end - start];
      CutTwice(Value(dAtA[start..end]));
      r := Ok(v);
  }

  /** `encodeVarintOim`. */
  method EncodeVarint(dAtA: array<byte>, start: nat, x: u64) returns (offset: nat)
    requires start + Sov(x) <= dAtA.Length
    modifies dAtA
    ensures offset == start + Sov(x)
    ensures dAtA[start..offset] == Encode(x)
    ensures forall i :: 0 <= i < start || offset <= i < dAtA.Length ==> dAtA[i] == old(dAtA[i])
  {
    hide Encode, Sov, Or;
    SovIsLength(x);
    ghost var code := Encode(x);
    var v := x;
    offset := start;
    assert code[0..] == code;
    while v >= 0x80
      invariant 0 <= v <= x && start <= offset && offset + |Encode(v)| == start + |code|
      invariant code[offset - start..] == Encode(v)
      invariant forall i :: start <= i < offset ==> dAtA[i] == code[i - start]
      invariant forall i :: 0 <= i < start || offset <= i < dAtA.Length ==> dAtA[i] == old(dAtA[i])
      decreases v
    {
      EncodeStep(v);
      SetsTheHighBit(v % 0x80);
      dAtA[offset] := Or(v % 0x80, 0x80);
      assert code[offset - start] == code[offset - start..][0];
      assert code[offset + 1 - start..] == code[offset - start..][1..];
      v := v / 0x80;
      offset := offset + 1;
    }
    EncodeStep(v);
    assert code[offset - start] == code[offset - start..][0];
    dAtA[offset] := v;
    offset := offset + 1;
  }

  lemma SetsTheHighBit(x: nat)
    requires x < 0x80
    ensures Or(x, 0x80) == x + 0x80
  {
    hide Or, Pow2;
    Widths();
    OrAdds(x, 1, 7);
  }

  lemma EncodeStep(v: nat)
    ensures v < 128 ==> Encode(v) == [v]
    ensures v >= 128 ==> Encode(v)[0] == v % 128 + 128 && Encode(v)[1..] == Encode(v / 128) && v / 128 < v
    ensures v >= 128 ==> |Encode(v)| == 1 + |Encode(v / 128)|
  {
  }

  /** `sovOim`. */
  method SizeOfVarint(v: u64) returns (n: nat)
    ensures n == |Encode(v)|
  {
    SovIsLength(v);
    var x := v / 128;
    n := 1;
    while x != 0
      invariant 0 <= x && n + (if x == 0 then 0 else Sov(x)) == Sov(v)
      decreases x
    {
      n := n + 1;
      x := x / 128;
    }
  }
}
