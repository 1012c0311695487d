/** `Marshal`, `MarshalTo` and `Unmarshal` as the generated code runs them: a byte buffer filled
    through an index, and a read index that moves over the input. */
module CodecLoops {
  import opened Wrappers
  import opened Varint
  import opened Skip
  import opened Messages
  import opened Marshal

  // ---- Writing ----

  /** The buffer after `x` was written at `i`; everything else is as before. */
  ghost function Splice(s: Bytes, i: nat, x: Bytes): (r: Bytes)
    requires i + |x| <= |s|
    ensures |r| == |s|
  {
    s[..i] + x + s[i + |x|..]
  }

  lemma SpliceTwice(s: Bytes, i: nat, x: Bytes, y: Bytes)
    requires i + |x| + |y| <= |s|
    ensures Splice(Splice(s, i, x), i + |x|, y) == Splice(s, i, x + y)
  {
  }

  lemma SpliceNothing(s: Bytes, i: nat)
    requires i <= |s|
    ensures Splice(s, i, []) == s
  {
  }

  method WriteTag(dAtA: array<byte>, start: nat, tag: byte) returns (i: nat)
    requires start < dAtA.Length
    modifies dAtA
    ensures i == start + 1 && dAtA[..] == Splice(old(dAtA[..]), start, [tag])
  {
    dAtA[start] := tag;
    i := start + 1;
  }

  method WriteVarint(dAtA: array<byte>, start: nat, v: u64) returns (i: nat)
    requires start + |Encode(v)| <= dAtA.Length
    modifies dAtA
    ensures i == start + |Encode(v)| && dAtA[..] == Splice(old(dAtA[..]), start, Encode(v))
  {
    SovIsLength(v);
    i := EncodeVarint(dAtA, start, v);
    ghost var want := Splice(old(dAtA[..]), start, Encode(v));
    forall j | 0 <= j < dAtA.Length ensures dAtA[j] == want[j] {
      if start <= j < i {
        assert dAtA[j] == dAtA[start..i][j - start];
      }
    }
  }

  /** `copy(dAtA[i:], p)`. */
  method CopyBytes(dAtA: array<byte>, start: nat, p: Bytes) returns (i: nat)
    requires start + |p| <= dAtA.Length
    modifies dAtA
    ensures i == start + |p| && dAtA[..] == Splice(old(dAtA[..]), start, p)
  {
    i := start;
    while i < start + |p|
      invariant start <= i <= start + |p|
      invariant forall j :: start <= j < i ==> dAtA[j] == p[j - start]
      invariant forall j :: 0 <= j < start || i <= j < dAtA.Length ==> dAtA[j] == old(dAtA[j])
    {
      dAtA[i] := p[i - start];
      i := i + 1;
    }
  }

  /** The tag and the length that precede every length-delimited field. */
  method WriteHeader(dAtA: array<byte>, start: nat, num: nat, len: u64) returns (i: nat)
    requires 1 <= num < 16 && start + 1 + |Encode(len)| <= dAtA.Length
    modifies dAtA
    ensures i == start + 1 + |Encode(len)|
    ensures dAtA[..] == Splice(old(dAtA[..]), start, [num * 8 + 2] + Encode(len))
  {
    hide Splice;
    i := WriteTag(dAtA, start, num * 8 + 2);
    i := WriteVarint(dAtA, i, len);
    SpliceTwice(old(dAtA[..]), start, [num * 8 + 2], Encode(len));
  }

  lemma BytesFieldParts(num: nat, p: Bytes)
    requires 1 <= num < 16
    ensures BytesField(num, p) == [num * 8 + 2] + Encode(|p|) + p
    ensures |BytesField(num, p)| == 1 + |Encode(|p|)| + |p|
  {
  }

  method WriteString(dAtA: array<byte>, start: nat, num: nat, p: Bytes) returns (i: nat)
    requires 1 <= num < 16 && |p| < TWO63 && start + |StringField(num, p)| <= dAtA.Length
    modifies dAtA
    ensures i == start + |StringField(num, p)| && dAtA[..] == Splice(old(dAtA[..]), start, StringField(num, p))
  {
    hide Splice;
    i := start;
    SpliceNothing(dAtA[..], start);
    if |p| > 0 {
      i := WriteHeader(dAtA, i, num, |p|);
      i := CopyBytes(dAtA, i, p);
      SpliceTwice(old(dAtA[..]), start, [num * 8 + 2] + Encode(|p|), p);
      assert [num * 8 + 2] + Encode(|p|) + p == BytesField(num, p);
    }
  }

  method WriteNumber(dAtA: array<byte>, start: nat, num: nat, v: u64) returns (i: nat)
    requires 1 <= num < 16 && start + |NonZeroField(num, v)| <= dAtA.Length
    modifies dAtA
    ensures i == start + |NonZeroField(num, v)| && dAtA[..] == Splice(old(dAtA[..]), start, NonZeroField(num, v))
  {
    hide Splice;
    i := start;
    SpliceNothing(dAtA[..], start);
    if v != 0 {
      i := WriteTag(dAtA, i, num * 8);
      i := WriteVarint(dAtA, i, v);
      SpliceTwice(old(dAtA[..]), start, [num * 8], Encode(v));
    }
  }

  /** An embedded message: tag, its size, and its own `MarshalTo` into the rest of the buffer. */
  method WriteMessage(dAtA: array<byte>, start: nat, num: nat, m: Message) returns (i: nat)
    requires 1 <= num < 16 && Depth(m) == 0
    requires |BytesField(num, Marshalled(m))| < TWO63 && start + |BytesField(num, Marshalled(m))| <= dAtA.Length
    modifies dAtA
    ensures i == start + |BytesField(num, Marshalled(m))|
    ensures dAtA[..] == Splice(old(dAtA[..]), start, BytesField(num, Marshalled(m)))
    decreases 0, 1
  {
    hide Splice, Marshalled, Size, BytesField, Encode;
    ghost var p := Marshalled(m);
    SizeIsExact(m);
    BytesFieldParts(num, p);
    i := WriteHeader(dAtA, start, num, Size(m));
    i := MarshalTo(m, dAtA, i);
    SpliceTwice(old(dAtA[..]), start, [num * 8 + 2] + Encode(|p|), p);
  }

  /** Two string fields that are written one after the other. */
  method WriteStrings(num: nat, p: Bytes, q: Bytes, dAtA: array<byte>, start: nat) returns (i: nat)
    requires 1 <= num < 15 && |p| < TWO63 && |q| < TWO63
    requires start + |StringField(num, p) + StringField(num + 1, q)| <= dAtA.Length
    modifies dAtA
    ensures i == start + |StringField(num, p) + StringField(num + 1, q)|
    ensures dAtA[..] == Splice(old(dAtA[..]), start, StringField(num, p) + StringField(num + 1, q))
  {
    hide Splice;
    i := WriteString(dAtA, start, num, p);
    i := WriteString(dAtA, i, num + 1, q);
    SpliceTwice(old(dAtA[..]), start, StringField(num, p), StringField(num + 1, q));
  }

  method WriteNumbers(num: nat, v: u64, w: u64, dAtA: array<byte>, start: nat) returns (i: nat)
    requires 1 <= num < 15 && start + |NonZeroField(num, v) + NonZeroField(num + 1, w)| <= dAtA.Length
    modifies dAtA
    ensures i == start + |NonZeroField(num, v) + NonZeroField(num + 1, w)|
    ensures dAtA[..] == Splice(old(dAtA[..]), start, NonZeroField(num, v) + NonZeroField(num + 1, w))
  {
    hide Splice;
    i := WriteNumber(dAtA, start, num, v);
    i := WriteNumber(dAtA, i, num + 1, w);
    SpliceTwice(old(dAtA[..]), start, NonZeroField(num, v), NonZeroField(num + 1, w));
  }

  lemma SpliceThrice(s: Bytes, i: nat, x: Bytes, y: Bytes, z: Bytes)
    requires i + |x| + |y| + |z| <= |s|
    ensures Splice(Splice(Splice(s, i, x), i + |x|, y), i + |x| + |y|, z) == Splice(s, i, x + (y + z))
  {
    SpliceTwice(s, i, x, y);
    SpliceTwice(s, i, x + y, z);
    assert x + y + z == x + (y + z);
  }

  method WriteCeph(c: CephParams, dAtA: array<byte>, start: nat) returns (i: nat)
    requires |Marshalled(CephMessage(c))| < TWO63 && start + |Marshalled(CephMessage(c))| <= dAtA.Length
    modifies dAtA
    ensures i == start + |Marshalled(CephMessage(c))|
    ensures dAtA[..] == Splice(old(dAtA[..]), start, Marshalled(CephMessage(c)))
  {
    hide Splice, StringField;
    CephFits(c);
    ghost var x := StringField(1, c.userId) + StringField(2, c.secret);
    ghost var y := StringField(3, c.monitors) + StringField(4, c.pool);
    ghost var z := StringField(5, c.image);
    assert Marshalled(CephMessage(c)) == x + (y + z);
    i := WriteStrings(1, c.userId, c.secret, dAtA, start);
    i := WriteStrings(3, c.monitors, c.pool, dAtA, i);
    i := WriteString(dAtA, i, 5, c.image);
    SpliceThrice(old(dAtA[..]), start, x, y, z);
  }

  method WritePCI(a: PCIAddress, dAtA: array<byte>, start: nat) returns (i: nat)
    requires start + |Marshalled(PCIMessage(a))| <= dAtA.Length
    modifies dAtA
    ensures i == start + |Marshalled(PCIMessage(a))|
    ensures dAtA[..] == Splice(old(dAtA[..]), start, Marshalled(PCIMessage(a)))
  {
    hide Splice;
    ghost var x := NonZeroField(1, a.domain) + NonZeroField(2, a.bus);
    ghost var y := NonZeroField(3, a.device) + NonZeroField(4, a.function_);
    assert Marshalled(PCIMessage(a)) == x + y;
    i := WriteNumbers(1, a.domain, a.bus, dAtA, start);
    i := WriteNumbers(3, a.device, a.function_, dAtA, i);
    SpliceTwice(old(dAtA[..]), start, x, y);
  }

  method WriteValues(values: seq<Value>, dAtA: array<byte>, start: nat) returns (i: nat)
    requires |ValuesBytes(values)| < TWO63 && start + |ValuesBytes(values)| <= dAtA.Length
    modifies dAtA
    ensures i == start + |ValuesBytes(values)| && dAtA[..] == Splice(old(dAtA[..]), start, ValuesBytes(values))
    decreases 0, 2
  {
    hide Splice, ValuesBytes, BytesField, Marshalled;
    i := start;
    SpliceNothing(dAtA[..], start);
    assert values[..0] == [];
    NoValuesBytes();
    for n := 0 to |values|
      invariant i == start + |ValuesBytes(values[..n])|
      invariant |ValuesBytes(values[..n])| <= |ValuesBytes(values)|
      invariant dAtA[..] == Splice(old(dAtA[..]), start, ValuesBytes(values[..n]))
    {
      ghost var field := BytesField(1, Marshalled(ValueMessage(values[n])));
      ValuesBytesAppend(values[..n], values[n]);
      assert values[..n] + [values[n]] == values[..n + 1];
      ValuesBytesPrefix(values, n + 1);
      i := WriteMessage(dAtA, i, 1, ValueMessage(values[n]));
      SpliceTwice(old(dAtA[..]), start, ValuesBytes(values[..n]), field);
    }
    assert values[..|values|] == values;
  }

  lemma NoValuesBytes()
    ensures ValuesBytes([]) == []
  {
  }

  lemma {:induction false} ValuesBytesAppend(values: seq<Value>, v: Value)
    ensures ValuesBytes(values + [v]) == ValuesBytes(values) + BytesField(1, Marshalled(ValueMessage(v)))
    decreases |values|
  {
    if values == [] {
      assert [v][1..] == [];
    } else {
      assert (values + [v])[1..] == values[1..] + [v];
      ValuesBytesAppend(values[1..], v);
    }
  }

  lemma {:induction false} ValuesBytesPrefix(values: seq<Value>, n: nat)
    requires n <= |values|
    ensures |ValuesBytes(values[..n])| <= |ValuesBytes(values)|
    decreases n
  {
    if n == 0 {
    } else {
      assert values[..n][1..] == values[1..][..n - 1];
      ValuesBytesPrefix(values[1..], n - 1);
    }
  }

  method WriteParams(params: Params, dAtA: array<byte>, start: nat) returns (i: nat)
    requires |ParamsBytes(params)| < TWO63 && start + |ParamsBytes(params)| <= dAtA.Length
    modifies dAtA
    ensures i == start + |ParamsBytes(params)| && dAtA[..] == Splice(old(dAtA[..]), start, ParamsBytes(params))
    decreases 0, 2
  {
    hide Splice;
    match params
    case NoParams =>
      i := start;
      SpliceNothing(dAtA[..], start);
    case Malloc => i := WriteMessage(dAtA, start, 2, EmptyMessage(MallocParams));
    case Ceph(c) => i := WriteMessage(dAtA, start, 3, CephMessage(c));
  }

  method WriteMapReply(pci: Option<PCIAddress>, scsi: Option<SCSIDisk>, dAtA: array<byte>, start: nat) returns (i: nat)
    requires |Marshalled(MapVolumeReply(pci, scsi))| < TWO63
    requires start + |Marshalled(MapVolumeReply(pci, scsi))| <= dAtA.Length
    modifies dAtA
    ensures i == start + |Marshalled(MapVolumeReply(pci, scsi))|
    ensures dAtA[..] == Splice(old(dAtA[..]), start, Marshalled(MapVolumeReply(pci, scsi)))
    decreases 0, 2
  {
    hide Splice;
    ghost var f1 := if pci.None? then [] else BytesField(1, Marshalled(PCIMessage(pci.value)));
    ghost var f2 := if scsi.None? then [] else BytesField(2, Marshalled(SCSIMessage(scsi.value)));
    assert Marshalled(MapVolumeReply(pci, scsi)) == f1 + f2;
    i := start;
    SpliceNothing(dAtA[..], start);
    if pci.Some? {
      i := WriteMessage(dAtA, i, 1, PCIMessage(pci.value));
    }
    ghost var mid := dAtA[..];
    SpliceNothing(mid, i);
    if scsi.Some? {
      i := WriteMessage(dAtA, i, 2, SCSIMessage(scsi.value));
    }
    SpliceTwice(old(dAtA[..]), start, f1, f2);
  }

  method WriteStringAndNumber(p: Bytes, v: u64, dAtA: array<byte>, start: nat) returns (i: nat)
    requires |p| < TWO63 && start + |StringField(1, p) + NonZeroField(2, v)| <= dAtA.Length
    modifies dAtA
    ensures i == start + |StringField(1, p) + NonZeroField(2, v)|
    ensures dAtA[..] == Splice(old(dAtA[..]), start, StringField(1, p) + NonZeroField(2, v))
  {
    hide Splice;
    i := WriteString(dAtA, start, 1, p);
    i := WriteNumber(dAtA, i, 2, v);
    SpliceTwice(old(dAtA[..]), start, StringField(1, p), NonZeroField(2, v));
  }

  method WriteMapRequest(id: Bytes, params: Params, dAtA: array<byte>, start: nat) returns (i: nat)
    requires |StringField(1, id) + ParamsBytes(params)| < TWO63
    requires start + |StringField(1, id) + ParamsBytes(params)| <= dAtA.Length
    modifies dAtA
    ensures i == start + |StringField(1, id) + ParamsBytes(params)|
    ensures dAtA[..] == Splice(old(dAtA[..]), start, StringField(1, id) + ParamsBytes(params))
    decreases 0, 3
  {
    hide Splice;
    FieldHoldsLess(1, id);
    i := WriteString(dAtA, start, 1, id);
    i := WriteParams(params, dAtA, i);
    SpliceTwice(old(dAtA[..]), start, StringField(1, id), ParamsBytes(params));
  }

  /** `MarshalTo` writes exactly the encoding, which is `Size` bytes, and touches nothing else of
      the buffer. The slice `dAtA[start:]` that the generated code passes is the buffer with an offset. */
  method MarshalTo(m: Message, dAtA: array<byte>, start: nat) returns (i: nat)
    requires Size(m) < TWO63 && start + Size(m) <= dAtA.Length
    modifies dAtA
    ensures |Marshalled(m)| == Size(m) && i == start + Size(m)
    ensures dAtA[..] == Splice(old(dAtA[..]), start, Marshalled(m))
    decreases Depth(m), if Depth(m) == 0 then 0 else 4
  {
    hide Splice;
    SizeIsExact(m);
    i := start;
    match m
    case SetValueRequest(value) =>
      SpliceNothing(dAtA[..], start);
      if value.Some? {
        i := WriteMessage(dAtA, i, 1, ValueMessage(value.value));
      }
    case ValueMessage(v) =>
      ValueFits(v);
      i := WriteStrings(1, v.path, v.value, dAtA, i);
    case GetValuesRequest(path) =>
      FieldHoldsLess(1, path);
      i := WriteString(dAtA, i, 1, path);
    case GetValuesReply(values) => i := WriteValues(values, dAtA, i);
    case MapVolumeRequest(id, params) => i := WriteMapRequest(id, params, dAtA, i);
    case CephMessage(c) => i := WriteCeph(c, dAtA, i);
    case MapVolumeReply(pci, scsi) => i := WriteMapReply(pci, scsi, dAtA, i);
    case PCIMessage(a) => i := WritePCI(a, dAtA, i);
    case SCSIMessage(d) => i := WriteNumbers(1, d.target, d.lun, dAtA, i);
    case UnmapVolumeRequest(id) =>
      FieldHoldsLess(1, id);
      i := WriteString(dAtA, i, 1, id);
    case ProvisionMallocBDevRequest(name, size) =>
      FieldHoldsLess(1, name);
      i := WriteStringAndNumber(name, ToU64(size), dAtA, i);
    case CheckMallocBDevRequest(name) =>
      FieldHoldsLess(1, name);
      i := WriteString(dAtA, i, 1, name);
    case EmptyMessage(_) => SpliceNothing(dAtA[..], start);
  }

  /** `Marshal`. */
  method MarshalMessage(m: Message) returns (r: Bytes)
    requires Size(m) < TWO63
    ensures r == Marshalled(m) && |r| == Size(m)
    ensures Unmarshal(r, Zero(m)) == Ok(m)
  {
    var size := Size(m);
    var dAtA := new byte[size];
    var n := MarshalTo(m, dAtA, 0);
    RoundTripOfMessages(m);
    return dAtA[..n];
  }

  // ---- Reading ----

  method ReadNumber(dAtA: Bytes, start: nat, m: Message, num: int) returns (r: Result<Message, Error>, iNdEx: nat)
    requires start <= |dAtA| && Known(m, num) && IsNumber(m, num)
    ensures match ReadField(m, num, dAtA[start..])
            case Ok((m1, n)) => r == Ok(m1) && iNdEx == start + n
            case Err(e) => r == Err(e)
  {
    hide Decode;
    var value: Result<u64, Error>;
    if m.ProvisionMallocBDevRequest? {
      value, iNdEx := ReadU64(dAtA, start);
    } else {
      var value32, end := ReadU32(dAtA, start);
      iNdEx := end;
      value := if value32.Ok? then Ok(value32.value) else Err(value32.error);
    }
    r := if value.Ok? then Ok(SetNumber(m, num, value.value)) else Err(value.error);
  }

  method ReadDelimited(dAtA: Bytes, start: nat, m: Message, num: int) returns (r: Result<Message, Error>, iNdEx: nat)
    requires start <= |dAtA| && Known(m, num) && !IsNumber(m, num)
    ensures match ReadField(m, num, dAtA[start..])
            case Ok((m1, n)) => r == Ok(m1) && iNdEx == start + n
            case Err(e) => r == Err(e)
    decreases |dAtA| - start, 0
  {
    ghost var rest := dAtA[start..];
    var length, end := ReadU64(dAtA, start);
    iNdEx := end;
    if length.Err? {
      return Err(length.error), iNdEx;
    }
    if ToI64(length.value) < 0 {
      return Err(InvalidLength), iNdEx;
    }
    var postIndex := end + length.value;
    if postIndex > |dAtA| {
      return Err(UnexpectedEOF), iNdEx;
    }
    assert dAtA[end..postIndex] == rest[end - start..postIndex - start];
    r := StoreBytes(m, num, dAtA[end..postIndex]);
    iNdEx := postIndex;
  }

  /** What the `case` of a length-delimited field does with its bytes. */
  method StoreBytes(m: Message, num: int, p: Bytes) returns (r: Result<Message, Error>)
    requires Known(m, num) && !IsNumber(m, num)
    ensures r == SetBytes(m, num, p)
    decreases |p|, 2
  {
    match m
    case SetValueRequest(value) =>
      var inner := UnmarshalMessage(p, ValueMessage(if value.Some? then value.value else NO_VALUE));
      r := if inner.Ok? then Ok(SetValueRequest(Some(inner.value.v))) else inner;
    case GetValuesReply(values) =>
      var inner := UnmarshalMessage(p, ValueMessage(NO_VALUE));
      r := if inner.Ok? then Ok(GetValuesReply(values + [inner.value.v])) else inner;
    case MapVolumeRequest(id, params) =>
      if num == 1 {
        r := Ok(MapVolumeRequest(p, params));
      } else if num == 2 {
        var inner := UnmarshalMessage(p, EmptyMessage(MallocParams));
        r := if inner.Ok? then Ok(MapVolumeRequest(id, Malloc)) else inner;
      } else {
        var inner := UnmarshalMessage(p, CephMessage(NO_CEPH));
        r := if inner.Ok? then Ok(MapVolumeRequest(id, Ceph(inner.value.ceph))) else inner;
      }
    case MapVolumeReply(pci, scsi) =>
      if num == 1 {
        var inner := UnmarshalMessage(p, PCIMessage(if pci.Some? then pci.value else NO_PCI));
        r := if inner.Ok? then Ok(MapVolumeReply(Some(inner.value.address), scsi)) else inner;
      } else {
        var inner := UnmarshalMessage(p, SCSIMessage(if scsi.Some? then scsi.value else NO_DISK));
        r := if inner.Ok? then Ok(MapVolumeReply(pci, Some(inner.value.disk))) else inner;
      }
    case ValueMessage(v) => r := Ok(ValueMessage(if num == 1 then v.(path := p) else v.(value := p)));
    case GetValuesRequest(_) => r := Ok(GetValuesRequest(p));
    case CephMessage(c) =>
      var c' := if num == 1 then c.(userId := p) else if num == 2 then c.(secret := p)
                else if num == 3 then c.(monitors := p) else if num == 4 then c.(pool := p)
                else c.(image := p);
      r := Ok(CephMessage(c'));
    case UnmapVolumeRequest(_) => r := Ok(UnmapVolumeRequest(p));
    case ProvisionMallocBDevRequest(_, size) => r := Ok(ProvisionMallocBDevRequest(p, size));
    case CheckMallocBDevRequest(_) => r := Ok(CheckMallocBDevRequest(p));
  }

  /** One round of the outer loop of `Unmarshal`. */
  method ReadOneRecord(dAtA: Bytes, preIndex: nat, m: Message) returns (r: Result<Message, Error>, iNdEx: nat)
    requires preIndex < |dAtA|
    ensures match ReadRecord(dAtA[preIndex..], m)
            case Ok((m1, n)) => r == Ok(m1) && iNdEx == preIndex + n
            case Err(e) => r == Err(e)
    decreases |dAtA| - preIndex, 0
  {
    ghost var b := dAtA[preIndex..];
    var l := |dAtA|;
    var wire, end := ReadU64(dAtA, preIndex);
    iNdEx := end;
    if wire.Err? {
      return Err(wire.error), iNdEx;
    }
    var fieldNum, wireType := FieldNum(wire.value), WireType(wire.value);
    if wireType == 4 {
      return Err(EndGroup), iNdEx;
    }
    if fieldNum <= 0 {
      return Err(IllegalTag), iNdEx;
    }
    if Known(m, fieldNum) {
      if wireType != (if IsNumber(m, fieldNum) then 0 else 2) {
        return Err(WrongWireType), iNdEx;
      }
      assert b[end - preIndex..] == dAtA[end..];
      ReadKnownRecord(b, m, fieldNum, dAtA[end..]);
      if IsNumber(m, fieldNum) {
        r, iNdEx := ReadNumber(dAtA, end, m, fieldNum);
      } else {
        r, iNdEx := ReadDelimited(dAtA, end, m, fieldNum);
      }
    } else {
      iNdEx := preIndex;
      var skippy := SkipOim(dAtA[iNdEx..]);
      if skippy.Err? {
        return Err(skippy.error), iNdEx;
      }
      if iNdEx + skippy.value > l {
        return Err(UnexpectedEOF), iNdEx;
      }
      iNdEx := iNdEx + skippy.value;
      return Ok(m), iNdEx;
    }
  }

  /** `Unmarshal` into a message that already holds `m0`. */
  method UnmarshalMessage(dAtA: Bytes, m0: Message) returns (r: Result<Message, Error>)
    ensures r == Unmarshal(dAtA, m0)
    decreases |dAtA|, 1
  {
    var l := |dAtA|;
    var iNdEx := 0;
    var m := m0;
    assert dAtA[0..] == dAtA;
    while iNdEx < l
      invariant 0 <= iNdEx <= l
      invariant Unmarshal(dAtA, m0) == Unmarshal(dAtA[iNdEx..], m)
    {
      var next, end := ReadOneRecord(dAtA, iNdEx, m);
      if next.Err? {
        return Err(next.error);
      }
      assert dAtA[iNdEx..][end - iNdEx..] == dAtA[end..];
      m := next.value;
      iNdEx := end;
    }
    return Ok(m);
  }
}
