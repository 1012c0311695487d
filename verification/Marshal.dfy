/** How the OIM messages are written, and that reading gives back what was written. */
module Marshal {
  import opened Wrappers
  import opened Varint
  import opened Messages

  /** Embedded messages have no embedded messages of their own. */
  function Depth(m: Message): nat {
    if m.SetValueRequest? || m.GetValuesReply? || m.MapVolumeRequest? || m.MapVolumeReply? then 1 else 0
  }

  /** Empty strings and zero numbers are left out; embedded messages are written even when empty. */
  function StringField(num: nat, p: Bytes): Bytes
    requires 1 <= num < 16
  {
    if p == [] then [] else BytesField(num, p)
  }

  function NonZeroField(num: nat, v: u64): Bytes
    requires 1 <= num < 16
  {
    if v == 0 then [] else NumberField(num, v)
  }

  /** The bytes of a message. */
  function Marshalled(m: Message): Bytes
    decreases Depth(m), 0
  {
    match m
    case SetValueRequest(value) => if value.None? then [] else BytesField(1, Marshalled(ValueMessage(value.value)))
    case ValueMessage(v) => StringField(1, v.path) + StringField(2, v.value)
    case GetValuesRequest(path) => StringField(1, path)
    case GetValuesReply(values) => ValuesBytes(values)
    case MapVolumeRequest(id, params) => StringField(1, id) + ParamsBytes(params)
    case CephMessage(c) =>
      StringField(1, c.userId) + (StringField(2, c.secret) + (StringField(3, c.monitors) +
      (StringField(4, c.pool) + StringField(5, c.image))))
    case MapVolumeReply(pci, scsi) =>
      (if pci.None? then [] else BytesField(1, Marshalled(PCIMessage(pci.value)))) +
      (if scsi.None? then [] else BytesField(2, Marshalled(SCSIMessage(scsi.value))))
    case PCIMessage(a) =>
      NonZeroField(1, a.domain) + (NonZeroField(2, a.bus) + (NonZeroField(3, a.device) + NonZeroField(4, a.function_)))
    case SCSIMessage(d) => NonZeroField(1, d.target) + NonZeroField(2, d.lun)
    case UnmapVolumeRequest(id) => StringField(1, id)
    case ProvisionMallocBDevRequest(name, size) => StringField(1, name) + NonZeroField(2, ToU64(size))
    case CheckMallocBDevRequest(name) => StringField(1, name)
    case EmptyMessage(_) => []
  }

  function ValuesBytes(values: seq<Value>): Bytes
    decreases 0, 1, |values|
  {
    if values == [] then [] else BytesField(1, Marshalled(ValueMessage(values[0]))) + ValuesBytes(values[1..])
  }

  function ParamsBytes(params: Params): Bytes
    decreases 0, 1, 0
  {
    match params
    case NoParams => []
    case Malloc => BytesField(2, Marshalled(EmptyMessage(MallocParams)))
    case Ceph(c) => BytesField(3, Marshalled(CephMessage(c)))
  }

  // ---- Sizes ----

  function SizeOfBytes(l: nat): nat {
    1 + l + Sov(l)
  }

  function SizeOfString(l: nat): nat {
    if l > 0 then SizeOfBytes(l) else 0
  }

  function SizeOfNumber(v: u64): nat {
    if v != 0 then 1 + Sov(v) else 0
  }

  /** `Size`. */
  function Size(m: Message): nat
    decreases Depth(m), 0
  {
    match m
    case SetValueRequest(value) => if value.None? then 0 else SizeOfBytes(Size(ValueMessage(value.value)))
    case ValueMessage(v) => SizeOfString(|v.path|) + SizeOfString(|v.value|)
    case GetValuesRequest(path) => SizeOfString(|path|)
    case GetValuesReply(values) => SizeOfValues(values)
    case MapVolumeRequest(id, params) => SizeOfString(|id|) + SizeOfParams(params)
    case CephMessage(c) =>
      SizeOfString(|c.userId|) + SizeOfString(|c.secret|) + SizeOfString(|c.monitors|) +
      SizeOfString(|c.pool|) + SizeOfString(|c.image|)
    case MapVolumeReply(pci, scsi) =>
      (if pci.None? then 0 else SizeOfBytes(Size(PCIMessage(pci.value)))) +
      (if scsi.None? then 0 else SizeOfBytes(Size(SCSIMessage(scsi.value))))
    case PCIMessage(a) =>
      SizeOfNumber(a.domain) + SizeOfNumber(a.bus) + SizeOfNumber(a.device) + SizeOfNumber(a.function_)
    case SCSIMessage(d) => SizeOfNumber(d.target) + SizeOfNumber(d.lun)
    case UnmapVolumeRequest(id) => SizeOfString(|id|)
    case ProvisionMallocBDevRequest(name, size) => SizeOfString(|name|) + SizeOfNumber(ToU64(size))
    case CheckMallocBDevRequest(name) => SizeOfString(|name|)
    case EmptyMessage(_) => 0
  }

  function SizeOfValues(values: seq<Value>): nat
    decreases 0, 1, |values|
  {
    if values == [] then 0 else SizeOfBytes(Size(ValueMessage(values[0]))) + SizeOfValues(values[1..])
  }

  function SizeOfParams(params: Params): nat
    decreases 0, 1, 0
  {
    match params
    case NoParams => 0
    case Malloc => SizeOfBytes(Size(EmptyMessage(MallocParams)))
    case Ceph(c) => SizeOfBytes(Size(CephMessage(c)))
  }

  lemma FieldSizes(num: nat, p: Bytes)
    requires 1 <= num < 16
    ensures |BytesField(num, p)| == SizeOfBytes(|p|) && |StringField(num, p)| == SizeOfString(|p|)
  {
    SovIsLength(|p|);
  }

  lemma NumberSize(num: nat, v: u64)
    requires 1 <= num < 16
    ensures |NonZeroField(num, v)| == SizeOfNumber(v)
  {
    SovIsLength(v);
  }

  /** `Size` is exactly the number of bytes written, for every message. */
  lemma {:induction false} SizeIsExact(m: Message)
    ensures Size(m) == |Marshalled(m)|
    decreases Depth(m), 0
  {
    hide BytesField, StringField, NonZeroField, SizeOfBytes, SizeOfString, SizeOfNumber;
    match m
    case SetValueRequest(value) =>
      if value.Some? {
        SizeIsExact(ValueMessage(value.value));
        FieldSizes(1, Marshalled(ValueMessage(value.value)));
      }
    case ValueMessage(v) =>
      FieldSizes(1, v.path);
      FieldSizes(2, v.value);
    case GetValuesRequest(path) => FieldSizes(1, path);
    case GetValuesReply(values) => ValuesSizeIsExact(values);
    case MapVolumeRequest(id, params) =>
      FieldSizes(1, id);
      match params {
        case NoParams =>
        case Malloc => FieldSizes(2, Marshalled(EmptyMessage(MallocParams)));
        case Ceph(c) =>
          SizeIsExact(CephMessage(c));
          FieldSizes(3, Marshalled(CephMessage(c)));
      }
    case CephMessage(c) =>
      FieldSizes(1, c.userId);
      FieldSizes(2, c.secret);
      FieldSizes(3, c.monitors);
      FieldSizes(4, c.pool);
      FieldSizes(5, c.image);
    case MapVolumeReply(pci, scsi) =>
      if pci.Some? {
        SizeIsExact(PCIMessage(pci.value));
        FieldSizes(1, Marshalled(PCIMessage(pci.value)));
      }
      if scsi.Some? {
        SizeIsExact(SCSIMessage(scsi.value));
        FieldSizes(2, Marshalled(SCSIMessage(scsi.value)));
      }
    case PCIMessage(a) =>
      NumberSize(1, a.domain);
      NumberSize(2, a.bus);
      NumberSize(3, a.device);
      NumberSize(4, a.function_);
    case SCSIMessage(d) =>
      NumberSize(1, d.target);
      NumberSize(2, d.lun);
    case UnmapVolumeRequest(id) => FieldSizes(1, id);
    case ProvisionMallocBDevRequest(name, size) =>
      FieldSizes(1, name);
      NumberSize(2, ToU64(size));
    case CheckMallocBDevRequest(name) => FieldSizes(1, name);
    case EmptyMessage(_) =>
  }

  lemma {:induction false} ValuesSizeIsExact(values: seq<Value>)
    ensures SizeOfValues(values) == |ValuesBytes(values)|
    decreases 0, 1, |values|
  {
    if values == [] {
    } else {
      SizeIsExact(ValueMessage(values[0]));
      FieldSizes(1, Marshalled(ValueMessage(values[0])));
      ValuesSizeIsExact(values[1..]);
    }
  }

  // ---- Round trip ----

  /** Reading a string field as it is written, from a message in which the field is still empty. */
  lemma ReadsStringField(m: Message, num: nat, p: Bytes, rest: Bytes)
    requires Known(m, num) && !IsNumber(m, num) && |p| < TWO63
    requires SetBytes(m, num, p).Ok? && (p == [] ==> SetBytes(m, num, p).value == m)
    ensures Unmarshal(StringField(num, p) + rest, m) == Unmarshal(rest, SetBytes(m, num, p).value)
  {
    if p == [] {
      assert StringField(num, p) + rest == rest;
    } else {
      ReadsBytesField(m, num, p, rest);
    }
  }

  lemma ReadsLastString(m: Message, num: nat, p: Bytes)
    requires Known(m, num) && !IsNumber(m, num) && |p| < TWO63
    requires SetBytes(m, num, p).Ok? && (p == [] ==> SetBytes(m, num, p).value == m)
    ensures Unmarshal(StringField(num, p), m) == SetBytes(m, num, p)
  {
    ReadsStringField(m, num, p, []);
    assert StringField(num, p) + [] == StringField(num, p);
  }

  lemma ReadsNonZeroField(m: Message, num: nat, v: u64, rest: Bytes)
    requires Known(m, num) && IsNumber(m, num)
    requires v == 0 ==> SetNumber(m, num, v) == m
    ensures Unmarshal(NonZeroField(num, v) + rest, m) == Unmarshal(rest, SetNumber(m, num, v))
  {
    if v == 0 {
      assert NonZeroField(num, v) + rest == rest;
    } else {
      ReadsNumberField(m, num, v, rest);
    }
  }

  lemma FieldHoldsLess(num: nat, p: Bytes)
    requires 1 <= num < 16
    ensures |p| <= |StringField(num, p)| && |p| < |BytesField(num, p)|
  {
  }

  lemma ValueRoundTrip(v: Value)
    requires |v.path| < TWO63 && |v.value| < TWO63
    ensures Unmarshal(Marshalled(ValueMessage(v)), ValueMessage(NO_VALUE)) == Ok(ValueMessage(v))
  {
    var m1 := ValueMessage(Value(v.path, []));
    ReadsStringField(ValueMessage(NO_VALUE), 1, v.path, StringField(2, v.value));
    ReadsLastString(m1, 2, v.value);
  }

  lemma CephRoundTrip(c: CephParams)
    requires |c.userId| < TWO63 && |c.secret| < TWO63 && |c.monitors| < TWO63 && |c.pool| < TWO63 && |c.image| < TWO63
    ensures Unmarshal(Marshalled(CephMessage(c)), CephMessage(NO_CEPH)) == Ok(CephMessage(c))
  {
    hide Unmarshal, StringField;
    var f5 := StringField(5, c.image);
    var f4 := StringField(4, c.pool) + f5;
    var f3 := StringField(3, c.monitors) + f4;
    var f2 := StringField(2, c.secret) + f3;
    ReadsStringField(CephMessage(NO_CEPH), 1, c.userId, f2);
    ReadsStringField(CephMessage(CephParams(c.userId, [], [], [], [])), 2, c.secret, f3);
    ReadsStringField(CephMessage(CephParams(c.userId, c.secret, [], [], [])), 3, c.monitors, f4);
    ReadsStringField(CephMessage(CephParams(c.userId, c.secret, c.monitors, [], [])), 4, c.pool, f5);
    ReadsLastString(CephMessage(CephParams(c.userId, c.secret, c.monitors, c.pool, [])), 5, c.image);
  }

  lemma SetsPCIFields(a: PCIAddress)
    ensures SetNumber(PCIMessage(NO_PCI), 1, a.domain) == PCIMessage(PCIAddress(a.domain, 0, 0, 0))
    ensures SetNumber(PCIMessage(PCIAddress(a.domain, 0, 0, 0)), 2, a.bus) ==
            PCIMessage(PCIAddress(a.domain, a.bus, 0, 0))
    ensures SetNumber(PCIMessage(PCIAddress(a.domain, a.bus, 0, 0)), 3, a.device) ==
            PCIMessage(PCIAddress(a.domain, a.bus, a.device, 0))
    ensures SetNumber(PCIMessage(PCIAddress(a.domain, a.bus, a.device, 0)), 4, a.function_) == PCIMessage(a)
  {
  }

  lemma PCIRoundTrip(a: PCIAddress)
    ensures Unmarshal(Marshalled(PCIMessage(a)), PCIMessage(NO_PCI)) == Ok(PCIMessage(a))
  {
    var f4 := NonZeroField(4, a.function_);
    var f3 := NonZeroField(3, a.device) + f4;
    var f2 := NonZeroField(2, a.bus) + f3;
    SetsPCIFields(a);
    ReadsNonZeroField(PCIMessage(NO_PCI), 1, a.domain, f2);
    ReadsNonZeroField(PCIMessage(PCIAddress(a.domain, 0, 0, 0)), 2, a.bus, f3);
    ReadsNonZeroField(PCIMessage(PCIAddress(a.domain, a.bus, 0, 0)), 3, a.device, f4);
    ReadsLastNumber(PCIMessage(PCIAddress(a.domain, a.bus, a.device, 0)), 4, a.function_);
  }

  lemma ReadsLastNumber(m: Message, num: nat, v: u64)
    requires Known(m, num) && IsNumber(m, num)
    requires v == 0 ==> SetNumber(m, num, v) == m
    ensures Unmarshal(NonZeroField(num, v), m) == Ok(SetNumber(m, num, v))
  {
    ReadsNonZeroField(m, num, v, []);
    assert NonZeroField(num, v) + [] == NonZeroField(num, v);
  }

  lemma SCSIRoundTrip(d: SCSIDisk)
    ensures Unmarshal(Marshalled(SCSIMessage(d)), SCSIMessage(NO_DISK)) == Ok(SCSIMessage(d))
  {
    assert SetNumber(SCSIMessage(NO_DISK), 1, d.target) == SCSIMessage(SCSIDisk(d.target, 0));
    assert SetNumber(SCSIMessage(SCSIDisk(d.target, 0)), 2, d.lun) == SCSIMessage(d);
    ReadsNonZeroField(SCSIMessage(NO_DISK), 1, d.target, NonZeroField(2, d.lun));
    ReadsLastNumber(SCSIMessage(SCSIDisk(d.target, 0)), 2, d.lun);
  }

  lemma ProvisionRoundTrip(name: Bytes, size: i64)
    requires |name| < TWO63
    ensures var m := ProvisionMallocBDevRequest(name, size); Unmarshal(Marshalled(m), Zero(m)) == Ok(m)
  {
    ReadsStringField(ProvisionMallocBDevRequest([], 0), 1, name, NonZeroField(2, ToU64(size)));
    ReadsLastNumber(ProvisionMallocBDevRequest(name, 0), 2, ToU64(size));
  }

  lemma {:induction false} ValuesRoundTrip(values: seq<Value>, before: seq<Value>)
    requires |ValuesBytes(values)| < TWO63
    ensures Unmarshal(ValuesBytes(values), GetValuesReply(before)) == Ok(GetValuesReply(before + values))
    decreases |values|
  {
    hide BytesField, Marshalled;
    if values == [] {
      assert before + values == before;
    } else {
      var v := values[0];
      var rest := ValuesBytes(values[1..]);
      ReadsOneValue(v, rest, before);
      ValuesRoundTrip(values[1..], before + [v]);
      assert before + [v] + values[1..] == before + values;
    }
  }

  lemma ReadsOneValue(v: Value, rest: Bytes, before: seq<Value>)
    requires |BytesField(1, Marshalled(ValueMessage(v)))| < TWO63
    ensures Unmarshal(BytesField(1, Marshalled(ValueMessage(v))) + rest, GetValuesReply(before)) ==
            Unmarshal(rest, GetValuesReply(before + [v]))
  {
    var p := Marshalled(ValueMessage(v));
    FieldHoldsLess(1, p);
    ValueFits(v);
    ValueRoundTrip(v);
    RepeatedValuesAppend(p, rest, before);
  }

  lemma ValueFits(v: Value)
    ensures |v.path| + |v.value| <= |Marshalled(ValueMessage(v))|
  {
    FieldHoldsLess(1, v.path);
    FieldHoldsLess(2, v.value);
  }

  lemma CephFits(c: CephParams)
    ensures |c.userId| + |c.secret| + |c.monitors| + |c.pool| + |c.image| <= |Marshalled(CephMessage(c))|
  {
    FieldHoldsLess(1, c.userId);
    FieldHoldsLess(2, c.secret);
    FieldHoldsLess(3, c.monitors);
    FieldHoldsLess(4, c.pool);
    FieldHoldsLess(5, c.image);
  }

  lemma SetValueRoundTrip(v: Value)
    requires |Marshalled(SetValueRequest(Some(v)))| < TWO63
    ensures var m := SetValueRequest(Some(v)); Unmarshal(Marshalled(m), Zero(m)) == Ok(m)
  {
    var p := Marshalled(ValueMessage(v));
    FieldHoldsLess(1, p);
    ValueFits(v);
    ValueRoundTrip(v);
    ReadsBytesField(SetValueRequest(None), 1, p, []);
    assert BytesField(1, p) + [] == BytesField(1, p);
  }

  lemma MapRequestRoundTrip(id: Bytes, params: Params)
    requires |Marshalled(MapVolumeRequest(id, params))| < TWO63
    ensures var m := MapVolumeRequest(id, params); Unmarshal(Marshalled(m), Zero(m)) == Ok(m)
  {
    var m1 := MapVolumeRequest(id, NoParams);
    var f := ParamsBytes(params);
    FieldHoldsLess(1, id);
    ReadsStringField(MapVolumeRequest([], NoParams), 1, id, f);
    assert f + [] == f;
    match params
    case NoParams =>
    case Malloc =>
      ReadsBytesField(m1, 2, [], []);
    case Ceph(c) =>
      var p := Marshalled(CephMessage(c));
      FieldHoldsLess(3, p);
      CephFits(c);
      CephRoundTrip(c);
      ReadsBytesField(m1, 3, p, []);
  }

  lemma MapReplyRoundTrip(pci: Option<PCIAddress>, scsi: Option<SCSIDisk>)
    requires |Marshalled(MapVolumeReply(pci, scsi))| < TWO63
    ensures var m := MapVolumeReply(pci, scsi); Unmarshal(Marshalled(m), Zero(m)) == Ok(m)
  {
    var f2 := if scsi.None? then [] else BytesField(2, Marshalled(SCSIMessage(scsi.value)));
    var m1 := MapVolumeReply(pci, None);
    if pci.Some? {
      var p := Marshalled(PCIMessage(pci.value));
      FieldHoldsLess(1, p);
      PCIRoundTrip(pci.value);
      ReadsBytesField(MapVolumeReply(None, None), 1, p, f2);
    } else {
      assert [] + f2 == f2;
    }
    if scsi.Some? {
      var p := Marshalled(SCSIMessage(scsi.value));
      FieldHoldsLess(2, p);
      SCSIRoundTrip(scsi.value);
      ReadsBytesField(m1, 2, p, []);
      assert f2 + [] == f2;
    }
  }

  /** A message with one string field. */
  lemma OneStringRoundTrip(m: Message)
    requires m.GetValuesRequest? || m.UnmapVolumeRequest? || m.CheckMallocBDevRequest?
    requires |Marshalled(m)| < TWO63
    ensures Unmarshal(Marshalled(m), Zero(m)) == Ok(m)
  {
    var p := if m.GetValuesRequest? then m.path else if m.UnmapVolumeRequest? then m.volumeId else m.bdevName;
    FieldHoldsLess(1, p);
    ReadsLastString(Zero(m), 1, p);
  }

  /** The messages that are written as nothing. */
  lemma NothingRoundTrip(m: Message)
    requires m == SetValueRequest(None) || m.EmptyMessage?
    ensures Unmarshal(Marshalled(m), Zero(m)) == Ok(m)
  {
  }

  /** Every OIM message that fits into memory is read back from its encoding. */
  lemma RoundTripOfMessages(m: Message)
    requires |Marshalled(m)| < TWO63
    ensures Unmarshal(Marshalled(m), Zero(m)) == Ok(m)
  {
    hide Unmarshal, StringField, NonZeroField, BytesField;
    match m
    case SetValueRequest(value) =>
      if value.Some? {
        SetValueRoundTrip(value.value);
      } else {
        NothingRoundTrip(m);
      }
    case ValueMessage(v) =>
      ValueFits(v);
      ValueRoundTrip(v);
    case GetValuesReply(values) =>
      ValuesRoundTrip(values, []);
      assert [] + values == values;
    case MapVolumeRequest(id, params) => MapRequestRoundTrip(id, params);
    case CephMessage(c) =>
      CephFits(c);
      CephRoundTrip(c);
    case MapVolumeReply(pci, scsi) => MapReplyRoundTrip(pci, scsi);
    case PCIMessage(a) => PCIRoundTrip(a);
    case SCSIMessage(d) => SCSIRoundTrip(d);
    case ProvisionMallocBDevRequest(name, size) =>
      FieldHoldsLess(1, name);
      ProvisionRoundTrip(name, size);
    case EmptyMessage(_) => NothingRoundTrip(m);
    case _ => OneStringRoundTrip(m);
  }

  /** Different messages of one kind have different encodings. */
  lemma EncodingIsInjective(m: Message, m': Message)
    requires SameKind(m, m') && |Marshalled(m)| < TWO63
    ensures Marshalled(m) == Marshalled(m') ==> m == m'
  {
    if Marshalled(m) == Marshalled(m') {
      RoundTripOfMessages(m);
      RoundTripOfMessages(m');
    }
  }
}
