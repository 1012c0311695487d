/** The OIM messages and how their generated `Unmarshal` methods read them. */
module Messages {
  import opened Bits
  import opened Wrappers
  import opened Varint
  import opened Skip

  datatype Value = Value(path: Bytes, value: Bytes)
  datatype CephParams = CephParams(userId: Bytes, secret: Bytes, monitors: Bytes, pool: Bytes, image: Bytes)
  datatype PCIAddress = PCIAddress(domain: u32, bus: u32, device: u32, function_: u32)
  datatype SCSIDisk = SCSIDisk(target: u32, lun: u32)

  /** The oneof of MapVolumeRequest. */
  datatype Params = NoParams | Malloc | Ceph(ceph: CephParams)

  /** The messages without fields. */
  datatype Empty =
    SetValueReply | MallocParams | UnmapVolumeReply | ProvisionMallocBDevReply | CheckMallocBDevReply

  datatype Message =
    | SetValueRequest(value: Option<Value>)
    | ValueMessage(v: Value)
    | GetValuesRequest(path: Bytes)
    | GetValuesReply(values: seq<Value>)
    | MapVolumeRequest(volumeId: Bytes, params: Params)
    | CephMessage(ceph: CephParams)
    | MapVolumeReply(pci: Option<PCIAddress>, scsi: Option<SCSIDisk>)
    | PCIMessage(address: PCIAddress)
    | SCSIMessage(disk: SCSIDisk)
    | UnmapVolumeRequest(volumeId: Bytes)
    | ProvisionMallocBDevRequest(bdevName: Bytes, size: i64)
    | CheckMallocBDevRequest(bdevName: Bytes)
    | EmptyMessage(empty: Empty)

  const NO_VALUE := Value([], [])
  const NO_CEPH := CephParams([], [], [], [], [])
  const NO_PCI := PCIAddress(0, 0, 0, 0)
  const NO_DISK := SCSIDisk(0, 0)

  /** The message as `Reset` leaves it. */
  function Zero(m: Message): Message {
    match m
    case SetValueRequest(_) => SetValueRequest(None)
    case ValueMessage(_) => ValueMessage(NO_VALUE)
    case GetValuesRequest(_) => GetValuesRequest([])
    case GetValuesReply(_) => GetValuesReply([])
    case MapVolumeRequest(_, _) => MapVolumeRequest([], NoParams)
    case CephMessage(_) => CephMessage(NO_CEPH)
    case MapVolumeReply(_, _) => MapVolumeReply(None, None)
    case PCIMessage(_) => PCIMessage(NO_PCI)
    case SCSIMessage(_) => SCSIMessage(NO_DISK)
    case UnmapVolumeRequest(_) => UnmapVolumeRequest([])
    case ProvisionMallocBDevRequest(_, _) => ProvisionMallocBDevRequest([], 0)
    case CheckMallocBDevRequest(_) => CheckMallocBDevRequest([])
    case EmptyMessage(e) => EmptyMessage(e)
  }

  predicate SameKind(m: Message, m': Message) {
    Zero(m) == Zero(m')
  }

  /** The number of fields; they are numbered from 1. */
  function Fields(m: Message): nat {
    match m
    case SetValueRequest(_) => 1
    case ValueMessage(_) => 2
    case GetValuesRequest(_) => 1
    case GetValuesReply(_) => 1
    case MapVolumeRequest(_, _) => 3
    case CephMessage(_) => 5
    case MapVolumeReply(_, _) => 2
    case PCIMessage(_) => 4
    case SCSIMessage(_) => 2
    case UnmapVolumeRequest(_) => 1
    case ProvisionMallocBDevRequest(_, _) => 2
    case CheckMallocBDevRequest(_) => 1
    case EmptyMessage(_) => 0
  }

  predicate Known(m: Message, num: int) {
    1 <= num <= Fields(m)
  }

  /** Fields with wire type 0; the other known fields have wire type 2. */
  predicate IsNumber(m: Message, num: int) {
    m.PCIMessage? || m.SCSIMessage? || (m.ProvisionMallocBDevRequest? && num == 2)
  }

  // ---- Reading ----

  /** The bytes of a length-delimited field and how far they and their length reach. */
  function ReadBytes(rest: Bytes): (r: Result<(Bytes, nat), Error>)
    ensures r.Ok? ==> |r.value.0| < r.value.1 <= |rest|
  {
    match Decode(rest)
    case Err(e) => Err(e)
    case Ok((len, k)) =>
      if ToI64(len) < 0 then Err(InvalidLength)
      else if k + len > |rest| then Err(UnexpectedEOF)
      else Ok((rest[k..k + len], k + len))
  }

  function SetNumber(m: Message, num: int, v: u64): (m': Message)
    requires Known(m, num) && IsNumber(m, num)
    ensures SameKind(m, m')
  {
    match m
    case PCIMessage(a) =>
      var x := v % TWO32;
      PCIMessage(if num == 1 then a.(domain := x) else if num == 2 then a.(bus := x)
                 else if num == 3 then a.(device := x) else a.(function_ := x))
    case SCSIMessage(d) =>
      var x := v % TWO32;
      SCSIMessage(if num == 1 then d.(target := x) else d.(lun := x))
    case ProvisionMallocBDevRequest(name, _) => ProvisionMallocBDevRequest(name, ToI64(v))
  }

  /** Strings replace, embedded messages merge, repeated messages append, a oneof is replaced. */
  function SetBytes(m: Message, num: int, p: Bytes): (r: Result<Message, Error>)
    requires Known(m, num) && !IsNumber(m, num)
    ensures r.Ok? ==> SameKind(m, r.value)
    decreases |p|, 2
  {
    match m
    case SetValueRequest(value) =>
      (match Unmarshal(p, ValueMessage(if value.Some? then value.value else NO_VALUE))
       case Ok(inner) => Ok(SetValueRequest(Some(inner.v)))
       case Err(e) => Err(e))
    case ValueMessage(v) => Ok(ValueMessage(if num == 1 then v.(path := p) else v.(value := p)))
    case GetValuesRequest(_) => Ok(GetValuesRequest(p))
    case GetValuesReply(values) =>
      (match Unmarshal(p, ValueMessage(NO_VALUE))
       case Ok(inner) => Ok(GetValuesReply(values + [inner.v]))
       case Err(e) => Err(e))
    case MapVolumeRequest(id, params) =>
      if num == 1 then Ok(MapVolumeRequest(p, params))
      else if num == 2 then
        match Unmarshal(p, EmptyMessage(MallocParams))
        case Ok(_) => Ok(MapVolumeRequest(id, Malloc))
        case Err(e) => Err(e)
      else
        (match Unmarshal(p, CephMessage(NO_CEPH))
         case Ok(inner) => Ok(MapVolumeRequest(id, Ceph(inner.ceph)))
         case Err(e) => Err(e))
    case CephMessage(c) =>
      Ok(CephMessage(if num == 1 then c.(userId := p) else if num == 2 then c.(secret := p)
                     else if num == 3 then c.(monitors := p) else if num == 4 then c.(pool := p)
                     else c.(image := p)))
    case MapVolumeReply(pci, scsi) =>
      if num == 1 then
        match Unmarshal(p, PCIMessage(if pci.Some? then pci.value else NO_PCI))
        case Ok(inner) => Ok(MapVolumeReply(Some(inner.address), scsi))
        case Err(e) => Err(e)
      else
        (match Unmarshal(p, SCSIMessage(if scsi.Some? then scsi.value else NO_DISK))
         case Ok(inner) => Ok(MapVolumeReply(pci, Some(inner.disk)))
         case Err(e) => Err(e))
    case UnmapVolumeRequest(_) => Ok(UnmapVolumeRequest(p))
    case ProvisionMallocBDevRequest(_, size) => Ok(ProvisionMallocBDevRequest(p, size))
    case CheckMallocBDevRequest(_) => Ok(CheckMallocBDevRequest(p))
  }

  /** A known field after its tag: the message with the field and the number of bytes read. */
  function ReadField(m: Message, num: int, rest: Bytes): (r: Result<(Message, nat), Error>)
    requires Known(m, num)
    ensures r.Ok? ==> SameKind(m, r.value.0) && r.value.1 <= |rest|
    decreases |rest|, 0
  {
    if IsNumber(m, num) then
      match Decode(rest)
      case Err(e) => Err(e)
      case Ok((v, k)) => Ok((SetNumber(m, num, v), k))
    else
      match ReadBytes(rest)
      case Err(e) => Err(e)
      case Ok((p, k)) =>
        match SetBytes(m, num, p)
        case Err(e) => Err(e)
        case Ok(m') => Ok((m', k))
  }

  /** One record at the start of `b`: the message with it and the number of bytes read. */
  function ReadRecord(b: Bytes, m: Message): (r: Result<(Message, nat), Error>)
    requires b != []
    ensures r.Ok? ==> SameKind(m, r.value.0) && 1 <= r.value.1 <= |b|
    decreases |b|, 0
  {
    match Decode(b)
    case Err(e) => Err(e)
    case Ok((wire, n)) =>
      var num := FieldNum(wire);
      if WireType(wire) == 4 then Err(EndGroup)
      else if num <= 0 then Err(IllegalTag)
      else if !Known(m, num) then
        match SkipRecord(b)
        case Err(e) => Err(e)
        case Ok(k) => if k > |b| then Err(UnexpectedEOF) else Ok((m, k))
      else if WireType(wire) != (if IsNumber(m, num) then 0 else 2) then Err(WrongWireType)
      else
        match ReadField(m, num, b[n..])
        case Err(e) => Err(e)
        case Ok((m', k)) => Ok((m', n + k))
  }

  /** `Unmarshal` of `b` into a message that already holds `m`. */
  function Unmarshal(b: Bytes, m: Message): (r: Result<Message, Error>)
    ensures r.Ok? ==> SameKind(m, r.value)
    decreases |b|, 1
  {
    if b == [] then Ok(m)
    else
      match ReadRecord(b, m)
      case Err(e) => Err(e)
      case Ok((m', n)) => Unmarshal(b[n..], m')
  }

  // ---- Decoding is a fold over records ----

  lemma ReadBytesExtends(a: Bytes, b: Bytes)
    requires ReadBytes(a).Ok?
    ensures ReadBytes(a + b) == ReadBytes(a)
  {
    DecodeExtends(a, b);
    var k := Decode(a).value.1;
    var n := ReadBytes(a).value.1;
    assert (a + b)[k..n] == a[k..n];
  }

  lemma ReadFieldExtends(m: Message, num: int, a: Bytes, b: Bytes)
    requires Known(m, num) && ReadField(m, num, a).Ok?
    ensures ReadField(m, num, a + b) == ReadField(m, num, a)
  {
    if IsNumber(m, num) {
      DecodeExtends(a, b);
    } else {
      ReadBytesExtends(a, b);
    }
  }

  /** A record of a known field is its tag followed by what `ReadField` reads. */
  lemma ReadKnownRecord(b: Bytes, m: Message, num: int, rest: Bytes)
    requires Decode(b).Ok? && rest == b[Decode(b).value.1..] && num == FieldNum(Decode(b).value.0) && Known(m, num)
    requires WireType(Decode(b).value.0) == if IsNumber(m, num) then 0 else 2
    ensures var r := ReadField(m, num, rest);
            ReadRecord(b, m) == if r.Ok? then Ok((r.value.0, Decode(b).value.1 + r.value.1)) else Err(r.error)
  {
  }

  lemma ReadRecordExtends(a: Bytes, b: Bytes, m: Message)
    requires a != [] && ReadRecord(a, m).Ok?
    ensures ReadRecord(a + b, m) == ReadRecord(a, m)
  {
    hide Decode, ReadField, SkipRecord, Unmarshal;
    DecodeExtends(a, b);
    var (wire, n) := Decode(a).value;
    var num := FieldNum(wire);
    if Known(m, num) {
      assert (a + b)[n..] == a[n..] + b;
      ReadKnownRecord(a, m, num, a[n..]);
      ReadFieldExtends(m, num, a[n..], b);
      ReadKnownRecord(a + b, m, num, a[n..] + b);
    } else {
      SkipExtends(a, b);
    }
  }

  /** If `a` decodes, then decoding `a + b` is decoding `b` on top of the result, errors included. */
  lemma {:induction false} DecodingIsFold(a: Bytes, b: Bytes, m: Message)
    requires Unmarshal(a, m).Ok?
    ensures Unmarshal(a + b, m) == Unmarshal(b, Unmarshal(a, m).value)
    decreases |a|
  {
    if a == [] {
      assert a + b == b;
    } else {
      ReadRecordExtends(a, b, m);
      var (m', n) := ReadRecord(a, m).value;
      assert (a + b)[n..] == a[n..] + b;
      DecodingIsFold(a[n..], b, m');
    }
  }

  /** A record with an unknown field number, groups of any depth included and even if it is only of
      the lenient grammar, may stand at any record boundary without changing the outcome. */
  lemma UnknownRecordIsIgnored(a: Bytes, r: Record, b: Bytes, m: Message)
    requires Unmarshal(a, m).Ok? && Lenient(r)
    requires var num := FieldNum(TagValue(r.tag)); num > 0 && !Known(m, num)
    ensures Unmarshal(a + Serial(r) + b, m) == Unmarshal(a + b, m)
  {
    var m1 := Unmarshal(a, m).value;
    KindDeterminesFields(m, m1);
    assert a + Serial(r) + b == a + (Serial(r) + b);
    DecodingIsFold(a, Serial(r) + b, m);
    DecodingIsFold(a, b, m);
    SkipsWholeRecord(r, b);
    assert (Serial(r) + b)[|Serial(r)|..] == b;
  }

  /** After any records that decode, a record with an end-of-group tag, with an illegal number, or of a
      known field with the wrong wire type makes decoding fail, whatever follows. */
  lemma BadTagIsRefused(a: Bytes, tag: Bytes, b: Bytes, m: Message)
    requires Unmarshal(a, m).Ok? && IsVarint(tag)
    ensures var wireType, num := WireType(TagValue(tag)), FieldNum(TagValue(tag));
            && (wireType == 4 ==> Unmarshal(a + (tag + b), m) == Err(EndGroup))
            && (wireType != 4 && num <= 0 ==> Unmarshal(a + (tag + b), m) == Err(IllegalTag))
            && (wireType != 4 && Known(m, num) && wireType != (if IsNumber(m, num) then 0 else 2) ==>
                  Unmarshal(a + (tag + b), m) == Err(WrongWireType))
  {
    hide ReadField, Decode, SkipRecord;
    KindDeterminesFields(m, Unmarshal(a, m).value);
    DecodingIsFold(a, tag + b, m);
    TagAtStart(tag, b);
  }

  function LengthError(length: Bytes): Error {
    if Varint.Value(length) % TWO64 >= TWO63 then InvalidLength else UnexpectedEOF
  }

  lemma BadLengthRead(length: Bytes, b: Bytes)
    requires IsVarint(length) && Varint.Value(length) % TWO64 > |b|
    ensures ReadBytes(length + b) == Err(LengthError(length))
  {
    hide Decode, Varint.Value;
    TagAtStart(length, b);
  }

  lemma BadLengthRecord(num: nat, length: Bytes, b: Bytes, m: Message)
    requires Known(m, num) && !IsNumber(m, num) && IsVarint(length) && Varint.Value(length) % TWO64 > |b|
    ensures Unmarshal([num * 8 + 2] + (length + b), m) == Err(LengthError(length))
  {
    hide SetBytes, Decode, ReadRecord, ReadBytes, LengthError, Varint.Value, Unmarshal, IsVarint;
    var rest := length + b;
    TagByte(num * 8 + 2, rest);
    assert FieldNum(num * 8 + 2) == num && WireType(num * 8 + 2) == 2;
    ReadKnownRecord([num * 8 + 2] + rest, m, num, rest);
    BadLengthRead(length, b);
    assert ReadField(m, num, rest) == Err(LengthError(length));
    UnmarshalRecord([num * 8 + 2], rest, m);
  }

  /** The same for a length-delimited field whose length is negative or reaches past the input. */
  lemma BadLengthIsRefused(a: Bytes, num: nat, length: Bytes, b: Bytes, m: Message)
    requires Unmarshal(a, m).Ok? && Known(m, num) && !IsNumber(m, num) && IsVarint(length)
    requires Varint.Value(length) % TWO64 > |b|
    ensures Unmarshal(a + ([num * 8 + 2] + (length + b)), m) ==
            Err(if Varint.Value(length) % TWO64 >= TWO63 then InvalidLength else UnexpectedEOF)
  {
    hide Unmarshal, Varint.Value;
    KindDeterminesFields(m, Unmarshal(a, m).value);
    DecodingIsFold(a, [num * 8 + 2] + (length + b), m);
    BadLengthRecord(num, length, b, Unmarshal(a, m).value);
  }

  lemma KindDeterminesFields(m: Message, m': Message)
    requires SameKind(m, m')
    ensures Fields(m) == Fields(m') && forall num :: IsNumber(m, num) == IsNumber(m', num)
  {
  }

  // ---- Single fields ----

  /** The encoding of a length-delimited field, tag and length included. */
  function BytesField(num: nat, p: Bytes): Bytes
    requires 1 <= num < 16
  {
    [num * 8 + 2] + (Encode(|p|) + p)
  }

  function NumberField(num: nat, v: u64): Bytes
    requires 1 <= num < 16
  {
    [num * 8] + Encode(v)
  }

  lemma TagByte(t: byte, rest: Bytes)
    requires t < 128
    ensures Decode([t] + rest) == Ok((t, 1)) && ([t] + rest)[1..] == rest
  {
    assert [t][1..] == [];
    DecodeAcceptsVarints([t], rest);
  }

  lemma ReadsEncodedBytes(p: Bytes, rest: Bytes)
    requires |p| < TWO63
    ensures ReadBytes(Encode(|p|) + (p + rest)) == Ok((p, |Encode(|p|)| + |p|))
  {
    var tail := Encode(|p|) + (p + rest);
    var k := |Encode(|p|)|;
    RoundTrip(|p|, p + rest);
    assert tail[k..k + |p|] == p;
  }

  lemma BytesFieldIsRecord(m: Message, num: nat, p: Bytes, rest: Bytes)
    requires Known(m, num) && !IsNumber(m, num) && |p| < TWO63
    ensures var r := SetBytes(m, num, p);
            ReadRecord(BytesField(num, p) + rest, m) ==
            if r.Ok? then Ok((r.value, |BytesField(num, p)|)) else Err(r.error)
  {
    hide SetBytes, Decode;
    var tail := Encode(|p|) + (p + rest);
    assert BytesField(num, p) + rest == [num * 8 + 2] + tail;
    TagByte(num * 8 + 2, tail);
    ReadsEncodedBytes(p, rest);
    ReadKnownRecord(BytesField(num, p) + rest, m, num, tail);
  }

  lemma UnmarshalRecord(head: Bytes, rest: Bytes, m: Message)
    requires head != [] && (ReadRecord(head + rest, m).Ok? ==> ReadRecord(head + rest, m).value.1 == |head|)
    ensures var r := ReadRecord(head + rest, m);
            Unmarshal(head + rest, m) == if r.Ok? then Unmarshal(rest, r.value.0) else Err(r.error)
  {
    assert (head + rest)[|head|..] == rest;
  }

  /** A length-delimited field at the start is applied, and reading goes on behind it. */
  lemma ReadsBytesField(m: Message, num: nat, p: Bytes, rest: Bytes)
    requires Known(m, num) && !IsNumber(m, num) && |p| < TWO63
    ensures Unmarshal(BytesField(num, p) + rest, m) ==
            if SetBytes(m, num, p).Ok? then Unmarshal(rest, SetBytes(m, num, p).value) else SetBytes(m, num, p)
  {
    BytesFieldIsRecord(m, num, p, rest);
    UnmarshalRecord(BytesField(num, p), rest, m);
  }

  lemma NumberFieldIsRecord(m: Message, num: nat, v: u64, rest: Bytes)
    requires Known(m, num) && IsNumber(m, num)
    ensures ReadRecord(NumberField(num, v) + rest, m) == Ok((SetNumber(m, num, v), |NumberField(num, v)|))
  {
    var tail := Encode(v) + rest;
    assert NumberField(num, v) + rest == [num * 8] + tail;
    TagByte(num * 8, tail);
    RoundTrip(v, rest);
    ReadKnownRecord(NumberField(num, v) + rest, m, num, tail);
  }

  lemma ReadsNumberField(m: Message, num: nat, v: u64, rest: Bytes)
    requires Known(m, num) && IsNumber(m, num)
    ensures Unmarshal(NumberField(num, v) + rest, m) == Unmarshal(rest, SetNumber(m, num, v))
  {
    NumberFieldIsRecord(m, num, v, rest);
    UnmarshalRecord(NumberField(num, v), rest, m);
  }

  /** Repeated values append in order. */
  lemma RepeatedValuesAppend(p: Bytes, rest: Bytes, values: seq<Value>)
    requires |p| < TWO63 && Unmarshal(p, ValueMessage(NO_VALUE)).Ok?
    ensures Unmarshal(BytesField(1, p) + rest, GetValuesReply(values)) ==
            Unmarshal(rest, GetValuesReply(values + [Unmarshal(p, ValueMessage(NO_VALUE)).value.v]))
  {
    ReadsBytesField(GetValuesReply(values), 1, p, rest);
  }
}
