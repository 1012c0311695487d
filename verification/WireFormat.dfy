/** The wire format of the OIM messages, independently of the code that writes it: a table of fields
    and the records that the Protocol Buffers encoding makes of them. */
module WireFormat {
  import opened Wrappers
  import opened Varint
  import opened Skip
  import opened Messages
  import opened Marshal

  datatype Field = Text(text: Bytes) | Num(number: u64) | Embedded(messages: seq<Message>)

  /** The fields of a message in the order of their numbers, from 1 on. */
  function Schema(m: Message): (fields: seq<Field>)
    ensures |fields| == Fields(m)
    ensures forall i :: 0 <= i < |fields| ==> (fields[i].Num? <==> IsNumber(m, i + 1))
  {
    match m
    case SetValueRequest(value) => [Embedded(if value.None? then [] else [ValueMessage(value.value)])]
    case ValueMessage(v) => [Text(v.path), Text(v.value)]
    case GetValuesRequest(path) => [Text(path)]
    case GetValuesReply(values) => [Embedded(seq(|values|, i requires 0 <= i < |values| => ValueMessage(values[i])))]
    case MapVolumeRequest(volumeId, params) =>
      [Text(volumeId), Embedded(if params.Malloc? then [EmptyMessage(MallocParams)] else []),
       Embedded(if params.Ceph? then [CephMessage(params.ceph)] else [])]
    case CephMessage(c) => [Text(c.userId), Text(c.secret), Text(c.monitors), Text(c.pool), Text(c.image)]
    case MapVolumeReply(pci, scsi) =>
      [Embedded(if pci.None? then [] else [PCIMessage(pci.value)]),
       Embedded(if scsi.None? then [] else [SCSIMessage(scsi.value)])]
    case PCIMessage(a) => [Num(a.domain), Num(a.bus), Num(a.device), Num(a.function_)]
    case SCSIMessage(d) => [Num(d.target), Num(d.lun)]
    case UnmapVolumeRequest(volumeId) => [Text(volumeId)]
    case ProvisionMallocBDevRequest(bdevName, size) => [Text(bdevName), Num(ToU64(size))]
    case CheckMallocBDevRequest(bdevName) => [Text(bdevName)]
    case EmptyMessage(_) => []
  }

  function DelimitedRecord(num: nat, p: Bytes): Record
    requires 1 <= num < 16
  {
    Record([num * 8 + 2], Delimited(Encode(|p|), p))
  }

  /** The records of one field: none for an empty text and for zero, one for each embedded message. */
  function FieldRecords(num: nat, f: Field): seq<Record>
    requires 1 <= num < 16
  {
    match f
    case Text(p) => if p == [] then [] else [DelimitedRecord(num, p)]
    case Num(v) => if v == 0 then [] else [Record([num * 8], Number(Encode(v)))]
    case Embedded(ms) => seq(|ms|, i requires 0 <= i < |ms| => DelimitedRecord(num, Marshalled(ms[i])))
  }

  /** The records of the fields from number `num` on. */
  function Records(num: nat, fields: seq<Field>): seq<Record>
    requires 1 <= num && num + |fields| <= 16
    decreases |fields|
  {
    if fields == [] then [] else FieldRecords(num, fields[0]) + Records(num + 1, fields[1..])
  }

  function SerialAll(rs: seq<Record>): Bytes {
    if rs == [] then [] else Serial(rs[0]) + SerialAll(rs[1..])
  }

  lemma {:induction false} SerialAllAppend(rs: seq<Record>, qs: seq<Record>)
    ensures SerialAll(rs + qs) == SerialAll(rs) + SerialAll(qs)
    decreases |rs|
  {
    if rs == [] {
      assert rs + qs == qs;
    } else {
      assert (rs + qs)[1..] == rs[1..] + qs;
      SerialAllAppend(rs[1..], qs);
    }
  }

  lemma SerialOne(r: Record)
    ensures SerialAll([r]) == Serial(r)
  {
    assert [r][1..] == [];
  }

  function FieldBytes(num: nat, f: Field): Bytes
    requires 1 <= num < 16
  {
    SerialAll(FieldRecords(num, f))
  }

  lemma TextBytes(num: nat, p: Bytes)
    requires 1 <= num < 16
    ensures FieldBytes(num, Text(p)) == StringField(num, p)
  {
    SerialOne(DelimitedRecord(num, p));
  }

  lemma NumBytes(num: nat, v: u64)
    requires 1 <= num < 16
    ensures FieldBytes(num, Num(v)) == NonZeroField(num, v)
  {
    SerialOne(Record([num * 8], Number(Encode(v))));
  }

  lemma EmbeddedBytes(num: nat, m: Message)
    requires 1 <= num < 16
    ensures FieldBytes(num, Embedded([])) == []
    ensures FieldBytes(num, Embedded([m])) == BytesField(num, Marshalled(m))
  {
    var r := DelimitedRecord(num, Marshalled(m));
    assert FieldRecords(num, Embedded([m])) == [r];
    SerialOne(r);
  }

  lemma {:induction false} ValueRecords(values: seq<Value>)
    ensures var ms := seq(|values|, i requires 0 <= i < |values| => ValueMessage(values[i]));
            FieldBytes(1, Embedded(ms)) == ValuesBytes(values)
    decreases |values|
  {
    var ms := seq(|values|, i requires 0 <= i < |values| => ValueMessage(values[i]));
    var rs := FieldRecords(1, Embedded(ms));
    if values == [] {
    } else {
      var tail := values[1..];
      var ns := seq(|tail|, i requires 0 <= i < |tail| => ValueMessage(tail[i]));
      ValueRecords(tail);
      assert rs[1..] == FieldRecords(1, Embedded(ns));
      assert SerialAll(rs) == Serial(rs[0]) + SerialAll(rs[1..]);
      assert Serial(rs[0]) == BytesField(1, Marshalled(ValueMessage(values[0])));
    }
  }

  lemma RecordsStep(num: nat, fields: seq<Field>)
    requires 1 <= num && num + |fields| <= 16 && fields != []
    ensures SerialAll(Records(num, fields)) == FieldBytes(num, fields[0]) + SerialAll(Records(num + 1, fields[1..]))
  {
    SerialAllAppend(FieldRecords(num, fields[0]), Records(num + 1, fields[1..]));
  }

  lemma OneField(num: nat, a: Field)
    requires 1 <= num < 16
    ensures SerialAll(Records(num, [a])) == FieldBytes(num, a)
  {
    RecordsStep(num, [a]);
    assert [a][1..] == [];
  }

  lemma TwoFields(num: nat, a: Field, b: Field)
    requires 1 <= num < 15
    ensures SerialAll(Records(num, [a, b])) == FieldBytes(num, a) + FieldBytes(num + 1, b)
  {
    RecordsStep(num, [a, b]);
    assert [a, b][1..] == [b];
    OneField(num + 1, b);
  }

  lemma ThreeFields(num: nat, a: Field, b: Field, c: Field)
    requires 1 <= num < 14
    ensures SerialAll(Records(num, [a, b, c])) == FieldBytes(num, a) + (FieldBytes(num + 1, b) + FieldBytes(num + 2, c))
  {
    RecordsStep(num, [a, b, c]);
    assert [a, b, c][1..] == [b, c];
    TwoFields(num + 1, b, c);
  }

  lemma FourFields(num: nat, a: Field, b: Field, c: Field, d: Field)
    requires 1 <= num < 13
    ensures SerialAll(Records(num, [a, b, c, d])) ==
            FieldBytes(num, a) + (FieldBytes(num + 1, b) + (FieldBytes(num + 2, c) + FieldBytes(num + 3, d)))
  {
    RecordsStep(num, [a, b, c, d]);
    assert [a, b, c, d][1..] == [b, c, d];
    ThreeFields(num + 1, b, c, d);
  }

  lemma CephRecords(c: CephParams)
    ensures SerialAll(Records(1, Schema(CephMessage(c)))) == Marshalled(CephMessage(c))
  {
    hide Records, FieldBytes, SerialAll, StringField;
    var fs := Schema(CephMessage(c));
    TextBytes(1, c.userId);
    TextBytes(2, c.secret);
    TextBytes(3, c.monitors);
    TextBytes(4, c.pool);
    TextBytes(5, c.image);
    RecordsStep(1, fs);
    assert fs[1..] == [Text(c.secret), Text(c.monitors), Text(c.pool), Text(c.image)];
    FourFields(2, Text(c.secret), Text(c.monitors), Text(c.pool), Text(c.image));
  }

  lemma PCIRecords(a: PCIAddress)
    ensures SerialAll(Records(1, Schema(PCIMessage(a)))) == Marshalled(PCIMessage(a))
  {
    hide Records, FieldBytes, SerialAll, NonZeroField;
    NumBytes(1, a.domain);
    NumBytes(2, a.bus);
    NumBytes(3, a.device);
    NumBytes(4, a.function_);
    FourFields(1, Num(a.domain), Num(a.bus), Num(a.device), Num(a.function_));
  }

  lemma MapRequestRecords(id: Bytes, params: Params)
    ensures var m := MapVolumeRequest(id, params); SerialAll(Records(1, Schema(m))) == Marshalled(m)
  {
    hide Records, FieldBytes, SerialAll, StringField, BytesField;
    var fs := Schema(MapVolumeRequest(id, params));
    TextBytes(1, id);
    ThreeFields(1, fs[0], fs[1], fs[2]);
    EmbeddedBytes(2, EmptyMessage(MallocParams));
    EmbeddedBytes(3, if params.Ceph? then CephMessage(params.ceph) else EmptyMessage(MallocParams));
  }

  lemma MapReplyRecords(pci: Option<PCIAddress>, scsi: Option<SCSIDisk>)
    ensures var m := MapVolumeReply(pci, scsi); SerialAll(Records(1, Schema(m))) == Marshalled(m)
  {
    hide Records, FieldBytes, SerialAll, BytesField;
    var fs := Schema(MapVolumeReply(pci, scsi));
    TwoFields(1, fs[0], fs[1]);
    EmbeddedBytes(1, if pci.Some? then PCIMessage(pci.value) else EmptyMessage(MallocParams));
    EmbeddedBytes(2, if scsi.Some? then SCSIMessage(scsi.value) else EmptyMessage(MallocParams));
  }

  lemma ReplyRecords(m: Message)
    requires m.SetValueRequest? || m.GetValuesReply?
    ensures SerialAll(Records(1, Schema(m))) == Marshalled(m)
  {
    hide Records, FieldBytes, SerialAll, BytesField;
    OneField(1, Schema(m)[0]);
    if m.GetValuesReply? {
      ValueRecords(m.values);
    } else {
      EmbeddedBytes(1, if m.value.Some? then ValueMessage(m.value.value) else EmptyMessage(MallocParams));
    }
  }

  lemma SmallRecords(m: Message)
    requires Fields(m) <= 2 && Depth(m) == 0
    ensures SerialAll(Records(1, Schema(m))) == Marshalled(m)
  {
    hide FieldBytes, StringField, NonZeroField;
    var fs := Schema(m);
    if |fs| == 1 {
      OneField(1, fs[0]);
      TextBytes(1, fs[0].text);
    } else if |fs| == 2 {
      TwoFields(1, fs[0], fs[1]);
      if fs[0].Text? {
        TextBytes(1, fs[0].text);
      } else {
        NumBytes(1, fs[0].number);
      }
      if fs[1].Text? {
        TextBytes(2, fs[1].text);
      } else {
        NumBytes(2, fs[1].number);
      }
    }
  }

  // ---- The records are those of the known fields ----

  function FieldOf(r: Record): int {
    FieldNum(TagValue(r.tag))
  }

  /** A record for field `num`, as a number or length-delimited. */
  predicate RecordOf(r: Record, num: nat, isNumber: bool) {
    WellFormed(r) && FieldOf(r) == num && Kind(r.payload) == if isNumber then 0 else 2
  }

  lemma OneByteTag(num: nat, wireType: nat)
    requires 1 <= num < 16 && wireType < 8
    ensures TagOf([num * 8 + wireType], wireType) && FieldNum(TagValue([num * 8 + wireType])) == num
    ensures TagNumber([num * 8 + wireType]) == num
  {
    var t := num * 8 + wireType;
    assert [t][1..] == [];
    assert Varint.Value([t]) == t % 128 + 128 * Varint.Value([]);
  }

  lemma DelimitedFits(num: nat, p: Bytes)
    requires 1 <= num < 16 && |p| < TWO63
    ensures RecordOf(DelimitedRecord(num, p), num, false)
  {
    hide Varint.Value, Encode;
    OneByteTag(num, 2);
    EncodeIsVarint(|p|);
    EncodeFitsTenBytes(|p|);
    assert WellFormedPayload(DelimitedRecord(num, p).payload, num);
    assert TagOf(DelimitedRecord(num, p).tag, 2) && TagNumber(DelimitedRecord(num, p).tag) == num;
  }

  lemma NumberFits(num: nat, v: u64)
    requires 1 <= num < 16
    ensures RecordOf(Record([num * 8], Number(Encode(v))), num, true)
  {
    hide Varint.Value, Encode;
    OneByteTag(num, 0);
    EncodeIsVarint(v);
    EncodeFitsTenBytes(v);
    assert WellFormedPayload(Number(Encode(v)), num);
    assert TagOf([num * 8], 0) && TagNumber([num * 8]) == num;
  }

  lemma {:induction false} RecordIsNoLonger(rs: seq<Record>, r: Record)
    requires r in rs
    ensures |Serial(r)| <= |SerialAll(rs)|
    decreases |rs|
  {
    if r == rs[0] {
    } else {
      RecordIsNoLonger(rs[1..], r);
    }
  }

  lemma FieldRecordsFit(num: nat, f: Field, r: Record)
    requires 1 <= num < 16 && |FieldBytes(num, f)| < TWO63 && r in FieldRecords(num, f)
    ensures RecordOf(r, num, f.Num?)
  {
    hide RecordOf, Marshalled;
    RecordIsNoLonger(FieldRecords(num, f), r);
    if f.Num? {
      NumberFits(num, f.number);
    } else {
      assert r == DelimitedRecord(num, r.payload.bytes);
      DelimitedFits(num, r.payload.bytes);
    }
  }

  predicate Ascending(rs: seq<Record>) {
    forall i, j :: 0 <= i < j < |rs| ==> FieldOf(rs[i]) <= FieldOf(rs[j])
  }

  /** Every record is one of the fields from number `num` on, with the wire type of that field. */
  ghost predicate Fit(rs: seq<Record>, num: nat, fields: seq<Field>) {
    forall r :: r in rs ==>
      num <= FieldOf(r) < num + |fields| && RecordOf(r, FieldOf(r), fields[FieldOf(r) - num].Num?)
  }

  lemma {:induction false} RecordsFit(num: nat, fields: seq<Field>)
    requires 1 <= num && num + |fields| <= 16 && |SerialAll(Records(num, fields))| < TWO63
    ensures Fit(Records(num, fields), num, fields) && Ascending(Records(num, fields))
    decreases |fields|
  {
    hide RecordOf, SerialAll, FieldRecords, FieldOf, Serial;
    if fields == [] {
    } else {
      RecordsStep(num, fields);
      RecordsFit(num + 1, fields[1..]);
      forall r | r in FieldRecords(num, fields[0]) ensures RecordOf(r, num, fields[0].Num?) && FieldOf(r) == num {
        FieldRecordsFit(num, fields[0], r);
        NumberOfRecord(r, num, fields[0].Num?);
      }
    }
  }

  lemma NumberOfRecord(r: Record, num: nat, isNumber: bool)
    requires RecordOf(r, num, isNumber)
    ensures FieldOf(r) == num
  {
  }

  /** What is written for any message is the concatenation of well-formed records: those of its
      fields as the interface numbers them, in that order, each with the wire type of its field. */
  lemma MarshalledIsRecords(m: Message)
    requires |Marshalled(m)| < TWO63
    ensures var rs := Records(1, Schema(m));
            && Marshalled(m) == SerialAll(rs) && Ascending(rs)
            && forall r :: r in rs ==>
                 WellFormed(r) && Known(m, FieldOf(r)) && Kind(r.payload) == if IsNumber(m, FieldOf(r)) then 0 else 2
  {
    hide Records, Marshalled, SerialAll;
    match m {
    case SetValueRequest(_) => ReplyRecords(m);
    case GetValuesReply(_) => ReplyRecords(m);
    case MapVolumeRequest(id, params) => MapRequestRecords(id, params);
    case CephMessage(c) => CephRecords(c);
    case MapVolumeReply(pci, scsi) => MapReplyRecords(pci, scsi);
    case PCIMessage(a) => PCIRecords(a);
    case _ => SmallRecords(m);
    }
    RecordsFit(1, Schema(m));
  }
}
