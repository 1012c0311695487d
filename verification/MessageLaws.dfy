/** What it means for a message that a field comes more than once, and in which order fields come:
    the later value replaces the earlier one, embedded messages merge, and records of different
    fields may change places. Any records may stand in between. */
module MessageLaws {
  import opened Wrappers
  import opened Varint
  import opened Skip
  import opened Messages

  /** The two numbers are one field, or members of one oneof. */
  predicate SameSlot(m: Message, num: int, k: int) {
    num == k || (m.MapVolumeRequest? && num >= 2 && k >= 2)
  }

  /** A message of whose fields only the last value counts: strings, numbers and the oneof. */
  predicate Replaces(m: Message) {
    !m.SetValueRequest? && !m.GetValuesReply? && !m.MapVolumeReply?
  }

  // ---- Messages that differ in one field only ----

  /** The message with one field reset. */
  function Without(m: Message, num: int): (w: Message)
    requires Known(m, num) && Replaces(m)
    ensures SameKind(m, w)
  {
    if IsNumber(m, num) then SetNumber(m, num, 0)
    else if m.MapVolumeRequest? && num >= 2 then MapVolumeRequest(m.volumeId, NoParams)
    else SetBytes(m, num, []).value
  }

  predicate Agree(m: Message, m': Message, num: int) {
    && SameKind(m, m') && Replaces(m) && Replaces(m') && Known(m, num) && Known(m', num)
    && Without(m, num) == Without(m', num)
  }

  /** Both fail with the same error, or both succeed and agree again. */
  predicate AgreeAfter(r: Result<Message, Error>, r': Result<Message, Error>, num: int) {
    if r.Ok? && r'.Ok? then Agree(r.value, r'.value, num) else r == r'
  }

  lemma SetNumberAgrees(m: Message, m': Message, num: int, k: int, v: u64)
    requires Agree(m, m', num) && Known(m, k) && IsNumber(m, k)
    ensures Known(m', k) && IsNumber(m', k) && Agree(SetNumber(m, k, v), SetNumber(m', k, v), num)
    ensures num == k ==> SetNumber(m, k, v) == SetNumber(m', k, v)
  {
  }

  lemma ParamsAgree(m: Message, m': Message, num: int, k: int, p: Bytes)
    requires m.MapVolumeRequest? && Agree(m, m', num) && Known(m, k)
    ensures Known(m', k) && AgreeAfter(SetBytes(m, k, p), SetBytes(m', k, p), num)
    ensures SameSlot(m, num, k) ==> SetBytes(m, k, p) == SetBytes(m', k, p)
  {
    hide Unmarshal;
    if k == 1 {
    } else if k == 2 {
    } else {
    }
  }

  lemma SetBytesAgrees(m: Message, m': Message, num: int, k: int, p: Bytes)
    requires Agree(m, m', num) && Known(m, k) && !IsNumber(m, k)
    ensures Known(m', k) && !IsNumber(m', k) && AgreeAfter(SetBytes(m, k, p), SetBytes(m', k, p), num)
    ensures SameSlot(m, num, k) ==> SetBytes(m, k, p) == SetBytes(m', k, p)
  {
    AgreeIsSameKind(m, m', num);
    KindDeterminesFields(m, m');
    hide Unmarshal, SetBytes, Agree;
    match m {
      case MapVolumeRequest(_, _) => ParamsAgree(m, m', num, k, p);
      case CephMessage(_) => CephAgrees(m, m', num, k, p);
      case _ => TextsAgree(m, m', num, k, p);
    }
  }

  lemma TextsAgree(m: Message, m': Message, num: int, k: int, p: Bytes)
    requires !m.MapVolumeRequest? && !m.CephMessage? && Agree(m, m', num) && Known(m, k) && !IsNumber(m, k)
    ensures Known(m', k) && !IsNumber(m', k) && AgreeAfter(SetBytes(m, k, p), SetBytes(m', k, p), num)
    ensures num == k ==> SetBytes(m, k, p) == SetBytes(m', k, p)
  {
    hide Unmarshal;
    match m
    case ValueMessage(_) => assert m'.ValueMessage?;
    case ProvisionMallocBDevRequest(_, _) => assert m'.ProvisionMallocBDevRequest?;
    case GetValuesRequest(_) => assert m'.GetValuesRequest?;
    case UnmapVolumeRequest(_) => assert m'.UnmapVolumeRequest?;
    case CheckMallocBDevRequest(_) => assert m'.CheckMallocBDevRequest?;
    case _ =>
  }

  lemma CephAgrees(m: Message, m': Message, num: int, k: int, p: Bytes)
    requires m.CephMessage? && Agree(m, m', num) && Known(m, k)
    ensures Known(m', k) && AgreeAfter(SetBytes(m, k, p), SetBytes(m', k, p), num)
    ensures num == k ==> SetBytes(m, k, p) == SetBytes(m', k, p)
  {
  }

  lemma ReadFieldAgrees(m: Message, m': Message, num: int, k: int, rest: Bytes)
    requires Agree(m, m', num) && Known(m, k)
    ensures Known(m', k)
    ensures var r, r' := ReadField(m, k, rest), ReadField(m', k, rest);
            if r.Ok? && r'.Ok? then r.value.1 == r'.value.1 && Agree(r.value.0, r'.value.0, num) else r == r'
  {
    hide Agree, SetBytes, SetNumber;
    KindDeterminesFields(m, m') by {
      AgreeIsSameKind(m, m', num);
    }
    if IsNumber(m, k) {
      if Decode(rest).Ok? {
        SetNumberAgrees(m, m', num, k, Decode(rest).value.0);
      }
    } else if ReadBytes(rest).Ok? {
      SetBytesAgrees(m, m', num, k, ReadBytes(rest).value.0);
    }
  }

  lemma AgreeIsSameKind(m: Message, m': Message, num: int)
    requires Agree(m, m', num)
    ensures SameKind(m, m')
  {
  }

  /** A record is that of a known field, with the right wire type. */
  predicate IsField(m: Message, b: Bytes) {
    && Decode(b).Ok?
    && var wire := Decode(b).value.0;
       Known(m, FieldNum(wire)) && WireType(wire) == if IsNumber(m, FieldNum(wire)) then 0 else 2
  }

  /** All other records are refused or skipped, depending on the kind of the message only. */
  lemma OtherRecord(m: Message, m': Message, b: Bytes)
    requires b != [] && !IsField(m, b) && SameKind(m, m')
    ensures var r, r' := ReadRecord(b, m), ReadRecord(b, m');
            if r.Ok? then r.value.0 == m && r' == Ok((m', r.value.1)) else r == r'
  {
    hide Decode, ReadField, SkipRecord;
    KindDeterminesFields(m, m');
  }

  lemma ReadRecordAgrees(m: Message, m': Message, num: int, b: Bytes)
    requires Agree(m, m', num) && b != []
    ensures var r, r' := ReadRecord(b, m), ReadRecord(b, m');
            if r.Ok? && r'.Ok? then r.value.1 == r'.value.1 && Agree(r.value.0, r'.value.0, num) else r == r'
  {
    hide Agree, ReadField, Decode, ReadRecord;
    AgreeIsSameKind(m, m', num);
    if IsField(m, b) {
      var (wire, n) := Decode(b).value;
      KindDeterminesFields(m, m');
      ReadKnownRecord(b, m, FieldNum(wire), b[n..]);
      ReadKnownRecord(b, m', FieldNum(wire), b[n..]);
      ReadFieldAgrees(m, m', num, FieldNum(wire), b[n..]);
    } else {
      OtherRecord(m, m', b);
    }
  }

  /** Decoding keeps the difference within the field. */
  lemma {:induction false} UnmarshalAgrees(m: Message, m': Message, num: int, b: Bytes)
    requires Agree(m, m', num)
    ensures AgreeAfter(Unmarshal(b, m), Unmarshal(b, m'), num)
    decreases |b|
  {
    hide Agree, ReadRecord;
    if b == [] {
    } else {
      ReadRecordAgrees(m, m', num, b);
      var r, r' := ReadRecord(b, m), ReadRecord(b, m');
      if r.Ok? && r'.Ok? {
        UnmarshalAgrees(r.value.0, r'.value.0, num, b[r.value.1..]);
      }
    }
  }

  // ---- The last one wins ----

  /** One occurrence of a field: bytes or a number. */
  datatype Occurrence = Text(num: nat, bytes: Bytes) | Numeric(num: nat, number: u64)

  predicate Fits(m: Message, o: Occurrence) {
    Known(m, o.num) && (IsNumber(m, o.num) <==> o.Numeric?)
  }

  function Store(m: Message, o: Occurrence): (r: Result<Message, Error>)
    requires Fits(m, o)
    ensures r.Ok? ==> SameKind(m, r.value)
  {
    match o
    case Text(num, p) => SetBytes(m, num, p)
    case Numeric(num, v) => Ok(SetNumber(m, num, v))
  }

  /** The record of an occurrence. */
  function Written(o: Occurrence): Bytes
    requires 1 <= o.num < 16
  {
    match o
    case Text(num, p) => BytesField(num, p)
    case Numeric(num, v) => NumberField(num, v)
  }

  predicate Writable(m: Message, o: Occurrence) {
    Fits(m, o) && (o.Text? ==> |o.bytes| < TWO63)
  }

  lemma ReadsOccurrence(m: Message, o: Occurrence, rest: Bytes)
    requires Writable(m, o)
    ensures Unmarshal(Written(o) + rest, m) ==
            if Store(m, o).Ok? then Unmarshal(rest, Store(m, o).value) else Store(m, o)
  {
    hide Unmarshal, SetBytes, SetNumber, BytesField, NumberField;
    match o
    case Text(num, p) => ReadsBytesField(m, num, p, rest);
    case Numeric(num, v) => ReadsNumberField(m, num, v, rest);
  }

  lemma StoreStaysInField(m: Message, o: Occurrence)
    requires Replaces(m) && Fits(m, o) && Store(m, o).Ok?
    ensures Agree(m, Store(m, o).value, o.num)
  {
    hide Unmarshal;
  }

  lemma StoreReplaces(m: Message, m': Message, num: int, o: Occurrence)
    requires Agree(m, m', num) && Fits(m, o) && SameSlot(m, num, o.num)
    ensures Fits(m', o) && Store(m, o) == Store(m', o)
  {
    hide SetBytes, SetNumber, Agree;
    AgreeIsSameKind(m, m', num);
    KindDeterminesFields(m, m');
    match o
    case Text(k, p) => SetBytesAgrees(m, m', num, k, p);
    case Numeric(k, v) =>
      NumbersAreNoOneof(m, num, k);
      SetNumberAgrees(m, m', num, k, v);
  }

  lemma NumbersAreNoOneof(m: Message, num: int, k: int)
    requires IsNumber(m, k) && SameSlot(m, num, k)
    ensures num == k
  {
  }

  /** Of two occurrences of a string, of a number or of the oneof, the earlier one has no effect,
      whatever records stand between them and around them. */
  lemma LastOneWins(a: Bytes, o: Occurrence, mid: Bytes, o': Occurrence, b: Bytes, m: Message)
    requires Replaces(m) && Writable(m, o) && Writable(m, o') && SameSlot(m, o.num, o'.num)
    requires Unmarshal(a, m).Ok? && Unmarshal(mid, Unmarshal(a, m).value).Ok?
    requires Fits(Unmarshal(a, m).value, o) && Store(Unmarshal(a, m).value, o).Ok?
    ensures Unmarshal(a + (Written(o) + (mid + (Written(o') + b))), m) == Unmarshal(a + (mid + (Written(o') + b)), m)
  {
    hide Unmarshal, Store, Agree, Written;
    var m1 := Unmarshal(a, m).value;
    KindDeterminesFields(m, m1);
    DecodingIsFold(a, Written(o) + (mid + (Written(o') + b)), m);
    DecodingIsFold(a, mid + (Written(o') + b), m);
    EarlierOneIsLost(o, mid, o', b, m1);
  }

  lemma EarlierOneIsLost(o: Occurrence, mid: Bytes, o': Occurrence, b: Bytes, m: Message)
    requires Replaces(m) && Writable(m, o) && Writable(m, o') && SameSlot(m, o.num, o'.num)
    requires Unmarshal(mid, m).Ok? && Store(m, o).Ok?
    ensures Unmarshal(Written(o) + (mid + (Written(o') + b)), m) == Unmarshal(mid + (Written(o') + b), m)
  {
    hide Unmarshal, Store, Agree, Written;
    var tail := Written(o') + b;
    var m' := Store(m, o).value;
    ReadsOccurrence(m, o, mid + tail);
    StoreStaysInField(m, o);
    UnmarshalAgrees(m, m', o.num, mid);
    DecodingIsFold(mid, tail, m);
    DecodingIsFold(mid, tail, m');
    var m1, m1' := Unmarshal(mid, m).value, Unmarshal(mid, m').value;
    KindDeterminesFields(m, m1);
    StoreReplaces(m1, m1', o.num, o');
    ReadsOccurrence(m1, o', b);
    ReadsOccurrence(m1', o', b);
  }

  // ---- Records of different fields may change places ----

  lemma StoresCommute(m: Message, o: Occurrence, o': Occurrence)
    requires Fits(m, o) && Fits(m, o') && !SameSlot(m, o.num, o'.num) && Store(m, o).Ok? && Store(m, o').Ok?
    ensures Fits(Store(m, o).value, o') && Fits(Store(m, o').value, o)
    ensures Store(Store(m, o).value, o').Ok? && Store(Store(m, o).value, o') == Store(Store(m, o').value, o)
  {
    hide Unmarshal;
    match m {
      case ValueMessage(_) =>
      case MapVolumeRequest(_, _) =>
      case CephMessage(_) =>
      case MapVolumeReply(_, _) =>
      case PCIMessage(_) =>
      case SCSIMessage(_) =>
      case ProvisionMallocBDevRequest(_, _) =>
      case _ =>
    }
  }

  /** The occurrence that a record of a known field holds. */
  function Held(m: Message, num: nat, rest: Bytes): (o: Occurrence)
    requires Known(m, num) && ReadField(m, num, rest).Ok?
    ensures Fits(m, o) && o.num == num && Store(m, o) == Ok(ReadField(m, num, rest).value.0)
  {
    if IsNumber(m, num) then Numeric(num, Decode(rest).value.0) else Text(num, ReadBytes(rest).value.0)
  }

  lemma FieldCommutes(m: Message, o: Occurrence, num: nat, rest: Bytes)
    requires Fits(m, o) && Store(m, o).Ok? && Known(m, num) && !SameSlot(m, o.num, num) && ReadField(m, num, rest).Ok?
    ensures var (m', n) := ReadField(m, num, rest).value;
            && Fits(m', o) && Store(m', o).Ok? && Known(Store(m, o).value, num)
            && ReadField(Store(m, o).value, num, rest) == Ok((Store(m', o).value, n))
  {
    var o' := Held(m, num, rest);
    StoresCommute(m, o, o');
    KindDeterminesFields(m, Store(m, o).value);
    hide SetBytes, SetNumber;
  }

  /** The number of the first record's field. */
  function FirstField(b: Bytes): int {
    if Decode(b).Ok? then FieldNum(Decode(b).value.0) else 0
  }

  lemma RecordCommutes(m: Message, o: Occurrence, b: Bytes)
    requires Fits(m, o) && Store(m, o).Ok? && b != [] && ReadRecord(b, m).Ok? && !SameSlot(m, o.num, FirstField(b))
    ensures var (m', n) := ReadRecord(b, m).value;
            && Fits(m', o) && Store(m', o).Ok?
            && ReadRecord(b, Store(m, o).value) == Ok((Store(m', o).value, n))
  {
    hide Store, ReadField, Decode, ReadRecord;
    var m1 := Store(m, o).value;
    KindDeterminesFields(m, m1);
    if IsField(m, b) {
      var (wire, n) := Decode(b).value;
      ReadKnownRecord(b, m, FieldNum(wire), b[n..]);
      ReadKnownRecord(b, m1, FieldNum(wire), b[n..]);
      FieldCommutes(m, o, FieldNum(wire), b[n..]);
    } else {
      OtherRecord(m, m1, b);
    }
  }

  /** The input decodes and holds no record of the field, or of the oneof that the field is in. */
  predicate Avoids(b: Bytes, m: Message, num: int)
    decreases |b|
  {
    b == [] ||
    (ReadRecord(b, m).Ok? && !SameSlot(m, num, FirstField(b)) &&
     Avoids(b[ReadRecord(b, m).value.1..], ReadRecord(b, m).value.0, num))
  }

  lemma {:induction false} StoreMovesPast(m: Message, o: Occurrence, mid: Bytes)
    requires Fits(m, o) && Store(m, o).Ok? && Avoids(mid, m, o.num)
    ensures Unmarshal(mid, m).Ok? && Fits(Unmarshal(mid, m).value, o) && Store(Unmarshal(mid, m).value, o).Ok?
    ensures Unmarshal(mid, Store(m, o).value) == Store(Unmarshal(mid, m).value, o)
    decreases |mid|
  {
    hide Store, ReadRecord, FirstField;
    if mid == [] {
    } else {
      RecordCommutes(m, o, mid);
      var (m', n) := ReadRecord(mid, m).value;
      StoreMovesPast(m', o, mid[n..]);
    }
  }

  /** A record may be moved behind any records of other fields: their order does not matter. */
  lemma FieldsMayChangePlaces(o: Occurrence, mid: Bytes, b: Bytes, m: Message)
    requires Writable(m, o) && Store(m, o).Ok? && Avoids(mid, m, o.num)
    ensures Unmarshal(Written(o) + (mid + b), m) == Unmarshal(mid + (Written(o) + b), m)
  {
    hide Unmarshal, Store, Written, Avoids;
    ReadsOccurrence(m, o, mid + b);
    StoreMovesPast(m, o, mid);
    var m1 := Unmarshal(mid, m).value;
    DecodingIsFold(mid, b, Store(m, o).value);
    DecodingIsFold(mid, Written(o) + b, m);
    ReadsOccurrence(m1, o, b);
  }

  // ---- Embedded messages merge ----

  predicate Merges(m: Message, num: nat) {
    (m.SetValueRequest? && num == 1) || (m.MapVolumeReply? && 1 <= num <= 2)
  }

  /** An embedded message that comes twice, with any records of other fields in between, is read as
      if the two encodings had been one. */
  lemma EmbeddedMessagesMerge(p: Bytes, mid: Bytes, q: Bytes, rest: Bytes, m: Message, num: nat)
    requires |p| + |q| < TWO63 && Merges(m, num) && SetBytes(m, num, p).Ok? && Avoids(mid, m, num)
    ensures Unmarshal(BytesField(num, p) + (mid + (BytesField(num, q) + rest)), m) ==
            Unmarshal(mid + (BytesField(num, p + q) + rest), m)
  {
    hide Unmarshal, BytesField, Avoids, SetBytes;
    FieldsMayChangePlaces(Text(num, p), mid, BytesField(num, q) + rest, m);
    StoreMovesPast(m, Text(num, p), mid);
    var m1 := Unmarshal(mid, m).value;
    MergesByKind(m, m1, num);
    DecodingIsFold(mid, BytesField(num, p) + (BytesField(num, q) + rest), m);
    DecodingIsFold(mid, BytesField(num, p + q) + rest, m);
    MergeInPlace(p, q, rest, m1, num);
  }

  lemma MergesByKind(m: Message, m': Message, num: nat)
    requires SameKind(m, m') && Merges(m, num)
    ensures Merges(m', num)
  {
  }

  lemma MergeInPlace(p: Bytes, q: Bytes, rest: Bytes, m: Message, num: nat)
    requires |p| + |q| < TWO63 && Merges(m, num) && SetBytes(m, num, p).Ok?
    ensures Unmarshal(BytesField(num, p) + (BytesField(num, q) + rest), m) ==
            Unmarshal(BytesField(num, p + q) + rest, m)
  {
    hide Unmarshal, SetBytes, BytesField;
    ReadsBytesField(m, num, p, BytesField(num, q) + rest);
    ReadsBytesField(m, num, p + q, rest);
    MergesByKind(m, SetBytes(m, num, p).value, num);
    ReadsBytesField(SetBytes(m, num, p).value, num, q, rest);
    SetTwiceIsMerge(m, num, p, q);
  }

  lemma SetTwiceIsMerge(m: Message, num: nat, p: Bytes, q: Bytes)
    requires Merges(m, num) && SetBytes(m, num, p).Ok?
    ensures SetBytes(SetBytes(m, num, p).value, num, q) == SetBytes(m, num, p + q)
  {
    hide ReadRecord;
    DecodingIsFold(p, q, Inner(m, num));
  }

  /** The embedded message that a field is decoded into. */
  function Inner(m: Message, num: nat): Message
    requires Merges(m, num)
  {
    if m.SetValueRequest? then ValueMessage(if m.value.Some? then m.value.value else NO_VALUE)
    else if num == 1 then PCIMessage(if m.pci.Some? then m.pci.value else NO_PCI)
    else SCSIMessage(if m.scsi.Some? then m.scsi.value else NO_DISK)
  }
}
