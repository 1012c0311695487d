/** Stepping over records that a message does not know: `skipOim`. */
module Skip {
  import opened Wrappers
  import opened Varint

  function WireType(wire: u64): nat {
    wire % 8
  }

  /** `int32(wire >> 3)`. */
  function FieldNum(wire: u64): int {
    var n := wire / 8 % TWO32;
    if n >= 0x8000_0000 then n - TWO32 else n
  }

  /** The number of bytes that the record at the start of `b` takes. For the fixed-size and the
      length-delimited wire types that may be more than there is; the callers check. */
  function SkipRecord(b: Bytes): (r: Result<nat, Error>)
    requires b != []
    ensures r.Ok? ==> r.value >= 1
    decreases |b|, 1
  {
    match Decode(b)
    case Err(e) => Err(e)
    case Ok((wire, n)) => Plus(n, SkipPayload(WireType(wire), b[n..]))
  }

  function Plus(n: nat, r: Result<nat, Error>): Result<nat, Error> {
    match r case Ok(k) => Ok(n + k) case Err(e) => Err(e)
  }

  /** The number of bytes after the tag. */
  function SkipPayload(wireType: nat, b: Bytes): (r: Result<nat, Error>)
    decreases |b|, 3
  {
    match wireType
    case 0 => Scan(b, 0)
    case 1 => Ok(8)
    case 2 =>
      (match Decode(b)
       case Err(e) => Err(e)
       case Ok((len, k)) => if ToI64(len) < 0 then Err(InvalidLength) else Ok(k + len))
    case 3 => SkipGroup(b)
    case 4 => Ok(0)
    case 5 => Ok(4)
    case _ => Err(IllegalWireType)
  }

  /** The number of bytes up to and including the end of the group whose body `b` starts with. */
  function SkipGroup(b: Bytes): (r: Result<nat, Error>)
    ensures r.Ok? ==> 1 <= r.value <= |b|
    decreases |b|, 2
  {
    match Decode(b)
    case Err(e) => Err(e)
    case Ok((wire, n)) =>
      if WireType(wire) == 4 then Ok(n)
      else
        match SkipRecord(b)
        case Err(e) => Err(e)
        case Ok(k) => if k > |b| then Err(UnexpectedEOF) else Plus(k, SkipGroup(b[k..]))
  }

  // ---- The grammar of records ----

  datatype Record = Record(tag: Bytes, payload: Payload)

  datatype Payload =
    | Number(value: Bytes)
    | Fixed64(bytes: Bytes)
    | Delimited(length: Bytes, bytes: Bytes)
    | Group(body: Body)
    | Fixed32(bytes: Bytes)

  /** Records up to an end-of-group tag. */
  datatype Body = End(tag: Bytes) | More(head: Record, tail: Body)

  function Kind(p: Payload): nat {
    match p
    case Number(_) => 0
    case Fixed64(_) => 1
    case Delimited(_, _) => 2
    case Group(_) => 3
    case Fixed32(_) => 5
  }

  function TagValue(tag: Bytes): u64 {
    Value(tag) % TWO64
  }

  predicate TagOf(tag: Bytes, wireType: nat) {
    IsVarint(tag) && WireType(TagValue(tag)) == wireType
  }

  /** The grammar that `skipOim` goes by. It asks less than the Protocol Buffers encoding: nothing of
      field numbers, and of the end of a group only that it is an end-of-group tag. */
  predicate Lenient(r: Record) {
    TagOf(r.tag, Kind(r.payload)) && LenientPayload(r.payload)
  }

  predicate LenientPayload(p: Payload) {
    match p
    case Number(value) => IsVarint(value)
    case Fixed64(bytes) => |bytes| == 8
    case Delimited(length, bytes) => IsVarint(length) && Value(length) % TWO64 == |bytes| && |bytes| < TWO63
    case Group(body) => LenientBody(body)
    case Fixed32(bytes) => |bytes| == 4
  }

  predicate LenientBody(body: Body) {
    match body
    case End(tag) => TagOf(tag, 4)
    case More(head, tail) => Lenient(head) && LenientBody(tail)
  }

  /** The field number of a tag before the code cuts it to 32 bits. */
  function TagNumber(tag: Bytes): nat {
    TagValue(tag) / 8
  }

  predicate LegalNumber(num: nat) {
    1 <= num <= 0x1FFF_FFFF
  }

  /** The grammar of the Protocol Buffers encoding: field numbers are legal, and a group ends with
      the tag of its own number. */
  predicate WellFormed(r: Record) {
    && TagOf(r.tag, Kind(r.payload)) && LegalNumber(TagNumber(r.tag))
    && WellFormedPayload(r.payload, TagNumber(r.tag))
  }

  predicate WellFormedPayload(p: Payload, num: nat) {
    match p
    case Number(value) => IsVarint(value)
    case Fixed64(bytes) => |bytes| == 8
    case Delimited(length, bytes) => IsVarint(length) && Value(length) % TWO64 == |bytes| && |bytes| < TWO63
    case Group(body) => WellFormedBody(body, num)
    case Fixed32(bytes) => |bytes| == 4
  }

  predicate WellFormedBody(body: Body, num: nat) {
    match body
    case End(tag) => TagOf(tag, 4) && TagNumber(tag) == num
    case More(head, tail) => WellFormed(head) && WellFormedBody(tail, num)
  }

  function Serial(r: Record): Bytes {
    r.tag + SerialPayload(r.payload)
  }

  function SerialPayload(p: Payload): Bytes {
    match p
    case Number(value) => value
    case Fixed64(bytes) => bytes
    case Delimited(length, bytes) => length + bytes
    case Group(body) => SerialBody(body)
    case Fixed32(bytes) => bytes
  }

  function SerialBody(body: Body): Bytes {
    match body
    case End(tag) => tag
    case More(head, tail) => Serial(head) + SerialBody(tail)
  }

  // ---- skipOim accepts exactly the lenient grammar ----

  lemma TagAtStart(tag: Bytes, rest: Bytes)
    requires IsVarint(tag)
    ensures Decode(tag + rest) == Ok((TagValue(tag), |tag|))
    ensures (tag + rest)[|tag|..] == rest
  {
    DecodeAcceptsVarints(tag, rest);
  }

  /** `skipOim` steps over every record of the lenient grammar exactly, however deep its groups nest. */
  lemma {:induction false} SkipsWholeRecord(r: Record, rest: Bytes)
    requires Lenient(r)
    ensures Serial(r) + rest != []
    ensures SkipRecord(Serial(r) + rest) == Ok(|Serial(r)|)
    ensures Decode(Serial(r) + rest) == Ok((TagValue(r.tag), |r.tag|))
    decreases r, 1
  {
    var tail := SerialPayload(r.payload) + rest;
    assert Serial(r) + rest == r.tag + tail;
    TagAtStart(r.tag, tail);
    SkipsWholePayload(r.payload, rest);
  }

  lemma {:induction false} SkipsWholePayload(p: Payload, rest: Bytes)
    requires LenientPayload(p)
    ensures SkipPayload(Kind(p), SerialPayload(p) + rest) == Ok(|SerialPayload(p)|)
    decreases p, 1
  {
    match p
    case Number(value) => DecodeAcceptsVarints(value, rest);
    case Fixed64(_) =>
    case Delimited(length, bytes) =>
      assert length + bytes + rest == length + (bytes + rest);
      TagAtStart(length, bytes + rest);
    case Group(body) => SkipsWholeBody(body, rest);
    case Fixed32(_) =>
  }

  lemma {:induction false} SkipsWholeBody(body: Body, rest: Bytes)
    requires LenientBody(body)
    ensures SkipGroup(SerialBody(body) + rest) == Ok(|SerialBody(body)|)
    decreases body, 1
  {
    hide Decode, SkipRecord;
    match body
    case End(tag) => TagAtStart(tag, rest);
    case More(head, tail) =>
      var b := SerialBody(body) + rest;
      assert b == Serial(head) + (SerialBody(tail) + rest);
      SkipsWholeRecord(head, SerialBody(tail) + rest);
      assert b[|Serial(head)|..] == SerialBody(tail) + rest;
      SkipsWholeBody(tail, rest);
  }

  lemma VarintAtStart(b: Bytes)
    requires Decode(b).Ok?
    ensures var n := Decode(b).value.1;
            IsVarint(b[..n]) && Value(b[..n]) % TWO64 == Decode(b).value.0
  {
    var n := Decode(b).value.1;
    assert b == b[..n] + b[n..];
    DecodeAcceptsVarints(b[..n], b[n..]);
  }

  /** Whatever `skipOim` steps over inside its input is a lone end-of-group tag or one record
      of the lenient grammar. */
  lemma {:induction false} SkippedIsRecord(b: Bytes) returns (r: Record)
    requires b != [] && SkipRecord(b).Ok? && SkipRecord(b).value <= |b|
    ensures var n := SkipRecord(b).value;
            if WireType(Decode(b).value.0) == 4 then TagOf(b[..n], 4) else Lenient(r) && Serial(r) == b[..n]
    decreases |b|, 1
  {
    VarintAtStart(b);
    var (wire, n) := Decode(b).value;
    if WireType(wire) == 4 {
      r := Record(b[..n], Number([]));
    } else {
      var p := SkippedIsPayload(WireType(wire), b[n..]);
      r := Record(b[..n], p);
      var k := SkipPayload(WireType(wire), b[n..]).value;
      assert b[..n + k] == b[..n] + b[n..][..k];
    }
  }

  lemma {:induction false} SkippedIsPayload(wireType: nat, b: Bytes) returns (p: Payload)
    requires wireType != 4 && SkipPayload(wireType, b).Ok? && SkipPayload(wireType, b).value <= |b|
    ensures LenientPayload(p) && Kind(p) == wireType && SerialPayload(p) == b[..SkipPayload(wireType, b).value]
    decreases |b|, 3
  {
    var k := SkipPayload(wireType, b).value;
    match wireType
    case 0 =>
      VarintAtStart(b);
      p := Number(b[..k]);
    case 1 => p := Fixed64(b[..k]);
    case 2 =>
      VarintAtStart(b);
      var n := Decode(b).value.1;
      p := Delimited(b[..n], b[n..k]);
      assert b[..n] + b[n..k] == b[..k];
    case 3 =>
      var body := SkippedIsBody(b);
      p := Group(body);
    case _ => p := Fixed32(b[..k]);
  }

  lemma {:induction false} SkippedIsBody(b: Bytes) returns (body: Body)
    requires SkipGroup(b).Ok?
    ensures LenientBody(body) && SerialBody(body) == b[..SkipGroup(b).value]
    decreases |b|, 2
  {
    VarintAtStart(b);
    var (wire, n) := Decode(b).value;
    if WireType(wire) == 4 {
      body := End(b[..n]);
    } else {
      var k := SkipRecord(b).value;
      var head := SkippedIsRecord(b);
      var tail := SkippedIsBody(b[k..]);
      body := More(head, tail);
      assert b[..SkipGroup(b).value] == b[..k] + b[k..][..SkipGroup(b[k..]).value];
    }
  }

  /** Inside its input `skipOim` accepts exactly the records of the lenient grammar and the
      end-of-group tags, on every input. */
  lemma SkipAcceptsExactlyRecords(b: Bytes, n: nat)
    requires b != [] && n <= |b|
    ensures SkipRecord(b) == Ok(n) <==> TagOf(b[..n], 4) || exists r :: Lenient(r) && Serial(r) == b[..n]
  {
    hide Varint.Value, Scan;
    if SkipRecord(b) == Ok(n) {
      var r := SkippedIsRecord(b);
      assert TagOf(b[..n], 4) || (Lenient(r) && Serial(r) == b[..n]);
    }
    if TagOf(b[..n], 4) {
      assert b == b[..n] + b[n..];
      TagAtStart(b[..n], b[n..]);
    }
    if r :| Lenient(r) && Serial(r) == b[..n] {
      assert b == Serial(r) + b[n..];
      SkipsWholeRecord(r, b[n..]);
    }
  }

  /** More input does not change how much is skipped. */
  lemma SkipExtends(a: Bytes, b: Bytes)
    requires a != [] && SkipRecord(a).Ok? && SkipRecord(a).value <= |a|
    ensures SkipRecord(a + b) == SkipRecord(a)
  {
    VarintAtStart(a);
    DecodeExtends(a, b);
    if WireType(Decode(a).value.0) != 4 {
      var n := SkipRecord(a).value;
      var r := SkippedIsRecord(a);
      assert a + b == Serial(r) + (a[n..] + b);
      SkipsWholeRecord(r, a[n..] + b);
    }
  }

  /** `skipOim` with its mutable index; it is never called on an empty input, so the `panic` at
      its end is not reached, and it recurses only on shorter suffixes. */
  method SkipOim(dAtA: Bytes) returns (r: Result<nat, Error>)
    requires dAtA != []
    ensures r == SkipRecord(dAtA)
    decreases |dAtA|, 1
  {
    hide Decode, SkipPayload;
    assert dAtA[0..] == dAtA;
    var wire, iNdEx := ReadU64(dAtA, 0);
    if wire.Err? {
      return Err(wire.error);
    }
    r := SkipOimPayload(dAtA, iNdEx, WireType(wire.value));
  }

  /** The `switch` of `skipOim` over the wire type. */
  method SkipOimPayload(dAtA: Bytes, iNdEx: nat, wireType: nat) returns (r: Result<nat, Error>)
    requires 0 < iNdEx <= |dAtA|
    ensures r == Plus(iNdEx, SkipPayload(wireType, dAtA[iNdEx..]))
    decreases |dAtA|, 0, 1
  {
    hide Decode, SkipGroup, Scan;
    match wireType
    case 0 =>
      var skipped, end := ReadVarint(dAtA, iNdEx, 64);
      return if skipped.Ok? then Ok(end) else Err(skipped.error);
    case 1 => return Ok(iNdEx + 8);
    case 2 =>
      var length, end := ReadU64(dAtA, iNdEx);
      if length.Err? {
        return Err(length.error);
      }
      if ToI64(length.value) < 0 {
        return Err(InvalidLength);
      }
      return Ok(end + length.value);
    case 3 => r := SkipOimGroup(dAtA, iNdEx);
    case 4 => return Ok(iNdEx);
    case 5 => return Ok(iNdEx + 4);
    case _ => return Err(IllegalWireType);
  }

  /** The inner loop of `skipOim` over the body of a group. */
  method SkipOimGroup(dAtA: Bytes, first: nat) returns (r: Result<nat, Error>)
    requires 0 < first <= |dAtA|
    ensures r == Plus(first, SkipGroup(dAtA[first..]))
    decreases |dAtA|, 0, 0
  {
    hide Decode, SkipRecord;
    var iNdEx := first;
    while true
      invariant first <= iNdEx <= |dAtA|
      invariant Plus(first, SkipGroup(dAtA[first..])) == Plus(iNdEx, SkipGroup(dAtA[iNdEx..]))
      decreases |dAtA| - iNdEx
    {
      var start := iNdEx;
      ghost var b := dAtA[start..];
      var innerWire, end := ReadU64(dAtA, iNdEx);
      if innerWire.Err? {
        return Err(innerWire.error);
      }
      if WireType(innerWire.value) == 4 {
        return Ok(end);
      }
      var next := SkipOim(dAtA[start..]);
      if next.Err? {
        return Err(next.error);
      }
      iNdEx := start + next.value;
      if iNdEx > |dAtA| {
        return Err(UnexpectedEOF);
      }
      assert b[next.value..] == dAtA[iNdEx..];
    }
  }
}
