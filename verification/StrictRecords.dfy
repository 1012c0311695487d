/** How far `skipOim` is more lenient than the Protocol Buffers encoding. */
module StrictRecords {
  import opened Wrappers
  import opened Varint
  import opened Skip
  import opened Messages

  // ---- The grammar is unambiguous ----

  lemma SameStart(a: Bytes, x: Bytes, b: Bytes, y: Bytes)
    requires a + x == b + y && |a| == |b|
    ensures a == b && x == y
  {
    assert a == (a + x)[..|a|] && x == (a + x)[|a|..];
    assert b == (b + y)[..|b|] && y == (b + y)[|b|..];
  }

  lemma SameVarint(a: Bytes, x: Bytes, b: Bytes, y: Bytes)
    requires IsVarint(a) && IsVarint(b) && a + x == b + y
    ensures a == b && x == y
  {
    TagAtStart(a, x);
    TagAtStart(b, y);
    SameStart(a, x, b, y);
  }

  /** Bytes are those of one record at most. */
  lemma {:induction false} RecordIsUnique(r: Record, s: Record)
    requires Lenient(r) && Lenient(s) && Serial(r) == Serial(s)
    ensures r == s
    decreases r, 1
  {
    SameVarint(r.tag, SerialPayload(r.payload), s.tag, SerialPayload(s.payload));
    PayloadIsUnique(r.payload, s.payload);
  }

  lemma {:induction false} PayloadIsUnique(p: Payload, q: Payload)
    requires LenientPayload(p) && LenientPayload(q) && Kind(p) == Kind(q) && SerialPayload(p) == SerialPayload(q)
    ensures p == q
    decreases p, 1
  {
    match p
    case Number(_) =>
    case Fixed64(_) =>
    case Delimited(length, bytes) => SameVarint(length, bytes, q.length, q.bytes);
    case Group(body) => BodyIsUnique(body, q.body);
    case Fixed32(_) =>
  }

  lemma FirstTag(body: Body) returns (rest: Bytes)
    requires LenientBody(body)
    ensures var tag := if body.End? then body.tag else body.head.tag;
            && IsVarint(tag) && SerialBody(body) == tag + rest
            && (WireType(TagValue(tag)) == 4 <==> body.End?)
  {
    if body.End? {
      rest := [];
      assert body.tag + [] == body.tag;
    } else {
      rest := SerialPayload(body.head.payload) + SerialBody(body.tail);
    }
  }

  lemma {:induction false} BodyIsUnique(body: Body, other: Body)
    requires LenientBody(body) && LenientBody(other) && SerialBody(body) == SerialBody(other)
    ensures body == other
    decreases body, 1
  {
    var x := FirstTag(body);
    var y := FirstTag(other);
    SameVarint(if body.End? then body.tag else body.head.tag, x, if other.End? then other.tag else other.head.tag, y);
    if body.More? {
      SkipsWholeRecord(body.head, SerialBody(body.tail));
      SkipsWholeRecord(other.head, SerialBody(other.tail));
      SameStart(Serial(body.head), SerialBody(body.tail), Serial(other.head), SerialBody(other.tail));
      RecordIsUnique(body.head, other.head);
      BodyIsUnique(body.tail, other.tail);
    }
  }

  // ---- What skipOim accepts beyond the encoding ----

  /** The numbers of all records in a record, its own first. */
  function Numbers(r: Record): seq<nat> {
    [TagNumber(r.tag)] + if r.payload.Group? then NumbersIn(r.payload.body) else []
  }

  function NumbersIn(body: Body): seq<nat> {
    if body.End? then [] else Numbers(body.head) + NumbersIn(body.tail)
  }

  /** The numbers at the start and at the end of all groups in a record. */
  function Ends(r: Record): seq<(nat, nat)> {
    if r.payload.Group? then EndsIn(r.payload.body, TagNumber(r.tag)) else []
  }

  function EndsIn(body: Body, num: nat): seq<(nat, nat)> {
    if body.End? then [(num, TagNumber(body.tag))] else Ends(body.head) + EndsIn(body.tail, num)
  }

  predicate AllLegal(numbers: seq<nat>) {
    forall i :: 0 <= i < |numbers| ==> LegalNumber(numbers[i])
  }

  predicate AllMatch(ends: seq<(nat, nat)>) {
    forall i :: 0 <= i < |ends| ==> ends[i].0 == ends[i].1
  }

  lemma AllLegalAppend(a: seq<nat>, b: seq<nat>)
    ensures AllLegal(a + b) <==> AllLegal(a) && AllLegal(b)
  {
    assert forall i :: 0 <= i < |a| ==> (a + b)[i] == a[i];
    assert forall i :: 0 <= i < |b| ==> (a + b)[|a| + i] == b[i];
  }

  lemma AllMatchAppend(a: seq<(nat, nat)>, b: seq<(nat, nat)>)
    ensures AllMatch(a + b) <==> AllMatch(a) && AllMatch(b)
  {
    assert forall i :: 0 <= i < |a| ==> (a + b)[i] == a[i];
    assert forall i :: 0 <= i < |b| ==> (a + b)[|a| + i] == b[i];
  }

  lemma {:induction false} WellFormedExactly(r: Record)
    requires Lenient(r)
    ensures WellFormed(r) <==> AllLegal(Numbers(r)) && AllMatch(Ends(r))
    decreases r, 1
  {
    assert [TagNumber(r.tag)][0] == TagNumber(r.tag);
    if r.payload.Group? {
      AllLegalAppend([TagNumber(r.tag)], NumbersIn(r.payload.body));
      BodyWellFormedExactly(r.payload.body, TagNumber(r.tag));
    } else {
      AllLegalAppend([TagNumber(r.tag)], []);
    }
  }

  lemma {:induction false} BodyWellFormedExactly(body: Body, num: nat)
    requires LenientBody(body)
    ensures WellFormedBody(body, num) <==> AllLegal(NumbersIn(body)) && AllMatch(EndsIn(body, num))
    decreases body, 1
  {
    if body.End? {
      assert EndsIn(body, num)[0] == (num, TagNumber(body.tag));
    } else {
      AllLegalAppend(Numbers(body.head), NumbersIn(body.tail));
      AllMatchAppend(Ends(body.head), EndsIn(body.tail, num));
      WellFormedExactly(body.head);
      BodyWellFormedExactly(body.tail, num);
    }
  }

  lemma {:induction false} WellFormedIsLenient(r: Record)
    requires WellFormed(r)
    ensures Lenient(r)
    decreases r, 1
  {
    if r.payload.Group? {
      BodyIsLenient(r.payload.body, TagNumber(r.tag));
    }
  }

  lemma {:induction false} BodyIsLenient(body: Body, num: nat)
    requires WellFormedBody(body, num)
    ensures LenientBody(body)
    decreases body, 1
  {
    if body.End? {
    } else {
      WellFormedIsLenient(body.head);
      BodyIsLenient(body.tail, num);
    }
  }

  ghost predicate IsRecord(b: Bytes) {
    exists s :: WellFormed(s) && Serial(s) == b
  }

  /** What `skipOim` steps over is a record of the encoding if and only if, in the one record of the
      lenient grammar that it is, all field numbers are legal and all groups end with their own
      number. */
  lemma SkippedIsStrictExactly(b: Bytes, n: nat, r: Record)
    requires b != [] && n <= |b| && Lenient(r) && Serial(r) == b[..n]
    ensures SkipRecord(b) == Ok(n)
    ensures IsRecord(b[..n]) <==> AllLegal(Numbers(r)) && AllMatch(Ends(r))
  {
    assert b == Serial(r) + b[n..];
    SkipsWholeRecord(r, b[n..]);
    WellFormedExactly(r);
    if s :| WellFormed(s) && Serial(s) == b[..n] {
      WellFormedIsLenient(s);
      RecordIsUnique(r, s);
    }
  }

  /** A lone end-of-group tag, which it steps over as well, is none. */
  lemma LoneEndIsNoRecord(tag: Bytes)
    requires TagOf(tag, 4)
    ensures SkipRecord(tag) == Ok(|tag|) && !IsRecord(tag)
  {
    assert tag + [] == tag;
    TagAtStart(tag, []);
    if s :| WellFormed(s) && Serial(s) == tag {
      TagAtStart(s.tag, SerialPayload(s.payload));
    }
  }

  // ---- Inputs that only skipOim accepts ----

  lemma SmallTag(t: byte)
    requires t < 128
    ensures IsVarint([t]) && TagValue([t]) == t
  {
    assert [t][1..] == [];
    assert Varint.Value([t]) == t % 128 + 128 * Varint.Value([]);
  }

  /** A group with field number 9, which no message knows. */
  lemma GroupNine(body: Body, b: Bytes, m: Message)
    requires LenientBody(body) && b == [75] + SerialBody(body)
    ensures SkipRecord(b) == Ok(|b|) && Unmarshal(b, m) == Ok(m)
    ensures IsRecord(b) <==> AllLegal(NumbersIn(body)) && AllMatch(EndsIn(body, 9))
  {
    hide Unmarshal, SkipRecord, IsRecord, AllLegal, AllMatch, Varint.Value;
    var r := Record([75], Group(body));
    SmallTag(75);
    assert b[..|b|] == b == Serial(r);
    SkippedIsStrictExactly(b, |b|, r);
    LegalNine(NumbersIn(body));
    DecodesToNothing(r, m);
  }

  lemma LegalNine(numbers: seq<nat>)
    ensures AllLegal([9] + numbers) <==> AllLegal(numbers)
  {
    AllLegalAppend([9], numbers);
  }

  /** Field 9 starts a group and field 10 ends it: every message decodes that, although it is no
      record of the encoding. */
  lemma MismatchedGroupIsAccepted(m: Message)
    ensures SkipRecord([75, 84]) == Ok(2) && Unmarshal([75, 84], m) == Ok(m) && !IsRecord([75, 84])
  {
    hide Unmarshal, SkipRecord, IsRecord, Varint.Value;
    SmallTag(84);
    assert EndsIn(End([84]), 9)[0] == (9, 10);
    GroupNine(End([84]), [75, 84], m);
  }

  /** A record with field number 0 inside a group. */
  lemma FieldZeroIsAccepted(m: Message)
    ensures SkipRecord([75, 0, 0, 76]) == Ok(4) && Unmarshal([75, 0, 0, 76], m) == Ok(m) && !IsRecord([75, 0, 0, 76])
  {
    hide Unmarshal, SkipRecord, IsRecord, Varint.Value;
    var body := More(Record([0], Number([0])), End([76]));
    SmallTag(0);
    SmallTag(76);
    assert SerialBody(body) == [0, 0, 76];
    assert NumbersIn(body)[0] == 0;
    GroupNine(body, [75, 0, 0, 76], m);
  }

  lemma DecodesToNothing(r: Record, m: Message)
    requires Lenient(r) && FieldNum(TagValue(r.tag)) == 9
    ensures Unmarshal(Serial(r), m) == Ok(m)
  {
    assert [] + Serial(r) + [] == Serial(r);
    assert Unmarshal([], m) == Ok(m);
    UnknownRecordIsIgnored([], r, [], m);
  }

  /** The code cuts field numbers to 32 bits. That changes exactly the numbers from 2^31 on. */
  lemma NumbersAreCut(tag: Bytes)
    ensures FieldNum(TagValue(tag)) == TagNumber(tag) <==> TagNumber(tag) < 0x8000_0000
  {
  }

  /** A record of the illegal field number 2^32 + 1 is read as field 1. */
  lemma CutNumberIsAccepted()
    ensures var b := Encode((TWO32 + 1) * 8 + 2) + [1, 97];
            Unmarshal(b, GetValuesRequest([])) == Ok(GetValuesRequest([97]))
  {
    hide Encode, Decode;
    var wire: u64 := (TWO32 + 1) * 8 + 2;
    var b := Encode(wire) + [1, 97];
    RoundTrip(wire, [1, 97]);
    assert b[|Encode(wire)|..] == [1, 97];
    ReadKnownRecord(b, GetValuesRequest([]), 1, [1, 97]);
    TagByte(1, [97]);
    assert [1] + [97] == [1, 97] && [1, 97][1..2] == [97];
    assert ReadBytes([1, 97]) == Ok(([97], 2));
    assert b[|b|..] == [];
  }
}
