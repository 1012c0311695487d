/** PCI addresses in extended BDF notation. */
module Pci {
  import opened Bits
  import opened Wrappers

  datatype Address = Address(domain: u32, bus: u32, device: u32, function_: u32)

  const UNSET: u32 := 0xFFFF

  // ---- Hexadecimal numbers ----

  predicate IsHex(c: char) {
    '0' <= c <= '9' || 'a' <= c <= 'f' || 'A' <= c <= 'F'
  }

  predicate AllHex(s: string) {
    forall i :: 0 <= i < |s| ==> IsHex(s[i])
  }

  function DigitValue(c: char): (d: nat)
    requires IsHex(c)
    ensures d < 16
  {
    if c <= '9' then c as int - '0' as int
    else if c <= 'F' then c as int - 'A' as int + 10
    else c as int - 'a' as int + 10
  }

  function HexValue(s: string): nat
    requires AllHex(s)
  {
    if s == "" then 0 else 16 * HexValue(s[..|s| - 1]) + DigitValue(s[|s| - 1])
  }

  /** `HexToU32`; None stands for its panic. */
  function HexToU32(s: string): Option<u32> {
    if s == "" then Some(UNSET)
    else if AllHex(s) && HexValue(s) <= 0xFFFF then Some(HexValue(s))
    else None
  }

  function Digit(d: nat): (c: char)
    requires d < 16
    ensures IsHex(c) && DigitValue(c) == d
  {
    "0123456789abcdef"[d]
  }

  /** `%x` with a minimal width and zero padding. */
  function Hex(v: nat, width: nat): (s: string)
    ensures AllHex(s) && |s| >= 1 && |s| >= width && HexValue(s) == v
    decreases v, width
  {
    if v < 16 && width <= 1 then
      var s := [Digit(v)];
      assert s[..0] == "" && HexValue(s) == 16 * HexValue(s[..0]) + DigitValue(s[0]);
      s
    else
      var head := Hex(v / 16, if width > 0 then width - 1 else 0);
      var s := head + [Digit(v % 16)];
      assert s[..|s| - 1] == head;
      s
  }

  function Pow16(n: nat): nat {
    if n == 0 then 1 else 16 * Pow16(n - 1)
  }

  lemma {:induction false} HexValueBound(s: string)
    requires AllHex(s)
    ensures HexValue(s) < Pow16(|s|)
  {
    if s == "" {
    } else {
      HexValueBound(s[..|s| - 1]);
    }
  }

  lemma {:induction false} HexLength(v: nat, width: nat)
    requires width >= 1 && v < Pow16(width)
    ensures |Hex(v, width)| == width
    decreases width
  {
    if width == 1 {
      assert Pow16(1) == 16;
    } else {
      HexLength(v / 16, width - 1);
    }
  }

  /** At most four hexadecimal digits never make `HexToU32` panic. */
  lemma ShortHexIsFine(s: string)
    requires AllHex(s) && |s| <= 4
    ensures HexToU32(s).Some?
    ensures |s| <= 2 && s != "" ==> HexToU32(s).value <= 0xFF
  {
    HexValueBound(s);
    assert Pow16(4) == 16 * (16 * (16 * (16 * Pow16(0))));
    assert Pow16(2) == 16 * (16 * Pow16(0));
    if |s| == 3 {
      assert Pow16(3) == 16 * Pow16(2);
    } else if |s| == 1 {
      assert Pow16(1) == 16 * Pow16(0);
    }
  }

  // ---- The notation ----

  /** The four groups that the regular expression captures; a group that takes no part is empty. */
  datatype Groups = Groups(domain: string, bus: string, device: string, function_: string)

  predicate IsSpace(c: char) {
    c == ' ' || c == '\t' || c == '\n' || c == '\r' || c == '\U{c}'
  }

  predicate AllSpace(s: string) {
    forall i :: 0 <= i < |s| ==> IsSpace(s[i])
  }

  predicate IsFunction(s: string) {
    s == "" || (|s| == 1 && '0' <= s[0] <= '7')
  }

  predicate WellFormed(g: Groups, hasDomain: bool) {
    && AllHex(g.domain) && |g.domain| <= 4 && (!hasDomain ==> g.domain == "")
    && AllHex(g.bus) && |g.bus| <= 2
    && AllHex(g.device) && |g.device| <= 2
    && IsFunction(g.function_)
  }

  function Body(g: Groups, hasDomain: bool): string {
    var tail := g.bus + (":" + (g.device + ("." + g.function_)));
    if hasDomain then g.domain + (":" + tail) else tail
  }

  /** What the regular expression says: optional space, an optional domain with its colon, bus and
      colon, device and dot, an optional function, optional space. */
  ghost predicate Matches(dev: string, g: Groups, before: string, hasDomain: bool, after: string) {
    WellFormed(g, hasDomain) && AllSpace(before) && AllSpace(after) && dev == before + (Body(g, hasDomain) + after)
  }

  // ---- Reading it ----

  function HexRun(s: string): (n: nat)
    ensures n <= |s| && AllHex(s[..n]) && (n < |s| ==> !IsHex(s[n]))
  {
    if s == "" || !IsHex(s[0]) then 0
    else
      var n := 1 + HexRun(s[1..]);
      assert s[..n] == [s[0]] + s[1..][..n - 1];
      n
  }

  function TrimLeft(s: string): string {
    if s != "" && IsSpace(s[0]) then TrimLeft(s[1..]) else s
  }

  /** A run of digits, the separator behind it, and the rest. */
  datatype Cut = Cut(digits: string, sep: char, rest: string)

  function NextField(s: string): (r: Option<Cut>)
    ensures r.Some? ==> AllHex(r.value.digits) && s == r.value.digits + ([r.value.sep] + r.value.rest)
  {
    var n := HexRun(s);
    if n == |s| then None else Some(Cut(s[..n], s[n], s[n + 1..]))
  }

  function Finish(domain: string, bus: string, device: string, rest: string): Option<Groups> {
    var f := if rest != "" && '0' <= rest[0] <= '7' then rest[..1] else "";
    if AllSpace(rest[|f|..]) then Some(Groups(domain, bus, device, f)) else None
  }

  /** The first run of digits is the domain or the bus, which the next separator tells. */
  function CaptureBody(s: string): Option<Groups> {
    var x := NextField(s);
    if x.None? || x.value.sep != ':' then None
    else
      var y := NextField(x.value.rest);
      if y.None? then None
      else if y.value.sep == '.' then
        if |x.value.digits| <= 2 && |y.value.digits| <= 2 then Finish("", x.value.digits, y.value.digits, y.value.rest)
        else None
      else if y.value.sep == ':' then
        var z := NextField(y.value.rest);
        if z.None? || z.value.sep != '.' then None
        else if |x.value.digits| <= 4 && |y.value.digits| <= 2 && |z.value.digits| <= 2 then
          Finish(x.value.digits, y.value.digits, z.value.digits, z.value.rest)
        else None
      else None
  }

  function Capture(dev: string): Option<Groups> {
    CaptureBody(TrimLeft(dev))
  }

  lemma {:induction false} HexRunOf(h: string, rest: string)
    requires AllHex(h) && rest != "" && !IsHex(rest[0])
    ensures HexRun(h + rest) == |h|
  {
    if h == "" {
      assert h + rest == rest;
    } else {
      assert (h + rest)[0] == h[0] && (h + rest)[1..] == h[1..] + rest;
      HexRunOf(h[1..], rest);
    }
  }

  lemma {:induction false} TrimLeftOf(before: string, s: string)
    requires AllSpace(before) && (s == "" || !IsSpace(s[0]))
    ensures TrimLeft(before + s) == s
  {
    if before == "" {
      assert before + s == s;
    } else {
      assert (before + s)[0] == before[0] && (before + s)[1..] == before[1..] + s;
      TrimLeftOf(before[1..], s);
    }
  }

  lemma {:induction false} TrimLeftCuts(s: string) returns (before: string)
    ensures AllSpace(before) && s == before + TrimLeft(s)
  {
    if s == "" || !IsSpace(s[0]) {
      before := "";
    } else {
      var tail := TrimLeftCuts(s[1..]);
      before := [s[0]] + tail;
    }
  }

  /** One field and its separator at the start of a string. */
  lemma CutField(h: string, sep: char, rest: string)
    requires AllHex(h) && !IsHex(sep)
    ensures NextField(h + ([sep] + rest)) == Some(Cut(h, sep, rest))
  {
    HexRunOf(h, [sep] + rest);
    var s := h + ([sep] + rest);
    assert s[..|h|] == h && s[|h|] == sep && s[|h| + 1..] == rest;
  }

  lemma FinishReads(g: Groups, after: string)
    requires IsFunction(g.function_) && AllSpace(after)
    ensures Finish(g.domain, g.bus, g.device, g.function_ + after) == Some(g)
  {
    var rest := g.function_ + after;
    if g.function_ == "" {
      assert rest == after && rest[0..] == after;
    } else {
      assert rest[0] == g.function_[0] && rest[..1] == g.function_ && rest[1..] == after;
    }
  }

  lemma FinishCuts(domain: string, bus: string, device: string, rest: string)
    requires Finish(domain, bus, device, rest).Some?
    ensures var g := Finish(domain, bus, device, rest).value;
            && g.domain == domain && g.bus == bus && g.device == device
            && IsFunction(g.function_) && g.function_ <= rest && AllSpace(rest[|g.function_|..])
  {
  }

  /** The text behind the leading space, from its parts. */
  function Text(g: Groups, hasDomain: bool, after: string): string {
    var tail := g.bus + (":" + (g.device + ("." + (g.function_ + after))));
    if hasDomain then g.domain + (":" + tail) else tail
  }

  lemma TextIsBody(g: Groups, hasDomain: bool, after: string)
    ensures Text(g, hasDomain, after) == Body(g, hasDomain) + after
  {
  }

  lemma TextIsRead(g: Groups, hasDomain: bool, after: string)
    requires WellFormed(g, hasDomain) && AllSpace(after)
    ensures CaptureBody(Text(g, hasDomain, after)) == Some(g)
  {
    hide NextField, Finish;
    var f := g.function_ + after;
    var d := g.device + ("." + f);
    FinishReads(g, after);
    CutField(g.device, '.', f);
    CutField(g.bus, ':', d);
    CutField(g.domain, ':', g.bus + (":" + d));
  }

  lemma TextStartsUnspaced(g: Groups, hasDomain: bool, after: string)
    requires WellFormed(g, hasDomain)
    ensures var s := Text(g, hasDomain, after); s != "" && !IsSpace(s[0])
  {
  }

  lemma CaptureReads(dev: string, g: Groups, before: string, hasDomain: bool, after: string)
    requires Matches(dev, g, before, hasDomain, after)
    ensures Capture(dev) == Some(g)
  {
    hide CaptureBody, Text, Body;
    TextIsBody(g, hasDomain, after);
    TextIsRead(g, hasDomain, after);
    TextStartsUnspaced(g, hasDomain, after);
    TrimLeftOf(before, Text(g, hasDomain, after));
  }

  lemma BodyIsCut(s: string) returns (hasDomain: bool, after: string)
    requires CaptureBody(s).Some?
    ensures WellFormed(CaptureBody(s).value, hasDomain) && AllSpace(after)
    ensures s == Text(CaptureBody(s).value, hasDomain, after)
  {
    hide NextField, Finish;
    var g := CaptureBody(s).value;
    var x := NextField(s).value;
    var y := NextField(x.rest).value;
    hasDomain := y.sep == ':';
    var z := if hasDomain then NextField(y.rest).value else y;
    var bus := if hasDomain then y.digits else x.digits;
    FinishCuts(if hasDomain then x.digits else "", bus, z.digits, z.rest);
    after := z.rest[|g.function_|..];
    assert z.rest == g.function_ + after;
  }

  lemma CaptureIsMatch(dev: string) returns (before: string, hasDomain: bool, after: string)
    requires Capture(dev).Some?
    ensures Matches(dev, Capture(dev).value, before, hasDomain, after)
  {
    before := TrimLeftCuts(dev);
    hasDomain, after := BodyIsCut(TrimLeft(dev));
    TextIsBody(Capture(dev).value, hasDomain, after);
  }

  /** The reader accepts exactly what the regular expression matches, and captures its groups.
      In particular the groups are unique although domain and bus share the colon. */
  lemma CaptureIsRegex(dev: string, g: Groups)
    ensures Capture(dev) == Some(g) <==> exists before, hasDomain, after :: Matches(dev, g, before, hasDomain, after)
  {
    if Capture(dev) == Some(g) {
      var before, hasDomain, after := CaptureIsMatch(dev);
    }
    if before, hasDomain, after :| Matches(dev, g, before, hasDomain, after) {
      CaptureReads(dev, g, before, hasDomain, after);
    }
  }

  // ---- Addresses ----

  /** Addresses that the notation can express. */
  predicate InRange(a: Address) {
    && a.domain <= 0xFFFF
    && (a.bus <= 0xFF || a.bus == UNSET)
    && (a.device <= 0xFF || a.device == UNSET)
    && (a.function_ <= 7 || a.function_ == UNSET)
  }

  datatype Parsed = Parsed(address: Address) | NotBDF | Panic

  function ParseBDFString(dev: string): Parsed {
    match Capture(dev)
    case None => NotBDF
    case Some(g) =>
      var domain, bus, device, fn := HexToU32(g.domain), HexToU32(g.bus), HexToU32(g.device), HexToU32(g.function_);
      if domain.None? || bus.None? || device.None? || fn.None? then Panic
      else Parsed(Address(domain.value, bus.value, device.value, fn.value))
  }

  lemma FunctionIsHex(s: string)
    requires IsFunction(s)
    ensures AllHex(s) && |s| <= 1 && HexToU32(s).Some? && (HexToU32(s).value <= 7 || HexToU32(s).value == UNSET)
  {
    if s != "" {
      assert s[..0] == "" && HexValue(s) == 16 * HexValue(s[..0]) + DigitValue(s[0]);
    }
  }

  /** No string makes the parser panic, and every accepted string yields an address in range. */
  lemma ParsingIsSafe(dev: string)
    ensures !ParseBDFString(dev).Panic?
    ensures ParseBDFString(dev).Parsed? ==> InRange(ParseBDFString(dev).address)
  {
    if Capture(dev).Some? {
      var g := Capture(dev).value;
      var before, hasDomain, after := CaptureIsMatch(dev);
      ShortHexIsFine(g.domain);
      ShortHexIsFine(g.bus);
      ShortHexIsFine(g.device);
      FunctionIsHex(g.function_);
    }
  }

  /** The groups that the printer writes for an address. */
  function Printed(a: Address): Groups {
    Groups(if a.domain != UNSET then Hex(a.domain, 4) else "",
           if a.bus != UNSET then Hex(a.bus, 2) else "",
           if a.device != UNSET then Hex(a.device, 2) else "",
           if a.function_ != UNSET then Hex(a.function_, 1) else "")
  }

  function Pretty(a: Address): string {
    Body(Printed(a), a.domain != UNSET)
  }

  /** `PrettyPCIAddress` builds its result by appending. A missing address prints like one with
      nothing set. */
  method PrettyPCIAddress(p: Option<Address>) returns (result: string)
    ensures p.None? ==> result == ":."
    ensures p.Some? ==> result == Pretty(p.value)
    ensures p.Some? && InRange(p.value) ==> ParseBDFString(result) == Parsed(p.value)
    ensures p.None? ==> ParseBDFString(result) == Parsed(Address(UNSET, UNSET, UNSET, UNSET))
  {
    NothingSet();
    if p.None? {
      return ":.";
    }
    RoundTrip(p.value);
    hide ParseBDFString, Pretty;
    result := Append(p.value);
  }

  method Append(a: Address) returns (result: string)
    ensures result == Pretty(a)
  {
    hide Hex, HexValue, AllHex, Body, InRange;
    ghost var g := Printed(a);
    result := "";
    if a.domain != UNSET {
      result := result + (Hex(a.domain, 4) + ":");
    }
    ghost var head := result;
    if a.bus != UNSET {
      result := result + (Hex(a.bus, 2) + ":");
    } else {
      result := result + ":";
    }
    assert result == head + (g.bus + ":");
    if a.device != UNSET {
      result := result + (Hex(a.device, 2) + ".");
    } else {
      result := result + ".";
    }
    assert result == head + (g.bus + ":") + (g.device + ".");
    if a.function_ != UNSET {
      result := result + Hex(a.function_, 1);
    }
    assert result == head + (g.bus + ":") + (g.device + ".") + g.function_;
    AppendedIsBody(g, a.domain != UNSET, head);
  }

  lemma AppendedIsBody(g: Groups, hasDomain: bool, head: string)
    requires head == if hasDomain then g.domain + ":" else ""
    ensures head + (g.bus + ":") + (g.device + ".") + g.function_ == Body(g, hasDomain)
  {
  }

  lemma NothingSet()
    ensures ParseBDFString(":.") == Parsed(Address(UNSET, UNSET, UNSET, UNSET))
  {
    var g := Groups("", "", "", "");
    assert ":." == "" + (Body(g, false) + "");
    assert Matches(":.", g, "", false, "");
    CaptureReads(":.", g, "", false, "");
  }

  lemma PowersOf16()
    ensures Pow16(1) == 16 && Pow16(2) == 256 && Pow16(4) == 65536
  {
    assert Pow16(3) == 16 * Pow16(2);
  }

  lemma PrintedIsWellFormed(a: Address)
    requires InRange(a)
    ensures WellFormed(Printed(a), a.domain != UNSET)
  {
    PowersOf16();
    HexLength(a.domain, 4);
    if a.bus != UNSET { HexLength(a.bus, 2); }
    if a.device != UNSET { HexLength(a.device, 2); }
    if a.function_ != UNSET {
      HexLength(a.function_, 1);
      assert Hex(a.function_, 1) == [Digit(a.function_)];
    }
  }

  lemma ReadsBack(a: Address)
    ensures AllHex(Printed(a).domain) && AllHex(Printed(a).bus)
    ensures AllHex(Printed(a).device) && AllHex(Printed(a).function_)
    ensures InRange(a) ==>
              && HexToU32(Printed(a).domain) == Some(a.domain) && HexToU32(Printed(a).bus) == Some(a.bus)
              && HexToU32(Printed(a).device) == Some(a.device) && HexToU32(Printed(a).function_) == Some(a.function_)
  {
  }

  /** Printing and parsing gives back an address exactly when its fields are in BDF range or unset. */
  lemma RoundTrip(a: Address)
    ensures ParseBDFString(Pretty(a)) == Parsed(a) <==> InRange(a)
  {
    if InRange(a) {
      var s := Pretty(a);
      PrintedIsWellFormed(a);
      ReadsBack(a);
      assert s == "" + (s + "");
      CaptureReads(s, Printed(a), "", a.domain != UNSET, "");
    } else {
      ParsingIsSafe(Pretty(a));
    }
  }

  /** `CompletePCIAddress`. */
  function Complete(a: Address, def: Address): (r: Address)
    ensures InRange(a) && InRange(def) ==> InRange(r)
  {
    var a1 := if a.domain == UNSET then a.(domain := def.domain) else a;
    var a2 := if a1.bus == UNSET then a1.(bus := def.bus) else a1;
    var a3 := if a2.device == UNSET then a2.(device := def.device) else a2;
    if a3.function_ == UNSET then a3.(function_ := def.function_) else a3
  }

  /** Filling in defaults from several sources does not depend on how they are grouped. */
  lemma CompleteIsAssociative(a: Address, b: Address, c: Address)
    ensures Complete(Complete(a, b), c) == Complete(a, Complete(b, c))
    ensures Complete(a, a) == a
    ensures Complete(a, Address(UNSET, UNSET, UNSET, UNSET)) == a
    ensures Complete(Address(UNSET, UNSET, UNSET, UNSET), a) == a
  {
  }

  /** Each field is that of the address, or that of the default if the address leaves it open. */
  lemma CompleteFields(a: Address, def: Address)
    ensures var r := Complete(a, def);
            && r.domain == (if a.domain != 0xFFFF then a.domain else def.domain)
            && r.bus == (if a.bus != 0xFFFF then a.bus else def.bus)
            && r.device == (if a.device != 0xFFFF then a.device else def.device)
            && r.function_ == (if a.function_ != 0xFFFF then a.function_ else def.function_)
  {
  }

  /** The printed form: four, two, two and one digits, parts that are open left out, the first colon
      only with a domain. */
  lemma PrintedShape(a: Address)
    requires InRange(a)
    ensures |Pretty(a)| == (if a.domain == 0xFFFF then 0 else 5) + (if a.bus == 0xFFFF then 1 else 3)
                           + (if a.device == 0xFFFF then 1 else 3) + (if a.function_ == 0xFFFF then 0 else 1)
    ensures a.domain != 0xFFFF ==> Pretty(a)[4] == ':'
  {
    PowersOf16();
    hide Hex;
    if a.domain != UNSET { HexLength(a.domain, 4); }
    if a.bus != UNSET { HexLength(a.bus, 2); }
    if a.device != UNSET { HexLength(a.device, 2); }
    if a.function_ != UNSET { HexLength(a.function_, 1); }
  }

  // ---- Upper and lower case ----

  function LowerHex(c: char): char {
    if 'A' <= c <= 'F' then (c as int - 'A' as int + 'a' as int) as char else c
  }

  /** The strings differ at most in the case of the letters A to F. */
  predicate Alike(s: string, t: string) {
    |s| == |t| && forall i :: 0 <= i < |s| ==> LowerHex(s[i]) == LowerHex(t[i])
  }

  lemma AlikeParts(a: string, b: string, t: string) returns (t1: string, t2: string)
    requires Alike(a + b, t)
    ensures t == t1 + t2 && Alike(a, t1) && Alike(b, t2)
  {
    t1, t2 := t[..|a|], t[|a|..];
    assert forall i :: 0 <= i < |a| ==> (a + b)[i] == a[i];
    assert forall i :: 0 <= i < |b| ==> (a + b)[|a| + i] == b[i] && t[|a| + i] == t2[i];
  }

  /** Spaces, separators and digits have no case. */
  lemma AlikeIsSame(s: string, t: string)
    requires Alike(s, t)
    requires forall i :: 0 <= i < |s| ==> IsSpace(s[i]) || '0' <= s[i] <= '9' || s[i] == ':' || s[i] == '.'
    ensures s == t
  {
  }

  lemma {:induction false} AlikeValue(s: string, t: string)
    requires Alike(s, t) && AllHex(s)
    ensures AllHex(t) && HexValue(s) == HexValue(t)
    decreases |s|
  {
    if s == "" {
    } else {
      assert forall i :: 0 <= i < |s| ==> LowerHex(s[i]) == LowerHex(t[i]) && IsHex(s[i]);
      AlikeValue(s[..|s| - 1], t[..|t| - 1]);
    }
  }

  lemma AlikeTail(g: Groups, rest: string) returns (g': Groups)
    requires WellFormed(g, true) && Alike(g.bus + (":" + (g.device + ("." + g.function_))), rest)
    ensures rest == g'.bus + (":" + (g'.device + ("." + g'.function_))) && g'.function_ == g.function_
    ensures Alike(g.bus, g'.bus) && Alike(g.device, g'.device) && g'.domain == ""
  {
    var bus, r1 := AlikeParts(g.bus, ":" + (g.device + ("." + g.function_)), rest);
    var colon, r2 := AlikeParts(":", g.device + ("." + g.function_), r1);
    var device, r3 := AlikeParts(g.device, "." + g.function_, r2);
    var dot, fn := AlikeParts(".", g.function_, r3);
    AlikeIsSame(":", colon);
    AlikeIsSame(".", dot);
    AlikeIsSame(g.function_, fn);
    g' := Groups("", bus, device, fn);
  }

  lemma AlikeBody(g: Groups, hasDomain: bool, body: string) returns (g': Groups)
    requires WellFormed(g, hasDomain) && Alike(Body(g, hasDomain), body)
    ensures body == Body(g', hasDomain) && WellFormed(g', hasDomain) && g'.function_ == g.function_
    ensures Alike(g.domain, g'.domain) && Alike(g.bus, g'.bus) && Alike(g.device, g'.device)
  {
    var domain, rest := "", body;
    if hasDomain {
      var r1;
      domain, r1 := AlikeParts(g.domain, ":" + (g.bus + (":" + (g.device + ("." + g.function_)))), body);
      var colon;
      colon, rest := AlikeParts(":", g.bus + (":" + (g.device + ("." + g.function_))), r1);
      AlikeIsSame(":", colon);
    }
    g' := AlikeTail(g, rest);
    g' := g'.(domain := domain);
    AlikeValue(g.domain, domain);
    AlikeValue(g.bus, g'.bus);
    AlikeValue(g.device, g'.device);
  }

  lemma AlikeCaptures(dev: string, dev': string)
    requires Alike(dev, dev') && Capture(dev).Some?
    ensures Capture(dev').Some?
    ensures var g, g' := Capture(dev).value, Capture(dev').value;
            && HexToU32(g.domain) == HexToU32(g'.domain) && HexToU32(g.bus) == HexToU32(g'.bus)
            && HexToU32(g.device) == HexToU32(g'.device) && HexToU32(g.function_) == HexToU32(g'.function_)
  {
    hide Capture, Body;
    var g := Capture(dev).value;
    var before, hasDomain, after := CaptureIsMatch(dev);
    var before', rest := AlikeParts(before, Body(g, hasDomain) + after, dev');
    var body, after' := AlikeParts(Body(g, hasDomain), after, rest);
    AlikeIsSame(before, before');
    AlikeIsSame(after, after');
    var g' := AlikeBody(g, hasDomain, body);
    CaptureReads(dev', g', before', hasDomain, after');
    AlikeValue(g.domain, g'.domain);
    AlikeValue(g.bus, g'.bus);
    AlikeValue(g.device, g'.device);
  }

  /** Upper and lower case parse alike, in every string. */
  lemma CaseDoesNotMatter(dev: string, dev': string)
    requires Alike(dev, dev')
    ensures ParseBDFString(dev) == ParseBDFString(dev')
  {
    if Capture(dev).Some? {
      AlikeCaptures(dev, dev');
    } else if Capture(dev').Some? {
      AlikeCaptures(dev', dev);
    }
  }

  /** Parts that are left open are 0xFFFF. */
  lemma OpenParts()
    ensures ParseBDFString(":.") == Parsed(Address(0xFFFF, 0xFFFF, 0xFFFF, 0xFFFF))
  {
    NothingSet();
  }

  /** The value of a part, open parts included. */
  function PartValue(s: string): u32
    requires AllHex(s) && |s| <= 4
  {
    if s == "" then 0xFFFF else ShortHexIsFine(s); HexValue(s)
  }

  /** Any number of digits up to the full one is accepted in each part, the domain may be missing with
      its colon, and white space around it does not matter. */
  lemma PartsAreRead(before: string, domain: string, bus: string, device: string, fn: string, after: string)
    requires AllHex(domain) && |domain| <= 4 && AllHex(bus) && |bus| <= 2 && AllHex(device) && |device| <= 2
    requires fn in ["", "0", "1", "2", "3", "4", "5", "6", "7"]
    requires forall i :: 0 <= i < |before| ==> before[i] in " \t\n\r\U{c}"
    requires forall i :: 0 <= i < |after| ==> after[i] in " \t\n\r\U{c}"
    ensures AllHex(fn)
    ensures ParseBDFString(before + (domain + (":" + (bus + (":" + (device + ("." + fn))))) + after)) ==
            Parsed(Address(PartValue(domain), PartValue(bus), PartValue(device), PartValue(fn)))
    ensures ParseBDFString(before + (bus + (":" + (device + ("." + fn))) + after)) ==
            Parsed(Address(0xFFFF, PartValue(bus), PartValue(device), PartValue(fn)))
  {
    hide Capture, HexValue;
    CaptureReads(before + (domain + (":" + (bus + (":" + (device + ("." + fn))))) + after),
                 Groups(domain, bus, device, fn), before, true, after);
    CaptureReads(before + (bus + (":" + (device + ("." + fn))) + after),
                 Groups("", bus, device, fn), before, false, after);
    ShortHexIsFine(domain);
    ShortHexIsFine(bus);
    ShortHexIsFine(device);
    FunctionIsHex(fn);
  }
}
