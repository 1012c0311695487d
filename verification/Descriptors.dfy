/** The descriptor-walking loops of the mount package: which descriptors they open, and how often
    they close each of them. What path a descriptor stands for plays no role here; what every system
    call answers is given as data. The descriptors that one call opens are numbered from 0. */
module Descriptors {
  import opened Wrappers

  // ---- doSafeOpen ----

  /** What happens for one segment: the path is still within the base, openat works, fstat works
      and finds no symlink, and closing the parent reports no error. */
  datatype Segment = Segment(within: bool, opens: bool, usable: bool, closes: bool)

  /** Whether the walk succeeded, leaving its last descriptor open, and how often it closed each. */
  datatype Walked = Walked(open: bool, closes: seq<nat>)

  /** The walk from an opened directory. A failing close of the parent is an error return that
      leaves `parentFD` set, so that the deferred function closes it again. */
  function Walk(segments: seq<Segment>): (w: Walked)
    ensures |w.closes| >= 1
    ensures w.open ==> w.closes[|w.closes| - 1] == 0
  {
    if segments == [] then Walked(true, [0])
    else
      var s := segments[0];
      if !s.within || !s.opens then Walked(false, [1])
      else if !s.usable then Walked(false, [1, 1])
      else if !s.closes then Walked(false, [2, 1])
      else
        var rest := Walk(segments[1..]);
        Walked(rest.open, [1] + rest.closes)
  }

  /** `rel`: the segments could be computed; `base`: the base directory could be opened. */
  function SafeOpen(rel: bool, base: bool, segments: seq<Segment>): Walked {
    if rel && base then Walk(segments) else Walked(false, [])
  }

  predicate Passes(s: Segment) {
    s.within && s.opens && s.usable && s.closes
  }

  /** The walk gets to segment `i` and closing the parent there reports an error. */
  predicate CloseFailsAt(segments: seq<Segment>, i: nat) {
    && i < |segments| && (forall j :: 0 <= j < i ==> Passes(segments[j]))
    && segments[i].within && segments[i].opens && segments[i].usable && !segments[i].closes
  }

  /** Every descriptor was closed exactly once, except that success leaves just the last one open. */
  predicate ClosedOnce(w: Walked) {
    forall fd :: 0 <= fd < |w.closes| ==> w.closes[fd] == if w.open && fd == |w.closes| - 1 then 0 else 1
  }

  function Ones(n: nat): (s: seq<nat>)
    ensures |s| == n && forall i :: 0 <= i < n ==> s[i] == 1
  {
    seq(n, _ => 1)
  }

  /** Segments that pass add one descriptor each, closed once. */
  lemma {:induction false} WalkPasses(segments: seq<Segment>, i: nat)
    requires i <= |segments| && forall j :: 0 <= j < i ==> Passes(segments[j])
    ensures var rest := Walk(segments[i..]);
            Walk(segments) == Walked(rest.open, Ones(i) + rest.closes)
    decreases i
  {
    if i == 0 {
      assert segments[0..] == segments && Ones(0) == [];
    } else {
      assert Passes(segments[0]);
      WalkPasses(segments[1..], i - 1);
      assert segments[1..][i - 1..] == segments[i..];
      var rest := Walk(segments[i..]);
      assert [1] + (Ones(i - 1) + rest.closes) == Ones(i) + rest.closes;
    }
  }

  lemma WalkStops(segments: seq<Segment>, i: nat)
    requires i < |segments| && !Passes(segments[i]) && forall j :: 0 <= j < i ==> Passes(segments[j])
    ensures Walk(segments) == Walked(false, Ones(i) + Walk([segments[i]]).closes)
  {
    WalkPasses(segments, i);
    assert segments[i..][0] == segments[i];
  }

  lemma WalkEnds(segments: seq<Segment>)
    requires forall j :: 0 <= j < |segments| ==> Passes(segments[j])
    ensures Walk(segments) == Walked(true, Ones(|segments|) + [0])
  {
    WalkPasses(segments, |segments|);
    assert segments[|segments|..] == [];
  }

  /** Where the walk stops, if it does. */
  lemma {:induction false} FirstStop(segments: seq<Segment>) returns (i: nat)
    ensures i <= |segments| && forall j :: 0 <= j < i ==> Passes(segments[j])
    ensures i < |segments| ==> !Passes(segments[i])
    decreases |segments|
  {
    if segments == [] || !Passes(segments[0]) {
      i := 0;
    } else {
      var k := FirstStop(segments[1..]);
      i := k + 1;
      forall j | 0 <= j < i ensures Passes(segments[j]) {
        assert j > 0 ==> segments[j] == segments[1..][j - 1];
      }
    }
  }

  lemma FailingCloseClosesTwice(segments: seq<Segment>, i: nat)
    requires CloseFailsAt(segments, i)
    ensures Walk(segments) == Walked(false, Ones(i) + [2, 1])
  {
    WalkStops(segments, i);
  }

  lemma OtherwiseClosedOnce(segments: seq<Segment>)
    requires forall i: nat :: !CloseFailsAt(segments, i)
    ensures ClosedOnce(Walk(segments))
  {
    var i := FirstStop(segments);
    if i == |segments| {
      WalkEnds(segments);
    } else {
      assert !CloseFailsAt(segments, i);
      WalkStops(segments, i);
    }
  }

  /** On every path each descriptor is closed exactly once, with just the returned one left open,
      if and only if no close inside the loop reports an error. */
  lemma SafeOpenClosesOnceExactly(rel: bool, base: bool, segments: seq<Segment>)
    ensures ClosedOnce(SafeOpen(rel, base, segments)) <==> !(rel && base && exists i: nat :: CloseFailsAt(segments, i))
  {
    if i: nat :| CloseFailsAt(segments, i) {
      FailingCloseClosesTwice(segments, i);
      assert Walk(segments).closes[i] == 2;
    } else {
      OtherwiseClosedOnce(segments);
    }
  }

  /** The walk returns a descriptor exactly when every segment lets it pass, and then it has opened
      one descriptor for the base and one for each segment. */
  lemma SafeOpenSucceedsExactly(rel: bool, base: bool, segments: seq<Segment>)
    ensures var w := SafeOpen(rel, base, segments);
            && (w.open <==> && rel && base
                            && forall i :: 0 <= i < |segments| ==>
                                 segments[i].within && segments[i].opens && segments[i].usable && segments[i].closes)
            && (w.open ==> |w.closes| == |segments| + 1)
  {
    var i := FirstStop(segments);
    if i == |segments| {
      WalkEnds(segments);
      assert forall j :: 0 <= j < |segments| ==> Passes(segments[j]);
    } else {
      WalkStops(segments, i);
    }
  }

  /** One segment, and closing the base directory reports an error: it is closed twice. */
  lemma SafeOpenCanCloseTwice()
    ensures var segments := [Segment(true, true, true, false)];
            SafeOpen(true, true, segments).closes[0] == 2 && !ClosedOnce(SafeOpen(true, true, segments))
  {
    assert SafeOpen(true, true, [Segment(true, true, true, false)]).closes[0] == 2;
  }

  // ---- findExistingPrefix and doSafeMakeDir ----

  datatype Lookup = Found | Missing | Unreadable

  /** One directory of the path: what openat says while the prefix is searched, and whether it can
      be made and opened afterwards. */
  datatype Dir = Dir(lookup: Lookup, made: bool, opens: bool)

  datatype Stat = Directory | OtherFile | NoStat

  /** What happens in one call of `doSafeMakeDir`, in the order in which it matters. */
  datatype MakeDir = MakeDir(within: bool, stat: Stat, prefixRel: bool, prefixBase: bool, dirs: seq<Dir>,
                             resolves: bool, openRel: bool, openBase: bool, segments: seq<Segment>, chmod: bool)

  /** How many directories exist, counted from the base. */
  function Existing(dirs: seq<Dir>): (n: nat)
    ensures n <= |dirs| && (n < |dirs| ==> dirs[n].lookup != Found)
  {
    if dirs == [] || dirs[0].lookup != Found then 0 else 1 + Existing(dirs[1..])
  }

  /** The first directory that has to be created, unless the search failed. */
  function FirstMissing(dirs: seq<Dir>): (n: Option<nat>)
    ensures n.Some? ==> n.value <= |dirs|
  {
    var n := Existing(dirs);
    if n == |dirs| || dirs[n].lookup == Missing then Some(n) else None
  }

  /** How many directories get made and opened before something fails. */
  function Created(dirs: seq<Dir>): (n: nat)
    ensures n <= |dirs|
  {
    if dirs == [] || !dirs[0].made || !dirs[0].opens then 0 else 1 + Created(dirs[1..])
  }

  datatype Made = Made(ok: bool, closes: seq<nat>)

  predicate GetsToOpen(e: MakeDir) {
    e.within && e.stat.NoStat? && e.prefixRel && e.prefixBase && FirstMissing(e.dirs).Some? && e.resolves
  }

  function SafeMakeDir(e: MakeDir): Made {
    if !e.within || e.stat.OtherFile? then Made(false, [])
    else if e.stat.Directory? then Made(true, [])
    else if !e.prefixRel || !e.prefixBase then Made(false, [])
    else
      var prefix := Ones(1 + Existing(e.dirs));
      if FirstMissing(e.dirs).None? || !e.resolves then Made(false, prefix)
      else
        var made := CreateAfter(SafeOpen(e.openRel, e.openBase, e.segments),
                                e.dirs[FirstMissing(e.dirs).value..], e.chmod);
        Made(made.ok, prefix + made.closes)
  }

  /** What follows when `doSafeOpen` has returned. */
  function CreateAfter(w: Walked, toCreate: seq<Dir>, chmod: bool): Made
    requires w.open ==> w.closes != []
  {
    if !w.open then Made(false, w.closes)
    else
      var n := Created(toCreate);
      Made(n == |toCreate| && chmod, w.closes[..|w.closes| - 1] + Ones(1 + n))
  }

  predicate AllOnes(closes: seq<nat>) {
    forall i :: 0 <= i < |closes| ==> closes[i] == 1
  }

  lemma CreateAfterCloses(w: Walked, toCreate: seq<Dir>, chmod: bool)
    requires w.open ==> w.closes != [] && ClosedOnce(w)
    ensures AllOnes(CreateAfter(w, toCreate, chmod).closes) <==> ClosedOnce(w)
  {
    hide Created;
    if !w.open {
      assert CreateAfter(w, toCreate, chmod).closes == w.closes;
    }
  }

  lemma SafeOpenLeavesOne(rel: bool, base: bool, segments: seq<Segment>)
    ensures var w := SafeOpen(rel, base, segments);
            && (w.open ==> ClosedOnce(w)) && (w.open ==> w.closes != [])
            && (!w.open ==> forall fd :: 0 <= fd < |w.closes| ==> w.closes[fd] >= 1)
  {
    if i: nat :| CloseFailsAt(segments, i) {
      FailingCloseClosesTwice(segments, i);
    } else {
      OtherwiseClosedOnce(segments);
    }
  }

  lemma AppendOnes(n: nat, closes: seq<nat>)
    ensures AllOnes(Ones(n) + closes) <==> AllOnes(closes)
  {
    forall i | 0 <= i < |closes| ensures (Ones(n) + closes)[n + i] == closes[i] {
    }
  }

  /** No descriptor is ever left open, and each is closed exactly once if and only if no close
      inside the loop of `doSafeOpen` reports an error. */
  lemma MakeDirClosesOnceExactly(e: MakeDir)
    ensures forall i :: 0 <= i < |SafeMakeDir(e).closes| ==> SafeMakeDir(e).closes[i] >= 1
    ensures AllOnes(SafeMakeDir(e).closes) <==>
            !(GetsToOpen(e) && e.openRel && e.openBase && exists i: nat :: CloseFailsAt(e.segments, i))
  {
    hide Existing, FirstMissing, Created, Walk, SafeOpen, CloseFailsAt;
    if GetsToOpen(e) {
      var w := SafeOpen(e.openRel, e.openBase, e.segments);
      SafeOpenLeavesOne(e.openRel, e.openBase, e.segments);
      var made := CreateAfter(w, e.dirs[FirstMissing(e.dirs).value..], e.chmod);
      SafeOpenClosesOnceExactly(e.openRel, e.openBase, e.segments);
      CreateAfterCloses(w, e.dirs[FirstMissing(e.dirs).value..], e.chmod);
      hide ClosedOnce, AllOnes;
      AppendOnes(1 + Existing(e.dirs), made.closes);
    }
  }

  lemma {:induction false} ExistingIsFound(dirs: seq<Dir>)
    ensures forall i :: 0 <= i < Existing(dirs) ==> dirs[i].lookup == Found
    decreases |dirs|
  {
    if dirs == [] || dirs[0].lookup != Found {
    } else {
      ExistingIsFound(dirs[1..]);
      forall i | 0 <= i < Existing(dirs) ensures dirs[i].lookup == Found {
        assert i > 0 ==> dirs[i] == dirs[1..][i - 1];
      }
    }
  }

  lemma {:induction false} CreatedAllExactly(dirs: seq<Dir>)
    ensures Created(dirs) == |dirs| <==> forall i :: 0 <= i < |dirs| ==> dirs[i].made && dirs[i].opens
    decreases |dirs|
  {
    if dirs == [] {
    } else {
      CreatedAllExactly(dirs[1..]);
      assert forall i :: 0 < i < |dirs| ==> dirs[i] == dirs[1..][i - 1];
      assert forall i :: 0 <= i < |dirs[1..]| ==> dirs[1..][i] == dirs[i + 1];
    }
  }

  /** The search ends at `n`: all directories before it were found, and it is missing or the end. */
  predicate EndsAt(dirs: seq<Dir>, n: nat) {
    && n <= |dirs| && (forall i :: 0 <= i < n ==> dirs[i].lookup == Found)
    && (n < |dirs| ==> dirs[n].lookup == Missing)
  }

  lemma FirstMissingExactly(dirs: seq<Dir>, n: nat)
    ensures FirstMissing(dirs) == Some(n) <==> EndsAt(dirs, n)
  {
    ExistingIsFound(dirs);
  }

  /** `doSafeMakeDir` succeeds exactly when the path is within the base and either is a directory, or
      cannot be looked at and everything works that has to be done then. */
  lemma MakeDirSucceedsExactly(e: MakeDir)
    ensures SafeMakeDir(e).ok <==>
            && e.within
            && (|| e.stat.Directory?
                || (&& e.stat.NoStat? && e.prefixRel && e.prefixBase && e.resolves && e.openRel && e.openBase && e.chmod
                    && (forall i :: 0 <= i < |e.segments| ==>
                          && e.segments[i].within && e.segments[i].opens
                          && e.segments[i].usable && e.segments[i].closes)
                    && exists n: nat :: EndsAt(e.dirs, n) &&
                                        forall i :: n <= i < |e.dirs| ==> e.dirs[i].made && e.dirs[i].opens))
  {
    hide Existing, Created, Walk, FirstMissing;
    SafeOpenSucceedsExactly(e.openRel, e.openBase, e.segments);
    forall n: nat ensures FirstMissing(e.dirs) == Some(n) <==> EndsAt(e.dirs, n) {
      FirstMissingExactly(e.dirs, n);
    }
    if FirstMissing(e.dirs).Some? {
      var n := FirstMissing(e.dirs).value;
      var toCreate := e.dirs[n..];
      CreatedAllExactly(toCreate);
      assert forall i :: n <= i < |e.dirs| ==> e.dirs[i] == toCreate[i - n];
      assert forall i :: 0 <= i < |toCreate| ==> toCreate[i] == e.dirs[n + i];
      assert EndsAt(e.dirs, n);
    }
  }

  // ---- The loops ----

  /** Every successful open gets an identity of its own, even if the kernel reuses numbers, so that
      closing something twice cannot hide behind reuse. */
  class Kernel {
    /** Descriptors 0 to next - 1 were opened so far. */
    var next: nat
    /** How often each of them was passed to close. */
    ghost var closes: seq<nat>

    ghost predicate Valid()
      reads this
    {
      |closes| == next
    }

    constructor ()
      ensures Valid() && next == 0
    {
      next, closes := 0, [];
    }

    /** open or openat: -1 on failure. */
    method Open(works: bool) returns (fd: int)
      requires Valid()
      modifies this
      ensures Valid() && (works <==> fd != -1)
      ensures fd == -1 ==> next == old(next) && closes == old(closes)
      ensures fd != -1 ==> fd == old(next) && next == fd + 1 && closes == old(closes) + [0]
    {
      if !works {
        return -1;
      }
      fd := next;
      next, closes := next + 1, closes + [0];
    }

    /** close releases the descriptor even when it reports an error. */
    method Close(fd: int)
      requires Valid() && 0 <= fd < next
      modifies this
      ensures Valid() && next == old(next) && closes == old(closes[fd := closes[fd] + 1])
    {
      closes := closes[fd := closes[fd] + 1];
    }
  }

  method DoSafeOpen(k: Kernel, rel: bool, base: bool, segments: seq<Segment>) returns (fd: int)
    requires k.Valid()
    modifies k
    ensures k.Valid()
    ensures var w := SafeOpen(rel, base, segments);
            k.closes == old(k.closes) + w.closes && fd == if w.open then k.next - 1 else -1
  {
    ghost var before := k.closes;
    if !rel {
      return -1;
    }
    var parentFD := k.Open(base);
    if parentFD == -1 {
      return -1;
    }
    for i := 0 to |segments|
      invariant k.Valid() && parentFD == |before| + i && k.closes == before + Ones(i) + [0]
      invariant forall j :: 0 <= j < i ==> Passes(segments[j])
    {
      var childFD := FollowSegment(k, parentFD, segments[i]);
      if childFD == -1 {
        WalkStops(segments, i);
        return -1;
      }
      parentFD := childFD;
    }
    WalkEnds(segments);
    return parentFD;
  }

  /** One round of the loop, with the deferred functions on the paths that leave `doSafeOpen`. */
  method FollowSegment(k: Kernel, parentFD: nat, s: Segment) returns (fd: int)
    requires k.Valid() && parentFD == k.next - 1 && k.closes[parentFD] == 0
    modifies k
    ensures k.Valid() && (fd != -1 <==> Passes(s))
    ensures fd != -1 ==> fd == k.next - 1 && k.closes == old(k.closes)[..parentFD] + [1, 0]
    ensures fd == -1 ==> k.closes == old(k.closes)[..parentFD] + Walk([s]).closes
  {
    ghost var head := k.closes[..parentFD];
    if !s.within {
      Deferred(k, parentFD, -1);
      return -1;
    }
    var childFD := k.Open(s.opens);
    if childFD == -1 {
      Deferred(k, parentFD, -1);
      return -1;
    }
    if !s.usable {
      Deferred(k, parentFD, childFD);
      return -1;
    }
    k.Close(parentFD);
    if !s.closes {
      Deferred(k, parentFD, childFD);
      return -1;
    }
    return childFD;
  }

  /** The deferred functions of `doSafeOpen`, in the order in which they run. */
  method Deferred(k: Kernel, parentFD: nat, childFD: int)
    requires k.Valid() && parentFD < k.next && -1 <= childFD < k.next && childFD != parentFD
    modifies k
    ensures k.Valid() && k.next == old(k.next)
    ensures forall fd: nat :: fd < k.next ==>
              k.closes[fd] == old(k.closes[fd]) + if fd == childFD || fd == parentFD then 1 else 0
  {
    if childFD != -1 {
      k.Close(childFD);
    }
    k.Close(parentFD);
  }

  /** `findExistingPrefix` closes every descriptor it opens exactly once, whatever fails. */
  method FindExistingPrefix(k: Kernel, rel: bool, base: bool, dirs: seq<Dir>) returns (firstMissing: Option<nat>)
    requires k.Valid()
    modifies k
    ensures k.Valid()
    ensures k.closes == old(k.closes) + if rel && base then Ones(1 + Existing(dirs)) else []
    ensures firstMissing == if rel && base then FirstMissing(dirs) else None
  {
    ghost var before := k.closes;
    if !rel {
      return None;
    }
    var fd := k.Open(base);
    if fd == -1 {
      return None;
    }
    for i := 0 to |dirs|
      invariant k.Valid() && fd == |before| + i && k.closes == before + Ones(i) + [0]
      invariant Existing(dirs) == i + Existing(dirs[i..])
    {
      assert dirs[i..][0] == dirs[i] && dirs[i..][1..] == dirs[i + 1..];
      var childFD := k.Open(dirs[i].lookup == Found);
      if childFD == -1 {
        k.Close(fd);
        return if dirs[i].lookup == Missing then Some(i) else None;
      }
      k.Close(fd);
      fd := childFD;
    }
    k.Close(fd);
    return Some(|dirs|);
  }

  /** The loop of `doSafeMakeDir` that creates the missing directories below an open one. In the
      source the `childFD` of the loop body is a new variable, so that the deferred function only
      ever sees the current `parentFD`. */
  method CreateBelow(k: Kernel, start: nat, toCreate: seq<Dir>, chmod: bool) returns (ok: bool)
    requires k.Valid() && start == k.next - 1 && k.closes[start] == 0
    modifies k
    ensures k.Valid() && k.closes == old(k.closes)[..start] + Ones(1 + Created(toCreate))
    ensures ok <==> Created(toCreate) == |toCreate| && chmod
  {
    ghost var before := k.closes[..start];
    var parentFD := start;
    for i := 0 to |toCreate|
      invariant k.Valid() && parentFD == start + i && k.closes == before + Ones(i) + [0]
      invariant Created(toCreate) == i + Created(toCreate[i..])
    {
      assert toCreate[i..][0] == toCreate[i] && toCreate[i..][1..] == toCreate[i + 1..];
      if !toCreate[i].made {
        k.Close(parentFD);
        return false;
      }
      var childFD := k.Open(toCreate[i].opens);
      if childFD == -1 {
        k.Close(parentFD);
        return false;
      }
      k.Close(parentFD);
      parentFD := childFD;
    }
    k.Close(parentFD);
    return chmod;
  }

  /** The second half of `doSafeMakeDir`. */
  method OpenAndCreate(k: Kernel, e: MakeDir, toCreate: seq<Dir>) returns (ok: bool)
    requires k.Valid()
    modifies k
    ensures k.Valid()
    ensures var w := SafeOpen(e.openRel, e.openBase, e.segments);
            && (w.open ==> w.closes != [])
            && Made(ok, k.closes) == CreateAfter(w.(closes := old(k.closes) + w.closes), toCreate, e.chmod)
  {
    hide Created, Walk, SafeOpen;
    SafeOpenLeavesOne(e.openRel, e.openBase, e.segments);
    var fd := DoSafeOpen(k, e.openRel, e.openBase, e.segments);
    if fd == -1 {
      return false;
    }
    ok := CreateBelow(k, fd, toCreate, e.chmod);
  }

  method DoSafeMakeDir(k: Kernel, e: MakeDir) returns (ok: bool)
    requires k.Valid()
    modifies k
    ensures k.Valid()
    ensures ok == SafeMakeDir(e).ok && k.closes == old(k.closes) + SafeMakeDir(e).closes
  {
    hide Existing, FirstMissing, Created, Walk, SafeOpen, ClosedOnce;
    if !e.within {
      return false;
    }
    if !e.stat.NoStat? {
      return e.stat.Directory?;
    }
    var missing := FindExistingPrefix(k, e.prefixRel, e.prefixBase, e.dirs);
    if missing.None? || !e.resolves {
      return false;
    }
    ok := OpenAndCreate(k, e, e.dirs[missing.value..]);
  }
}
