/** The OIM registry: a flat map from canonical paths to values that behaves like a tree, the
    rules for who may write, and the address that the proxy looks up. */
module Registry {
  import opened Wrappers
  import opened Paths

  datatype Entry = Entry(path: string, value: string)

  /** What decides a SetValue call: the peer name from its certificate and the request. */
  datatype Request = Request(peer: Option<string>, value: Option<Entry>)

  datatype Status = Accepted | MissingValue | InvalidPath | EmptyPath | NoPeer | PermissionDenied

  type DB = map<string, string>
  type Tree = map<seq<string>, string>

  const ADMIN := "user.admin"

  // ---- SetValue ----

  predicate MayWrite(peer: string, es: seq<string>)
    requires es != []
  {
    peer == ADMIN || (peer == "controller." + es[0] && |es| == 2 && es[1] == ADDRESS)
  }

  function Check(r: Request): Status {
    if r.value.None? then MissingValue
    else
      var split := SplitRegistryPath(r.value.value.path);
      if split.Err? then InvalidPath
      else if split.value == [] then EmptyPath
      else if r.peer.None? then NoPeer
      else if !MayWrite(r.peer.value, split.value) then PermissionDenied
      else Accepted
  }

  /** Who may write what, and which status each refusal has. */
  lemma AcceptedExactly(r: Request)
    ensures Check(r) == Accepted <==>
            && r.value.Some? && r.peer.Some?
            && var es := Fields(r.value.value.path);
               && es != [] && "." !in es && ".." !in es
               && (r.peer.value == "user.admin" || (r.peer.value == "controller." + es[0] && es == [es[0], "address"]))
    ensures Check(r) == MissingValue <==> r.value.None?
    ensures r.value.Some? ==>
              var es := Fields(r.value.value.path);
              && (Check(r) == InvalidPath <==> "." in es || ".." in es)
              && (Check(r) == EmptyPath <==> es == [])
              && (Check(r) == NoPeer <==> es != [] && "." !in es && ".." !in es && r.peer.None?)
    ensures Check(r) == Accepted ==> Target(r) == Fields(r.value.value.path)
  {
    if r.value.Some? {
      var es := Fields(r.value.value.path);
      assert |es| == 2 && es[1] == "address" <==> es != [] && es == [es[0], "address"];
      assert "." in es ==> !Allowed(".");
      assert ".." in es ==> !Allowed("..");
    }
  }

  /** The elements and the value of an accepted request. */
  function Target(r: Request): (es: seq<string>)
    requires Check(r) == Accepted
    ensures es != [] && Valid(es) && MayWrite(r.peer.value, es)
  {
    SplitIsCanonical(r.value.value.path);
    SplitRegistryPath(r.value.value.path).value
  }

  /** `Store`: an empty value removes the entry. */
  function Put<K>(m: map<K, string>, key: K, value: string): map<K, string> {
    if value == "" then m - {key} else m[key := value]
  }

  function Set(db: DB, r: Request): DB {
    if Check(r) == Accepted then Put(db, JoinRegistryPath(Target(r)), r.value.value.value) else db
  }

  function Run(db: DB, rs: seq<Request>): DB
    decreases |rs|
  {
    if rs == [] then db else Set(Run(db, rs[..|rs| - 1]), rs[|rs| - 1])
  }

  // ---- The tree that the database stands for ----

  /** Every key is canonical and non-empty, and so is every value. */
  predicate Canonical(db: DB) {
    forall key :: key in db ==>
      Fields(key) != [] && Valid(Fields(key)) && JoinRegistryPath(Fields(key)) == key && db[key] != ""
  }

  ghost function Abs(db: DB): Tree
    requires Canonical(db)
  {
    map es | es in (set key | key in db :: Fields(key)) && JoinRegistryPath(es) in db :: db[JoinRegistryPath(es)]
  }

  lemma AbsMembers(db: DB, es: seq<string>)
    requires Canonical(db)
    ensures es in Abs(db) <==> es != [] && Valid(es) && JoinRegistryPath(es) in db
    ensures es in Abs(db) ==> Abs(db)[es] == db[JoinRegistryPath(es)] != ""
  {
    if es != [] && Valid(es) && JoinRegistryPath(es) in db {
      FieldsOfJoin(es);
      assert Fields(JoinRegistryPath(es)) == es;
    }
  }

  function TreeSet(tree: Tree, r: Request): Tree {
    if Check(r) == Accepted then Put(tree, Target(r), r.value.value.value) else tree
  }

  function TreeRun(tree: Tree, rs: seq<Request>): Tree
    decreases |rs|
  {
    if rs == [] then tree else TreeSet(TreeRun(tree, rs[..|rs| - 1]), rs[|rs| - 1])
  }

  lemma SetKeepsCanonical(db: DB, r: Request)
    requires Canonical(db)
    ensures Canonical(Set(db, r))
  {
    if Check(r) == Accepted {
      FieldsOfJoin(Target(r));
    }
  }

  /** The entry of one element list after one call. */
  lemma SetAt(db: DB, r: Request, es: seq<string>)
    requires Canonical(db) && Canonical(Set(db, r))
    ensures es in Abs(Set(db, r)) <==> es in TreeSet(Abs(db), r)
    ensures es in Abs(Set(db, r)) ==> Abs(Set(db, r))[es] == TreeSet(Abs(db), r)[es]
  {
    hide Abs, Canonical, Check;
    AbsMembers(db, es);
    AbsMembers(Set(db, r), es);
    if Check(r) == Accepted && es != [] && Valid(es) && JoinRegistryPath(es) == JoinRegistryPath(Target(r)) {
      JoinIsInjective(es, Target(r));
    }
  }

  lemma SetRefines(db: DB, r: Request)
    requires Canonical(db)
    ensures Canonical(Set(db, r)) && Abs(Set(db, r)) == TreeSet(Abs(db), r)
  {
    SetKeepsCanonical(db, r);
    hide Abs, Canonical, Set, TreeSet;
    forall es
      ensures es in Abs(Set(db, r)) <==> es in TreeSet(Abs(db), r)
      ensures es in Abs(Set(db, r)) ==> Abs(Set(db, r))[es] == TreeSet(Abs(db), r)[es]
    {
      SetAt(db, r, es);
    }
  }

  /** After any run of SetValue calls every key is canonical and the flat map stands for exactly
      the tree that the accepted writes build. */
  lemma {:induction false} RunRefines(rs: seq<Request>)
    ensures Canonical(Run(map[], rs)) && Abs(Run(map[], rs)) == TreeRun(map[], rs)
    decreases |rs|
  {
    if rs == [] {
    } else {
      RunRefines(rs[..|rs| - 1]);
      SetRefines(Run(map[], rs[..|rs| - 1]), rs[|rs| - 1]);
    }
  }

  // ---- The latest write ----

  predicate Writes(r: Request, es: seq<string>) {
    Check(r) == Accepted && Target(r) == es
  }

  /** The value that the last accepted write to `es` set; empty if there is none. */
  function Latest(rs: seq<Request>, es: seq<string>): string
    decreases |rs|
  {
    if rs == [] then ""
    else if Writes(rs[|rs| - 1], es) then rs[|rs| - 1].value.value.value
    else Latest(rs[..|rs| - 1], es)
  }

  lemma {:induction false} TreeHoldsLatest(rs: seq<Request>, es: seq<string>)
    ensures es in TreeRun(map[], rs) <==> Latest(rs, es) != ""
    ensures es in TreeRun(map[], rs) ==> TreeRun(map[], rs)[es] == Latest(rs, es)
    decreases |rs|
  {
    if rs == [] {
    } else {
      TreeHoldsLatest(rs[..|rs| - 1], es);
    }
  }

  /** An accepted write sets the value of its own path, and of no other. */
  lemma WriteTakesEffect(rs: seq<Request>, r: Request, es: seq<string>)
    ensures Latest(rs + [r], es) ==
            if Check(r) == Accepted && Fields(r.value.value.path) == es then r.value.value.value else Latest(rs, es)
  {
    AcceptedExactly(r);
    assert (rs + [r])[..|rs|] == rs;
  }

  lemma {:induction false} LatestIsAWrite(rs: seq<Request>, es: seq<string>) returns (i: nat)
    requires Latest(rs, es) != ""
    ensures i < |rs| && Writes(rs[i], es) && rs[i].value.value.value == Latest(rs, es)
    ensures forall j :: i < j < |rs| ==> !Writes(rs[j], es)
    decreases |rs|
  {
    var n := |rs| - 1;
    if Writes(rs[n], es) {
      i := n;
    } else {
      i := LatestIsAWrite(rs[..n], es);
      forall j | i < j < |rs| ensures !Writes(rs[j], es) {
        assert j < n ==> rs[j] == rs[..n][j];
      }
    }
  }

  // ---- Connect ----

  datatype Metadata = NoMetadata | Metadata(controllerIDs: seq<string>)
  datatype Routing = Unimplemented | FailedPrecondition | Denied | Unavailable | Address(address: string)

  function Lookup(db: DB, key: string): string {
    if key in db then db[key] else ""
  }

  /** `Connect` up to the address that it dials. */
  function Route(db: DB, method_: string, md: Metadata, peer: Option<string>): Routing {
    if "/oim.v0.Registry/" <= method_ then Unimplemented
    else if md.NoMetadata? || |md.controllerIDs| != 1 then FailedPrecondition
    else
      var id := md.controllerIDs[0];
      if peer.None? then FailedPrecondition
      else if !("host." <= peer.value && peer.value[5..] == id) then Denied
      else
        var address := Lookup(db, id + "/" + ADDRESS);
        if address == "" then Unavailable else Address(address)
  }

  /** Exactly when a call is refused as unimplemented and when for a missing ID or peer. The interface
      promises "Unimplemented" for a call without a controller ID; it gets that answer if and only
      if it is for the registry's own service. */
  lemma RefusedExactly(db: DB, method_: string, md: Metadata, peer: Option<string>)
    ensures Route(db, method_, md, peer) == Unimplemented <==> "/oim.v0.Registry/" <= method_
    ensures Route(db, method_, md, peer) == FailedPrecondition <==>
            !("/oim.v0.Registry/" <= method_) && (md.NoMetadata? || |md.controllerIDs| != 1 || peer.None?)
    ensures Route(db, method_, md, peer) == Denied <==>
            && !("/oim.v0.Registry/" <= method_) && md.Metadata? && |md.controllerIDs| == 1 && peer.Some?
            && peer.value != "host." + md.controllerIDs[0]
  {
    if md.Metadata? && |md.controllerIDs| == 1 && peer.Some? {
      var id := md.controllerIDs[0];
      assert ("host." + id)[5..] == id;
      assert "host." <= peer.value ==> peer.value == "host." + peer.value[5..];
    }
  }

  lemma MissingIdIsNotUnimplemented(db: DB, peer: Option<string>)
    ensures Route(db, "/oim.v0.Controller/MapVolume", Metadata([]), peer) == FailedPrecondition
  {
    assert "/oim.v0.Controller/MapVolume"[8] == 'C' && "/oim.v0.Registry/"[8] == 'R';
  }

  /** A controller ID that a registry path can name. IDs with inner slashes name deeper entries. */
  predicate NamesEntry(id: string) {
    id != "" && JoinRegistryPath(Fields(id)) == id && Valid(Fields(id))
  }

  lemma AddressKey(id: string)
    ensures Fields(id + "/" + ADDRESS) == Fields(id) + [ADDRESS]
    ensures Valid(Fields(id) + [ADDRESS]) <==> Valid(Fields(id))
    ensures Fields(id) != [] ==>
              (JoinRegistryPath(Fields(id) + [ADDRESS]) == id + "/" + ADDRESS <==> JoinRegistryPath(Fields(id)) == id)
    ensures Fields(id) == [] ==> JoinRegistryPath(Fields(id) + [ADDRESS]) != id + "/" + ADDRESS
  {
    hide Fields, JoinRegistryPath;
    FieldsThroughSlash(id, ADDRESS);
    PlainFields(ADDRESS);
    var es := Fields(id);
    assert forall e :: e in es ==> e in es + [ADDRESS];
    if es == [] {
      assert [] + [ADDRESS] == [ADDRESS];
      JoinOne(ADDRESS);
      assert |id + "/" + ADDRESS| != |ADDRESS|;
    } else {
      JoinAppend(es, [ADDRESS]);
      JoinOne(ADDRESS);
      SameHead(JoinRegistryPath(es), id);
    }
  }

  lemma PlainFields(e: string)
    requires e != "" && '/' !in e
    ensures Fields(e) == [e]
  {
    FieldsOfElement(e, "");
    assert e + "" == e;
  }

  lemma JoinOne(e: string)
    ensures JoinRegistryPath([e]) == e
  {
  }

  lemma SameHead(a: string, b: string)
    ensures a + "/" + ADDRESS == b + "/" + ADDRESS <==> a == b
  {
    if a + "/" + ADDRESS == b + "/" + ADDRESS {
      assert a == (a + "/" + ADDRESS)[..|a|] && b == (b + "/" + ADDRESS)[..|b|];
    }
  }

  /** After every run, the address that Connect finds for a controller ID is the latest value that
      was set at that ID's address entry; an ID that no registry path can name finds none. */
  lemma LookupIsLatest(rs: seq<Request>, id: string)
    ensures Lookup(Run(map[], rs), id + "/" + ADDRESS) ==
            if NamesEntry(id) then Latest(rs, Fields(id) + [ADDRESS]) else ""
  {
    var db := Run(map[], rs);
    var es := Fields(id) + [ADDRESS];
    RunRefines(rs);
    AddressKey(id);
    AbsMembers(db, es);
    TreeHoldsLatest(rs, es);
  }

  lemma PlainIdNamesEntry(c: string)
    requires ValidElement(c)
    ensures NamesEntry(c) && Fields(c) == [c]
  {
    PlainFields(c);
  }

  /** Over every run and for every ID: Connect routes the caller `host.<id>` to the latest address set
      for the ID, which nobody changed since, and to none if no registry path names the ID. Every
      accepted write there, removals included, came from the administrator or, for a plain ID only,
      from the controller itself. */
  lemma RoutingFollowsWrites(rs: seq<Request>, id: string, method_: string) returns (i: nat)
    requires !("/oim.v0.Registry/" <= method_)
    ensures var found := Route(Run(map[], rs), method_, Metadata([id]), Some("host." + id));
            var es := Fields(id) + [ADDRESS];
            && found == (if NamesEntry(id) && Latest(rs, es) != "" then Address(Latest(rs, es)) else Unavailable)
            && (found.Address? ==>
                  && i < |rs| && Writes(rs[i], es) && rs[i].value.value.value == found.address
                  && forall j :: i < j < |rs| ==> !Writes(rs[j], es))
    ensures NamesEntry(id) ==>
              forall j :: 0 <= j < |rs| && Writes(rs[j], Fields(id) + [ADDRESS]) ==>
                rs[j].peer == Some(ADMIN) || (ValidElement(id) && rs[j].peer == Some("controller." + id))
  {
    var es := Fields(id) + [ADDRESS];
    LookupIsLatest(rs, id);
    assert ("host." + id)[5..] == id;
    i := 0;
    if Latest(rs, es) != "" {
      i := LatestIsAWrite(rs, es);
    }
    forall j | NamesEntry(id) && 0 <= j < |rs| && Writes(rs[j], es)
      ensures rs[j].peer == Some(ADMIN) || (ValidElement(id) && rs[j].peer == Some("controller." + id))
    {
      WriterOfAddress(rs[j], id);
    }
  }

  lemma WriterOfAddress(r: Request, id: string)
    requires NamesEntry(id) && Writes(r, Fields(id) + [ADDRESS])
    ensures r.peer == Some(ADMIN) || (ValidElement(id) && r.peer == Some("controller." + id))
  {
    hide Fields, JoinRegistryPath;
    var fs := Fields(id);
    if r.peer != Some(ADMIN) {
      assert |fs| == 1 && fs == [fs[0]];
      JoinOne(fs[0]);
      assert fs[0] in fs;
    }
  }

  /** The request that a controller makes to register itself. */
  function SelfRegistration(id: string, address: string): Request {
    Request(Some("controller." + id), Some(Entry(id + "/" + ADDRESS, address)))
  }

  lemma SelfRegistrationIsAccepted(id: string, address: string)
    requires ValidElement(id)
    ensures Writes(SelfRegistration(id, address), [id, ADDRESS])
  {
    hide Fields, JoinRegistryPath;
    AddressKey(id);
    PlainFields(id);
    SplitIsCanonical(id + "/" + ADDRESS);
    assert [id] + [ADDRESS] == [id, ADDRESS];
  }

  lemma OnlyPlainIdsRegister(id: string, address: string)
    requires Check(SelfRegistration(id, address)) == Accepted
    ensures ValidElement(id)
  {
    hide Fields, JoinRegistryPath;
    var r := SelfRegistration(id, address);
    var es := Fields(id);
    AddressKey(id);
    SplitIsCanonical(id + "/" + ADDRESS);
    assert r.peer.value[0] == 'c' && r.peer.value != ADMIN;
    assert |es| == 1 && r.peer.value == "controller." + es[0];
    assert ("controller." + id)[11..] == id && ("controller." + es[0])[11..] == es[0];
    assert es[0] in es + [ADDRESS];
  }

  /** The registry accepts the self-registration of exactly those controllers whose ID is a plain
      path element; afterwards the host of that controller is routed to the address. */
  lemma SelfRegistrationWorks(rs: seq<Request>, id: string, address: string, method_: string)
    requires address != "" && !("/oim.v0.Registry/" <= method_)
    ensures Check(SelfRegistration(id, address)) == Accepted <==> ValidElement(id)
    ensures ValidElement(id) ==>
              var db := Run(map[], rs + [SelfRegistration(id, address)]);
              Route(db, method_, Metadata([id]), Some("host." + id)) == Address(address)
  {
    hide Check, Route, Run;
    var r := SelfRegistration(id, address);
    if Check(r) == Accepted {
      OnlyPlainIdsRegister(id, address);
    }
    if ValidElement(id) {
      SelfRegistrationIsAccepted(id, address);
      var n := RoutingFollowsWrites(rs + [r], id, method_);
      PlainIdNamesEntry(id);
      assert [id] + [ADDRESS] == [id, ADDRESS];
      assert Latest(rs + [r], [id, ADDRESS]) == address;
    }
  }

  /** An ID with a slash: the controller may not register itself. */
  lemma SlashedIdCannotRegister(address: string)
    ensures Check(SelfRegistration("a/b", address)) != Accepted
  {
    assert "a/b"[1] == '/';
    if Check(SelfRegistration("a/b", address)) == Accepted {
      OnlyPlainIdsRegister("a/b", address);
    }
  }

  /** Nobody but `host.<id>` is routed to controller <id>. */
  lemma OnlyTheHostIsRouted(db: DB, method_: string, md: Metadata, peer: Option<string>)
    requires Route(db, method_, md, peer).Address?
    ensures md.Metadata? && |md.controllerIDs| == 1 && peer == Some("host." + md.controllerIDs[0])
  {
    assert peer.value == "host." + peer.value[5..];
  }

  // ---- GetValues ----

  /** The entry stands for the latest value of `es`, at or beneath the elements of `p`. */
  predicate SelectedAs(rs: seq<Request>, p: string, e: Entry, es: seq<string>) {
    && Valid(es) && es != [] && Fields(p) <= es
    && e == Entry(JoinRegistryPath(es), Latest(rs, es)) && e.value != ""
  }

  /** The entries of the tree at or beneath the elements of `p`. */
  ghost predicate Selected(rs: seq<Request>, p: string, e: Entry) {
    exists es :: SelectedAs(rs, p, e, es)
  }

  lemma SelectedIsMatch(rs: seq<Request>, p: string, key: string)
    requires SplitRegistryPath(p).Ok?
    ensures var db := Run(map[], rs);
            key in db && AtOrBeneath(key, JoinRegistryPath(Fields(p))) <==> exists v :: Selected(rs, p, Entry(key, v))
    ensures var db := Run(map[], rs);
            key in db && AtOrBeneath(key, JoinRegistryPath(Fields(p))) ==> Selected(rs, p, Entry(key, db[key]))
  {
    var db := Run(map[], rs);
    var es := Fields(key);
    RunRefines(rs);
    SplitIsCanonical(p);
    if key in db {
      AbsMembers(db, es);
      TreeHoldsLatest(rs, es);
      PrefixTestIsElementPrefix(es, Fields(p));
      if AtOrBeneath(key, JoinRegistryPath(Fields(p))) {
        assert SelectedAs(rs, p, Entry(key, db[key]), es);
      }
    }
    if v :| Selected(rs, p, Entry(key, v)) {
      var fs :| SelectedAs(rs, p, Entry(key, v), fs);
      FieldsOfJoin(fs);
      AbsMembers(db, fs);
      TreeHoldsLatest(rs, fs);
      PrefixTestIsElementPrefix(fs, Fields(p));
    }
  }

  lemma SelectedValueIsUnique(rs: seq<Request>, p: string, key: string, v: string, w: string)
    requires Selected(rs, p, Entry(key, v)) && Selected(rs, p, Entry(key, w))
    ensures v == w
  {
    var es :| SelectedAs(rs, p, Entry(key, v), es);
    var fs :| SelectedAs(rs, p, Entry(key, w), fs);
    JoinIsInjective(es, fs);
  }

  /** The registry with its in-memory database. */
  class Server {
    var db: DB
    /** All SetValue calls so far. */
    ghost var calls: seq<Request>

    ghost predicate Consistent()
      reads this
    {
      db == Run(map[], calls)
    }

    constructor ()
      ensures Consistent() && calls == []
    {
      db, calls := map[], [];
    }

    method Store(key: string, value: string)
      modifies this`db
      ensures db == Put(old(db), key, value)
    {
      if value == "" {
        db := db - {key};
      } else {
        db := db[key := value];
      }
    }

    method SetValue(peer: Option<string>, value: Option<Entry>) returns (status: Status)
      requires Consistent()
      modifies this
      ensures Consistent() && calls == old(calls) + [Request(peer, value)]
      ensures status == Check(Request(peer, value))
      ensures status == Accepted <==>
              && value.Some? && peer.Some?
              && var es := Fields(value.value.path);
                 && es != [] && "." !in es && ".." !in es
                 && (peer.value == "user.admin" || (peer.value == "controller." + es[0] && es == [es[0], "address"]))
      ensures forall es :: Latest(calls, es) ==
                           if status == Accepted && Fields(value.value.path) == es then value.value.value
                           else Latest(old(calls), es)
      ensures Canonical(db)
      ensures forall es :: es in Abs(db) <==> Latest(calls, es) != ""
      ensures forall es :: es in Abs(db) ==> Abs(db)[es] == Latest(calls, es)
    {
      calls := calls + [Request(peer, value)];
      assert calls[..|calls| - 1] == old(calls);
      status := CheckAndStore(peer, value);
      AcceptedExactly(Request(peer, value));
      forall es
        ensures Latest(calls, es) == if status == Accepted && Fields(value.value.path) == es then value.value.value
                                     else Latest(old(calls), es)
      {
        WriteTakesEffect(old(calls), Request(peer, value), es);
      }
      RunRefines(calls);
      forall es
        ensures es in Abs(db) <==> Latest(calls, es) != ""
        ensures es in Abs(db) ==> Abs(db)[es] == Latest(calls, es)
      {
        TreeHoldsLatest(calls, es);
      }
    }

    /** The checks of SetValue in their order, and its write. */
    method CheckAndStore(peer: Option<string>, value: Option<Entry>) returns (status: Status)
      modifies this`db
      ensures status == Check(Request(peer, value)) && db == Set(old(db), Request(peer, value))
    {
      if value.None? {
        return MissingValue;
      }
      var split := SplitRegistryPath(value.value.path);
      if split.Err? {
        return InvalidPath;
      }
      var elements := split.value;
      if |elements| == 0 {
        return EmptyPath;
      }
      var key := JoinRegistryPath(elements);
      if peer.None? {
        return NoPeer;
      }
      var allowed := peer.value == ADMIN ||
                     (peer.value == "controller." + elements[0] && |elements| == 2 && elements[1] == ADDRESS);
      if !allowed {
        return PermissionDenied;
      }
      Store(key, value.value.value);
      return Accepted;
    }

    /** GetValues returns, exactly once each, the latest non-empty values at or beneath the path. */
    method GetValues(peer: Option<string>, path: string) returns (status: Status, out: seq<Entry>)
      requires Consistent()
      ensures status == if SplitRegistryPath(path).Err? then InvalidPath else if peer.None? then NoPeer else Accepted
      ensures status != Accepted ==> out == []
      ensures status == Accepted ==> forall e :: e in out <==> Selected(calls, path, e)
      ensures forall i, j :: 0 <= i < j < |out| ==> out[i].path != out[j].path
    {
      out := [];
      var elements := SplitRegistryPath(path);
      if elements.Err? {
        return InvalidPath, [];
      }
      var prefix := JoinRegistryPath(elements.value);
      if peer.None? {
        return NoPeer, [];
      }
      out := Matches(prefix);
      forall e ensures e in out <==> Selected(calls, path, e) {
        SelectedIsMatch(calls, path, e.path);
        if Selected(calls, path, e) {
          assert Selected(calls, path, Entry(e.path, e.value));
          SelectedValueIsUnique(calls, path, e.path, e.value, db[e.path]);
        }
      }
      return Accepted, out;
    }

    /** `Foreach` over the database, in any order, with the callback of GetValues. */
    method Matches(prefix: string) returns (out: seq<Entry>)
      ensures forall e :: e in out <==> e.path in db && db[e.path] == e.value && AtOrBeneath(e.path, prefix)
      ensures forall i, j :: 0 <= i < j < |out| ==> out[i].path != out[j].path
    {
      out := [];
      var todo := db.Keys;
      while todo != {}
        invariant todo <= db.Keys
        invariant forall e :: e in out <==>
                    e.path in db && e.path !in todo && db[e.path] == e.value && AtOrBeneath(e.path, prefix)
        invariant forall i, j :: 0 <= i < j < |out| ==> out[i].path != out[j].path
        decreases |todo|
      {
        var key :| key in todo;
        if AtOrBeneath(key, prefix) {
          assert forall i :: 0 <= i < |out| ==> out[i] in out;
          out := out + [Entry(key, db[key])];
        }
        todo := todo - {key};
      }
    }

    /** Connect up to the address it dials. */
    method Connect(method_: string, md: Metadata, peer: Option<string>) returns (r: Routing)
      requires Consistent()
      ensures r == Route(db, method_, md, peer)
      ensures r.Address? ==>
                var id := md.controllerIDs[0];
                NamesEntry(id) && r.address == Latest(calls, Fields(id) + [ADDRESS])
    {
      if "/oim.v0.Registry/" <= method_ {
        return Unimplemented;
      }
      if md.NoMetadata? || |md.controllerIDs| != 1 {
        return FailedPrecondition;
      }
      var controllerID := md.controllerIDs[0];
      if peer.None? {
        return FailedPrecondition;
      }
      var prefix := "host.";
      if !(prefix <= peer.value) || peer.value[|prefix|..] != controllerID {
        return Denied;
      }
      var key := controllerID + "/" + ADDRESS;
      LookupIsLatest(calls, controllerID);
      var address := if key in db then db[key] else "";
      if address == "" {
        return Unavailable;
      }
      return Address(address);
    }
  }
}
