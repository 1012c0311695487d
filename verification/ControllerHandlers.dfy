/** The RPC handlers in the form the controller has them: straight-line code and loops over
    SPDK calls, with calls for other volumes running in between. Each handler is shown to take
    exactly the steps of the interleaving state machine, and what other calls may do between
    two of its RPCs is shown to be what they do in that machine. */
module ControllerHandlers {
  import opened Wrappers
  import opened Spdk
  import opened Controller
  import opened ControllerSafety
  import opened ControllerReplies

  /** In the state machine, whatever other calls do while call `i` is inside its critical section
      leaves SPDK consistent and leaves call `i` and its volume alone. */
  lemma {:induction false} OthersLeaveVolumeAlone(c: Config, s: System, es: seq<Event>, i: Tid)
    requires Inv(c, s) && i in s.threads && Critical(s.threads[i].pc)
    requires forall e :: e in es && e.Step? ==> e.tid != i
    ensures var s' := Run(c, s, es);
            && Inv(c, s') && i in s'.threads && s'.threads[i] == s.threads[i]
            && SamePart(s.spdk, s'.spdk, s.threads[i].call.vol)
    decreases |es|
  {
    hide Apply, Inv;
    if es == [] {
    } else {
      ApplyKeepsInv(c, s, es[0]);
      OtherEventLeavesVolumeAlone(c, s, es[0], i);
      assert forall x :: x in es[1..] ==> x in es;
      OthersLeaveVolumeAlone(c, Apply(c, s, es[0]), es[1..], i);
    }
  }

  lemma OtherEventLeavesVolumeAlone(c: Config, s: System, e: Event, i: Tid)
    requires Inv(c, s) && i in s.threads && Critical(s.threads[i].pc)
    requires e.Step? ==> e.tid != i
    ensures var s' := Apply(c, s, e);
            && i in s'.threads && s'.threads[i] == s.threads[i]
            && SamePart(s.spdk, s'.spdk, s.threads[i].call.vol)
  {
    hide Local, LocalInv;
    if e.Step? && e.tid in s.threads && Critical(s.threads[e.tid].pc) {
      assert HoldsLock(c, s, i) && HoldsLock(c, s, e.tid);
      LocalFrame(c, s.spdk, s.threads[e.tid], e.env, s.threads[i].call.vol);
    }
  }

  /** One step of a call: other calls turn SPDK into `mid`, then the call's step yields `k` and `th`. */
  datatype Entry = Entry(mid: State, env: Env, k: State, th: Thread)

  ghost predicate StepOf(c: Config, k: State, th: Thread, e: Entry) {
    && Critical(th.pc) && Consistent(e.mid) && SamePart(k, e.mid, th.call.vol)
    && Local(c, e.mid, th, e.env) == (e.k, e.th)
  }

  /** The trace is an execution of the thread program from `k0` and `th0`. */
  ghost predicate Executes(c: Config, k0: State, th0: Thread, tr: seq<Entry>) {
    && (tr != [] ==> StepOf(c, k0, th0, tr[0]))
    && (forall i :: 0 < i < |tr| ==> StepOf(c, tr[i - 1].k, tr[i - 1].th, tr[i]))
  }

  class Server {
    const c: Config
    /** SPDK, which other calls change as well. */
    var k: State
    /** The call being handled, where it started, and the steps it has taken. */
    ghost var th: Thread
    ghost var k0: State
    ghost var th0: Thread
    ghost var tr: seq<Entry>

    constructor (config: Config, spdk: State)
      requires Consistent(spdk)
      ensures c == config && k == spdk
    {
      c, k := config, spdk;
    }

    ghost predicate Valid()
      reads this
    {
      && Consistent(k) && LocalInv(c, k, th) && Executes(c, k0, th0, tr)
      && th == (if tr == [] then th0 else tr[|tr| - 1].th)
      && SamePart(Reached(), k, th.call.vol) && Since(c, k0, k, th)
    }

    /** SPDK right after the last step of the current call. */
    ghost function Reached(): State
      reads this
    {
      if tr == [] then k0 else tr[|tr| - 1].k
    }

    /** What calls for other volumes may do between two RPCs of the current call, as shown by
        `OthersLeaveVolumeAlone`: anything that leaves SPDK consistent and the volume alone. */
    method OtherCalls(vol: string)
      requires Valid() && th.call.vol == vol
      modifies this`k
      ensures Valid()
    {
      hide Since, LocalInv, Executes;
      var next: State := *;
      if Consistent(next) && IsSamePart(k, next, vol) {
        LocalInvIsLocal(c, k, next, th);
        SinceIsLocal(c, k0, k, next, th);
        k := next;
      }
    }

    /** What a finished call may tell its caller. */
    lemma ReplyHolds()
      requires Valid()
      ensures Consistent(k)
      ensures th.pc.Returning? && th.pc.reply.Mapped? ==> At(k, th.pc.reply.slot, th.call.vol)
      ensures th.pc.Returning? && th.pc.reply.Unmapped? ==> !Attached(k, th.call.vol)
      ensures th.pc.Returning? ==>
                && Leaves(c, k0, k, th.call, th.pc.reply, th.lost)
                && Tells(GetBDev(k0, th.call.vol), th.call, th.pc.reply, th.lost)
    {
      hide Since, Leaves, Tells, Executes;
      SinceTells(c, k0, k, th);
    }

    /** The call that is being handled stays the same and its trace grows. */
    twostate predicate Continues()
      reads this
    {
      Valid() && k0 == old(k0) && th0 == old(th0) && th.call == old(th.call)
    }

    /** Records that the current call took the step that led from `mid` to the present state. */
    ghost method Record(mid: State, env: Env)
      requires Consistent(mid) && LocalInv(c, mid, th) && Critical(th.pc) && Executes(c, k0, th0, tr)
      requires SamePart(Reached(), mid, th.call.vol) && Since(c, k0, mid, th)
      requires th == (if tr == [] then th0 else tr[|tr| - 1].th)
      requires k == Local(c, mid, th, env).0
      modifies this`th, this`tr
      ensures Valid() && th == Local(c, mid, old(th), env).1 && th.call == old(th.call)
    {
      hide Local, LocalInv, Since, Consistent;
      LocalKeepsConsistent(c, mid, th, env);
      SinceStep(c, k0, mid, th, env);
      LocalKeepsInv(c, mid, th, env);
      var th' := Local(c, mid, th, env).1;
      tr := tr + [Entry(mid, env, k, th')];
      th := th';
    }

    // ---- SPDK RPCs. Each may come back lost, and other calls may run before it. ----

    method GetBDevs(name: string) returns (bdev: Option<BDev>)
      requires Valid() && th.call.vol == name
      requires th.pc in {MapLookup, UnmapLookup, ProvisionLookup, CheckLookup}
      modifies this
      ensures Continues()
      ensures old(th.pc) == MapLookup ==>
                th.pc == if bdev.Some? then MapSnapshot
                         else if th.call.params.CephParams? then MapConstruct else Returning(Failed)
      ensures old(th.pc) == UnmapLookup ==>
                th.pc == if bdev.Some? && bdev.value.product != MallocDisk then UnmapDelete else Returning(Unmapped)
      ensures old(th.pc) == ProvisionLookup ==>
                th.pc == if bdev.None? then ProvisionConstruct
                         else if bdev.value.numBlocks * bdev.value.blockSize == th.call.size then Returning(Provisioned)
                         else Returning(Failed)
      ensures old(th.pc) == CheckLookup ==> th.pc == Returning(if bdev.Some? then Present else Failed)
    {
      hide Since;
      OtherCalls(name);
      var lost: bool := *;
      bdev := if lost then None else GetBDev(k, name);
      Record(k, Env(lost, 0, Slot("", 0)));
    }

    method GetVHostControllers(vol: string) returns (luns: Option<map<Slot, string>>)
      requires Valid() && th.call.vol == vol && th.pc in {MapSnapshot, UnmapSnapshot}
      modifies this
      ensures Continues()
      ensures luns.None? ==> th.pc == Returning(Failed)
      ensures luns.Some? && old(th.pc) == UnmapSnapshot ==> th.pc == UnmapScan(luns.value)
      ensures luns.Some? && old(th.pc) == MapSnapshot ==>
                && (forall slot :: slot in luns.value && luns.value[slot] == th.call.vol ==>
                      th.pc == Returning(Mapped(slot)))
                && ((forall slot :: slot in luns.value ==> luns.value[slot] != th.call.vol) ==> th.pc == MapTry(0))
    {
      hide Since;
      OtherCalls(vol);
      var lost: bool := *;
      luns := if lost then None else Some(k.luns);
      assert forall slot :: slot in k.luns && k.luns[slot] == th.call.vol ==> At(k, slot, th.call.vol);
      Record(k, Env(lost, 0, Slot("", 0)));
    }

    method ConstructRBDBDev(name: string) returns (ok: bool)
      requires Valid() && th.pc == MapConstruct && th.call.vol == name
      modifies this
      ensures Continues() && th.pc == if ok then MapSnapshot else Returning(Failed)
    {
      hide Since;
      OtherCalls(name);
      var lost: bool, blocks: int := *, *;
      ghost var mid := k;
      var r := if lost then None else Construct(k, name, BDev(RbdDisk, BLOCK_SIZE, blocks));
      ok := r.Some?;
      k := After(k, r);
      Record(mid, Env(lost, blocks, Slot("", 0)));
    }

    method ConstructMallocBDev(name: string, numBlocks: int) returns (ok: bool)
      requires Valid() && th.pc == ProvisionConstruct && th.call.vol == name && numBlocks == GoDiv(th.call.size, 512)
      modifies this
      ensures Continues() && th.pc == Returning(if ok then Provisioned else Failed)
    {
      hide Since;
      OtherCalls(name);
      var lost: bool := *;
      ghost var mid := k;
      var r := if lost then None else Construct(k, name, BDev(MallocDisk, BLOCK_SIZE, numBlocks));
      ok := r.Some?;
      k := After(k, r);
      Record(mid, Env(lost, 0, Slot("", 0)));
    }

    method AddVHostSCSILUN(slot: Slot, name: string) returns (ok: bool)
      requires Valid() && th.call.vol == name && slot.ctrlr == c.vhost && th.pc == MapTry(slot.target)
      modifies this
      ensures Continues()
      ensures th.pc == if ok then Returning(Mapped(slot))
                       else if slot.target + 1 < TARGETS then MapTry(slot.target + 1) else Returning(Failed)
    {
      hide Since;
      OtherCalls(name);
      var lost: bool := *;
      ghost var mid := k;
      var r := if lost then None else AddLun(k, slot, name);
      ok := r.Some?;
      k := After(k, r);
      Record(mid, Env(lost, 0, slot));
    }

    method RemoveVHostSCSITarget(slot: Slot, vol: string) returns (ok: bool)
      requires Valid() && th.call.vol == vol && th.pc.UnmapScan? && slot in th.pc.todo && th.pc.todo[slot] == vol
      modifies this
      ensures Continues()
      ensures th.pc == if ok then UnmapScan(old(th.pc.todo) - {slot}) else Returning(Failed)
    {
      hide Since;
      OtherCalls(vol);
      var lost: bool := *;
      ghost var mid := k;
      var r := if lost then None else RemoveTarget(k, slot);
      ok := r.Some?;
      k := After(k, r);
      Record(mid, Env(lost, 0, slot));
    }

    method DeleteBDevRpc(name: string) returns (ok: bool)
      requires Valid() && th.pc in {UnmapDelete, ProvisionDelete} && th.call.vol == name
      modifies this
      ensures Continues() && th.pc == Returning(if old(th.pc) == UnmapDelete then Unmapped else Provisioned)
    {
      hide Since;
      OtherCalls(name);
      var lost: bool := *;
      ghost var mid := k;
      var r := if lost then None else DeleteBDev(k, name);
      ok := r.Some?;
      k := After(k, r);
      Record(mid, Env(lost, 0, Slot("", 0)));
    }

    ghost method BeginCall(call: Call)
      requires Consistent(k) && Acceptable(c, call)
      modifies this`th, this`k0, this`th0, this`tr
      ensures Valid() && k0 == k && th == th0 == Thread(call, FirstPc(call), false)
    {
      SinceStart(c, k, call);
      th := Thread(call, FirstPc(call), false);
      k0, th0, tr := k, th, [];
    }

    /** The call ran the thread program from the state it found to its reply. */
    twostate predicate Handled(call: Call, reply: Reply)
      reads this
    {
      if Acceptable(c, call) then
        && Valid() && k0 == old(k) && th0 == Thread(call, FirstPc(call), false)
        && th.call == call && th.pc == Returning(reply)
      else
        k == old(k) && reply == Failed
    }

    // ---- The handlers ----

    /** The search through the snapshot for a LUN of the volume. */
    method FindLun(luns: map<Slot, string>, vol: string) returns (found: Option<Slot>)
      ensures found.Some? ==> found.value in luns && luns[found.value] == vol
      ensures found.None? ==> forall slot :: slot in luns ==> luns[slot] != vol
    {
      var todo := luns.Keys;
      while todo != {}
        invariant todo <= luns.Keys
        invariant forall slot :: slot in luns && slot !in todo ==> luns[slot] != vol
        decreases |todo|
      {
        var slot :| slot in todo;
        if luns[slot] == vol {
          return Some(slot);
        }
        todo := todo - {slot};
      }
      return None;
    }

    /** The loop of UnmapVolume over the snapshot. It goes on after it has found something. */
    method RemoveTargets(vol: string, snapshot: map<Slot, string>) returns (ok: bool)
      requires Valid() && th.call == UnmapVolume(vol) && th.pc == UnmapScan(snapshot)
      modifies this
      ensures Continues() && th.pc == if ok then UnmapLookup else Returning(Failed)
    {
      hide Valid;
      var luns := snapshot;
      while luns != map[]
        invariant Continues() && th.pc == UnmapScan(luns)
        decreases |luns|
      {
        var slot :| slot in luns;
        if luns[slot] == vol {
          var removed := RemoveVHostSCSITarget(slot, vol);
          if !removed {
            return false;
          }
        } else {
          Visit(slot);
        }
        luns := luns - {slot};
      }
      Visit(Slot("", 0));
      return true;
    }

    /** A step of the scan that calls no RPC: an entry for another volume, or the end of the scan. */
    ghost method Visit(slot: Slot)
      requires Valid() && th.pc.UnmapScan?
      requires th.pc.todo != map[] ==> slot in th.pc.todo && th.pc.todo[slot] != th.call.vol
      modifies this
      ensures Continues() && k == old(k)
      ensures th.pc == if old(th.pc.todo) == map[] then UnmapLookup else UnmapScan(old(th.pc.todo) - {slot})
    {
      hide Since;
      Record(k, Env(false, 0, slot));
    }

    /** The first half of MapVolume: reuse the BDev or create it. */
    method ReuseOrCreateBDev(vol: string, params: Params) returns (ok: bool)
      requires Valid() && th.call == MapVolume(vol, params) && th.pc == MapLookup
      modifies this
      ensures Continues() && th.pc == if ok then MapSnapshot else Returning(Failed)
    {
      hide Valid;
      var bdev := GetBDevs(vol);
      if bdev.Some? {
        return true;
      }
      match params
      case MallocParams => return false;
      case CephParams => ok := ConstructRBDBDev(vol);
      case NoParams => return false;
    }

    /** The loop of MapVolume over the targets. */
    method TryTargets(vol: string) returns (slot: Option<Slot>)
      requires Valid() && th.call.vol == vol && th.pc == MapTry(0)
      modifies this
      ensures Continues() && th.pc == Returning(if slot.Some? then Mapped(slot.value) else Failed)
    {
      hide Valid;
      var target := 0;
      while target < TARGETS
        invariant 0 <= target <= TARGETS && Continues()
        invariant th.pc == if target < TARGETS then MapTry(target) else Returning(Failed)
      {
        var ok := AddVHostSCSILUN(Slot(c.vhost, target), vol);
        if ok {
          return Some(Slot(c.vhost, target));
        }
        target := target + 1;
      }
      return None;
    }

    method MapVolumeHandler(vol: string, params: Params) returns (reply: Reply)
      requires Consistent(k)
      modifies this
      ensures Handled(MapVolume(vol, params), reply)
      ensures Consistent(k) && (reply.Mapped? ==> At(k, reply.slot, vol)) && (reply.Mapped? || reply.Failed?)
      ensures if vol != "" && c.connected && c.vhost != "" && c.hasDev then
                && Leaves(c, old(k), k, MapVolume(vol, params), reply, th.lost)
                && Tells(old(GetBDev(k, vol)), MapVolume(vol, params), reply, th.lost)
              else k == old(k) && reply == Failed
    {
      hide Valid, Leaves, Tells;
      if vol == "" || !c.connected || c.vhost == "" || !c.hasDev {
        return Failed;
      }
      BeginCall(MapVolume(vol, params));
      var ready := ReuseOrCreateBDev(vol, params);
      if !ready {
        ReplyHolds();
        return Failed;
      }
      var controllers := GetVHostControllers(vol);
      if controllers.None? {
        ReplyHolds();
        return Failed;
      }
      var found := FindLun(controllers.value, vol);
      if found.None? {
        found := TryTargets(vol);
      }
      ReplyHolds();
      return if found.Some? then Mapped(found.value) else Failed;
    }

    method UnmapVolumeHandler(vol: string) returns (reply: Reply)
      requires Consistent(k)
      modifies this
      ensures Handled(UnmapVolume(vol), reply)
      ensures Consistent(k) && (reply.Unmapped? ==> !Attached(k, vol)) && (reply.Unmapped? || reply.Failed?)
      ensures if vol != "" && c.connected then
                && Leaves(c, old(k), k, UnmapVolume(vol), reply, th.lost)
                && Tells(old(GetBDev(k, vol)), UnmapVolume(vol), reply, th.lost)
              else k == old(k) && reply == Failed
    {
      hide Valid, Leaves, Tells;
      if vol == "" || !c.connected {
        return Failed;
      }
      BeginCall(UnmapVolume(vol));
      var controllers := GetVHostControllers(vol);
      if controllers.None? {
        ReplyHolds();
        return Failed;
      }
      var removed := RemoveTargets(vol, controllers.value);
      if !removed {
        ReplyHolds();
        return Failed;
      }
      var bdev := GetBDevs(vol);
      if bdev.Some? && bdev.value.product != MallocDisk {
        var _ := DeleteBDevRpc(vol);
      }
      ReplyHolds();
      return Unmapped;
    }

    method ProvisionMallocBDevHandler(bdevName: string, size: int) returns (reply: Reply)
      requires Consistent(k)
      modifies this
      ensures Handled(Provision(bdevName, size), reply)
      ensures Consistent(k) && (reply.Provisioned? || reply.Failed?)
      ensures if bdevName != "" && c.connected then
                && Leaves(c, old(k), k, Provision(bdevName, size), reply, th.lost)
                && Tells(old(GetBDev(k, bdevName)), Provision(bdevName, size), reply, th.lost)
              else k == old(k) && reply == Failed
    {
      hide Valid, Leaves, Tells;
      if bdevName == "" || !c.connected {
        return Failed;
      }
      BeginCall(Provision(bdevName, size));
      if size != 0 {
        var bdev := GetBDevs(bdevName);
        if bdev.None? {
          var ok := ConstructMallocBDev(bdevName, GoDiv(size, 512));
          if !ok {
            ReplyHolds();
            return Failed;
          }
        } else {
          var actualSize := bdev.value.numBlocks * bdev.value.blockSize;
          if actualSize != size {
            ReplyHolds();
            return Failed;
          }
        }
      } else {
        var _ := DeleteBDevRpc(bdevName);
      }
      ReplyHolds();
      return Provisioned;
    }

    method CheckMallocBDevHandler(bdevName: string) returns (reply: Reply)
      requires Consistent(k)
      modifies this
      ensures Handled(CheckBDev(bdevName), reply)
      ensures Consistent(k) && (reply.Present? || reply.Failed?)
      ensures if bdevName != "" && c.connected then
                && Leaves(c, old(k), k, CheckBDev(bdevName), reply, th.lost)
                && Tells(old(GetBDev(k, bdevName)), CheckBDev(bdevName), reply, th.lost)
              else k == old(k) && reply == Failed
    {
      hide Valid, Leaves, Tells;
      if bdevName == "" || !c.connected {
        return Failed;
      }
      BeginCall(CheckBDev(bdevName));
      var bdev := GetBDevs(bdevName);
      ReplyHolds();
      return if bdev.Some? then Present else Failed;
    }
  }
}
