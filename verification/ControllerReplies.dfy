/** What the replies of the controller's calls mean, over every interleaving, in terms of SPDK when a
    call was let in and when it replies. */
module ControllerReplies {
  import opened Wrappers
  import opened Spdk
  import opened Controller
  import opened ControllerSafety

  // ---- Who is let in ----

  /** The checks of the four calls. A call that fails them fails at once, whoever has the mutex; one
      that passes them waits for the mutex and is let in when it is free. SPDK is not touched. */
  lemma LetInExactly(c: Config, s: System, t: Tid, env: Env)
    requires t in s.threads && s.threads[t].pc == Begin
    ensures var call := s.threads[t].call;
            var s' := Apply(c, s, Step(t, env));
            var fits := && call.vol != "" && c.connected
                        && (call.MapVolume? ==> c.vhost != "" && c.hasDev);
            && s'.spdk == s.spdk && t in s'.threads && s'.threads[t].call == call
            && (!fits <==> s'.threads[t].pc == Done(Failed))
            && (fits && c.bucket(call.vol) in s.locks ==> s' == s)
            && (fits && c.bucket(call.vol) !in s.locks <==> Critical(s'.threads[t].pc))
            && s'.locks == if Critical(s'.threads[t].pc) then s.locks[c.bucket(call.vol) := t] else s.locks
  {
    hide Local;
    FirstPcIsCritical(s.threads[t].call);
  }

  // ---- What a call has done since it was let in ----

  /** The volume is on the same targets. */
  ghost predicate SameLuns(k: State, k': State, v: string) {
    forall slot :: At(k, slot, v) <==> At(k', slot, v)
  }

  /** What the reply says about SPDK when the call was let in. `lost`: one of its RPCs was lost. */
  predicate Tells(was: Option<BDev>, call: Call, reply: Reply, lost: bool) {
    match call
    case MapVolume(_, params) => reply.Mapped? ==> was.Some? || params.CephParams?
    case UnmapVolume(_) => reply.Unmapped? || (reply.Failed? && lost)
    case Provision(_, size) =>
      var good := if size == 0 then true
                  else if was.Some? then was.value.numBlocks * was.value.blockSize == size else size >= 512;
      (reply.Provisioned? && good) || (reply.Failed? && size != 0 && (lost || !good))
    case CheckBDev(_) => (reply.Present? && was.Some?) || (reply.Failed? && (lost || was.None?))
  }

  /** What the call has made of its volume when it replies, from `k0` to `k`. */
  ghost predicate Leaves(c: Config, k0: State, k: State, call: Call, reply: Reply, lost: bool) {
    var v := call.vol;
    var was, now := GetBDev(k0, v), GetBDev(k, v);
    match call
    case MapVolume(_, params) =>
      && (if was.Some? then now == was else now.None? || (params.CephParams? && now.value.product == RbdDisk))
      && (if reply.Mapped? then
            && now.Some? && At(k, reply.slot, v)
            && (if Attached(k0, v) then SameLuns(k0, k, v) else reply.slot.ctrlr == c.vhost && reply.slot.target < 8)
          else reply.Failed? && SameLuns(k0, k, v))
    case UnmapVolume(_) =>
      if reply.Unmapped? then
        && !Attached(k, v)
        && now == if was.Some? && was.value.product != MallocDisk && !lost then None else was
      else now == was && reply.Failed?
    case Provision(_, size) =>
      if size == 0 then if lost then SamePart(k0, k, v) else now.None? && !Attached(k, v)
      else
        && SameLuns(k0, k, v)
        && now == if was.None? && reply.Provisioned? then Some(BDev(MallocDisk, 512, size / 512)) else was
    case CheckBDev(_) => SamePart(k0, k, v)
  }

  ghost predicate SinceMap(c: Config, k0: State, k: State, th: Thread)
    requires th.call.MapVolume?
  {
    var v, params := th.call.vol, th.call.params;
    var was, now := GetBDev(k0, v), GetBDev(k, v);
    var made := now.Some? && (if was.Some? then now == was else params.CephParams? && now.value.product == RbdDisk);
    match th.pc
    case MapLookup => SamePart(k0, k, v)
    case MapConstruct => SamePart(k0, k, v)
    case MapSnapshot => SameLuns(k0, k, v) && made
    case MapTry(_) => SameLuns(k0, k, v) && made && !Attached(k0, v)
    case Returning(reply) => Leaves(c, k0, k, th.call, reply, th.lost) && Tells(was, th.call, reply, th.lost)
    case Done(reply) => Tells(was, th.call, reply, th.lost)
    case _ => false
  }

  ghost predicate SinceUnmap(c: Config, k0: State, k: State, th: Thread)
    requires th.call.UnmapVolume?
  {
    var v := th.call.vol;
    var was, now := GetBDev(k0, v), GetBDev(k, v);
    match th.pc
    case UnmapSnapshot => now == was && !th.lost
    case UnmapScan(_) => now == was && !th.lost
    case UnmapLookup => now == was && !th.lost
    case UnmapDelete => now == was && !th.lost
    case Returning(reply) => Leaves(c, k0, k, th.call, reply, th.lost) && Tells(was, th.call, reply, th.lost)
    case Done(reply) => Tells(was, th.call, reply, th.lost)
    case _ => false
  }

  ghost predicate SinceProvision(c: Config, k0: State, k: State, th: Thread)
    requires th.call.Provision?
  {
    var v := th.call.vol;
    var was := GetBDev(k0, v);
    match th.pc
    case ProvisionLookup => SamePart(k0, k, v)
    case ProvisionConstruct => SamePart(k0, k, v) && (th.lost || was.None?)
    case ProvisionDelete => SamePart(k0, k, v) && !th.lost
    case Returning(reply) => Leaves(c, k0, k, th.call, reply, th.lost) && Tells(was, th.call, reply, th.lost)
    case Done(reply) => Tells(was, th.call, reply, th.lost)
    case _ => false
  }

  ghost predicate SinceCheck(c: Config, k0: State, k: State, th: Thread)
    requires th.call.CheckBDev?
  {
    var was := GetBDev(k0, th.call.vol);
    match th.pc
    case CheckLookup => SamePart(k0, k, th.call.vol)
    case Returning(reply) => Leaves(c, k0, k, th.call, reply, th.lost) && Tells(was, th.call, reply, th.lost)
    case Done(reply) => Tells(was, th.call, reply, th.lost)
    case _ => false
  }

  ghost predicate Since(c: Config, k0: State, k: State, th: Thread) {
    match th.call
    case MapVolume(_, _) => SinceMap(c, k0, k, th)
    case UnmapVolume(_) => SinceUnmap(c, k0, k, th)
    case Provision(_, _) => SinceProvision(c, k0, k, th)
    case CheckBDev(_) => SinceCheck(c, k0, k, th)
  }

  lemma MapStep(c: Config, k0: State, k: State, th: Thread, env: Env)
    requires th.call.MapVolume? && Critical(th.pc) && Consistent(k) && LocalInv(c, k, th) && SinceMap(c, k0, k, th)
    ensures SinceMap(c, k0, Local(c, k, th, env).0, Local(c, k, th, env).1)
  {
    hide Consistent;
  }

  lemma UnmapStep(c: Config, k0: State, k: State, th: Thread, env: Env)
    requires th.call.UnmapVolume? && Critical(th.pc) && LocalInv(c, k, th) && SinceUnmap(c, k0, k, th)
    ensures SinceUnmap(c, k0, Local(c, k, th, env).0, Local(c, k, th, env).1)
  {
    if th.pc.UnmapScan? && env.pick in th.pc.todo && th.pc.todo[env.pick] == th.call.vol {
      assert At(k, env.pick, th.call.vol);
    }
  }

  lemma ProvisionStep(c: Config, k0: State, k: State, th: Thread, env: Env)
    requires th.call.Provision? && Critical(th.pc) && Consistent(k) && LocalInv(c, k, th)
    requires SinceProvision(c, k0, k, th)
    ensures SinceProvision(c, k0, Local(c, k, th, env).0, Local(c, k, th, env).1)
  {
  }

  lemma CheckStep(c: Config, k0: State, k: State, th: Thread, env: Env)
    requires th.call.CheckBDev? && Critical(th.pc) && LocalInv(c, k, th) && SinceCheck(c, k0, k, th)
    ensures SinceCheck(c, k0, Local(c, k, th, env).0, Local(c, k, th, env).1)
  {
  }

  lemma SinceStep(c: Config, k0: State, k: State, th: Thread, env: Env)
    requires Critical(th.pc) && Consistent(k) && LocalInv(c, k, th) && Since(c, k0, k, th)
    ensures Since(c, k0, Local(c, k, th, env).0, Local(c, k, th, env).1)
  {
    LocalKeepsInv(c, k, th, env);
    hide Local, LocalInv, SinceMap, SinceUnmap, SinceProvision, SinceCheck;
    match th.call
    case MapVolume(_, _) => MapStep(c, k0, k, th, env);
    case UnmapVolume(_) => UnmapStep(c, k0, k, th, env);
    case Provision(_, _) => ProvisionStep(c, k0, k, th, env);
    case CheckBDev(_) => CheckStep(c, k0, k, th, env);
  }

  lemma SinceIsLocal(c: Config, k0: State, k: State, k': State, th: Thread)
    requires Since(c, k0, k, th) && SamePart(k, k', th.call.vol)
    ensures Since(c, k0, k', th)
  {
  }

  /** Once the call has replied, only what the reply tells is left, whatever happens to SPDK. */
  lemma SinceDone(c: Config, k0: State, k: State, k': State, th: Thread)
    requires Since(c, k0, k, th) && th.pc.Done?
    ensures Since(c, k0, k', th)
  {
  }

  lemma SinceStart(c: Config, k: State, call: Call)
    ensures Since(c, k, k, Thread(call, FirstPc(call), false))
  {
  }

  lemma SinceOwnEvent(c: Config, k0: State, s: System, t: Tid, env: Env)
    requires Inv(c, s) && t in s.threads && Critical(s.threads[t].pc) && Since(c, k0, s.spdk, s.threads[t])
    ensures var s' := Apply(c, s, Step(t, env));
            t in s'.threads && s'.threads[t].call == s.threads[t].call && Since(c, k0, s'.spdk, s'.threads[t])
  {
    hide Local, LocalInv, Since, Apply;
    LocalInvFits(c, s.spdk, s.threads[t]);
    CriticalStep(c, s, t, env);
    SinceStep(c, k0, s.spdk, s.threads[t], env);
  }

  lemma SinceOtherEvent(c: Config, k0: State, s: System, t: Tid, e: Event)
    requires Inv(c, s) && t in s.threads && !s.threads[t].pc.Begin? && Since(c, k0, s.spdk, s.threads[t])
    requires e.Step? ==> e.tid != t || s.threads[t].pc.Done?
    ensures var s' := Apply(c, s, e);
            t in s'.threads && s'.threads[t] == s.threads[t] && Since(c, k0, s'.spdk, s.threads[t])
  {
    hide Local, LocalInv, Since, Consistent;
    var s' := Apply(c, s, e);
    if s.threads[t].pc.Done? {
      SinceDone(c, k0, s.spdk, s'.spdk, s.threads[t]);
    } else {
      if e.Step? && e.tid in s.threads && Critical(s.threads[e.tid].pc) {
        assert HoldsLock(c, s, t) && HoldsLock(c, s, e.tid);
        LocalFrame(c, s.spdk, s.threads[e.tid], e.env, s.threads[t].call.vol);
      }
      SinceIsLocal(c, k0, s.spdk, s'.spdk, s.threads[t]);
    }
  }

  lemma {:induction false} SinceRun(c: Config, k0: State, s: System, t: Tid, es: seq<Event>)
    requires Inv(c, s) && t in s.threads && !s.threads[t].pc.Begin? && Since(c, k0, s.spdk, s.threads[t])
    ensures var s' := Run(c, s, es);
            t in s'.threads && s'.threads[t].call == s.threads[t].call && Since(c, k0, s'.spdk, s'.threads[t])
    decreases |es|
  {
    hide Apply, Since;
    if es == [] {
    } else {
      var e := es[0];
      ApplyKeepsInv(c, s, e);
      if e.Step? && e.tid == t && Critical(s.threads[t].pc) {
        SinceOwnEvent(c, k0, s, t, e.env);
        NeverBeginsAgain(c, k0, Apply(c, s, e).spdk, Apply(c, s, e).threads[t]);
      } else {
        SinceOtherEvent(c, k0, s, t, e);
      }
      SinceRun(c, k0, Apply(c, s, e), t, es[1..]);
    }
  }

  lemma NeverBeginsAgain(c: Config, k0: State, k: State, th: Thread)
    requires Since(c, k0, k, th)
    ensures !th.pc.Begin?
  {
  }

  /** The replies of all four calls, over every interleaving: what they tell about SPDK when the call
      was let in, and, as long as the call has not given back its mutex, what it has made of it. */
  lemma RepliesMean(c: Config, s0: System, es0: seq<Event>, t: Tid, env: Env, es: seq<Event>)
    requires Init(s0)
    requires var s := Run(c, s0, es0);
             t in s.threads && s.threads[t].pc == Begin && Critical(Entered(c, s, t, env).threads[t].pc)
    ensures var s := Run(c, s0, es0);
            var call := s.threads[t].call;
            var s' := Run(c, Entered(c, s, t, env), es);
            && t in s'.threads && s'.threads[t].call == call
            && (s'.threads[t].pc.Returning? ==>
                  && Leaves(c, s.spdk, s'.spdk, call, s'.threads[t].pc.reply, s'.threads[t].lost)
                  && Tells(GetBDev(s.spdk, call.vol), call, s'.threads[t].pc.reply, s'.threads[t].lost))
            && (s'.threads[t].pc.Done? ==>
                  Tells(GetBDev(s.spdk, call.vol), call, s'.threads[t].pc.reply, s'.threads[t].lost))
  {
    var s := Run(c, s0, es0);
    InitIsInv(c, s0);
    RunKeepsInv(c, s0, es0);
    ApplyKeepsInv(c, s, Step(t, env));
    LetInExactly(c, s, t, env);
    SinceStart(c, s.spdk, s.threads[t].call);
    EnteredIsFirst(c, s, t, env);
    hide Run, Apply, Inv;
    SinceRun(c, s.spdk, Entered(c, s, t, env), t, es);
    SinceTells(c, s.spdk, Run(c, Entered(c, s, t, env), es).spdk, Run(c, Entered(c, s, t, env), es).threads[t]);
  }

  /** The system after the step in which a call tries to get in. */
  ghost function Entered(c: Config, s: System, t: Tid, env: Env): (s': System)
    requires t in s.threads && s.threads[t].pc == Begin
    ensures t in s'.threads
  {
    Apply(c, s, Step(t, env))
  }

  lemma EnteredIsFirst(c: Config, s: System, t: Tid, env: Env)
    requires t in s.threads && s.threads[t].pc == Begin && Critical(Entered(c, s, t, env).threads[t].pc)
    requires LocalInv(c, s.spdk, s.threads[t])
    ensures var s' := Entered(c, s, t, env);
            s'.spdk == s.spdk && s'.threads[t] == Thread(s.threads[t].call, FirstPc(s.threads[t].call), false)
  {
    hide Local;
  }

  lemma SinceTells(c: Config, k0: State, k: State, th: Thread)
    requires Since(c, k0, k, th)
    ensures th.pc.Returning? ==>
              && Leaves(c, k0, k, th.call, th.pc.reply, th.lost)
              && Tells(GetBDev(k0, th.call.vol), th.call, th.pc.reply, th.lost)
    ensures th.pc.Done? ==> Tells(GetBDev(k0, th.call.vol), th.call, th.pc.reply, th.lost)
  {
  }

  // ---- When MapVolume succeeds ----

  /** No other volume is on the target. */
  predicate Available(k: State, slot: Slot, v: string) {
    slot in k.luns ==> k.luns[slot] == v
  }

  /** In every state of the run no other volume is on the target, and call `t` has a BDev to attach:
      the volume has one, or the call may create one and SPDK can open the RBD image. */
  ghost predicate Favourable(c: Config, s: System, es: seq<Event>, t: Tid, call: Call, slot: Slot)
    requires call.MapVolume?
    decreases |es|
  {
    && Available(s.spdk, slot, call.vol) && (call.params.CephParams? || call.vol in s.spdk.bdevs)
    && (es != [] ==>
          && (es[0].Step? && es[0].tid == t && call.params.CephParams? ==> es[0].env.blocks > 0)
          && Favourable(c, Apply(c, s, es[0]), es[1..], t, call, slot))
  }

  /** Where a call that has lost no RPC can be when target `target` was never taken by others. */
  ghost predicate OnCourse(k: State, th: Thread, target: nat) {
    !th.lost ==>
      match th.pc
      case MapConstruct => th.call.vol !in k.bdevs
      case MapTry(x) => x <= target
      case Returning(reply) => reply.Mapped?
      case Done(reply) => reply.Mapped?
      case _ => true
  }

  lemma StaysOnCourse(c: Config, k: State, th: Thread, env: Env, target: nat)
    requires th.call.MapVolume? && Critical(th.pc) && LocalInv(c, k, th) && OnCourse(k, th, target) && target < 8
    requires Available(k, Slot(c.vhost, target), th.call.vol)
    requires if th.call.params.CephParams? then env.blocks > 0 else th.call.vol in k.bdevs
    ensures OnCourse(Local(c, k, th, env).0, Local(c, k, th, env).1, target)
  {
    if th.pc.MapTry? {
      assert !At(k, Slot(c.vhost, target), th.call.vol);
    }
  }

  lemma OnCourseIsLocal(k: State, k': State, th: Thread, target: nat)
    requires OnCourse(k, th, target) && SamePart(k, k', th.call.vol)
    ensures OnCourse(k', th, target)
  {
    assert GetBDev(k, th.call.vol) == GetBDev(k', th.call.vol);
  }

  lemma ApplyStaysOnCourse(c: Config, s: System, t: Tid, e: Event, call: Call, target: nat)
    requires Inv(c, s) && t in s.threads && s.threads[t].call == call && OnCourse(s.spdk, s.threads[t], target)
    requires call.MapVolume? && Acceptable(c, call) && target < 8
    requires Favourable(c, s, [e], t, call, Slot(c.vhost, target))
    ensures var s' := Apply(c, s, e);
            t in s'.threads && s'.threads[t].call == call && OnCourse(s'.spdk, s'.threads[t], target)
  {
    hide Local, LocalInv, Consistent;
    var s' := Apply(c, s, e);
    if e.Step? && e.tid == t && Critical(s.threads[t].pc) {
      LocalInvFits(c, s.spdk, s.threads[t]);
      CriticalStep(c, s, t, e.env);
      StaysOnCourse(c, s.spdk, s.threads[t], e.env, target);
    } else if e.Step? && e.tid in s.threads && e.tid != t && Critical(s.threads[e.tid].pc) {
      CriticalStepOfOther(c, s, t, e, target);
    }
  }

  lemma CriticalStepOfOther(c: Config, s: System, t: Tid, e: Event, target: nat)
    requires Inv(c, s) && t in s.threads && OnCourse(s.spdk, s.threads[t], target)
    requires e.Step? && e.tid in s.threads && e.tid != t && Critical(s.threads[e.tid].pc)
    ensures var s' := Apply(c, s, e);
            t in s'.threads && s'.threads[t] == s.threads[t] && OnCourse(s'.spdk, s.threads[t], target)
  {
    hide Local, LocalInv, Consistent;
    var s' := Apply(c, s, e);
    if Critical(s.threads[t].pc) {
      assert HoldsLock(c, s, t) && HoldsLock(c, s, e.tid);
      LocalFrame(c, s.spdk, s.threads[e.tid], e.env, s.threads[t].call.vol);
      OnCourseIsLocal(s.spdk, s'.spdk, s.threads[t], target);
    }
  }

  lemma {:induction false} RunStaysOnCourse(c: Config, s: System, es: seq<Event>, t: Tid, call: Call, target: nat)
    requires Inv(c, s) && t in s.threads && s.threads[t].call == call && OnCourse(s.spdk, s.threads[t], target)
    requires call.MapVolume? && Acceptable(c, call) && target < 8
    requires Favourable(c, s, es, t, call, Slot(c.vhost, target))
    ensures var s' := Run(c, s, es);
            t in s'.threads && s'.threads[t].call == call && OnCourse(s'.spdk, s'.threads[t], target)
    decreases |es|
  {
    hide Apply, Inv, OnCourse;
    if es == [] {
    } else {
      ApplyKeepsInv(c, s, es[0]);
      assert [es[0]][1..] == [];
      assert Favourable(c, Apply(c, s, es[0]), [], t, call, Slot(c.vhost, target));
      ApplyStaysOnCourse(c, s, t, es[0], call, target);
      RunStaysOnCourse(c, Apply(c, s, es[0]), es[1..], t, call, target);
    }
  }

  /** Over every interleaving: a MapVolume call on a configured controller that has lost no RPC
      succeeds, if from its start on some target below 8 was never taken by another volume and there
      was a BDev to attach. */
  lemma MapVolumeSucceeds(c: Config, s0: System, es0: seq<Event>, t: Tid, es: seq<Event>, target: nat)
    requires Init(s0) && c.connected && c.vhost != "" && c.hasDev && target < 8
    requires var s := Run(c, s0, es0);
             && t in s.threads && s.threads[t].pc == Begin && s.threads[t].call.MapVolume?
             && s.threads[t].call.vol != ""
             && Favourable(c, s, es, t, s.threads[t].call, Slot(c.vhost, target))
    ensures var s' := Run(c, Run(c, s0, es0), es);
            && t in s'.threads
            && (s'.threads[t].pc.Done? && !s'.threads[t].lost ==> s'.threads[t].pc.reply.Mapped?)
  {
    hide Apply, Inv, Favourable;
    var s := Run(c, s0, es0);
    InitIsInv(c, s0);
    RunKeepsInv(c, s0, es0);
    RunStaysOnCourse(c, s, es, t, s.threads[t].call, target);
  }

  // ---- Which target it takes ----

  /** How far a call that nobody interrupts has got, from SPDK as it found it. */
  ghost predicate Uninterrupted(c: Config, k0: State, k: State, th: Thread) {
    !th.lost ==>
      match th.pc
      case MapTry(x) => k.luns == k0.luns && forall u :: 0 <= u < x ==> Slot(c.vhost, u) in k0.luns
      case Returning(Mapped(slot)) => LeastFree(c, k0, slot)
      case Done(Mapped(slot)) => LeastFree(c, k0, slot)
      case Returning(_) => true
      case Done(_) => true
      case _ => k.luns == k0.luns
  }

  ghost predicate LeastFree(c: Config, k: State, slot: Slot) {
    slot.ctrlr == c.vhost && slot !in k.luns && forall u :: 0 <= u < slot.target ==> Slot(c.vhost, u) in k.luns
  }

  lemma UninterruptedStep(c: Config, k0: State, k: State, th: Thread, env: Env)
    requires th.call.MapVolume? && Critical(th.pc) && LocalInv(c, k, th) && !Attached(k0, th.call.vol)
    requires Uninterrupted(c, k0, k, th)
    ensures Uninterrupted(c, k0, Local(c, k, th, env).0, Local(c, k, th, env).1)
  {
    if th.pc.MapSnapshot? && Attached(k, th.call.vol) && !th.lost {
      var slot :| At(k, slot, th.call.vol);
      assert At(k0, slot, th.call.vol);
    }
  }

  lemma {:induction false} RunUninterrupted(c: Config, k0: State, s: System, es: seq<Event>, t: Tid, call: Call)
    requires Inv(c, s) && t in s.threads && s.threads[t].call == call && call.MapVolume? && !Attached(k0, call.vol)
    requires Uninterrupted(c, k0, s.spdk, s.threads[t]) && forall e :: e in es && e.Step? ==> e.tid == t
    ensures var s' := Run(c, s, es);
            t in s'.threads && s'.threads[t].call == call && Uninterrupted(c, k0, s'.spdk, s'.threads[t])
    decreases |es|
  {
    if es == [] {
    } else {
      var e := es[0];
      ApplyKeepsInv(c, s, e);
      OwnEventUninterrupted(c, k0, s, e, t, call);
      hide Apply, Inv, Uninterrupted;
      assert forall x :: x in es[1..] ==> x in es;
      RunUninterrupted(c, k0, Apply(c, s, e), es[1..], t, call);
    }
  }

  lemma OwnEventUninterrupted(c: Config, k0: State, s: System, e: Event, t: Tid, call: Call)
    requires Inv(c, s) && t in s.threads && s.threads[t].call == call && call.MapVolume? && !Attached(k0, call.vol)
    requires Uninterrupted(c, k0, s.spdk, s.threads[t]) && (e.Step? ==> e.tid == t)
    ensures var s' := Apply(c, s, e);
            t in s'.threads && s'.threads[t].call == call && Uninterrupted(c, k0, s'.spdk, s'.threads[t])
  {
    hide Local, LocalInv;
    if e.Step? && Critical(s.threads[t].pc) {
      LocalInvFits(c, s.spdk, s.threads[t]);
      CriticalStep(c, s, t, e.env);
      UninterruptedStep(c, k0, s.spdk, s.threads[t], e.env);
    }
  }

  /** A MapVolume call for an unattached volume that no other call interrupts and that loses no RPC
      puts the volume on the least free target. */
  lemma MapVolumeTakesTheLeast(c: Config, s0: System, es0: seq<Event>, t: Tid, es: seq<Event>)
    requires Init(s0) && forall e :: e in es && e.Step? ==> e.tid == t
    requires var s := Run(c, s0, es0);
             && t in s.threads && s.threads[t].pc == Begin && s.threads[t].call.MapVolume?
             && !Attached(s.spdk, s.threads[t].call.vol)
    ensures var s := Run(c, s0, es0);
            var s' := Run(c, s, es);
            && t in s'.threads
            && (s'.threads[t].pc.Done? && s'.threads[t].pc.reply.Mapped? && !s'.threads[t].lost ==>
                  var slot := s'.threads[t].pc.reply.slot;
                  && slot.ctrlr == c.vhost && slot !in s.spdk.luns
                  && forall u :: 0 <= u < slot.target ==> Slot(c.vhost, u) in s.spdk.luns)
  {
    hide Apply, Inv;
    var s := Run(c, s0, es0);
    InitIsInv(c, s0);
    RunKeepsInv(c, s0, es0);
    RunUninterrupted(c, s.spdk, s, es, t, s.threads[t].call);
  }
}
