/** What whole calls of the controller achieve while other calls interleave with them. */
module ControllerCalls {
  import opened Wrappers
  import opened Spdk
  import opened Controller
  import opened ControllerSafety

  // ---- MapVolume is idempotent across interference ----

  /** The calls that may take a volume away from its target. */
  predicate Detaches(call: Call, v: string) {
    call.vol == v && (call.UnmapVolume? || (call.Provision? && call.size == 0))
  }

  /** No unfinished call and no call of the run detaches `v`. */
  ghost predicate Undisturbed(s: System, es: seq<Event>, v: string) {
    && (forall t :: t in s.threads && !s.threads[t].pc.Done? ==> !Detaches(s.threads[t].call, v))
    && (forall e :: e in es && e.Start? ==> !Detaches(e.call, v))
  }

  /** Where a MapVolume call can be if its volume was at `slot` all along. */
  predicate FindsSlot(th: Thread, slot: Slot) {
    match th.pc
    case MapConstruct => th.lost
    case MapTry(_) => false
    case Returning(reply) => reply == Mapped(slot) || (reply == Failed && th.lost)
    case Done(reply) => reply == Mapped(slot) || (reply == Failed && th.lost)
    case _ => true
  }

  lemma StepWhileAttached(c: Config, k: State, th: Thread, env: Env, slot: Slot)
    requires Critical(th.pc) && Consistent(k) && LocalInv(c, k, th)
    requires At(k, slot, th.call.vol) && !Detaches(th.call, th.call.vol)
    ensures Local(c, k, th, env).0 == k
    ensures th.call.MapVolume? && FindsSlot(th, slot) ==> FindsSlot(Local(c, k, th, env).1, slot)
  {
  }

  lemma CriticalStepWhileAttached(c: Config, s: System, t: Tid, env: Env, v: string, slot: Slot)
    requires Inv(c, s) && At(s.spdk, slot, v) && Undisturbed(s, [], v)
    requires t in s.threads && Critical(s.threads[t].pc)
    ensures var s' := Apply(c, s, Step(t, env));
            && SamePart(s.spdk, s'.spdk, v) && Undisturbed(s', [], v)
            && (s.threads[t].call.vol == v ==> s'.spdk == s.spdk)
  {
    hide Local, LocalInv, Apply;
    var th := s.threads[t];
    LocalInvFits(c, s.spdk, th);
    CriticalStep(c, s, t, env);
    if th.call.vol == v {
      StepWhileAttached(c, s.spdk, th, env, slot);
    } else {
      LocalFrame(c, s.spdk, th, env, v);
    }
  }

  lemma ApplyWhileAttached(c: Config, s: System, e: Event, v: string, slot: Slot)
    requires Inv(c, s) && At(s.spdk, slot, v) && Undisturbed(s, [e], v)
    ensures At(Apply(c, s, e).spdk, slot, v)
    ensures SamePart(s.spdk, Apply(c, s, e).spdk, v)
    ensures Undisturbed(Apply(c, s, e), [], v)
    ensures e.Step? && e.tid in s.threads && s.threads[e.tid].call.vol == v ==> Apply(c, s, e).spdk == s.spdk
  {
    hide Local, LocalInv, Inv;
    assert e in [e];
    if e.Step? && e.tid in s.threads && Critical(s.threads[e.tid].pc) {
      CriticalStepWhileAttached(c, s, e.tid, e.env, v, slot);
    }
  }

  /** Call `j`, if it maps `v`, has seen `v` at `slot` all along. */
  ghost predicate SeesSlot(s: System, j: Tid, v: string, slot: Slot) {
    j in s.threads && s.threads[j].call.MapVolume? && s.threads[j].call.vol == v ==> FindsSlot(s.threads[j], slot)
  }

  lemma ApplyKeepsSeesSlot(c: Config, s: System, e: Event, v: string, slot: Slot, j: Tid)
    requires Inv(c, s) && At(s.spdk, slot, v) && Undisturbed(s, [e], v) && SeesSlot(s, j, v, slot)
    requires v != "" && c.connected && c.vhost != "" && c.hasDev
    ensures SeesSlot(Apply(c, s, e), j, v, slot)
  {
    if e.Step? && e.tid == j && j in s.threads && Critical(s.threads[j].pc) {
      hide Local, LocalInv;
      var th := s.threads[j];
      LocalInvFits(c, s.spdk, th);
      CriticalStep(c, s, j, e.env);
      if th.call.vol == v {
        StepWhileAttached(c, s.spdk, th, e.env, slot);
      }
    }
  }

  lemma {:induction false} RunWhileAttached(c: Config, s: System, es: seq<Event>, v: string, slot: Slot, j: Tid)
    requires Inv(c, s) && At(s.spdk, slot, v) && Undisturbed(s, es, v) && SeesSlot(s, j, v, slot)
    requires v != "" && c.connected && c.vhost != "" && c.hasDev
    ensures var s' := Run(c, s, es);
            At(s'.spdk, slot, v) && SamePart(s.spdk, s'.spdk, v) && Undisturbed(s', [], v) && SeesSlot(s', j, v, slot)
    decreases |es|
  {
    hide Apply, Inv, SeesSlot;
    if es == [] {
    } else {
      var e := es[0];
      assert Undisturbed(s, [e], v);
      ApplyKeepsInv(c, s, e);
      ApplyWhileAttached(c, s, e, v, slot);
      ApplyKeepsSeesSlot(c, s, e, v, slot, j);
      assert forall x :: x in es[1..] ==> x in es;
      RunWhileAttached(c, Apply(c, s, e), es[1..], v, slot, j);
    }
  }

  /** Once a MapVolume call for `v` is about to return `slot`, any run without a call that
      detaches `v` keeps `v` there. A later MapVolume call `j` for `v` returns the same target,
      or fails because one of its own RPCs was lost; and no step it takes changes anything. */
  lemma MapVolumeIsIdempotent(c: Config, s0: System, es0: seq<Event>, i: Tid, slot: Slot, es: seq<Event>, j: Tid)
    requires Init(s0)
    requires var s := Run(c, s0, es0);
             && i in s.threads && s.threads[i].pc == Returning(Mapped(slot))
             && Undisturbed(s, es, s.threads[i].call.vol)
             && j !in s.threads
    ensures var s := Run(c, s0, es0);
            var v := s.threads[i].call.vol;
            var s' := Run(c, s, es);
            && At(s'.spdk, slot, v) && SamePart(s.spdk, s'.spdk, v)
            && (j in s'.threads && s'.threads[j].call.vol == v ==>
                  && (forall env :: Apply(c, s', Step(j, env)).spdk == s'.spdk)
                  && (s'.threads[j].call.MapVolume? && s'.threads[j].pc.Done? ==>
                        || s'.threads[j].pc.reply == Mapped(slot)
                        || (s'.threads[j].pc.reply == Failed && s'.threads[j].lost)))
  {
    hide Apply, Run;
    var s := Run(c, s0, es0);
    var v := s.threads[i].call.vol;
    InitIsInv(c, s0);
    RunKeepsInv(c, s0, es0);
    RunKeepsInv(c, s, es);
    MappedFacts(c, s, i, slot);
    RunWhileAttached(c, s, es, v, slot, j);
    var s' := Run(c, s, es);
    forall env ensures j in s'.threads && s'.threads[j].call.vol == v ==> Apply(c, s', Step(j, env)).spdk == s'.spdk {
      ApplyWhileAttached(c, s', Step(j, env), v, slot);
    }
  }

  lemma MappedFacts(c: Config, s: System, i: Tid, slot: Slot)
    requires Inv(c, s) && i in s.threads && s.threads[i].pc == Returning(Mapped(slot))
    ensures At(s.spdk, slot, s.threads[i].call.vol)
    ensures s.threads[i].call.vol != "" && c.connected && c.vhost != "" && c.hasDev
  {
    assert LocalInv(c, s.spdk, s.threads[i]);
  }

  // ---- Map followed by Unmap ----

  /** Every call for `v` other than `i` has finished. */
  ghost predicate Quiet(s: System, v: string, i: Tid) {
    forall t :: t in s.threads && t != i && s.threads[t].call.vol == v ==> s.threads[t].pc.Done?
  }

  ghost predicate NoStarts(es: seq<Event>, v: string) {
    forall e :: e in es && e.Start? ==> e.call.vol != v
  }

  /** The BDev that a MapVolume call leaves behind when it found `before`. */
  ghost predicate MappedBDev(before: Option<BDev>, now: Option<BDev>) {
    if before.Some? then now == before else now.Some? && now.value.product == RbdDisk
  }

  /** The BDev that an UnmapVolume call leaves behind when it found `before`. */
  predicate UnmappedBDev(before: Option<BDev>, now: Option<BDev>, lost: bool) {
    now == if before.Some? && before.value.product != MallocDisk && !lost then None else before
  }

  /** How far a call that is alone on its volume has got, given the BDev it started from. */
  ghost predicate Phase(before: Option<BDev>, k: State, th: Thread) {
    var v := th.call.vol;
    var now := GetBDev(k, v);
    match th.pc
    case Begin => now == before && !th.lost && (th.call.MapVolume? ==> !Attached(k, v))
    case MapLookup => now == before && !Attached(k, v)
    case MapConstruct => now == before && !Attached(k, v)
    case MapSnapshot => MappedBDev(before, now) && !Attached(k, v)
    case MapTry(_) => MappedBDev(before, now) && !Attached(k, v)
    case UnmapSnapshot => now == before && !th.lost
    case UnmapScan(_) => now == before && !th.lost
    case UnmapLookup => now == before && !th.lost
    case UnmapDelete => now == before && !th.lost
    case Returning(Mapped(slot)) => MappedBDev(before, now) && At(k, slot, v)
    case Done(Mapped(slot)) => MappedBDev(before, now) && At(k, slot, v)
    case Returning(Unmapped) => UnmappedBDev(before, now, th.lost) && !Attached(k, v)
    case Done(Unmapped) => UnmappedBDev(before, now, th.lost) && !Attached(k, v)
    case _ => true
  }

  lemma PhaseStep(c: Config, k: State, th: Thread, env: Env, before: Option<BDev>)
    requires Critical(th.pc) && Consistent(k) && LocalInv(c, k, th) && Phase(before, k, th)
    ensures Phase(before, Local(c, k, th, env).0, Local(c, k, th, env).1)
  {
    hide Consistent;
    match th.pc
    case MapConstruct =>
      assert forall slot :: At(Local(c, k, th, env).0, slot, th.call.vol) ==> At(k, slot, th.call.vol);
    case MapTry(_) =>
    case UnmapScan(_) =>
    case UnmapDelete =>
    case _ =>
  }

  lemma PhaseIsLocal(k: State, k': State, th: Thread, before: Option<BDev>)
    requires Phase(before, k, th) && SamePart(k, k', th.call.vol)
    ensures Phase(before, k', th)
  {
  }

  /** Call `i` is the only one working on its volume, and has got somewhere. */
  ghost predicate Solo(s: System, i: Tid, call: Call, before: Option<BDev>) {
    && i in s.threads && s.threads[i].call == call
    && Quiet(s, call.vol, i) && Phase(before, s.spdk, s.threads[i])
  }

  lemma SoloOwnStep(c: Config, s: System, env: Env, i: Tid, call: Call, before: Option<BDev>)
    requires Inv(c, s) && Solo(s, i, call, before) && Critical(s.threads[i].pc)
    ensures Solo(Apply(c, s, Step(i, env)), i, call, before)
  {
    hide Local, LocalInv, Phase, Apply;
    LocalInvFits(c, s.spdk, s.threads[i]);
    CriticalStep(c, s, i, env);
    PhaseStep(c, s.spdk, s.threads[i], env, before);
  }

  lemma SoloOtherStep(c: Config, s: System, t: Tid, env: Env, i: Tid, call: Call, before: Option<BDev>)
    requires Inv(c, s) && Solo(s, i, call, before) && t != i && t in s.threads && Critical(s.threads[t].pc)
    ensures Solo(Apply(c, s, Step(t, env)), i, call, before)
  {
    hide Local, LocalInv, Phase, Apply;
    LocalInvFits(c, s.spdk, s.threads[t]);
    CriticalStep(c, s, t, env);
    LocalFrame(c, s.spdk, s.threads[t], env, call.vol);
    PhaseIsLocal(s.spdk, Apply(c, s, Step(t, env)).spdk, s.threads[i], before);
  }

  lemma SoloApply(c: Config, s: System, e: Event, i: Tid, call: Call, before: Option<BDev>)
    requires Inv(c, s) && Solo(s, i, call, before) && NoStarts([e], call.vol)
    ensures Solo(Apply(c, s, e), i, call, before)
  {
    hide Local, LocalInv;
    assert e in [e];
    if e.Step? && e.tid in s.threads && Critical(s.threads[e.tid].pc) {
      if e.tid == i {
        SoloOwnStep(c, s, e.env, i, call, before);
      } else {
        SoloOtherStep(c, s, e.tid, e.env, i, call, before);
      }
    }
  }

  lemma {:induction false} SoloRun(c: Config, s: System, es: seq<Event>, i: Tid, call: Call, before: Option<BDev>)
    requires Inv(c, s) && Solo(s, i, call, before) && NoStarts(es, call.vol)
    ensures Solo(Run(c, s, es), i, call, before)
    decreases |es|
  {
    hide Apply, Inv, Solo;
    if es == [] {
    } else {
      assert NoStarts([es[0]], call.vol);
      ApplyKeepsInv(c, s, es[0]);
      SoloApply(c, s, es[0], i, call, before);
      assert forall x :: x in es[1..] ==> x in es;
      SoloRun(c, Apply(c, s, es[0]), es[1..], i, call, before);
    }
  }

  /** A successful MapVolume followed by a successful UnmapVolume of a volume that was unattached
      and had no BDev or a Malloc BDev restores what belongs to the volume, whatever calls for
      other volumes do meanwhile, exactly when the BDev was there before or no RPC of UnmapVolume
      was lost: UnmapVolume also reports success when it could not look up or delete the BDev. */
  lemma MapThenUnmapRestores(c: Config, s0: System, es0: seq<Event>, i: Tid, j: Tid, v: string, params: Params,
                             es1: seq<Event>, es2: seq<Event>)
    requires Init(s0)
    requires var s := Run(c, s0, es0);
             && i !in s.threads && Quiet(s, v, i) && !Attached(s.spdk, v)
             && (v in s.spdk.bdevs ==> IsMalloc(s.spdk, v))
    requires NoStarts(es1, v) && NoStarts(es2, v)
    requires var s1 := RunCall(c, Run(c, s0, es0), i, MapVolume(v, params), es1);
             && i in s1.threads && s1.threads[i].pc.Done? && s1.threads[i].pc.reply.Mapped?
             && j !in s1.threads
    requires var s1 := RunCall(c, Run(c, s0, es0), i, MapVolume(v, params), es1);
             var s2 := RunCall(c, s1, j, UnmapVolume(v), es2);
             && j in s2.threads && s2.threads[j].pc == Done(Unmapped)
    ensures var s := Run(c, s0, es0);
            var s1 := RunCall(c, s, i, MapVolume(v, params), es1);
            var s2 := RunCall(c, s1, j, UnmapVolume(v), es2);
            && !Attached(s2.spdk, v)
            && (SamePart(s.spdk, s2.spdk, v) <==> v in s.spdk.bdevs || !s2.threads[j].lost)
  {
    hide Run, RunCall, Inv;
    var s := Run(c, s0, es0);
    InitIsInv(c, s0);
    RunKeepsInv(c, s0, es0);
    SoloCall(c, s, i, MapVolume(v, params), es1);
    var s1 := RunCall(c, s, i, MapVolume(v, params), es1);
    SoloCall(c, s1, j, UnmapVolume(v), es2);
  }

  // ---- UnmapVolume is idempotent and fails only for lost RPCs ----

  ghost predicate UnmapReplies(c: Config, th: Thread) {
    th.call.UnmapVolume? ==>
      match th.pc
      case Returning(Failed) => th.lost
      case Done(Failed) => th.lost || !Acceptable(c, th.call)
      case Done(Unmapped) => Acceptable(c, th.call)
      case _ => true
  }

  /** No removal is ever refused, because every target left to remove still holds the volume. */
  lemma UnmapStepReplies(c: Config, k: State, th: Thread, env: Env)
    requires Critical(th.pc) && Consistent(k) && LocalInv(c, k, th) && UnmapReplies(c, th)
    ensures UnmapReplies(c, Local(c, k, th, env).1)
  {
    if th.pc.UnmapScan? && env.pick in th.pc.todo && th.pc.todo[env.pick] == th.call.vol {
      assert At(k, env.pick, th.call.vol);
    }
  }

  lemma ApplyKeepsUnmapReplies(c: Config, s: System, e: Event)
    requires Inv(c, s) && forall t :: t in s.threads ==> UnmapReplies(c, s.threads[t])
    ensures forall t :: t in Apply(c, s, e).threads ==> UnmapReplies(c, Apply(c, s, e).threads[t])
  {
    if e.Step? && e.tid in s.threads {
      hide Local, LocalInv, UnmapReplies;
      var th := s.threads[e.tid];
      if Critical(th.pc) {
        LocalInvFits(c, s.spdk, th);
        CriticalStep(c, s, e.tid, e.env);
        UnmapStepReplies(c, s.spdk, th, e.env);
      } else {
        BeginReplies(c, th);
      }
    } else if e.Start? {
      BeginReplies(c, Thread(e.call, Begin, false));
    }
  }

  lemma BeginReplies(c: Config, th: Thread)
    ensures UnmapReplies(c, th.(pc := Begin)) && UnmapReplies(c, th.(pc := FirstPc(th.call)))
    ensures !Acceptable(c, th.call) ==> UnmapReplies(c, th.(pc := Done(Failed)))
  {
  }

  lemma {:induction false} RunKeepsUnmapReplies(c: Config, s: System, es: seq<Event>)
    requires Inv(c, s) && forall t :: t in s.threads ==> UnmapReplies(c, s.threads[t])
    ensures forall t :: t in Run(c, s, es).threads ==> UnmapReplies(c, Run(c, s, es).threads[t])
    decreases |es|
  {
    hide Apply, Inv, UnmapReplies;
    if es == [] {
    } else {
      ApplyKeepsInv(c, s, es[0]);
      ApplyKeepsUnmapReplies(c, s, es[0]);
      RunKeepsUnmapReplies(c, Apply(c, s, es[0]), es[1..]);
    }
  }

  /** In every run, an UnmapVolume call that passed the checks fails only if one of its RPCs was lost. */
  lemma UnmapFailsOnlyWhenLost(c: Config, s0: System, es: seq<Event>, t: Tid)
    requires Init(s0) && t in Run(c, s0, es).threads
    requires var th := Run(c, s0, es).threads[t];
             th.call.UnmapVolume? && Acceptable(c, th.call) && th.pc.Done?
    ensures var th := Run(c, s0, es).threads[t];
            th.pc == Done(Unmapped) || (th.pc == Done(Failed) && th.lost)
  {
    RunKeepsUnmapReplies(c, s0, es);
    RunKeepsInv(c, s0, es);
    assert UnmapReplies(c, Run(c, s0, es).threads[t]);
    assert LocalInv(c, Run(c, s0, es).spdk, Run(c, s0, es).threads[t]);
  }

  /** No unfinished call and no call of the run maps or provisions `v`. */
  ghost predicate Untouched(s: System, es: seq<Event>, v: string) {
    && (forall t :: t in s.threads && !s.threads[t].pc.Done? ==> !Creates(s.threads[t].call, v))
    && (forall e :: e in es && e.Start? ==> !Creates(e.call, v))
  }

  predicate Creates(call: Call, v: string) {
    call.vol == v && (call.MapVolume? || call.Provision?)
  }

  /** Nothing is left to unmap. */
  ghost predicate Gone(k: State, v: string) {
    !Attached(k, v) && (v in k.bdevs ==> IsMalloc(k, v))
  }

  lemma StepWhileGone(c: Config, k: State, th: Thread, env: Env)
    requires Critical(th.pc) && LocalInv(c, k, th) && Gone(k, th.call.vol) && !Creates(th.call, th.call.vol)
    ensures Local(c, k, th, env).0 == k
  {
    hide Construct, AddLun;
  }

  lemma CriticalStepWhileGone(c: Config, s: System, t: Tid, env: Env, v: string)
    requires Inv(c, s) && Gone(s.spdk, v) && Untouched(s, [], v)
    requires t in s.threads && Critical(s.threads[t].pc)
    ensures var s' := Apply(c, s, Step(t, env));
            && SamePart(s.spdk, s'.spdk, v) && Untouched(s', [], v)
            && (s.threads[t].call.vol == v ==> s'.spdk == s.spdk)
  {
    hide Local, LocalInv, Apply, Gone;
    var th := s.threads[t];
    LocalInvFits(c, s.spdk, th);
    CriticalStep(c, s, t, env);
    if th.call.vol == v {
      StepWhileGone(c, s.spdk, th, env);
    } else {
      LocalFrame(c, s.spdk, th, env, v);
    }
  }

  lemma GoneIsLocal(k: State, k': State, v: string)
    requires Gone(k, v) && SamePart(k, k', v)
    ensures Gone(k', v)
  {
  }

  lemma ApplyWhileGone(c: Config, s: System, e: Event, v: string)
    requires Inv(c, s) && Gone(s.spdk, v) && Untouched(s, [e], v)
    ensures Gone(Apply(c, s, e).spdk, v) && SamePart(s.spdk, Apply(c, s, e).spdk, v)
    ensures Untouched(Apply(c, s, e), [], v)
    ensures e.Step? && e.tid in s.threads && s.threads[e.tid].call.vol == v ==> Apply(c, s, e).spdk == s.spdk
  {
    hide Local, LocalInv, Inv, Gone;
    assert e in [e];
    if e.Step? && e.tid in s.threads && Critical(s.threads[e.tid].pc) {
      CriticalStepWhileGone(c, s, e.tid, e.env, v);
    }
    GoneIsLocal(s.spdk, Apply(c, s, e).spdk, v);
  }

  lemma {:induction false} RunWhileGone(c: Config, s: System, es: seq<Event>, v: string)
    requires Inv(c, s) && Gone(s.spdk, v) && Untouched(s, es, v)
    ensures var s' := Run(c, s, es);
            Gone(s'.spdk, v) && SamePart(s.spdk, s'.spdk, v) && Untouched(s', [], v)
    decreases |es|
  {
    hide Apply, Inv, Gone;
    if es == [] {
    } else {
      var e := es[0];
      assert Untouched(s, [e], v);
      ApplyKeepsInv(c, s, e);
      ApplyWhileGone(c, s, e, v);
      assert forall x :: x in es[1..] ==> x in es;
      RunWhileGone(c, Apply(c, s, e), es[1..], v);
    }
  }

  /** Once an UnmapVolume call for `v` that lost no RPC is about to report success, any run without
      a call that maps or provisions `v`, other UnmapVolume calls for `v` included, leaves what
      belongs to `v` alone. No step of any call for `v` changes anything, and every UnmapVolume
      call for `v` that has finished succeeded too, or lost one of its own RPCs. */
  lemma UnmapVolumeIsIdempotent(c: Config, s0: System, es0: seq<Event>, i: Tid, es: seq<Event>, j: Tid)
    requires Init(s0)
    requires var s := Run(c, s0, es0);
             && i in s.threads && s.threads[i].pc == Returning(Unmapped) && !s.threads[i].lost
             && Untouched(s, es, s.threads[i].call.vol)
    ensures var s := Run(c, s0, es0);
            var v := s.threads[i].call.vol;
            var s' := Run(c, s, es);
            && Gone(s'.spdk, v) && SamePart(s.spdk, s'.spdk, v)
            && (j in s'.threads && s'.threads[j].call.vol == v ==>
                  forall env :: Apply(c, s', Step(j, env)).spdk == s'.spdk)
            && (j in s'.threads && s'.threads[j].call == UnmapVolume(v) && s'.threads[j].pc.Done? ==>
                  || s'.threads[j].pc == Done(Unmapped)
                  || (s'.threads[j].pc == Done(Failed) && s'.threads[j].lost))
  {
    hide Apply, Run, Gone;
    var s := Run(c, s0, es0);
    var v := s.threads[i].call.vol;
    InitIsInv(c, s0);
    RunKeepsInv(c, s0, es0);
    RunKeepsInv(c, s, es);
    UnmappedFacts(c, s, i);
    RunWhileGone(c, s, es, v);
    var s' := Run(c, s, es);
    forall env ensures j in s'.threads && s'.threads[j].call.vol == v ==> Apply(c, s', Step(j, env)).spdk == s'.spdk {
      ApplyWhileGone(c, s', Step(j, env), v);
    }
    RunKeepsUnmapReplies(c, s0, es0);
    RunKeepsUnmapReplies(c, s, es);
    if j in s'.threads && s'.threads[j].call == UnmapVolume(v) && s'.threads[j].pc.Done? {
      assert UnmapReplies(c, s'.threads[j]);
      LocalInvFits(c, s'.spdk, s'.threads[j]);
    }
  }

  lemma UnmappedFacts(c: Config, s: System, i: Tid)
    requires Inv(c, s) && i in s.threads && s.threads[i].pc == Returning(Unmapped) && !s.threads[i].lost
    ensures Gone(s.spdk, s.threads[i].call.vol) && Acceptable(c, UnmapVolume(s.threads[i].call.vol))
  {
    assert LocalInv(c, s.spdk, s.threads[i]);
  }

  /** Call `t` is started and the events happen. */
  ghost function RunCall(c: Config, s: System, t: Tid, call: Call, es: seq<Event>): System {
    Run(c, Apply(c, s, Start(t, call)), es)
  }

  lemma SoloCall(c: Config, s: System, t: Tid, call: Call, es: seq<Event>)
    requires Inv(c, s) && t !in s.threads && Quiet(s, call.vol, t) && NoStarts(es, call.vol)
    requires call.MapVolume? ==> !Attached(s.spdk, call.vol)
    ensures Inv(c, RunCall(c, s, t, call, es))
    ensures Solo(RunCall(c, s, t, call, es), t, call, GetBDev(s.spdk, call.vol))
  {
    var s1 := Apply(c, s, Start(t, call));
    ApplyKeepsInv(c, s, Start(t, call));
    assert Solo(s1, t, call, GetBDev(s.spdk, call.vol));
    hide Run, Inv;
    SoloRun(c, s1, es, t, call, GetBDev(s.spdk, call.vol));
    RunKeepsInv(c, s1, es);
  }

  // ---- Malloc BDevs survive Map and Unmap ----

  ghost function MallocBDevs(k: State): map<string, BDev> {
    map n | n in k.bdevs && IsMalloc(k, n) :: k.bdevs[n]
  }

  ghost predicate NoProvision(s: System, es: seq<Event>) {
    && (forall t :: t in s.threads && !s.threads[t].pc.Done? ==> !s.threads[t].call.Provision?)
    && (forall e :: e in es && e.Start? ==> !e.call.Provision?)
  }

  lemma StepKeepsMalloc(c: Config, k: State, th: Thread, env: Env)
    requires Critical(th.pc) && Consistent(k) && LocalInv(c, k, th) && !th.call.Provision?
    ensures MallocBDevs(Local(c, k, th, env).0) == MallocBDevs(k)
  {
  }

  /** A run without ProvisionMallocBDev calls never changes the set of Malloc BDevs. */
  lemma {:induction false} MallocBDevsSurvive(c: Config, s: System, es: seq<Event>)
    requires Inv(c, s) && NoProvision(s, es)
    ensures MallocBDevs(Run(c, s, es).spdk) == MallocBDevs(s.spdk)
    decreases |es|
  {
    hide Apply, Inv, MallocBDevs;
    if es == [] {
    } else {
      var e := es[0];
      ApplyKeepsInv(c, s, e);
      ApplyKeepsMalloc(c, s, e, es);
      MallocBDevsSurvive(c, Apply(c, s, e), es[1..]);
    }
  }

  lemma ApplyKeepsMalloc(c: Config, s: System, e: Event, es: seq<Event>)
    requires Inv(c, s) && es != [] && e == es[0] && NoProvision(s, es)
    ensures MallocBDevs(Apply(c, s, e).spdk) == MallocBDevs(s.spdk)
    ensures NoProvision(Apply(c, s, e), es[1..])
  {
    assert forall x :: x in es[1..] ==> x in es;
    if e.Step? && e.tid in s.threads && Critical(s.threads[e.tid].pc) {
      hide Local, LocalInv, MallocBDevs;
      LocalInvFits(c, s.spdk, s.threads[e.tid]);
      CriticalStep(c, s, e.tid, e.env);
      StepKeepsMalloc(c, s.spdk, s.threads[e.tid], e.env);
    }
  }
}
