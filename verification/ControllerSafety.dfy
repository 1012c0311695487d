/** Safety of the controller over every interleaving of its calls. */
module ControllerSafety {
  import opened Spdk
  import opened Controller

  // ---- What a thread may rely on at each program counter ----

  predicate PcFits(call: Call, pc: Pc) {
    match pc
    case Begin => true
    case MapLookup => call.MapVolume?
    case MapConstruct => call.MapVolume? && call.params.CephParams?
    case MapSnapshot => call.MapVolume?
    case MapTry(t) => call.MapVolume? && t < TARGETS
    case UnmapSnapshot => call.UnmapVolume?
    case UnmapScan(_) => call.UnmapVolume?
    case UnmapLookup => call.UnmapVolume?
    case UnmapDelete => call.UnmapVolume?
    case ProvisionLookup => call.Provision? && call.size != 0
    case ProvisionConstruct => call.Provision? && call.size != 0
    case ProvisionDelete => call.Provision? && call.size == 0
    case CheckLookup => call.CheckBDev?
    case Returning(reply) => ReplyFits(call, reply)
    case Done(reply) => ReplyFits(call, reply)
  }

  predicate ReplyFits(call: Call, reply: Reply) {
    match reply
    case Mapped(_) => call.MapVolume?
    case Unmapped => call.UnmapVolume?
    case Provisioned => call.Provision?
    case Present => call.CheckBDev?
    case Failed => true
  }

  /** The assertion at each program counter. It speaks only of the thread's own volume. */
  ghost predicate LocalInv(c: Config, k: State, th: Thread) {
    var v := th.call.vol;
    && PcFits(th.call, th.pc)
    && (Critical(th.pc) ==> Acceptable(c, th.call))
    && match th.pc
       case Begin => !th.lost
       case MapSnapshot => v in k.bdevs
       case MapTry(_) => v in k.bdevs && !Attached(k, v)
       case UnmapScan(todo) => forall slot :: At(k, slot, v) <==> slot in todo && todo[slot] == v
       case UnmapLookup => !Attached(k, v)
       case UnmapDelete => !Attached(k, v) && v in k.bdevs && !IsMalloc(k, v)
       case Returning(Mapped(slot)) => At(k, slot, v)
       case Returning(Unmapped) => !Attached(k, v) && (!th.lost && v in k.bdevs ==> IsMalloc(k, v))
       case _ => true
  }

  ghost predicate HoldsLock(c: Config, s: System, t: Tid)
    requires t in s.threads
  {
    var b := c.bucket(s.threads[t].call.vol);
    b in s.locks && s.locks[b] == t
  }

  ghost predicate Inv(c: Config, s: System) {
    && Consistent(s.spdk)
    && (forall t :: t in s.threads ==> LocalInv(c, s.spdk, s.threads[t]))
    && LocksMatch(c, s)
  }

  /** A mutex is taken exactly while some call is inside the critical section it guards. */
  ghost predicate LocksMatch(c: Config, s: System) {
    && (forall t :: t in s.threads && Critical(s.threads[t].pc) ==> HoldsLock(c, s, t))
    && (forall b :: b in s.locks ==> LockIsUsed(c, s, b))
  }

  /** A taken mutex belongs to a call inside its critical section. */
  ghost predicate LockIsUsed(c: Config, s: System, b: nat)
    requires b in s.locks
  {
    var t := s.locks[b];
    t in s.threads && Critical(s.threads[t].pc) && c.bucket(s.threads[t].call.vol) == b
  }

  /** No call in flight; SPDK may hold attachments made earlier. */
  ghost predicate Init(s: System) {
    s.threads == map[] && s.locks == map[] && Consistent(s.spdk)
  }

  lemma InitIsInv(c: Config, s: System)
    requires Init(s)
    ensures Inv(c, s)
  {
  }

  // ---- One step of one thread ----

  /** A step keeps SPDK consistent: a LUN is only added for an unattached volume with a BDev. */
  lemma LocalKeepsConsistent(c: Config, k: State, th: Thread, env: Env)
    requires Critical(th.pc) && Consistent(k) && LocalInv(c, k, th)
    ensures Consistent(Local(c, k, th, env).0)
  {
    match th.pc
    case MapConstruct =>
    case MapTry(_) =>
      assert forall a :: a in k.luns ==> At(k, a, k.luns[a]);
    case UnmapScan(_) =>
    case UnmapDelete =>
    case ProvisionConstruct =>
    case ProvisionDelete =>
    case _ =>
  }

  /** A step establishes the assertion at the thread's next program counter. */
  lemma LocalKeepsInv(c: Config, k: State, th: Thread, env: Env)
    requires Critical(th.pc) && Consistent(k) && LocalInv(c, k, th)
    ensures LocalInv(c, Local(c, k, th, env).0, Local(c, k, th, env).1)
    ensures Local(c, k, th, env).1.call == th.call
  {
    var (k', th') := Local(c, k, th, env);
    match th.pc
    case MapTry(t) =>
      assert th'.pc.Returning? && th'.pc.reply.Mapped? ==> At(k', Slot(c.vhost, t), th.call.vol);
    case UnmapScan(todo) =>
      if todo != map[] && env.pick in todo {
        assert At(k, env.pick, th.call.vol) <==> todo[env.pick] == th.call.vol;
      }
    case UnmapDelete =>
    case _ =>
  }

  /** A step touches nothing of any other volume. For UnmapVolume this needs the assertion at
      `UnmapScan`: the target named by the stale snapshot still holds the thread's own volume. */
  lemma LocalFrame(c: Config, k: State, th: Thread, env: Env, w: string)
    requires Critical(th.pc) && Consistent(k) && LocalInv(c, k, th) && w != th.call.vol
    ensures SamePart(k, Local(c, k, th, env).0, w)
  {
  }

  lemma LocalInvIsLocal(c: Config, k: State, k': State, th: Thread)
    requires LocalInv(c, k, th) && SamePart(k, k', th.call.vol)
    ensures LocalInv(c, k', th)
  {
  }

  // ---- All interleavings ----

  /** What a step inside the critical section does to the mutexes and the threads. */
  lemma CriticalStep(c: Config, s: System, t: Tid, env: Env)
    requires t in s.threads && Critical(s.threads[t].pc) && PcFits(s.threads[t].call, s.threads[t].pc)
    ensures var th := s.threads[t];
            var (k, th') := Local(c, s.spdk, th, env);
            && Apply(c, s, Step(t, env)) ==
               System(k, if th.pc.Returning? then s.locks - {c.bucket(th.call.vol)} else s.locks, s.threads[t := th'])
            && th'.call == th.call && (Critical(th'.pc) <==> !th.pc.Returning?)
  {
    hide Attached, GetBDev, Construct, AddLun, RemoveTarget, DeleteBDev;
  }

  lemma ApplyKeepsLocks(c: Config, s: System, e: Event)
    requires Inv(c, s)
    ensures LocksMatch(c, Apply(c, s, e))
  {
    hide Local, LocalInv, Consistent, FirstPc;
    if e.Step? && e.tid in s.threads && !s.threads[e.tid].pc.Done? {
      var s' := Apply(c, s, e);
      var th := s.threads[e.tid];
      if Critical(th.pc) {
        LocalInvFits(c, s.spdk, th);
        CriticalStep(c, s, e.tid, e.env);
        assert HoldsLock(c, s, e.tid);
      } else {
        FirstPcIsCritical(th.call);
      }
      forall t | t in s'.threads && Critical(s'.threads[t].pc) ensures HoldsLock(c, s', t) {
        assert Critical(s.threads[t].pc) ==> HoldsLock(c, s, t);
      }
      forall b | b in s'.locks ensures LockIsUsed(c, s', b) {
        assert b in s.locks ==> LockIsUsed(c, s, b);
      }
    }
  }

  lemma LocalInvFits(c: Config, k: State, th: Thread)
    requires LocalInv(c, k, th)
    ensures PcFits(th.call, th.pc) && (Critical(th.pc) ==> Acceptable(c, th.call))
  {
  }

  lemma FirstPcIsCritical(call: Call)
    ensures Critical(FirstPc(call)) && PcFits(call, FirstPc(call))
  {
  }

  lemma CriticalStepKeepsInv(c: Config, s: System, t: Tid, env: Env)
    requires Inv(c, s) && t in s.threads && Critical(s.threads[t].pc)
    ensures Inv(c, Apply(c, s, Step(t, env)))
  {
    hide Local, Apply, LocalInv, LocksMatch, Consistent;
    var th := s.threads[t];
    ApplyKeepsLocks(c, s, Step(t, env));
    LocalInvFits(c, s.spdk, th);
    CriticalStep(c, s, t, env);
    LocalKeepsConsistent(c, s.spdk, th, env);
    LocalKeepsInv(c, s.spdk, th, env);
    var s' := Apply(c, s, Step(t, env));
    forall u | u in s.threads && u != t ensures LocalInv(c, s'.spdk, s'.threads[u]) {
      OtherKeepsLocalInv(c, s, t, env, u);
    }
  }

  /** Every event keeps the invariant. */
  lemma ApplyKeepsInv(c: Config, s: System, e: Event)
    requires Inv(c, s)
    ensures Inv(c, Apply(c, s, e))
  {
    hide Local, LocksMatch, Consistent;
    if e.Step? && e.tid in s.threads && Critical(s.threads[e.tid].pc) {
      CriticalStepKeepsInv(c, s, e.tid, e.env);
    } else {
      ApplyKeepsLocks(c, s, e);
      if e.Step? && e.tid in s.threads {
        FirstPcIsCritical(s.threads[e.tid].call);
      }
    }
  }

  /** A step of call `u` does not disturb the assertion of another call `t`. */
  lemma OtherKeepsLocalInv(c: Config, s: System, u: Tid, env: Env, t: Tid)
    requires Inv(c, s) && u in s.threads && t in s.threads && u != t && Critical(s.threads[u].pc)
    ensures LocalInv(c, Local(c, s.spdk, s.threads[u], env).0, s.threads[t])
  {
    hide Local, Consistent;
    if Critical(s.threads[t].pc) {
      assert HoldsLock(c, s, t) && HoldsLock(c, s, u);
      LocalFrame(c, s.spdk, s.threads[u], env, s.threads[t].call.vol);
      LocalInvIsLocal(c, s.spdk, Local(c, s.spdk, s.threads[u], env).0, s.threads[t]);
    }
  }

  lemma {:induction false} RunKeepsInv(c: Config, s: System, es: seq<Event>)
    requires Inv(c, s)
    ensures Inv(c, Run(c, s, es))
    decreases |es|
  {
    hide Apply, Inv;
    if es == [] {
    } else {
      ApplyKeepsInv(c, s, es[0]);
      RunKeepsInv(c, Apply(c, s, es[0]), es[1..]);
    }
  }

  // ---- The theorems ----

  /** UnmapVolume works from a snapshot that may be stale, yet in every reachable state each
      target it still has to remove holds its own volume. */
  lemma UnmapRemovesOnlyItsVolume(c: Config, s0: System, es: seq<Event>, t: Tid, slot: Slot)
    requires Init(s0)
    requires var s := Run(c, s0, es);
             && t in s.threads && s.threads[t].pc.UnmapScan?
             && slot in s.threads[t].pc.todo && s.threads[t].pc.todo[slot] == s.threads[t].call.vol
    ensures At(Run(c, s0, es).spdk, slot, Run(c, s0, es).threads[t].call.vol)
  {
    RunKeepsInv(c, s0, es);
    assert LocalInv(c, Run(c, s0, es).spdk, Run(c, s0, es).threads[t]);
  }

  /** No step of any call, in any reachable state, changes the BDev or the attachment of a
      volume other than the one the call is for. */
  lemma StepsStayInTheirVolume(c: Config, s0: System, es: seq<Event>, e: Event, w: string)
    requires Init(s0)
    requires e.Step? && (e.tid in Run(c, s0, es).threads ==> Run(c, s0, es).threads[e.tid].call.vol != w)
    ensures SamePart(Run(c, s0, es).spdk, Apply(c, Run(c, s0, es), e).spdk, w)
  {
    var s := Run(c, s0, es);
    RunKeepsInv(c, s0, es);
    if e.tid in s.threads && Critical(s.threads[e.tid].pc) {
      LocalFrame(c, s.spdk, s.threads[e.tid], e.env, w);
    }
  }

  /** Two calls for one volume are never inside their critical sections together. */
  lemma MutualExclusion(c: Config, s0: System, es: seq<Event>, t: Tid, u: Tid)
    requires Init(s0)
    requires var s := Run(c, s0, es);
             && t in s.threads && Critical(s.threads[t].pc)
             && u in s.threads && Critical(s.threads[u].pc)
             && s.threads[t].call.vol == s.threads[u].call.vol
    ensures t == u
  {
    RunKeepsInv(c, s0, es);
    var s := Run(c, s0, es);
    assert HoldsLock(c, s, t) && HoldsLock(c, s, u);
  }

  // ---- At most eight volumes are attached ----

  ghost predicate OwnTargetsOnly(c: Config, k: State) {
    forall slot :: slot in k.luns ==> slot.ctrlr == c.vhost && slot.target < TARGETS
  }

  lemma {:induction false} RunKeepsTargets(c: Config, s: System, es: seq<Event>)
    requires Inv(c, s) && OwnTargetsOnly(c, s.spdk)
    ensures OwnTargetsOnly(c, Run(c, s, es).spdk)
    decreases |es|
  {
    if es == [] {
    } else {
      ApplyKeepsInv(c, s, es[0]);
      if es[0].Step? && es[0].tid in s.threads {
        assert LocalInv(c, s.spdk, s.threads[es[0].tid]);
      }
      RunKeepsTargets(c, Apply(c, s, es[0]), es[1..]);
    }
  }

  ghost function Volumes(k: State): set<string> {
    set slot | slot in k.luns :: k.luns[slot]
  }

  function OwnTargets(vhost: string, n: nat): (r: set<Slot>)
    ensures forall slot :: slot in r <==> slot.ctrlr == vhost && slot.target < n
    ensures |r| == n
  {
    if n == 0 then {} else OwnTargets(vhost, n - 1) + {Slot(vhost, n - 1)}
  }

  lemma {:induction false} ImageIsNoLarger(luns: map<Slot, string>, slots: set<Slot>)
    requires luns.Keys <= slots
    ensures |set slot | slot in luns :: luns[slot]| <= |slots|
    decreases |luns|
  {
    var image := set slot | slot in luns :: luns[slot];
    if luns == map[] {
    } else {
      var a :| a in luns;
      var rest := luns - {a};
      ImageIsNoLarger(rest, slots - {a});
      forall x | x in image
        ensures x in (set slot | slot in rest :: rest[slot]) + {luns[a]}
      {
        var b :| b in luns && luns[b] == x;
        assert b != a ==> b in rest && rest[b] == x;
      }
      assert image == (set slot | slot in rest :: rest[slot]) + {luns[a]};
    }
  }

  /** Starting with nothing attached, every interleaving keeps each volume on at most one target
      and never has more than eight volumes attached, despite the gap between the check for an
      existing attachment and the attempts to add one. */
  lemma AttachmentsAreExclusiveAndBounded(c: Config, s0: System, es: seq<Event>)
    requires Init(s0) && s0.spdk.luns == map[]
    ensures var k := Run(c, s0, es).spdk;
            && (forall a, b, v :: At(k, a, v) && At(k, b, v) ==> a == b)
            && |k.luns| <= TARGETS
            && |Volumes(k)| <= TARGETS
  {
    RunKeepsInv(c, s0, es);
    RunKeepsTargets(c, s0, es);
    var k := Run(c, s0, es).spdk;
    var own := OwnTargets(c.vhost, TARGETS);
    ImageIsNoLarger(k.luns, k.luns.Keys);
    ImageIsNoLarger(k.luns, own);
    SubsetIsNoLarger(k.luns.Keys, own);
  }

  lemma SubsetIsNoLarger(a: set<Slot>, b: set<Slot>)
    requires a <= b
    ensures |a| <= |b|
  {
    assert b == a + (b - a);
  }
}
