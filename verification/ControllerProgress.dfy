/** Every call of the controller can finish: the keyed mutex never leaves a call stuck. */
module ControllerProgress {
  import opened Spdk
  import opened Controller
  import opened ControllerSafety
  import opened ControllerCalls

  /** How many kinds of actions may still follow. */
  function Stage(pc: Pc): nat {
    match pc
    case Begin => 13
    case MapLookup => 12
    case MapConstruct => 11
    case MapSnapshot => 10
    case MapTry(t) => if t < TARGETS then 9 - t else 2
    case UnmapSnapshot => 5
    case UnmapScan(_) => 4
    case UnmapLookup => 3
    case UnmapDelete => 2
    case ProvisionLookup => 3
    case ProvisionConstruct => 2
    case ProvisionDelete => 2
    case CheckLookup => 2
    case Returning(_) => 1
    case Done(_) => 0
  }

  function Pending(pc: Pc): nat {
    if pc.UnmapScan? then |pc.todo| else 0
  }

  /** The step visits an entry of the snapshot if there is one left. */
  predicate Productive(pc: Pc, env: Env) {
    pc.UnmapScan? && pc.todo != map[] ==> env.pick in pc.todo
  }

  /** Each step of a call makes progress, whether its RPC is executed, refused or lost. */
  lemma OwnStepDescends(c: Config, k: State, th: Thread, env: Env)
    requires Critical(th.pc) && PcFits(th.call, th.pc) && Productive(th.pc, env)
    ensures Descends(th.pc, Local(c, k, th, env).1.pc)
  {
    if th.pc.UnmapScan? {
      ScanDescends(c, k, th, env);
    } else {
      StageDescends(c, k, th, env);
    }
  }

  ghost predicate Descends(pc: Pc, pc': Pc) {
    Stage(pc') < Stage(pc) || (Stage(pc') == Stage(pc) && Pending(pc') < Pending(pc))
  }

  lemma ScanDescends(c: Config, k: State, th: Thread, env: Env)
    requires th.pc.UnmapScan? && Productive(th.pc, env)
    ensures Descends(th.pc, Local(c, k, th, env).1.pc)
  {
    hide ScanStep, Descends;
    ScanStepDescends(k, th, th.pc.todo, env);
  }

  lemma ScanStepDescends(k: State, th: Thread, todo: map<Slot, string>, env: Env)
    requires todo != map[] ==> env.pick in todo
    requires th.pc == UnmapScan(todo)
    ensures Descends(UnmapScan(todo), ScanStep(k, th, todo, env).1.pc)
  {
    hide RemoveTarget, After, Executed;
    if todo != map[] {
      ScanShrinks(todo, env.pick);
    }
  }

  lemma StageDescends(c: Config, k: State, th: Thread, env: Env)
    requires Critical(th.pc) && PcFits(th.call, th.pc) && !th.pc.UnmapScan?
    ensures Stage(Local(c, k, th, env).1.pc) < Stage(th.pc)
  {
    hide Attached, GetBDev, Construct, AddLun, RemoveTarget, DeleteBDev, After, Executed;
  }

  lemma ScanShrinks(todo: map<Slot, string>, pick: Slot)
    requires pick in todo
    ensures |todo - {pick}| < |todo|
  {
    assert (todo - {pick}).Keys == todo.Keys - {pick};
  }

  lemma {:induction false} RunAppend(c: Config, s: System, es: seq<Event>, fs: seq<Event>)
    ensures Run(c, s, es + fs) == Run(c, Run(c, s, es), fs)
    decreases |es|
  {
    if es == [] {
      assert es + fs == fs;
    } else {
      assert (es + fs)[0] == es[0] && (es + fs)[1..] == es[1..] + fs;
      RunAppend(c, Apply(c, s, es[0]), es[1..], fs);
    }
  }

  /** One productive step of a call inside its critical section. */
  lemma OwnStep(c: Config, s: System, t: Tid) returns (e: Event)
    requires Inv(c, s) && t in s.threads && Critical(s.threads[t].pc)
    ensures var th := s.threads[t];
            var s1 := Apply(c, s, e);
            && e.Step? && Inv(c, s1) && t in s1.threads
            && s1.threads[t].call == th.call && s1.threads[t].lost == th.lost
            && s1.threads == s.threads[t := s1.threads[t]]
            && s1.locks == (if th.pc.Returning? then s.locks - {c.bucket(th.call.vol)} else s.locks)
            && (Critical(s1.threads[t].pc) <==> !th.pc.Returning?) && (th.pc.Returning? ==> s1.threads[t].pc.Done?)
            && Descends(th.pc, s1.threads[t].pc)
  {
    var th := s.threads[t];
    var pick := if th.pc.UnmapScan? && th.pc.todo != map[] then (var p :| p in th.pc.todo; p) else Slot("", 0);
    e := Step(t, Env(false, 0, pick));
    ApplyKeepsInv(c, s, e);
    LocalKeepsInv(c, s.spdk, th, e.env);
    OwnStepDescends(c, s.spdk, th, e.env);
  }

  predicate OnlySteps(es: seq<Event>) {
    forall e :: e in es ==> e.Step?
  }

  /** The call is the same and has lost no further RPC. */
  predicate SameCall(s: System, s': System, t: Tid)
    requires t in s.threads && t in s'.threads
  {
    s'.threads[t].call == s.threads[t].call && s'.threads[t].lost == s.threads[t].lost
  }

  /** A call that holds its mutex can run to its end on its own. */
  lemma {:induction false} FinishCritical(c: Config, s: System, t: Tid) returns (es: seq<Event>)
    requires Inv(c, s) && t in s.threads && Critical(s.threads[t].pc)
    ensures var s' := Run(c, s, es);
            && OnlySteps(es) && Inv(c, s') && t in s'.threads && s'.threads[t].pc.Done?
            && s'.threads == s.threads[t := s'.threads[t]] && SameCall(s, s', t)
            && s'.locks == s.locks - {c.bucket(s.threads[t].call.vol)}
    decreases Stage(s.threads[t].pc), Pending(s.threads[t].pc)
  {
    hide Apply, Inv, Stage, Pending;
    var e := OwnStep(c, s, t);
    var s1 := Apply(c, s, e);
    var rest := [];
    if !s.threads[t].pc.Returning? {
      rest := FinishCritical(c, s1, t);
    }
    es := [e] + rest;
    assert es[0] == e && es[1..] == rest;
  }

  /** In every reachable state every unfinished call has a continuation that finishes it, without
      new calls and without losing an RPC. */
  lemma NoCallIsStuck(c: Config, s0: System, es0: seq<Event>, t: Tid) returns (es: seq<Event>)
    requires Init(s0) && t in Run(c, s0, es0).threads
    ensures var s := Run(c, s0, es0);
            var s' := Run(c, s, es);
            OnlySteps(es) && t in s'.threads && s'.threads[t].pc.Done? && SameCall(s, s', t)
  {
    var s := Run(c, s0, es0);
    RunKeepsInv(c, s0, es0);
    var th := s.threads[t];
    var go := Step(t, Env(false, 0, Slot("", 0)));
    if th.pc.Done? {
      es := [];
    } else if Critical(th.pc) {
      es := FinishCritical(c, s, t);
    } else if !Acceptable(c, th.call) {
      es := [go];
      assert Run(c, s, [go]) == Run(c, Apply(c, s, go), []);
    } else {
      es := WaitAndFinish(c, s, t);
    }
  }

  /** A call that waits for its mutex can be let in and finished. */
  lemma WaitAndFinish(c: Config, s: System, t: Tid) returns (es: seq<Event>)
    requires Inv(c, s) && t in s.threads && s.threads[t].pc == Begin && Acceptable(c, s.threads[t].call)
    ensures var s' := Run(c, s, es);
            OnlySteps(es) && t in s'.threads && s'.threads[t].pc.Done? && SameCall(s, s', t)
  {
    hide Inv;
    var wait := ReleaseLock(c, s, c.bucket(s.threads[t].call.vol), t);
    var s1 := Run(c, s, wait);
    var go := Step(t, Env(false, 0, Slot("", 0)));
    var s2 := Apply(c, s1, go);
    ApplyKeepsInv(c, s1, go);
    FirstPcIsCritical(s.threads[t].call);
    var rest := FinishCritical(c, s2, t);
    es := wait + ([go] + rest);
    RunAppend(c, s, wait, [go] + rest);
    assert ([go] + rest)[1..] == rest;
  }

  /** The call that holds mutex `b`, if there is one, can finish without touching call `t`. */
  lemma ReleaseLock(c: Config, s: System, b: nat, t: Tid) returns (es: seq<Event>)
    requires Inv(c, s) && t in s.threads && s.threads[t].pc == Begin
    ensures var s' := Run(c, s, es);
            OnlySteps(es) && Inv(c, s') && b !in s'.locks && t in s'.threads && s'.threads[t] == s.threads[t]
  {
    es := [];
    if b in s.locks {
      assert LockIsUsed(c, s, b);
      hide Inv, LocalInv;
      es := FinishCritical(c, s, s.locks[b]);
    }
  }

  /** In every reachable state an UnmapVolume call that passes the checks and has lost no RPC so
      far can still succeed. */
  lemma UnmapVolumeSucceeds(c: Config, s0: System, es0: seq<Event>, t: Tid) returns (es: seq<Event>)
    requires Init(s0) && t in Run(c, s0, es0).threads
    requires var th := Run(c, s0, es0).threads[t];
             th.call.UnmapVolume? && Acceptable(c, th.call) && !th.lost
    ensures var s := Run(c, Run(c, s0, es0), es);
            OnlySteps(es) && t in s.threads && s.threads[t].pc == Done(Unmapped)
  {
    hide Run;
    es := NoCallIsStuck(c, s0, es0, t);
    RunAppend(c, s0, es0, es);
    UnmapFailsOnlyWhenLost(c, s0, es0 + es, t);
  }

  /** MapVolume put `v` on `slot`, and nothing that detaches `v` was called since. Then in every
      interleaving every later MapVolume call for `v` that has lost no RPC so far can still
      succeed, and with the same target. */
  lemma MapVolumeSucceedsAgain(c: Config, s0: System, es0: seq<Event>, i: Tid, slot: Slot, es: seq<Event>, j: Tid)
    returns (more: seq<Event>)
    requires Init(s0)
    requires var s := Run(c, s0, es0);
             && i in s.threads && s.threads[i].pc == Returning(Mapped(slot))
             && Undisturbed(s, es, s.threads[i].call.vol)
             && j !in s.threads
    requires var s := Run(c, s0, es0);
             var s1 := Run(c, s, es);
             && j in s1.threads && s1.threads[j].call.MapVolume? && !s1.threads[j].lost
             && s1.threads[j].call.vol == s.threads[i].call.vol
    ensures var s := Run(c, s0, es0);
            var s1 := Run(c, s, es);
            var s2 := Run(c, s1, more);
            && OnlySteps(more) && j in s2.threads && s2.threads[j].pc == Done(Mapped(slot))
            && SamePart(s.spdk, s2.spdk, s.threads[i].call.vol)
  {
    hide Run, Apply;
    var s := Run(c, s0, es0);
    RunAppend(c, s0, es0, es);
    more := NoCallIsStuck(c, s0, es0 + es, j);
    RunAppend(c, s, es, more);
    assert forall e :: e in es + more ==> e in es || e in more;
    MapVolumeIsIdempotent(c, s0, es0, i, slot, es + more, j);
  }
}
