/** A run in which UnmapVolume succeeds and leaves something behind. */
module ControllerExamples {
  import opened Spdk
  import opened Controller
  import opened ControllerSafety
  import opened ControllerCalls
  import opened ControllerProgress

  const NOTHING := System(State(map[], map[]), map[], map[])

  /** Six reliable steps; the RBD image has one block. */
  function MapSteps(c: Config): seq<Event> {
    var e := Step(0, Env(false, 1, Slot(c.vhost, 0)));
    [e, e, e, e, e, e]
  }

  /** Lock, snapshot, remove the target, end of the scan, lookup, delete or return, return. */
  function UnmapSteps(c: Config, lookup: bool): seq<Event> {
    var e := Step(1, Env(false, 1, Slot(c.vhost, 0)));
    var l := Step(1, Env(true, 1, Slot(c.vhost, 0)));
    [e, e, e, e, if lookup then l else e, l, e]
  }

  function OneDisk(v: string): map<string, BDev> {
    map[v := BDev(RbdDisk, BLOCK_SIZE, 1)]
  }

  /** The system after the MapVolume call. */
  function MappedOnce(c: Config, v: string): System {
    System(State(OneDisk(v), map[Slot(c.vhost, 0) := v]), map[],
           map[0 := Thread(MapVolume(v, CephParams), Done(Mapped(Slot(c.vhost, 0))), false)])
  }

  /** The steps of the MapVolume call, seen from SPDK. */
  lemma MapLocals(c: Config, v: string, env: Env)
    requires env == Env(false, 1, Slot(c.vhost, 0))
    ensures var th := Thread(MapVolume(v, CephParams), Begin, false);
            var slot := Slot(c.vhost, 0);
            var k0, k1, k2 := State(map[], map[]), State(OneDisk(v), map[]), State(OneDisk(v), map[slot := v]);
            && Local(c, k0, th.(pc := MapLookup), env) == (k0, th.(pc := MapConstruct))
            && Local(c, k0, th.(pc := MapConstruct), env) == (k1, th.(pc := MapSnapshot))
            && Local(c, k1, th.(pc := MapSnapshot), env) == (k1, th.(pc := MapTry(0)))
            && Local(c, k1, th.(pc := MapTry(0)), env) == (k2, th.(pc := Returning(Mapped(slot))))
            && Local(c, k2, th.(pc := Returning(Mapped(slot))), env) == (k2, th.(pc := Done(Mapped(slot))))
  {
  }

  /** The steps of the UnmapVolume call, seen from SPDK. */
  lemma UnmapLocals(c: Config, v: string, env: Env, lost: Env)
    requires env == Env(false, 1, Slot(c.vhost, 0)) && lost == env.(lost := true)
    ensures var th := Thread(UnmapVolume(v), Begin, false);
            var luns := map[Slot(c.vhost, 0) := v];
            var k0, k1 := State(OneDisk(v), luns), State(OneDisk(v), map[]);
            var done := Thread(UnmapVolume(v), Returning(Unmapped), true);
            && Local(c, k0, th.(pc := UnmapSnapshot), env) == (k0, th.(pc := UnmapScan(luns)))
            && Local(c, k0, th.(pc := UnmapScan(luns)), env) == (k1, th.(pc := UnmapScan(map[])))
            && Local(c, k1, th.(pc := UnmapScan(map[])), env) == (k1, th.(pc := UnmapLookup))
            && Local(c, k1, th.(pc := UnmapLookup), lost) == (k1, done)
            && Local(c, k1, th.(pc := UnmapLookup), env) == (k1, th.(pc := UnmapDelete))
            && Local(c, k1, th.(pc := UnmapDelete), lost) == (k1, done)
            && Local(c, k1, done, env) == (k1, done.(pc := Done(Unmapped)))
            && Local(c, k1, done, lost) == (k1, done.(pc := Done(Unmapped)))
  {
    var slot := Slot(c.vhost, 0);
    assert map[slot := v] - {slot} == map[];
  }

  /** One thread inside its critical section takes a step. */
  lemma Stepped(c: Config, k: State, locks: map<nat, Tid>, threads: map<Tid, Thread>, t: Tid, th: Thread,
                env: Env, k': State, th': Thread)
    requires Critical(th.pc) && !th.pc.Returning? && Local(c, k, th, env) == (k', th')
    ensures Apply(c, System(k, locks, threads[t := th]), Step(t, env)) == System(k', locks, threads[t := th'])
  {
    hide Local;
    assert threads[t := th][t := th'] == threads[t := th'];
  }

  lemma Released(c: Config, k: State, threads: map<Tid, Thread>, t: Tid, th: Thread, env: Env, th': Thread)
    requires th.pc.Returning? && Local(c, k, th, env) == (k, th')
    ensures Apply(c, System(k, map[c.bucket(th.call.vol) := t], threads[t := th]), Step(t, env)) ==
            System(k, map[], threads[t := th'])
  {
    hide Local;
    var b := c.bucket(th.call.vol);
    assert threads[t := th][t := th'] == threads[t := th'];
    assert map[b := t] - {b} == map[];
  }

  lemma Started(c: Config, k: State, threads: map<Tid, Thread>, t: Tid, call: Call, env: Env)
    requires t !in threads && Acceptable(c, call)
    ensures var th := Thread(call, Begin, false);
            && Apply(c, System(k, map[], threads), Start(t, call)) == System(k, map[], threads[t := th])
            && Apply(c, System(k, map[], threads[t := th]), Step(t, env)) ==
               System(k, map[c.bucket(call.vol) := t], threads[t := th.(pc := FirstPc(call))])
  {
    hide Local;
    var th := Thread(call, Begin, false);
    assert threads[t := th][t := th.(pc := FirstPc(call))] == threads[t := th.(pc := FirstPc(call))];
  }

  /** A run through given states. */
  lemma {:induction false} RunSteps(c: Config, s: System, es: seq<Event>, ss: seq<System>)
    requires |ss| == |es| + 1 && ss[0] == s
    requires forall i :: 0 <= i < |es| ==> Apply(c, ss[i], es[i]) == ss[i + 1]
    ensures Run(c, s, es) == ss[|es|]
    decreases |es|
  {
    hide Apply;
    if es == [] {
    } else {
      assert Apply(c, ss[0], es[0]) == ss[1];
      forall i | 0 <= i < |es[1..]| ensures Apply(c, ss[1..][i], es[1..][i]) == ss[1..][i + 1] {
        assert Apply(c, ss[i + 1], es[i + 1]) == ss[i + 2];
      }
      RunSteps(c, ss[1], es[1..], ss[1..]);
    }
  }

  lemma MapsFromNothing(c: Config, v: string)
    requires Acceptable(c, MapVolume(v, CephParams))
    ensures RunCall(c, NOTHING, 0, MapVolume(v, CephParams), MapSteps(c)) == MappedOnce(c, v)
  {
    hide Run, Local, Apply;
    var slot, locks := Slot(c.vhost, 0), map[c.bucket(v) := 0];
    var env := Env(false, 1, slot);
    var k0, k1, k2 := State(map[], map[]), State(OneDisk(v), map[]), State(OneDisk(v), map[slot := v]);
    var th := Thread(MapVolume(v, CephParams), Begin, false);
    var th1, th2, th3 := th.(pc := MapLookup), th.(pc := MapConstruct), th.(pc := MapSnapshot);
    var th4, th5 := th.(pc := MapTry(0)), th.(pc := Returning(Mapped(slot)));
    MapLocals(c, v, env);
    Started(c, k0, map[], 0, th.call, env);
    Stepped(c, k0, locks, map[], 0, th1, env, k0, th2);
    Stepped(c, k0, locks, map[], 0, th2, env, k1, th3);
    Stepped(c, k1, locks, map[], 0, th3, env, k1, th4);
    Stepped(c, k1, locks, map[], 0, th4, env, k2, th5);
    Released(c, k2, map[], 0, th5, env, th.(pc := Done(Mapped(slot))));
    RunSteps(c, System(k0, map[], map[0 := th]), MapSteps(c),
             [System(k0, map[], map[0 := th]), System(k0, locks, map[0 := th1]), System(k0, locks, map[0 := th2]),
              System(k1, locks, map[0 := th3]), System(k1, locks, map[0 := th4]), System(k2, locks, map[0 := th5]),
              MappedOnce(c, v)]);
  }

  /** UnmapVolume before its lookup: the target is removed, the BDev is still there. */
  function Unattached(c: Config, v: string): System {
    System(State(OneDisk(v), map[]), map[c.bucket(v) := 1],
           MappedOnce(c, v).threads[1 := Thread(UnmapVolume(v), UnmapLookup, false)])
  }

  lemma RemovesTheTarget(c: Config, v: string, s0: System)
    requires Acceptable(c, UnmapVolume(v))
    requires s0 == Apply(c, MappedOnce(c, v), Start(1, UnmapVolume(v)))
    ensures Run(c, s0, UnmapSteps(c, false)[..4]) == Unattached(c, v)
  {
    hide Run, Local, Apply;
    var slot, locks := Slot(c.vhost, 0), map[c.bucket(v) := 1];
    var env, lost := Env(false, 1, slot), Env(true, 1, slot);
    var t0 := MappedOnce(c, v).threads;
    var k0, k1 := MappedOnce(c, v).spdk, State(OneDisk(v), map[]);
    var th := Thread(UnmapVolume(v), Begin, false);
    var th1, th2, th3 := th.(pc := UnmapSnapshot), th.(pc := UnmapScan(k0.luns)), th.(pc := UnmapScan(map[]));
    UnmapLocals(c, v, env, lost);
    Started(c, k0, t0, 1, th.call, env);
    Stepped(c, k0, locks, t0, 1, th1, env, k0, th2);
    Stepped(c, k0, locks, t0, 1, th2, env, k1, th3);
    Stepped(c, k1, locks, t0, 1, th3, env, k1, th.(pc := UnmapLookup));
    RunSteps(c, s0, UnmapSteps(c, false)[..4],
             [s0, System(k0, locks, t0[1 := th1]), System(k0, locks, t0[1 := th2]),
              System(k1, locks, t0[1 := th3]), Unattached(c, v)]);
  }

  lemma KeepsTheBDev(c: Config, v: string, lookup: bool)
    ensures var th := Thread(UnmapVolume(v), Done(Unmapped), true);
            Run(c, Unattached(c, v), UnmapSteps(c, lookup)[4..]) ==
            System(Unattached(c, v).spdk, map[], MappedOnce(c, v).threads[1 := th])
  {
    hide Run, Local, Apply;
    var slot, locks := Slot(c.vhost, 0), map[c.bucket(v) := 1];
    var env, lost := Env(false, 1, slot), Env(true, 1, slot);
    var t0 := MappedOnce(c, v).threads;
    var k1 := State(OneDisk(v), map[]);
    var th4 := Thread(UnmapVolume(v), UnmapLookup, false);
    var th5 := th4.(pc := UnmapDelete);
    var th6 := Thread(UnmapVolume(v), Returning(Unmapped), true);
    var th7 := th6.(pc := Done(Unmapped));
    var s4, s6 := Unattached(c, v), System(k1, locks, t0[1 := th6]);
    var s5, s7 := System(k1, locks, t0[1 := th5]), System(k1, map[], t0[1 := th7]);
    UnmapLocals(c, v, env, lost);
    Released(c, k1, t0, 1, th6, if lookup then lost else env, th7);
    if lookup {
      Stepped(c, k1, locks, t0, 1, th4, lost, k1, th6);
      Finished(c, k1, t0, 1, th7, env);
      RunSteps(c, s4, UnmapSteps(c, lookup)[4..], [s4, s6, s7, s7]);
    } else {
      Stepped(c, k1, locks, t0, 1, th4, env, k1, th5);
      Stepped(c, k1, locks, t0, 1, th5, lost, k1, th6);
      RunSteps(c, s4, UnmapSteps(c, lookup)[4..], [s4, s5, s6, s7]);
    }
  }

  lemma LeavesTheBDev(c: Config, v: string, lookup: bool)
    requires Acceptable(c, UnmapVolume(v))
    ensures var s := RunCall(c, MappedOnce(c, v), 1, UnmapVolume(v), UnmapSteps(c, lookup));
            && 1 in s.threads && s.threads[1] == Thread(UnmapVolume(v), Done(Unmapped), true)
            && s.spdk == State(OneDisk(v), map[])
  {
    hide Run, Apply;
    var s0 := Apply(c, MappedOnce(c, v), Start(1, UnmapVolume(v)));
    var es := UnmapSteps(c, lookup);
    RemovesTheTarget(c, v, s0);
    KeepsTheBDev(c, v, lookup);
    RunAppend(c, s0, es[..4], es[4..]);
    assert es[..4] == UnmapSteps(c, false)[..4];
    assert es == es[..4] + es[4..];
  }

  lemma Finished(c: Config, k: State, threads: map<Tid, Thread>, t: Tid, th: Thread, env: Env)
    requires th.pc.Done?
    ensures var s := System(k, map[], threads[t := th]); Apply(c, s, Step(t, env)) == s
  {
  }

  /** MapVolume of an RBD volume followed by UnmapVolume, for any configured controller and any
      volume: UnmapVolume reports success although the lookup (`lookup`) or the deletion of the BDev
      was lost, and the BDev stays behind. */
  lemma UnmapCanLeaveTheBDev(c: Config, v: string, lookup: bool)
    requires Acceptable(c, MapVolume(v, CephParams))
    ensures var s1 := RunCall(c, NOTHING, 0, MapVolume(v, CephParams), MapSteps(c));
            var s2 := RunCall(c, s1, 1, UnmapVolume(v), UnmapSteps(c, lookup));
            && Init(NOTHING) && NoStarts(MapSteps(c), v) && NoStarts(UnmapSteps(c, lookup), v)
            && 0 in s1.threads && s1.threads[0].pc == Done(Mapped(Slot(c.vhost, 0)))
            && 1 in s2.threads && s2.threads[1].pc == Done(Unmapped) && s2.threads[1].lost
            && !Attached(s2.spdk, v) && v in s2.spdk.bdevs && !SamePart(NOTHING.spdk, s2.spdk, v)
  {
    hide RunCall;
    MapsFromNothing(c, v);
    LeavesTheBDev(c, v, lookup);
  }
}
