/** The RPC handlers of the OIM controller as an interleaving state machine.

    Each call in flight is a thread with a program counter between two SPDK RPCs. A thread
    holds the mutex of its volume while it is inside its critical section; threads for other
    volumes may take any number of steps between two of its RPCs. An execution is the fold of
    a sequence of events, so a statement about all event sequences is about all interleavings. */
module Controller {
  import opened Wrappers
  import opened Spdk

  type Tid = nat

  /** What the controller was configured with, and the hash that picks one of the mutexes. */
  datatype Config = Config(connected: bool, vhost: string, hasDev: bool, bucket: string -> nat)

  datatype Params = NoParams | MallocParams | CephParams

  datatype Call =
    | MapVolume(vol: string, params: Params)
    | UnmapVolume(vol: string)
    | Provision(vol: string, size: int)
    | CheckBDev(vol: string)

  datatype Reply = Mapped(slot: Slot) | Unmapped | Provisioned | Present | Failed

  /** The next action of a call. Between `Begin` and `Done` the volume's mutex is held. */
  datatype Pc =
    | Begin
    | MapLookup
    | MapConstruct
    | MapSnapshot
    | MapTry(target: nat)
    | UnmapSnapshot
    | UnmapScan(todo: map<Slot, string>)
    | UnmapLookup
    | UnmapDelete
    | ProvisionLookup
    | ProvisionConstruct
    | ProvisionDelete
    | CheckLookup
    | Returning(reply: Reply)
    | Done(reply: Reply)

  /** `lost` records whether some RPC of this call failed although SPDK would have executed it. */
  datatype Thread = Thread(call: Call, pc: Pc, lost: bool)

  /** What the environment decides in one step: whether the RPC is lost, the size of a newly
      opened RBD image, and which entry of the snapshot is visited next. */
  datatype Env = Env(lost: bool, blocks: int, pick: Slot)

  datatype System = System(spdk: State, locks: map<nat, Tid>, threads: map<Tid, Thread>)

  datatype Event = Start(tid: Tid, call: Call) | Step(tid: Tid, env: Env)

  const TARGETS := 8

  predicate Critical(pc: Pc) {
    !pc.Begin? && !pc.Done?
  }

  /** The checks before the mutex is taken. */
  predicate Acceptable(c: Config, call: Call) {
    call.vol != "" && c.connected && (call.MapVolume? ==> c.vhost != "" && c.hasDev)
  }

  function FirstPc(call: Call): Pc {
    match call
    case MapVolume(_, _) => MapLookup
    case UnmapVolume(_) => UnmapSnapshot
    case Provision(_, size) => if size != 0 then ProvisionLookup else ProvisionDelete
    case CheckBDev(_) => CheckLookup
  }

  /** Go divides towards zero. */
  function GoDiv(a: int, b: int): int
    requires b > 0
  {
    if a >= 0 then a / b else -((-a) / b)
  }

  /** The effect of an RPC: nothing when it is lost or refused. */
  function Executed(r: Option<State>, env: Env): Option<State> {
    if env.lost then None else r
  }

  function After(k: State, r: Option<State>): State {
    match r case Some(k') => k' case None => k
  }

  /** UnmapVolume visits the entries of its snapshot one by one, and goes on after a match. */
  function ScanStep(k: State, th: Thread, todo: map<Slot, string>, env: Env): (State, Thread) {
    if todo == map[] then (k, th.(pc := UnmapLookup))
    else if env.pick !in todo then (k, th)
    else if todo[env.pick] != th.call.vol then (k, th.(pc := UnmapScan(todo - {env.pick})))
    else
      var r := Executed(RemoveTarget(k, env.pick), env);
      var pc := if r.Some? then UnmapScan(todo - {env.pick}) else Returning(Failed);
      (After(k, r), Thread(th.call, pc, th.lost || env.lost))
  }

  /** One step inside the critical section, as a function of SPDK and the thread alone. */
  ghost function Local(c: Config, k: State, th: Thread, env: Env): (r: (State, Thread))
    requires Critical(th.pc)
  {
    var v := th.call.vol;
    var lost := th.lost || env.lost;
    var bdev := if env.lost then None else GetBDev(k, v);
    match th.pc
    case MapLookup =>
      (k, Thread(th.call, if bdev.Some? then MapSnapshot
                          else if th.call.MapVolume? && th.call.params.CephParams? then MapConstruct
                          else Returning(Failed), lost))
    case MapConstruct =>
      var r := Executed(Construct(k, v, BDev(RbdDisk, BLOCK_SIZE, env.blocks)), env);
      (After(k, r), Thread(th.call, if r.Some? then MapSnapshot else Returning(Failed), lost))
    case MapSnapshot =>
      (k, Thread(th.call, if env.lost then Returning(Failed)
                          else if Attached(k, v) then (var slot :| At(k, slot, v); Returning(Mapped(slot)))
                          else MapTry(0), lost))
    case MapTry(t) =>
      var r := Executed(AddLun(k, Slot(c.vhost, t), v), env);
      (After(k, r), Thread(th.call, if r.Some? then Returning(Mapped(Slot(c.vhost, t)))
                                    else if t + 1 < TARGETS then MapTry(t + 1)
                                    else Returning(Failed), lost))
    case UnmapSnapshot =>
      (k, Thread(th.call, if env.lost then Returning(Failed) else UnmapScan(k.luns), lost))
    case UnmapScan(todo) =>
      ScanStep(k, th, todo, env)
    case UnmapLookup =>
      (k, Thread(th.call, if bdev.Some? && bdev.value.product != MallocDisk then UnmapDelete
                          else Returning(Unmapped), lost))
    case UnmapDelete =>
      var r := Executed(DeleteBDev(k, v), env);
      (After(k, r), Thread(th.call, Returning(Unmapped), lost))
    case ProvisionLookup =>
      var size := if th.call.Provision? then th.call.size else 0;
      (k, Thread(th.call, if bdev.None? then ProvisionConstruct
                          else if bdev.value.numBlocks * bdev.value.blockSize == size then Returning(Provisioned)
                          else Returning(Failed), lost))
    case ProvisionConstruct =>
      var size := if th.call.Provision? then th.call.size else 0;
      var r := Executed(Construct(k, v, BDev(MallocDisk, BLOCK_SIZE, GoDiv(size, 512))), env);
      (After(k, r), Thread(th.call, Returning(if r.Some? then Provisioned else Failed), lost))
    case ProvisionDelete =>
      var r := Executed(DeleteBDev(k, v), env);
      (After(k, r), Thread(th.call, Returning(Provisioned), lost))
    case CheckLookup =>
      (k, Thread(th.call, Returning(if bdev.Some? then Present else Failed), lost))
    case Returning(reply) => (k, th.(pc := Done(reply)))
  }

  /** One event. A step that cannot be taken (no such thread, mutex taken, call finished) changes nothing. */
  ghost function Apply(c: Config, s: System, e: Event): System {
    match e
    case Start(t, call) =>
      if t in s.threads then s else s.(threads := s.threads[t := Thread(call, Begin, false)])
    case Step(t, env) =>
      if t !in s.threads || s.threads[t].pc.Done? then s
      else
        var th := s.threads[t];
        var b := c.bucket(th.call.vol);
        if th.pc.Begin? then
          if !Acceptable(c, th.call) then s.(threads := s.threads[t := th.(pc := Done(Failed))])
          else if b in s.locks then s
          else System(s.spdk, s.locks[b := t], s.threads[t := th.(pc := FirstPc(th.call))])
        else
          var (k, th') := Local(c, s.spdk, th, env);
          System(k, if th.pc.Returning? then s.locks - {b} else s.locks, s.threads[t := th'])
  }

  ghost function Run(c: Config, s: System, es: seq<Event>): System
    decreases |es|
  {
    if es == [] then s else Run(c, Apply(c, s, es[0]), es[1..])
  }
}
