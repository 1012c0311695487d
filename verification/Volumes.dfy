/** The two CSI backends: volumes provisioned through the OIM controller, and volumes created
    directly in a local SPDK. */
module Volumes {
  import opened Wrappers
  import opened Spdk
  import Controller

  const MIB := 0x10_0000
  const TIB := 0x100_0000_0000

  datatype Reply = Created(capacity: int) | OutOfRange | AlreadyExists | FailedPrecondition

  /** Whether each RPC gets lost, in the order in which they are made. A lost RPC has no effect. */
  datatype Lost = Lost(lookup: bool, construct: bool)

  const RELIABLE := Lost(false, false)

  /** 1 MiB when nothing is requested, otherwise the next multiple of the block size. */
  function Capacity(required: nat): (c: int)
    ensures c > 0 && c % 512 == 0 && required <= c
    ensures if required == 0 then c == 0x10_0000 else c < required + 512
    ensures required < TIB ==> c <= TIB
  {
    if required == 0 then MIB else (required + 511) / 512 * 512
  }

  // ---- ProvisionMallocBDev ----

  /** The effect of ProvisionMallocBDev on a name whose mutex is held. */
  function Provision(k: State, name: string, size: int, lost: Lost): (State, bool, bool) {
    if size != 0 then
      var bdev := if lost.lookup then None else GetBDev(k, name);
      if bdev.None? then
        var blocks := Controller.GoDiv(size, 512);
        var r := if lost.construct then None else Construct(k, name, BDev(MallocDisk, BLOCK_SIZE, blocks));
        (if r.Some? then r.value else k, r.Some?, false)
      else (k, bdev.value.numBlocks * bdev.value.blockSize == size, true)
    else
      (if lost.lookup || name !in k.bdevs then k else DeleteBDev(k, name).value, true, false)
  }

  /** It is what the steps of the controller's thread program do, for deletions as well. */
  lemma ProvisionIsTheThreadProgram(c: Controller.Config, k: State, name: string, size: int, lost: Lost, slot: Slot)
    ensures var env1 := Controller.Env(lost.lookup, 0, slot);
            var env2 := Controller.Env(lost.construct, 0, slot);
            var call := Controller.Provision(name, size);
            var th := Controller.Thread(call, Controller.FirstPc(call), false);
            var (k1, th1) := Controller.Local(c, k, th, env1);
            var (k2, th2) := if th1.pc.ProvisionConstruct? then Controller.Local(c, k1, th1, env2) else (k1, th1);
            var (k', ok, _) := Provision(k, name, size, lost);
            k2 == k' && th2.pc == Controller.Returning(if ok then Controller.Provisioned else Controller.Failed)
  {
  }

  /** A ProvisionMallocBDev call that created a BDev can be repeated exactly when the size is whole
      blocks. The interface asks for that; the code does not check it, cuts the size down, and then
      finds the BDev to have the wrong size. */
  lemma ProvisionIsIdempotentExactly(k: State, name: string, size: int)
    requires size != 0 && name !in k.bdevs && Provision(k, name, size, RELIABLE).1
    ensures var k' := Provision(k, name, size, RELIABLE).0;
            Provision(k', name, size, RELIABLE).1 <==> size % 512 == 0
    ensures var k' := Provision(k, name, size, RELIABLE).0;
            Provision(k', name, size, RELIABLE).0 == k'
  {
    var k' := Provision(k, name, size, RELIABLE).0;
    assert k'.bdevs[name].numBlocks == size / 512;
  }

  lemma ProvisionCanFailWhenRepeated()
    ensures var k := State(map[], map[]);
            var k' := Provision(k, "v", 513, RELIABLE).0;
            Provision(k, "v", 513, RELIABLE).1 && !Provision(k', "v", 513, RELIABLE).1
  {
    ProvisionIsIdempotentExactly(State(map[], map[]), "v", 513);
  }

  // ---- The backends on values ----

  function CreateRemote(k: State, name: string, required: nat, lost: Lost): (State, Reply) {
    if required >= TIB then (k, OutOfRange)
    else
      var (k', ok, exists_) := Provision(k, name, Capacity(required), lost);
      (k', if ok then Created(Capacity(required)) else if exists_ then AlreadyExists else FailedPrecondition)
  }

  function CreateLocal(k: State, name: string, required: nat, lost: Lost): (State, Reply) {
    if lost.lookup then (k, FailedPrecondition)
    else if name in k.bdevs then
      var size := k.bdevs[name].blockSize * k.bdevs[name].numBlocks;
      (k, if size >= required then Created(size) else AlreadyExists)
    else if required >= TIB then (k, OutOfRange)
    else
      var c := Capacity(required);
      var r := if lost.construct then None else Construct(k, name, BDev(MallocDisk, BLOCK_SIZE, c / 512));
      if r.Some? then (r.value, Created(c)) else (k, FailedPrecondition)
  }

  /** The size of the BDev that backs a volume. */
  function SizeOf(k: State, name: string): int
    requires name in k.bdevs
  {
    k.bdevs[name].numBlocks * k.bdevs[name].blockSize
  }

  /** A successful remote createVolume, whatever RPCs were lost on the way, leaves SPDK and
      reports a capacity exactly as the local backend does from the same state. */
  lemma RemoteAgreesWithLocal(k: State, name: string, required: nat, lost: Lost)
    requires CreateRemote(k, name, required, lost).1.Created?
    ensures CreateRemote(k, name, required, lost) == CreateLocal(k, name, required, RELIABLE)
  {
    WholeBlocks(Capacity(required));
    if name in k.bdevs {
      var b := k.bdevs[name];
      assert b.numBlocks * b.blockSize == b.blockSize * b.numBlocks;
    }
  }

  /** The backends do not agree the other way round: the local one also accepts an existing volume
      that is larger than requested, even if the request is over the limit. Remote success is
      local success plus a request below the limit whose rounded size an existing BDev has exactly. */
  lemma RemoteSucceedsExactly(k: State, name: string, required: nat)
    ensures CreateRemote(k, name, required, RELIABLE).1.Created? <==>
            && CreateLocal(k, name, required, RELIABLE).1.Created?
            && required < TIB
            && (name in k.bdevs ==> SizeOf(k, name) == Capacity(required))
  {
    WholeBlocks(Capacity(required));
    if name in k.bdevs {
      var b := k.bdevs[name];
      assert b.numBlocks * b.blockSize == b.blockSize * b.numBlocks;
    }
  }

  lemma LocalAcceptsMore()
    ensures var k := State(map["v" := BDev(MallocDisk, 512, 4096)], map[]);
            && CreateLocal(k, "v", 512, RELIABLE) == (k, Created(2 * MIB))
            && CreateRemote(k, "v", 512, RELIABLE) == (k, AlreadyExists)
  {
    assert Capacity(512) == 512;
  }

  /** An existing volume of 2 TiB and a request at the limit. */
  lemma LocalIgnoresTheLimit()
    ensures var k := State(map["v" := BDev(MallocDisk, 512, 2 * TIB / 512)], map[]);
            && CreateLocal(k, "v", TIB, RELIABLE) == (k, Created(2 * TIB))
            && CreateRemote(k, "v", TIB, RELIABLE) == (k, OutOfRange)
  {
  }

  lemma WholeBlocks(c: int)
    requires c > 0 && c % 512 == 0
    ensures Controller.GoDiv(c, 512) == c / 512 && c / 512 > 0 && c / 512 * 512 == c
  {
  }

  /** What success means: a BDev of the reported capacity exists, the capacity is whole blocks,
      covers the request and is at most 1 TiB, other volumes are untouched, attachments stay. */
  lemma RemoteCreates(k: State, name: string, required: nat, lost: Lost)
    ensures var (k', reply) := CreateRemote(k, name, required, lost);
            && (reply.Created? ==>
                  && name in k'.bdevs && SizeOf(k', name) == reply.capacity
                  && reply.capacity % 512 == 0 && required <= reply.capacity <= TIB && reply.capacity > 0
                  && (name in k.bdevs ==> k' == k))
            && (!reply.Created? ==> k' == k)
            && k'.luns == k.luns && k.bdevs.Keys <= k'.bdevs.Keys
            && forall w :: w != name ==> GetBDev(k', w) == GetBDev(k, w)
  {
    WholeBlocks(Capacity(required));
  }

  /** Every outcome of the remote backend. Losing the lookup of an existing volume makes SPDK refuse the
      second one of that name. */
  lemma RemoteRepliesExactly(k: State, name: string, required: nat, lost: Lost)
    ensures CreateRemote(k, name, required, lost) ==
            if required >= 0x100_0000_0000 then (k, OutOfRange)
            else if name in k.bdevs then
              (k, if lost.lookup then FailedPrecondition
                  else if SizeOf(k, name) == Capacity(required) then Created(Capacity(required)) else AlreadyExists)
            else if lost.construct then (k, FailedPrecondition)
            else (k.(bdevs := k.bdevs[name := BDev(MallocDisk, 512, Capacity(required) / 512)]),
                  Created(Capacity(required)))
  {
    WholeBlocks(Capacity(required));
  }

  /** Every outcome of the local backend. */
  lemma LocalRepliesExactly(k: State, name: string, required: nat, lost: Lost)
    ensures CreateLocal(k, name, required, lost) ==
            if lost.lookup then (k, FailedPrecondition)
            else if name in k.bdevs then
              (k, if SizeOf(k, name) >= required then Created(SizeOf(k, name)) else AlreadyExists)
            else if required >= 0x100_0000_0000 then (k, OutOfRange)
            else if lost.construct then (k, FailedPrecondition)
            else (k.(bdevs := k.bdevs[name := BDev(MallocDisk, 512, Capacity(required) / 512)]),
                  Created(Capacity(required)))
  {
    WholeBlocks(Capacity(required));
    if name in k.bdevs {
      var b := k.bdevs[name];
      assert b.numBlocks * b.blockSize == b.blockSize * b.numBlocks;
    }
  }

  /** Calling createVolume again with the same request changes nothing and reports the same. */
  lemma RemoteIsIdempotent(k: State, name: string, required: nat, lost: Lost)
    requires CreateRemote(k, name, required, lost).1.Created?
    ensures var (k', reply) := CreateRemote(k, name, required, lost);
            && CreateRemote(k', name, required, RELIABLE) == (k', reply)
            && CreateLocal(k', name, required, RELIABLE) == (k', reply)
  {
    var (k', reply) := CreateRemote(k, name, required, lost);
    RemoteCreates(k, name, required, lost);
    WholeBlocks(Capacity(required));
    RemoteAgreesWithLocal(k', name, required, RELIABLE);
  }

  /** deleteVolume undoes createVolume of a new, unattached volume, with either backend. */
  lemma DeleteUndoesCreate(k: State, name: string, required: nat)
    requires name !in k.bdevs && !Attached(k, name) && CreateRemote(k, name, required, RELIABLE).1.Created?
    ensures Provision(CreateRemote(k, name, required, RELIABLE).0, name, 0, RELIABLE) == (k, true, false)
  {
    WholeBlocks(Capacity(required));
    var k1 := CreateRemote(k, name, required, RELIABLE).0;
    var k2 := DeleteBDev(k1, name).value;
    assert forall slot :: slot in k.luns ==> At(k, slot, k.luns[slot]);
    assert k2.luns == k.luns;
    assert k2.bdevs == k.bdevs;
  }

  // ---- The backends as code ----

  class Backend {
    var k: State

    constructor (spdk: State)
      ensures k == spdk
    {
      k := spdk;
    }

    /** The RPC that the remote backend makes through the registry to the controller. */
    method ProvisionMallocBDev(name: string, size: int) returns (ok: bool, alreadyExists: bool, ghost lost: Lost)
      modifies this
      ensures (k, ok, alreadyExists) == Provision(old(k), name, size, lost)
    {
      var l1: bool, l2: bool := *, *;
      lost := Lost(l1, l2);
      if size != 0 {
        var bdev := if l1 then None else GetBDev(k, name);
        if bdev.None? {
          var r := if l2 then None else Construct(k, name, BDev(MallocDisk, BLOCK_SIZE, Controller.GoDiv(size, 512)));
          if r.None? {
            return false, false, lost;
          }
          k := r.value;
          return true, false, lost;
        }
        var actualSize := bdev.value.numBlocks * bdev.value.blockSize;
        return actualSize == size, true, lost;
      }
      var r := if l1 then None else DeleteBDev(k, name);
      if r.Some? {
        k := r.value;
      }
      return true, false, lost;
    }

    method CreateVolumeRemote(name: string, requiredBytes: int) returns (reply: Reply, ghost lost: Lost)
      requires requiredBytes >= 0
      modifies this
      ensures (k, reply) == CreateRemote(old(k), name, requiredBytes, lost)
      ensures reply.Created? ==> (k, reply) == CreateLocal(old(k), name, requiredBytes, RELIABLE)
      ensures reply.Created? ==>
                && reply.capacity % 512 == 0 && requiredBytes <= reply.capacity <= TIB && reply.capacity > 0
                && name in k.bdevs
    {
      ghost var k0 := k;
      lost := RELIABLE;
      var capacity := requiredBytes;
      if capacity >= TIB {
        return OutOfRange, lost;
      }
      if capacity == 0 {
        capacity := MIB;
      } else {
        capacity := (capacity + 511) / 512 * 512;
      }
      var ok, alreadyExists;
      ok, alreadyExists, lost := ProvisionMallocBDev(name, capacity);
      RemoteCreates(k0, name, requiredBytes, lost);
      if ok {
        RemoteAgreesWithLocal(k0, name, requiredBytes, lost);
        reply := Created(capacity);
      } else {
        reply := if alreadyExists then AlreadyExists else FailedPrecondition;
      }
    }

    method CreateVolumeLocal(name: string, requiredBytes: int) returns (reply: Reply, ghost lost: Lost)
      requires requiredBytes >= 0
      modifies this
      ensures (k, reply) == CreateLocal(old(k), name, requiredBytes, lost)
      ensures reply.Created? ==> name in k.bdevs && requiredBytes <= reply.capacity == SizeOf(k, name)
    {
      var l1: bool, l2: bool := *, *;
      lost := Lost(l1, l2);
      if !l1 && name in k.bdevs {
        var volSize := k.bdevs[name].blockSize * k.bdevs[name].numBlocks;
        if volSize >= requiredBytes {
          return Created(volSize), lost;
        }
        return AlreadyExists, lost;
      }
      if l1 {
        return FailedPrecondition, lost;
      }
      var capacity := requiredBytes;
      if capacity >= TIB {
        return OutOfRange, lost;
      }
      if capacity == 0 {
        capacity := MIB;
      } else {
        capacity := (capacity + 511) / 512 * 512;
      }
      assert capacity == Capacity(requiredBytes);
      var r := if l2 then None else Construct(k, name, BDev(MallocDisk, BLOCK_SIZE, capacity / 512));
      if r.None? {
        return FailedPrecondition, lost;
      }
      k := r.value;
      WholeBlocks(capacity);
      return Created(capacity), lost;
    }
  }
}
