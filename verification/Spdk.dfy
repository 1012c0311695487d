/** The part of the SPDK application that the OIM components drive: block devices (BDevs)
    and the LUNs of vhost SCSI controllers. SPDK itself is foreign code; every function
    below states what one JSON RPC does when SPDK executes it, and `None` means that SPDK
    refuses the call and changes nothing. */
module Spdk {

  import opened Wrappers

  /** `product_name` of a BDev: only "Malloc disk" is told apart from the rest. */
  datatype Product = MallocDisk | RbdDisk

  datatype BDev = BDev(product: Product, blockSize: int, numBlocks: int)

  /** A SCSI target of one vhost controller. A target that exists has exactly one LUN. */
  datatype Slot = Slot(ctrlr: string, target: nat)

  datatype State = State(bdevs: map<string, BDev>, luns: map<Slot, string>)

  const BLOCK_SIZE := 512

  ghost predicate At(k: State, slot: Slot, v: string) {
    slot in k.luns && k.luns[slot] == v
  }

  ghost predicate Attached(k: State, v: string) {
    exists slot :: At(k, slot, v)
  }

  predicate IsMalloc(k: State, v: string) {
    v in k.bdevs && k.bdevs[v].product == MallocDisk
  }

  /** `get_bdevs` with a name. */
  function GetBDev(k: State, name: string): Option<BDev> {
    if name in k.bdevs then Some(k.bdevs[name]) else None
  }

  /** `construct_malloc_bdev` and `construct_rbd_bdev`: names are unique and a disk has blocks. */
  function Construct(k: State, name: string, bdev: BDev): Option<State> {
    if name in k.bdevs || bdev.numBlocks <= 0 then None
    else Some(k.(bdevs := k.bdevs[name := bdev]))
  }

  /** `add_vhost_scsi_lun` needs the BDev and a free target, and creates the target. */
  function AddLun(k: State, slot: Slot, name: string): Option<State> {
    if name !in k.bdevs || slot in k.luns then None
    else Some(k.(luns := k.luns[slot := name]))
  }

  /** `remove_vhost_scsi_target` needs an occupied target. */
  function RemoveTarget(k: State, slot: Slot): Option<State> {
    if slot !in k.luns then None else Some(k.(luns := k.luns - {slot}))
  }

  /** `delete_bdev` also drops the LUN that uses the BDev. */
  function DeleteBDev(k: State, name: string): Option<State> {
    if name !in k.bdevs then None
    else Some(State(k.bdevs - {name}, map slot | slot in k.luns && k.luns[slot] != name :: k.luns[slot]))
  }

  /** What every reachable SPDK state satisfies: a volume is on at most one target, and
      whatever is attached has a BDev. That a target holds at most one volume is `luns` being a map. */
  predicate Consistent(k: State) {
    && (forall a, b :: a in k.luns && b in k.luns && k.luns[a] == k.luns[b] ==> a == b)
    && (forall a :: a in k.luns ==> k.luns[a] in k.bdevs)
  }

  /** The two states agree on everything that belongs to volume `v`. */
  ghost predicate SamePart(k: State, k': State, v: string) {
    && GetBDev(k, v) == GetBDev(k', v)
    && (forall slot :: At(k, slot, v) <==> At(k', slot, v))
  }

  /** The same as something that can be evaluated. */
  predicate IsSamePart(k: State, k': State, v: string) {
    && GetBDev(k, v) == GetBDev(k', v)
    && (forall slot :: slot in k.luns && k.luns[slot] == v ==> slot in k'.luns && k'.luns[slot] == v)
    && (forall slot :: slot in k'.luns && k'.luns[slot] == v ==> slot in k.luns && k.luns[slot] == v)
  }
}
