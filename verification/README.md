# OIM, verified

Open Infrastructure Manager (OIM) lets a storage driver use block devices that a separate *OIM
controller* attaches to a host with the help of SPDK. The *OIM registry* stores where each controller
can be reached and routes calls to it. This project models the parts where the difficulty of that
system lies and proves what they promise.

| file | what it models |
|---|---|
| `Wrappers.dfy` | optional values and results that may be errors |
| `Spdk.dfy` | what SPDK's RPCs do: block devices (BDevs) and the LUNs of vhost SCSI controllers |
| `Controller.dfy` | the controller's calls as threads that interleave between any two RPCs, under a mutex per hashed volume name |
| `ControllerSafety.dfy`, `ControllerCalls.dfy`, `ControllerProgress.dfy` | what holds in all interleavings: safety, whole calls, and that no call gets stuck |
| `ControllerReplies.dfy` | who is let in, what the four replies mean, and when MapVolume succeeds |
| `ControllerExamples.dfy` | a run in which UnmapVolume succeeds and leaves a BDev behind |
| `ControllerHandlers.dfy` | the handlers as methods on the server object, with interference between RPCs; each is proved to be an execution of the thread program |
| `Registration.dfy` | the loop, timer and worker of the controller's self-registration |
| `Bits.dfy`, `Varint.dfy`, `Skip.dfy`, `Messages.dfy`, `Marshal.dfy`, `CodecLoops.dfy` | the generated protobuf codec of the OIM messages, as functions on bytes and as the loops over buffers |
| `MessageLaws.dfy` | what repeated fields and the order of fields mean for a message |
| `StrictRecords.dfy` | how far skipping unknown fields is more lenient than the Protocol Buffers encoding |
| `WireFormat.dfy` | the wire format of the messages from a table of their fields, as a reference for the codec |
| `Paths.dfy`, `Registry.dfy` | registry paths, the in-memory database, `SetValue`, `GetValues` and the routing decision |
| `Pci.dfy` | parsing, printing and completing PCI addresses |
| `Volumes.dfy` | the two `createVolume` backends of the CSI driver |
| `Format.dfy` | probing, formatting and mounting a disk while staging a volume |
| `Descriptors.dfy` | the descriptors opened and closed while directories are created safely |

An execution of a concurrent part is the fold of a sequence of events, so a lemma about every event
sequence is a statement about every interleaving. What the environment decides (a lost RPC, the size of
an RBD image, the order in which Go visits a map, what `blkid` and `mkfs` answer) is part of the events
or a parameter, and the lemmas hold for every choice.

## What the code does differently from what is promised

- An UnmapVolume call reports success even when the lookup or the deletion of the BDev was lost. Map
  followed by Unmap therefore restores the volume's part of SPDK exactly when the BDev was there before or
  no RPC of the Unmap call was lost (`ControllerCalls.MapThenUnmapRestores`). `ControllerExamples.UnmapCanLeaveTheBDev`
  is a run for either lost RPC in which the BDev stays behind.
- The interface asks for sizes that are multiples of 512. ProvisionMallocBDev does not check that, and a
  call that created a BDev can be repeated exactly when the size is such a multiple
  (`Volumes.ProvisionIsIdempotentExactly`, `Volumes.ProvisionCanFailWhenRepeated`).
- The local backend accepts an existing volume that is larger than needed and does not apply the size limit
  to an existing volume; the remote backend insists on the exact size and on the limit
  (`Volumes.RemoteSucceedsExactly`, with the inputs `Volumes.LocalAcceptsMore` and `Volumes.LocalIgnoresTheLimit`).
- A controller registers itself under an ID that it does not validate. The registry takes that
  registration exactly when the ID is a plain path element (`Registry.SelfRegistrationWorks`); "a/b" is not
  (`Registry.SlashedIdCannotRegister`).
- `doSafeOpen` closes a descriptor a second time when closing it inside the loop reports an error. Every
  descriptor is closed exactly once if and only if that does not happen
  (`Descriptors.SafeOpenClosesOnceExactly`, with `Descriptors.SafeOpenCanCloseTwice` as an input for which
  it does).
- A worker that is in flight when the registration loop stops blocks forever on its channel. There is one
  if and only if the timer was spent when the loop took the stop request (`Registration.LateWorkerBlocks`,
  with a run in `Registration.WorkerCanBlock`).
- The section "Groups" of the Protocol Buffers encoding document calls a group malformed when its end tag has
  another number than its start tag, and field numbers are at least 1 and at most 2^29 - 1. `skipOim` looks
  at neither. What it steps over is a record of the encoding if and only if all numbers in it are legal and
  all its groups match (`StrictRecords.SkippedIsStrictExactly`); messages decode with a mismatched group
  (`StrictRecords.MismatchedGroupIsAccepted`) or field number 0 inside a group
  (`StrictRecords.FieldZeroIsAccepted`). `Unmarshal` cuts field numbers to 32 bits, which changes exactly those
  from 2^31 on (`StrictRecords.NumbersAreCut`, with an input in `StrictRecords.CutNumberIsAccepted`).
- OIM's interface description has the proxy answer "Unimplemented" for a call without a controller ID. The
  code gives that answer if and only if the call is for the registry's own service; any other call without
  an ID gets "FailedPrecondition" (`Registry.RefusedExactly`, `Registry.MissingIdIsNotUnimplemented`).

## Model

| member | source | states |
|---|---|---|
| `ControllerSafety.LocalKeepsConsistent` | pkg/oim-controller/controller.go:55-278 | every RPC of every call keeps: a volume is on at most one target, and what is attached has a BDev |
| `ControllerSafety.LocalKeepsInv` | pkg/oim-controller/controller.go:70-211 | what a call knows at each point (nothing attached while it tries targets, the snapshot still right for its own volume) survives its own steps, also failed ones |
| `ControllerSafety.LocalFrame` | pkg/oim-controller/controller.go:70-211 | a step of a call for one volume leaves BDev and attachment of every other volume alone |
| `ControllerSafety.ApplyKeepsLocks` | pkg/oim-controller/controller.go:44-51 | a mutex is held exactly by the one call inside its critical section, whatever the hash collisions |
| `ControllerSafety.ApplyKeepsInv` | pkg/oim-controller/controller.go:55-278 | one event of any call keeps the whole invariant, including what every other call in flight knows |
| `ControllerSafety.RunKeepsInv` | pkg/oim-controller/controller.go:55-278 | the invariant holds after every interleaving of any number of calls |
| `ControllerSafety.UnmapRemovesOnlyItsVolume` | pkg/oim-controller/controller.go:172-200 | whenever UnmapVolume is about to remove a target found in its stale snapshot, that target still holds its own volume |
| `ControllerSafety.StepsStayInTheirVolume` | pkg/oim-controller/controller.go:55-256 | in every reachable state, a step of a call for another volume changes nothing of this one |
| `ControllerSafety.MutualExclusion` | pkg/oim-controller/controller.go:44-51 | two calls inside the critical section for one volume are the same call |
| `ControllerSafety.RunKeepsTargets` | pkg/oim-controller/controller.go:131-148 | every attachment stays on the configured vhost controller, on targets 0 to 7 |
| `ControllerSafety.AttachmentsAreExclusiveAndBounded` | pkg/oim-controller/controller.go:70-148 | starting with nothing attached, in every reachable state each volume is on one target at most, and at most 8 targets and 8 volumes are attached |
| `ControllerCalls.StepWhileAttached` | pkg/oim-controller/controller.go:97-125 | while a volume is attached, no step of a Map, check or sizing call for it changes anything, and a Map call can only find that target |
| `ControllerCalls.RunWhileAttached` | pkg/oim-controller/controller.go:97-125 | the same over every run without a call that detaches the volume |
| `ControllerCalls.MapVolumeIsIdempotent` | pkg/oim-controller/controller.go:97-125 | after MapVolume succeeded, and as long as nothing detaches the volume, later calls for it change nothing, and a later MapVolume answers with the same target or fails only because an RPC was lost |
| `ControllerCalls.SoloRun` | pkg/oim-controller/controller.go:55-211 | one call for a volume, among any calls for other volumes, keeps track of what became of the BDev it found |
| `ControllerCalls.SoloCall` | pkg/oim-controller/controller.go:55-211 | the same from the start of a call, on any reachable state |
| `ControllerCalls.MapThenUnmapRestores` | pkg/oim-controller/controller.go:202-211 | after Map and then Unmap the volume is unattached; its BDev is as before if and only if it existed before or no RPC of the Unmap call was lost |
| `ControllerExamples.UnmapCanLeaveTheBDev` | pkg/oim-controller/controller.go:202-211 | the other side occurs: for every configured controller and every volume there is a run with the lookup lost, and one with the deletion lost, in which Unmap succeeds and the BDev stays |
| `ControllerCalls.UnmapFailsOnlyWhenLost` | pkg/oim-controller/controller.go:159-212 | in every interleaving an UnmapVolume that passed its checks fails only because one of its RPCs was lost; SPDK never refuses a removal |
| `ControllerCalls.RunWhileGone` | pkg/oim-controller/controller.go:159-212 | over every run without a call that maps or provisions a volume, an unattached volume without a BDev, or with a Malloc BDev, keeps all that belongs to it |
| `ControllerCalls.UnmapVolumeIsIdempotent` | pkg/oim-controller/controller.go:159-212 | after an UnmapVolume without lost RPCs, over every run without a call that maps or provisions the volume, with any number of UnmapVolume calls for it in flight: no step of a call for the volume changes anything, and every finished UnmapVolume succeeded or lost one of its own RPCs |
| `ControllerCalls.StepKeepsMalloc` | pkg/oim-controller/controller.go:202-211 | no step of a Map, Unmap or check call changes the set of Malloc BDevs |
| `ControllerCalls.MallocBDevsSurvive` | pkg/oim-controller/controller.go:158-212 | no run without provisioning calls changes any Malloc BDev |
| `ControllerProgress.OwnStepDescends` | pkg/oim-controller/controller.go:131-200 | every step of a call, also with lost RPCs, brings it closer to its reply; the loops over targets and snapshot entries end |
| `ControllerProgress.FinishCritical` | pkg/oim-controller/controller.go:70-211 | a call inside its critical section can finish on its own, giving back its mutex and leaving the other calls alone |
| `ControllerProgress.ReleaseLock` | pkg/oim-controller/controller.go:44-51 | every mutex can be released from every reachable state without disturbing a waiting call |
| `ControllerProgress.NoCallIsStuck` | pkg/oim-controller/controller.go:44-278 | from every reachable state every call can still reach its reply, without new calls and without losing an RPC: no deadlock |
| `ControllerProgress.UnmapVolumeSucceeds` | pkg/oim-controller/controller.go:159-212 | from every reachable state an UnmapVolume that passed its checks and has lost no RPC can still succeed |
| `ControllerProgress.MapVolumeSucceedsAgain` | pkg/oim-controller/controller.go:55-125 | after MapVolume succeeded, and as long as nothing detaches the volume, in every interleaving a later MapVolume that has lost no RPC can still succeed, with the same target |
| `ControllerReplies.LetInExactly` | pkg/oim-controller/controller.go:55-72 | for each of the four calls, spelled out on the configuration and the name: exactly when it fails at once, waits for its mutex, or is let in; SPDK is not touched |
| `ControllerReplies.RepliesMean` | pkg/oim-controller/controller.go:55-278 | over every interleaving, the reply of each call tells what was there when it was let in and what it has made of it: CheckMallocBDev answers success if and only if the BDev was there, unless it lost an RPC; ProvisionMallocBDev succeeds if and only if an existing BDev has the size or a new one gets at least a block, and makes a Malloc BDev of that many blocks; UnmapVolume leaves nothing attached and removes all but Malloc BDevs; MapVolume keeps the BDev or makes an RBD BDev |
| `ControllerReplies.MapVolumeSucceeds` | pkg/oim-controller/controller.go:75-148 | over every interleaving, a MapVolume on a configured controller that lost no RPC succeeds if some target below 8 was never taken by another volume meanwhile and there was a BDev, or Ceph parameters for an image that SPDK can open |
| `ControllerReplies.MapVolumeTakesTheLeast` | pkg/oim-controller/controller.go:131-148 | when nobody interrupts it, it puts an unattached volume on the least free target |
| `ControllerHandlers.OthersLeaveVolumeAlone` | pkg/oim-controller/controller.go:70-72 | whatever other calls do while a call holds its mutex, its own state and its volume's part of SPDK stay; this justifies the interference the methods below allow between RPCs |
| `ControllerHandlers.Server.FindLun` | pkg/oim-controller/controller.go:103-125 | the search through the snapshot finds a target with the volume if and only if there is one |
| `ControllerHandlers.Server.RemoveTargets` | pkg/oim-controller/controller.go:178-200 | the removal loop, with interference before each RPC, is an execution of the thread program that visits every entry |
| `ControllerHandlers.Server.TryTargets` | pkg/oim-controller/controller.go:131-155 | the loop over targets is an execution of the thread program and reports the first target that took the volume |
| `ControllerHandlers.Server.MapVolumeHandler` | pkg/oim-controller/controller.go:55-156 | the handler is an execution of the thread program with the same reply; spelled out are when it refuses the call, and what it leaves of BDev and attachment from the state it found; when it succeeds the volume is on the reported target |
| `ControllerHandlers.Server.UnmapVolumeHandler` | pkg/oim-controller/controller.go:159-212 | likewise; when it succeeds the volume is on no target and only a Malloc BDev, or one whose deletion was lost, is left |
| `ControllerHandlers.Server.ProvisionMallocBDevHandler` | pkg/oim-controller/controller.go:215-256 | likewise; the reply is success if and only if the size fits the existing BDev or a new one, unless an RPC was lost, and the BDev made or removed is stated |
| `ControllerHandlers.Server.CheckMallocBDevHandler` | pkg/oim-controller/controller.go:259-278 | likewise; the reply is success if and only if the BDev is there, unless the RPC was lost |
| `Registration.ExactlyOneActivity` | pkg/oim-controller/controller.go:411-446 | in every interleaving exactly one of armed timer, running registration and pending completion exists, so at most one registration runs |
| `Registration.RearmingLosesNoTimer` | pkg/oim-controller/controller.go:426-443 | whenever the loop replaces its timer, the old one has fired and no registration runs |
| `Registration.NoRegistrationAfterStop` | pkg/oim-controller/controller.go:416-443 | once the loop has taken the stop request, no registration starts |
| `Registration.LateWorkerBlocks` | pkg/oim-controller/controller.go:426-443 | in every run and continuation, a worker is left over after stop if and only if the timer was spent when stop was taken, and it is blocked on its report exactly once its registration has returned |
| `Registration.WorkerCanBlock` | pkg/oim-controller/controller.go:426-443 | a run with such a worker, blocked in every continuation |
| `Registration.RegistersAgain` | pkg/oim-controller/controller.go:411-446 | as long as the loop runs, every reachable state leads on to one more registration |
| `Varint.SovIsLength` | pkg/spec/oim/v0/oim.pb.go:1554-1563 | `sovOim` is the exact length of the encoding, for every number |
| `Varint.EncodeFitsTenBytes` | pkg/spec/oim/v0/oim.pb.go:1335-1343 | a 64-bit number takes ten bytes at most |
| `Varint.EncodeIsVarint` | pkg/spec/oim/v0/oim.pb.go:1335-1343 | the encoding is a varint (the continuation bit on all bytes but the last) with the number as its base-128 value |
| `Varint.DecodeAcceptsVarints` | pkg/spec/oim/v0/oim.pb.go:1567-1590 | the reading loop accepts exactly the varints of at most ten bytes, at any place in a message, also non-minimal ones, and gives their value cut to 64 bits |
| `Varint.DecodeFailsExactly` | pkg/spec/oim/v0/oim.pb.go:1573-1590 | reading fails with an overflow exactly for ten continuation bytes, and with the end of input exactly when the input ends before that |
| `Varint.RoundTrip` | pkg/spec/oim/v0/oim.pb.go:1335-1343 | reading an encoded 64-bit number, whatever follows it, gives the number and its length |
| `Bits.OrAddsTheNextGroup` | pkg/spec/oim/v0/oim.pb.go:1579-1587 | for a variable of any width: the bitwise "or" with the next group, shifted within that width, adds the group and cuts to the width, as long as what was collected is below the shift |
| `Varint.NextGroup` | pkg/spec/oim/v0/oim.pb.go:1579-1587 | one round of the reading loop takes the value of the bytes so far to the value with the next byte |
| `Varint.CutTwice` | pkg/spec/oim/v0/oim.pb.go:2500-2520 | reading a 32-bit field in 32-bit arithmetic equals reading 64 bits and cutting |
| `Varint.ReadVarint` | pkg/spec/oim/v0/oim.pb.go:1573-1590 | the loop with "or" and shift, for a variable of any width, computes the value of the varint in front of it, cut to that width, and reports overflow and end of input as the reading function does |
| `Varint.ReadU64` | pkg/spec/oim/v0/oim.pb.go:1573-1590 | for tags, lengths and 64-bit fields it gives exactly what the reading function gives |
| `Varint.ReadU32` | pkg/spec/oim/v0/oim.pb.go:2500-2520 | for 32-bit fields it gives that value cut to 32 bits |
| `Varint.EncodeVarint` | pkg/spec/oim/v0/oim.pb.go:1335-1343 | the loop writes exactly the encoding into the buffer, `sovOim` bytes, and touches nothing else |
| `Varint.SizeOfVarint` | pkg/spec/oim/v0/oim.pb.go:1554-1563 | the counting loop computes the length of the encoding |
| `Skip.SkipsWholeRecord` | pkg/spec/oim/v0/oim.pb.go:3092-3190 | every record of the lenient grammar, which includes all of the encoding, with groups nested to any depth, is skipped at exactly its length |
| `Skip.SkippedIsRecord` | pkg/spec/oim/v0/oim.pb.go:3092-3190 | what is skipped within the input is a record of the lenient grammar, or a lone end-of-group tag |
| `Skip.SkipAcceptsExactlyRecords` | pkg/spec/oim/v0/oim.pb.go:3092-3190 | on every input, skipping yields n within it if and only if the first n bytes are a record of the lenient grammar or an end-of-group tag |
| `StrictRecords.RecordIsUnique` | pkg/spec/oim/v0/oim.pb.go:3092-3190 | the grammar is unambiguous: bytes are those of one record at most |
| `StrictRecords.SkippedIsStrictExactly` | pkg/spec/oim/v0/oim.pb.go:3092-3190 | what is skipped is a record of the Protocol Buffers encoding if and only if all field numbers in it are legal and all groups in it end with their own number |
| `StrictRecords.LoneEndIsNoRecord` | pkg/spec/oim/v0/oim.pb.go:3180-3181 | a lone end-of-group tag is skipped and is no record |
| `StrictRecords.MismatchedGroupIsAccepted` | pkg/spec/oim/v0/oim.pb.go:3151-3179 | every message decodes a group of field 9 that field 10 ends, which is no record of the encoding |
| `StrictRecords.FieldZeroIsAccepted` | pkg/spec/oim/v0/oim.pb.go:3151-3179 | the same for field number 0 inside a group |
| `StrictRecords.NumbersAreCut` | pkg/spec/oim/v0/oim.pb.go:1587-1594 | the field number that the code sees is that of the tag if and only if it is below 2^31 |
| `StrictRecords.CutNumberIsAccepted` | pkg/spec/oim/v0/oim.pb.go:1587-1594 | a record of field 2^32 + 1 is read as field 1 |
| `Skip.SkipExtends` | pkg/spec/oim/v0/oim.pb.go:3092-3190 | skipping does not depend on what follows the record |
| `Skip.SkipOim` | pkg/spec/oim/v0/oim.pb.go:3092-3190 | the loop with recursion on shorter suffixes terminates and computes the skipping function, errors included |
| `Messages.ReadRecordExtends` | pkg/spec/oim/v0/oim.pb.go:1567-3091 | reading one record does not depend on what follows it |
| `Messages.DecodingIsFold` | pkg/spec/oim/v0/oim.pb.go:1567-3091 | decoding a concatenation is decoding the second part on top of the result of the first |
| `Messages.UnknownRecordIsIgnored` | pkg/spec/oim/v0/oim.pb.go:1629-1642 | a record with an unknown field number, nested groups included and even of the lenient grammar only, can be inserted at any record boundary without changing the outcome |
| `Messages.BadTagIsRefused` | pkg/spec/oim/v0/oim.pb.go:1587-1600 | behind any records that decode, an end-of-group tag, a field number that is not positive, or a known field with the wrong wire type makes decoding fail, each with its own error, whatever follows |
| `Messages.BadLengthIsRefused` | pkg/spec/oim/v0/oim.pb.go:1600-1628 | the same for a length that is negative or reaches past the input |
| `Messages.ReadsBytesField` | pkg/spec/oim/v0/oim.pb.go:1650-1757 | a length-delimited field in front of a message is stored and decoding goes on behind it, or its error is the outcome |
| `Messages.ReadsNumberField` | pkg/spec/oim/v0/oim.pb.go:2472-2597 | the same for number fields, with all 64-bit values |
| `MessageLaws.EmbeddedMessagesMerge` | pkg/spec/oim/v0/oim.pb.go:2356-2471 | two occurrences of an embedded message, with any records of other fields between them, read like one with both contents |
| `MessageLaws.UnmarshalAgrees` | pkg/spec/oim/v0/oim.pb.go:1650-2110 | messages that differ in one field only decode any input with the same error, or to messages that again differ in that field only |
| `MessageLaws.LastOneWins` | pkg/spec/oim/v0/oim.pb.go:1968-2110 | of any two occurrences of a string, of a number or of members of the oneof, with any records before, between and behind them, the earlier one has no effect |
| `MessageLaws.FieldsMayChangePlaces` | pkg/spec/oim/v0/oim.pb.go:1567-3091 | a record of any field may be moved behind any records of other fields without changing the outcome |
| `Messages.RepeatedValuesAppend` | pkg/spec/oim/v0/oim.pb.go:1887-1967 | each occurrence of the repeated field appends one freshly decoded value |
| `Marshal.SizeIsExact` | pkg/spec/oim/v0/oim.pb.go:1344-1563 | `Size` is the length of the written message, for all messages |
| `Marshal.RoundTripOfMessages` | pkg/spec/oim/v0/oim.pb.go:845-1343 | writing any message and reading it into an empty one gives it back: negative sizes, nesting, oneof and repeated field included |
| `Marshal.EncodingIsInjective` | pkg/spec/oim/v0/oim.pb.go:845-1343 | different messages of one kind have different bytes |
| `WireFormat.MarshalledIsRecords` | pkg/spec/oim/v0/oim.pb.go:845-1343 | every message is written as the concatenation of well-formed records: those of its fields with the numbers and wire types of the interface, in ascending order, empty fields left out |
| `CodecLoops.MarshalTo` | pkg/spec/oim/v0/oim.pb.go:845-1333 | writing into a larger buffer puts exactly the message's `Size` bytes at the given place, stays inside the buffer and keeps all other bytes |
| `CodecLoops.MarshalMessage` | pkg/spec/oim/v0/oim.pb.go:845-1333 | the allocated buffer is filled completely, and reading it gives the message back |
| `CodecLoops.WriteValues` | pkg/spec/oim/v0/oim.pb.go:955-975 | the loop over the repeated field writes one record per value, in order |
| `CodecLoops.ReadOneRecord` | pkg/spec/oim/v0/oim.pb.go:1573-1645 | one turn of the decoding loop: tag, dispatch by field number, unknown fields, all errors |
| `CodecLoops.UnmarshalMessage` | pkg/spec/oim/v0/oim.pb.go:1567-3091 | the index-updating loop over a buffer computes the decoding function on all inputs, also malformed ones |
| `Paths.FieldsThroughSlash` | pkg/oim-common/path.go:25-33 | splitting goes through every slash: the elements of the parts, in order |
| `Paths.SlashesAreIgnored` | pkg/oim-common/path.go:25-33 | leading, trailing and repeated slashes do not matter |
| `Paths.SplitOfJoin` | pkg/oim-common/path.go:36-38 | splitting a joined path gives back every valid list of elements |
| `Paths.JoinIsInjective` | pkg/oim-common/path.go:36-38 | valid lists with the same path are the same |
| `Paths.SplitIsCanonical` | pkg/oim-common/path.go:25-38 | splitting fails exactly when "." or ".." is among the elements, and joining and splitting again changes nothing |
| `Paths.PrefixTestIsElementPrefix` | pkg/oim-registry/registry.go:131-134 | the string test of `GetValues` holds if and only if one list of elements is a prefix of the other |
| `Registry.SetRefines` | pkg/oim-registry/registry.go:84-113 | one `SetValue` on the flat map of strings is one update of a tree keyed by element lists, and keys stay canonical |
| `Registry.RunRefines` | pkg/oim-registry/registry.go:84-113 | the same over every run of requests, accepted or not |
| `Registry.TreeHoldsLatest` | pkg/oim-registry/memdb.go:27-36 | the tree holds exactly the latest non-empty accepted value of every key |
| `Registry.AcceptedExactly` | pkg/oim-registry/registry.go:84-112 | a request is accepted if and only if it has a value, a path with elements and without "." and "..", and a peer that is "user.admin", or "controller." and the first element for a path that is this element and "address"; each refusal has its own status, exactly |
| `Registry.WriteTakesEffect` | pkg/oim-registry/registry.go:84-113 | an accepted request sets the value at its own path and at no other |
| `Registry.LatestIsAWrite` | pkg/oim-registry/registry.go:84-113 | that value stems from an accepted request with none for the key after it |
| `Registry.LookupIsLatest` | pkg/oim-registry/memdb.go:37-42 | looking up a controller's address gives the latest accepted value, or nothing when the ID is not in canonical form |
| `Registry.RefusedExactly` | pkg/oim-registry/registry.go:157-181 | exactly when a call is refused as unimplemented, for a missing ID or peer, and because the peer is not the host of the controller |
| `Registry.MissingIdIsNotUnimplemented` | pkg/oim-registry/registry.go:167-171 | a call for the controller without an ID is not refused as unimplemented |
| `Registry.RoutingFollowsWrites` | pkg/oim-registry/registry.go:157-189 | over every run and for every ID, its host is routed to the last address set for it, or to none if no path names the ID; every accepted write there, removals included, is by the administrator or, for a plain ID only, by the controller itself |
| `Registry.SelfRegistrationWorks` | pkg/oim-controller/controller.go:448-468 | a controller's registration is accepted if and only if its ID is a plain element, and then the host is routed to the registered address |
| `Registry.SlashedIdCannotRegister` | pkg/oim-registry/registry.go:100-112 | an ID with a slash for which it is not |
| `Registry.OnlyTheHostIsRouted` | pkg/oim-registry/registry.go:157-189 | a call is routed only with exactly one controller ID and only for the host of that controller |
| `Registry.SelectedIsMatch` | pkg/oim-registry/registry.go:115-145 | matching the flat keys selects exactly the latest values at or beneath the path |
| `Registry.Server.Store` | pkg/oim-registry/memdb.go:27-36 | an empty value removes the key, others replace it, no other key changes |
| `Registry.Server.SetValue` | pkg/oim-registry/registry.go:84-113 | who may write what is spelled out; an accepted call sets the value at its path and at no other, a refused one none; the database always holds exactly the latest non-empty values under canonical keys |
| `Registry.Server.GetValues` | pkg/oim-registry/registry.go:115-145 | returns exactly once each latest non-empty value at or beneath the path, or nothing with an error |
| `Registry.Server.Connect` | pkg/oim-registry/registry.go:157-189 | the routing decision with all its errors; the address is the latest one written for the ID |
| `Pci.ShortHexIsFine` | pkg/oim-common/pci.go:24-33 | up to four hexadecimal digits never make the conversion panic, and two stay below 256 |
| `Pci.CaptureIsRegex` | pkg/oim-common/pci.go:19-19 | the deterministic reader captures the given groups if and only if some division of the text matches the regular expression with them, although domain and bus share a colon |
| `Pci.ParsingIsSafe` | pkg/oim-common/pci.go:36-47 | parsing never panics, and all that is accepted is in the range of BDF notation or unset |
| `Pci.RoundTrip` | pkg/oim-common/pci.go:68-90 | printing and parsing gives the address back if and only if its fields are in range or unset |
| `Pci.PrettyPCIAddress` | pkg/oim-common/pci.go:68-90 | the appended text, also for a missing address, parses to the address |
| `Pci.CompleteIsAssociative` | pkg/oim-common/pci.go:51-65 | completing addresses is associative and idempotent, with the unset address as neutral element |
| `Pci.CompleteFields` | pkg/oim-common/pci.go:51-65 | each field is that of the address if set, otherwise that of the default |
| `Pci.PrintedShape` | pkg/oim-common/pci.go:68-90 | the printed form has four, two, two and one digits, and open parts are left out |
| `Pci.CaseDoesNotMatter` | pkg/oim-common/pci.go:19-47 | strings that differ only in the case of hexadecimal letters parse alike, or are refused alike |
| `Pci.PartsAreRead` | pkg/oim-common/pci.go:19-47 | every part may have fewer digits or none, which makes it 0xFFFF; the domain may be missing with its colon; white space around does not matter |
| `Volumes.ProvisionIsTheThreadProgram` | pkg/oim-controller/controller.go:215-256 | provisioning as the backends see it is the controller's thread program run without interruption |
| `Volumes.ProvisionIsIdempotentExactly` | pkg/oim-controller/controller.go:228-248 | repeating a call that created a BDev changes nothing, and succeeds if and only if the size is a multiple of 512 |
| `Volumes.ProvisionCanFailWhenRepeated` | pkg/oim-controller/controller.go:228-248 | a size for which the repetition fails |
| `Volumes.RemoteAgreesWithLocal` | pkg/oim-csi-driver/remote.go:44-84 | a successful remote `createVolume` has the state and the capacity of the local one |
| `Volumes.RemoteSucceedsExactly` | pkg/oim-csi-driver/remote.go:44-84 | the remote backend succeeds if and only if the local one does, the size is below the limit, and an existing volume has exactly the rounded size |
| `Volumes.LocalAcceptsMore` | pkg/oim-csi-driver/local.go:38-60 | an existing volume that only the local backend accepts |
| `Volumes.LocalIgnoresTheLimit` | pkg/oim-csi-driver/local.go:38-60 | an existing volume and a request at the limit that only the local backend accepts |
| `Volumes.RemoteCreates` | pkg/oim-csi-driver/remote.go:44-84 | the capacity is a multiple of 512 that covers the request and is at most 1 TiB, never 0; a failure changes nothing; no other BDev, no attachment and no existing volume changes |
| `Volumes.Capacity` | pkg/oim-csi-driver/remote.go:51-58 | 1 MiB when nothing is requested, otherwise the least multiple of 512 that covers the request |
| `Volumes.RemoteRepliesExactly` | pkg/oim-csi-driver/remote.go:44-84 | every outcome, with the limit, the exact size of an existing volume and lost RPCs, and the Malloc BDev that is made |
| `Volumes.LocalRepliesExactly` | pkg/oim-csi-driver/local.go:30-84 | the same for the local backend |
| `Volumes.RemoteIsIdempotent` | pkg/oim-csi-driver/remote.go:44-84 | after a success both backends answer the same request with the same reply and change nothing |
| `Volumes.DeleteUndoesCreate` | pkg/oim-csi-driver/remote.go:66-68 | deleting a newly created volume restores SPDK's state |
| `Volumes.Backend.CreateVolumeRemote` | pkg/oim-csi-driver/remote.go:44-64 | the method does what the value-level function does, agrees with the local backend on success, and the capacity is in the promised range |
| `Volumes.Backend.CreateVolumeLocal` | pkg/oim-csi-driver/local.go:30-84 | on success the volume exists with the reported size, which covers the request |
| `Format.ParseOutput` | pkg/mount/mount_linux.go:537-556 | the loop over the output of `blkid` keeps the last TYPE and PTTYPE and rejects a line that is not one key and one value |
| `Format.ExportIsReadBack` | pkg/mount/mount_linux.go:537-556 | reading the export format of any list of tags gives the last TYPE and PTTYPE among them |
| `Format.FormatIsFaithful` | pkg/mount/mount_linux.go:517-567 | the probe reports "no format" if and only if the disk has neither a file system nor a partition table |
| `Format.GetDiskFormat` | pkg/mount/mount_linux.go:517-567 | the same of the method, with its error cases |
| `Format.FormatAndMountDisk` | pkg/mount/mount_linux.go:432-514 | the method has exactly the effects, in order, and the outcome of the decision function that the lemmas below are about |
| `Format.FormatsExactlyWhen` | pkg/mount/mount_linux.go:432-514 | `mkfs` runs if and only if the mount is not read-only, `fsck` found nothing uncorrectable, the first mount failed, the probe worked and the disk is blank |
| `Format.EffectsMean` | pkg/mount/mount_linux.go:432-514 | each effect: `fsck` first and only for read-write mounts; the first mount with the requested type, the second with the formatted one, all with "defaults" added; `mkfs` with the requested type or ext4; how many effects there are; exactly when the disk is mounted in the end and what is on it |
| `Format.RunKeepsSafe` | pkg/oim-csi-driver/nodeserver.go:149-243 | the safety invariant holds after every sequence of stage and unstage calls at any target paths |
| `Format.StageIsIdempotent` | pkg/oim-csi-driver/nodeserver.go:168-183 | staging again at a path where the volume is staged does nothing |
| `Format.StageMountsExactly` | pkg/oim-csi-driver/nodeserver.go:149-211 | exactly when a path has the volume mounted after a stage call |
| `Format.StagesAgainAfterUnstage` | pkg/oim-csi-driver/nodeserver.go:213-243 | unstaging frees the path and nothing else, and a volume with a file system can then be staged there again |
| `Format.Node.NodeStageVolume` | pkg/oim-csi-driver/nodeserver.go:149-211 | the handler does what the state machine of the lemmas does, and succeeds if and only if the request is complete, the path can be checked and the volume is mounted there afterwards |
| `Format.Node.NodeUnstageVolume` | pkg/oim-csi-driver/nodeserver.go:213-243 | the same for unstaging |
| `Format.FormatsAtMostOnce` | pkg/mount/mount_linux.go:432-567 | in every such sequence, at any target paths, `mkfs` only runs on a blank disk and succeeds at most once |
| `Format.FormattedDiskSurvives` | pkg/mount/mount_linux.go:432-567 | no such sequence changes a disk that has a file system or a partition table |
| `Descriptors.SafeOpenClosesOnceExactly` | pkg/mount/mount_linux.go:1214-1288 | for all answers of the system calls: each opened descriptor is closed exactly once, with just the returned one left open, if and only if no close inside the loop reports an error |
| `Descriptors.FailingCloseClosesTwice` | pkg/mount/mount_linux.go:1273-1276 | when the close for some segment reports an error, that parent is closed twice and every other descriptor once |
| `Descriptors.SafeOpenCanCloseTwice` | pkg/mount/mount_linux.go:1273-1276 | an input for which that happens |
| `Descriptors.SafeOpenSucceedsExactly` | pkg/mount/mount_linux.go:1214-1288 | a descriptor is returned exactly when every segment is within the base, opens, is no symlink and its parent closes |
| `Descriptors.DoSafeOpen` | pkg/mount/mount_linux.go:1214-1288 | the loop with its deferred functions closes every descriptor exactly as often as the function that those lemmas are about says, and returns the open one |
| `Descriptors.FollowSegment` | pkg/mount/mount_linux.go:1252-1280 | one turn of that loop, with the close counts of every way out |
| `Descriptors.FindExistingPrefix` | pkg/mount/mount_linux.go:1171-1208 | every opened descriptor is closed exactly once, and the first missing directory is found |
| `Descriptors.CreateBelow` | pkg/mount/mount_linux.go:1100-1143 | the creation loop closes the descriptor it starts from and all it opens exactly once |
| `Descriptors.MakeDirClosesOnceExactly` | pkg/mount/mount_linux.go:1062-1167 | no descriptor is ever left open, and each is closed exactly once if and only if no close inside the loop of `doSafeOpen` reports an error |
| `Descriptors.MakeDirSucceedsExactly` | pkg/mount/mount_linux.go:1062-1167 | success, on the answers of the system calls: the path is within the base and is a directory, or cannot be looked at and the prefix search ends, the prefix resolves and opens, every missing directory is made and opened, and the mode is set |
| `Descriptors.DoSafeMakeDir` | pkg/mount/mount_linux.go:1062-1167 | the method succeeds, and closes every descriptor as often, as the function that these lemmas are about says |

## Left out

- gRPC, TLS, certificates, dialing, the transparent proxy, server start and stop: the name of the peer is an input.
- SPDK itself, JSON and the socket: `Spdk.dfy` states what each RPC does. An RPC is atomic, and one that reports an error has had no effect.
- `pkg/spec/csi/v0/csi.pb.go`: its marshalling goes through a reflection library that is not part of this model.
- `pkg/log`: text formatting.
- NBD device search, file system notifications, sysfs scanning, `mknod`, systemd detection and running `mount` and `umount`: operating system I/O; what the format machine needs of it are parameters.
- `filepath.Rel`, `Clean` and `EvalSymlinks`, and which path a descriptor stands for: library and kernel behaviour.
- Identity servers, capability checks, Ceph parameter extraction, `nodeserver0.go` and `controllerserver0.go`: straight-line checks or near duplicates.
- NodePublishVolume and NodeUnpublishVolume: bind mounts with no decision about the disk.
- Messages as objects: they are values here, so a message that a failed Unmarshal has partly filled in is not modelled.
- ControllerHandlers.Server.MapVolumeHandler: the reply is the SCSI target with its vhost controller. The PCI address in the code's reply is always the configured one; by `ControllerSafety.RunKeepsTargets` this is the right one as long as nobody else attaches volumes elsewhere.
- Marshal.RoundTripOfMessages: for messages of less than 2^63 bytes, which is what Go's int can count.
- CodecLoops.UnmarshalMessage: positions are unbounded, so a declared length that overflows Go's int when added to a position is an ordinary end of input here. Repeated fields have no nil element and the oneof no nil message.
- Varint.ReadVarint: "or" and left shift work on natural numbers, bit by bit and cut to the width; masks with 0x7F and right shifts are remainders and divisions.
- Volumes.Backend.CreateVolumeRemote: negative sizes, which the CSI specification rules out, and the empty name, which the caller rejects, are excluded or not told apart; the RPCs of one call are not interleaved with others.
- Volumes.Backend.CreateVolumeLocal: as above.
- Format.FormatsAtMostOnce: `blkid` tells the truth about the disk, and its tags have no '=' and no line break in them. A `mkfs` that fails may leave anything behind.
- Descriptors.DoSafeOpen: a close that reports an error has released the descriptor, as on Linux. What a deferred close reports is only logged and not modelled.
- Registration.ExactlyOneActivity: time is not modelled; an armed timer may fire at any moment.
- Strings are sequences of characters and bytes are numbers below 256; UTF-8 validity is not checked, as in the generated code.
