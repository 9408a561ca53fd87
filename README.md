# CPU PjRt client bookkeeping, in Dafny

A model of the bookkeeping layer of XLA's TFRT CPU PjRt client
(`tensorflow/compiler/xla/pjrt/tfrt_cpu_pjrt_client.h`), with proofs about it:

- **`TfrtCpuDevice`** (`client.dfy`, module `TfrtCpu`): a device with a constant id.
  Its client back-pointer can be set once. Its process index is always 0 and its
  local hardware id is its id. It is addressable when its process matches its client's.
- **`TfrtCpuClient`** (same module): the device registry. It holds all devices,
  the id-to-device map and the addressable devices. Its invariant `Valid()` ties
  these together, and the constructor establishes it. On top of it sit the counts,
  the two device lists (`devices()` and `addressable_devices()`), the two lookups
  (which return a device or a `NotFound` error), and the unsupported operations.
  Each unsupported operation returns its `Unimplemented` error on every call and
  changes nothing (its method has no `modifies` clause).
- **`TfrtCpuExecutable`** (`executable.dfy`, module `TfrtCpuExec`): an executable's
  metadata.
  - Two parallel vectors hold the (replica, partition) slots this process runs and
    the device each slot is assigned to. `AddressablePlacement` computes them from
    a device assignment and the registry, replica by replica.
  - The donation set is filled by `SetUpDonation` and queried by `MustDonateParameter`.
  - The execute entry points are stubs that always fail.
- `status.dfy` (module `PjrtStatus`) models `Status` and `StatusOr<T>`.
  `types.dfy` (module `PjrtTypes`) holds the value types: `LogicalDeviceIds`,
  `DeviceAssignment`, and placeholder argument types.

Design choices where the header shows only a declaration:

- The client constructor's body is not in the header. The model keeps the full device
  list in the order given. It registers each device under its id (`IndexById`), then
  points each device back at the client and collects those that then report
  themselves addressable (`AttachAll`). Two devices with the same id, or a device that
  already has a client, are caller errors, stated as `requires` clauses.
- The comment at line 194 says the addressable devices are "indexed by core_id". The
  model places each addressable device at the position its local hardware id names
  (`ByCoreId`), so that position i holds the device whose core id is i
  (`AddressableIndexedByCoreId`). Such an indexing exists only when the addressable
  core ids are 0 … n - 1 in some order. So the constructor requires each of them to
  lie in that range; with distinct ids, none can then be missing (`CoreIdsCovered`).
- `LookupDevice` and `LookupAddressableDevice` are only declared. Both are modelled as
  "the device, or `NotFound`(id)". `LookupAddressableDevice` searches the addressable
  list by local hardware id.
- The loop that fills the executable's two parallel vectors belongs to `Compile`,
  which is not in this header. `AddressablePlacement` follows the field comment at
  lines 308-319. It resolves each cell through `LookupDevice`, so the first unknown id,
  in replica-then-partition order, fails the walk with that lookup's error. The
  executable's invariant states that its two vectors are exactly such a placement of
  its assignment on its client.

## Model

| member | source | states |
|---|---|---|
| `TfrtCpu.TfrtCpuDevice.constructor` | tensorflow/compiler/xla/pjrt/tfrt_cpu_pjrt_client.h:46 | a new device has the given id and no client |
| `TfrtCpu.TfrtCpuDevice.SetClient` | tensorflow/compiler/xla/pjrt/tfrt_cpu_pjrt_client.h:48-53 | allowed only while no client is set; afterwards `client` is exactly the given client, so a second call violates the precondition |
| `TfrtCpu.TfrtCpuDevice.ProcessIndex` | tensorflow/compiler/xla/pjrt/tfrt_cpu_pjrt_client.h:61 | every CPU device is in process 0 |
| `TfrtCpu.TfrtCpuDevice.LocalHardwareId` | tensorflow/compiler/xla/pjrt/tfrt_cpu_pjrt_client.h:63-64 | the local hardware id (the device ordinal) is the device id |
| `TfrtCpu.TfrtCpuDevice.IsAddressable` | tensorflow/compiler/xla/pjrt/tfrt_cpu_pjrt_client.h:55-57 | a device with a client is addressable exactly when that client's process index is 0, the process of every CPU device |
| `TfrtCpu.IndexOfLocalHardwareId` | tensorflow/compiler/xla/pjrt/tfrt_cpu_pjrt_client.h:113-114 | the search finds the first device with the local hardware id, or returns None exactly when no device has it |
| `TfrtCpu.DeviceIdsMember` | tensorflow/compiler/xla/pjrt/tfrt_cpu_pjrt_client.h:192-193 | an id is among the registered ids exactly when some device carries it |
| `TfrtCpu.DeviceIdsCard` | tensorflow/compiler/xla/pjrt/tfrt_cpu_pjrt_client.h:188-193 | with distinct ids, there are as many ids as devices |
| `TfrtCpu.AddressableSubsetMember` | tensorflow/compiler/xla/pjrt/tfrt_cpu_pjrt_client.h:194-195 | a device is in the addressable subset exactly when it is a device of the list and its process index equals the client's |
| `TfrtCpu.AddressableSubsetAllOrNothing` | tensorflow/compiler/xla/pjrt/tfrt_cpu_pjrt_client.h:55-61 | since every device is in process 0, the addressable subset is the whole list in process 0 and empty in any other process |
| `TfrtCpu.AddressableSubsetLength` | tensorflow/compiler/xla/pjrt/tfrt_cpu_pjrt_client.h:188-195 | the addressable subset is never longer than the full list |
| `TfrtCpu.CoreIdsCovered` | tensorflow/compiler/xla/pjrt/tfrt_cpu_pjrt_client.h:194 | devices with distinct ids that all lie in 0 … n - 1 use every id of that range, so each position of the addressable list has its device |
| `TfrtCpu.ByCoreId` | tensorflow/compiler/xla/pjrt/tfrt_cpu_pjrt_client.h:194 | the rearranged list is as long as the original, and position h holds a device of the original whose local hardware id is h |
| `TfrtCpu.ByCoreIdMember` | tensorflow/compiler/xla/pjrt/tfrt_cpu_pjrt_client.h:194 | rearranging by core id keeps exactly the same devices |
| `TfrtCpu.AddressableByCoreId` | tensorflow/compiler/xla/pjrt/tfrt_cpu_pjrt_client.h:188-195 | the addressable list has one entry per device of the process, entry h has local hardware id h, and a device is listed exactly when it is in the list and in the client's process |
| `TfrtCpu.TfrtCpuClient.constructor` | tensorflow/compiler/xla/pjrt/tfrt_cpu_pjrt_client.h:93-95 | the new client satisfies the registry invariant: all devices in the given order, each mapped under its own id, each pointing back at this client, and the addressable devices indexed by core id; requires distinct ids, addressable core ids within the list's bounds, and devices without a client |
| `TfrtCpu.IndexById` | tensorflow/compiler/xla/pjrt/tfrt_cpu_pjrt_client.h:192-193 | the map built holds exactly the ids of the devices, each mapped to a device carrying that id |
| `TfrtCpu.TfrtCpuClient.AttachAll` | tensorflow/compiler/xla/pjrt/tfrt_cpu_pjrt_client.h:48-57 | every device now points at this client, and the result is, in discovery order, the devices of this client's process |
| `TfrtCpu.TfrtCpuClient.DeviceCount` | tensorflow/compiler/xla/pjrt/tfrt_cpu_pjrt_client.h:99 | the device count equals the number of distinct ids in the id-to-device map |
| `TfrtCpu.TfrtCpuClient.AddressableDeviceCount` | tensorflow/compiler/xla/pjrt/tfrt_cpu_pjrt_client.h:101-103 | the addressable count is at most the device count: equal to it in process 0, and 0 in any other process |
| `TfrtCpu.TfrtCpuClient.Devices` | tensorflow/compiler/xla/pjrt/tfrt_cpu_pjrt_client.h:105 | the list has `DeviceCount()` entries, and each is what `LookupDevice` returns for its id |
| `TfrtCpu.TfrtCpuClient.AddressableDevices` | tensorflow/compiler/xla/pjrt/tfrt_cpu_pjrt_client.h:107-109 | the list has `AddressableDeviceCount()` entries: every entry is a device of the client that is addressable, and every addressable device is listed |
| `TfrtCpu.TfrtCpuClient.LookupDevice` | tensorflow/compiler/xla/pjrt/tfrt_cpu_pjrt_client.h:111 | succeeds exactly when some device has the id, returning a device of the client with that id; otherwise returns `NotFound(id)` |
| `TfrtCpu.TfrtCpuClient.LookupAddressableDevice` | tensorflow/compiler/xla/pjrt/tfrt_cpu_pjrt_client.h:113-114 | returns only an addressable device with the local hardware id, the same one `LookupDevice` returns; fails with `NotFound(id)` exactly when no addressable device has that id |
| `TfrtCpu.TfrtCpuClient.CreateUninitializedBuffer` | tensorflow/compiler/xla/pjrt/tfrt_cpu_pjrt_client.h:135-138 | always the Unimplemented error "CreateUninitializedBuffer"; no state changes |
| `TfrtCpu.TfrtCpuClient.BufferFromHostBuffer` | tensorflow/compiler/xla/pjrt/tfrt_cpu_pjrt_client.h:140-146 | always the Unimplemented error "BufferFromHostBuffer"; no state changes |
| `TfrtCpu.TfrtCpuClient.BufferFromHostLiteral` | tensorflow/compiler/xla/pjrt/tfrt_cpu_pjrt_client.h:148-151 | always the Unimplemented error "BufferFromHostLiteral"; no state changes |
| `TfrtCpu.TfrtCpuClient.CreateViewOfDeviceBuffer` | tensorflow/compiler/xla/pjrt/tfrt_cpu_pjrt_client.h:159-163 | always its Unimplemented error; no state changes |
| `TfrtCpu.TfrtCpuClient.CreateChannelHandle` | tensorflow/compiler/xla/pjrt/tfrt_cpu_pjrt_client.h:165-167 | always its Unimplemented error; no state changes |
| `TfrtCpu.TfrtCpuClient.CreateDeviceToHostChannelHandle` | tensorflow/compiler/xla/pjrt/tfrt_cpu_pjrt_client.h:168-170 | always its Unimplemented error; no state changes |
| `TfrtCpu.TfrtCpuClient.CreateHostToDeviceChannelHandle` | tensorflow/compiler/xla/pjrt/tfrt_cpu_pjrt_client.h:171-173 | always its Unimplemented error; no state changes |
| `TfrtCpu.TfrtCpuClient.Defragment` | tensorflow/compiler/xla/pjrt/tfrt_cpu_pjrt_client.h:175-178 | always the error status "Defragment not implemented."; no state changes |
| `TfrtCpu.AllAddressableInProcessZero` | tensorflow/compiler/xla/pjrt/tfrt_cpu_pjrt_client.h:55-61 | on a client in process 0, every device is addressable and the addressable list holds exactly the devices, as many as there are |
| `TfrtCpu.NumberedDevicesInOrder` | tensorflow/compiler/xla/pjrt/tfrt_cpu_pjrt_client.h:188-195 | on a client in process 0 whose devices carry the ids 0, 1, 2, … in order, the addressable list equals the device list |
| `TfrtCpu.NoneAddressableElsewhere` | tensorflow/compiler/xla/pjrt/tfrt_cpu_pjrt_client.h:55-61 | on a client in any other process, the addressable list is empty and every addressable lookup fails with NotFound |
| `TfrtCpu.AddressableIndexedByCoreId` | tensorflow/compiler/xla/pjrt/tfrt_cpu_pjrt_client.h:194-195 | on every client, addressable device i has local hardware id i and is what the addressable lookup of i returns |
| `TfrtCpu.LookupsDisagreeOffProcess` | tensorflow/compiler/xla/pjrt/tfrt_cpu_pjrt_client.h:111-114 | a device that exists but is not addressable is found by `LookupDevice` and not by `LookupAddressableDevice` |
| `TfrtCpuExec.GridIdsAllLocal` | tensorflow/compiler/xla/pjrt/tfrt_cpu_pjrt_client.h:308-314 | when every cell is local, a table of R rows of width P has R * P addressable slots |
| `TfrtCpuExec.GridIdsNoPartitioning` | tensorflow/compiler/xla/pjrt/tfrt_cpu_pjrt_client.h:308-311 | with one partition and every cell local, slot i is (i, 0) |
| `TfrtCpuExec.LocalIdsIff` | tensorflow/compiler/xla/pjrt/tfrt_cpu_pjrt_client.h:55-57 | a registered id is the id of an addressable device exactly when the device it maps to reports itself addressable |
| `TfrtCpuExec.PlaceReplica` | tensorflow/compiler/xla/pjrt/tfrt_cpu_pjrt_client.h:308-319 | for one replica's row: succeeds exactly when every id in the row is registered; then returns the row's addressable slots in partition order, each paired with its assigned addressable device; otherwise returns `NotFound` of the row's first unknown id |
| `TfrtCpuExec.AddressablePlacement` | tensorflow/compiler/xla/pjrt/tfrt_cpu_pjrt_client.h:308-319 | succeeds exactly when the registry knows every id in the assignment. On success: the slots are the addressable cells in replica-then-partition order; device i is the one assigned to slot i; every device is addressable. On failure: `NotFound` of the first unknown id in replica-then-partition order |
| `TfrtCpuExec.SingleHostSlotCount` | tensorflow/compiler/xla/pjrt/tfrt_cpu_pjrt_client.h:308-314 | on a single host (process 0, every id known), the slot count is num_replicas * num_partitions, and without partitioning slot i is (i, 0) |
| `TfrtCpuExec.PositionsMember` | tensorflow/compiler/xla/pjrt/tfrt_cpu_pjrt_client.h:304-306 | a parameter is in the donation set exactly when the aliasing analysis reported it |
| `TfrtCpuExec.ExecutableSlotCount` | tensorflow/compiler/xla/pjrt/tfrt_cpu_pjrt_client.h:308-314 | an executable of a process-0 client runs num_replicas * num_partitions slots on as many devices, and without partitioning slot i is (i, 0) |
| `TfrtCpuExec.DonateAliasedParameter` | tensorflow/compiler/xla/pjrt/tfrt_cpu_pjrt_client.h:275-277 | after the donation set-up with only parameter 2 aliased, the executable must donate parameter 2 and need not donate parameter 0 |
| `TfrtCpuExec.DonationExamples` | tensorflow/compiler/xla/pjrt/tfrt_cpu_pjrt_client.h:304-306 | if nothing is aliased, no parameter must be donated; if only parameter 2 is aliased, parameter 2 must be donated and parameter 0 need not be |
| `TfrtCpuExec.TfrtCpuExecutable.constructor` | tensorflow/compiler/xla/pjrt/tfrt_cpu_pjrt_client.h:206-214 | stores every argument and starts with an empty donation set. Requires what the invariant states: the counts are the assignment's shape, every id in it is registered, the slot vector is the client's addressable cells in replica-then-partition order, and device i is the addressable device assigned to slot i |
| `TfrtCpuExec.TfrtCpuExecutable.AddressableDevices` | tensorflow/compiler/xla/pjrt/tfrt_cpu_pjrt_client.h:241-243 | as long as the logical-id vector; entry i is the device the assignment gives slot i, and it is an addressable device of the client |
| `TfrtCpuExec.TfrtCpuExecutable.SetUpDonation` | tensorflow/compiler/xla/pjrt/tfrt_cpu_pjrt_client.h:276-278 | afterwards `MustDonateParameter(p)` holds exactly for the reported aliased positions p; no other field changes |
| `TfrtCpuExec.TfrtCpuExecutable.MustDonateParameter` | tensorflow/compiler/xla/pjrt/tfrt_cpu_pjrt_client.h:277 | holds exactly for the parameters in the donation set |
| `TfrtCpuExec.TfrtCpuExecutable.Execute` | tensorflow/compiler/xla/pjrt/tfrt_cpu_pjrt_client.h:251-255 | always the Unimplemented error "Execute not implemented."; no state changes |
| `TfrtCpuExec.TfrtCpuExecutable.ExecuteSharded` | tensorflow/compiler/xla/pjrt/tfrt_cpu_pjrt_client.h:257-261 | always its Unimplemented error; no state changes |
| `TfrtCpuExec.TfrtCpuExecutable.ExecutePortable` | tensorflow/compiler/xla/pjrt/tfrt_cpu_pjrt_client.h:263-267 | always its Unimplemented error; no state changes |
| `TfrtCpuExec.TfrtCpuExecutable.ExecuteHelper` | tensorflow/compiler/xla/pjrt/tfrt_cpu_pjrt_client.h:280-285 | always its Unimplemented error; no state changes |

## Left out

- The admission-control semaphore (lines 74-86) is left out. Its implementation is in `semaphore.h`, which is not part of this model. The device constructor's `asynchronous` flag is accepted and ignored: what the device does with it is not visible in this header.
- `GetDefaultDeviceAssignment` (lines 124-125) is left out. It delegates to a computation placer that is not part of this model, and the model does not invent a placement policy.
- `Compile`, `GetHloCostAnalysis`, `ExecutableFingerprint`, `Fingerprint` and `platform_id` are left out. They are foreign compiler calls or a hash.
- `platform_name` and `platform_version` are left out. They are constant strings, and `platform_name`'s constant is defined outside this header.
- `TransferToInfeed` and `TransferFromOutfeed` are left out because they are I/O. `DebugString` and `device_kind` are left out because they have no body here.
- `MakeCrossHostReceiveBuffers` (lines 153-157) is left out. It ends the process with a fatal log. A member with an unsatisfiable precondition would be one nobody can call.
- The host context, the Eigen thread pool and its device (lines 180-184, 196-201) are left out. They are threading plumbing.
- The executable's `name`, `SizeOfGeneratedCodeInBytes` and `GetHloModules` are left out. They read the foreign compiled module.
- `Delete` is left out, and so are the shared-pointer lifetimes of the device assignment and the compiled executable. They are ownership and concurrency concerns whose logic is not visible in this header.
- `GetTfrtCpuClient` (line 322) is left out. Its body is not in this header, so the model does not assume how it numbers the devices.
- The plain accessors `client()`, `num_replicas()`, `num_partitions()`, `device_assignment()` and `addressable_device_logical_ids()` are not separate members. The model reads the corresponding fields directly.
- TfrtCpuExecutable.SetUpDonation: the model takes the list of aliased parameter positions as an input. How the compiler's aliasing metadata yields them is foreign code and is not modelled, including the effect of `tuple_inputs`. The `Status` it returns is not modelled either, because its failure cases come from that foreign code.
- The result buffer indices are stored by the constructor but not derived. They come from the foreign buffer assignment.
- Arguments that this layer never reads (host data pointers, literals, callbacks, executables to defragment) are dropped or replaced by placeholder value types.
- The C++ `int` width of ids and counts is not modelled as a bounded type. Device counts are far below 2^31.
- The two lookups' error code is not visible in the header, because only their declarations are there. The model reports `NotFound` with the id that was looked up.
- TfrtCpu.TfrtCpuClient.constructor: the header does not show how the addressable list is filled. The model computes it as a value (`ByCoreId`) after the attach loop, not slot by slot.
