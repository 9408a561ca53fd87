/** The CPU executable's bookkeeping: which (replica, partition) slots this process runs
    and on which devices, which parameters must be donated, and the execute entry points. */
module TfrtCpuExec {
  import opened PjrtStatus
  import opened PjrtTypes
  import opened TfrtCpu

  // ---------------------------------------------------------------------------
  // Addressable slots of a device assignment

  /** The slots (replica, p) of one row whose device is local, in partition order. */
  function RowIds(row: seq<int>, replica: int, local: set<int>): seq<LogicalDeviceIds>
    decreases |row|
  {
    if row == [] then []
    else
      RowIds(row[..|row| - 1], replica, local) +
      (if row[|row| - 1] in local then [LogicalDeviceIds(replica, |row| - 1)] else [])
  }

  /** The slots of the whole table whose device is local, replica by replica. */
  function GridIds(cells: seq<seq<int>>, local: set<int>): seq<LogicalDeviceIds>
    decreases |cells|
  {
    if cells == [] then []
    else GridIds(cells[..|cells| - 1], local) + RowIds(cells[|cells| - 1], |cells| - 1, local)
  }

  /** Every device id in the table is known to the registry. */
  ghost predicate AllKnown(cells: seq<seq<int>>, known: set<int>) {
    forall r, p :: 0 <= r < |cells| && 0 <= p < |cells[r]| ==> cells[r][p] in known
  }

  /** Cell p is the first cell of the row whose id the registry does not know. */
  ghost predicate FirstUnknownInRow(row: seq<int>, known: set<int>, p: int) {
    0 <= p < |row| && row[p] !in known && forall q :: 0 <= q < p ==> row[q] in known
  }

  /** Cell (r, p) is the first unknown cell of the table, replica by replica and within a
      replica partition by partition. */
  ghost predicate FirstUnknownCell(cells: seq<seq<int>>, known: set<int>, r: int, p: int) {
    0 <= r < |cells| && AllKnown(cells[..r], known) && FirstUnknownInRow(cells[r], known, p)
  }

  /** The parallel vectors agree: devices[i] is the device assigned to slot ids[i]. */
  ghost predicate Assigned(da: DeviceAssignment, ids: seq<LogicalDeviceIds>, devices: seq<TfrtCpuDevice>) {
    |ids| == |devices| &&
    forall i :: 0 <= i < |ids| ==> da.Contains(ids[i]) && devices[i].id == da.DeviceAt(ids[i])
  }

  /** The ids of the client's addressable devices. */
  function LocalIds(c: TfrtCpuClient): set<int>
    reads c
  {
    DeviceIds(c.addressableDevices)
  }

  lemma {:induction false} RowIdsLength(row: seq<int>, replica: int, local: set<int>)
    requires forall p :: 0 <= p < |row| ==> row[p] in local
    ensures RowIds(row, replica, local) == seq(|row|, p => LogicalDeviceIds(replica, p))
    decreases |row|
  {
    if row != [] {
      RowIdsLength(row[..|row| - 1], replica, local);
    }
  }

  /** On a single host, where every device is local, a table of R replicas and P
      partitions has R * P addressable slots. */
  lemma {:induction false} GridIdsAllLocal(cells: seq<seq<int>>, width: nat, local: set<int>)
    requires forall r :: 0 <= r < |cells| ==> |cells[r]| == width
    requires AllKnown(cells, local)
    ensures |GridIds(cells, local)| == |cells| * width
    decreases |cells|
  {
    if cells != [] {
      var n := |cells| - 1;
      GridIdsAllLocal(cells[..n], width, local);
      RowIdsLength(cells[n], n, local);
      assert n * width + width == |cells| * width;
    }
  }

  /** Without partitioning on a single host, slot i is (i, 0). */
  lemma {:induction false} GridIdsNoPartitioning(cells: seq<seq<int>>, local: set<int>)
    requires forall r :: 0 <= r < |cells| ==> |cells[r]| == 1
    requires AllKnown(cells, local)
    ensures GridIds(cells, local) == seq(|cells|, i => LogicalDeviceIds(i, 0))
    decreases |cells|
  {
    if cells != [] {
      var n := |cells| - 1;
      GridIdsNoPartitioning(cells[..n], local);
      RowIdsLength(cells[n], n, local);
    }
  }

  /** A known id is a local one exactly when its device is addressable. */
  lemma LocalIdsIff(c: TfrtCpuClient, deviceId: int)
    requires c.Valid() && deviceId in c.idToDevice
    ensures deviceId in LocalIds(c) <==> c.idToDevice[deviceId].IsAddressable()
  {
    AddressableSubsetAllOrNothing(c.devices, c.processIndex);
    DeviceIdsMember(c.addressableDevices, deviceId);
    if c.processIndex == 0 {
      var d := c.idToDevice[deviceId];
      assert d in c.addressableDevices;
      var i :| 0 <= i < |c.addressableDevices| && c.addressableDevices[i] == d;
    }
  }

  /** What resolving one registered id tells about its device. */
  lemma RegisteredDevice(c: TfrtCpuClient, deviceId: int)
    requires c.Valid() && deviceId in c.idToDevice
    ensures c.idToDevice[deviceId] in c.devices && c.idToDevice[deviceId].id == deviceId
    ensures c.idToDevice[deviceId].IsAddressable() <==> deviceId in LocalIds(c)
    ensures c.idToDevice[deviceId].IsAddressable() ==> c.idToDevice[deviceId] in c.addressableDevices
  {
    LocalIdsIff(c, deviceId);
  }

  /** The result of filtering a device assignment: the two parallel vectors. */
  datatype Placement = Placement(logicalIds: seq<LogicalDeviceIds>, devices: seq<TfrtCpuDevice>)

  /** Concatenating two agreeing pairs of vectors gives an agreeing pair. */
  lemma AssignedAppend(da: DeviceAssignment, ids1: seq<LogicalDeviceIds>, devs1: seq<TfrtCpuDevice>,
                       ids2: seq<LogicalDeviceIds>, devs2: seq<TfrtCpuDevice>)
    requires Assigned(da, ids1, devs1) && Assigned(da, ids2, devs2)
    ensures Assigned(da, ids1 + ids2, devs1 + devs2)
  {
    forall i | 0 <= i < |ids1| + |ids2|
      ensures da.Contains((ids1 + ids2)[i]) && (devs1 + devs2)[i].id == da.DeviceAt((ids1 + ids2)[i])
    {
      if i >= |ids1| {
        assert (ids1 + ids2)[i] == ids2[i - |ids1|] && (devs1 + devs2)[i] == devs2[i - |ids1|];
      }
    }
  }

  /** Every device in the sequence is an addressable device of the client. */
  ghost predicate AllAddressable(c: TfrtCpuClient, devs: seq<TfrtCpuDevice>)
    reads c, c.ownedDevices
    requires c.Valid()
  {
    forall i :: 0 <= i < |devs| ==> devs[i] in c.addressableDevices && devs[i] in c.devices && devs[i].IsAddressable()
  }

  /** One more cell extends the row's slots by that cell's slot when its device is local. */
  lemma RowStep(row: seq<int>, replica: int, local: set<int>, n: nat)
    requires n < |row|
    ensures RowIds(row[..n + 1], replica, local) ==
            RowIds(row[..n], replica, local) + (if row[n] in local then [LogicalDeviceIds(replica, n)] else [])
  {
    assert row[..n + 1][..n] == row[..n];
  }

  /** The first n cells of the replica's row are registered, and (ids, devs) is their
      placement: the addressable slots in partition order with their assigned devices. */
  ghost predicate RowPlaced(c: TfrtCpuClient, da: DeviceAssignment, replica: nat, n: nat,
                            ids: seq<LogicalDeviceIds>, devs: seq<TfrtCpuDevice>)
    reads c, c.ownedDevices
    requires c.Valid() && da.Wf() && replica < da.replicaCount && n <= da.computationCount
  {
    (forall p :: 0 <= p < n ==> da.cells[replica][p] in c.idToDevice) &&
    ids == RowIds(da.cells[replica][..n], replica, LocalIds(c)) &&
    Assigned(da, ids, devs) && AllAddressable(c, devs)
  }

  /** Resolving one more registered cell of a row keeps the slots and devices in step. */
  lemma PlaceCell(c: TfrtCpuClient, da: DeviceAssignment, replica: nat, partition: nat,
                  ids: seq<LogicalDeviceIds>, devs: seq<TfrtCpuDevice>)
    requires c.Valid() && da.Wf() && replica < da.replicaCount && partition < da.computationCount
    requires da.cells[replica][partition] in c.idToDevice
    requires RowPlaced(c, da, replica, partition, ids, devs)
    ensures c.LookupDevice(da.cells[replica][partition]) == Ok(c.idToDevice[da.cells[replica][partition]])
    ensures var d := c.idToDevice[da.cells[replica][partition]];
            if d.IsAddressable() then
              RowPlaced(c, da, replica, partition + 1, ids + [LogicalDeviceIds(replica, partition)], devs + [d])
            else
              RowPlaced(c, da, replica, partition + 1, ids, devs)
  {
    var row := da.cells[replica];
    var d := c.idToDevice[row[partition]];
    var slot := LogicalDeviceIds(replica, partition);
    RegisteredDevice(c, row[partition]);
    RowStep(row, replica, LocalIds(c), partition);
    if d.IsAddressable() {
      assert Assigned(da, [slot], [d]);
      AssignedAppend(da, ids, devs, [slot], [d]);
    }
  }

  /** Resolves the cells of one replica's row, partition by partition, keeping the slots
      whose device is addressable. An unknown id fails with the lookup's NotFound error. */
  method PlaceReplica(c: TfrtCpuClient, da: DeviceAssignment, replica: nat) returns (r: StatusOr<Placement>)
    requires c.Valid() && da.Wf() && replica < da.replicaCount
    ensures r.Ok? <==> forall p :: 0 <= p < |da.cells[replica]| ==> da.cells[replica][p] in c.idToDevice
    ensures r.Ok? ==> r.value.logicalIds == RowIds(da.cells[replica], replica, LocalIds(c))
    ensures r.Ok? ==> Assigned(da, r.value.logicalIds, r.value.devices) && AllAddressable(c, r.value.devices)
    ensures r.Err? ==> r.error.NotFound?
    ensures r.Err? ==> exists p :: FirstUnknownInRow(da.cells[replica], c.idToDevice.Keys, p) &&
                                   da.cells[replica][p] == r.error.deviceId
  {
    var row := da.cells[replica];
    assert |row| == da.computationCount;
    var ids: seq<LogicalDeviceIds> := [];
    var devs: seq<TfrtCpuDevice> := [];
    var partition := 0;
    while partition < |row|
      invariant 0 <= partition <= |row|
      invariant RowPlaced(c, da, replica, partition, ids, devs)
    {
      var lookup := c.LookupDevice(row[partition]);
      if lookup.Err? {
        assert FirstUnknownInRow(row, c.idToDevice.Keys, partition);
        return Err(lookup.error);
      }
      PlaceCell(c, da, replica, partition, ids, devs);
      var device := lookup.value;
      if device.IsAddressable() {
        ids := ids + [LogicalDeviceIds(replica, partition)];
        devs := devs + [device];
      }
      partition := partition + 1;
    }
    assert row[..partition] == row;
    return Ok(Placement(ids, devs));
  }

  /** The first n rows of the assignment are fully registered, and (ids, devs) is their
      placement: the addressable slots in replica-then-partition order with their devices. */
  ghost predicate GridPlaced(c: TfrtCpuClient, da: DeviceAssignment, n: nat,
                             ids: seq<LogicalDeviceIds>, devs: seq<TfrtCpuDevice>)
    reads c, c.ownedDevices
    requires c.Valid() && n <= |da.cells|
  {
    AllKnown(da.cells[..n], c.idToDevice.Keys) &&
    ids == GridIds(da.cells[..n], LocalIds(c)) &&
    Assigned(da, ids, devs) && AllAddressable(c, devs)
  }

  /** Appending the placement of one more fully registered row extends the placement. */
  lemma GridStep(c: TfrtCpuClient, da: DeviceAssignment, n: nat, ids: seq<LogicalDeviceIds>, devs: seq<TfrtCpuDevice>,
                 rowIds: seq<LogicalDeviceIds>, rowDevs: seq<TfrtCpuDevice>)
    requires c.Valid() && n < |da.cells| && GridPlaced(c, da, n, ids, devs)
    requires forall p :: 0 <= p < |da.cells[n]| ==> da.cells[n][p] in c.idToDevice
    requires rowIds == RowIds(da.cells[n], n, LocalIds(c))
    requires Assigned(da, rowIds, rowDevs) && AllAddressable(c, rowDevs)
    ensures GridPlaced(c, da, n + 1, ids + rowIds, devs + rowDevs)
  {
    var cells := da.cells;
    assert cells[..n + 1][..n] == cells[..n];
    assert cells[..n + 1] == cells[..n] + [cells[n]];
    AssignedAppend(da, ids, devs, rowIds, rowDevs);
  }

  /** Walks the assignment replica by replica, resolving each cell through the client's
      registry and keeping the slots whose device is addressable. An id the registry does
      not know fails the walk with the lookup's NotFound error. */
  method AddressablePlacement(c: TfrtCpuClient, da: DeviceAssignment) returns (r: StatusOr<Placement>)
    requires c.Valid() && da.Wf()
    ensures r.Ok? <==> AllKnown(da.cells, c.idToDevice.Keys)
    ensures r.Ok? ==> r.value.logicalIds == GridIds(da.cells, LocalIds(c))
    ensures r.Ok? ==> Assigned(da, r.value.logicalIds, r.value.devices)
    ensures r.Ok? ==> forall i :: 0 <= i < |r.value.devices| ==>
                        r.value.devices[i] in c.addressableDevices && r.value.devices[i] in c.devices &&
                        r.value.devices[i].IsAddressable()
    ensures r.Err? ==> r.error.NotFound?
    ensures r.Err? ==> exists rr, p :: FirstUnknownCell(da.cells, c.idToDevice.Keys, rr, p) &&
                                       da.cells[rr][p] == r.error.deviceId
  {
    var ids: seq<LogicalDeviceIds> := [];
    var devs: seq<TfrtCpuDevice> := [];
    var replica := 0;
    while replica < da.replicaCount
      invariant 0 <= replica <= da.replicaCount
      invariant GridPlaced(c, da, replica, ids, devs)
    {
      var row := PlaceReplica(c, da, replica);
      if row.Err? {
        ghost var p :| FirstUnknownInRow(da.cells[replica], c.idToDevice.Keys, p) &&
                 da.cells[replica][p] == row.error.deviceId;
        assert FirstUnknownCell(da.cells, c.idToDevice.Keys, replica, p);
        return Err(row.error);
      }
      GridStep(c, da, replica, ids, devs, row.value.logicalIds, row.value.devices);
      ids := ids + row.value.logicalIds;
      devs := devs + row.value.devices;
      replica := replica + 1;
    }
    assert da.cells[..replica] == da.cells;
    return Ok(Placement(ids, devs));
  }

  /** A single-host client (process 0) that knows every device of the assignment runs
      all replicas * partitions slots. */
  lemma SingleHostSlotCount(c: TfrtCpuClient, da: DeviceAssignment)
    requires c.Valid() && c.processIndex == 0 && da.Wf()
    requires AllKnown(da.cells, c.idToDevice.Keys)
    ensures |GridIds(da.cells, LocalIds(c))| == da.replicaCount * da.computationCount
    ensures da.computationCount == 1 ==>
              GridIds(da.cells, LocalIds(c)) == seq(da.replicaCount, i => LogicalDeviceIds(i, 0))
  {
    forall k | k in c.idToDevice.Keys ensures k in LocalIds(c) {
      AllAddressableInProcessZero(c);
      LocalIdsIff(c, k);
    }
    GridIdsAllLocal(da.cells, da.computationCount, LocalIds(c));
    if da.computationCount == 1 {
      GridIdsNoPartitioning(da.cells, LocalIds(c));
    }
  }

  // ---------------------------------------------------------------------------
  // Donation

  /** The parameter positions in a list reported by the aliasing analysis. */
  function Positions(aliased: seq<int>): set<int>
    decreases |aliased|
  {
    if aliased == [] then {} else Positions(aliased[..|aliased| - 1]) + {aliased[|aliased| - 1]}
  }

  /** A position is in the set exactly when the analysis reported it. */
  lemma {:induction false} PositionsMember(aliased: seq<int>, p: int)
    ensures p in Positions(aliased) <==> exists i :: 0 <= i < |aliased| && aliased[i] == p
    decreases |aliased|
  {
    if aliased != [] {
      var init := aliased[..|aliased| - 1];
      PositionsMember(init, p);
      if p in Positions(init) {
        var i :| 0 <= i < |init| && init[i] == p;
        assert aliased[i] == p;
      }
      if exists i :: 0 <= i < |aliased| && aliased[i] == p {
        var i :| 0 <= i < |aliased| && aliased[i] == p;
        if i < |init| { assert init[i] == p; }
      }
    }
  }

  // ---------------------------------------------------------------------------
  // The executable

  class TfrtCpuExecutable {
    const client: TfrtCpuClient
    const numReplicas: int
    const numPartitions: int
    const deviceAssignment: DeviceAssignment
    const parameterIsTupledArguments: bool
    /** Allocation index of the root result buffer. */
    const resultBufferIndex: int
    /** Allocation indices of the result's leaf buffers. */
    const resultBufferIndices: seq<int>
    /** Parameters aliased with some output, which must be donated when executing. */
    var parametersThatMustBeDonated: set<int>
    /** The slots of the assignment this process runs. */
    const addressableDeviceLogicalIds: seq<LogicalDeviceIds>
    /** addressableDevices[i] is the device slot addressableDeviceLogicalIds[i] is assigned to. */
    const addressableDevices: seq<TfrtCpuDevice>

    /** The executable runs the slots of its assignment that its client can address, in
        replica-then-partition order, each on the device the assignment names for it. The
        assignment has the announced shape and every device id in it is registered, as the
        placement requires before an executable is built. */
    ghost predicate Valid()
      reads client, client.ownedDevices
    {
      client.Valid() && deviceAssignment.Wf() &&
      numReplicas == deviceAssignment.replicaCount && numPartitions == deviceAssignment.computationCount &&
      AllKnown(deviceAssignment.cells, client.idToDevice.Keys) &&
      addressableDeviceLogicalIds == GridIds(deviceAssignment.cells, LocalIds(client)) &&
      Assigned(deviceAssignment, addressableDeviceLogicalIds, addressableDevices) &&
      AllAddressable(client, addressableDevices)
    }

    /** The caller supplies the placement of the assignment on the client (what
        `AddressablePlacement` computes). No parameter is marked for donation until
        `SetUpDonation` runs. */
    constructor (numReplicas: int, numPartitions: int, deviceAssignment: DeviceAssignment,
                 parameterIsTupledArguments: bool, resultBufferIndex: int, resultBufferIndices: seq<int>,
                 addressableDeviceLogicalIds: seq<LogicalDeviceIds>, addressableDevices: seq<TfrtCpuDevice>,
                 client: TfrtCpuClient)
      requires client.Valid() && deviceAssignment.Wf()
      requires numReplicas == deviceAssignment.replicaCount && numPartitions == deviceAssignment.computationCount
      requires AllKnown(deviceAssignment.cells, client.idToDevice.Keys)
      requires addressableDeviceLogicalIds == GridIds(deviceAssignment.cells, LocalIds(client))
      requires Assigned(deviceAssignment, addressableDeviceLogicalIds, addressableDevices)
      requires AllAddressable(client, addressableDevices)
      ensures Valid()
      ensures this.client == client && this.numReplicas == numReplicas && this.numPartitions == numPartitions
      ensures this.deviceAssignment == deviceAssignment
      ensures this.parameterIsTupledArguments == parameterIsTupledArguments
      ensures this.resultBufferIndex == resultBufferIndex && this.resultBufferIndices == resultBufferIndices
      ensures this.addressableDeviceLogicalIds == addressableDeviceLogicalIds
      ensures this.addressableDevices == addressableDevices
      ensures parametersThatMustBeDonated == {}
    {
      this.client := client;
      this.numReplicas := numReplicas;
      this.numPartitions := numPartitions;
      this.deviceAssignment := deviceAssignment;
      this.parameterIsTupledArguments := parameterIsTupledArguments;
      this.resultBufferIndex := resultBufferIndex;
      this.resultBufferIndices := resultBufferIndices;
      this.addressableDeviceLogicalIds := addressableDeviceLogicalIds;
      this.addressableDevices := addressableDevices;
      parametersThatMustBeDonated := {};
    }

    /** The executable's devices; the i-th runs the i-th addressable slot. */
    function AddressableDevices(): (s: seq<TfrtCpuDevice>)
      reads client, client.ownedDevices
      requires Valid()
      ensures |s| == |addressableDeviceLogicalIds|
      ensures forall i :: 0 <= i < |s| ==>
                deviceAssignment.Contains(addressableDeviceLogicalIds[i]) &&
                s[i].id == deviceAssignment.DeviceAt(addressableDeviceLogicalIds[i])
      ensures forall i :: 0 <= i < |s| ==> s[i] in client.addressableDevices && s[i].IsAddressable()
    {
      addressableDevices
    }

    /** Records the parameter positions that the aliasing analysis reported as aliased
        with an output; nothing else about the executable changes. */
    method SetUpDonation(tupleInputs: bool, aliased: seq<int>)
      modifies this`parametersThatMustBeDonated
      ensures parametersThatMustBeDonated == Positions(aliased)
      ensures forall p :: MustDonateParameter(p) <==> exists i :: 0 <= i < |aliased| && aliased[i] == p
    {
      parametersThatMustBeDonated := {};
      var i := 0;
      while i < |aliased|
        invariant 0 <= i <= |aliased|
        invariant parametersThatMustBeDonated == Positions(aliased[..i])
      {
        assert aliased[..i + 1][..i] == aliased[..i];
        parametersThatMustBeDonated := parametersThatMustBeDonated + {aliased[i]};
        i := i + 1;
      }
      assert aliased[..i] == aliased;
      forall p ensures MustDonateParameter(p) <==> exists i :: 0 <= i < |aliased| && aliased[i] == p {
        PositionsMember(aliased, p);
      }
    }

    /** Whether the buffer for this parameter must be donated. */
    predicate MustDonateParameter(parameter: int)
      reads this
    {
      parameter in parametersThatMustBeDonated
    }

    // The execute entry points are stubs: each fails on every call and changes nothing.

    method Execute(argumentHandles: seq<seq<Buffer>>, options: ExecuteOptions)
      returns (r: StatusOr<seq<seq<Buffer>>>)
      ensures r == Err(Unimplemented("Execute not implemented."))
    {
      r := Err(Unimplemented("Execute not implemented."));
    }

    method ExecuteSharded(argumentHandles: seq<Buffer>, device: TfrtCpuDevice, options: ExecuteOptions)
      returns (r: StatusOr<seq<Buffer>>)
      ensures r == Err(Unimplemented("ExecuteSharded not implemented."))
    {
      r := Err(Unimplemented("ExecuteSharded not implemented."));
    }

    method ExecutePortable(argumentHandles: seq<Buffer>, device: TfrtCpuDevice, options: ExecuteOptions)
      returns (r: StatusOr<seq<Buffer>>)
      ensures r == Err(Unimplemented("ExecutePortable not implemented."))
    {
      r := Err(Unimplemented("ExecutePortable not implemented."));
    }

    /** `device` may be absent, as the source's defaulted null pointer. */
    method ExecuteHelper(argumentHandles: seq<Buffer>, replica: int, partition: int, runId: RunId,
                         options: ExecuteOptions, device: TfrtCpuDevice?)
      returns (r: StatusOr<seq<Buffer>>)
      ensures r == Err(Unimplemented("ExecuteHelper not implemented."))
    {
      r := Err(Unimplemented("ExecuteHelper not implemented."));
    }
  }

  /** An executable of a single-host client (process 0) runs all replicas * partitions
      slots, and without partitioning slot i is (i, 0). */
  lemma ExecutableSlotCount(e: TfrtCpuExecutable)
    requires e.Valid() && e.client.processIndex == 0
    ensures |e.addressableDeviceLogicalIds| == e.numReplicas * e.numPartitions
    ensures |e.AddressableDevices()| == e.numReplicas * e.numPartitions
    ensures e.numPartitions == 1 ==>
              forall i :: 0 <= i < |e.addressableDeviceLogicalIds| ==>
                e.addressableDeviceLogicalIds[i] == LogicalDeviceIds(i, 0)
  {
    SingleHostSlotCount(e.client, e.deviceAssignment);
  }

  /** Parameter 2 aliased to the sole result: after the donation set-up the executable must
      donate parameter 2 and need not donate parameter 0. */
  method DonateAliasedParameter(e: TfrtCpuExecutable)
    modifies e`parametersThatMustBeDonated
    ensures e.MustDonateParameter(2) && !e.MustDonateParameter(0)
  {
    e.SetUpDonation(false, [2]);
    assert [2][0] == 2;
  }

  /** No aliasing: no parameter must be donated. Parameter 2 aliased to the sole result:
      parameter 2 must be donated and parameter 0 need not be. */
  lemma DonationExamples()
    ensures forall p :: p !in Positions([])
    ensures 2 in Positions([2]) && 0 !in Positions([2])
  {
  }
}
