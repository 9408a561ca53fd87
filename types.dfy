/** Plain values that the CPU client passes around. The argument types of the
    unsupported operations (shapes, buffers, channel handles, execute options) are
    placeholders: nothing in this layer looks inside them. */
module PjrtTypes {

  datatype Shape = Shape(dimensions: seq<int>)

  datatype Buffer = Buffer(shape: Shape, deviceId: int)

  datatype ChannelHandle = ChannelHandle(handle: int)

  datatype ExecuteOptions = ExecuteOptions(untupleResult: bool)

  datatype RunId = RunId(id: int)

  /** One (replica, partition) slot of a device assignment. */
  datatype LogicalDeviceIds = LogicalDeviceIds(replica: int, partition: int)

  /** A replica-by-computation table of device ids: cells[r][p] is the id of the device
      that runs partition p of replica r. */
  datatype DeviceAssignment = DeviceAssignment(replicaCount: nat, computationCount: nat, cells: seq<seq<int>>)
  {
    /** The table really has the shape its counts announce. */
    ghost predicate Wf() {
      |cells| == replicaCount &&
      forall r :: 0 <= r < |cells| ==> |cells[r]| == computationCount
    }

    /** The slot names a cell of the table. */
    predicate Contains(ids: LogicalDeviceIds) {
      0 <= ids.replica < |cells| && 0 <= ids.partition < |cells[ids.replica]|
    }

    /** The device id assigned to a slot. */
    function DeviceAt(ids: LogicalDeviceIds): int
      requires Contains(ids)
    {
      cells[ids.replica][ids.partition]
    }
  }
}
