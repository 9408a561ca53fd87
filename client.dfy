/** The CPU PjRt device and client: a registry of devices, each of which points back
    to the client that owns it once the client has been built. */
module TfrtCpu {
  import opened PjrtStatus
  import opened PjrtTypes

  /** One CPU device. Its id never changes; its client pointer is set exactly once. */
  class TfrtCpuDevice {
    const id: int
    var client: TfrtCpuClient?

    /** The `asynchronous` flag is accepted and ignored: what the device does with it is
        not visible in the header. */
    constructor (id: int, asynchronous: bool)
      ensures this.id == id && client == null
    {
      this.id := id;
      client := null;
    }

    /** Attaches the device to its client; a device that already has one is a caller error. */
    method SetClient(c: TfrtCpuClient)
      requires client == null
      modifies this`client
      ensures client == c
    {
      client := c;
    }

    /** Every CPU device lives in process 0, whatever its id or client. */
    function ProcessIndex(): (p: int)
      ensures p == 0
    {
      0
    }

    /** The device ordinal, which for CPU devices is the id. */
    function LocalHardwareId(): (h: int)
      ensures h == id
    {
      id
    }

    /** The device is addressable from its client's process, so exactly when that client
        runs in process 0. Needs the client to be set. */
    predicate IsAddressable()
      reads this
      requires client != null
      ensures IsAddressable() <==> client.processIndex == 0
    {
      ProcessIndex() == client.processIndex
    }
  }

  // ---------------------------------------------------------------------------
  // Sequences of devices

  /** No two devices of the sequence share an id (and so no device occurs twice). */
  ghost predicate DistinctIds(ds: seq<TfrtCpuDevice>) {
    forall i, j :: 0 <= i < j < |ds| ==> ds[i].id != ds[j].id
  }

  /** The ids of the devices. */
  function DeviceIds(ds: seq<TfrtCpuDevice>): set<int>
    decreases |ds|
  {
    if ds == [] then {} else DeviceIds(ds[..|ds| - 1]) + {ds[|ds| - 1].id}
  }

  /** The devices whose process index is the given one, in their original order. */
  function AddressableSubset(ds: seq<TfrtCpuDevice>, processIndex: int): seq<TfrtCpuDevice>
    decreases |ds|
  {
    if ds == [] then []
    else
      AddressableSubset(ds[..|ds| - 1], processIndex) +
      (if ds[|ds| - 1].ProcessIndex() == processIndex then [ds[|ds| - 1]] else [])
  }

  /** The first position of a device with the given local hardware id. */
  function IndexOfLocalHardwareId(ds: seq<TfrtCpuDevice>, h: int): (r: Option<nat>)
    ensures r.Some? ==> r.value < |ds| && ds[r.value].LocalHardwareId() == h
    ensures r.Some? ==> forall j :: 0 <= j < r.value ==> ds[j].LocalHardwareId() != h
    ensures r.None? <==> forall j :: 0 <= j < |ds| ==> ds[j].LocalHardwareId() != h
    decreases |ds|
  {
    if ds == [] then None
    else if ds[0].LocalHardwareId() == h then Some(0)
    else
      match IndexOfLocalHardwareId(ds[1..], h)
      case None => None
      case Some(k) => Some(k + 1)
  }

  lemma {:induction false} DeviceIdsMember(ds: seq<TfrtCpuDevice>, x: int)
    ensures x in DeviceIds(ds) <==> exists i :: 0 <= i < |ds| && ds[i].id == x
    decreases |ds|
  {
    if ds != [] {
      var init := ds[..|ds| - 1];
      DeviceIdsMember(init, x);
      if x in DeviceIds(init) {
        var i :| 0 <= i < |init| && init[i].id == x;
        assert ds[i].id == x;
      }
      if exists i :: 0 <= i < |ds| && ds[i].id == x {
        var i :| 0 <= i < |ds| && ds[i].id == x;
        if i < |init| { assert init[i].id == x; }
      }
    }
  }

  /** Appending a device adds its id. */
  lemma DeviceIdsSnoc(ds: seq<TfrtCpuDevice>, d: TfrtCpuDevice)
    ensures DeviceIds(ds + [d]) == DeviceIds(ds) + {d.id}
  {
    assert (ds + [d])[..|ds|] == ds;
  }

  /** Appending a device adds it to the addressable subset when its process matches. */
  lemma AddressableSubsetSnoc(ds: seq<TfrtCpuDevice>, processIndex: int, d: TfrtCpuDevice)
    ensures AddressableSubset(ds + [d], processIndex) ==
            AddressableSubset(ds, processIndex) + (if d.ProcessIndex() == processIndex then [d] else [])
  {
    assert (ds + [d])[..|ds|] == ds;
  }

  /** The map sends each device id of the sequence, and only those, to a device with that id. */
  ghost predicate IndexesById(m: map<int, TfrtCpuDevice>, ds: seq<TfrtCpuDevice>) {
    m.Keys == DeviceIds(ds) &&
    forall k :: k in m ==> m[k] in ds && m[k].id == k
  }

  /** Registering one more device keeps the map an index of the longer sequence. */
  lemma IndexesByIdSnoc(m: map<int, TfrtCpuDevice>, ds: seq<TfrtCpuDevice>, d: TfrtCpuDevice)
    requires IndexesById(m, ds)
    ensures IndexesById(m[d.id := d], ds + [d])
  {
    DeviceIdsSnoc(ds, d);
  }

  /** Devices with distinct ids are distinct objects: later ones differ from device i. */
  lemma DistinctLater(ds: seq<TfrtCpuDevice>, i: nat)
    requires DistinctIds(ds) && i < |ds|
    ensures forall j :: i < j < |ds| ==> ds[j] != ds[i]
  {
  }

  /** Distinct ids: there are as many ids as devices. */
  lemma {:induction false} DeviceIdsCard(ds: seq<TfrtCpuDevice>)
    requires DistinctIds(ds)
    ensures |DeviceIds(ds)| == |ds|
    decreases |ds|
  {
    if ds != [] {
      var init := ds[..|ds| - 1];
      assert DistinctIds(init);
      DeviceIdsCard(init);
      DeviceIdsMember(init, ds[|ds| - 1].id);
      assert ds[|ds| - 1].id !in DeviceIds(init);
    }
  }

  /** The addressable subset holds exactly the devices of the local process. */
  lemma {:induction false} AddressableSubsetMember(ds: seq<TfrtCpuDevice>, processIndex: int, d: TfrtCpuDevice)
    ensures d in AddressableSubset(ds, processIndex) <==> d in ds && d.ProcessIndex() == processIndex
    decreases |ds|
  {
    if ds != [] {
      var init := ds[..|ds| - 1];
      AddressableSubsetMember(init, processIndex, d);
      assert ds == init + [ds[|ds| - 1]];
    }
  }

  /** Since every CPU device is in process 0, the addressable subset is all devices or none. */
  lemma {:induction false} AddressableSubsetAllOrNothing(ds: seq<TfrtCpuDevice>, processIndex: int)
    ensures processIndex == 0 ==> AddressableSubset(ds, processIndex) == ds
    ensures processIndex != 0 ==> AddressableSubset(ds, processIndex) == []
    decreases |ds|
  {
    if ds != [] {
      var init := ds[..|ds| - 1];
      AddressableSubsetAllOrNothing(init, processIndex);
      assert ds == init + [ds[|ds| - 1]];
    }
  }

  /** The addressable subset is never longer than the list it is drawn from. */
  lemma {:induction false} AddressableSubsetLength(ds: seq<TfrtCpuDevice>, processIndex: int)
    ensures |AddressableSubset(ds, processIndex)| <= |ds|
    decreases |ds|
  {
    if ds != [] {
      AddressableSubsetLength(ds[..|ds| - 1], processIndex);
    }
  }

  /** With distinct ids, the addressable subset has distinct ids too. */
  lemma AddressableSubsetDistinct(ds: seq<TfrtCpuDevice>, processIndex: int)
    requires DistinctIds(ds)
    ensures DistinctIds(AddressableSubset(ds, processIndex))
  {
    AddressableSubsetAllOrNothing(ds, processIndex);
  }

  // ---------------------------------------------------------------------------
  // Placing devices by core id

  /** Every local hardware id lies in 0 .. |ds| - 1, so that each names a position. */
  ghost predicate CoreIdsInRange(ds: seq<TfrtCpuDevice>) {
    forall j :: 0 <= j < |ds| ==> 0 <= ds[j].LocalHardwareId() < |ds|
  }

  /** The integers 0 .. n - 1. */
  function Range(n: nat): set<int>
    decreases n
  {
    if n == 0 then {} else Range(n - 1) + {n - 1}
  }

  lemma {:induction false} RangeMember(n: nat)
    ensures |Range(n)| == n
    ensures forall h :: h in Range(n) <==> 0 <= h < n
    decreases n
  {
    if n > 0 {
      RangeMember(n - 1);
    }
  }

  /** Pigeonhole: devices with distinct ids, all in 0 .. |ds| - 1, use every id of that range. */
  lemma CoreIdsCovered(ds: seq<TfrtCpuDevice>, h: int)
    requires DistinctIds(ds) && CoreIdsInRange(ds) && 0 <= h < |ds|
    ensures IndexOfLocalHardwareId(ds, h).Some?
  {
    var ids, range := DeviceIds(ds), Range(|ds|);
    DeviceIdsCard(ds);
    RangeMember(|ds|);
    forall k | k in ids
      ensures k in range
    {
      DeviceIdsMember(ds, k);
    }
    assert ids * range == ids;
    assert |range - ids| == 0;
    assert h in range;
    DeviceIdsMember(ds, h);
  }

  /** The devices rearranged so that position h holds the device whose local hardware id is h. */
  function ByCoreId(ds: seq<TfrtCpuDevice>): (r: seq<TfrtCpuDevice>)
    requires DistinctIds(ds) && CoreIdsInRange(ds)
    ensures |r| == |ds|
    ensures forall h :: 0 <= h < |r| ==> r[h] in ds && r[h].LocalHardwareId() == h
  {
    forall h | 0 <= h < |ds|
      ensures IndexOfLocalHardwareId(ds, h).Some?
    {
      CoreIdsCovered(ds, h);
    }
    seq(|ds|, h requires 0 <= h < |ds| => ds[IndexOfLocalHardwareId(ds, h).value])
  }

  /** Rearranging by core id loses no device and adds none. */
  lemma ByCoreIdMember(ds: seq<TfrtCpuDevice>, d: TfrtCpuDevice)
    requires DistinctIds(ds) && CoreIdsInRange(ds)
    ensures d in ByCoreId(ds) <==> d in ds
  {
    var r := ByCoreId(ds);
    if d in ds {
      var j :| 0 <= j < |ds| && ds[j] == d;
      var h := d.LocalHardwareId();
      var k :| 0 <= k < |ds| && ds[k] == r[h];
      assert ds[k].id == ds[j].id;
      assert r[h] == d;
    }
  }

  /** Devices already numbered 0, 1, 2, ... in order stay where they are. */
  lemma ByCoreIdOfNumbered(ds: seq<TfrtCpuDevice>)
    requires DistinctIds(ds) && forall i :: 0 <= i < |ds| ==> ds[i].id == i
    ensures CoreIdsInRange(ds) && ByCoreId(ds) == ds
  {
    var r := ByCoreId(ds);
    forall h | 0 <= h < |ds|
      ensures r[h] == ds[h]
    {
      var j :| 0 <= j < |ds| && ds[j] == r[h];
      assert ds[j].id == h;
    }
  }

  /** The devices of the given process, each at the position its core id names. */
  function AddressableByCoreId(ds: seq<TfrtCpuDevice>, processIndex: int): (r: seq<TfrtCpuDevice>)
    requires DistinctIds(ds) && CoreIdsInRange(AddressableSubset(ds, processIndex))
    ensures |r| == |AddressableSubset(ds, processIndex)|
    ensures forall h :: 0 <= h < |r| ==> r[h].LocalHardwareId() == h
    ensures forall d :: d in r ==> d in ds && d.ProcessIndex() == processIndex
    ensures forall d :: d in ds && d.ProcessIndex() == processIndex ==> d in r
  {
    var sub := AddressableSubset(ds, processIndex);
    AddressableSubsetDistinct(ds, processIndex);
    forall d
      ensures d in ByCoreId(sub) <==> d in ds && d.ProcessIndex() == processIndex
    {
      ByCoreIdMember(sub, d);
      AddressableSubsetMember(ds, processIndex, d);
    }
    ByCoreId(sub)
  }

  /** Builds the id-to-device map of a sequence of devices, one device at a time. */
  method IndexById(ds: seq<TfrtCpuDevice>) returns (m: map<int, TfrtCpuDevice>)
    ensures IndexesById(m, ds)
  {
    m := map[];
    var i := 0;
    while i < |ds|
      invariant 0 <= i <= |ds|
      invariant IndexesById(m, ds[..i])
    {
      assert ds[..i + 1] == ds[..i] + [ds[i]];
      IndexesByIdSnoc(m, ds[..i], ds[i]);
      m := m[ds[i].id := ds[i]];
      i := i + 1;
    }
    assert ds[..i] == ds;
  }

  // ---------------------------------------------------------------------------
  // The client

  /** The CPU client: all devices, the id-to-device map, and the addressable devices. */
  class TfrtCpuClient {
    const processIndex: int
    /** All devices, including non-addressable ones. */
    var ownedDevices: seq<TfrtCpuDevice>
    /** The same devices, as handed out by `devices()`. */
    var devices: seq<TfrtCpuDevice>
    /** Device id to device, for every device. */
    var idToDevice: map<int, TfrtCpuDevice>
    /** The devices of this process. */
    var addressableDevices: seq<TfrtCpuDevice>

    /** The registry invariant. */
    ghost predicate Valid()
      reads this, ownedDevices
    {
      devices == ownedDevices &&
      DistinctIds(devices) &&
      (forall i :: 0 <= i < |devices| ==> devices[i].client == this) &&
      IndexesById(idToDevice, devices) &&
      CoreIdsInRange(AddressableSubset(devices, processIndex)) &&
      addressableDevices == AddressableByCoreId(devices, processIndex)
    }

    /** Takes ownership of the devices, registers each under its id, points it back at
        this client and places each addressable one at the position its core id names.
        A duplicate id, a device that already has a client, or a core id that does not
        name a position of the addressable list is a caller error. */
    constructor (processIndex: int, owned: seq<TfrtCpuDevice>)
      requires DistinctIds(owned)
      requires CoreIdsInRange(AddressableSubset(owned, processIndex))
      requires forall i :: 0 <= i < |owned| ==> owned[i].client == null
      modifies owned
      ensures Valid()
      ensures this.processIndex == processIndex && ownedDevices == owned && devices == owned
      ensures addressableDevices == AddressableByCoreId(owned, processIndex)
    {
      this.processIndex := processIndex;
      ownedDevices := owned;
      devices := [];
      idToDevice := map[];
      addressableDevices := [];
      new;
      var m := IndexById(owned);
      var attached := AttachAll(owned);
      AddressableSubsetDistinct(owned, processIndex);
      var addressable := ByCoreId(attached);
      devices, idToDevice, addressableDevices := owned, m, addressable;
      assert IndexesById(idToDevice, devices);
      assert forall i :: 0 <= i < |devices| ==> devices[i].client == this;
    }

    /** Points every device back at this client and returns, in discovery order, those
        that are then addressable. */
    method AttachAll(owned: seq<TfrtCpuDevice>) returns (addressable: seq<TfrtCpuDevice>)
      requires DistinctIds(owned)
      requires forall i :: 0 <= i < |owned| ==> owned[i].client == null
      modifies owned
      ensures forall i :: 0 <= i < |owned| ==> owned[i].client == this
      ensures addressable == AddressableSubset(owned, processIndex)
    {
      addressable := [];
      ghost var seen: seq<TfrtCpuDevice> := [];
      var i := 0;
      while i < |owned|
        invariant 0 <= i <= |owned| && |seen| == i
        invariant forall j :: 0 <= j < i ==> seen[j] == owned[j] && owned[j].client == this
        invariant forall j :: i <= j < |owned| ==> owned[j].client == null
        invariant addressable == AddressableSubset(seen, processIndex)
      {
        var d := owned[i];
        AddressableSubsetSnoc(seen, processIndex, d);
        DistinctLater(owned, i);
        d.SetClient(this);
        if d.IsAddressable() {
          addressable := addressable + [d];
        }
        seen := seen + [d];
        i := i + 1;
      }
      assert seen == owned;
    }

    /** A device of the client is what the id-to-device map holds under its id. */
    lemma RegistryEntry(d: TfrtCpuDevice)
      requires Valid() && d in devices
      ensures d.id in idToDevice && idToDevice[d.id] == d
    {
      var j :| 0 <= j < |devices| && devices[j] == d;
      DeviceIdsMember(devices, d.id);
      var e := idToDevice[d.id];
      var k :| 0 <= k < |devices| && devices[k] == e;
      assert devices[k].id == devices[j].id;
    }

    /** The number of devices, which is also the number of distinct device ids. */
    function DeviceCount(): (n: int)
      reads this, ownedDevices
      requires Valid()
      ensures n == |idToDevice|
    {
      DeviceIdsCard(devices);
      |devices|
    }

    /** The number of addressable devices: all of them in process 0, none elsewhere. */
    function AddressableDeviceCount(): (n: int)
      reads this, ownedDevices
      requires Valid()
      ensures 0 <= n <= DeviceCount()
      ensures processIndex == 0 ==> n == DeviceCount()
      ensures processIndex != 0 ==> n == 0
    {
      AddressableSubsetAllOrNothing(devices, processIndex);
      |addressableDevices|
    }

    /** All devices; each is found again under its own id. */
    function Devices(): (s: seq<TfrtCpuDevice>)
      reads this, ownedDevices
      requires Valid()
      ensures |s| == DeviceCount()
      ensures forall i :: 0 <= i < |s| ==> LookupDevice(s[i].id) == Ok(s[i])
    {
      forall i | 0 <= i < |devices|
        ensures LookupDevice(devices[i].id) == Ok(devices[i])
      {
        DeviceIdsMember(devices, devices[i].id);
      }
      devices
    }

    /** The addressable devices: exactly the devices that report themselves addressable. */
    function AddressableDevices(): (s: seq<TfrtCpuDevice>)
      reads this, ownedDevices
      requires Valid()
      ensures |s| == AddressableDeviceCount()
      ensures forall d :: d in s ==> d in devices && d.IsAddressable()
      ensures forall d :: d in devices && d.IsAddressable() ==> d in s
    {
      forall d | d in devices
        ensures d in addressableDevices <==> d.IsAddressable()
      {
        AddressableSubsetMember(devices, processIndex, d);
      }
      forall d | d in addressableDevices
        ensures d in devices
      {
        AddressableSubsetMember(devices, processIndex, d);
      }
      addressableDevices
    }

    /** The device with the given id, or NotFound when no device has it. */
    function LookupDevice(deviceId: int): (r: StatusOr<TfrtCpuDevice>)
      reads this, ownedDevices
      requires Valid()
      ensures r.Ok? <==> exists i :: 0 <= i < |devices| && devices[i].id == deviceId
      ensures r.Ok? ==> r.value in devices && r.value.id == deviceId
      ensures r.Err? ==> r.error == NotFound(deviceId)
    {
      DeviceIdsMember(devices, deviceId);
      if deviceId in idToDevice then Ok(idToDevice[deviceId]) else Err(NotFound(deviceId))
    }

    /** The addressable device with the given local hardware id, or NotFound when no
        addressable device has it (also when a non-addressable device does). */
    function LookupAddressableDevice(localHardwareId: int): (r: StatusOr<TfrtCpuDevice>)
      reads this, ownedDevices
      requires Valid()
      ensures r.Ok? ==> r.value in addressableDevices && r.value in devices && r.value.IsAddressable()
      ensures r.Ok? ==> r.value.LocalHardwareId() == localHardwareId
      ensures r.Ok? ==> LookupDevice(localHardwareId) == r
      ensures r.Err? <==> forall d :: d in addressableDevices ==> d.LocalHardwareId() != localHardwareId
      ensures r.Err? ==> r.error == NotFound(localHardwareId)
    {
      match IndexOfLocalHardwareId(addressableDevices, localHardwareId)
      case None => Err(NotFound(localHardwareId))
      case Some(k) =>
        var d := addressableDevices[k];
        RegistryEntry(d);
        Ok(d)
    }

    // Operations this client does not support: each fails the same way on every call
    // and, having no modifies clause, changes nothing.

    method CreateUninitializedBuffer(shape: Shape, device: TfrtCpuDevice) returns (r: StatusOr<Buffer>)
      ensures r == Err(Unimplemented("CreateUninitializedBuffer"))
    {
      r := Err(Unimplemented("CreateUninitializedBuffer"));
    }

    /** The host data, its semantics and the done-callback are not modelled. */
    method BufferFromHostBuffer(shape: Shape, device: TfrtCpuDevice) returns (r: StatusOr<Buffer>)
      ensures r == Err(Unimplemented("BufferFromHostBuffer"))
    {
      r := Err(Unimplemented("BufferFromHostBuffer"));
    }

    method BufferFromHostLiteral(literal: Shape, device: TfrtCpuDevice) returns (r: StatusOr<Buffer>)
      ensures r == Err(Unimplemented("BufferFromHostLiteral"))
    {
      r := Err(Unimplemented("BufferFromHostLiteral"));
    }

    method CreateViewOfDeviceBuffer(devicePtr: int, shape: Shape, device: TfrtCpuDevice) returns (r: StatusOr<Buffer>)
      ensures r == Err(Unimplemented("CreateViewOfDeviceBuffer not implemented."))
    {
      r := Err(Unimplemented("CreateViewOfDeviceBuffer not implemented."));
    }

    method CreateChannelHandle() returns (r: StatusOr<ChannelHandle>)
      ensures r == Err(Unimplemented("CreateChannelHandle not implemented."))
    {
      r := Err(Unimplemented("CreateChannelHandle not implemented."));
    }

    method CreateDeviceToHostChannelHandle() returns (r: StatusOr<ChannelHandle>)
      ensures r == Err(Unimplemented("CreateDeviceToHostChannelHandle not implemented."))
    {
      r := Err(Unimplemented("CreateDeviceToHostChannelHandle not implemented."));
    }

    method CreateHostToDeviceChannelHandle() returns (r: StatusOr<ChannelHandle>)
      ensures r == Err(Unimplemented("CreateHostToDeviceChannelHandle not implemented."))
    {
      r := Err(Unimplemented("CreateHostToDeviceChannelHandle not implemented."));
    }

    /** The executables to defragment are not modelled; only the buffers are passed. */
    method Defragment(buffers: seq<Buffer>) returns (s: Status)
      ensures s == ErrStatus(Unimplemented("Defragment not implemented."))
    {
      s := ErrStatus(Unimplemented("Defragment not implemented."));
    }
  }

  // ---------------------------------------------------------------------------
  // Properties of a built client

  /** In process 0 every device is addressable and the addressable list holds every device. */
  lemma AllAddressableInProcessZero(c: TfrtCpuClient)
    requires c.Valid() && c.processIndex == 0
    ensures forall d :: d in c.devices ==> d.IsAddressable()
    ensures |c.addressableDevices| == |c.devices|
    ensures forall d :: d in c.addressableDevices <==> d in c.devices
  {
    AddressableSubsetAllOrNothing(c.devices, c.processIndex);
  }

  /** In process 0, when the devices carry the ids 0, 1, 2, ... in order, placing them by
      core id keeps their order: the addressable list is the device list. */
  lemma NumberedDevicesInOrder(c: TfrtCpuClient)
    requires c.Valid() && c.processIndex == 0
    requires forall i :: 0 <= i < |c.devices| ==> c.devices[i].id == i
    ensures c.addressableDevices == c.devices
  {
    AddressableSubsetAllOrNothing(c.devices, c.processIndex);
    ByCoreIdOfNumbered(c.devices);
  }

  /** In any other process no device is addressable, and so no addressable lookup succeeds. */
  lemma NoneAddressableElsewhere(c: TfrtCpuClient, localHardwareId: int)
    requires c.Valid() && c.processIndex != 0
    ensures c.addressableDevices == []
    ensures c.LookupAddressableDevice(localHardwareId) == Err(NotFound(localHardwareId))
  {
    AddressableSubsetAllOrNothing(c.devices, c.processIndex);
  }

  /** The addressable devices are indexed by their core id: position i holds the device
      whose local hardware id is i, and it is what the addressable lookup of i returns. */
  lemma AddressableIndexedByCoreId(c: TfrtCpuClient)
    requires c.Valid()
    ensures forall i :: 0 <= i < |c.addressableDevices| ==> c.addressableDevices[i].LocalHardwareId() == i
    ensures forall i :: 0 <= i < |c.addressableDevices| ==> c.LookupAddressableDevice(i) == Ok(c.addressableDevices[i])
  {
    forall i | 0 <= i < |c.addressableDevices|
      ensures c.LookupAddressableDevice(i) == Ok(c.addressableDevices[i])
    {
      var r := c.LookupAddressableDevice(i);
      var d := c.addressableDevices[i];
      assert d in c.addressableDevices && d.LocalHardwareId() == i;
      var k :| 0 <= k < |c.addressableDevices| && c.addressableDevices[k] == r.value;
      assert k == i;
    }
  }

  /** A device that exists but is not addressable is found by `LookupDevice` and not by
      `LookupAddressableDevice`. */
  lemma LookupsDisagreeOffProcess(c: TfrtCpuClient, d: TfrtCpuDevice)
    requires c.Valid() && d in c.devices && !d.IsAddressable()
    ensures c.LookupDevice(d.id) == Ok(d)
    ensures c.LookupAddressableDevice(d.LocalHardwareId()).Err?
  {
    DeviceIdsMember(c.devices, d.id);
    AddressableSubsetAllOrNothing(c.devices, c.processIndex);
  }
}
