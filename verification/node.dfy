/** The peer record of the daemon's sync layer (daemon/src/database/node.rs): a device
    identity, its addresses and the times it was last seen and synced. */
module Node {
  import opened Wrappers
  import opened Machine
  import opened Utf8
  import opened TimeKey
  import ClipRecord

  /** A device's identity string. */
  datatype DeviceIdentifier = DeviceIdentifier(id: string)

  /** Which of a node's addresses answered last. */
  datatype IpOrigin = Local | Public

  /** An IPv4 or IPv6 address, as its octets. */
  datatype IpAddr = IpAddr(octets: seq<Byte>)

  /** `NodeV1`; `deviceId` is the primary key. Records are compared field by field. */
  datatype Node = Node(
    deviceId: Option<DeviceIdentifier>,
    name: string,
    localIp: IpAddr,
    publicIp: IpAddr,
    lastSeen: Option<DateTime>,
    lastSync: Option<DateTime>,
    lastIp: Option<IpOrigin>)

  /** The messages nodes exchange. */
  datatype NodeMessage =
    | NewClip(clip: ClipRecord.ClipEntryV1)
    | SyncRequest(from: Node)
    | SyncResponse(clips: seq<ClipRecord.ClipEntryV1>)
    | JoinNetwork(node: Node)

  /** The first attempt that succeeded, or `None` when all of them failed: what a chain of
      `or_else` calls computes. */
  function FirstOk<T>(attempts: seq<Outcome<T, ()>>): (r: Option<T>)
    ensures r.None? <==> forall i :: 0 <= i < |attempts| ==> !attempts[i].Ok?
    ensures r.Some? ==>
              exists i :: 0 <= i < |attempts| && attempts[i] == Ok(r.value) && forall j :: 0 <= j < i ==> !attempts[j].Ok?
  {
    if |attempts| == 0 then None
    else if attempts[0].Ok? then Some(attempts[0].value)
    else
      var r := FirstOk(attempts[1..]);
      assert forall i :: 1 <= i < |attempts| ==> attempts[i] == attempts[1..][i - 1];
      r
  }

  /** `DeviceIdentifier::new`: the machine id, else the MAC address, else the hash of host and
      user names; `None` only when all three fail. The three providers read the operating
      system and are passed in as their outcomes. */
  function NewDeviceIdentifier(machineId: Outcome<string, ()>, macAddress: Outcome<string, ()>,
                               fallbackId: Outcome<string, ()>): (r: Option<DeviceIdentifier>)
    ensures r.None? <==> !machineId.Ok? && !macAddress.Ok? && !fallbackId.Ok?
    ensures machineId.Ok? ==> r == Some(DeviceIdentifier(machineId.value))
    ensures !machineId.Ok? && macAddress.Ok? ==> r == Some(DeviceIdentifier(macAddress.value))
    ensures !machineId.Ok? && !macAddress.Ok? && fallbackId.Ok? ==> r == Some(DeviceIdentifier(fallbackId.value))
  {
    var attempts := [machineId, macAddress, fallbackId];
    assert attempts[1..] == [macAddress, fallbackId] && attempts[1..][1..] == [fallbackId];
    assert !machineId.Ok? ==> FirstOk(attempts) == FirstOk([macAddress, fallbackId]);
    assert !macAddress.Ok? ==> FirstOk([macAddress, fallbackId]) == FirstOk([fallbackId]);
    assert [fallbackId][1..] == [];
    match FirstOk(attempts)
    case None => None
    case Some(id) => Some(DeviceIdentifier(id))
  }

  /** `DeviceIdentifier::to_key`: the UTF-8 bytes of the identity. The key decodes back to the
      identity, so distinct identities have distinct keys. */
  function DeviceKey(d: DeviceIdentifier): (k: seq<Byte>)
    ensures Decode(k) == Some(d.id)
  {
    DecodeEncode(d.id);
    Encode(d.id)
  }

  lemma DeviceKeyInjective(a: DeviceIdentifier, b: DeviceIdentifier)
    requires DeviceKey(a) == DeviceKey(b)
    ensures a == b
  {
    EncodeInjective(a.id, b.id);
  }
}
