/** How a node reaches a peer and what it sends (daemon/src/database/node.rs): ports and
    addresses tried in order, messages framed by a 4-byte big-endian length, and the clips
    newer than the last sync. Connecting is an oracle `reachable(ip, port)`; serialising is
    an oracle `serialize`; the bytes written go to a `Wire` log. */
module NodeSync {
  import opened Wrappers
  import opened Machine
  import opened TimeKey
  import opened ClipRecord
  import opened Node

  type Port = p: int | 0 <= p < 0x1_0000

  /** A TCP stream, by the address and port it was opened to. */
  datatype Connection = Connection(ip: IpAddr, port: Port)

  /** What `serialize` is applied to: a `NodeMessage`, or a bare list of clips. */
  datatype Serialized = Message(message: NodeMessage) | ClipList(clips: seq<ClipEntryV1>)

  // ---------------------------------------------------------------------------
  // Which connection is made.
  // ---------------------------------------------------------------------------

  /** One connection attempt per port, in order. */
  function Attempts(ip: IpAddr, ports: seq<Port>, reachable: (IpAddr, Port) -> bool): (a: seq<Outcome<Connection, ()>>)
    ensures |a| == |ports|
    ensures forall i :: 0 <= i < |ports| ==>
              a[i] == if reachable(ip, ports[i]) then Ok(Connection(ip, ports[i])) else Err(())
  {
    seq(|ports|, i requires 0 <= i < |ports| =>
      if reachable(ip, ports[i]) then Ok(Connection(ip, ports[i])) else Err(()))
  }

  /** The connection to the first reachable port of `ip`, if any. */
  function FirstReachable(ip: IpAddr, ports: seq<Port>, reachable: (IpAddr, Port) -> bool): (r: Option<Connection>)
    ensures r.None? <==> forall i :: 0 <= i < |ports| ==> !reachable(ip, ports[i])
    ensures r.Some? ==>
              exists i :: 0 <= i < |ports| && r.value == Connection(ip, ports[i])
                && reachable(ip, ports[i]) && forall j :: 0 <= j < i ==> !reachable(ip, ports[j])
  {
    FirstOk(Attempts(ip, ports, reachable))
  }

  /** `attempt_connection(ip)`: tries the ports in order and returns the first stream that
      opens, or an error when none does. */
  method AttemptConnection(ip: IpAddr, ports: seq<Port>, reachable: (IpAddr, Port) -> bool)
    returns (r: Outcome<Connection, ()>)
    ensures r.Ok? <==> FirstReachable(ip, ports, reachable).Some?
    ensures r.Ok? ==> r.value == FirstReachable(ip, ports, reachable).value
    ensures !r.Ok? ==> r == Err(())
  {
    for k := 0 to |ports|
      invariant forall j :: 0 <= j < k ==> !reachable(ip, ports[j])
    {
      if reachable(ip, ports[k]) {
        var first := FirstReachable(ip, ports, reachable);
        var i :| 0 <= i < |ports| && first.value == Connection(ip, ports[i])
                 && reachable(ip, ports[i]) && forall j :: 0 <= j < i ==> !reachable(ip, ports[j]);
        assert i == k;
        return Ok(Connection(ip, ports[k]));
      }
    }
    r := Err(());
  }

  /** The stream `get_stream` opens: the local address first, then the public one. The match
      on `last_ip` has the same two steps in both arms. */
  function StreamFor(node: Node, ports: seq<Port>, reachable: (IpAddr, Port) -> bool): Option<Connection> {
    match node.lastIp
    case Some(Public) =>
      if FirstReachable(node.localIp, ports, reachable).Some? then FirstReachable(node.localIp, ports, reachable)
      else FirstReachable(node.publicIp, ports, reachable)
    case _ =>
      if FirstReachable(node.localIp, ports, reachable).Some? then FirstReachable(node.localIp, ports, reachable)
      else FirstReachable(node.publicIp, ports, reachable)
  }

  /** `last_ip` never changes the stream; a reachable local address always wins; the public
      address is used only when no port of the local one answers. */
  lemma StreamOrder(node: Node, ports: seq<Port>, reachable: (IpAddr, Port) -> bool, lastIp: Option<IpOrigin>)
    ensures StreamFor(node, ports, reachable) == StreamFor(node.(lastIp := lastIp), ports, reachable)
    ensures (exists i :: 0 <= i < |ports| && reachable(node.localIp, ports[i])) ==>
              StreamFor(node, ports, reachable).Some? && StreamFor(node, ports, reachable).value.ip == node.localIp
    ensures (forall i :: 0 <= i < |ports| ==> !reachable(node.localIp, ports[i])) ==>
              StreamFor(node, ports, reachable) == FirstReachable(node.publicIp, ports, reachable)
    ensures StreamFor(node, ports, reachable).None? <==>
              forall i :: 0 <= i < |ports| ==> !reachable(node.localIp, ports[i]) && !reachable(node.publicIp, ports[i])
  {
  }

  /** `get_stream`. */
  method GetStream(node: Node, ports: seq<Port>, reachable: (IpAddr, Port) -> bool) returns (r: Outcome<Connection, ()>)
    ensures r.Ok? <==> StreamFor(node, ports, reachable).Some?
    ensures r.Ok? ==> r.value == StreamFor(node, ports, reachable).value
    ensures !r.Ok? ==> r == Err(())
  {
    var local := AttemptConnection(node.localIp, ports, reachable);
    if local.Ok? {
      return local;
    }
    var public := AttemptConnection(node.publicIp, ports, reachable);
    if public.Ok? {
      return public;
    }
    r := Err(());
  }

  // ---------------------------------------------------------------------------
  // Frames.
  // ---------------------------------------------------------------------------

  /** `(len as u32).to_be_bytes()`: the length modulo 2^32, most significant byte first. */
  function LengthPrefix(len: nat): (b: seq<Byte>)
    ensures |b| == 4 && FromBytes(b) == len % U32_LIMIT
  {
    assert Pow256(4) == U32_LIMIT;
    FromToBytes(len % U32_LIMIT, 4);
    ToBytes(len % U32_LIMIT, 4)
  }

  /** What `send_clip` and `send_clips` write: the length prefix, then the body. */
  function Frame(body: seq<Byte>): (f: seq<Byte>)
    ensures |f| == 4 + |body| && f[4..] == body
    ensures FromBytes(f[..4]) == |body| % U32_LIMIT
  {
    LengthPrefix(|body|) + body
  }

  /** A reader of that layout: the 4-byte length, then that many bytes of body; what follows
      is left over. */
  function ParseFrame(f: seq<Byte>): Option<(seq<Byte>, seq<Byte>)> {
    if |f| < 4 then None
    else
      var len := FromBytes(f[..4]);
      if |f| < 4 + len then None else Some((f[4..4 + len], f[4 + len..]))
  }

  /** A body shorter than 4 GiB is read back exactly, whatever follows it. */
  lemma FrameRoundTrip(body: seq<Byte>, rest: seq<Byte>)
    requires |body| < U32_LIMIT
    ensures ParseFrame(Frame(body) + rest) == Some((body, rest))
  {
    var f := Frame(body) + rest;
    assert f[..4] == Frame(body)[..4];
    assert f[4..4 + |body|] == body;
    assert f[4 + |body|..] == rest;
  }

  /** From 4 GiB on, the prefix wraps and the reader takes a shorter body. */
  lemma FrameLengthWraps(body: seq<Byte>, rest: seq<Byte>)
    requires |body| >= U32_LIMIT
    ensures ParseFrame(Frame(body) + rest).Some?
    ensures |ParseFrame(Frame(body) + rest).value.0| == |body| % U32_LIMIT < |body|
  {
    var f := Frame(body) + rest;
    assert f[..4] == Frame(body)[..4];
  }

  // ---------------------------------------------------------------------------
  // Sending.
  // ---------------------------------------------------------------------------

  /** One `write_all` call. */
  datatype Write = Write(to: Connection, bytes: seq<Byte>)

  /** Everything written to streams, in order. */
  class Wire {
    var log: seq<Write>

    constructor ()
      ensures log == []
    {
      log := [];
    }

    /** `stream.write_all(bytes)`. */
    method WriteAll(to: Connection, bytes: seq<Byte>)
      modifies this
      ensures log == old(log) + [Write(to, bytes)]
    {
      log := log + [Write(to, bytes)];
    }
  }

  /** Open the stream, serialise `what`, and write its frame as a prefix write and a body
      write. */
  method SendFramed(node: Node, ports: seq<Port>, reachable: (IpAddr, Port) -> bool,
                    serialize: Serialized -> seq<Byte>, what: Serialized, wire: Wire)
    returns (result: Outcome<(), ()>)
    modifies wire
    ensures StreamFor(node, ports, reachable).None? ==> result == Err(()) && wire.log == old(wire.log)
    ensures StreamFor(node, ports, reachable).Some? ==>
              var to := StreamFor(node, ports, reachable).value;
              var f := Frame(serialize(what));
              result == Ok(()) && wire.log == old(wire.log) + [Write(to, f[..4]), Write(to, f[4..])]
  {
    var stream := GetStream(node, ports, reachable);
    if !stream.Ok? {
      return Err(());
    }
    var buffer := serialize(what);
    wire.WriteAll(stream.value, LengthPrefix(|buffer|));
    wire.WriteAll(stream.value, buffer);
    result := Ok(());
  }

  /** `send_clip(clip)`: a framed `NodeMessage::NewClip`. */
  method SendClip(node: Node, ports: seq<Port>, reachable: (IpAddr, Port) -> bool,
                  serialize: Serialized -> seq<Byte>, clip: ClipEntryV1, wire: Wire)
    returns (result: Outcome<(), ()>)
    modifies wire
    ensures StreamFor(node, ports, reachable).None? ==> result == Err(()) && wire.log == old(wire.log)
    ensures StreamFor(node, ports, reachable).Some? ==>
              var to := StreamFor(node, ports, reachable).value;
              var f := Frame(serialize(Message(NewClip(clip))));
              result == Ok(()) && wire.log == old(wire.log) + [Write(to, f[..4]), Write(to, f[4..])]
  {
    result := SendFramed(node, ports, reachable, serialize, Message(NewClip(clip)), wire);
  }

  /** `send_clips(clips)`: a framed bare list of clips, not wrapped in a
      `NodeMessage::SyncResponse`. */
  method SendClips(node: Node, ports: seq<Port>, reachable: (IpAddr, Port) -> bool,
                   serialize: Serialized -> seq<Byte>, clips: seq<ClipEntryV1>, wire: Wire)
    returns (result: Outcome<(), ()>)
    modifies wire
    ensures StreamFor(node, ports, reachable).None? ==> result == Err(()) && wire.log == old(wire.log)
    ensures StreamFor(node, ports, reachable).Some? ==>
              var to := StreamFor(node, ports, reachable).value;
              var f := Frame(serialize(ClipList(clips)));
              result == Ok(()) && wire.log == old(wire.log) + [Write(to, f[..4]), Write(to, f[4..])]
  {
    result := SendFramed(node, ports, reachable, serialize, ClipList(clips), wire);
  }

  /** With an injective serialiser, the body `send_clips` frames differs from that of the
      `SyncResponse` message a reader expecting a `NodeMessage` would decode. */
  lemma BareListIsNotSyncResponse(serialize: Serialized -> seq<Byte>, clips: seq<ClipEntryV1>)
    requires forall a, b :: serialize(a) == serialize(b) ==> a == b
    ensures serialize(ClipList(clips)) != serialize(Message(SyncResponse(clips)))
  {
  }

  // ---------------------------------------------------------------------------
  // Sync.
  // ---------------------------------------------------------------------------

  /** The clips `sync` sends: those whose `epoch` is strictly after `last_sync`, in scan order;
      none at all when the node was never synced. */
  function SyncSelection(clips: seq<ClipEntryV1>, lastSync: Option<DateTime>): (r: seq<ClipEntryV1>)
    ensures |r| <= |clips|
    ensures lastSync.None? ==> r == []
    ensures forall c :: c in r <==> c in clips && lastSync.Some? && c.epoch.nanos > lastSync.value.nanos
  {
    if |clips| == 0 || lastSync.None? then []
    else
      var rest := SyncSelection(clips[1..], lastSync);
      assert forall c :: c in clips <==> c == clips[0] || c in clips[1..];
      if clips[0].epoch.nanos > lastSync.value.nanos then [clips[0]] + rest else rest
  }

  /** Selecting again with the same `last_sync` changes nothing, and a later `last_sync`
      selects no more. */
  lemma {:induction false} SyncSelectionMonotone(clips: seq<ClipEntryV1>, a: DateTime, b: DateTime)
    requires a.nanos <= b.nanos
    ensures SyncSelection(SyncSelection(clips, Some(a)), Some(a)) == SyncSelection(clips, Some(a))
    ensures |SyncSelection(clips, Some(b))| <= |SyncSelection(clips, Some(a))|
  {
    if |clips| > 0 {
      SyncSelectionMonotone(clips[1..], a, b);
      var rest := SyncSelection(clips[1..], Some(a));
      if clips[0].epoch.nanos > a.nanos {
        assert ([clips[0]] + rest)[1..] == rest;
      }
    }
  }

  /** `sync`: sends the selection with `send_clips`; a failed send is reported and the result
      is `Ok` regardless. The stored clips are a parameter. */
  method Sync(node: Node, stored: seq<ClipEntryV1>, ports: seq<Port>, reachable: (IpAddr, Port) -> bool,
              serialize: Serialized -> seq<Byte>, wire: Wire)
    returns (result: Outcome<(), ()>)
    modifies wire
    ensures result == Ok(())
    ensures StreamFor(node, ports, reachable).None? ==> wire.log == old(wire.log)
    ensures StreamFor(node, ports, reachable).Some? ==>
              var to := StreamFor(node, ports, reachable).value;
              var f := Frame(serialize(ClipList(SyncSelection(stored, node.lastSync))));
              wire.log == old(wire.log) + [Write(to, f[..4]), Write(to, f[4..])]
  {
    var clips := SyncSelection(stored, node.lastSync);
    var sent := SendClips(node, ports, reachable, serialize, clips, wire);
    result := Ok(());
  }
}
