// The BLE transport: chunked framing of payloads over the data channel, the
// per-connection receive state, the control-channel gate and its handlers.
module BleTransport {
  import opened Wrappers
  import opened Bytes
  import opened SyncModels
  import opened SyncAuth
  import opened Strings
  import Utf8
  import DesktopFileService
  import SyncService

  const PACKET_START: byte := 0x01
  const PACKET_DATA: byte := 0x02
  const PACKET_END: byte := 0x03

  const BLENO_MISSING := "BLE transport requires @abandonware/bleno. " +
    "Install it with: pnpm --filter @ai-note/desktop add @abandonware/bleno && pnpm rebuild"
  const POWER_ON_TIMEOUT := "BLE initialization timeout — Bluetooth may be off"

  /** The per-connection state: one client at a time. */
  datatype BleConnection = BleConnection(
    authenticated: bool,
    deviceId: Option<string>,
    deviceName: Option<string>,
    mtu: nat,
    receiveBuffer: seq<seq<byte>>,
    expectedChunks: nat,
    receivedChunks: nat,
    currentTransfer: Option<string>)

  /** A control-channel message once its JSON text has been parsed. */
  datatype ControlCommand =
    | Auth(token: string)
    | RequestManifest
    | RequestFile(path: string)
    | SendFileStart(path: string, size: int, compressed: bool)
    | SendFileEnd(path: string)
    | DeleteFile(path: string)
    | SyncComplete
    | Unrecognized(kind: string)

  datatype ControlResponse =
    | AuthOk(deviceId: string)
    | AuthFail
    | ManifestReady(chunks: nat)
    | FileReady(path: string, chunks: nat, compressed: bool)
    | Ack
    | ErrorMessage(message: string)
    | FileChanged(event: DesktopFileService.FileChangeEvent)
    | SyncStatusChanged(status: SyncStatus)

  /** The state `accept` installs: unauthenticated, preferred MTU, nothing received. */
  function FreshConnection(): (c: BleConnection)
    ensures !c.authenticated && c.deviceId.None? && c.mtu == BLE_PREFERRED_MTU
    ensures c.receiveBuffer == [] && c.receivedChunks == 0 && c.expectedChunks == 0
    ensures c.currentTransfer.None?
  {
    BleConnection(false, None, None, BLE_PREFERRED_MTU, [], 0, 0, None)
  }

  // ---- chunking --------------------------------------------------------------

  /** The payload cut into pieces of `size` bytes, the last one possibly shorter. */
  function Chunks(data: seq<byte>, size: nat): seq<seq<byte>>
    requires size >= 1
    decreases |data|
  {
    if data == [] then []
    else if |data| <= size then [data]
    else [data[..size]] + Chunks(data[size..], size)
  }

  function Flatten(chunks: seq<seq<byte>>): seq<byte>
  {
    if chunks == [] then [] else Flatten(chunks[..|chunks| - 1]) + chunks[|chunks| - 1]
  }

  lemma {:induction false} FlattenConcat(a: seq<seq<byte>>, b: seq<seq<byte>>)
    ensures Flatten(a + b) == Flatten(a) + Flatten(b)
    decreases |b|
  {
    if b == [] {
      assert a + b == a;
    } else {
      var init := b[..|b| - 1];
      assert (a + b)[..|a + b| - 1] == a + init;
      FlattenConcat(a, init);
    }
  }

  /** The chunks put back together are the payload. */
  lemma {:induction false} ChunksFlatten(data: seq<byte>, size: nat)
    requires size >= 1
    ensures Flatten(Chunks(data, size)) == data
    decreases |data|
  {
    if data == [] {
    } else if |data| <= size {
      assert [data][..0] == NoChunks();
    } else {
      ChunksFlatten(data[size..], size);
      FlattenConcat([data[..size]], Chunks(data[size..], size));
      assert [data[..size]][..0] == NoChunks();
      assert data[..size] + data[size..] == data;
    }
  }

  /**
   * Every chunk but the last is full, every chunk is non-empty, and the
   * count is the least n with n * size >= |data|.
   */
  lemma {:induction false} ChunksShape(data: seq<byte>, size: nat)
    requires size >= 1
    ensures var c := Chunks(data, size);
      && (c == [] <==> data == [])
      && |data| <= |c| * size
      && (c != [] ==> (|c| - 1) * size < |data|)
      && (forall i :: 0 <= i < |c| - 1 ==> |c[i]| == size)
      && (forall i :: 0 <= i < |c| ==> 1 <= |c[i]| <= size)
    decreases |data|
  {
    if |data| > size {
      ChunksShape(data[size..], size);
      var rest := Chunks(data[size..], size);
      var c := Chunks(data, size);
      assert c == [data[..size]] + rest;
      var k := |rest|;
      assert (k + 1) * size == k * size + size;
      assert (k - 1) * size == k * size - size;
      assert forall i :: 1 <= i < |c| ==> c[i] == rest[i - 1];
    }
  }

  /** 10240 bytes at the preferred MTU of 247 (246 bytes per chunk) take 42 chunks. */
  lemma ChunkCountAtPreferredMtu(data: seq<byte>)
    requires |data| == 10240
    ensures |Chunks(data, BLE_PREFERRED_MTU - 1)| == 42
  {
    ChunksShape(data, BLE_PREFERRED_MTU - 1);
  }

  function NoChunks(): seq<seq<byte>> { [] }

  // ---- framing ---------------------------------------------------------------

  /** START: the tag, then the chunk count as a 4-byte big-endian integer. */
  function StartPacket(count: nat): (p: seq<byte>)
    requires count < TWO_POW_32
    ensures |p| == 5 && p[0] == PACKET_START
    ensures ReadUInt32BE(p, 1) == count
  {
    ReadWriteUInt32BE(count, [PACKET_START], []);
    assert [PACKET_START] + WriteUInt32BE(count) + [] == [PACKET_START] + WriteUInt32BE(count);
    [PACKET_START] + WriteUInt32BE(count)
  }

  function DataPacket(chunk: seq<byte>): (p: seq<byte>)
    ensures |p| == |chunk| + 1 && p[0] == PACKET_DATA && p[1..] == chunk
  {
    [PACKET_DATA] + chunk
  }

  function DataPackets(chunks: seq<seq<byte>>): (r: seq<seq<byte>>)
    ensures |r| == |chunks|
  {
    if chunks == [] then [] else DataPackets(chunks[..|chunks| - 1]) + [DataPacket(chunks[|chunks| - 1])]
  }

  /** What sendChunks puts on the data channel: START, one DATA per chunk, END. */
  function Frames(chunks: seq<seq<byte>>): (r: seq<seq<byte>>)
    requires |chunks| < TWO_POW_32
    ensures |r| == |chunks| + 2
    ensures r[0] == StartPacket(|chunks|) && r[|r| - 1] == [PACKET_END]
    ensures forall i :: 0 <= i < |chunks| ==> r[i + 1] == DataPacket(chunks[i])
  {
    DataPacketsAt(chunks);
    [StartPacket(|chunks|)] + DataPackets(chunks) + [[PACKET_END]]
  }

  lemma {:induction false} DataPacketsAt(chunks: seq<seq<byte>>)
    ensures forall i :: 0 <= i < |chunks| ==> DataPackets(chunks)[i] == DataPacket(chunks[i])
  {
    if chunks != [] {
      DataPacketsAt(chunks[..|chunks| - 1]);
    }
  }

  // ---- receiving ---------------------------------------------------------------

  /**
   * handleDataWrite on the connection: ignored without an authenticated
   * connection or for an empty packet; START resets the buffer and, when it
   * is long enough, takes the expected count; DATA appends the bytes after
   * the tag; END and unknown tags change nothing.
   */
  function ReceivePacket(conn: Option<BleConnection>, data: seq<byte>): (r: Option<BleConnection>)
    ensures r.None? <==> conn.None?
    ensures conn.None? || !conn.value.authenticated || data == [] ==> r == conn
    ensures r.Some? ==>
      && r.value.authenticated == conn.value.authenticated
      && r.value.deviceId == conn.value.deviceId && r.value.mtu == conn.value.mtu
      && r.value.currentTransfer == conn.value.currentTransfer
  {
    if conn.None? || !conn.value.authenticated || |data| < 1 then conn
    else
      var c := conn.value;
      if data[0] == PACKET_START then
        Some(c.(receiveBuffer := [], receivedChunks := 0,
                expectedChunks := if |data| >= 5 then ReadUInt32BE(data, 1) else c.expectedChunks))
      else if data[0] == PACKET_DATA then
        Some(c.(receiveBuffer := c.receiveBuffer + [data[1..]], receivedChunks := c.receivedChunks + 1))
      else conn
  }

  /** A sequence of packets fed to handleDataWrite in order. */
  function ReceiveAll(conn: Option<BleConnection>, packets: seq<seq<byte>>): Option<BleConnection>
  {
    if packets == [] then conn
    else ReceivePacket(ReceiveAll(conn, packets[..|packets| - 1]), packets[|packets| - 1])
  }

  lemma {:induction false} ReceiveAllConcat(conn: Option<BleConnection>, a: seq<seq<byte>>, b: seq<seq<byte>>)
    ensures ReceiveAll(conn, a + b) == ReceiveAll(ReceiveAll(conn, a), b)
    decreases |b|
  {
    if b == [] {
      assert a + b == a;
    } else {
      var init := b[..|b| - 1];
      assert (a + b)[..|a + b| - 1] == a + init;
      ReceiveAllConcat(conn, a, init);
    }
  }

  /** DATA packets on an authenticated connection append their chunks and count them. */
  lemma {:induction false} ReceiveDataPackets(c: BleConnection, chunks: seq<seq<byte>>)
    requires c.authenticated
    ensures ReceiveAll(Some(c), DataPackets(chunks)) ==
      Some(c.(receiveBuffer := c.receiveBuffer + chunks, receivedChunks := c.receivedChunks + |chunks|))
  {
    if chunks == [] {
      assert c.receiveBuffer + chunks == c.receiveBuffer;
      assert c.(receiveBuffer := c.receiveBuffer, receivedChunks := c.receivedChunks) == c;
    } else {
      var init := chunks[..|chunks| - 1];
      ReceiveDataPackets(c, init);
      var packets := DataPackets(chunks);
      assert packets[..|packets| - 1] == DataPackets(init);
      assert c.receiveBuffer + init + [chunks[|chunks| - 1]] == c.receiveBuffer + chunks;
    }
  }

  /** The frames for some chunks leave exactly those chunks behind, counted and expected. */
  lemma ReceiveFrames(c: BleConnection, chunks: seq<seq<byte>>)
    requires c.authenticated && |chunks| < TWO_POW_32
    ensures ReceiveAll(Some(c), Frames(chunks)) ==
      Some(c.(receiveBuffer := chunks, receivedChunks := |chunks|, expectedChunks := |chunks|))
  {
    var n := |chunks|;
    var start := StartPacket(n);
    var afterStart := c.(receiveBuffer := [], receivedChunks := 0, expectedChunks := n);
    assert ReceiveAll(Some(c), [start]) == Some(afterStart) by {
      assert [start][..0] == NoChunks();
    }
    ReceiveDataPackets(afterStart, chunks);
    ReceiveAllConcat(Some(c), [start], DataPackets(chunks));
    ReceiveAllConcat(Some(c), [start] + DataPackets(chunks), [[PACKET_END]]);
    assert afterStart.receiveBuffer + chunks == chunks;
    assert [[PACKET_END]][..0] == NoChunks();
  }

  lemma {:induction false} ChunksCount(data: seq<byte>, size: nat)
    requires size >= 1
    ensures |Chunks(data, size)| <= |data|
    decreases |data|
  {
    if |data| > size {
      ChunksCount(data[size..], size);
    }
  }

  /**
   * The round trip: the frames sendChunks emits for a payload, fed to
   * handleDataWrite of an authenticated connection, leave the payload's
   * chunks in the buffer and the counters both equal to the chunk count.
   */
  lemma SendReceiveRoundTrip(c: BleConnection, payload: seq<byte>, size: nat)
    requires c.authenticated && size >= 1 && |payload| < TWO_POW_32
    ensures var chunks := Chunks(payload, size);
      |chunks| < TWO_POW_32 &&
      var r := ReceiveAll(Some(c), Frames(chunks));
      && r.Some?
      && Flatten(r.value.receiveBuffer) == payload
      && r.value.receivedChunks == |chunks| && r.value.expectedChunks == |chunks|
      && r.value.authenticated && r.value.deviceId == c.deviceId
  {
    var chunks := Chunks(payload, size);
    ChunksCount(payload, size);
    ChunksFlatten(payload, size);
    ReceiveFrames(c, chunks);
  }

  // ---- compression ---------------------------------------------------------------

  /**
   * maybeCompress, with gzip a parameter: the compressed bytes only for an
   * input above the threshold whose compressed form is strictly shorter.
   */
  function MaybeCompress(data: seq<byte>, gzip: seq<byte> -> seq<byte>): (r: (seq<byte>, bool))
    ensures r.1 <==> |data| > BLE_COMPRESS_THRESHOLD && |gzip(data)| < |data|
    ensures r.1 ==> r.0 == gzip(data)
    ensures !r.1 ==> r.0 == data
    ensures |r.0| <= |data|
  {
    if |data| > BLE_COMPRESS_THRESHOLD && |gzip(data)| < |data| then (gzip(data), true) else (data, false)
  }

  /** The control-channel gate: the error reply that stops a message before dispatch, if any. */
  function GateError(conn: Option<BleConnection>, msg: Option<ControlCommand>): (r: Option<string>)
    ensures msg.None? ==> r == Some("Invalid control message")
    ensures msg.Some? && conn.None? ==> r == Some("No connection")
    ensures msg.Some? && conn.Some? ==>
      (r.Some? <==> !conn.value.authenticated && !msg.value.Auth?)
    ensures r.Some? && msg.Some? && conn.Some? ==> r.value == "Not authenticated"
  {
    if msg.None? then Some("Invalid control message")
    else if conn.None? then Some("No connection")
    else if !conn.value.authenticated && !msg.value.Auth? then Some("Not authenticated")
    else None
  }

  /** The inputs handlers take from the environment. */
  datatype Environment = Environment(
    now: nat,
    gzip: seq<byte> -> seq<byte>,
    gunzip: seq<byte> -> Option<seq<byte>>,
    decode: seq<byte> -> string,
    manifestJson: Option<seq<byte>>,
    writeOk: bool)

  /** What send-file-end applies: the gunzipped bytes when they decompress, the bytes as they are otherwise. */
  function ReceivedContent(buffer: seq<seq<byte>>, env: Environment): string
  {
    var assembled := Flatten(buffer);
    match env.gunzip(assembled)
    case Some(d) => env.decode(d)
    case None => env.decode(assembled)
  }

  /** The mobile device handleAuth registers for a token. */
  function AuthDevice(t: AuthToken, now: nat): (d: SyncDevice)
    ensures d.id == t.deviceId && d.name == t.deviceName && d.transport == Ble
    ensures d.isPaired && d.isConnected
  {
    SyncDevice(t.deviceId, t.deviceName, MobileDevice, Ble, now, true, true)
  }

  // ---- the transport -------------------------------------------------------------

  class BleSyncTransport {
    const service: SyncService.SyncService
    var running: bool
    /** Whether the BLE library was loaded by an earlier start. */
    var loaded: bool
    var connection: Option<BleConnection>
    var controlSubscribed: bool
    var dataSubscribed: bool
    /** Notifications sent on the control channel, JSON text not modelled. */
    var controlSent: seq<ControlResponse>
    /** Packets sent on the data channel. */
    var dataSent: seq<seq<byte>>

    constructor (service: SyncService.SyncService)
      ensures this.service == service && !running && !loaded && connection.None?
      ensures !controlSubscribed && !dataSubscribed && controlSent == [] && dataSent == []
    {
      this.service := service;
      running := false;
      loaded := false;
      connection := None;
      controlSubscribed := false;
      dataSubscribed := false;
      controlSent := [];
      dataSent := [];
    }

    /** The reply sendControlResponse produces: nothing without a control subscriber. */
    function Reply(r: ControlResponse): (out: seq<ControlResponse>)
      reads this
      ensures controlSubscribed ==> out == [r]
      ensures !controlSubscribed ==> out == []
    {
      if controlSubscribed then [r] else []
    }

    method SendControlResponse(r: ControlResponse)
      modifies this
      ensures controlSent == old(controlSent) + old(Reply(r))
      ensures connection == old(connection) && dataSent == old(dataSent) && running == old(running)
      ensures loaded == old(loaded) && controlSubscribed == old(controlSubscribed)
      ensures dataSubscribed == old(dataSubscribed)
    {
      if controlSubscribed {
        controlSent := controlSent + [r];
      }
    }

    /** The MTU chunkBuffer uses: the connection's, or the preferred one without a connection or with 0. */
    function EffectiveMtu(): (m: nat)
      reads this
      ensures connection.Some? && connection.value.mtu != 0 ==> m == connection.value.mtu
      ensures connection.None? || connection.value.mtu == 0 ==> m == BLE_PREFERRED_MTU
    {
      if connection.Some? && connection.value.mtu != 0 then connection.value.mtu else BLE_PREFERRED_MTU
    }

    /** chunkBuffer: slices of EffectiveMtu() - 1 bytes, one byte being left for the tag. */
    method ChunkBuffer(data: seq<byte>) returns (chunks: seq<seq<byte>>)
      requires EffectiveMtu() >= 2
      ensures chunks == Chunks(data, EffectiveMtu() - 1)
    {
      var size := EffectiveMtu() - 1;
      chunks := [];
      var offset := 0;
      while offset < |data|
        invariant chunks + Chunks(if offset < |data| then data[offset..] else [], size) == Chunks(data, size)
      {
        var rest := data[offset..];
        var chunk := if |rest| <= size then rest else rest[..size];
        if |rest| > size {
          assert rest[size..] == data[offset + size..];
        }
        chunks := chunks + [chunk];
        offset := offset + size;
      }
    }

    /**
     * sendChunks: nothing without a data subscriber; a count too large for
     * the 4-byte header throws before anything is sent; otherwise the frames.
     */
    method SendChunks(chunks: seq<seq<byte>>) returns (ok: bool)
      modifies this
      ensures ok <==> !dataSubscribed || |chunks| < TWO_POW_32
      ensures dataSent == old(dataSent) + (if dataSubscribed && ok then Frames(chunks) else [])
      ensures connection == old(connection) && controlSent == old(controlSent) && running == old(running)
      ensures loaded == old(loaded) && controlSubscribed == old(controlSubscribed)
      ensures dataSubscribed == old(dataSubscribed)
    {
      if !dataSubscribed {
        return true;
      }
      if |chunks| >= TWO_POW_32 {
        return false;
      }
      var start := StartPacket(|chunks|);
      var sent := [start];
      var i := 0;
      while i < |chunks|
        invariant 0 <= i <= |chunks|
        invariant sent == [start] + DataPackets(chunks[..i])
      {
        assert chunks[..i + 1][..i] == chunks[..i];
        sent := sent + [DataPacket(chunks[i])];
        i := i + 1;
      }
      assert chunks[..i] == chunks;
      dataSent := dataSent + (sent + [[PACKET_END]]);
      return true;
    }

    /** The 'accept' event: a fresh connection replaces any previous one. */
    method Accept()
      modifies this
      ensures connection == Some(FreshConnection())
      ensures controlSent == old(controlSent) && dataSent == old(dataSent) && running == old(running)
      ensures controlSubscribed == old(controlSubscribed) && dataSubscribed == old(dataSubscribed)
    {
      connection := Some(FreshConnection());
    }

    /** The 'mtuChange' event: recorded only while connected. */
    method MtuChange(mtu: nat)
      modifies this
      ensures connection.Some? <==> old(connection).Some?
      ensures connection.Some? ==> connection == Some(old(connection).value.(mtu := mtu))
      ensures controlSent == old(controlSent) && dataSent == old(dataSent)
    {
      if connection.Some? {
        connection := Some(connection.value.(mtu := mtu));
      }
    }

    method SubscribeControl()
      modifies this
      ensures controlSubscribed && connection == old(connection) && dataSubscribed == old(dataSubscribed)
    {
      controlSubscribed := true;
    }

    method UnsubscribeControl()
      modifies this
      ensures !controlSubscribed && connection == old(connection) && dataSubscribed == old(dataSubscribed)
    {
      controlSubscribed := false;
    }

    method SubscribeData()
      modifies this
      ensures dataSubscribed && connection == old(connection) && controlSubscribed == old(controlSubscribed)
    {
      dataSubscribed := true;
    }

    method UnsubscribeData()
      modifies this
      ensures !dataSubscribed && connection == old(connection) && controlSubscribed == old(controlSubscribed)
    {
      dataSubscribed := false;
    }

    /** The 'disconnect' event: an authenticated device is unregistered; the connection and subscribers go. */
    method Disconnect()
      requires service.Valid()
      modifies this, service
      ensures service.Valid()
      ensures connection.None? && !controlSubscribed && !dataSubscribed
      ensures old(connection).Some? && old(connection).value.deviceId.Some? ==>
        service.connected == old(service.connected) - {old(connection).value.deviceId.value} &&
        service.events == old(service.events) + [SyncService.DeviceDisconnected(old(connection).value.deviceId.value)]
      ensures old(connection).None? || old(connection).value.deviceId.None? ==>
        service.connected == old(service.connected) && service.events == old(service.events)
      ensures service.notes == old(service.notes) && service.pairedDevices == old(service.pairedDevices)
      ensures running == old(running) && controlSent == old(controlSent) && dataSent == old(dataSent)
    {
      if connection.Some? && connection.value.deviceId.Some? {
        service.RemoveConnectedDevice(connection.value.deviceId.value);
      }
      connection := None;
      controlSubscribed := false;
      dataSubscribed := false;
    }

    /**
     * start: a no-op when running; fails when the BLE library cannot be
     * loaded (`loadOk`) or the adapter never powers on (`poweredOn`).
     */
    method Start(loadOk: bool, poweredOn: bool) returns (r: Result<()>)
      modifies this
      ensures old(running) ==> r.Ok? && running && loaded == old(loaded)
      ensures !old(running) ==> (r.Ok? <==> loadOk && poweredOn) && running == r.Ok?
      ensures !old(running) ==> loaded == (old(loaded) || loadOk)
      ensures connection == old(connection) && controlSent == old(controlSent) && dataSent == old(dataSent)
    {
      if running {
        return Ok(());
      }
      if !loadOk {
        return Err(BLENO_MISSING);
      }
      loaded := true;
      if !poweredOn {
        return Err(POWER_ON_TIMEOUT);
      }
      running := true;
      return Ok(());
    }

    /** stop: only when running; unregisters the authenticated device and drops the connection. */
    method Stop()
      requires service.Valid()
      modifies this, service
      ensures service.Valid()
      ensures !old(running) || !old(loaded) ==> unchanged(this) && unchanged(service)
      ensures old(running) && old(loaded) ==> !running && connection.None? && !controlSubscribed && !dataSubscribed
      ensures old(running) && old(loaded) && old(connection).Some? && old(connection).value.deviceId.Some? ==>
        service.connected == old(service.connected) - {old(connection).value.deviceId.value} &&
        service.events == old(service.events) + [SyncService.DeviceDisconnected(old(connection).value.deviceId.value)]
      ensures old(connection).None? || old(connection).value.deviceId.None? ==>
        service.connected == old(service.connected) && service.events == old(service.events)
      ensures service.notes == old(service.notes) && service.pairedDevices == old(service.pairedDevices)
      ensures service.status == old(service.status) && service.savedPairedDevices == old(service.savedPairedDevices)
      ensures loaded == old(loaded) && controlSent == old(controlSent) && dataSent == old(dataSent)
    {
      if !running || !loaded {
        return;
      }
      if connection.Some? && connection.value.deviceId.Some? {
        service.RemoveConnectedDevice(connection.value.deviceId.value);
      }
      connection := None;
      controlSubscribed := false;
      dataSubscribed := false;
      running := false;
    }

    /** handleDataWrite: the connection after `data`, as ReceivePacket describes. */
    method HandleDataWrite(data: seq<byte>)
      modifies this
      ensures connection == ReceivePacket(old(connection), data)
      ensures controlSent == old(controlSent) && dataSent == old(dataSent) && running == old(running)
    {
      if connection.None? || !connection.value.authenticated {
        return;
      }
      if |data| < 1 {
        return;
      }
      var c := connection.value;
      if data[0] == PACKET_START {
        c := c.(receiveBuffer := [], receivedChunks := 0);
        if |data| >= 5 {
          c := c.(expectedChunks := ReadUInt32BE(data, 1));
        }
        connection := Some(c);
      } else if data[0] == PACKET_DATA {
        connection := Some(c.(receiveBuffer := c.receiveBuffer + [data[1..]],
                              receivedChunks := c.receivedChunks + 1));
      }
    }

    /**
     * handleAuth: a known token authenticates the connection, registers the
     * peer as a connected BLE device and answers auth-ok with this desktop's
     * id; an unknown one answers auth-fail and changes nothing else.
     */
    method HandleAuth(token: string, now: nat)
      requires service.Valid()
      modifies this, service
      ensures service.Valid()
      ensures old(connection).None? ==>
        connection == old(connection) && controlSent == old(controlSent) && unchanged(service)
      ensures old(connection).Some? ==>
        match FirstTokenIndex(old(service.pairedDevices), token)
        case None =>
          connection == old(connection) && controlSent == old(controlSent) + old(Reply(AuthFail)) &&
          service.connected == old(service.connected) && service.events == old(service.events) &&
          service.pairedDevices == old(service.pairedDevices)
        case Some(i) =>
          var t := old(service.pairedDevices)[i];
          && connection == Some(old(connection).value.(authenticated := true,
               deviceId := Some(t.deviceId), deviceName := Some(t.deviceName)))
          && service.pairedDevices == old(service.pairedDevices)[i := t.(lastUsed := now)]
          && service.connected == old(service.connected)[t.deviceId := AuthDevice(t, now)]
          && service.events == old(service.events) + [SyncService.DeviceConnected(AuthDevice(t, now))]
          && controlSent == old(controlSent) + old(Reply(AuthOk(service.deviceId)))
      ensures dataSent == old(dataSent) && running == old(running)
      ensures service.notes == old(service.notes)
    {
      if connection.None? {
        return;
      }
      var found := service.ValidateToken(token, now);
      if found.Some? {
        var t := found.value;
        connection := Some(connection.value.(authenticated := true,
                                             deviceId := Some(t.deviceId), deviceName := Some(t.deviceName)));
        service.AddConnectedDevice(AuthDevice(t, now));
        SendControlResponse(AuthOk(service.deviceId));
      } else {
        SendControlResponse(AuthFail);
      }
    }

    /**
     * The common tail of request-manifest and request-file: announce the
     * chunk count (`ready`), then send the frames; a failure to send
     * answers with `failure` instead.
     */
    method SendPayload(chunks: seq<seq<byte>>, ready: ControlResponse, failure: string)
      modifies this
      ensures dataSent == old(dataSent) + (if dataSubscribed && |chunks| < TWO_POW_32 then Frames(chunks) else [])
      ensures controlSent == old(controlSent) + old(Reply(ready)) +
        (if dataSubscribed && |chunks| >= TWO_POW_32 then old(Reply(ErrorMessage(failure))) else [])
      ensures connection == old(connection) && running == old(running)
      ensures controlSubscribed == old(controlSubscribed) && dataSubscribed == old(dataSubscribed)
    {
      SendControlResponse(ready);
      var ok := SendChunks(chunks);
      if !ok {
        SendControlResponse(ErrorMessage(failure));
      }
    }

    /** handleRequestManifest, with the manifest's JSON bytes (or a build failure) from the environment. */
    method HandleRequestManifest(env: Environment)
      requires EffectiveMtu() >= 2
      modifies this
      ensures env.manifestJson.None? ==>
        controlSent == old(controlSent) + old(Reply(ErrorMessage("Failed to build manifest"))) &&
        dataSent == old(dataSent)
      ensures env.manifestJson.Some? ==>
        var chunks := Chunks(MaybeCompress(env.manifestJson.value, env.gzip).0, old(EffectiveMtu()) - 1);
        && controlSent == old(controlSent) + old(Reply(ManifestReady(|chunks|))) +
             (if dataSubscribed && |chunks| >= TWO_POW_32 then old(Reply(ErrorMessage("Failed to build manifest"))) else [])
        && dataSent == old(dataSent) + (if dataSubscribed && |chunks| < TWO_POW_32 then Frames(chunks) else [])
      ensures connection == old(connection) && running == old(running)
    {
      if env.manifestJson.None? {
        SendControlResponse(ErrorMessage("Failed to build manifest"));
        return;
      }
      var compressed := MaybeCompress(env.manifestJson.value, env.gzip);
      var chunks := ChunkBuffer(compressed.0);
      SendPayload(chunks, ManifestReady(|chunks|), "Failed to build manifest");
    }

    /** handleRequestFile: the note's UTF-8 bytes, compressed when that pays, or 'File not found'. */
    method HandleRequestFile(path: string, env: Environment)
      requires EffectiveMtu() >= 2
      modifies this
      ensures service.NoteContent(path).None? ==>
        controlSent == old(controlSent) + old(Reply(ErrorMessage("File not found"))) &&
        dataSent == old(dataSent)
      ensures service.NoteContent(path).Some? ==>
        var packed := MaybeCompress(Utf8.Encode(service.NoteContent(path).value), env.gzip);
        var chunks := Chunks(packed.0, old(EffectiveMtu()) - 1);
        && controlSent == old(controlSent) + old(Reply(FileReady(path, |chunks|, packed.1))) +
             (if dataSubscribed && |chunks| >= TWO_POW_32 then old(Reply(ErrorMessage("File not found"))) else [])
        && dataSent == old(dataSent) + (if dataSubscribed && |chunks| < TWO_POW_32 then Frames(chunks) else [])
      ensures connection == old(connection) && running == old(running)
    {
      var content := service.NoteContent(path);
      if content.None? {
        SendControlResponse(ErrorMessage("File not found"));
        return;
      }
      var packed := MaybeCompress(Utf8.Encode(content.value), env.gzip);
      var chunks := ChunkBuffer(packed.0);
      SendPayload(chunks, FileReady(path, |chunks|, packed.1), "File not found");
    }

    /** handleSendFileStart: a new incoming transfer with empty buffer and counters, acknowledged. */
    method HandleSendFileStart(path: string)
      modifies this
      ensures old(connection).None? ==> connection == old(connection) && controlSent == old(controlSent)
      ensures old(connection).Some? ==>
        connection == Some(old(connection).value.(receiveBuffer := [], expectedChunks := 0,
                                                  receivedChunks := 0, currentTransfer := Some(path))) &&
        controlSent == old(controlSent) + old(Reply(Ack))
      ensures dataSent == old(dataSent) && running == old(running)
    {
      if connection.None? {
        return;
      }
      connection := Some(connection.value.(receiveBuffer := [], expectedChunks := 0,
                                           receivedChunks := 0, currentTransfer := Some(path)));
      SendControlResponse(Ack);
    }

    /**
     * handleSendFileEnd: applies the received bytes as the note (`env.writeOk`
     * says whether the write succeeds) and, either way, empties the buffer
     * and ends the transfer.
     */
    method HandleSendFileEnd(path: string, env: Environment)
      requires service.Valid()
      modifies this, service
      ensures service.Valid()
      ensures old(connection).None? ==>
        connection == old(connection) && controlSent == old(controlSent) && unchanged(service)
      ensures old(connection).Some? ==>
        && connection == Some(old(connection).value.(receiveBuffer := [], currentTransfer := None))
        && (env.writeOk ==>
             service.notes == old(service.notes)[path := ReceivedContent(old(connection).value.receiveBuffer, env)] &&
             controlSent == old(controlSent) + old(Reply(Ack)))
        && (!env.writeOk ==>
             service.notes == old(service.notes) &&
             controlSent == old(controlSent) + old(Reply(ErrorMessage("Failed to apply file"))))
      ensures service.connected == old(service.connected) && service.events == old(service.events)
      ensures dataSent == old(dataSent) && running == old(running)
    {
      if connection.None? {
        return;
      }
      var content := ReceivedContent(connection.value.receiveBuffer, env);
      if env.writeOk {
        service.ApplyRemoteNote(path, content);
        SendControlResponse(Ack);
      } else {
        SendControlResponse(ErrorMessage("Failed to apply file"));
      }
      connection := Some(connection.value.(receiveBuffer := [], currentTransfer := None));
    }

    /** handleDeleteFile: moves the note to the trash and acknowledges, or answers 'File not found'. */
    method HandleDeleteFile(path: string, now: nat)
      requires service.Valid()
      modifies this, service
      ensures service.Valid()
      ensures path in old(service.notes) ==>
        service.notes == (old(service.notes) - {path})[DesktopFileService.TrashPath(path, now) := old(service.notes)[path]] &&
        controlSent == old(controlSent) + old(Reply(Ack))
      ensures path !in old(service.notes) ==>
        service.notes == old(service.notes) &&
        controlSent == old(controlSent) + old(Reply(ErrorMessage("File not found")))
      ensures connection == old(connection) && dataSent == old(dataSent) && running == old(running)
      ensures service.connected == old(service.connected) && service.events == old(service.events)
    {
      var r := service.DeleteNote(path, now);
      if r.Ok? {
        SendControlResponse(Ack);
      } else {
        SendControlResponse(ErrorMessage("File not found"));
      }
    }

    /**
     * handleControlWrite, with `msg` the parsed message (None: the text is
     * not a valid message). The gate answers with an error and changes
     * nothing else; past it the message goes to its handler.
     */
    method HandleControlWrite(msg: Option<ControlCommand>, env: Environment)
      requires service.Valid() && EffectiveMtu() >= 2
      modifies this, service
      ensures service.Valid()
      ensures old(GateError(connection, msg)).Some? ==>
        && controlSent == old(controlSent) + old(Reply(ErrorMessage(GateError(connection, msg).value)))
        && connection == old(connection) && dataSent == old(dataSent)
        && unchanged(service)
      ensures old(GateError(connection, msg)).None? && msg.value.Auth? ==>
        match FirstTokenIndex(old(service.pairedDevices), msg.value.token)
        case None =>
          connection == old(connection) && controlSent == old(controlSent) + old(Reply(AuthFail)) &&
          service.connected == old(service.connected) && service.events == old(service.events) &&
          service.pairedDevices == old(service.pairedDevices)
        case Some(i) =>
          var t := old(service.pairedDevices)[i];
          && connection == Some(old(connection).value.(authenticated := true,
               deviceId := Some(t.deviceId), deviceName := Some(t.deviceName)))
          && service.pairedDevices == old(service.pairedDevices)[i := t.(lastUsed := env.now)]
          && service.connected == old(service.connected)[t.deviceId := AuthDevice(t, env.now)]
          && service.events == old(service.events) + [SyncService.DeviceConnected(AuthDevice(t, env.now))]
          && controlSent == old(controlSent) + old(Reply(AuthOk(service.deviceId)))
      ensures old(GateError(connection, msg)).None? && msg.value.RequestManifest? ==>
        && connection == old(connection)
        && (env.manifestJson.None? ==>
             controlSent == old(controlSent) + old(Reply(ErrorMessage("Failed to build manifest"))) &&
             dataSent == old(dataSent))
        && (env.manifestJson.Some? ==>
             var chunks := Chunks(MaybeCompress(env.manifestJson.value, env.gzip).0, old(EffectiveMtu()) - 1);
             && controlSent == old(controlSent) + old(Reply(ManifestReady(|chunks|))) +
                  (if dataSubscribed && |chunks| >= TWO_POW_32 then old(Reply(ErrorMessage("Failed to build manifest"))) else [])
             && dataSent == old(dataSent) + (if dataSubscribed && |chunks| < TWO_POW_32 then Frames(chunks) else []))
      ensures old(GateError(connection, msg)).None? && msg.value.RequestFile? ==>
        var content := old(service.NoteContent(msg.value.path));
        && connection == old(connection)
        && (content.None? ==>
             controlSent == old(controlSent) + old(Reply(ErrorMessage("File not found"))) &&
             dataSent == old(dataSent))
        && (content.Some? ==>
             var packed := MaybeCompress(Utf8.Encode(content.value), env.gzip);
             var chunks := Chunks(packed.0, old(EffectiveMtu()) - 1);
             && controlSent == old(controlSent) + old(Reply(FileReady(msg.value.path, |chunks|, packed.1))) +
                  (if dataSubscribed && |chunks| >= TWO_POW_32 then old(Reply(ErrorMessage("File not found"))) else [])
             && dataSent == old(dataSent) + (if dataSubscribed && |chunks| < TWO_POW_32 then Frames(chunks) else []))
      ensures old(GateError(connection, msg)).None? && msg.value.SendFileStart? ==>
        && connection == Some(old(connection).value.(receiveBuffer := [], expectedChunks := 0,
                                                     receivedChunks := 0, currentTransfer := Some(msg.value.path)))
        && controlSent == old(controlSent) + old(Reply(Ack))
      ensures old(GateError(connection, msg)).None? && msg.value.SendFileEnd? ==>
        && connection == Some(old(connection).value.(receiveBuffer := [], currentTransfer := None))
        && (env.writeOk ==>
             service.notes == old(service.notes)[msg.value.path := ReceivedContent(old(connection).value.receiveBuffer, env)] &&
             controlSent == old(controlSent) + old(Reply(Ack)))
        && (!env.writeOk ==>
             service.notes == old(service.notes) &&
             controlSent == old(controlSent) + old(Reply(ErrorMessage("Failed to apply file"))))
      ensures old(GateError(connection, msg)).None? && msg.value.DeleteFile? ==>
        var path := msg.value.path;
        && connection == old(connection)
        && (path in old(service.notes) ==>
             service.notes == (old(service.notes) - {path})[DesktopFileService.TrashPath(path, env.now) := old(service.notes)[path]] &&
             controlSent == old(controlSent) + old(Reply(Ack)))
        && (path !in old(service.notes) ==>
             service.notes == old(service.notes) &&
             controlSent == old(controlSent) + old(Reply(ErrorMessage("File not found"))))
      ensures old(GateError(connection, msg)).None? && msg.value.SyncComplete? ==>
        service.status == Idle && service.events == old(service.events) + SyncService.StatusEvents(old(service.status), Idle) &&
        controlSent == old(controlSent) + old(Reply(Ack)) &&
        connection == old(connection) && service.notes == old(service.notes)
      ensures old(GateError(connection, msg)).None? && msg.value.Unrecognized? ==>
        controlSent == old(controlSent) && connection == old(connection) && unchanged(service)
      ensures running == old(running)
    {
      var gate := GateError(connection, msg);
      if gate.Some? {
        SendControlResponse(ErrorMessage(gate.value));
        return;
      }
      match msg.value
      case Auth(token) => HandleAuth(token, env.now);
      case RequestManifest => HandleRequestManifest(env);
      case RequestFile(path) => HandleRequestFile(path, env);
      case SendFileStart(path, _, _) => HandleSendFileStart(path);
      case SendFileEnd(path) => HandleSendFileEnd(path, env);
      case DeleteFile(path) => HandleDeleteFile(path, env.now);
      case SyncComplete =>
        service.SetStatus(Idle);
        SendControlResponse(Ack);
      case Unrecognized(_) =>
    }

    /** broadcastFileChange and broadcastSyncStatus: only to an authenticated peer with a control subscriber. */
    method Broadcast(message: ControlResponse)
      requires message.FileChanged? || message.SyncStatusChanged?
      modifies this
      ensures controlSent == old(controlSent) +
        (if old(connection).Some? && old(connection).value.authenticated && old(controlSubscribed)
         then [message] else [])
      ensures connection == old(connection) && dataSent == old(dataSent) && running == old(running)
    {
      if connection.None? || !connection.value.authenticated || !controlSubscribed {
        return;
      }
      controlSent := controlSent + [message];
    }
  }
}
