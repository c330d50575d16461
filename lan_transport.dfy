// The LAN transport: the HTTP server's port probe, its bearer-token gate and
// routes, the WebSocket sessions with their authentication handshake, and
// the broadcasts to authenticated sockets.
module LanTransport {
  import opened Wrappers
  import opened Bytes
  import opened Strings
  import opened Paths
  import opened SyncModels
  import opened SyncAuth
  import SyncProtocol
  import DesktopFileService
  import SyncService

  // ---- mDNS advertisement ------------------------------------------------------

  /** The advertised service name: the app name and the first 8 characters of the device id. */
  function MdnsName(deviceId: string): (r: string)
    ensures StartsWith(r, APP_NAME + "-")
    ensures |r| == |APP_NAME| + 1 + (if |deviceId| < 8 then |deviceId| else 8)
    ensures StartsWith(deviceId, r[|APP_NAME| + 1..])
  {
    var head := APP_NAME + "-";
    var id := if |deviceId| < 8 then deviceId else deviceId[..8];
    assert (head + id)[..|head|] == head;
    assert (head + id)[|head|..] == id;
    head + id
  }

  /** The DNS-SD type without its leading underscore and trailing `._tcp`, as bonjour expects it. */
  function ServiceType(name: string): (r: string)
    ensures |r| <= |name|
  {
    var noUnderscore := if StartsWith(name, "_") then name[1..] else name;
    if EndsWith(noUnderscore, "._tcp") then noUnderscore[..|noUnderscore| - 5] else noUnderscore
  }

  /** Stripping undoes the decoration: `_x._tcp` becomes `x`. */
  lemma ServiceTypeOfDecorated(x: string)
    ensures ServiceType("_" + x + "._tcp") == x
  {
    var name := "_" + x + "._tcp";
    assert StartsWith(name, "_");
    var rest := name[1..];
    assert rest == x + "._tcp";
    assert rest[|rest| - 5..] == "._tcp";
    assert rest[..|rest| - 5] == x;
  }

  lemma SyncServiceType()
    ensures ServiceType(SYNC_SERVICE_NAME) == "ai-note-sync"
  {
    ServiceTypeOfDecorated("ai-note-sync");
    assert "_" + "ai-note-sync" + "._tcp" == SYNC_SERVICE_NAME;
  }

  datatype MdnsService = MdnsService(name: string, serviceType: string, port: nat, deviceId: string, version: string)

  /** What startMdnsAdvertisement publishes for this device on `port`. */
  function Advertisement(deviceId: string, port: nat): (a: MdnsService)
    ensures a.port == port && a.deviceId == deviceId && a.version == "1"
    ensures a.name == MdnsName(deviceId) && a.serviceType == ServiceType(SYNC_SERVICE_NAME)
  {
    MdnsService(MdnsName(deviceId), ServiceType(SYNC_SERVICE_NAME), port, deviceId, "1")
  }

  // ---- network interfaces --------------------------------------------------------

  datatype NetInterface = NetInterface(family: string, internal: bool, address: string)

  predicate External(i: NetInterface)
  {
    i.family == "IPv4" && !i.internal
  }

  // ---- HTTP ------------------------------------------------------------------------

  datatype ResponseBody =
    | ErrorBody(error: string)
    | StatusBody(deviceId: string, deviceName: string, appVersion: string,
                 syncEnabled: bool, requiresPairing: bool, workspaceName: string)
    | TokenBody(token: string)
    | ManifestBody(manifest: NoteManifest)
    | DeltaBody(delta: SyncDelta)
    | NoteBody(path: string, content: string)
    | SuccessBody
    | CompleteBody(timestamp: nat)

  datatype HttpResponse = HttpResponse(code: nat, body: ResponseBody)

  /** The token of an `Authorization: Bearer <token>` header. */
  function BearerToken(header: Option<string>): (r: Option<string>)
    ensures r.Some? <==> header.Some? && StartsWith(header.value, "Bearer ")
    ensures r.Some? ==> header.value == "Bearer " + r.value
  {
    if header.Some? && StartsWith(header.value, "Bearer ") then
      assert header.value == header.value[..7] + header.value[7..];
      Some(header.value[7..])
    else None
  }

  lemma BearerTokenOfHeader(token: string)
    ensures BearerToken(Some("Bearer " + token)) == Some(token)
  {
    var h := "Bearer " + token;
    assert h[..7] == "Bearer ";
    assert h[7..] == token;
  }

  /** The 401 reply authMiddleware sends, if any, given the stored tokens. */
  function AuthRejection(header: Option<string>, tokens: seq<AuthToken>): (r: Option<HttpResponse>)
    ensures r.None? <==> BearerToken(header).Some? && FirstTokenIndex(tokens, BearerToken(header).value).Some?
    ensures r.Some? ==> r.value.code == 401
  {
    match BearerToken(header)
    case None => Some(HttpResponse(401, ErrorBody("Missing or invalid authorization header")))
    case Some(t) =>
      if FirstTokenIndex(tokens, t).None? then Some(HttpResponse(401, ErrorBody("Invalid token"))) else None
  }

  /** A JSON field given and not empty: what the source's truthiness checks accept. */
  predicate Given(field: Option<string>)
  {
    field.Some? && field.value != ""
  }

  datatype PairRequest = PairRequest(deviceId: Option<string>, pin: Option<string>, deviceName: Option<string>)

  datatype ListenOutcome = Listening | AddressInUse | ListenFailed

  // ---- WebSocket ---------------------------------------------------------------------

  datatype ReadyState = Open | Closing | Closed

  datatype WsOutgoing = AuthSuccess | FileChangedMessage(event: DesktopFileService.FileChangeEvent)
                      | SyncStatusMessage(status: SyncStatus)

  /** A parsed incoming message; a JSON parse failure is None. */
  datatype WsCommand = WsAuth(token: string) | RequestSync | OtherMessage

  /** The state the `/ws` handler keeps per socket. */
  datatype WsSession = WsSession(
    authenticated: bool,
    deviceId: Option<string>,
    timerPending: bool,
    readyState: ReadyState,
    closeCode: Option<nat>,
    sent: seq<WsOutgoing>)

  function NewSession(): (s: WsSession)
    ensures !s.authenticated && s.deviceId.None? && s.timerPending && s.readyState == Open && s.sent == []
  {
    WsSession(false, None, true, Open, None, [])
  }

  /** ws.close(code): an open socket starts closing with that code; otherwise nothing happens. */
  function CloseSession(s: WsSession, code: nat): (r: WsSession)
    ensures s.readyState == Open ==> r == s.(readyState := Closing, closeCode := Some(code))
    ensures s.readyState != Open ==> r == s
  {
    if s.readyState == Open then s.(readyState := Closing, closeCode := Some(code)) else s
  }

  /** stop()'s loop over the authenticated sockets: each one still known is closed with code 1000. */
  method CloseAll(sessions: map<nat, WsSession>, targets: set<nat>) returns (ss: map<nat, WsSession>)
    ensures ss.Keys == sessions.Keys
    ensures forall id :: id in ss ==>
      ss[id] == if id in targets then CloseSession(sessions[id], 1000) else sessions[id]
  {
    ss := sessions;
    var todo := targets;
    while todo != {}
      invariant todo <= targets
      invariant ss.Keys == sessions.Keys
      invariant forall id :: id in ss ==>
        ss[id] == if id in targets - todo then CloseSession(sessions[id], 1000) else sessions[id]
      decreases |todo|
    {
      var id :| id in todo;
      if id in ss {
        ss := ss[id := CloseSession(ss[id], 1000)];
      }
      todo := todo - {id};
    }
  }

  /** ws.send guarded by readyState OPEN, as the broadcasts do. */
  function Deliver(s: WsSession, m: WsOutgoing): (r: WsSession)
    ensures s.readyState == Open ==> r == s.(sent := s.sent + [m])
    ensures s.readyState != Open ==> r == s
  {
    if s.readyState == Open then s.(sent := s.sent + [m]) else s
  }

  /** The device record a socket registers once its token checks out. */
  function LanDevice(t: AuthToken, now: nat): (d: SyncDevice)
    ensures d.id == t.deviceId && d.name == t.deviceName && d.transport == Lan
    ensures d.deviceType == MobileDevice && d.isPaired && d.isConnected && d.lastSeen == now
  {
    SyncDevice(t.deviceId, t.deviceName, MobileDevice, Lan, now, true, true)
  }

  class LanSyncTransport {
    const service: SyncService.SyncService
    var port: nat
    var running: bool
    var advertisement: Option<MdnsService>
    /** Every socket the `/ws` route accepted, by socket id. */
    var sessions: map<nat, WsSession>
    var nextSocket: nat
    /** authenticatedSockets: device id to socket id. */
    var authenticatedSockets: map<string, nat>

    /**
     * Every registered socket exists and authenticated as the device it is
     * filed under; a socket names a device only once authenticated.
     */
    predicate Valid()
      reads this
    {
      && (forall d :: d in authenticatedSockets ==>
            authenticatedSockets[d] in sessions && sessions[authenticatedSockets[d]].deviceId == Some(d))
      && (forall id :: id in sessions ==> id < nextSocket)
      && (forall id :: id in sessions && !sessions[id].authenticated ==> sessions[id].deviceId.None?)
    }

    constructor (service: SyncService.SyncService, port: nat)
      ensures Valid() && this.service == service && this.port == port && !running
      ensures advertisement.None? && sessions == map[] && authenticatedSockets == map[]
    {
      this.service := service;
      this.port := port;
      running := false;
      advertisement := None;
      sessions := map[];
      nextSocket := 0;
      authenticatedSockets := map[];
    }

    /**
     * start: listens on the configured port or, while it is in use, on one
     * of the next ten; any other failure, or eleven ports in use, fails the
     * start. `outcome` says what listening on each port does.
     */
    method Start(outcome: nat -> ListenOutcome) returns (r: Result<()>)
      requires Valid()
      modifies this
      ensures Valid()
      ensures old(running) ==> r.Ok? && port == old(port) && advertisement == old(advertisement)
      ensures !old(running) ==>
        (r.Ok? <==> exists p :: old(port) <= p <= old(port) + 10 && outcome(p) == Listening &&
                      forall q :: old(port) <= q < p ==> outcome(q) == AddressInUse)
      ensures !old(running) && r.Ok? ==>
        && old(port) <= port <= old(port) + 10 && outcome(port) == Listening
        && (forall q :: old(port) <= q < port ==> outcome(q) == AddressInUse)
        && advertisement == Some(Advertisement(service.deviceId, port))
      ensures !old(running) && r.Err? ==> port == old(port) && advertisement == old(advertisement)
      ensures running == (old(running) || r.Ok?)
      ensures sessions == old(sessions) && authenticatedSockets == old(authenticatedSockets)
    {
      if running {
        return Ok(());
      }
      var base := port;
      var i := 0;
      while true
        invariant 0 <= i <= 10
        invariant forall q :: base <= q < base + i ==> outcome(q) == AddressInUse
        decreases 10 - i
      {
        var o := outcome(base + i);
        if o == Listening {
          port := base + i;
          break;
        }
        if o == AddressInUse && i < 10 {
          i := i + 1;
          continue;
        }
        return Err(if o == AddressInUse then "EADDRINUSE" else "listen failed");
      }
      advertisement := Some(Advertisement(service.deviceId, port));
      running := true;
      return Ok(());
    }

    /**
     * stop: closes every authenticated socket with 1000, forgets them all
     * and withdraws the advertisement. Unauthenticated sockets are not
     * closed here.
     */
    method Stop()
      requires Valid()
      modifies this
      ensures Valid()
      ensures !old(running) ==>
        sessions == old(sessions) && authenticatedSockets == old(authenticatedSockets) &&
        advertisement == old(advertisement) && !running
      ensures old(running) ==>
        && !running && advertisement.None? && authenticatedSockets == map[]
        && sessions.Keys == old(sessions).Keys
        && (forall id :: id in sessions ==>
              sessions[id] == if id in old(authenticatedSockets).Values then CloseSession(old(sessions)[id], 1000)
                              else old(sessions)[id])
      ensures port == old(port)
    {
      if !running {
        return;
      }
      advertisement := None;
      sessions := CloseAll(sessions, authenticatedSockets.Values);
      authenticatedSockets := map[];
      running := false;
    }

    /** getLocalIP: the address of the first external IPv4 interface, or the loopback address. */
    static method LocalIp(interfaces: seq<NetInterface>) returns (ip: string)
      ensures (forall i :: 0 <= i < |interfaces| ==> !External(interfaces[i])) ==> ip == "127.0.0.1"
      ensures (exists i :: 0 <= i < |interfaces| && External(interfaces[i])) ==>
        exists i :: 0 <= i < |interfaces| && External(interfaces[i]) && ip == interfaces[i].address &&
          forall j :: 0 <= j < i ==> !External(interfaces[j])
    {
      var i := 0;
      while i < |interfaces|
        invariant 0 <= i <= |interfaces|
        invariant forall j :: 0 <= j < i ==> !External(interfaces[j])
      {
        if External(interfaces[i]) {
          return interfaces[i].address;
        }
        i := i + 1;
      }
      return "127.0.0.1";
    }

    // ---- routes ----

    /** The preHandler: a well-formed header with a known token passes and refreshes its lastUsed. */
    method Authenticate(authorization: Option<string>, now: int) returns (rejection: Option<HttpResponse>)
      requires service.Valid()
      modifies service
      ensures service.Valid()
      ensures rejection == AuthRejection(authorization, old(service.pairedDevices))
      ensures rejection.Some? ==> service.pairedDevices == old(service.pairedDevices)
      ensures rejection.None? ==>
        var i := FirstTokenIndex(old(service.pairedDevices), BearerToken(authorization).value).value;
        service.pairedDevices == old(service.pairedDevices)[i := old(service.pairedDevices)[i].(lastUsed := now)]
      ensures service.notes == old(service.notes) && service.status == old(service.status)
      ensures service.connected == old(service.connected) && service.events == old(service.events)
      ensures service.pairing == old(service.pairing)
    {
      var token := BearerToken(authorization);
      if token.None? {
        return Some(HttpResponse(401, ErrorBody("Missing or invalid authorization header")));
      }
      var found := service.ValidateToken(token.value, now);
      if found.None? {
        return Some(HttpResponse(401, ErrorBody("Invalid token")));
      }
      return None;
    }

    /** GET /api/sync/status: public; names this device and the workspace folder. */
    method HandleStatus(workspacePath: string) returns (resp: HttpResponse)
      ensures resp == HttpResponse(200, StatusBody(service.deviceId, APP_NAME, "0.1.0", true, true,
                                                   Basename(workspacePath)))
    {
      resp := HttpResponse(200, StatusBody(service.deviceId, APP_NAME, "0.1.0", true, true, Basename(workspacePath)));
    }

    /** POST /api/sync/pair: public; all three fields are required, then the PIN decides. */
    method HandlePair(body: PairRequest, random: seq<byte>, now: int) returns (resp: HttpResponse)
      requires service.Valid() && |random| == TOKEN_BYTES
      modifies service
      ensures service.Valid()
      ensures !(Given(body.deviceId) && Given(body.pin) && Given(body.deviceName)) ==>
        resp == HttpResponse(400, ErrorBody("Missing deviceId, pin, or deviceName")) && unchanged(service)
      ensures Given(body.deviceId) && Given(body.pin) && Given(body.deviceName) ==>
        var accepted := old(service.pairing).Some? && old(service.pairingPin).value != [] &&
          now <= old(service.pairing).value.expiresAt && body.pin.value == old(service.pairingPin).value;
        && (!accepted ==>
             resp == HttpResponse(401, ErrorBody("Invalid PIN or pairing expired")) &&
             service.pairedDevices == old(service.pairedDevices) &&
             service.savedPairedDevices == old(service.savedPairedDevices) &&
             service.pairing == old(service.pairing) && service.pairingPin == old(service.pairingPin))
        && (accepted ==>
             var t := CreateAuthToken(body.deviceId.value, body.deviceName.value, random, now);
             resp == HttpResponse(200, TokenBody(t.token)) &&
             service.pairedDevices == old(service.pairedDevices) + [t] &&
             service.savedPairedDevices == service.pairedDevices &&
             service.pairing.None? && service.pairingPin.None?)
      ensures service.notes == old(service.notes) && service.connected == old(service.connected)
      ensures service.status == old(service.status) && service.events == old(service.events)
    {
      if !(Given(body.deviceId) && Given(body.pin) && Given(body.deviceName)) {
        return HttpResponse(400, ErrorBody("Missing deviceId, pin, or deviceName"));
      }
      var token := service.ValidatePairing(body.deviceId.value, body.pin.value, body.deviceName.value, random, now);
      if token.None? {
        return HttpResponse(401, ErrorBody("Invalid PIN or pairing expired"));
      }
      return HttpResponse(200, TokenBody(token.value.token));
    }

    /** GET /api/sync/manifest: the manifest buildManifest produced (`manifest`) for an authorised caller. */
    method HandleManifest(authorization: Option<string>, manifest: NoteManifest, now: int) returns (resp: HttpResponse)
      requires service.Valid()
      modifies service
      ensures service.Valid()
      ensures AuthRejection(authorization, old(service.pairedDevices)).Some? ==>
        resp == AuthRejection(authorization, old(service.pairedDevices)).value
      ensures AuthRejection(authorization, old(service.pairedDevices)).None? ==>
        resp == HttpResponse(200, ManifestBody(manifest))
      ensures service.notes == old(service.notes) && service.status == old(service.status)
    {
      var rejection := Authenticate(authorization, now);
      if rejection.Some? {
        return rejection.value;
      }
      return HttpResponse(200, ManifestBody(manifest));
    }

    /**
     * POST /api/sync/delta: the delta between the local manifest and the
     * posted one; a missing manifest is answered with an error body and
     * status 200.
     */
    method HandleDelta(authorization: Option<string>, remote: Option<NoteManifest>, local: NoteManifest, now: int)
      returns (resp: HttpResponse)
      requires service.Valid()
      modifies service
      ensures service.Valid()
      ensures AuthRejection(authorization, old(service.pairedDevices)).Some? ==>
        resp == AuthRejection(authorization, old(service.pairedDevices)).value
      ensures AuthRejection(authorization, old(service.pairedDevices)).None? ==>
        resp == if remote.None? then HttpResponse(200, ErrorBody("Missing remoteManifest"))
                else HttpResponse(200, DeltaBody(SyncProtocol.Delta(local, remote.value)))
      ensures service.notes == old(service.notes) && service.status == old(service.status)
    {
      var rejection := Authenticate(authorization, now);
      if rejection.Some? {
        return rejection.value;
      }
      if remote.None? {
        return HttpResponse(200, ErrorBody("Missing remoteManifest"));
      }
      return HttpResponse(200, DeltaBody(SyncProtocol.Delta(local, remote.value)));
    }

    /** GET /api/notes/<path>: the note's content, 400 for an empty path, 404 for a missing note. */
    method HandleGetNote(authorization: Option<string>, notePath: string, now: int) returns (resp: HttpResponse)
      requires service.Valid()
      modifies service
      ensures service.Valid()
      ensures AuthRejection(authorization, old(service.pairedDevices)).Some? ==>
        resp == AuthRejection(authorization, old(service.pairedDevices)).value
      ensures AuthRejection(authorization, old(service.pairedDevices)).None? ==>
        && (notePath == [] ==> resp == HttpResponse(400, ErrorBody("Missing note path")))
        && (notePath != [] && notePath !in old(service.notes) ==> resp == HttpResponse(404, ErrorBody("Note not found")))
        && (notePath != [] && notePath in old(service.notes) ==>
              resp == HttpResponse(200, NoteBody(notePath, old(service.notes)[notePath])))
      ensures service.notes == old(service.notes) && service.status == old(service.status)
    {
      var rejection := Authenticate(authorization, now);
      if rejection.Some? {
        return rejection.value;
      }
      if notePath == [] {
        return HttpResponse(400, ErrorBody("Missing note path"));
      }
      var content := service.NoteContent(notePath);
      if content.None? {
        return HttpResponse(404, ErrorBody("Note not found"));
      }
      return HttpResponse(200, NoteBody(notePath, content.value));
    }

    /** PUT /api/notes/<path>: writes the posted content; an empty path or no content is a 400. */
    method HandlePutNote(authorization: Option<string>, notePath: string, content: Option<string>, now: int)
      returns (resp: HttpResponse)
      requires service.Valid()
      modifies service
      ensures service.Valid()
      ensures AuthRejection(authorization, old(service.pairedDevices)).Some? ==>
        resp == AuthRejection(authorization, old(service.pairedDevices)).value && service.notes == old(service.notes)
      ensures AuthRejection(authorization, old(service.pairedDevices)).None? ==>
        && (notePath == [] || content.None? ==>
              resp == HttpResponse(400, ErrorBody("Missing note path or content")) && service.notes == old(service.notes))
        && (notePath != [] && content.Some? ==>
              resp == HttpResponse(200, SuccessBody) && service.notes == old(service.notes)[notePath := content.value])
      ensures service.status == old(service.status) && service.connected == old(service.connected)
    {
      var rejection := Authenticate(authorization, now);
      if rejection.Some? {
        return rejection.value;
      }
      if notePath == [] || content.None? {
        return HttpResponse(400, ErrorBody("Missing note path or content"));
      }
      service.ApplyRemoteNote(notePath, content.value);
      return HttpResponse(200, SuccessBody);
    }

    /** DELETE /api/notes/<path>: moves the note to the trash; 400 for an empty path, 404 for a missing note. */
    method HandleDeleteNote(authorization: Option<string>, notePath: string, now: nat) returns (resp: HttpResponse)
      requires service.Valid()
      modifies service
      ensures service.Valid()
      ensures AuthRejection(authorization, old(service.pairedDevices)).Some? ==>
        resp == AuthRejection(authorization, old(service.pairedDevices)).value && service.notes == old(service.notes)
      ensures AuthRejection(authorization, old(service.pairedDevices)).None? ==>
        && (notePath == [] ==>
              resp == HttpResponse(400, ErrorBody("Missing note path")) && service.notes == old(service.notes))
        && (notePath != [] && notePath !in old(service.notes) ==>
              resp == HttpResponse(404, ErrorBody("Note not found")) && service.notes == old(service.notes))
        && (notePath != [] && notePath in old(service.notes) ==>
              resp == HttpResponse(200, SuccessBody) &&
              service.notes == (old(service.notes) - {notePath})[
                DesktopFileService.TrashPath(notePath, now) := old(service.notes)[notePath]])
      ensures service.status == old(service.status) && service.connected == old(service.connected)
    {
      var rejection := Authenticate(authorization, now);
      if rejection.Some? {
        return rejection.value;
      }
      if notePath == [] {
        return HttpResponse(400, ErrorBody("Missing note path"));
      }
      var r := service.DeleteNote(notePath, now);
      if r.Err? {
        return HttpResponse(404, ErrorBody("Note not found"));
      }
      return HttpResponse(200, SuccessBody);
    }

    /** POST /api/sync/complete: the service goes idle; the reply carries the time. */
    method HandleComplete(authorization: Option<string>, now: nat) returns (resp: HttpResponse)
      requires service.Valid()
      modifies service
      ensures service.Valid()
      ensures AuthRejection(authorization, old(service.pairedDevices)).Some? ==>
        resp == AuthRejection(authorization, old(service.pairedDevices)).value && service.status == old(service.status)
      ensures AuthRejection(authorization, old(service.pairedDevices)).None? ==>
        resp == HttpResponse(200, CompleteBody(now)) && service.status == Idle
      ensures service.notes == old(service.notes) && service.connected == old(service.connected)
    {
      var rejection := Authenticate(authorization, now);
      if rejection.Some? {
        return rejection.value;
      }
      service.SetStatus(Idle);
      return HttpResponse(200, CompleteBody(now));
    }

    // ---- WebSocket ----

    /** A connection on `/ws`: a new unauthenticated session with its 10-second timer armed. */
    method OnSocketOpen() returns (id: nat)
      requires Valid()
      modifies this
      ensures Valid()
      ensures id !in old(sessions) && sessions == old(sessions)[id := NewSession()]
      ensures authenticatedSockets == old(authenticatedSockets) && running == old(running)
    {
      id := nextSocket;
      sessions := sessions[id := NewSession()];
      nextSocket := nextSocket + 1;
    }

    /** The auth timer fires: a socket still unauthenticated is closed with 4001. */
    method OnAuthTimeout(id: nat)
      requires Valid()
      modifies this
      ensures Valid()
      ensures id in old(sessions) && old(sessions)[id].timerPending && !old(sessions)[id].authenticated ==>
        sessions == old(sessions)[id := CloseSession(old(sessions)[id], 4001).(timerPending := false)]
      ensures !(id in old(sessions) && old(sessions)[id].timerPending && !old(sessions)[id].authenticated) ==>
        sessions == old(sessions)
      ensures authenticatedSockets == old(authenticatedSockets) && running == old(running)
    {
      if id in sessions && sessions[id].timerPending && !sessions[id].authenticated {
        sessions := sessions[id := CloseSession(sessions[id], 4001).(timerPending := false)];
      }
    }

    /**
     * A message on socket `id` (None: not valid JSON, ignored). Before
     * authentication only an auth message with a token is accepted: a known
     * token authenticates the socket, files it under its device, registers
     * the device and answers auth-success; an unknown token closes with
     * 4003, anything else with 4002. Afterwards request-sync sets the
     * service syncing.
     */
    method OnSocketMessage(id: nat, msg: Option<WsCommand>, now: nat)
      requires Valid() && service.Valid()
      modifies this, service
      ensures Valid() && service.Valid()
      ensures id !in old(sessions) || old(sessions)[id].readyState == Closed || msg.None? ==>
        sessions == old(sessions) && authenticatedSockets == old(authenticatedSockets) &&
        service.status == old(service.status) && service.connected == old(service.connected)
      ensures id in old(sessions) && old(sessions)[id].readyState != Closed && msg.Some? ==>
        var s := old(sessions)[id];
        && (!s.authenticated && !(msg.value.WsAuth? && msg.value.token != []) ==>
              sessions == old(sessions)[id := CloseSession(s, 4002)] &&
              authenticatedSockets == old(authenticatedSockets) && service.connected == old(service.connected))
        && (!s.authenticated && msg.value.WsAuth? && msg.value.token != [] ==>
              match FirstTokenIndex(old(service.pairedDevices), msg.value.token)
              case None =>
                sessions == old(sessions)[id := CloseSession(s, 4003)] &&
                authenticatedSockets == old(authenticatedSockets) && service.connected == old(service.connected)
              case Some(i) =>
                var t := old(service.pairedDevices)[i];
                && sessions == old(sessions)[id := s.(authenticated := true, deviceId := Some(t.deviceId),
                                                      timerPending := false, sent := s.sent + [AuthSuccess])]
                && authenticatedSockets == old(authenticatedSockets)[t.deviceId := id]
                && service.connected == old(service.connected)[t.deviceId := LanDevice(t, now)])
        && (s.authenticated ==>
              sessions == old(sessions) && authenticatedSockets == old(authenticatedSockets) &&
              service.connected == old(service.connected) &&
              service.status == (if msg.value.RequestSync? then Syncing else old(service.status)))
      ensures service.notes == old(service.notes) && running == old(running)
    {
      if id !in sessions || sessions[id].readyState == Closed || msg.None? {
        return;
      }
      var s := sessions[id];
      if !s.authenticated {
        if msg.value.WsAuth? && msg.value.token != [] {
          var found := service.ValidateToken(msg.value.token, now);
          if found.Some? {
            var t := found.value;
            sessions := sessions[id := s.(authenticated := true, deviceId := Some(t.deviceId),
                                          timerPending := false, sent := s.sent + [AuthSuccess])];
            authenticatedSockets := authenticatedSockets[t.deviceId := id];
            service.AddConnectedDevice(LanDevice(t, now));
          } else {
            sessions := sessions[id := CloseSession(s, 4003)];
          }
        } else {
          sessions := sessions[id := CloseSession(s, 4002)];
        }
        return;
      }
      if msg.value.RequestSync? {
        service.SetStatus(Syncing);
      }
    }

    /**
     * The socket's 'close' event: the timer is cleared and, for an
     * authenticated socket, its device is unfiled and unregistered, even
     * when the device has since authenticated on another socket.
     */
    method OnSocketClose(id: nat)
      requires Valid() && service.Valid()
      modifies this, service
      ensures Valid() && service.Valid()
      ensures id !in old(sessions) ==>
        sessions == old(sessions) && authenticatedSockets == old(authenticatedSockets) && unchanged(service)
      ensures id in old(sessions) ==>
        var s := old(sessions)[id];
        && sessions == old(sessions)[id := s.(readyState := Closed, timerPending := false)]
        && (s.deviceId.Some? ==>
              authenticatedSockets == old(authenticatedSockets) - {s.deviceId.value} &&
              service.connected == old(service.connected) - {s.deviceId.value})
        && (s.deviceId.None? ==>
              authenticatedSockets == old(authenticatedSockets) && service.connected == old(service.connected))
      ensures service.notes == old(service.notes) && running == old(running)
    {
      if id !in sessions {
        return;
      }
      var s := sessions[id];
      sessions := sessions[id := s.(readyState := Closed, timerPending := false)];
      if s.deviceId.Some? {
        authenticatedSockets := authenticatedSockets - {s.deviceId.value};
        service.RemoveConnectedDevice(s.deviceId.value);
      }
    }

    /** broadcastFileChange and broadcastSyncStatus: to every authenticated socket still open. */
    method Broadcast(m: WsOutgoing)
      requires Valid() && !m.AuthSuccess?
      modifies this
      ensures Valid()
      ensures sessions.Keys == old(sessions).Keys
      ensures forall id :: id in sessions ==>
        sessions[id] == if id in old(authenticatedSockets).Values then Deliver(old(sessions)[id], m)
                        else old(sessions)[id]
      ensures authenticatedSockets == old(authenticatedSockets) && running == old(running)
    {
      var targets := authenticatedSockets.Values;
      var ss := sessions;
      var todo := targets;
      while todo != {}
        invariant todo <= targets
        invariant ss.Keys == sessions.Keys
        invariant forall id :: id in ss ==>
          ss[id] == if id in targets - todo then Deliver(sessions[id], m) else sessions[id]
        decreases |todo|
      {
        var id :| id in todo;
        if id in ss {
          ss := ss[id := Deliver(ss[id], m)];
        }
        todo := todo - {id};
      }
      assert forall id :: id in ss && id in sessions ==> ss[id].deviceId == sessions[id].deviceId;
      sessions := ss;
    }
  }
}
