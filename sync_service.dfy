// The sync orchestrator: sync status, registered transports, connected
// devices, the outstanding pairing, the paired-token list of the config store,
// the note store conflicts are resolved into, and the events it emits.
module SyncService {
  import opened Wrappers
  import opened Bytes
  import opened Strings
  import opened Paths
  import opened SyncModels
  import opened SyncAuth
  import SyncProtocol
  import DesktopFileService

  /** What the service emits to its listeners. */
  datatype SyncEvent =
    | StatusChanged(status: SyncStatus)
    | DeviceConnected(device: SyncDevice)
    | DeviceDisconnected(deviceId: string)

  /** A registered transport as the orchestrator sees it. */
  datatype TransportState = TransportState(running: bool)

  /** A start() or stop() the orchestrator issues to a transport. */
  datatype TransportCall = StartCall(transport: TransportType) | StopCall(transport: TransportType)

  // ---- status ----------------------------------------------------------------

  /** The events setStatus emits when the status goes from `current` to `next`. */
  function StatusEvents(current: SyncStatus, next: SyncStatus): (r: seq<SyncEvent>)
    ensures r == [] <==> current == next
    ensures r != [] ==> r == [StatusChanged(next)]
  {
    if current != next then [StatusChanged(next)] else []
  }

  // ---- transports --------------------------------------------------------------

  function CallFor(t: TransportType, starting: bool): TransportCall
  {
    if starting then StartCall(t) else StopCall(t)
  }

  /**
   * The calls startSync (`starting`) or stopSync issues, in registration order:
   * start only to transports that are not running, stop only to those that are.
   */
  function TransportCalls(order: seq<TransportType>, ts: map<TransportType, TransportState>,
                          starting: bool): seq<TransportCall>
    requires forall k :: 0 <= k < |order| ==> order[k] in ts
  {
    if order == [] then []
    else
      var t := order[|order| - 1];
      TransportCalls(order[..|order| - 1], ts, starting) +
      (if ts[t].running != starting then [CallFor(t, starting)] else [])
  }

  /** A call is issued for a transport exactly when it is registered and not yet in the wanted state. */
  lemma {:induction false} TransportCallsExact(order: seq<TransportType>, ts: map<TransportType, TransportState>,
                                               starting: bool, t: TransportType)
    requires forall k :: 0 <= k < |order| ==> order[k] in ts
    ensures CallFor(t, starting) in TransportCalls(order, ts, starting) <==>
      t in order && ts[t].running != starting
    ensures CallFor(t, !starting) !in TransportCalls(order, ts, starting)
  {
    if order != [] {
      var init := order[..|order| - 1];
      TransportCallsExact(init, ts, starting, t);
      assert order == init + [order[|order| - 1]];
    }
  }

  /** Each transport is called at most once, so the calls are as many as the transports not in the wanted state. */
  lemma {:induction false} TransportCallsLength(order: seq<TransportType>, ts: map<TransportType, TransportState>,
                                                starting: bool)
    requires forall k :: 0 <= k < |order| ==> order[k] in ts
    ensures |TransportCalls(order, ts, starting)| <= |order|
    ensures (forall k :: 0 <= k < |order| ==> ts[order[k]].running == starting) ==>
      TransportCalls(order, ts, starting) == []
  {
    if order != [] {
      TransportCallsLength(order[..|order| - 1], ts, starting);
    }
  }

  /** A transport's running flag after a start (`starting`) or stop call that succeeds when `ok`. */
  function Switched(running: bool, starting: bool, ok: bool): bool
  {
    if starting then running || ok else running && !ok
  }

  /**
   * The loop of startSync (`starting`) or stopSync: each registered transport
   * in order gets the call when it is not in the wanted state, and changes
   * state when the call succeeds (`ok`); a failed call is swallowed.
   */
  method SwitchAll(order: seq<TransportType>, ts0: map<TransportType, TransportState>, starting: bool,
                   ok: TransportType -> bool)
    returns (ts: map<TransportType, TransportState>, issued: seq<TransportCall>)
    requires SyncProtocol.NoDup(order)
    requires forall t :: t in ts0 <==> t in order
    ensures forall t :: t in ts <==> t in ts0
    ensures forall t :: t in ts ==> ts[t].running == Switched(ts0[t].running, starting, ok(t))
    ensures issued == TransportCalls(order, ts0, starting)
  {
    ts, issued := ts0, [];
    var i := 0;
    while i < |order|
      invariant 0 <= i <= |order|
      invariant forall t :: t in ts <==> t in ts0
      invariant forall k :: 0 <= k < i ==> ts[order[k]].running == Switched(ts0[order[k]].running, starting, ok(order[k]))
      invariant forall k :: i <= k < |order| ==> ts[order[k]] == ts0[order[k]]
      invariant issued == TransportCalls(order[..i], ts0, starting)
    {
      var t := order[i];
      assert order[..i + 1][..i] == order[..i];
      if ts[t].running != starting {
        issued := issued + [CallFor(t, starting)];
        if ok(t) {
          ts := ts[t := TransportState(starting)];
        }
      }
      i := i + 1;
    }
    assert order[..i] == order;
    forall t | t in ts
      ensures ts[t].running == Switched(ts0[t].running, starting, ok(t))
    {
      var k :| 0 <= k < |order| && order[k] == t;
    }
  }

  // ---- paired devices ------------------------------------------------------------

  /** revokePairing's filter: the tokens of every other device, in their order. */
  function Revoked(tokens: seq<AuthToken>, deviceId: string): (r: seq<AuthToken>)
    ensures |r| <= |tokens|
    ensures forall i :: 0 <= i < |r| ==> r[i] in tokens && r[i].deviceId != deviceId
    ensures forall i :: 0 <= i < |tokens| && tokens[i].deviceId != deviceId ==> tokens[i] in r
  {
    if tokens == [] then []
    else (if tokens[0].deviceId != deviceId then [tokens[0]] else []) + Revoked(tokens[1..], deviceId)
  }

  /** The filter works piece by piece, so the kept tokens stay in their order. */
  lemma {:induction false} RevokedConcat(a: seq<AuthToken>, b: seq<AuthToken>, deviceId: string)
    ensures Revoked(a + b, deviceId) == Revoked(a, deviceId) + Revoked(b, deviceId)
  {
    if a != [] {
      var head := if a[0].deviceId != deviceId then [a[0]] else [];
      assert (a + b)[0] == a[0];
      assert (a + b)[1..] == a[1..] + b;
      RevokedConcat(a[1..], b, deviceId);
      assert Revoked(a + b, deviceId) == head + (Revoked(a[1..], deviceId) + Revoked(b, deviceId));
    } else {
      assert a + b == b;
    }
  }

  /** Revoking a device with no token changes nothing; revoking twice is revoking once. */
  lemma {:induction false} RevokedNoToken(tokens: seq<AuthToken>, deviceId: string)
    requires forall i :: 0 <= i < |tokens| ==> tokens[i].deviceId != deviceId
    ensures Revoked(tokens, deviceId) == tokens
  {
    if tokens != [] {
      RevokedNoToken(tokens[1..], deviceId);
    }
  }

  lemma RevokedIdempotent(tokens: seq<AuthToken>, deviceId: string)
    ensures Revoked(Revoked(tokens, deviceId), deviceId) == Revoked(tokens, deviceId)
  {
    RevokedNoToken(Revoked(tokens, deviceId), deviceId);
  }

  // ---- conflict resolution -------------------------------------------------------

  /** backupConflictFile's target: `.ai-note/sync-conflicts/<now>_<source>_<basename>`, relative to the workspace. */
  function BackupPath(path: string, source: string, now: nat): (r: string)
    ensures StartsWith(r, CONFIG_DIR + "/" + SYNC_CONFLICTS_DIR + "/")
    ensures EndsWith(r, "_" + source + "_" + Basename(path))
  {
    var dir, tail := CONFIG_DIR + "/" + SYNC_CONFLICTS_DIR + "/", "_" + source + "_" + Basename(path);
    ConcatEnds(dir, NatToString(now), tail);
    dir + NatToString(now) + tail
  }

  /** `a + b + c` begins with `a` and ends with `c`. */
  lemma ConcatEnds<T>(a: seq<T>, b: seq<T>, c: seq<T>)
    ensures StartsWith(a + b + c, a) && EndsWith(a + b + c, c)
    ensures StartsWith(a + b + c, a + b) && |a + b + c| == |a| + |b| + |c|
  {
    assert (a + b + c)[..|a|] == a;
    assert (a + b + c)[..|a + b|] == a + b;
    assert (a + b + c)[|a + b + c| - |c|..] == c;
  }

  /** A path whose first segment is hidden is not one the manifest lists. */
  lemma HiddenHead(head: string, rest: string)
    requires '/' !in head && SyncProtocol.Skipped(head)
    ensures !SyncProtocol.VisiblePath(head + "/" + rest)
  {
    assert head + "/" + rest == head + ['/'] + rest;
    SplitConcat(head, rest, '/');
    assert Split(head + "/" + rest, '/')[0] == head;
  }

  /** A backup lives in the hidden config directory, so it is never a path the manifest lists. */
  lemma BackupPathHidden(path: string, source: string, now: nat)
    ensures !SyncProtocol.VisiblePath(BackupPath(path, source, now))
  {
    var tail := "_" + source + "_" + Basename(path);
    var rest := SYNC_CONFLICTS_DIR + "/" + NatToString(now) + tail;
    assert BackupPath(path, source, now) == CONFIG_DIR + "/" + rest;
    assert SyncProtocol.Skipped(CONFIG_DIR) by { assert CONFIG_DIR[..1] == "."; }
    HiddenHead(CONFIG_DIR, rest);
  }

  /** The 'both' target as written: `slice(0, -ext.length)` is the empty string when there is no extension. */
  function ConflictCopyPathAsWritten(path: string): (r: string)
    ensures ExtName(path) != [] ==> EndsWith(r, ExtName(path))
  {
    var ext := ExtName(path);
    var base := if ext == [] then [] else path[..|path| - |ext|];
    base + ".conflict" + ext
  }

  /** The 'both' target intended: the path with ".conflict" inserted before its extension. */
  function ConflictCopyPath(path: string): (r: string)
    ensures |r| == |path| + |".conflict"| && r != path
    ensures StartsWith(r, path[..|path| - |ExtName(path)|] + ".conflict")
    ensures EndsWith(r, ExtName(path))
  {
    var ext := ExtName(path);
    var base := path[..|path| - |ext|];
    CopyInserted(base, ext);
    base + ".conflict" + ext
  }

  lemma CopyInserted(base: string, ext: string)
    ensures var r := base + ".conflict" + ext;
      |r| == |base| + |ext| + |".conflict"| && StartsWith(r, base + ".conflict") && EndsWith(r, ext)
  {
    ConcatEnds(base, ".conflict", ext);
  }

  /** The two agree whenever the path has an extension. */
  lemma ConflictCopyPathAgrees(path: string)
    requires ExtName(path) != []
    ensures ConflictCopyPathAsWritten(path) == ConflictCopyPath(path)
  {
  }

  /** Two paths with the same extension never share a conflict copy. */
  lemma ConflictCopyPathInjective(p: string, q: string)
    requires ExtName(p) == ExtName(q)
    requires ConflictCopyPath(p) == ConflictCopyPath(q)
    ensures p == q
  {
    var e := ExtName(p);
    SplitAtSuffix(p, e);
    SplitAtSuffix(q, e);
    CancelMiddle(p[..|p| - |e|], q[..|q| - |e|], ".conflict", e);
  }

  lemma SplitAtSuffix<T>(s: seq<T>, e: seq<T>)
    requires EndsWith(s, e)
    ensures s == s[..|s| - |e|] + e
  {
  }

  lemma CancelMiddle<T>(x: seq<T>, y: seq<T>, mid: seq<T>, e: seq<T>)
    requires x + mid + e == y + mid + e
    ensures x == y
  {
    assert |x| == |y|;
    assert x == (x + mid + e)[..|x|];
    assert y == (y + mid + e)[..|y|];
  }

  lemma ExtNameNoDot(path: string)
    requires '.' !in Basename(path)
    ensures ExtName(path) == []
  {
    LastPieceNoSep(Basename(path), '.');
  }

  /**
   * As written, every path without an extension ("notes/todo", "ideas") gets
   * the one conflict copy ".conflict" at the workspace root, so two such
   * conflicts overwrite each other; the intended copy sits beside the note.
   */
  lemma ConflictCopyAsWrittenCollides(p: string, q: string)
    requires '.' !in Basename(p) && '.' !in Basename(q)
    ensures ConflictCopyPathAsWritten(p) == ConflictCopyPathAsWritten(q) == ".conflict"
    ensures ConflictCopyPath(p) == p + ".conflict"
  {
    ExtNameNoDot(p);
    ExtNameNoDot(q);
    CopiesWithoutExt(p, |ExtName(p)|);
    CopiesWithoutExt(q, |ExtName(q)|);
  }

  /** Without an extension the copy as written is ".conflict"; the intended one appends it. */
  lemma CopiesWithoutExt(p: string, n: nat)
    requires n == |ExtName(p)| == 0
    ensures ConflictCopyPathAsWritten(p) == ".conflict"
    ensures ConflictCopyPath(p) == p + ".conflict"
  {
    var e := ExtName(p);
    assert ConflictCopyPathAsWritten(p) == [] + ".conflict" + e;
    assert ConflictCopyPath(p) == p[..|p| - |e|] + ".conflict" + e;
    InsertedWithoutExt(p, e);
  }

  lemma InsertedWithoutExt(p: string, e: string)
    requires e == []
    ensures [] + ".conflict" + e == ".conflict"
    ensures p[..|p| - |e|] + ".conflict" + e == p + ".conflict"
  {
    assert p[..|p| - |e|] == p;
    AppendEmpty(p + ".conflict");
  }


  /** A remote content counts only when it is a non-empty string. */
  predicate HasContent(remoteContent: Option<string>)
  {
    remoteContent.Some? && remoteContent.value != []
  }

  /** The note store after resolveConflict with a strategy (None: a strategy no case handles). */
  function ResolvedNotes(notes: map<string, string>, path: string, strategy: Option<Resolution>,
                         remoteContent: Option<string>, now: nat): map<string, string>
  {
    if !HasContent(remoteContent) || strategy.None? then notes
    else
      var content := remoteContent.value;
      match strategy.value
      case KeepLocal => notes[BackupPath(path, "remote", now) := content]
      case KeepRemote =>
        var backedUp := if path in notes then notes[BackupPath(path, "local", now) := notes[path]] else notes;
        backedUp[path := content]
      case KeepBoth => notes[ConflictCopyPathAsWritten(path) := content]
  }

  /** Without usable remote content, or without a handled strategy, nothing is written. */
  lemma ResolveWithoutContent(notes: map<string, string>, path: string, strategy: Option<Resolution>,
                              remoteContent: Option<string>, now: nat)
    requires !HasContent(remoteContent) || strategy.None?
    ensures ResolvedNotes(notes, path, strategy, remoteContent, now) == notes
  {
  }

  /** 'local' leaves every manifest note alone and only adds the remote backup. */
  lemma ResolveKeepLocal(notes: map<string, string>, path: string, remoteContent: Option<string>, now: nat)
    requires HasContent(remoteContent)
    ensures var r := ResolvedNotes(notes, path, Some(KeepLocal), remoteContent, now);
      && r[BackupPath(path, "remote", now)] == remoteContent.value
      && (forall p :: SyncProtocol.VisiblePath(p) ==> (p in r <==> p in notes))
      && (forall p :: SyncProtocol.VisiblePath(p) && p in notes ==> r[p] == notes[p])
  {
    BackupPathHidden(path, "remote", now);
  }

  /** 'remote' overwrites the note and, when the note existed, first keeps its old text as a backup. */
  lemma ResolveKeepRemote(notes: map<string, string>, path: string, remoteContent: Option<string>, now: nat)
    requires HasContent(remoteContent) && SyncProtocol.VisiblePath(path)
    ensures var r := ResolvedNotes(notes, path, Some(KeepRemote), remoteContent, now);
      && r[path] == remoteContent.value
      && (path in notes ==> r[BackupPath(path, "local", now)] == notes[path])
      && (forall p :: SyncProtocol.VisiblePath(p) && p != path ==> (p in r <==> p in notes))
      && (forall p :: SyncProtocol.VisiblePath(p) && p != path && p in notes ==> r[p] == notes[p])
  {
    BackupPathHidden(path, "local", now);
  }

  /**
   * 'both' writes the remote text at the as-written copy path and keeps the
   * note, except for the one path ".conflict" that is its own copy; a note with
   * an extension gets the intended copy beside it.
   */
  lemma ResolveKeepBoth(notes: map<string, string>, path: string, remoteContent: Option<string>, now: nat)
    requires HasContent(remoteContent)
    ensures var r := ResolvedNotes(notes, path, Some(KeepBoth), remoteContent, now);
      && r[ConflictCopyPathAsWritten(path)] == remoteContent.value
      && (path != ".conflict" ==> (path in r <==> path in notes) && (path in notes ==> r[path] == notes[path]))
      && (ExtName(path) != [] ==> ConflictCopyPathAsWritten(path) == ConflictCopyPath(path))
  {
    if ExtName(path) != [] {
      ConflictCopyPathAgrees(path);
    } else {
      assert ConflictCopyPathAsWritten(path) == [] + ".conflict" + [];
    }
  }

  // ---- the orchestrator --------------------------------------------------------

  class SyncService {
    const deviceId: string
    /** Registration order of the transports map, which is the order it iterates in. */
    var order: seq<TransportType>
    var transports: map<TransportType, TransportState>
    var status: SyncStatus
    var connected: map<string, SyncDevice>
    var pairing: Option<PairingInfo>
    var pairingPin: Option<string>
    /** The config store's paired-token list as held in memory. */
    var pairedDevices: seq<AuthToken>
    /** The list as last written back through the config store. */
    var savedPairedDevices: seq<AuthToken>
    /** Workspace-relative path to content. */
    var notes: map<string, string>
    var events: seq<SyncEvent>
    var calls: seq<TransportCall>

    predicate Valid()
      reads this
    {
      && SyncProtocol.NoDup(order)
      && (forall t :: t in transports <==> t in order)
      && (pairing.Some? <==> pairingPin.Some?)
      && (pairing.Some? ==> pairingPin.value == pairing.value.pin)
    }

    /** `deviceId` stands for the random UUID drawn at construction. */
    constructor (deviceId: string, pairedDevices: seq<AuthToken>, notes: map<string, string>)
      ensures Valid()
      ensures this.deviceId == deviceId && order == [] && transports == map[]
      ensures status == Idle && connected == map[] && pairing.None? && pairingPin.None?
      ensures this.pairedDevices == pairedDevices && savedPairedDevices == pairedDevices
      ensures this.notes == notes && events == [] && calls == []
    {
      this.deviceId := deviceId;
      order := [];
      transports := map[];
      status := Idle;
      connected := map[];
      pairing := None;
      pairingPin := None;
      this.pairedDevices := pairedDevices;
      savedPairedDevices := pairedDevices;
      this.notes := notes;
      events := [];
      calls := [];
    }

    /** setStatus: emits 'status-changed' only when the status really changes. */
    method SetStatus(next: SyncStatus)
      modifies this
      ensures status == next && events == old(events) + StatusEvents(old(status), next)
      ensures order == old(order) && transports == old(transports) && connected == old(connected)
      ensures pairing == old(pairing) && pairingPin == old(pairingPin)
      ensures pairedDevices == old(pairedDevices) && savedPairedDevices == old(savedPairedDevices)
      ensures notes == old(notes) && calls == old(calls)
    {
      if status != next {
        status := next;
        events := events + [StatusChanged(next)];
      }
    }

    /** registerTransport: a new type is appended to the order; a known type keeps its place. */
    method RegisterTransport(t: TransportType, running: bool)
      requires Valid()
      modifies this
      ensures Valid()
      ensures order == if t in old(order) then old(order) else old(order) + [t]
      ensures transports == old(transports)[t := TransportState(running)]
      ensures status == old(status) && connected == old(connected) && events == old(events)
      ensures pairing == old(pairing) && pairingPin == old(pairingPin)
      ensures pairedDevices == old(pairedDevices) && savedPairedDevices == old(savedPairedDevices)
      ensures notes == old(notes) && calls == old(calls)
    {
      if t !in transports {
        order := order + [t];
      }
      transports := transports[t := TransportState(running)];
    }

    function GetTransport(t: TransportType): (r: Option<TransportState>)
      reads this
      ensures r.Some? <==> t in transports
      ensures r.Some? ==> r.value == transports[t]
    {
      if t in transports then Some(transports[t]) else None
    }

    /**
     * startSync: calls start() on every registered transport that is not
     * running; `startOk` says which starts succeed, and a failure is
     * swallowed. Ends by setting the status to idle.
     */
    method StartSync(startOk: TransportType -> bool)
      requires Valid()
      modifies this
      ensures Valid() && order == old(order)
      ensures forall t :: t in transports <==> t in old(transports)
      ensures forall t :: t in transports ==>
        transports[t].running == (old(transports)[t].running || startOk(t))
      ensures calls == old(calls) + TransportCalls(order, old(transports), true)
      ensures status == Idle && events == old(events) + StatusEvents(old(status), Idle)
      ensures connected == old(connected) && pairing == old(pairing) && pairingPin == old(pairingPin)
      ensures pairedDevices == old(pairedDevices) && savedPairedDevices == old(savedPairedDevices)
      ensures notes == old(notes)
    {
      var ts, issued := SwitchAll(order, transports, true, startOk);
      transports, calls := ts, calls + issued;
      SetStatus(Idle);
    }

    /**
     * stopSync: calls stop() on every running transport (`stopOk` says which
     * stops succeed), forgets all connected devices and sets the status to idle.
     */
    method StopSync(stopOk: TransportType -> bool)
      requires Valid()
      modifies this
      ensures Valid() && order == old(order)
      ensures forall t :: t in transports <==> t in old(transports)
      ensures forall t :: t in transports ==>
        transports[t].running == (old(transports)[t].running && !stopOk(t))
      ensures calls == old(calls) + TransportCalls(order, old(transports), false)
      ensures connected == map[]
      ensures status == Idle && events == old(events) + StatusEvents(old(status), Idle)
      ensures pairing == old(pairing) && pairingPin == old(pairingPin)
      ensures pairedDevices == old(pairedDevices) && savedPairedDevices == old(savedPairedDevices)
      ensures notes == old(notes)
    {
      var ts, issued := SwitchAll(order, transports, false, stopOk);
      transports, calls := ts, calls + issued;
      connected := map[];
      SetStatus(Idle);
    }

    /** generatePairing: a new pairing replaces any outstanding one; its PIN is the one kept for checking. */
    method GeneratePairing(ip: string, port: int, serviceName: string, r: nat, now: int)
      returns (p: PairingInfo)
      requires Valid() && r < PIN_RANGE
      modifies this
      ensures Valid()
      ensures p == CreatePairingInfo(deviceId, ip, port, serviceName, r, now)
      ensures pairing == Some(p) && pairingPin == Some(p.pin)
      ensures order == old(order) && transports == old(transports) && status == old(status)
      ensures connected == old(connected) && events == old(events) && calls == old(calls)
      ensures pairedDevices == old(pairedDevices) && savedPairedDevices == old(savedPairedDevices)
      ensures notes == old(notes)
    {
      p := CreatePairingInfo(deviceId, ip, port, serviceName, r, now);
      pairing := Some(p);
      pairingPin := Some(p.pin);
    }

    /**
     * validatePairing: with an outstanding pairing whose PIN matches and has
     * not expired, appends a fresh token for the peer, saves the list and
     * consumes the pairing. Any failure changes nothing, so a wrong PIN
     * leaves the pairing in place. `random` stands for the token's random bytes.
     */
    method ValidatePairing(peerId: string, pin: string, deviceName: string, random: seq<byte>, now: int)
      returns (token: Option<AuthToken>)
      requires Valid() && |random| == TOKEN_BYTES
      modifies this
      ensures Valid()
      ensures token.Some? <==>
        old(pairing).Some? && old(pairingPin).value != [] &&
        now <= old(pairing).value.expiresAt && pin == old(pairingPin).value
      ensures token.Some? ==>
        && token.value == CreateAuthToken(peerId, deviceName, random, now)
        && pairedDevices == old(pairedDevices) + [token.value]
        && savedPairedDevices == pairedDevices
        && pairing.None? && pairingPin.None?
      ensures token.None? ==>
        && pairedDevices == old(pairedDevices) && savedPairedDevices == old(savedPairedDevices)
        && pairing == old(pairing) && pairingPin == old(pairingPin)
      ensures order == old(order) && transports == old(transports) && status == old(status)
      ensures connected == old(connected) && events == old(events) && calls == old(calls)
      ensures notes == old(notes)
    {
      if pairing.None? || pairingPin.None? || pairingPin.value == [] {
        return None;
      }
      var ok, _ := ValidatePin(pin, pairingPin.value, pairing.value.expiresAt, now);
      if !ok {
        return None;
      }
      var t := CreateAuthToken(peerId, deviceName, random, now);
      pairedDevices := pairedDevices + [t];
      savedPairedDevices := pairedDevices;
      pairing := None;
      pairingPin := None;
      return Some(t);
    }

    /**
     * revokePairing: drops every token of the device, saves the list, forgets
     * the device as connected and always emits 'device-disconnected'.
     */
    method RevokePairing(id: string)
      requires Valid()
      modifies this
      ensures Valid()
      ensures pairedDevices == Revoked(old(pairedDevices), id) && savedPairedDevices == pairedDevices
      ensures connected == old(connected) - {id}
      ensures events == old(events) + [DeviceDisconnected(id)]
      ensures order == old(order) && transports == old(transports) && status == old(status)
      ensures pairing == old(pairing) && pairingPin == old(pairingPin)
      ensures notes == old(notes) && calls == old(calls)
    {
      pairedDevices := Revoked(pairedDevices, id);
      savedPairedDevices := pairedDevices;
      connected := connected - {id};
      events := events + [DeviceDisconnected(id)];
    }

    /**
     * validateToken: the first paired token equal to `token`, stamped with
     * `now`. The stamp changes the list held in memory but is not saved.
     */
    method ValidateToken(token: string, now: int) returns (found: Option<AuthToken>)
      requires Valid()
      modifies this
      ensures Valid()
      ensures match FirstTokenIndex(old(pairedDevices), token)
        case None => found.None? && pairedDevices == old(pairedDevices)
        case Some(i) =>
          found == Some(old(pairedDevices)[i].(lastUsed := now)) &&
          pairedDevices == old(pairedDevices)[i := found.value]
      ensures savedPairedDevices == old(savedPairedDevices)
      ensures order == old(order) && transports == old(transports) && status == old(status)
      ensures connected == old(connected) && events == old(events) && calls == old(calls)
      ensures pairing == old(pairing) && pairingPin == old(pairingPin) && notes == old(notes)
    {
      var updated;
      found, updated := SyncAuth.ValidateToken(token, pairedDevices, now);
      pairedDevices := updated;
    }

    /** addConnectedDevice: inserts or replaces the device by id and emits 'device-connected'. */
    method AddConnectedDevice(device: SyncDevice)
      requires Valid()
      modifies this
      ensures Valid()
      ensures connected == old(connected)[device.id := device]
      ensures events == old(events) + [DeviceConnected(device)]
      ensures order == old(order) && transports == old(transports) && status == old(status)
      ensures pairing == old(pairing) && pairingPin == old(pairingPin)
      ensures pairedDevices == old(pairedDevices) && savedPairedDevices == old(savedPairedDevices)
      ensures notes == old(notes) && calls == old(calls)
    {
      connected := connected[device.id := device];
      events := events + [DeviceConnected(device)];
    }

    /** removeConnectedDevice: deletes by id and emits 'device-disconnected' even for an unknown id. */
    method RemoveConnectedDevice(id: string)
      requires Valid()
      modifies this
      ensures Valid()
      ensures connected == old(connected) - {id}
      ensures events == old(events) + [DeviceDisconnected(id)]
      ensures order == old(order) && transports == old(transports) && status == old(status)
      ensures pairing == old(pairing) && pairingPin == old(pairingPin)
      ensures pairedDevices == old(pairedDevices) && savedPairedDevices == old(savedPairedDevices)
      ensures notes == old(notes) && calls == old(calls)
    {
      connected := connected - {id};
      events := events + [DeviceDisconnected(id)];
    }

    /** getNoteContent: reading a missing note fails. */
    function NoteContent(path: string): (r: Option<string>)
      reads this
      ensures r.Some? <==> path in notes
      ensures r.Some? ==> r.value == notes[path]
    {
      if path in notes then Some(notes[path]) else None
    }

    /** applyRemoteNote: creates or overwrites the note. */
    method ApplyRemoteNote(path: string, content: string)
      modifies this
      ensures notes == old(notes)[path := content]
      ensures order == old(order) && transports == old(transports) && status == old(status)
      ensures connected == old(connected) && events == old(events) && calls == old(calls)
      ensures pairing == old(pairing) && pairingPin == old(pairingPin)
      ensures pairedDevices == old(pairedDevices) && savedPairedDevices == old(savedPairedDevices)
    {
      notes := notes[path := content];
    }

    /** deleteNote: moves the note to the trash; a missing note is an error. */
    method DeleteNote(path: string, now: nat) returns (r: Result<()>)
      modifies this
      ensures r.Ok? <==> path in old(notes)
      ensures r.Ok? ==>
        notes == (old(notes) - {path})[DesktopFileService.TrashPath(path, now) := old(notes)[path]]
      ensures r.Err? ==> notes == old(notes)
      ensures order == old(order) && transports == old(transports) && status == old(status)
      ensures connected == old(connected) && events == old(events) && calls == old(calls)
      ensures pairing == old(pairing) && pairingPin == old(pairingPin)
      ensures pairedDevices == old(pairedDevices) && savedPairedDevices == old(savedPairedDevices)
    {
      if path !in notes {
        return Err("ENOENT: no such file or directory, rename '" + path + "'");
      }
      var content := notes[path];
      notes := (notes - {path})[DesktopFileService.TrashPath(path, now) := content];
      return Ok(());
    }

    /** backupConflictFile: writes the content under the conflicts directory and returns where. */
    method BackupConflictFile(path: string, content: string, source: string, now: nat)
      returns (backupPath: string)
      modifies this
      ensures backupPath == BackupPath(path, source, now)
      ensures notes == old(notes)[backupPath := content]
      ensures order == old(order) && transports == old(transports) && status == old(status)
      ensures connected == old(connected) && events == old(events) && calls == old(calls)
      ensures pairing == old(pairing) && pairingPin == old(pairingPin)
      ensures pairedDevices == old(pairedDevices) && savedPairedDevices == old(savedPairedDevices)
    {
      notes := notes[BackupPath(path, source, now) := content];
      backupPath := BackupPath(path, source, now);
    }

    /** resolveConflict, with `now` the clock reading its backups are stamped with. */
    method ResolveConflict(conflict: SyncConflict, strategy: Option<Resolution>,
                           remoteContent: Option<string>, now: nat)
      modifies this
      ensures notes == ResolvedNotes(old(notes), conflict.path, strategy, remoteContent, now)
      ensures order == old(order) && transports == old(transports) && status == old(status)
      ensures connected == old(connected) && events == old(events) && calls == old(calls)
      ensures pairing == old(pairing) && pairingPin == old(pairingPin)
      ensures pairedDevices == old(pairedDevices) && savedPairedDevices == old(savedPairedDevices)
    {
      if strategy.None? || !HasContent(remoteContent) {
        return;
      }
      var content := remoteContent.value;
      match strategy.value
      case KeepLocal =>
        var _ := BackupConflictFile(conflict.path, content, "remote", now);
      case KeepRemote =>
        var local := NoteContent(conflict.path);
        if local.Some? {
          var _ := BackupConflictFile(conflict.path, local.value, "local", now);
        }
        ApplyRemoteNote(conflict.path, content);
      case KeepBoth =>
        ApplyRemoteNote(ConflictCopyPathAsWritten(conflict.path), content);
    }

    /** initialize: without a sync configuration sync stays off; an enabled one starts sync. */
    method Initialize(config: Option<SyncConfig>, startOk: TransportType -> bool)
      requires Valid()
      modifies this
      ensures Valid()
      ensures config.None? || !config.value.enabled ==>
        calls == old(calls) && transports == old(transports) && status == old(status) &&
        events == old(events)
      ensures config.Some? && config.value.enabled ==>
        calls == old(calls) + TransportCalls(old(order), old(transports), true) && status == Idle
      ensures order == old(order) && connected == old(connected)
      ensures pairing == old(pairing) && pairingPin == old(pairingPin)
      ensures pairedDevices == old(pairedDevices) && savedPairedDevices == old(savedPairedDevices)
      ensures notes == old(notes)
    {
      if config.None? {
        return;
      }
      if config.value.enabled {
        StartSync(startOk);
      }
    }

    /** dispose: stops sync (removing the listeners is not modelled). */
    method Dispose(stopOk: TransportType -> bool)
      requires Valid()
      modifies this
      ensures Valid()
      ensures calls == old(calls) + TransportCalls(old(order), old(transports), false)
      ensures connected == map[] && status == Idle
      ensures pairedDevices == old(pairedDevices) && notes == old(notes)
    {
      StopSync(stopOk);
    }
  }
}
