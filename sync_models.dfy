// The shared sync data model: devices, pairing, tokens, manifests, deltas,
// conflicts and the sync configuration, with the sync constants.
module SyncModels {
  import opened Wrappers

  const APP_NAME: string := "AI-Note"
  const CONFIG_DIR: string := ".ai-note"
  const CONFIG_FILE: string := "config.json"
  const TRASH_DIR: string := "trash"
  const SYNC_PORT: nat := 18923
  const SYNC_CONFLICTS_DIR: string := "sync-conflicts"
  /** The DNS-SD service type the LAN transport advertises. */
  const SYNC_SERVICE_NAME: string := "_ai-note-sync._tcp"
  /** Pairing lifetime: five minutes, in milliseconds. */
  const SYNC_PAIRING_TTL: nat := 5 * 60 * 1000
  const BLE_DEFAULT_MTU: nat := 20
  const BLE_PREFERRED_MTU: nat := 247
  const BLE_COMPRESS_THRESHOLD: nat := 1024

  datatype TransportType = Lan | Ble
  datatype SyncStatus = Idle | Discovering | Connecting | Syncing | Error
  datatype DeviceType = MobileDevice | DesktopDevice

  datatype SyncDevice = SyncDevice(
    id: string,
    name: string,
    deviceType: DeviceType,
    transport: TransportType,
    lastSeen: int,
    isPaired: bool,
    isConnected: bool)

  /** What the pairing QR code carries (its JSON text is not modelled). */
  datatype QrPayload = QrPayload(deviceId: string, pin: string, ip: string, port: int, serviceName: string)

  datatype PairingInfo = PairingInfo(pin: string, qrPayload: QrPayload, expiresAt: int)

  datatype AuthToken = AuthToken(
    token: string,
    deviceId: string,
    deviceName: string,
    createdAt: int,
    lastUsed: int)

  /**
   * A JavaScript time value in milliseconds. `Invalid` is the NaN that
   * `new Date(x).getTime()` gives for a value Date cannot parse.
   */
  datatype Timestamp = Ms(ms: int) | Invalid

  /** `a > b` on time values: false whenever either side is NaN. */
  predicate Later(a: Timestamp, b: Timestamp)
  {
    a.Ms? && b.Ms? && a.ms > b.ms
  }

  datatype NoteManifestEntry = NoteManifestEntry(
    path: string,
    title: string,
    updatedAt: Timestamp,
    contentHash: string,
    size: nat)

  type NoteManifest = seq<NoteManifestEntry>

  datatype Resolution = KeepLocal | KeepRemote | KeepBoth

  datatype SyncConflict = SyncConflict(
    path: string,
    localEntry: NoteManifestEntry,
    remoteEntry: NoteManifestEntry,
    resolution: Option<Resolution>)

  datatype SyncDelta = SyncDelta(
    toSend: seq<NoteManifestEntry>,
    toReceive: seq<NoteManifestEntry>,
    conflicts: seq<SyncConflict>)

  datatype ConflictStrategy = LastWriteWins | KeepBothCopies | Ask

  datatype SyncConfig = SyncConfig(
    enabled: bool,
    lanPort: nat,
    lanEnabled: bool,
    bleEnabled: bool,
    conflictStrategy: ConflictStrategy,
    autoSync: bool,
    pairedDevices: seq<AuthToken>)
}
