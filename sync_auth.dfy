// Pairing and token authentication of the sync subsystem: six-digit PINs,
// 32-byte hex tokens, pairing descriptors with a five-minute lifetime and
// constant-time comparison of secrets. Randomness and the clock are
// parameters.
module SyncAuth {
  import opened Wrappers
  import opened Strings
  import opened Bytes
  import opened SyncModels

  const PIN_LENGTH: nat := 6
  const TOKEN_BYTES: nat := 32
  /** Math.pow(10, PIN_LENGTH): the exclusive bound of the random PIN value. */
  const PIN_RANGE: nat := 1000000

  /** generatePIN: the random value `r` (below 10^6) written in decimal, left-padded with '0' to six digits. */
  function GeneratePin(r: nat): (pin: string)
    requires r < PIN_RANGE
    ensures |pin| == PIN_LENGTH && AllDigits(pin)
    ensures DecimalValue(pin) == r
  {
    var digits := NatToString(r);
    NatToStringLength(r);
    DecimalValueNatToString(r);
    DecimalValueLeadingZeros(PIN_LENGTH - |digits|, digits);
    assert PadStart(digits, PIN_LENGTH, '0') == seq(PIN_LENGTH - |digits|, _ => '0') + digits;
    PadStart(digits, PIN_LENGTH, '0')
  }

  lemma {:induction false} NatToStringLength(n: nat)
    ensures n < PIN_RANGE ==> |NatToString(n)| <= PIN_LENGTH
    ensures |NatToString(n)| <= 1 || n >= 10
  {
    if n >= 10 {
      NatToStringLength(n / 10);
      if n < PIN_RANGE {
        assert n / 10 < 100000;
        NatToStringShort(n / 10, 5);
      }
    }
  }

  lemma {:induction false} NatToStringShort(n: nat, k: nat)
    requires k >= 1
    requires n < Pow10(k)
    ensures |NatToString(n)| <= k
  {
    if n >= 10 {
      assert Pow10(1) == 10;
      assert k >= 2;
      assert n / 10 < Pow10(k - 1);
      NatToStringShort(n / 10, k - 1);
    }
  }

  function Pow10(k: nat): nat
  {
    if k == 0 then 1 else 10 * Pow10(k - 1)
  }

  lemma GeneratePinInjective(r1: nat, r2: nat)
    requires r1 < PIN_RANGE && r2 < PIN_RANGE
    ensures GeneratePin(r1) == GeneratePin(r2) <==> r1 == r2
  {
  }

  /** generateToken: 32 random bytes as 64 lower-case hexadecimal characters. */
  function GenerateToken(random: seq<byte>): (token: string)
    requires |random| == TOKEN_BYTES
    ensures |token| == 2 * TOKEN_BYTES
    ensures forall i :: 0 <= i < |token| ==> IsHexChar(token[i])
    ensures FromHex(token) == random
  {
    FromHexToHex(random);
    ToHex(random)
  }

  /** createPairingInfo: a fresh PIN, valid for SYNC_PAIRING_TTL from `now`, and the QR descriptor. */
  function CreatePairingInfo(deviceId: string, ip: string, port: int, serviceName: string,
                             r: nat, now: int): (p: PairingInfo)
    requires r < PIN_RANGE
    ensures p.pin == GeneratePin(r) && p.expiresAt == now + SYNC_PAIRING_TTL
    ensures p.qrPayload == QrPayload(deviceId, p.pin, ip, port, serviceName)
  {
    var pin := GeneratePin(r);
    PairingInfo(pin, QrPayload(deviceId, pin, ip, port, serviceName), now + SYNC_PAIRING_TTL)
  }

  /**
   * The comparison loop of validatePIN and validateToken: OR-accumulates the
   * XOR of every pair of character codes and never exits early, so it always
   * compares all positions.
   */
  method ConstantTimeEquals(a: string, b: string) returns (equal: bool, ghost compared: nat)
    requires |a| == |b|
    ensures equal <==> a == b
    ensures compared == |a|
  {
    var result: nat := 0;
    compared := 0;
    var i := 0;
    while i < |a|
      invariant 0 <= i <= |a|
      invariant compared == i
      invariant result == 0 <==> a[..i] == b[..i]
    {
      var x := BitXor(a[i] as int, b[i] as int);
      BitXorZero(a[i] as int, b[i] as int);
      BitOrZero(result, x);
      assert a[..i + 1] == a[..i] + [a[i]] && b[..i + 1] == b[..i] + [b[i]];
      result := BitOr(result, x);
      compared := compared + 1;
      i := i + 1;
    }
    assert a[..i] == a && b[..i] == b;
    equal := result == 0;
  }

  /**
   * validatePIN: rejects once `now` is past the expiry and on a length
   * mismatch; otherwise compares every character.
   */
  method ValidatePin(pin: string, expected: string, expiresAt: int, now: int)
    returns (ok: bool, ghost compared: nat)
    ensures ok <==> now <= expiresAt && pin == expected
    ensures now <= expiresAt && |pin| == |expected| ==> compared == |expected|
  {
    compared := 0;
    if now > expiresAt {
      return false, compared;
    }
    if |pin| != |expected| {
      return false, compared;
    }
    ok, compared := ConstantTimeEquals(pin, expected);
  }

  /** createAuthToken: a fresh token for the device, created and last used at `now`. */
  function CreateAuthToken(deviceId: string, deviceName: string, random: seq<byte>, now: int): (t: AuthToken)
    requires |random| == TOKEN_BYTES
    ensures t.token == GenerateToken(random) && |t.token| == 2 * TOKEN_BYTES
    ensures t.deviceId == deviceId && t.deviceName == deviceName
    ensures t.createdAt == now && t.lastUsed == now
  {
    AuthToken(GenerateToken(random), deviceId, deviceName, now, now)
  }

  /** The position of the first stored token equal to `token`, if any. */
  function FirstTokenIndex(store: seq<AuthToken>, token: string): (r: Option<nat>)
    ensures r.Some? ==> r.value < |store| && store[r.value].token == token
    ensures r.Some? ==> forall j :: 0 <= j < r.value ==> store[j].token != token
    ensures r.None? ==> forall j :: 0 <= j < |store| ==> store[j].token != token
  {
    if store == [] then None
    else if store[0].token == token then Some(0)
    else match FirstTokenIndex(store[1..], token)
      case None => None
      case Some(k) => Some(k + 1)
  }

  /**
   * validateToken: finds the first stored token equal to `token` and stamps
   * its lastUsed with `now`. The stored object is mutated in place; the
   * model returns the stamped token and the list as it is afterwards.
   */
  method ValidateToken(token: string, store: seq<AuthToken>, now: int)
    returns (found: Option<AuthToken>, updated: seq<AuthToken>)
    ensures match FirstTokenIndex(store, token)
      case None => found.None? && updated == store
      case Some(i) => found == Some(store[i].(lastUsed := now)) && updated == store[i := found.value]
  {
    var i := 0;
    while i < |store|
      invariant 0 <= i <= |store|
      invariant forall j :: 0 <= j < i ==> store[j].token != token
    {
      var t := store[i];
      if |t.token| == |token| {
        var equal, _ := ConstantTimeEquals(token, t.token);
        if equal {
          var stamped := t.(lastUsed := now);
          return Some(stamped), store[i := stamped];
        }
      }
      i := i + 1;
    }
    return None, store;
  }
}
