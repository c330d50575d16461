// Byte buffers as the transports and the token generator see them: unsigned
// octets, big-endian 32-bit words (Buffer.writeUInt32BE / readUInt32BE in
// Node) and lower-case hexadecimal (Buffer.toString('hex')).
module Bytes {
  type byte = x: int | 0 <= x < 256

  const TWO_POW_32: int := 0x1_0000_0000

  /** The four bytes Buffer.writeUInt32BE stores for `n`, most significant first. */
  function WriteUInt32BE(n: nat): (r: seq<byte>)
    requires n < TWO_POW_32
    ensures |r| == 4
  {
    [n / 0x100_0000, (n / 0x1_0000) % 0x100, (n / 0x100) % 0x100, n % 0x100]
  }

  /** Buffer.readUInt32BE(off): the big-endian word stored at `off`. */
  function ReadUInt32BE(s: seq<byte>, off: nat): (r: nat)
    requires off + 4 <= |s|
    ensures r < TWO_POW_32
  {
    var b0, b1, b2, b3: int := s[off], s[off + 1], s[off + 2], s[off + 3];
    ((b0 * 0x100 + b1) * 0x100 + b2) * 0x100 + b3
  }

  lemma ReadWriteUInt32BE(n: nat, prefix: seq<byte>, suffix: seq<byte>)
    requires n < TWO_POW_32
    ensures ReadUInt32BE(prefix + WriteUInt32BE(n) + suffix, |prefix|) == n
  {
    var s := prefix + WriteUInt32BE(n) + suffix;
    var k := |prefix|;
    assert s[k] == n / 0x100_0000 && s[k + 1] == (n / 0x1_0000) % 0x100;
    assert s[k + 2] == (n / 0x100) % 0x100 && s[k + 3] == n % 0x100;
    Recompose(n);
  }

  /** The four bytes of a word, weighted by powers of 256, add back up to the word. */
  lemma Recompose(n: nat)
    requires n < TWO_POW_32
    ensures ((n / 0x100_0000 * 0x100 + (n / 0x1_0000) % 0x100) * 0x100 + (n / 0x100) % 0x100) * 0x100 + n % 0x100 == n
  {
    var q1 := n / 0x100;
    var q2 := q1 / 0x100;
    var q3 := q2 / 0x100;
    assert n == q1 * 0x100 + n % 0x100;
    assert q1 == q2 * 0x100 + q1 % 0x100;
    assert q2 == q3 * 0x100 + q2 % 0x100;
    assert n / 0x1_0000 == q2;
    assert n / 0x100_0000 == q3;
  }

  function HexDigit(d: nat): (c: char)
    requires d < 16
    ensures IsHexChar(c)
  {
    if d < 10 then (48 + d) as char else (87 + d) as char
  }

  predicate IsHexChar(c: char)
  {
    '0' <= c <= '9' || 'a' <= c <= 'f'
  }

  function HexValue(c: char): (d: nat)
    requires IsHexChar(c)
    ensures d < 16
  {
    if c <= '9' then c as int - 48 else c as int - 87
  }

  /** Lower-case hexadecimal text of a buffer, two digits per byte. */
  function ToHex(s: seq<byte>): (r: string)
    ensures |r| == 2 * |s|
    ensures forall i :: 0 <= i < |r| ==> IsHexChar(r[i])
  {
    if s == [] then [] else [HexDigit(s[0] / 16), HexDigit(s[0] % 16)] + ToHex(s[1..])
  }

  /** Reads back the bytes of an even-length lower-case hexadecimal text. */
  function FromHex(t: string): (r: seq<byte>)
    requires |t| % 2 == 0
    requires forall i :: 0 <= i < |t| ==> IsHexChar(t[i])
  {
    if t == [] then [] else [HexValue(t[0]) * 16 + HexValue(t[1])] + FromHex(t[2..])
  }

  lemma {:induction false} FromHexToHex(s: seq<byte>)
    ensures FromHex(ToHex(s)) == s
  {
    if s != [] {
      var t := ToHex(s);
      assert t[2..] == ToHex(s[1..]);
      FromHexToHex(s[1..]);
    }
  }

  // ---- bitwise operators on non-negative integers (JavaScript ^ and |) ----

  function BitXor(a: nat, b: nat): nat
    decreases a + b
  {
    if a == 0 && b == 0 then 0 else 2 * BitXor(a / 2, b / 2) + (if a % 2 == b % 2 then 0 else 1)
  }

  function BitOr(a: nat, b: nat): nat
    decreases a + b
  {
    if a == 0 && b == 0 then 0 else 2 * BitOr(a / 2, b / 2) + (if a % 2 == 1 || b % 2 == 1 then 1 else 0)
  }

  lemma {:induction false} BitXorZero(a: nat, b: nat)
    ensures BitXor(a, b) == 0 <==> a == b
    decreases a + b
  {
    if !(a == 0 && b == 0) {
      BitXorZero(a / 2, b / 2);
    }
  }

  lemma {:induction false} BitOrZero(a: nat, b: nat)
    ensures BitOr(a, b) == 0 <==> a == 0 && b == 0
    decreases a + b
  {
    if !(a == 0 && b == 0) {
      BitOrZero(a / 2, b / 2);
    }
  }
}
