/** Byte strings and the big-endian integers that `struct` packs into them. */
module Bytes {
  type Byte = x: int | 0 <= x < 256 witness 0

  const UINT16_MAX := 0xffff
  const UINT32_MAX := 0xffff_ffff

  function Pack16(n: nat): (b: seq<Byte>)
    requires n <= UINT16_MAX
    ensures |b| == 2
  {
    [n / 256, n % 256]
  }

  function Get16(b: seq<Byte>): (n: nat)
    requires |b| >= 2
    ensures n <= UINT16_MAX
  {
    (b[0] as int) * 256 + b[1] as int
  }

  function Pack32(n: nat): (b: seq<Byte>)
    requires n <= UINT32_MAX
    ensures |b| == 4
  {
    Pack16(n / 65536) + Pack16(n % 65536)
  }

  function Get32(b: seq<Byte>): (n: nat)
    requires |b| >= 4
    ensures n <= UINT32_MAX
  {
    Get16(b) * 65536 + Get16(b[2..])
  }

  /** The number that a byte string spells, most significant byte first. */
  function Number(b: seq<Byte>): nat {
    if b == [] then 0 else Number(b[..|b| - 1]) * 256 + b[|b| - 1] as int
  }

  lemma Number2(b: seq<Byte>)
    requires |b| == 2
    ensures Number(b) == (b[0] as int) * 256 + b[1] as int
  {
    assert b[..1][..0] == [];
    assert Number(b[..1]) == b[0] as int;
  }

  /** Fields are in network byte order. */
  lemma BigEndian(b: seq<Byte>)
    ensures |b| >= 2 ==> Get16(b) == Number(b[..2])
    ensures |b| >= 4 ==> Get32(b) == Number(b[..4])
  {
    if |b| >= 2 {
      Number2(b[..2]);
    }
    if |b| >= 4 {
      assert b[..4][..3] == b[..3] && b[..3][..2] == b[..2];
      assert Number(b[..3]) == Number(b[..2]) * 256 + b[2] as int;
      assert Number(b[..4]) == Number(b[..3]) * 256 + b[3] as int;
    }
  }

  lemma UnpackPacked16(n: nat, rest: seq<Byte>)
    requires n <= UINT16_MAX
    ensures Get16(Pack16(n) + rest) == n && (Pack16(n) + rest)[2..] == rest
  {
  }

  lemma UnpackPacked32(n: nat, rest: seq<Byte>)
    requires n <= UINT32_MAX
    ensures Get32(Pack32(n) + rest) == n && (Pack32(n) + rest)[4..] == rest
  {
  }

  lemma PackUnpacked16(b: seq<Byte>)
    requires |b| >= 2
    ensures Pack16(Get16(b)) + b[2..] == b
  {
  }

  lemma PackUnpacked32(b: seq<Byte>)
    requires |b| >= 4
    ensures Pack32(Get32(b)) + b[4..] == b
  {
  }

  function Concat(parts: seq<seq<Byte>>): seq<Byte> {
    if parts == [] then [] else parts[0] + Concat(parts[1..])
  }

  lemma {:induction false} ConcatAppend(parts: seq<seq<Byte>>, part: seq<Byte>)
    ensures Concat(parts + [part]) == Concat(parts) + part
  {
    if parts == [] {
      assert parts + [part] == [part];
    } else {
      assert (parts + [part])[1..] == parts[1..] + [part];
      ConcatAppend(parts[1..], part);
    }
  }
}
