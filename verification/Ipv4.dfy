/** IPv4 addresses and network prefixes, as rest_router.py computes with them.

    An address is its 32 bits, most significant bit first, so that `address & mask` is
    the bitwise conjunction itself. */
module Ipv4 {
  type Ip = s: seq<bool> | |s| == 32 witness seq(32, _ => false)

  /** The text "a.b.c.d/len" that serves as a dictionary key. */
  datatype Net = Net(addr: Ip, len: nat)

  function Zero(): Ip {
    seq(32, _ => false)
  }

  /** The key of the default route, "0.0.0.0/0". */
  function DefaultNet(): Net {
    Net(Zero(), 0)
  }

  function And(x: Ip, y: Ip): Ip {
    seq(32, i requires 0 <= i < 32 => x[i] && y[i])
  }

  /** `mask_ntob`: the `len` most significant bits set. */
  function MaskNtob(len: nat): Ip
    requires len <= 32
  {
    seq(32, i => i < len)
  }

  function ApplyMask(ip: Ip, len: nat): Ip
    requires len <= 32
  {
    And(ip, MaskNtob(len))
  }

  /** `ip in network`: masking the address yields the network address. */
  predicate Contains(n: Net, ip: Ip) {
    n.len <= 32 && ApplyMask(ip, n.len) == n.addr
  }

  ghost predicate Agree(x: Ip, y: Ip, len: nat)
    requires len <= 32
  {
    forall i :: 0 <= i < len ==> x[i] == y[i]
  }

  /** Equal after masking means equal in the leading bits. */
  lemma MaskAgree(x: Ip, y: Ip, len: nat)
    requires len <= 32
    ensures ApplyMask(x, len) == ApplyMask(y, len) <==> Agree(x, y, len)
  {
    var a, b := ApplyMask(x, len), ApplyMask(y, len);
    if a == b {
      forall i | 0 <= i < len
        ensures x[i] == y[i]
      {
        assert a[i] == x[i] && b[i] == y[i];
      }
    }
  }

  /** No bit from `len` on is set. */
  ghost predicate HostBitsClear(ip: Ip, len: nat)
    requires len <= 32
  {
    forall i :: len <= i < 32 ==> !ip[i]
  }

  /** Masking keeps the leading bits and clears all others; so it changes nothing exactly where those are
      clear already. */
  lemma MaskClearsHostBits(ip: Ip, len: nat)
    requires len <= 32
    ensures Agree(ApplyMask(ip, len), ip, len) && HostBitsClear(ApplyMask(ip, len), len)
    ensures ApplyMask(ip, len) == ip <==> HostBitsClear(ip, len)
  {
    var m := ApplyMask(ip, len);
    assert forall i :: 0 <= i < 32 ==> (m[i] <==> ip[i] && i < len);
  }

  /** An address lies in a prefix exactly if the prefix has no host bits and they agree in its length. */
  lemma ContainsIff(n: Net, ip: Ip)
    ensures Contains(n, ip) <==> n.len <= 32 && HostBitsClear(n.addr, n.len) && Agree(n.addr, ip, n.len)
  {
    if n.len <= 32 {
      MaskClearsHostBits(ip, n.len);
      MaskClearsHostBits(n.addr, n.len);
      MaskAgree(n.addr, ip, n.len);
    }
  }

  lemma MaskIdempotent(x: Ip, len: nat)
    requires len <= 32
    ensures ApplyMask(ApplyMask(x, len), len) == ApplyMask(x, len)
  {
  }

  lemma WholeAddress(ip: Ip)
    ensures ApplyMask(ip, 32) == ip
  {
  }

  lemma DefaultContainsAll(ip: Ip)
    ensures Contains(DefaultNet(), ip)
  {
  }

  /** Two prefixes of one length that share an address are the same prefix. */
  lemma SameLengthSameNet(m: Net, n: Net, ip: Ip)
    requires Contains(m, ip) && Contains(n, ip) && m.len == n.len
    ensures m == n
  {
  }

  /** The two networks have at least one address in common. */
  ghost predicate Shares(m: Net, n: Net) {
    exists ip :: Contains(m, ip) && Contains(n, ip)
  }

  /** The overlap test of `AddressData.add` is exact: looking up each side's gateway in the
      other side's network decides whether the two networks share any address at all. */
  lemma {:induction false} OverlapIffSharedAddress(m: Net, mGw: Ip, n: Net, nGw: Ip)
    requires Contains(m, mGw) && Contains(n, nGw)
    ensures (Contains(m, nGw) || Contains(n, mGw)) <==> Shares(m, n)
  {
    if ip :| Contains(m, ip) && Contains(n, ip) {
      MaskAgree(ip, mGw, m.len);
      MaskAgree(ip, nGw, n.len);
      if m.len <= n.len {
        MaskAgree(ip, nGw, m.len);
      } else {
        MaskAgree(ip, mGw, n.len);
      }
    }
  }
}
