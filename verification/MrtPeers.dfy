/** The peer index table of an MRT dump (section 4.3.1 of RFC 6396). */
module MrtPeers {
  import opened Bytes
  import opened Wrappers

  /** A peer address in its binary form. */
  datatype Address = V4(bin: seq<Byte>) | V6(bin: seq<Byte>) {
    predicate Valid() {
      |bin| == if V4? then 4 else 16
    }
  }

  /** The value of a `MrtPeer`. The low bits of `kind` are the address family (IPv6 if set) and the size
      of the AS number (four octets if set). */
  datatype Peer = Peer(kind: Byte, bgpId: seq<Byte>, ip: Address, asNum: nat) {
    predicate Valid() {
      |bgpId| == 4 && ip.Valid()
    }
  }

  predicate FamilyBit(kind: Byte) {
    kind % 2 == 1
  }

  predicate AsSizeBit(kind: Byte) {
    kind / 2 % 2 == 1
  }

  /** What `serialize` leaves in the type field: bits are set, never cleared. */
  function FixedKind(p: Peer): (kind: Byte)
    ensures FamilyBit(kind) <==> FamilyBit(p.kind) || p.ip.V6?
    ensures AsSizeBit(kind) <==> AsSizeBit(p.kind) || p.asNum > UINT16_MAX
    ensures kind / 4 == p.kind / 4
  {
    var k: Byte := if p.ip.V6? && !FamilyBit(p.kind) then (p.kind as int) + 1 else p.kind;
    if p.asNum > UINT16_MAX && !AsSizeBit(k) then (k as int) + 2 else k
  }

  function Fixed(p: Peer): Peer {
    p.(kind := FixedKind(p))
  }

  /** The bytes of a peer; none where `struct.pack` refuses the AS number. */
  function Packed(p: Peer): Option<seq<Byte>>
    requires p.Valid()
  {
    if p.asNum > UINT32_MAX then None
    else
      var asBin := if AsSizeBit(FixedKind(p)) then Pack32(p.asNum) else Pack16(p.asNum);
      Some([FixedKind(p)] + p.bgpId + p.ip.bin + asBin)
  }

  /** `MrtPeer.parse`; none where a field runs past the end of the buffer. */
  function Parsed(buf: seq<Byte>): Option<(Peer, seq<Byte>)> {
    if |buf| < 5 then None
    else
      var kind := buf[0];
      var ipLen := if FamilyBit(kind) then 16 else 4;
      var asLen := if AsSizeBit(kind) then 4 else 2;
      var offset := 5 + ipLen;
      if |buf| < offset + asLen then None
      else
        var ip := if FamilyBit(kind) then V6(buf[5..offset]) else V4(buf[5..offset]);
        var asNum := if AsSizeBit(kind) then Get32(buf[offset..]) else Get16(buf[offset..]);
        Some((Peer(kind, buf[1..5], ip, asNum), buf[offset + asLen..]))
  }

  /** The address family bit agrees with the address, once `serialize` has set it. */
  predicate Consistent(p: Peer) {
    p.ip.V6? || !FamilyBit(p.kind)
  }

  /** A peer is read back, with its type fixed up, if and only if it is not an IPv4 peer that carries
      the IPv6 bit: that bit is never cleared, and the reader takes sixteen bytes for the address. */
  lemma PeerRoundTrip(p: Peer, rest: seq<Byte>)
    requires p.Valid() && Packed(p).Some?
    ensures Parsed(Packed(p).value + rest) == Some((Fixed(p), rest)) <==> Consistent(p)
  {
    if Consistent(p) {
      PeerReadBack(p, rest);
    } else {
      var buf := Packed(p).value + rest;
      assert buf[0] == FixedKind(p);
    }
  }

  /** Where the fields are (section 4.3.1 of RFC 6396): bit 0 of the type is set for IPv6 and bit 1 for an AS
      number of four octets, which is used for every number that needs it. */
  lemma PeerLayout(p: Peer)
    requires p.Valid() && Packed(p).Some?
    ensures var b, n := Packed(p).value, 5 + |p.ip.bin|;
            && |b| == n + (if b[0] / 2 % 2 == 1 then 4 else 2)
            && (b[0] % 2 == 1 <==> p.ip.V6? || p.kind % 2 == 1)
            && (b[0] / 2 % 2 == 1 <==> p.asNum > 0xffff || p.kind / 2 % 2 == 1)
            && b[0] / 4 == p.kind / 4
            && b[1..5] == p.bgpId && b[5..n] == p.ip.bin && Number(b[n..]) == p.asNum
  {
    var b, n := Packed(p).value, 5 + |p.ip.bin|;
    var kind := FixedKind(p);
    var asBin := if AsSizeBit(kind) then Pack32(p.asNum) else Pack16(p.asNum);
    assert b == [kind] + (p.bgpId + (p.ip.bin + asBin));
    assert b[1..5] == p.bgpId && b[5..n] == p.ip.bin && b[n..] == asBin;
    assert asBin + [] == asBin && asBin[..|asBin|] == asBin;
    BigEndian(asBin);
    if AsSizeBit(kind) {
      UnpackPacked32(p.asNum, []);
    } else {
      UnpackPacked16(p.asNum, []);
    }
  }

  lemma PeerReadBack(p: Peer, rest: seq<Byte>)
    requires p.Valid() && Packed(p).Some? && Consistent(p)
    ensures Parsed(Packed(p).value + rest) == Some((Fixed(p), rest))
  {
    var kind := FixedKind(p);
    var asBin := if AsSizeBit(kind) then Pack32(p.asNum) else Pack16(p.asNum);
    var buf := Packed(p).value + rest;
    var ipLen := |p.ip.bin|;
    assert buf == ([kind] + p.bgpId) + (p.ip.bin + (asBin + rest));
    assert buf[1..5] == p.bgpId;
    assert buf[5..] == p.ip.bin + (asBin + rest);
    assert buf[5..5 + ipLen] == buf[5..][..ipLen] == p.ip.bin;
    assert buf[5 + ipLen..] == asBin + rest && buf[5 + ipLen + |asBin|..] == rest;
    if AsSizeBit(kind) {
      UnpackPacked32(p.asNum, rest);
    } else {
      UnpackPacked16(p.asNum, rest);
    }
  }

  /** Only well-formed peers are parsed, and packing one again gives the very bytes it came from. */
  lemma ParsedPacksBack(buf: seq<Byte>)
    requires Parsed(buf).Some?
    ensures var (p, rest) := Parsed(buf).value;
            p.Valid() && Consistent(p) && Packed(p).Some? && Packed(p).value + rest == buf
  {
    var (p, rest) := Parsed(buf).value;
    var offset := 5 + |p.ip.bin|;
    assert FixedKind(p) == p.kind;
    if AsSizeBit(p.kind) {
      PackUnpacked32(buf[offset..]);
    } else {
      PackUnpacked16(buf[offset..]);
    }
    assert buf == [p.kind] + p.bgpId + p.ip.bin + buf[offset..];
  }

  // ----- the table -----

  ghost predicate AllValid(ps: seq<Peer>) {
    forall i :: 0 <= i < |ps| ==> ps[i].Valid()
  }

  function PackedAll(ps: seq<Peer>): Option<seq<Byte>>
    requires AllValid(ps)
  {
    if ps == [] then Some([])
    else
      var first := Packed(ps[0]);
      var others := PackedAll(ps[1..]);
      if first.None? || others.None? then None else Some(first.value + others.value)
  }

  function ParsedAll(buf: seq<Byte>, count: nat): Option<(seq<Peer>, seq<Byte>)> {
    if count == 0 then Some(([], buf))
    else
      var first := Parsed(buf);
      if first.None? then None
      else
        var others := ParsedAll(first.value.1, count - 1);
        if others.None? then None else Some(([first.value.0] + others.value.0, others.value.1))
  }

  function FixedAll(ps: seq<Peer>): (fixed: seq<Peer>)
    ensures |fixed| == |ps| && forall i :: 0 <= i < |ps| ==> fixed[i] == Fixed(ps[i])
  {
    if ps == [] then [] else [Fixed(ps[0])] + FixedAll(ps[1..])
  }

  ghost predicate AllConsistent(ps: seq<Peer>) {
    forall i :: 0 <= i < |ps| ==> Consistent(ps[i])
  }

  /** The bytes of a list of peers are those of its head, then those of its tail. */
  lemma PeersUnfold(ps: seq<Peer>, rest: seq<Byte>)
    requires AllValid(ps) && PackedAll(ps).Some? && ps != []
    ensures ps[0].Valid() && AllValid(ps[1..]) && Packed(ps[0]).Some? && PackedAll(ps[1..]).Some?
    ensures PackedAll(ps).value + rest == Packed(ps[0]).value + (PackedAll(ps[1..]).value + rest)
  {
    hide Packed;
    var first, others := Packed(ps[0]).value, PackedAll(ps[1..]).value;
    assert PackedAll(ps).value == first + others;
    assert (first + others) + rest == first + (others + rest);
  }

  lemma FixedUnfold(ps: seq<Peer>)
    requires ps != []
    ensures FixedAll(ps) == [Fixed(ps[0])] + FixedAll(ps[1..])
  {
  }

  lemma {:induction false} PeersReadBack(ps: seq<Peer>, rest: seq<Byte>)
    requires AllValid(ps) && PackedAll(ps).Some? && AllConsistent(ps)
    ensures ParsedAll(PackedAll(ps).value + rest, |ps|) == Some((FixedAll(ps), rest))
  {
    if ps == [] {
      assert PackedAll(ps).value + rest == rest;
    } else {
      PeersUnfold(ps, rest);
      FixedUnfold(ps);
      PeersReadBack(ps[1..], rest);
      PeerReadBack(ps[0], PackedAll(ps[1..]).value + rest);
      hide Packed, Parsed, Fixed, PackedAll, FixedAll;
    }
  }

  lemma {:induction false} OnlyConsistentReadBack(ps: seq<Peer>, rest: seq<Byte>)
    requires AllValid(ps) && PackedAll(ps).Some?
    requires ParsedAll(PackedAll(ps).value + rest, |ps|).Some?
    requires ParsedAll(PackedAll(ps).value + rest, |ps|).value.0 == FixedAll(ps)
    ensures AllConsistent(ps)
  {
    if ps != [] {
      PeersUnfold(ps, rest);
      FixedUnfold(ps);
      var tail := PackedAll(ps[1..]).value + rest;
      hide Packed, Parsed, Fixed, PackedAll, FixedAll, Peer.Valid;
      if Consistent(ps[0]) {
        PeerReadBack(ps[0], tail);
        HeadAndTail(ParsedAll(tail, |ps| - 1).value.0, FixedAll(ps[1..]), Fixed(ps[0]));
        OnlyConsistentReadBack(ps[1..], rest);
      } else {
        FirstPeerWrong(ps[0], tail);
      }
    }
  }

  lemma HeadAndTail(xs: seq<Peer>, ys: seq<Peer>, p: Peer)
    requires [p] + xs == [p] + ys
    ensures xs == ys
  {
    assert ([p] + xs)[1..] == xs && ([p] + ys)[1..] == ys;
  }

  lemma FirstPeerWrong(p: Peer, tail: seq<Byte>)
    requires p.Valid() && Packed(p).Some? && !Consistent(p)
    ensures Parsed(Packed(p).value + tail).Some? ==> Parsed(Packed(p).value + tail).value.0 != Fixed(p)
  {
  }

  /** The value of a `TableDump2PeerIndexTableMrtMessage`; the view name is in its encoded form. */
  datatype Table = Table(bgpId: seq<Byte>, viewName: seq<Byte>, viewNameLen: Option<nat>,
                         peers: seq<Peer>, peerCount: Option<nat>) {
    ghost predicate Valid() {
      |bgpId| == 4 && AllValid(peers)
    }
  }

  function FixedTable(t: Table): Table {
    Table(t.bgpId, t.viewName, Some(|t.viewName|), FixedAll(t.peers), Some(|t.peers|))
  }

  /** The bytes of the table; none where a count or a number does not fit its field. */
  ghost function PackedTable(t: Table): Option<seq<Byte>>
    requires t.Valid()
  {
    if |t.viewName| > UINT16_MAX || |t.peers| > UINT16_MAX || PackedAll(t.peers).None? then None
    else Some(t.bgpId + Pack16(|t.viewName|) + t.viewName + Pack16(|t.peers|) + PackedAll(t.peers).value)
  }

  function ParsedTable(buf: seq<Byte>): Option<Table> {
    if |buf| < 6 then None
    else
      var nameLen := Get16(buf[4..]);
      if |buf| < 6 + nameLen + 2 then None
      else
        var count := Get16(buf[6 + nameLen..]);
        var entries := ParsedAll(buf[6 + nameLen + 2..], count);
        if entries.None? then None
        else Some(Table(buf[..4], buf[6..6 + nameLen], Some(nameLen), entries.value.0, Some(count)))
  }

  lemma TableLayout(id: seq<Byte>, name: seq<Byte>, count: nat, entries: seq<Byte>)
    requires |id| == 4 && |name| <= UINT16_MAX && count <= UINT16_MAX
    ensures var buf := id + Pack16(|name|) + name + Pack16(count) + entries;
            && |buf| >= 8 + |name|
            && buf[..4] == id && Get16(buf[4..]) == |name| && buf[6..6 + |name|] == name
            && Get16(buf[6 + |name|..]) == count && buf[8 + |name|..] == entries
  {
  }

  /** Where the fields of a table are. */
  lemma PackedTableLayout(t: Table)
    requires t.Valid() && PackedTable(t).Some?
    ensures var b, n := PackedTable(t).value, 6 + |t.viewName|;
            && |b| >= n + 2 && b[..4] == t.bgpId && Number(b[4..6]) == |t.viewName| && b[6..n] == t.viewName
            && Number(b[n..n + 2]) == |t.peers| && PackedAll(t.peers) == Some(b[n + 2..])
  {
    hide PackedAll, Get16, Pack16;
    var b, n := PackedTable(t).value, 6 + |t.viewName|;
    TableLayout(t.bgpId, t.viewName, |t.peers|, PackedAll(t.peers).value);
    BigEndian(b[4..]);
    BigEndian(b[n..]);
    assert b[4..][..2] == b[4..6] && b[n..][..2] == b[n..n + 2];
  }

  /** A whole table is read back, with its lengths, counts and peer types fixed up, if and only if
      every peer is consistent; bytes after it do not matter. */
  lemma TableRoundTrip(t: Table, rest: seq<Byte>)
    requires t.Valid() && PackedTable(t).Some?
    ensures ParsedTable(PackedTable(t).value + rest) == Some(FixedTable(t)) <==> AllConsistent(t.peers)
  {
    hide ParsedAll, PackedAll, FixedAll, AllConsistent, Get16, Pack16;
    var packed := PackedAll(t.peers).value;
    TableLayout(t.bgpId, t.viewName, |t.peers|, packed + rest);
    assert PackedTable(t).value + rest
        == t.bgpId + Pack16(|t.viewName|) + t.viewName + Pack16(|t.peers|) + (packed + rest);
    if AllConsistent(t.peers) {
      PeersReadBack(t.peers, rest);
    }
    if ParsedTable(PackedTable(t).value + rest) == Some(FixedTable(t)) {
      OnlyConsistentReadBack(t.peers, rest);
    }
  }

  // ----- the objects -----

  lemma FixedTwice(p: Peer)
    requires p.Valid()
    ensures Fixed(Fixed(p)) == Fixed(p) && Packed(Fixed(p)) == Packed(p)
  {
  }

  class MrtPeer {
    var kind: Byte
    const bgpId: seq<Byte>
    const ip: Address
    const asNum: nat

    function Value(): Peer
      reads this
    {
      Peer(kind, bgpId, ip, asNum)
    }

    constructor (p: Peer)
      ensures Value() == p
    {
      kind, bgpId, ip, asNum := p.kind, p.bgpId, p.ip, p.asNum;
    }

    static method Parse(buf: seq<Byte>) returns (r: Option<(MrtPeer, seq<Byte>)>)
      ensures r.None? <==> Parsed(buf).None?
      ensures r.Some? ==> fresh(r.value.0) && (r.value.0.Value(), r.value.1) == Parsed(buf).value
    {
      if |buf| < 5 {
        return None;
      }
      var kind, offset := buf[0], 5;
      var ipLen := if FamilyBit(kind) then 16 else 4;
      if |buf| < offset + ipLen {
        return None;
      }
      var bin := buf[offset..offset + ipLen];
      var ip := if |bin| == 4 then V4(bin) else V6(bin);
      offset := offset + ipLen;
      var asNum;
      if AsSizeBit(kind) {
        if |buf| < offset + 4 {
          return None;
        }
        asNum, offset := Get32(buf[offset..]), offset + 4;
      } else {
        if |buf| < offset + 2 {
          return None;
        }
        asNum, offset := Get16(buf[offset..]), offset + 2;
      }
      var p := new MrtPeer(Peer(kind, buf[1..5], ip, asNum));
      return Some((p, buf[offset..]));
    }

    method Serialize() returns (r: Option<seq<Byte>>)
      requires Value().Valid()
      modifies this`kind
      ensures r == Packed(old(Value()))
      ensures Value() == Fixed(old(Value()))
    {
      if ip.V6? && !FamilyBit(kind) {
        kind := (kind as int) + 1;
      }
      var asBin := [];
      if AsSizeBit(kind) || asNum > UINT16_MAX {
        if !AsSizeBit(kind) {
          kind := (kind as int) + 2;
        }
        if asNum > UINT32_MAX {
          return None;
        }
        asBin := Pack32(asNum);
      } else {
        asBin := Pack16(asNum);
      }
      return Some([kind] + bgpId + ip.bin + asBin);
    }
  }

  ghost function Values(ps: seq<MrtPeer>): (vs: seq<Peer>)
    reads ps
    ensures |vs| == |ps| && forall i :: 0 <= i < |ps| ==> vs[i] == ps[i].Value()
  {
    if ps == [] then [] else [ps[0].Value()] + Values(ps[1..])
  }

  /** Packing in a loop: `buf` holds the peers before `i`. */
  ghost predicate PackedSoFar(vs: seq<Peer>, i: nat, buf: seq<Byte>)
    requires AllValid(vs) && i <= |vs|
  {
    PackedAll(vs) == if PackedAll(vs[i..]).None? then None else Some(buf + PackedAll(vs[i..]).value)
  }

  lemma PackOneMore(vs: seq<Peer>, i: nat, buf: seq<Byte>)
    requires AllValid(vs) && i < |vs| && PackedSoFar(vs, i, buf)
    ensures Packed(vs[i]).None? ==> PackedAll(vs).None?
    ensures Packed(vs[i]).Some? ==> PackedSoFar(vs, i + 1, buf + Packed(vs[i]).value)
  {
    hide Packed;
    assert vs[i..][1..] == vs[i + 1..];
    var others := PackedAll(vs[i + 1..]);
    if Packed(vs[i]).Some? && others.Some? {
      assert buf + (Packed(vs[i]).value + others.value) == (buf + Packed(vs[i]).value) + others.value;
    }
  }

  /** Parsing in a loop: `ps` were parsed, `left` more are to be read from `rest`. */
  ghost predicate ParsedSoFar(buf: seq<Byte>, count: nat, ps: seq<Peer>, rest: seq<Byte>)
    requires |ps| <= count
  {
    var others := ParsedAll(rest, count - |ps|);
    ParsedAll(buf, count) == if others.None? then None else Some((ps + others.value.0, others.value.1))
  }

  lemma ParseOneMore(buf: seq<Byte>, count: nat, ps: seq<Peer>, rest: seq<Byte>)
    requires |ps| < count && ParsedSoFar(buf, count, ps, rest)
    ensures Parsed(rest).None? ==> ParsedAll(buf, count).None?
    ensures Parsed(rest).Some? ==> ParsedSoFar(buf, count, ps + [Parsed(rest).value.0], Parsed(rest).value.1)
  {
    if Parsed(rest).Some? {
      var others := ParsedAll(Parsed(rest).value.1, count - |ps| - 1);
      if others.Some? {
        assert ps + ([Parsed(rest).value.0] + others.value.0) == (ps + [Parsed(rest).value.0]) + others.value.0;
      }
    }
  }

  /** While the first `i` peers have been packed, the `j`-th is fixed up, or still as it was. */
  ghost predicate StepOk(was: Peer, now: Peer, j: nat, i: nat) {
    now == Fixed(was) || (i <= j && now == was)
  }

  ghost predicate Halfway(was: seq<Peer>, now: seq<Peer>, i: nat) {
    |was| == |now| &&
    forall j {:trigger StepOk(was[j], now[j], j, i)} :: 0 <= j < |was| ==> StepOk(was[j], now[j], j, i)
  }

  lemma AllDone(was: seq<Peer>, now: seq<Peer>)
    requires Halfway(was, now, |was|)
    ensures now == FixedAll(was)
  {
    hide Fixed;
    forall j | 0 <= j < |was|
      ensures now[j] == Fixed(was[j])
    {
      assert StepOk(was[j], now[j], j, |was|);
    }
  }

  lemma StartPacking(vs: seq<Peer>)
    requires AllValid(vs)
    ensures PackedSoFar(vs, 0, [])
  {
    hide PackedAll;
    assert vs[0..] == vs;
    assert PackedAll(vs).Some? ==> [] + PackedAll(vs).value == PackedAll(vs).value;
  }

  lemma EndPacking(vs: seq<Peer>, buf: seq<Byte>)
    requires AllValid(vs) && PackedSoFar(vs, |vs|, buf)
    ensures PackedAll(vs) == Some(buf)
  {
    assert vs[|vs|..] == [] && buf + [] == buf;
  }

  lemma StartParsing(buf: seq<Byte>, count: nat)
    ensures ParsedSoFar(buf, count, [], buf)
  {
    hide ParsedAll;
    var all := ParsedAll(buf, count);
    assert all.Some? ==> [] + all.value.0 == all.value.0;
  }

  lemma EndParsing(buf: seq<Byte>, ps: seq<Peer>, rest: seq<Byte>)
    requires ParsedSoFar(buf, |ps|, ps, rest)
    ensures ParsedAll(buf, |ps|) == Some((ps, rest))
  {
    assert ps + [] == ps;
  }

  lemma ValuesAppend(ps: seq<MrtPeer>, p: MrtPeer)
    ensures Values(ps + [p]) == Values(ps) + [p.Value()]
  {
  }

  class PeerIndexTable {
    const bgpId: seq<Byte>
    const viewName: seq<Byte>
    const peers: seq<MrtPeer>
    var viewNameLen: Option<nat>
    var peerCount: Option<nat>

    ghost function Value(): Table
      reads this, peers
    {
      Table(bgpId, viewName, viewNameLen, Values(peers), peerCount)
    }

    constructor (bgpId: seq<Byte>, peers: seq<MrtPeer>, viewName: seq<Byte>, viewNameLen: Option<nat>,
                 peerCount: Option<nat>)
      ensures Value() == Table(bgpId, viewName, viewNameLen, Values(peers), peerCount)
      ensures this.peers == peers
    {
      this.bgpId, this.peers, this.viewName := bgpId, peers, viewName;
      this.viewNameLen, this.peerCount := viewNameLen, peerCount;
    }

    static method Parse(buf: seq<Byte>) returns (r: Option<PeerIndexTable>)
      ensures r.None? <==> ParsedTable(buf).None?
      ensures r.Some? ==> fresh(r.value) && r.value.Value() == ParsedTable(buf).value
    {
      if |buf| < 6 {
        return None;
      }
      var nameLen := Get16(buf[4..]);
      if |buf| < 6 + nameLen + 2 {
        return None;
      }
      var count := Get16(buf[6 + nameLen..]);
      var entries := buf[6 + nameLen + 2..];
      var rest, peers := entries, [];
      hide Parsed, ParsedAll, ParsedSoFar, Get16;
      StartParsing(entries, count);
      for i := 0 to count
        invariant |peers| == i && ParsedSoFar(entries, count, Values(peers), rest)
      {
        ParseOneMore(entries, count, Values(peers), rest);
        var p := MrtPeer.Parse(rest);
        if p.None? {
          return None;
        }
        ValuesAppend(peers, p.value.0);
        peers, rest := peers + [p.value.0], p.value.1;
      }
      var t := new PeerIndexTable(buf[..4], peers, buf[6..6 + nameLen], Some(nameLen), Some(count));
      EndParsing(entries, Values(peers), rest);
      return Some(t);
    }

    /** The loop over the peers. One peer object may stand in the table more than once; packing it again
        changes nothing. */
    static method SerializePeers(peers: seq<MrtPeer>) returns (r: Option<seq<Byte>>)
      requires AllValid(Values(peers))
      modifies peers
      ensures r == PackedAll(old(Values(peers)))
      ensures r.Some? ==> Values(peers) == FixedAll(old(Values(peers)))
    {
      ghost var was := Values(peers);
      var buf := [];
      hide Packed, PackedAll, PackedSoFar, Fixed, FixedAll;
      StartPacking(was);
      for i := 0 to |peers|
        invariant Halfway(was, Values(peers), i)
        invariant PackedSoFar(was, i, buf)
      {
        FixedTwice(was[i]);
        PackOneMore(was, i, buf);
        ghost var before := Values(peers);
        assert StepOk(was[i], before[i], i, i);
        var p := peers[i].Serialize();
        forall j | 0 <= j < |peers|
          ensures StepOk(was[j], Values(peers)[j], j, i + 1)
        {
          assert StepOk(was[j], before[j], j, i);
          assert peers[j] != peers[i] ==> peers[j].Value() == before[j];
          assert peers[j] == peers[i] ==> was[j] == was[i];
        }
        if p.None? {
          return None;
        }
        buf := buf + p.value;
      }
      EndPacking(was, buf);
      AllDone(was, Values(peers));
      return Some(buf);
    }

    method Serialize() returns (r: Option<seq<Byte>>)
      requires Value().Valid()
      modifies this`viewNameLen, this`peerCount, peers
      ensures r == PackedTable(old(Value()))
      ensures r.Some? ==> Value() == FixedTable(old(Value()))
    {
      hide PackedAll, FixedAll, Pack16;
      viewNameLen, peerCount := Some(|viewName|), Some(|peers|);
      if |viewName| > UINT16_MAX || |peers| > UINT16_MAX {
        return None;
      }
      var buf := bgpId + Pack16(|viewName|) + viewName;
      buf := buf + Pack16(|peers|);
      var entries := SerializePeers(peers);
      if entries.None? {
        return None;
      }
      return Some(buf + entries.value);
    }
  }
}
