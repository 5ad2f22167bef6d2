/** MRT records and the files they are written to (section 2 of RFC 6396). Message bodies are any codec. */
module MrtRecords {
  import opened Bytes
  import opened Wrappers

  const HEADER_SIZE := 12
  const EXT_HEADER_SIZE := 4

  const TYPE_BGP4MP_ET := 17
  const TYPE_ISIS_ET := 33
  const TYPE_OSPFV3_ET := 49

  /** The types whose record class reads and writes a microsecond timestamp: only one is registered. */
  predicate HasExtHeader(typ: nat) {
    typ == TYPE_BGP4MP_ET
  }

  /** The types that `parse_pre` takes to have one. */
  predicate CountsExtHeader(typ: nat) {
    typ == TYPE_BGP4MP_ET || typ == TYPE_ISIS_ET || typ == TYPE_OSPFV3_ET
  }

  /** Serializing a message, and parsing one of a given type and subtype; none where the code raises. */
  datatype Codec<!M> = Codec(encode: M -> Option<seq<Byte>>, decode: (nat, nat, seq<Byte>) -> Option<M>)

  /** The value of a record; `ms` exists on records with the extended header only. */
  datatype Record<M> = Record(timestamp: Option<nat>, typ: nat, subtype: nat, length: Option<nat>,
                              ms: Option<nat>, message: M)

  predicate Fits(n: Option<nat>, max: nat) {
    n.Some? && n.value <= max
  }

  function Header(timestamp: nat, typ: nat, subtype: nat, length: nat): (b: seq<Byte>)
    requires timestamp <= UINT32_MAX && typ <= UINT16_MAX && subtype <= UINT16_MAX && length <= UINT32_MAX
    ensures |b| == HEADER_SIZE
  {
    Pack32(timestamp) + Pack16(typ) + Pack16(subtype) + Pack32(length)
  }

  /** The bytes of a record whose timestamp is set; none where `struct.pack` or the message refuses. */
  function Wire<M>(c: Codec<M>, r: Record<M>): Option<seq<Byte>> {
    var body := c.encode(r.message);
    if body.None? || !Fits(r.timestamp, UINT32_MAX) || r.typ > UINT16_MAX || r.subtype > UINT16_MAX
       || |body.value| > UINT32_MAX || (HasExtHeader(r.typ) && !Fits(r.ms, UINT32_MAX)) then None
    else
      var header := Header(r.timestamp.value, r.typ, r.subtype, |body.value|);
      Some((if HasExtHeader(r.typ) then header + Pack32(r.ms.value) else header) + body.value)
  }

  /** The record as `serialize` leaves it. */
  function Fixed<M>(c: Codec<M>, r: Record<M>): Record<M>
    requires c.encode(r.message).Some?
  {
    r.(length := Some(|c.encode(r.message).value|))
  }

  /** `MrtRecord.parse`. The record's constructor takes its last two arguments by position, and for
      the extended header the caller passes them in the other order. */
  function Parse<M>(c: Codec<M>, buf: seq<Byte>): Option<(Record<M>, seq<Byte>)> {
    if |buf| < HEADER_SIZE then None
    else
      var timestamp, typ, subtype, length := Get32(buf), Get16(buf[4..]), Get16(buf[6..]), Get32(buf[8..]);
      var rest := buf[HEADER_SIZE..];
      if HasExtHeader(typ) && |rest| < EXT_HEADER_SIZE then None
      else
        var body := if HasExtHeader(typ) then rest[EXT_HEADER_SIZE..] else rest;
        var cut := if length < |body| then length else |body|;
        var message := c.decode(typ, subtype, body[..cut]);
        if message.None? then None
        else
          var r := if HasExtHeader(typ)
                   then Record(Some(timestamp), typ, subtype, Some(Get32(rest)), Some(length), message.value)
                   else Record(Some(timestamp), typ, subtype, Some(length), None, message.value);
          Some((r, body[cut..]))
  }

  /** The message survives its own codec, and only extended records carry microseconds. */
  ghost predicate Sendable<M>(c: Codec<M>, r: Record<M>) {
    && Wire(c, r).Some?
    && c.decode(r.typ, r.subtype, c.encode(r.message).value) == Some(r.message)
    && (!HasExtHeader(r.typ) ==> r.ms == None)
  }

  /** What the parser makes of a serialized record. */
  function Received<M>(c: Codec<M>, r: Record<M>): Record<M>
    requires Wire(c, r).Some?
  {
    if HasExtHeader(r.typ) then Fixed(c, r).(ms := Fixed(c, r).length, length := r.ms) else Fixed(c, r)
  }

  /** Where the fields are, in network byte order (section 2 of RFC 6396). */
  lemma WireLayout<M>(c: Codec<M>, r: Record<M>)
    requires Wire(c, r).Some?
    ensures var b, body := Wire(c, r).value, c.encode(r.message).value;
            && |b| == (if r.typ == 17 then 16 else 12) + |body|
            && Number(b[..4]) == r.timestamp.value && Number(b[4..6]) == r.typ && Number(b[6..8]) == r.subtype
            && Number(b[8..12]) == |body|
            && (if r.typ == 17 then Number(b[12..16]) == r.ms.value && b[16..] == body else b[12..] == body)
  {
    var b, body := Wire(c, r).value, c.encode(r.message).value;
    var header := Header(r.timestamp.value, r.typ, r.subtype, |body|);
    if HasExtHeader(r.typ) {
      var ext := Pack32(r.ms.value) + body;
      assert b == header + ext && b[12..16] == ext[..4] && b[16..] == ext[4..];
      HeaderLayout(r.timestamp.value, r.typ, r.subtype, |body|, ext);
      UnpackPacked32(r.ms.value, body);
      BigEndian(ext);
    } else {
      HeaderLayout(r.timestamp.value, r.typ, r.subtype, |body|, body);
    }
    assert b[4..][..2] == b[4..6] && b[6..][..2] == b[6..8] && b[8..][..4] == b[8..12];
    BigEndian(b);
    BigEndian(b[4..]);
    BigEndian(b[6..]);
    BigEndian(b[8..]);
  }

  lemma HeaderLayout(timestamp: nat, typ: nat, subtype: nat, length: nat, rest: seq<Byte>)
    requires timestamp <= UINT32_MAX && typ <= UINT16_MAX && subtype <= UINT16_MAX && length <= UINT32_MAX
    ensures var buf := Header(timestamp, typ, subtype, length) + rest;
            && Get32(buf) == timestamp && Get16(buf[4..]) == typ && Get16(buf[6..]) == subtype
            && Get32(buf[8..]) == length && buf[HEADER_SIZE..] == rest
  {
  }

  /** A record is read back whatever follows it, except that an extended one comes back with its
      microseconds and its length exchanged: exactly those whose microseconds happen to equal the length
      of their body come back as they were. */
  lemma RecordRoundTrip<M>(c: Codec<M>, r: Record<M>, rest: seq<Byte>)
    requires Sendable(c, r)
    ensures Parse(c, Wire(c, r).value + rest) == Some((Received(c, r), rest))
    ensures Parse(c, Wire(c, r).value + rest) == Some((Fixed(c, r), rest)) <==>
            !HasExtHeader(r.typ) || r.ms == Fixed(c, r).length
  {
    var body := c.encode(r.message).value;
    var buf := Wire(c, r).value + rest;
    var header := Header(r.timestamp.value, r.typ, r.subtype, |body|);
    assert (body + rest)[..|body|] == body && (body + rest)[|body|..] == rest;
    if HasExtHeader(r.typ) {
      var ext := Pack32(r.ms.value) + (body + rest);
      HeaderLayout(r.timestamp.value, r.typ, r.subtype, |body|, ext);
      UnpackPacked32(r.ms.value, body + rest);
      assert buf == header + ext;
    } else {
      HeaderLayout(r.timestamp.value, r.typ, r.subtype, |body|, body + rest);
      assert buf == header + (body + rest);
    }
    hide Get16, Get32, Pack32, Header;
  }

  // ----- files -----

  /** `parse_pre`: how many bytes the record that starts with this header is taken to have. */
  function RequiredLen(header: seq<Byte>): nat
    requires |header| >= HEADER_SIZE
  {
    HEADER_SIZE + (if CountsExtHeader(Get16(header[4..])) then EXT_HEADER_SIZE else 0) + Get32(header[8..])
  }

  /** The header decides the length. */
  lemma RequiredOfPrefix(stream: seq<Byte>)
    requires |stream| >= HEADER_SIZE
    ensures RequiredLen(stream[..HEADER_SIZE]) == RequiredLen(stream) >= HEADER_SIZE
  {
  }

  datatype Step<M> = Stop | Raise | Got(record: Record<M>, rest: seq<Byte>)

  /** `Reader.next` at the front of what is left of the file; a read past the end returns what there is. */
  function Next<M>(c: Codec<M>, stream: seq<Byte>): Step<M> {
    if |stream| < HEADER_SIZE then Stop
    else
      var taken := if RequiredLen(stream) < |stream| then RequiredLen(stream) else |stream|;
      var parsed := Parse(c, stream[..taken]);
      if parsed.None? then Raise else Got(parsed.value.0, stream[taken..])
  }

  /** Iterating the reader: all records of the file, or none if it raises. */
  function ReadAll<M>(c: Codec<M>, stream: seq<Byte>): Option<seq<Record<M>>>
    decreases |stream|
  {
    match Next(c, stream)
    case Stop => Some([])
    case Raise => None
    case Got(record, rest) =>
      var others := ReadAll(c, rest);
      if others.None? then None else Some([record] + others.value)
  }

  predicate Framed(typ: nat) {
    CountsExtHeader(typ) == HasExtHeader(typ)
  }

  lemma RequiredOfWire<M>(c: Codec<M>, r: Record<M>, rest: seq<Byte>)
    requires Sendable(c, r)
    ensures |Wire(c, r).value| >= HEADER_SIZE
    ensures RequiredLen(Wire(c, r).value + rest) == |Wire(c, r).value| + if Framed(r.typ) then 0 else EXT_HEADER_SIZE
  {
  }

  /** The reader gets the record it stands at, and stands at the next one after it, unless the type is
      one that only `parse_pre` knows as extended: then it has eaten up to four bytes of what follows. */
  lemma NextOfWire<M>(c: Codec<M>, r: Record<M>, rest: seq<Byte>)
    requires Sendable(c, r)
    ensures var eaten := if Framed(r.typ) then 0 else if |rest| < EXT_HEADER_SIZE then |rest| else EXT_HEADER_SIZE;
            Next(c, Wire(c, r).value + rest) == Got(Received(c, r), rest[eaten..])
    ensures Next(c, Wire(c, r).value + rest) == Got(Received(c, r), rest) <==> r.typ !in {33, 49} || rest == []
  {
    hide Parse, Wire, Received, RequiredLen;
    var eaten := if Framed(r.typ) then 0 else if |rest| < EXT_HEADER_SIZE then |rest| else EXT_HEADER_SIZE;
    var wire := Wire(c, r).value;
    var stream := wire + rest;
    RequiredOfWire(c, r, rest);
    assert stream[..|wire| + eaten] == wire + rest[..eaten];
    assert stream[|wire| + eaten..] == rest[eaten..];
    RecordRoundTrip(c, r, rest[..eaten]);
  }

  ghost predicate AllSendable<M>(c: Codec<M>, rs: seq<Record<M>>) {
    forall i :: 0 <= i < |rs| ==> Sendable(c, rs[i])
  }

  ghost function WireAll<M>(c: Codec<M>, rs: seq<Record<M>>): seq<Byte>
    requires AllSendable(c, rs)
  {
    if rs == [] then [] else Wire(c, rs[0]).value + WireAll(c, rs[1..])
  }

  ghost function ReceivedAll<M>(c: Codec<M>, rs: seq<Record<M>>): seq<Record<M>>
    requires AllSendable(c, rs)
  {
    if rs == [] then [] else [Received(c, rs[0])] + ReceivedAll(c, rs[1..])
  }

  /** Only the last record may be of a misframed type. */
  ghost predicate AllFramed<M>(rs: seq<Record<M>>) {
    forall i :: 0 <= i < |rs| - 1 ==> Framed(rs[i].typ)
  }

  /** A file of records is read back record by record, if none but the last is of a misframed type. */
  lemma {:induction false} FileRoundTrip<M>(c: Codec<M>, rs: seq<Record<M>>)
    requires AllSendable(c, rs) && AllFramed(rs)
    ensures ReadAll(c, WireAll(c, rs)) == Some(ReceivedAll(c, rs))
  {
    if rs != [] {
      hide Next, Wire, Received, Sendable;
      NextOfWire(c, rs[0], WireAll(c, rs[1..]));
      assert |rs| == 1 ==> WireAll(c, rs[1..]) == [];
      FileRoundTrip(c, rs[1..]);
    }
  }

  /** What is parsed as a message is as long as the message serialized again. */
  ghost predicate KeepsLength<M>(c: Codec<M>) {
    forall typ: nat, subtype: nat, b: seq<Byte> {:trigger c.decode(typ, subtype, b)} ::
      c.decode(typ, subtype, b).Some? ==>
        c.encode(c.decode(typ, subtype, b).value).Some? && |c.encode(c.decode(typ, subtype, b).value).value| == |b|
  }

  /** Then a record that looks like `r` has taken no fewer bytes from the file than `r` has. */
  lemma NextTakesAll<M>(c: Codec<M>, r: Record<M>, stream: seq<Byte>)
    requires KeepsLength(c) && Sendable(c, r)
    requires Next(c, stream).Got? && Next(c, stream).record == Received(c, r)
    ensures |stream| >= |Wire(c, r).value| + |Next(c, stream).rest|
  {
    var taken := if RequiredLen(stream) < |stream| then RequiredLen(stream) else |stream|;
    var buf := stream[..taken];
    var rest := buf[HEADER_SIZE..];
    var body := if HasExtHeader(r.typ) then rest[EXT_HEADER_SIZE..] else rest;
    var length := Get32(buf[8..]);
    var cut := if length < |body| then length else |body|;
    assert c.decode(r.typ, r.subtype, body[..cut]) == Some(r.message);
    hide Get16, Get32, Pack32, Header;
  }

  /** Fewer bytes than a list of records was written with do not hold that list. */
  lemma {:induction false} TooShortForAll<M>(c: Codec<M>, rs: seq<Record<M>>, stream: seq<Byte>)
    requires KeepsLength(c) && AllSendable(c, rs) && |stream| < |WireAll(c, rs)|
    ensures ReadAll(c, stream) != Some(ReceivedAll(c, rs))
  {
    if ReadAll(c, stream) == Some(ReceivedAll(c, rs)) {
      hide Next, Wire, Received, Sendable, KeepsLength;
      assert ReceivedAll(c, rs)[0] == Received(c, rs[0]) && ReceivedAll(c, rs)[1..] == ReceivedAll(c, rs[1..]);
      HeadOfAll(c, stream);
      NextTakesAll(c, rs[0], stream);
      TooShortForAll(c, rs[1..], Next(c, stream).rest);
    }
  }

  lemma HeadOfAll<M>(c: Codec<M>, stream: seq<Byte>)
    requires ReadAll(c, stream).Some? && ReadAll(c, stream).value != []
    ensures Next(c, stream).Got? && Next(c, stream).record == ReadAll(c, stream).value[0]
    ensures ReadAll(c, Next(c, stream).rest) == Some(ReadAll(c, stream).value[1..])
  {
  }

  lemma UnfoldAll<M>(c: Codec<M>, rs: seq<Record<M>>)
    requires AllSendable(c, rs) && rs != []
    ensures AllSendable(c, rs[1..]) && Sendable(c, rs[0])
    ensures WireAll(c, rs) == Wire(c, rs[0]).value + WireAll(c, rs[1..])
    ensures ReceivedAll(c, rs) != [] && ReceivedAll(c, rs)[0] == Received(c, rs[0])
    ensures ReceivedAll(c, rs)[1..] == ReceivedAll(c, rs[1..])
  {
  }

  /** What the reader has left after the first record, which it read back. */
  function LeftAfter<M>(r: Record<M>, tail: seq<Byte>): seq<Byte> {
    if Framed(r.typ) then tail else if |tail| < EXT_HEADER_SIZE then [] else tail[EXT_HEADER_SIZE..]
  }

  lemma FirstReadBack<M>(c: Codec<M>, rs: seq<Record<M>>)
    requires AllSendable(c, rs) && rs != [] && ReadAll(c, WireAll(c, rs)) == Some(ReceivedAll(c, rs))
    ensures AllSendable(c, rs[1..])
    ensures ReadAll(c, LeftAfter(rs[0], WireAll(c, rs[1..]))) == Some(ReceivedAll(c, rs[1..]))
  {
    hide ReadAll, Next, Wire, WireAll, Received, ReceivedAll, Sendable, AllSendable;
    UnfoldAll(c, rs);
    HeadOfAll(c, WireAll(c, rs));
    NextOfWire(c, rs[0], WireAll(c, rs[1..]));
  }

  lemma WireAllNotEmpty<M>(c: Codec<M>, rs: seq<Record<M>>)
    requires AllSendable(c, rs) && rs != []
    ensures |WireAll(c, rs)| >= HEADER_SIZE
  {
  }

  lemma FramedCons<M>(rs: seq<Record<M>>)
    requires rs != [] && Framed(rs[0].typ) && AllFramed(rs[1..])
    ensures AllFramed(rs)
  {
  }

  lemma {:induction false} OnlyFramedReadBack<M>(c: Codec<M>, rs: seq<Record<M>>)
    requires KeepsLength(c) && AllSendable(c, rs) && ReadAll(c, WireAll(c, rs)) == Some(ReceivedAll(c, rs))
    ensures AllFramed(rs)
  {
    if |rs| > 1 {
      hide ReadAll, WireAll, ReceivedAll, AllSendable, KeepsLength, AllFramed, Framed;
      FirstReadBack(c, rs);
      WireAllNotEmpty(c, rs[1..]);
      if Framed(rs[0].typ) {
        OnlyFramedReadBack(c, rs[1..]);
        FramedCons(rs);
      } else {
        TooShortForAll(c, rs[1..], LeftAfter(rs[0], WireAll(c, rs[1..])));
      }
    }
  }

  /** With a codec that keeps lengths a file is read back if and only if none but the last record is of a
      misframed type. */
  lemma FileRoundTripIff<M>(c: Codec<M>, rs: seq<Record<M>>)
    requires KeepsLength(c) && AllSendable(c, rs)
    ensures ReadAll(c, WireAll(c, rs)) == Some(ReceivedAll(c, rs)) <==> AllFramed(rs)
  {
    if AllFramed(rs) {
      FileRoundTrip(c, rs);
    }
    if ReadAll(c, WireAll(c, rs)) == Some(ReceivedAll(c, rs)) {
      OnlyFramedReadBack(c, rs);
    }
  }

  /** A codec that does not look at the message. */
  function BlindCodec(): Codec<bool> {
    Codec((m: bool) => Some(if m then [0, 0, 0, 4] else []), (typ: nat, subtype: nat, b: seq<Byte>) => Some(typ == 0))
  }

  /** The records of a file that is read back by chance: the reader finds the second one four bytes late,
      where its bytes repeat. */
  function ChanceRecords(): seq<Record<bool>> {
    [Record(Some(0), TYPE_ISIS_ET, 0, Some(0), None, false), Record(Some(4), 0, 4, Some(4), None, true)]
  }

  /** So a codec has to keep lengths for the exact condition to hold. */
  lemma ReadBackByChance()
    ensures var c, rs := BlindCodec(), ChanceRecords();
            && AllSendable(c, rs) && !AllFramed(rs)
            && ReadAll(c, WireAll(c, rs)) == Some(ReceivedAll(c, rs)) == Some(rs)
  {
    hide Next, Wire, Received, Sendable, BlindCodec;
    var c, rs := BlindCodec(), ChanceRecords();
    var r, s := rs[0], rs[1];
    ChanceSendable();
    assert r in rs && s in rs;
    var late := LateSecond(c, s);
    NextOfWire(c, r, Wire(c, s).value);
    TwoRecords(c, r, s);
    assert ReadAll(c, []) == Some([]) by { NothingToRead(c); }
    assert ReadAll(c, late) == Some([s] + []);
    assert ReadAll(c, Wire(c, r).value + Wire(c, s).value) == Some([r] + [s]);
  }

  lemma ChanceSendable()
    ensures forall r :: r in ChanceRecords() ==>
              Sendable(BlindCodec(), r) && Wire(BlindCodec(), r).Some? && Received(BlindCodec(), r) == r
  {
  }

  lemma NothingToRead<M>(c: Codec<M>)
    ensures ReadAll(c, []) == Some([])
  {
  }

  lemma TwoRecords<M>(c: Codec<M>, r: Record<M>, s: Record<M>)
    requires AllSendable(c, [r, s])
    ensures Sendable(c, r) && Sendable(c, s)
    ensures WireAll(c, [r, s]) == Wire(c, r).value + Wire(c, s).value
    ensures ReceivedAll(c, [r, s]) == [Received(c, r), Received(c, s)]
  {
    var rs := [r, s];
    assert rs[0] == r && rs[1] == s && rs[1..] == [s] && [s][1..] == [];
    hide Wire, Received, Sendable;
    assert AllSendable(c, [s]) && AllSendable(c, []);
    assert WireAll(c, [s]) == Wire(c, s).value + [] == Wire(c, s).value;
    assert WireAll(c, rs) == Wire(c, r).value + WireAll(c, [s]);
    assert ReceivedAll(c, rs) == [Received(c, r)] + ReceivedAll(c, [s]);
  }

  lemma LateSecond(c: Codec<bool>, s: Record<bool>) returns (late: seq<Byte>)
    requires c == BlindCodec() && s == ChanceRecords()[1]
    ensures Wire(c, s).Some? && |Wire(c, s).value| == 16 && late == Wire(c, s).value[EXT_HEADER_SIZE..]
    ensures Next(c, late) == Got(s, [])
  {
    late := Wire(c, s).value[EXT_HEADER_SIZE..];
    assert late == Header(4, 0, 4, 4) + [];
    HeaderLayout(4, 0, 4, 4, []);
    hide Header, Get16, Get32;
    assert late[..|late|] == late;
  }

  /** With common headers only, what is read is what was written, with the lengths fixed up. */
  lemma {:induction false} CommonFileReadBack<M>(c: Codec<M>, rs: seq<Record<M>>)
    requires AllSendable(c, rs)
    requires forall i :: 0 <= i < |rs| ==> !CountsExtHeader(rs[i].typ) && rs[i] == Fixed(c, rs[i])
    ensures ReadAll(c, WireAll(c, rs)) == Some(rs)
  {
    FileRoundTrip(c, rs);
    CommonReceived(c, rs);
  }

  lemma {:induction false} CommonReceived<M>(c: Codec<M>, rs: seq<Record<M>>)
    requires AllSendable(c, rs)
    requires forall i :: 0 <= i < |rs| ==> !HasExtHeader(rs[i].typ) && rs[i] == Fixed(c, rs[i])
    ensures ReceivedAll(c, rs) == rs
  {
    if rs != [] {
      CommonReceived(c, rs[1..]);
    }
  }

  /** Behind a misframed record, a last record of less than sixteen bytes is never read. */
  lemma ShortRecordIsLost<M>(c: Codec<M>, r: Record<M>, last: Record<M>)
    requires Sendable(c, r) && Sendable(c, last) && !Framed(r.typ)
    requires |Wire(c, last).value| < HEADER_SIZE + EXT_HEADER_SIZE
    ensures ReadAll(c, Wire(c, r).value + Wire(c, last).value) == Some([Received(c, r)])
  {
    var rest := Wire(c, last).value;
    RequiredOfWire(c, last, []);
    NextOfWire(c, r, rest);
    assert Next(c, rest[EXT_HEADER_SIZE..]).Stop?;
    hide Next, Wire, Received, Sendable;
    assert ReadAll(c, rest[EXT_HEADER_SIZE..]) == Some([]);
    assert [Received(c, r)] + [] == [Received(c, r)];
  }

  function RawCodec(): Codec<seq<Byte>> {
    Codec((m: seq<Byte>) => Some(m), (typ: nat, subtype: nat, b: seq<Byte>) => Some(b))
  }

  /** So two empty records of the unregistered type 33 come back as one. */
  lemma TwoComeBackAsOne()
    ensures var c := RawCodec();
            var r := Record(Some(0), TYPE_ISIS_ET, 0, Some(0), None, []);
            && Sendable(c, r) && Received(c, r) == r
            && ReadAll(c, Wire(c, r).value + Wire(c, r).value) == Some([r])
  {
    var c := RawCodec();
    var r := Record(Some(0), TYPE_ISIS_ET, 0, Some(0), None, []);
    assert Sendable(c, r) && Received(c, r) == r && |Wire(c, r).value| == HEADER_SIZE;
    hide ReadAll, Next, Wire, Received, Sendable;
    ShortRecordIsLost(c, r, r);
  }

  // ----- the objects -----

  class MrtRecord<M(==)> {
    var timestamp: Option<nat>
    var length: Option<nat>
    const typ: nat
    const subtype: nat
    const ms: Option<nat>
    const message: M

    function Value(): Record<M>
      reads this
    {
      Record(timestamp, typ, subtype, length, ms, message)
    }

    constructor (r: Record<M>)
      ensures Value() == r
    {
      timestamp, length, typ, subtype, ms, message := r.timestamp, r.length, r.typ, r.subtype, r.ms, r.message;
    }

    /** `serialize`; `now` is what the clock says. The fields it fixes up are the timestamp, where it has none,
        and the length. */
    method Serialize(c: Codec<M>, now: nat) returns (r: Option<seq<Byte>>)
      modifies this
      ensures timestamp == if old(timestamp).Some? then old(timestamp) else Some(now)
      ensures length == if c.encode(message).Some? then Some(|c.encode(message).value|) else old(length)
      ensures r == Wire(c, Value())
    {
      if timestamp.None? {
        timestamp := Some(now);
      }
      var buf := c.encode(message);
      if buf.None? {
        return None;
      }
      length := Some(|buf.value|);
      if timestamp.value > UINT32_MAX || typ > UINT16_MAX || subtype > UINT16_MAX || length.value > UINT32_MAX {
        return None;
      }
      var header := Header(timestamp.value, typ, subtype, length.value);
      if HasExtHeader(typ) {
        if !Fits(ms, UINT32_MAX) {
          return None;
        }
        header := header + Pack32(ms.value);
      }
      return Some(header + buf.value);
    }
  }

  class Writer {
    var file: seq<Byte>

    constructor ()
      ensures file == []
    {
      file := [];
    }

    method Write<M(==)>(c: Codec<M>, record: MrtRecord<M>, now: nat) returns (ok: bool)
      modifies this, record
      ensures record.timestamp == if old(record.timestamp).Some? then old(record.timestamp) else Some(now)
      ensures record.length ==
              if c.encode(record.message).Some? then Some(|c.encode(record.message).value|) else old(record.length)
      ensures ok == Wire(c, record.Value()).Some?
      ensures file == old(file) + if ok then Wire(c, record.Value()).value else []
    {
      var buf := record.Serialize(c, now);
      if buf.Some? {
        file := file + buf.value;
      }
      ok := buf.Some?;
    }
  }

  class Reader<M(==)> {
    const file: seq<Byte>
    var pos: nat

    ghost predicate Valid()
      reads this
    {
      pos <= |file|
    }

    function Rest(): seq<Byte>
      requires Valid()
      reads this
    {
      file[pos..]
    }

    constructor (file: seq<Byte>)
      ensures Valid() && this.file == file && Rest() == file
    {
      this.file, pos := file, 0;
    }

    /** `next`: a record, or none at the end or on an error; `stopped` tells which. */
    method NextRecord(c: Codec<M>) returns (record: Option<Record<M>>, stopped: bool)
      requires Valid()
      modifies this
      ensures Valid()
      ensures match Next(c, old(Rest()))
              case Stop => record.None? && stopped
              case Raise => record.None? && !stopped
              case Got(r, rest) => record == Some(r) && !stopped && Rest() == rest
    {
      hide Parse, RequiredLen;
      var headerBuf := Take(HEADER_SIZE);
      if |headerBuf| < HEADER_SIZE {
        return None, true;
      }
      pos := pos - HEADER_SIZE;
      RequiredOfPrefix(Rest());
      var buf := Take(RequiredLen(headerBuf));
      var parsed := Parse(c, buf);
      stopped := false;
      record := if parsed.None? then None else Some(parsed.value.0);
    }

    /** `read` of the file: up to `n` bytes, and the position after them. */
    method Take(n: nat) returns (buf: seq<Byte>)
      requires Valid()
      modifies this
      ensures |buf| == if n < |old(Rest())| then n else |old(Rest())|
      ensures Valid() && buf == old(Rest())[..|buf|] && Rest() == old(Rest())[|buf|..]
      ensures pos == old(pos) + |buf|
    {
      var end := if pos + n < |file| then pos + n else |file|;
      buf := file[pos..end];
      pos := end;
    }
  }

  // ----- what is written is read -----

  /** The record serializes once it has a timestamp, and its message survives the codec. */
  ghost predicate Writable<M>(c: Codec<M>, r: Record<M>) {
    && (r.timestamp.Some? ==> r.timestamp.value <= UINT32_MAX)
    && Sendable(c, r.(timestamp := Some(0)))
  }

  /** A record differs from what it was at most in its length, and in its timestamp if it had none. */
  ghost predicate OnlyFixedUp<M>(was: Record<M>, now: Record<M>) {
    && now == was.(timestamp := now.timestamp, length := now.length)
    && (was.timestamp.Some? ==> now.timestamp == was.timestamp)
  }

  ghost predicate IsFixed<M>(c: Codec<M>, r: Record<M>) {
    r.timestamp.Some? && c.encode(r.message).Some? && r.length == Some(|c.encode(r.message).value|)
  }

  /** What `Write` makes of a record. */
  lemma WrittenRecord<M>(c: Codec<M>, was: Record<M>, r: Record<M>, clock: nat, r': Record<M>)
    requires Writable(c, r) && clock <= UINT32_MAX && OnlyFixedUp(was, r)
    requires r' == r.(timestamp := r'.timestamp, length := r'.length)
    requires r'.timestamp == if r.timestamp.Some? then r.timestamp else Some(clock)
    requires c.encode(r.message).Some? ==> r'.length == Some(|c.encode(r.message).value|)
    ensures Writable(c, r') && Sendable(c, r') && Wire(c, r').Some? && IsFixed(c, r') && OnlyFixedUp(was, r')
    ensures IsFixed(c, r) ==> r' == r
  {
    hide Header, Pack32;
  }

  lemma {:induction false} WireAllAppend<M>(c: Codec<M>, rs: seq<Record<M>>, r: Record<M>)
    requires AllSendable(c, rs) && Sendable(c, r) && Wire(c, r).Some?
    ensures AllSendable(c, rs + [r]) && WireAll(c, rs + [r]) == WireAll(c, rs) + Wire(c, r).value
  {
    hide Wire, Sendable, ReceivedAll;
    assert AllSendable(c, rs + [r]);
    UnfoldAll(c, rs + [r]);
    if rs == [] {
      assert (rs + [r])[1..] == [] && WireAll(c, []) == [];
    } else {
      assert (rs + [r])[1..] == rs[1..] + [r];
      UnfoldAll(c, rs);
      WireAllAppend(c, rs[1..], r);
    }
  }

  /** Before `i` objects were written: each is as it was but for its length and a missing timestamp, which it
      got from the clock when it was first written; those written are fixed up. */
  ghost predicate PartlyWritten<M>(c: Codec<M>, records: seq<MrtRecord<M>>, was: seq<Record<M>>,
                                   now: seq<Record<M>>, clock: seq<nat>, i: nat) {
    && |records| == |was| == |now| == |clock| && i <= |records|
    && (forall j :: 0 <= j < |records| ==> Writable(c, now[j]) && OnlyFixedUp(was[j], now[j]))
    && (forall j :: 0 <= j < i ==> IsFixed(c, now[j]))
    && (forall j :: 0 <= j < |records| && was[j].timestamp.None? && now[j].timestamp.Some? ==>
          ClockGave(records, now, clock, i, j))
  }

  ghost predicate ClockGave<M>(records: seq<MrtRecord<M>>, now: seq<Record<M>>, clock: seq<nat>, i: nat, j: nat)
    requires |records| == |now| == |clock| && i <= |records| && j < |records|
  {
    exists h :: 0 <= h < i && records[h] == records[j] && now[j].timestamp == Some(clock[h])
  }

  lemma NoneWritten<M>(c: Codec<M>, records: seq<MrtRecord<M>>, was: seq<Record<M>>, clock: seq<nat>)
    requires |records| == |was| == |clock| && forall j :: 0 <= j < |was| ==> Writable(c, was[j])
    ensures PartlyWritten(c, records, was, was, clock, 0)
    ensures WireAll(c, []) == [] && AllSendable(c, [])
  {
  }

  lemma OneWritten<M>(c: Codec<M>, records: seq<MrtRecord<M>>, was: seq<Record<M>>, now: seq<Record<M>>,
                      clock: seq<nat>, i: nat, now': seq<Record<M>>)
    requires i < |records| && PartlyWritten(c, records, was, now, clock, i) && clock[i] <= UINT32_MAX
    requires |now'| == |now|
    requires forall j, k :: 0 <= j < |now| && 0 <= k < |now| && records[j] == records[k] ==> now[j] == now[k]
    requires forall j :: 0 <= j < |now| ==> now'[j] == if records[j] == records[i] then now'[i] else now[j]
    requires now'[i] == now[i].(timestamp := now'[i].timestamp, length := now'[i].length)
    requires now'[i].timestamp == if now[i].timestamp.Some? then now[i].timestamp else Some(clock[i])
    requires c.encode(now[i].message).Some? ==> now'[i].length == Some(|c.encode(now[i].message).value|)
    ensures PartlyWritten(c, records, was, now', clock, i + 1)
    ensures Sendable(c, now'[i]) && Wire(c, now'[i]).Some?
    ensures forall j :: 0 <= j < i ==> now'[j] == now[j]
  {
    hide Writable, Sendable, IsFixed, Wire, OnlyFixedUp;
    WrittenRecord(c, was[i], now[i], clock[i], now'[i]);
    forall j | 0 <= j < |records|
      ensures Writable(c, now'[j]) && OnlyFixedUp(was[j], now'[j])
    {
      if records[j] == records[i] {
        WrittenRecord(c, was[j], now[j], clock[i], now'[j]);
      }
    }
    forall j | 0 <= j < |records| && was[j].timestamp.None? && now'[j].timestamp.Some?
      ensures ClockGave(records, now', clock, i + 1, j)
    {
      if now[j].timestamp.Some? {
        var h :| 0 <= h < i && records[h] == records[j] && now[j].timestamp == Some(clock[h]);
      } else {
        assert records[i] == records[j] && now'[j].timestamp == Some(clock[i]);
      }
    }
  }

  lemma AllWritten<M>(c: Codec<M>, records: seq<MrtRecord<M>>, was: seq<Record<M>>, now: seq<Record<M>>,
                      clock: seq<nat>, j: nat)
    requires PartlyWritten(c, records, was, now, clock, |records|) && j < |records|
    ensures IsFixed(c, now[j]) && OnlyFixedUp(was[j], now[j])
    ensures was[j].timestamp.None? ==> ClockGave(records, now, clock, |records|, j)
  {
  }

  ghost function Values<M>(records: seq<MrtRecord<M>>): (vs: seq<Record<M>>)
    reads records
    ensures |vs| == |records| && forall i :: 0 <= i < |vs| ==> vs[i] == records[i].Value()
  {
    if records == [] then [] else [records[0].Value()] + Values(records[1..])
  }

  lemma OneMore<M>(now: seq<Record<M>>, now': seq<Record<M>>, i: nat)
    requires i < |now| == |now'| && forall j :: 0 <= j < i ==> now'[j] == now[j]
    ensures now'[..i + 1] == now[..i] + [now'[i]]
  {
  }

  lemma AllOf<M>(rs: seq<Record<M>>)
    ensures rs[..|rs|] == rs && rs[..0] == []
  {
  }

  /** Writing a list of records, one after the other. An object may stand in the list more than once. */
  method WriteEach<M(==)>(c: Codec<M>, records: seq<MrtRecord<M>>, clock: seq<nat>) returns (file: seq<Byte>)
    requires |clock| == |records| && forall i :: 0 <= i < |clock| ==> clock[i] <= UINT32_MAX
    requires forall i :: 0 <= i < |records| ==> Writable(c, records[i].Value())
    modifies records
    ensures PartlyWritten(c, records, old(Values(records)), Values(records), clock, |records|)
    ensures AllSendable(c, Values(records)) && file == WireAll(c, Values(records))
  {
    hide Writable, Sendable, Wire, WireAll, AllSendable, PartlyWritten, Values;
    ghost var was := Values(records);
    NoneWritten(c, records, was, clock);
    AllOf(was);
    var w := new Writer();
    for i := 0 to |records|
      invariant fresh(w)
      invariant PartlyWritten(c, records, was, Values(records), clock, i)
      invariant AllSendable(c, Values(records)[..i]) && w.file == WireAll(c, Values(records)[..i])
    {
      ghost var now := Values(records);
      var ok := w.Write(c, records[i], clock[i]);
      ghost var now' := Values(records);
      OneWritten(c, records, was, now, clock, i, now');
      OneMore(now, now', i);
      WireAllAppend(c, now[..i], now'[i]);
    }
    file := w.file;
    AllOf(Values(records));
  }

  /** Iterating the reader to the end. */
  method ReadEach<M(==)>(c: Codec<M>, reader: Reader<M>) returns (rs: Option<seq<Record<M>>>)
    requires reader.Valid()
    modifies reader
    ensures reader.Valid() && rs == ReadAll(c, old(reader.Rest()))
  {
    hide Next, ReadAll;
    var got := [];
    assert ReadAll(c, reader.Rest()).Some? ==>
        got + ReadAll(c, reader.Rest()).value == ReadAll(c, reader.Rest()).value;
    while true
      invariant reader.Valid()
      invariant ReadAll(c, old(reader.Rest())) ==
                var others := ReadAll(c, reader.Rest());
                if others.None? then None else Some(got + others.value)
      decreases |reader.Rest()|
    {
      ghost var before := reader.Rest();
      ReadShrinks(c, before);
      var record, stopped := reader.NextRecord(c);
      ReadEnds(c, before);
      if stopped {
        assert got + [] == got;
        return Some(got);
      }
      if record.None? {
        return None;
      }
      ReadOneMore(c, before, got, record.value, reader.Rest());
      got := got + [record.value];
    }
  }

  lemma ReadShrinks<M>(c: Codec<M>, stream: seq<Byte>)
    ensures Next(c, stream).Got? ==> |Next(c, stream).rest| < |stream|
  {
  }

  lemma ReadEnds<M>(c: Codec<M>, stream: seq<Byte>)
    ensures Next(c, stream).Stop? ==> ReadAll(c, stream) == Some([])
    ensures Next(c, stream).Raise? ==> ReadAll(c, stream).None?
  {
  }

  lemma ReadOneMore<M>(c: Codec<M>, stream: seq<Byte>, got: seq<Record<M>>, r: Record<M>, rest: seq<Byte>)
    requires Next(c, stream) == Got(r, rest)
    ensures var all, others := ReadAll(c, stream), ReadAll(c, rest);
            && (all.None? <==> others.None?)
            && (all.Some? ==> got + all.value == (got + [r]) + others.value)
  {
  }

  /** What is read of a record that was `was` before it was written, and is `now` since. */
  ghost predicate ReadBackAs<M>(c: Codec<M>, was: Record<M>, now: Record<M>, r: Record<M>) {
    && r.message == was.message && r.typ == was.typ && r.subtype == was.subtype && r.timestamp == now.timestamp
    && (was.timestamp.Some? ==> r.timestamp == was.timestamp)
    && (!HasExtHeader(was.typ) ==> r == now && c.encode(was.message).Some?
                                   && r.length == Some(|c.encode(was.message).value|))
  }

  lemma ReceivedKeeps<M>(c: Codec<M>, was: Record<M>, now: Record<M>)
    requires Wire(c, now).Some? && IsFixed(c, now) && OnlyFixedUp(was, now)
    ensures ReadBackAs(c, was, now, Received(c, now))
  {
    hide Header, Pack32;
  }

  lemma {:induction false} ReceivedEach<M>(c: Codec<M>, rs: seq<Record<M>>)
    requires AllSendable(c, rs)
    ensures |ReceivedAll(c, rs)| == |rs|
    ensures forall i :: 0 <= i < |rs| ==> Wire(c, rs[i]).Some? && ReceivedAll(c, rs)[i] == Received(c, rs[i])
  {
    if rs != [] {
      ReceivedEach(c, rs[1..]);
    }
  }

  lemma ReadBackAll<M>(c: Codec<M>, records: seq<MrtRecord<M>>, was: seq<Record<M>>, now: seq<Record<M>>,
                       clock: seq<nat>, rs: Option<seq<Record<M>>>)
    requires PartlyWritten(c, records, was, now, clock, |records|) && AllSendable(c, now) && AllFramed(now)
    requires rs == ReadAll(c, WireAll(c, now))
    ensures rs.Some? && |rs.value| == |records| == |was| == |now| == |clock|
    ensures forall i :: 0 <= i < |records| ==> ReadBackAs(c, was[i], now[i], rs.value[i])
    ensures forall i :: 0 <= i < |records| && was[i].timestamp.None? ==> ClockGave(records, now, clock, |records|, i)
  {
    FileRoundTrip(c, now);
    ReceivedEach(c, now);
    hide Writable, Wire, WireAll, ReadAll, Received, ReceivedAll, IsFixed, OnlyFixedUp;
    forall i | 0 <= i < |records|
      ensures ReadBackAs(c, was[i], now[i], rs.value[i])
      ensures was[i].timestamp.None? ==> ClockGave(records, now, clock, |records|, i)
    {
      AllWritten(c, records, was, now, clock, i);
      ReceivedKeeps(c, was[i], now[i]);
    }
  }

  /** What the writer wrote, the reader reads: records of framed types come back in order with lengths fixed
      up, and each that had a timestamp comes back with that one. Those with a common header come back as the
      objects then are. */
  method WriteThenRead<M(==)>(c: Codec<M>, records: seq<MrtRecord<M>>, clock: seq<nat>)
    returns (rs: Option<seq<Record<M>>>)
    requires |clock| == |records| && forall i :: 0 <= i < |clock| ==> clock[i] <= UINT32_MAX
    requires forall i :: 0 <= i < |records| ==> Writable(c, records[i].Value())
    requires forall i :: 0 <= i < |records| - 1 ==> records[i].typ !in {33, 49}
    modifies records
    ensures rs.Some? && |rs.value| == |records|
    ensures forall i :: 0 <= i < |records| ==>
              && rs.value[i].message == records[i].message
              && rs.value[i].typ == records[i].typ && rs.value[i].subtype == records[i].subtype
              && (old(records[i].timestamp).Some? ==> rs.value[i].timestamp == old(records[i].timestamp))
              && (old(records[i].timestamp).None? ==>
                    exists h :: && 0 <= h < |records| && records[h] == records[i]
                                && rs.value[i].timestamp == Some(clock[h]))
              && (records[i].typ != 17 ==>
                    && rs.value[i] == records[i].Value() && c.encode(records[i].message).Some?
                    && rs.value[i].length == Some(|c.encode(records[i].message).value|))
  {
    hide Writable, Sendable, Wire, WireAll, AllSendable, PartlyWritten, ReadAll, Received, Values;
    ghost var was := Values(records);
    var file := WriteEach(c, records, clock);
    var reader := new Reader<M>(file);
    rs := ReadEach(c, reader);
    ReadBackAll(c, records, was, Values(records), clock, rs);
  }
}
