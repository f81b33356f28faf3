/** The raw-ingest wire format: self-delimiting packets with a ten-byte header. */
module RawIngest {
  import opened Words
  import opened Bits
  import opened Outcomes
  import opened Layouts
  import opened Conns

  const HEADER_LEN := 10
  const MAGIC0: byte := 0x52
  const MAGIC1: byte := 0x49
  const VERSION1: byte := 0x01
  const RESP_OK: byte := 0
  const RESP_REJECTED: byte := 1

  datatype Packet = Packet(port: u16, unitID: u16, area: byte, address: u16, count: u16, payload: seq<byte>)

  /** Payload length announced by a header. */
  function PayloadLen(area: byte, count: u16): Result<nat, ReadError> {
    if count == 0 then Err(BadCount)
    else if IsBitArea(area) then Ok(Wrap16(count + 7) / 8)
    else if IsRegArea(area) then Ok(2 * count)
    else Err(BadArea)
  }

  /** What one call of `DecodeOne` makes of the input, and what it leaves. */
  function ParsePacket(input: seq<byte>, port: u16): (Result<Packet, ReadError>, seq<byte>) {
    var (hdr, rest) := Take(input, HEADER_LEN);
    if hdr.Err? then (Err(hdr.error), rest)
    else if hdr.value[0] != MAGIC0 || hdr.value[1] != MAGIC1 then (Err(BadMagic), rest)
    else if hdr.value[2] != VERSION1 then (Err(BadVersion), rest)
    else
      var n := PayloadLen(hdr.value[3], Uint16(hdr.value[8..10]));
      if n.Err? then (Err(n.error), rest)
      else
        var (payload, rest') := Take(rest, n.value);
        if payload.Err? then (Err(payload.error), rest')
        else (Ok(Packet(port, Uint16(hdr.value[4..6]), hdr.value[3], Uint16(hdr.value[6..8]),
                        Uint16(hdr.value[8..10]), payload.value)), rest')
  }

  method DecodeOne(conn: Conn, port: u16) returns (r: Result<Packet, ReadError>)
    modifies conn`input
    ensures (r, conn.input) == ParsePacket(old(conn.input), port)
  {
    var hdr := conn.ReadFull(HEADER_LEN);
    if hdr.Err? { return Err(hdr.error); }
    if hdr.value[0] != MAGIC0 || hdr.value[1] != MAGIC1 { return Err(BadMagic); }
    if hdr.value[2] != VERSION1 { return Err(BadVersion); }
    var area, unitID := hdr.value[3], Uint16(hdr.value[4..6]);
    var addr, count := Uint16(hdr.value[6..8]), Uint16(hdr.value[8..10]);
    var n := PayloadLen(area, count);
    if n.Err? { return Err(n.error); }
    var payload := conn.ReadFull(n.value);
    if payload.Err? { return Err(payload.error); }
    return Ok(Packet(port, unitID, area, addr, count, payload.value));
  }

  function EncodePacket(p: Packet): seq<byte> {
    [MAGIC0, MAGIC1, VERSION1, p.area] + PutUint16(p.unitID) + PutUint16(p.address) + PutUint16(p.count) + p.payload
  }

  /** A packet with a known area and a payload that carries all `count` elements, and no more. */
  predicate Carries(p: Packet) {
    && p.count != 0
    && (IsBitArea(p.area) || IsRegArea(p.area))
    && |p.payload| == if IsBitArea(p.area) then (p.count + 7) / 8 else 2 * p.count
  }

  lemma PacketHeader(p: Packet, tail: seq<byte>)
    ensures var s := EncodePacket(p) + tail;
            && |s| >= 10 && s[..10][..4] == [MAGIC0, MAGIC1, VERSION1, p.area]
            && Uint16(s[..10][4..6]) == p.unitID
            && Uint16(s[..10][6..8]) == p.address
            && Uint16(s[..10][8..10]) == p.count
            && s[10..] == p.payload + tail
  {
    var s := EncodePacket(p) + tail;
    var h := [MAGIC0, MAGIC1, VERSION1, p.area] + PutUint16(p.unitID) + PutUint16(p.address) + PutUint16(p.count);
    assert s == h + (p.payload + tail);
    assert s[..10] == h;
    assert h[4..6] == PutUint16(p.unitID) && h[6..8] == PutUint16(p.address) && h[8..10] == PutUint16(p.count);
    Uint16Put(p.unitID);
    Uint16Put(p.address);
    Uint16Put(p.count);
  }

  /** Decoding undoes encoding exactly when the element count of a bit packet is at most 65528:
      above it the announced payload length collapses to zero. */
  lemma PacketRoundTrip(p: Packet, tail: seq<byte>)
    requires Carries(p)
    ensures ParsePacket(EncodePacket(p) + tail, p.port) == (Ok(p), tail) <==> IsBitArea(p.area) ==> p.count <= MAX_BITS
  {
    PacketHeader(p, tail);
    var s := EncodePacket(p) + tail;
    assert s[..10][0] == MAGIC0 && s[..10][1] == MAGIC1 && s[..10][2] == VERSION1 && s[..10][3] == p.area;
    var n := PayloadLen(p.area, p.count).value;
    if IsBitArea(p.area) && p.count > MAX_BITS {
      assert n == 0;
      assert ParsePacket(s, p.port).0.value.payload == [];
    } else {
      assert n == |p.payload|;
      assert (p.payload + tail)[..n] == p.payload && (p.payload + tail)[n..] == tail;
    }
  }

  /** A packet that the decoder can give back. */
  predicate Encodable(p: Packet, port: u16) {
    p.port == port && Carries(p) && (IsBitArea(p.area) ==> p.count <= MAX_BITS)
  }

  /** The announced length is that of all elements, except for bits beyond 65528. */
  lemma AnnouncedLen(area: byte, count: u16)
    ensures PayloadLen(area, count).Ok? <==> count != 0 && (IsBitArea(area) || IsRegArea(area))
    ensures PayloadLen(area, count).Ok? ==>
              (PayloadLen(area, count).value == (if IsBitArea(area) then (count + 7) / 8 else 2 * count) <==>
               IsBitArea(area) ==> count <= MAX_BITS)
  {
  }

  lemma HeaderBytes(h: seq<byte>)
    requires |h| == HEADER_LEN && h[0] == MAGIC0 && h[1] == MAGIC1 && h[2] == VERSION1
    ensures h == [MAGIC0, MAGIC1, VERSION1, h[3]]
                 + PutUint16(Uint16(h[4..6])) + PutUint16(Uint16(h[6..8])) + PutUint16(Uint16(h[8..10]))
  {
    PutUint16Get(h[4..6]);
    PutUint16Get(h[6..8]);
    PutUint16Get(h[8..10]);
  }

  /** Whatever is decoded was encoded: the input is the encoding of the packet and then the rest, and
      the payload has the announced length. */
  lemma DecodedIsEncoding(input: seq<byte>, port: u16)
    ensures var (r, rest) := ParsePacket(input, port);
            r.Ok? ==>
              && input == EncodePacket(r.value) + rest
              && r.value.port == port
              && PayloadLen(r.value.area, r.value.count) == Ok(|r.value.payload|)
              && (Encodable(r.value, port) <==> IsBitArea(r.value.area) ==> r.value.count <= MAX_BITS)
  {
    var (r, rest) := ParsePacket(input, port);
    if r.Ok? {
      AnnouncedLen(r.value.area, r.value.count);
      hide Uint16, PutUint16, Wrap16, PayloadLen;
      var h := input[..HEADER_LEN];
      HeaderBytes(h);
      assert input == h + (r.value.payload + rest);
    }
  }

  function EncodeAll(ps: seq<Packet>): seq<byte> {
    if ps == [] then [] else EncodePacket(ps[0]) + EncodeAll(ps[1..])
  }

  /** All packets at the front of the input, and the rest at the first decoding error. */
  function ParsePackets(input: seq<byte>, port: u16): (seq<Packet>, seq<byte>)
    decreases |input|
  {
    var (r, rest) := ParsePacket(input, port);
    if r.Err? then ([], input)
    else
      var (ps, end) := ParsePackets(rest, port);
      ([r.value] + ps, end)
  }

  /** Every decoded packet shortens the input, by at least its header. */
  lemma ParsePacketConsumes(input: seq<byte>, port: u16)
    ensures var (r, rest) := ParsePacket(input, port);
            && |rest| <= |input|
            && (r.Ok? ==> |rest| == |input| - 10 - |r.value.payload|)
  {
  }

  /** The stream of the encodings of any packets decodes to those packets, and every byte is used. */
  lemma {:induction false} StreamRoundTrip(ps: seq<Packet>, port: u16)
    requires forall p | p in ps :: Encodable(p, port)
    ensures ParsePackets(EncodeAll(ps), port) == (ps, [])
  {
    if ps != [] {
      assert Encodable(ps[0], port);
      PacketRoundTrip(ps[0], EncodeAll(ps[1..]));
      StreamRoundTrip(ps[1..], port);
      assert [ps[0]] + ps[1..] == ps;
    }
  }

  /** The encodings form a prefix code. */
  lemma PrefixFree(p: Packet, q: Packet)
    requires Encodable(p, p.port) && Encodable(q, p.port)
    requires EncodePacket(p) <= EncodePacket(q)
    ensures p == q
  {
    var tail := EncodePacket(q)[|EncodePacket(p)|..];
    assert EncodePacket(p) + tail == EncodePacket(q) + [];
    PacketRoundTrip(p, tail);
    PacketRoundTrip(q, []);
  }
}
