/** MBAP framing: section 3.1.3 of the MODBUS Messaging on TCP/IP Implementation Guide V1.0b. */
module Mbap {
  import opened Words
  import opened Outcomes
  import opened Conns
  import opened Pdus

  /** What one call of `ReadRequest` makes of the input, and what it leaves. */
  function ParseRequest(input: seq<byte>, port: u16): (Result<Request, ReadError>, seq<byte>) {
    var (header, rest) := Take(input, 7);
    if header.Err? then (Err(header.error), rest)
    else
      var length := Uint16(header.value[4..6]);
      if length <= 1 then (Err(InvalidLength), rest)
      else
        var (pdu, rest') := Take(rest, length - 1);
        if pdu.Err? then (Err(pdu.error), rest')
        else (Ok(Request(port, Uint16(header.value[0..2]), Uint16(header.value[2..4]), length, header.value[6],
                         pdu.value[0], pdu.value[1..])), rest')
  }

  method ReadRequest(conn: Conn, port: u16) returns (r: Result<Request, ReadError>)
    modifies conn`input
    ensures (r, conn.input) == ParseRequest(old(conn.input), port)
  {
    var mbap := conn.ReadFull(7);
    if mbap.Err? { return Err(mbap.error); }
    var txID, protoID := Uint16(mbap.value[0..2]), Uint16(mbap.value[2..4]);
    var length, unitID := Uint16(mbap.value[4..6]), mbap.value[6];
    if length == 0 { return Err(InvalidLength); }
    var pduLen := length - 1;
    if pduLen <= 0 { return Err(InvalidLength); }
    var pdu := conn.ReadFull(pduLen);
    if pdu.Err? { return Err(pdu.error); }
    return Ok(Request(port, txID, protoID, length, unitID, pdu.value[0], pdu.value[1..]));
  }

  function Header(transactionID: u16, protocolID: u16, length: u16, unitID: byte): (h: seq<byte>)
    ensures |h| == 7
  {
    PutUint16(transactionID) + PutUint16(protocolID) + PutUint16(length) + [unitID]
  }

  /** The response frame for `pdu`; the length field is 16 bits wide and wraps. */
  function Frame(req: Request, pdu: seq<byte>): seq<byte> {
    Header(req.transactionID, req.protocolID, Wrap16(|pdu| + 1), req.unitID) + pdu
  }

  method BuildResponse(req: Request, pdu: seq<byte>) returns (frame: seq<byte>)
    ensures frame == Frame(req, pdu)
  {
    var length := Wrap16(|pdu| + 1);
    var out := new byte[7 + |pdu|];
    out[0], out[1] := PutUint16(req.transactionID)[0], PutUint16(req.transactionID)[1];
    out[2], out[3] := PutUint16(req.protocolID)[0], PutUint16(req.protocolID)[1];
    out[4], out[5] := PutUint16(length)[0], PutUint16(length)[1];
    out[6] := req.unitID;
    forall i | 0 <= i < |pdu| {
      out[7 + i] := pdu[i];
    }
    frame := out[..];
  }

  /** How a client sends a request. */
  function EncodeRequest(req: Request): seq<byte> {
    Header(req.transactionID, req.protocolID, req.length, req.unitID) + [req.functionCode] + req.payload
  }

  /** The length field counts the unit identifier and the PDU. */
  predicate WellFramed(req: Request, port: u16) {
    req.port == port && req.length == |req.payload| + 2
  }

  lemma HeaderFields(transactionID: u16, protocolID: u16, length: u16, unitID: byte, tail: seq<byte>)
    ensures var s := Header(transactionID, protocolID, length, unitID) + tail;
            && s[..7][0..2] == PutUint16(transactionID)
            && s[..7][2..4] == PutUint16(protocolID)
            && s[..7][4..6] == PutUint16(length)
            && s[..7][6] == unitID
            && s[7..] == tail
    ensures Uint16(PutUint16(transactionID)) == transactionID
    ensures Uint16(PutUint16(protocolID)) == protocolID
    ensures Uint16(PutUint16(length)) == length
  {
    Uint16Put(transactionID);
    Uint16Put(protocolID);
    Uint16Put(length);
  }

  /** Parsing the encoding of a request gives the request back and consumes exactly its bytes. */
  lemma RequestRoundTrip(req: Request, port: u16, tail: seq<byte>)
    requires WellFramed(req, port)
    ensures ParseRequest(EncodeRequest(req) + tail, port) == (Ok(req), tail)
  {
    var body := [req.functionCode] + req.payload;
    HeaderFields(req.transactionID, req.protocolID, req.length, req.unitID, body + tail);
    assert EncodeRequest(req) + tail ==
           Header(req.transactionID, req.protocolID, req.length, req.unitID) + (body + tail);
    assert (body + tail)[..req.length - 1] == body && (body + tail)[req.length - 1..] == tail;
  }

  /** Whatever is read was well framed: the input is the encoding of the request and then the rest. */
  lemma ReadIsEncoding(input: seq<byte>, port: u16)
    ensures var (r, rest) := ParseRequest(input, port);
            r.Ok? ==> WellFramed(r.value, port) && input == EncodeRequest(r.value) + rest
  {
    var (r, rest) := ParseRequest(input, port);
    if r.Ok? {
      var h := input[..7];
      PutUint16Get(h[0..2]);
      PutUint16Get(h[2..4]);
      PutUint16Get(h[4..6]);
      assert h == h[0..2] + h[2..4] + h[4..6] + [h[6]];
      assert input == h + ([r.value.functionCode] + r.value.payload + rest);
    }
  }

  lemma ParseRequestConsumes(input: seq<byte>, port: u16)
    ensures var (r, rest) := ParseRequest(input, port);
            |rest| <= |input| && (r.Ok? ==> |rest| == |input| - 8 - |r.value.payload|)
    ensures input == [] ==> ParseRequest(input, port) == (Err(EOF), [])
  {
  }

  /** Reading a response frame back recovers the identifiers and the PDU exactly when the PDU has
      between 1 and 65534 bytes. */
  lemma FrameRoundTrip(req: Request, pdu: seq<byte>, tail: seq<byte>)
    ensures 1 <= |pdu| <= 65534 <==>
            && var (r, rest) := ParseRequest(Frame(req, pdu) + tail, req.port);
            && r.Ok? && rest == tail
            && [r.value.functionCode] + r.value.payload == pdu
            && r.value.transactionID == req.transactionID
            && r.value.protocolID == req.protocolID
            && r.value.unitID == req.unitID
  {
    var length := Wrap16(|pdu| + 1);
    HeaderFields(req.transactionID, req.protocolID, length, req.unitID, pdu + tail);
    var s := Frame(req, pdu) + tail;
    assert s == Header(req.transactionID, req.protocolID, length, req.unitID) + (pdu + tail);
    if 1 <= |pdu| <= 65534 {
      assert (pdu + tail)[..length - 1] == pdu && (pdu + tail)[length - 1..] == tail;
    } else if length > 1 {
      var (r, rest) := ParseRequest(s, req.port);
      assert r.Ok? ==> |[r.value.functionCode] + r.value.payload| == length - 1;
    }
  }
}
