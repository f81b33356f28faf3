/** Modbus protocol data units: decoding of requests, building of answers. */
module Pdus {
  import opened Words
  import opened Bits
  import opened Outcomes
  import opened Images

  /** A parsed Modbus TCP request; `payload` is the PDU without its function code. */
  datatype Request = Request(
    port: u16,
    transactionID: u16,
    protocolID: u16,
    length: u16,
    unitID: byte,
    functionCode: byte,
    payload: seq<byte>)

  // Exception codes.
  const ILLEGAL_FUNCTION: byte := 1
  const ILLEGAL_DATA_ADDRESS: byte := 2
  const ILLEGAL_DATA_VALUE: byte := 3
  const DEVICE_BUSY: byte := 6

  datatype ReadRequestPDU = ReadRequestPDU(address: u16, quantity: u16)
  datatype WriteSinglePDU = WriteSinglePDU(address: u16, value: u16)
  datatype WriteMultiplePDU = WriteMultiplePDU(address: u16, quantity: u16, values: seq<u16>)
  datatype WriteMultipleBitsPDU = WriteMultipleBitsPDU(address: u16, quantity: u16, data: seq<byte>)

  function DecodeReadRequest(pdu: seq<byte>): Option<ReadRequestPDU> {
    if |pdu| != 4 then None else Some(ReadRequestPDU(Uint16(pdu[0..2]), Uint16(pdu[2..4])))
  }

  function DecodeWriteSingle(pdu: seq<byte>): Option<WriteSinglePDU> {
    if |pdu| != 4 then None else Some(WriteSinglePDU(Uint16(pdu[0..2]), Uint16(pdu[2..4])))
  }

  /** What `DecodeWriteMultiple` accepts and what it returns. */
  function WriteMultipleIn(pdu: seq<byte>): Option<WriteMultiplePDU> {
    if |pdu| < 5 || |pdu| - 5 != pdu[4] || pdu[4] % 2 != 0 then None
    else Some(WriteMultiplePDU(Uint16(pdu[0..2]), Uint16(pdu[2..4]), RegsIn(pdu[5..], pdu[4] / 2)))
  }

  method DecodeWriteMultiple(pdu: seq<byte>) returns (r: Option<WriteMultiplePDU>)
    ensures r == WriteMultipleIn(pdu)
  {
    if |pdu| < 5 { return None; }
    var addr, qty := Uint16(pdu[0..2]), Uint16(pdu[2..4]);
    var byteCount: int := pdu[4];
    if |pdu[5..]| != byteCount { return None; }
    if byteCount % 2 != 0 { return None; }
    var values: seq<u16> := [];
    var i := 0;
    while i < byteCount
      invariant 0 <= i <= byteCount && i % 2 == 0
      invariant values == RegsIn(pdu[5..], i / 2)
    {
      assert pdu[5..][i..i + 2] == pdu[5 + i..5 + i + 2];
      values := values + [Uint16(pdu[5 + i..5 + i + 2])];
      i := i + 2;
    }
    return Some(WriteMultiplePDU(addr, qty, values));
  }

  function DecodeWriteMultipleBits(pdu: seq<byte>): Option<WriteMultipleBitsPDU> {
    if |pdu| < 5 || |pdu| - 5 != pdu[4] then None
    else
      var qty := Uint16(pdu[2..4]);
      if pdu[4] as int != BytesForBits(qty) then None
      else Some(WriteMultipleBitsPDU(Uint16(pdu[0..2]), qty, pdu[5..]))
  }

  // Answers. The count field of a read answer is the low byte of the data length.

  function ReadResponse(fc: byte, data: seq<byte>): seq<byte> { [fc, |data| % 0x100] + data }

  function WriteResponse(fc: byte, addr: u16, x: u16): seq<byte> { [fc] + PutUint16(addr) + PutUint16(x) }

  function BuildExceptionPDU(fc: byte, code: byte): seq<byte> { [PutByteBit(fc, 7, true), code] }

  /** The exception form sets the top bit of the function code and keeps the others. */
  lemma ExceptionForm(fc: byte, code: byte)
    ensures BuildExceptionPDU(fc, code) == [if fc < 0x80 then fc + 0x80 else fc, code]
  {
    Pow2Eight();
    PutTopBit(fc, 7);
  }

  method BuildReadResponsePDU(fc: byte, data: array<byte>) returns (pdu: seq<byte>)
    ensures pdu == ReadResponse(fc, data[..])
  {
    var out := new byte[2 + data.Length];
    out[0] := fc;
    out[1] := data.Length % 0x100;
    forall i | 0 <= i < data.Length {
      out[2 + i] := data[i];
    }
    pdu := out[..];
  }

  method BuildWriteSingleResponsePDU(fc: byte, addr: u16, value: u16) returns (pdu: seq<byte>)
    ensures pdu == WriteResponse(fc, addr, value)
  {
    var out := new byte[5];
    out[0] := fc;
    out[1], out[2] := PutUint16(addr)[0], PutUint16(addr)[1];
    out[3], out[4] := PutUint16(value)[0], PutUint16(value)[1];
    pdu := out[..];
  }

  method BuildWriteMultipleResponsePDU(fc: byte, addr: u16, qty: u16) returns (pdu: seq<byte>)
    ensures pdu == WriteResponse(fc, addr, qty)
  {
    var out := new byte[5];
    out[0] := fc;
    out[1], out[2] := PutUint16(addr)[0], PutUint16(addr)[1];
    out[3], out[4] := PutUint16(qty)[0], PutUint16(qty)[1];
    pdu := out[..];
  }
}
