/** From a Modbus request to the memory it addresses and back to an answer. */
module Dispatching {
  import opened Words
  import opened Bits
  import opened Outcomes
  import opened Layouts
  import opened Images
  import opened MemoryCore
  import opened Stores
  import opened Pdus

  function Target(req: Request): MemoryID { MemoryID(req.port, req.unitID) }

  // The effect of each handler on the memories, and its answer.

  function ReadBitsAnswer(s: Contents, req: Request, area: byte): seq<byte> {
    var d := DecodeReadRequest(req.payload);
    if d.None? || d.value.quantity == 0 then BuildExceptionPDU(req.functionCode, ILLEGAL_DATA_VALUE)
    else if Target(req) !in s then BuildExceptionPDU(req.functionCode, ILLEGAL_DATA_ADDRESS)
    else
      var r := s[Target(req)].ReadBits(area, d.value.address, d.value.quantity,
                        Zeros(BytesForBits(d.value.quantity)));
      if r.Err? then BuildExceptionPDU(req.functionCode, ILLEGAL_DATA_ADDRESS)
      else ReadResponse(req.functionCode, r.value)
  }

  function ReadRegsAnswer(s: Contents, req: Request, area: byte): seq<byte> {
    var d := DecodeReadRequest(req.payload);
    if d.None? then BuildExceptionPDU(req.functionCode, ILLEGAL_DATA_VALUE)
    else if Target(req) !in s then BuildExceptionPDU(req.functionCode, ILLEGAL_DATA_ADDRESS)
    else
      var r := s[Target(req)].ReadRegs(area, d.value.address, d.value.quantity, Zeros(2 * d.value.quantity));
      if r.Err? then BuildExceptionPDU(req.functionCode, ILLEGAL_DATA_ADDRESS)
      else ReadResponse(req.functionCode, r.value)
  }

  /** The answer to a write, once the memory has been asked. */
  function Finish(s: Contents, req: Request, r: Result<Image, MemError>, addr: u16, x: u16): (Contents, seq<byte>) {
    if r.Err? then (s, BuildExceptionPDU(req.functionCode, ILLEGAL_DATA_ADDRESS))
    else (s[Target(req) := r.value], WriteResponse(req.functionCode, addr, x))
  }

  function WriteSingleCoil(s: Contents, req: Request): (Contents, seq<byte>) {
    var d := DecodeWriteSingle(req.payload);
    if d.None? || (d.value.value != 0xFF00 && d.value.value != 0) then
      (s, BuildExceptionPDU(req.functionCode, ILLEGAL_DATA_VALUE))
    else if Target(req) !in s then (s, BuildExceptionPDU(req.functionCode, ILLEGAL_DATA_ADDRESS))
    else
      var src := if d.value.value == 0xFF00 then 1 else 0;
      Finish(s, req, s[Target(req)].WriteBits(COILS, d.value.address, 1, [src]), d.value.address, d.value.value)
  }

  function WriteSingleReg(s: Contents, req: Request): (Contents, seq<byte>) {
    var d := DecodeWriteSingle(req.payload);
    if d.None? then (s, BuildExceptionPDU(req.functionCode, ILLEGAL_DATA_VALUE))
    else if Target(req) !in s then (s, BuildExceptionPDU(req.functionCode, ILLEGAL_DATA_ADDRESS))
    else
      Finish(s, req, s[Target(req)].WriteRegs(HOLDING_REGS, d.value.address, 1, PutUint16(d.value.value)),
             d.value.address, d.value.value)
  }

  function WriteMultipleCoils(s: Contents, req: Request): (Contents, seq<byte>) {
    var d := DecodeWriteMultipleBits(req.payload);
    if d.None? || d.value.quantity == 0 then (s, BuildExceptionPDU(req.functionCode, ILLEGAL_DATA_VALUE))
    else if Target(req) !in s then (s, BuildExceptionPDU(req.functionCode, ILLEGAL_DATA_ADDRESS))
    else
      Finish(s, req, s[Target(req)].WriteBits(COILS, d.value.address, d.value.quantity, d.value.data),
             d.value.address, d.value.quantity)
  }

  function WriteMultipleRegs(s: Contents, req: Request): (Contents, seq<byte>) {
    var d := WriteMultipleIn(req.payload);
    if d.None? || d.value.quantity == 0 || d.value.quantity != |d.value.values| then
      (s, BuildExceptionPDU(req.functionCode, ILLEGAL_DATA_VALUE))
    else if Target(req) !in s then (s, BuildExceptionPDU(req.functionCode, ILLEGAL_DATA_ADDRESS))
    else
      Finish(s, req,
             s[Target(req)].WriteRegs(HOLDING_REGS, d.value.address, d.value.quantity, RegBytes(d.value.values)),
             d.value.address, d.value.quantity)
  }

  function Dispatch(s: Contents, req: Request): (Contents, seq<byte>) {
    match req.functionCode
    case 1 => (s, ReadBitsAnswer(s, req, COILS))
    case 2 => (s, ReadBitsAnswer(s, req, DISCRETE_INPUTS))
    case 3 => (s, ReadRegsAnswer(s, req, HOLDING_REGS))
    case 4 => (s, ReadRegsAnswer(s, req, INPUT_REGS))
    case 5 => WriteSingleCoil(s, req)
    case 6 => WriteSingleReg(s, req)
    case 15 => WriteMultipleCoils(s, req)
    case 16 => WriteMultipleRegs(s, req)
    case _ => (s, BuildExceptionPDU(req.functionCode, ILLEGAL_FUNCTION))
  }

  // The handlers themselves.

  method ResolveMemory(store: Store, req: Request) returns (mem: Memory?)
    ensures mem == if Target(req) in store.data then store.data[Target(req)] else null
  {
    var r := store.MustGet(MemoryID(req.port, req.unitID));
    mem := if r.Err? then null else r.value;
  }

  method HandleReadBits(store: Store, req: Request, area: byte) returns (pdu: seq<byte>)
    requires store.Valid()
    ensures pdu == ReadBitsAnswer(store.contents, req, area)
  {
    var d := DecodeReadRequest(req.payload);
    if d.None? || d.value.quantity == 0 {
      return BuildExceptionPDU(req.functionCode, ILLEGAL_DATA_VALUE);
    }
    var mem := ResolveMemory(store, req);
    if mem == null { return BuildExceptionPDU(req.functionCode, ILLEGAL_DATA_ADDRESS); }
    var buf := new byte[BytesForBits(d.value.quantity)](_ => 0);
    assert buf[..] == Zeros(BytesForBits(d.value.quantity));
    var err := mem.ReadBits(area, d.value.address, d.value.quantity, buf);
    if err.Some? { return BuildExceptionPDU(req.functionCode, ILLEGAL_DATA_ADDRESS); }
    pdu := BuildReadResponsePDU(req.functionCode, buf);
  }

  method HandleReadRegs(store: Store, req: Request, area: byte) returns (pdu: seq<byte>)
    requires store.Valid()
    ensures pdu == ReadRegsAnswer(store.contents, req, area)
  {
    var d := DecodeReadRequest(req.payload);
    if d.None? { return BuildExceptionPDU(req.functionCode, ILLEGAL_DATA_VALUE); }
    var mem := ResolveMemory(store, req);
    if mem == null { return BuildExceptionPDU(req.functionCode, ILLEGAL_DATA_ADDRESS); }
    var buf := new byte[2 * d.value.quantity](_ => 0);
    assert buf[..] == Zeros(2 * d.value.quantity);
    var err := mem.ReadRegs(area, d.value.address, d.value.quantity, buf);
    if err.Some? { return BuildExceptionPDU(req.functionCode, ILLEGAL_DATA_ADDRESS); }
    pdu := BuildReadResponsePDU(req.functionCode, buf);
  }

  method HandleWriteSingleCoil(store: Store, req: Request) returns (pdu: seq<byte>)
    requires store.Valid()
    modifies store`contents, store.Repr
    ensures store.Valid()
    ensures (store.contents, pdu) == WriteSingleCoil(old(store.contents), req)
  {
    var d := DecodeWriteSingle(req.payload);
    if d.None? { return BuildExceptionPDU(req.functionCode, ILLEGAL_DATA_VALUE); }
    var src: byte;
    if d.value.value == 0xFF00 {
      src := 1;
    } else if d.value.value == 0 {
      src := 0;
    } else {
      return BuildExceptionPDU(req.functionCode, ILLEGAL_DATA_VALUE);
    }
    var mem := ResolveMemory(store, req);
    if mem == null { return BuildExceptionPDU(req.functionCode, ILLEGAL_DATA_ADDRESS); }
    var err := store.WriteBits(Target(req), COILS, d.value.address, 1, [src]);
    if err.Some? { return BuildExceptionPDU(req.functionCode, ILLEGAL_DATA_ADDRESS); }
    pdu := BuildWriteSingleResponsePDU(req.functionCode, d.value.address, d.value.value);
  }

  method HandleWriteMultipleCoils(store: Store, req: Request) returns (pdu: seq<byte>)
    requires store.Valid()
    modifies store`contents, store.Repr
    ensures store.Valid()
    ensures (store.contents, pdu) == WriteMultipleCoils(old(store.contents), req)
  {
    var d := DecodeWriteMultipleBits(req.payload);
    if d.None? || d.value.quantity == 0 {
      return BuildExceptionPDU(req.functionCode, ILLEGAL_DATA_VALUE);
    }
    var mem := ResolveMemory(store, req);
    if mem == null { return BuildExceptionPDU(req.functionCode, ILLEGAL_DATA_ADDRESS); }
    var err := store.WriteBits(Target(req), COILS, d.value.address, d.value.quantity, d.value.data);
    if err.Some? { return BuildExceptionPDU(req.functionCode, ILLEGAL_DATA_ADDRESS); }
    pdu := BuildWriteMultipleResponsePDU(req.functionCode, d.value.address, d.value.quantity);
  }

  method HandleWriteSingleReg(store: Store, req: Request) returns (pdu: seq<byte>)
    requires store.Valid()
    modifies store`contents, store.Repr
    ensures store.Valid()
    ensures (store.contents, pdu) == WriteSingleReg(old(store.contents), req)
  {
    var d := DecodeWriteSingle(req.payload);
    if d.None? { return BuildExceptionPDU(req.functionCode, ILLEGAL_DATA_VALUE); }
    var mem := ResolveMemory(store, req);
    if mem == null { return BuildExceptionPDU(req.functionCode, ILLEGAL_DATA_ADDRESS); }
    var err := store.WriteRegs(Target(req), HOLDING_REGS, d.value.address, 1, PutUint16(d.value.value));
    if err.Some? { return BuildExceptionPDU(req.functionCode, ILLEGAL_DATA_ADDRESS); }
    pdu := BuildWriteSingleResponsePDU(req.functionCode, d.value.address, d.value.value);
  }

  method HandleWriteMultipleRegs(store: Store, req: Request) returns (pdu: seq<byte>)
    requires store.Valid()
    modifies store`contents, store.Repr
    ensures store.Valid()
    ensures (store.contents, pdu) == WriteMultipleRegs(old(store.contents), req)
  {
    var d := DecodeWriteMultiple(req.payload);
    if d.None? || d.value.quantity == 0 || d.value.quantity != |d.value.values| {
      return BuildExceptionPDU(req.functionCode, ILLEGAL_DATA_VALUE);
    }
    var mem := ResolveMemory(store, req);
    if mem == null { return BuildExceptionPDU(req.functionCode, ILLEGAL_DATA_ADDRESS); }
    var src := EncodeRegs(d.value.values);
    var err := store.WriteRegs(Target(req), HOLDING_REGS, d.value.address, d.value.quantity, src);
    if err.Some? { return BuildExceptionPDU(req.functionCode, ILLEGAL_DATA_ADDRESS); }
    pdu := BuildWriteMultipleResponsePDU(req.functionCode, d.value.address, d.value.quantity);
  }

  /** The loop that re-encodes decoded register values. */
  method EncodeRegs(values: seq<u16>) returns (src: seq<byte>)
    ensures src == RegBytes(values)
  {
    var buf := new byte[2 * |values|];
    for i := 0 to |values|
      invariant forall k | 0 <= k < 2 * i :: buf[k] == RegBytes(values)[k]
    {
      buf[2 * i] := PutUint16(values[i])[0];
      buf[2 * i + 1] := PutUint16(values[i])[1];
    }
    src := buf[..];
  }

  method DispatchMemory(store: Store, req: Request) returns (pdu: seq<byte>)
    requires store.Valid()
    modifies store`contents, store.Repr
    ensures store.Valid()
    ensures (store.contents, pdu) == Dispatch(old(store.contents), req)
  {
    match req.functionCode
    case 1 => pdu := HandleReadBits(store, req, COILS);
    case 2 => pdu := HandleReadBits(store, req, DISCRETE_INPUTS);
    case 3 => pdu := HandleReadRegs(store, req, HOLDING_REGS);
    case 4 => pdu := HandleReadRegs(store, req, INPUT_REGS);
    case 5 => pdu := HandleWriteSingleCoil(store, req);
    case 6 => pdu := HandleWriteSingleReg(store, req);
    case 15 => pdu := HandleWriteMultipleCoils(store, req);
    case 16 => pdu := HandleWriteMultipleRegs(store, req);
    case _ => pdu := BuildExceptionPDU(req.functionCode, ILLEGAL_FUNCTION);
  }
}
