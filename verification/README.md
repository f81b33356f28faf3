# MMA2: an in-memory Modbus TCP appliance

MMA2 keeps a store of packed memories, one for each pair of TCP port and unit id. A memory has up to
four areas: coils and discrete inputs (bits, packed least significant bit first), holding registers and
input registers (16 bits). Two protocols work on the store. Modbus TCP reads and writes it behind a gate
made of a sealing flag and access rules; raw ingest writes it without any gate. This project models the
store, both protocols, the gate, the step from configuration to running store, and the interleaving of
connections, and proves what a user of the appliance relies on.

## How it is laid out

| files | what they hold |
|---|---|
| `words.dfy`, `bits.dfy` | 16-bit wrap-around, masks on bytes, the two packed-bit loops |
| `layout.dfy`, `image.dfy` | bounds arithmetic; a memory as four maps from address to value, the specification of everything below |
| `packed.dfy`, `memory.dfy`, `store.dfy` | the packed value, the `Memory` class over arrays, the `Store` class over memories; refinement of the four maps |
| `pdu.dfy`, `mbap.dfy`, `rawingest.dfy`, `conn.dfy` | both wire formats, with their encoders and round trips |
| `dispatch.dfy`, `answers.dfy`, `singles.dfy` | the eight function codes, what each request is answered, multiple writes against single writes |
| `authority.dfy` | address lists, rules, policies, the sealing table |
| `server.dfy`, `history.dfy` | the two connection handlers, whole conversations, whole histories of accesses |
| `wire.dfy` | both protocols byte by byte, in the numbers on the wire |
| `gate.dfy`, `order.dfy`, `reopen.dfy`, `solo.dfy` | any number of connections interleaved, with a program counter each; answers in order; how a request can open a sealed memory; one connection on its own |
| `locking.dfy` | the four memory operations interleaved between single loop iterations, under the reader-writer lock |
| `fine.dfy`, `fineruns.dfy` | connections interleaved at that granularity over many memories; they have exactly the runs of `gate.dfy` |
| `align.dfy` | the second payload unpacker |
| `config.dfy`, `builders.dfy`, `built.dfy` | validation, the two builders, and what a validated configuration becomes |

The reasoning has three layers. The classes `Memory`, `Store`, `Conn`, `Sealing` and `Authority` change
their fields and arrays as the program does, and each method is proved to do what a function on values
says. Those functions (`Image.WriteBits`, `Dispatch`, `Serve`, `Ingest`, `Judge`, `BuildAll` and others)
follow the branches of the source. The lemmas then relate them to descriptions that do not mention how
they work: verdicts, last writers, round trips, sequential histories. `wire.dfy` states the outcome of both
protocols once more on literal bytes, with the numbers that the source and the standards give.

A process runs as a list of steps. `Gates.Machine` holds the store and one program counter per
connection; a schedule picks who moves next and whether its write to the peer succeeds. A Modbus request
takes the seal check, the policy and the dispatch as separate steps, so that other connections run in
between. Each access in the log is stamped with its connection and the moments at which its bytes were
read and its seal was checked, and every claim about the gate names the moment of the request's own check.

Each access to the store is one step there. That this is enough is `FineGates.Refines`: a second machine
gives every memory its reader-writer lock and splits each access into check, lock acquisition, single
element copies and release, and every run of it has the log and answers of a run of the first.
`FineRuns.Realizes` is the converse. Both rest on
`Locking`, where the four operations of one memory are proved linearizable at that granularity.

## Conventions

- 16-bit arithmetic wraps where the source computes in `uint16`. `BytesForBits` therefore collapses for
  65529..65535 bits. Bit areas of more than 65528 elements are accepted by the program but have no backing
  bytes: reads deliver zeros, writes change nothing, and both report success. They are modelled, not
  excluded: the specification functions say so, and theorems about contents carry `Packable` (at most
  65528 elements) where they need it. The threshold is proved to be exact.
- The byte count of a read answer is the data length modulo 256, so it is exact up to 2040 bits or 127
  registers only. The quantity limits of the MODBUS Application Protocol Specification V1.1b3 (sections
  6.1 to 6.4, 6.11 and 6.12) are not enforced by the program, and not assumed here.
- A connection is the bytes the peer will have sent, the writes made so far, and how many more writes
  will succeed. The listening port and the source address are parameters.
- A configuration starts as a value. What parsing makes of an address-list entry or of a listen address
  is part of that value; only prefix containment is defined here.

## Where the program and its documents differ

The model follows the program.

- `docs/01_STATE_SEALING.md` makes opening a one-way step and says that writing 0 has no effect. The
  handler reads the flag anew for every request, so writing 0 seals the memory again, from either
  transport. `Histories.OpeningIsNotOneWay` gives two packets that open and seal a memory;
  `Histories.SealsAgainExactly` says which accesses seal an open memory and which open a sealed one.
- The same document says that Modbus can never trigger the unlock. That holds until raw ingest has opened
  the memory once (`Gates.ModbusNeverUnseals`). After that a request that was checked while the memory was
  open can be dispatched after the memory was sealed again, and open it: `Reopenings.ModbusCanReopen` is
  such a run, `Reopenings.ModbusOpensExactly` the exact condition.
- The same document puts the flag in the discrete inputs and has an `enable` key. The program has neither:
  the flag is a coil, and presence of the section is what counts.
- A read of 0 coils or discrete inputs is answered with Illegal Data Value, a read of 0 registers with
  Illegal Data Address. Section 6 of the MODBUS Application Protocol Specification asks for the former in
  both cases. `Answers.WellShaped` keeps the difference.
- Validation accepts an address-list entry if it parses as a prefix or as an address; the matcher decides
  by the presence of a slash which of the two it must be. An IPv6 address whose zone contains a slash
  passes validation and stops start-up. Rules without an id do the same. `Built.ValidatedPolicies` gives
  the exact condition, `Built.BadRulesNotBuilt` the two configurations.
- Validation still accepts the legacy memory map and unit id 0; the builder accepts neither.
  `Built.ValidatedBuilds` gives the exact condition, `Built.UnitZeroNotBuilt` and `Built.LegacyNotBuilt` the
  configurations.

## Model

| member | source | states |
|---|---|---|
| Words.PutBitTest | internal/memorycore/bits.go:32-36 | writing one bit of a byte sets that bit and leaves every other bit as it was |
| Words.MaskPut | internal/memorycore/bits.go:58-62 | or-ing with a one-bit mask, and clearing with it, on 8-bit vectors, are exactly setting and clearing that bit |
| Words.Uint16Bits | internal/memorycore/memory.go:242-243 | reading a word: its bits 8 to 15 are those of the first byte, its bits 0 to 7 those of the second |
| Words.PutUint16Bits | internal/memorycore/memory.go:196-197 | writing a word: the same for the two bytes put down |
| Bits.BytesForBitsExact | internal/memorycore/bits.go:6-11 | the computed byte count holds all bits exactly up to 65528 and is 0 for 65529..65535 |
| Bits.StopsAtMoved | internal/memorycore/bits.go:28-30 | the early return of the loops is taken in no iteration before all possible bits have moved; until then the 16-bit index does not wrap |
| Bits.PutBitsAt | internal/memorycore/bits.go:44-64 | after laying bits over a buffer, each bit inside the range is the given one and each outside, including pad bits and neighbours in the same byte, is unchanged |
| Bits.OnExactly | internal/memorycore/bits.go:22-32 | the mask test of the source is the test of one bit |
| Bits.CopiedOn | internal/memorycore/bits.go:17-38 | what the copy loop leaves, mask by mask |
| Bits.LandedOn | internal/memorycore/bits.go:44-64 | what the write loop leaves, mask by mask |
| Bits.CopyBits | internal/memorycore/bits.go:17-38 | the copy loop leaves exactly the requested bits at the front of the destination, bit k being mask 1 << (k % 8) of byte k / 8, and every other bit of it as it was |
| Bits.WriteBits | internal/memorycore/bits.go:44-64 | the write loop lays exactly the requested bits over the buffer, from any bit offset, in terms of the same masks, and changes no other bit |
| Layouts.AreaLayout.ContainsExact | internal/memorycore/layout.go:20-36 | a range is accepted if and only if it is not empty and each address in it belongs to the area; then offset and offset plus index do not wrap |
| Layouts.AreaLayout.ValidateExact | internal/memorycore/layout.go:9-18 | a layout is accepted exactly when it has an address and all its addresses are below 65536 |
| PackedMemories.AllMoved | internal/memorycore/bits.go:17-64 | for every accepted range in an area of at most 65528 bits the loops move all bits; in a larger area they move none |
| PackedMemories.WriteRefines | internal/memorycore/memory.go:115-156 | a packed write is a pointwise overwrite of the address-to-value map, for any start and any straddling of bytes |
| PackedMemories.ReadRefines | internal/memorycore/memory.go:72-113 | a packed read delivers the elements of the map at the requested addresses |
| PackedMemories.WriteRegsRefines | internal/memorycore/memory.go:204-248 | storing into the register slice is a pointwise overwrite of the map |
| PackedMemories.ReadRegsRefines | internal/memorycore/memory.go:158-202 | the slice of registers read is the elements of the map at the requested addresses |
| MemoryCore.FreshIsBlank | internal/memorycore/memory.go:34-70 | zeroed slices stand for the memory in which exactly the declared addresses exist and hold zero |
| MemoryCore.Memory.NewMemory | internal/memorycore/memory.go:34-70 | fails exactly when a layout is refused, with the first refused area's error; otherwise a blank memory in new cells |
| MemoryCore.Memory.SetStateSealing | internal/memorycore/state_sealing.go:15-22 | changes the sealing definition and no value |
| MemoryCore.Memory.ReadBits | internal/memorycore/memory.go:72-113 | in-place read: error in the source's order and untouched buffer, or the buffer with exactly the requested bits; the memory is unchanged |
| MemoryCore.Memory.WriteBits | internal/memorycore/memory.go:115-156 | in-place write: error and unchanged memory, or the four maps with exactly the addressed bits overwritten |
| MemoryCore.Memory.ReadRegs | internal/memorycore/memory.go:158-202 | as above for registers, big-endian |
| MemoryCore.Memory.WriteRegs | internal/memorycore/memory.go:204-248 | as above for registers, big-endian |
| MemoryCore.CopyRegs | internal/memorycore/memory.go:194-199 | the register read loop writes the big-endian bytes of the requested slice and leaves the rest of the buffer |
| MemoryCore.FillRegs | internal/memorycore/memory.go:240-245 | the register write loop stores exactly the decoded registers at their offsets |
| Stores.Store.Add | internal/memorycore/store.go:17-33 | succeeds exactly for a port and a unit id that are not 0 and a memory that is there; then it is registered under the id and no other entry changes; disjoint memories stay disjoint |
| Stores.Store.MustGet | internal/memorycore/store.go:35-51 | the memory registered under the id, or the unknown-id error |
| Stores.StillValid | internal/memorycore/store.go:6-9 | a change to the cells of one memory changes the value of no other memory of the store |
| Pdus.DecodeWriteMultiple | internal/transport/modbus/pdu_decode.go:34-61 | the appending loop yields the registers in the data, and rejects exactly the malformed payloads |
| Answers.CoilsPayload | internal/transport/modbus/pdu_decode.go:66-95 | an FC15 payload is accepted exactly when byte count, quantity and length fit together and the quantity is not 0 |
| Answers.RegsPayload | internal/transport/modbus/pdu_decode.go:34-61 | an FC16 payload is accepted exactly when byte count, quantity, value count and length fit together |
| Answers.RegsPassThrough | internal/transport/modbus/dispatch_memorycore.go:196-200 | registers decoded from FC16 encode back to the very data bytes of the request |
| Pdus.ExceptionForm | internal/transport/modbus/pdu_encode.go:34-36 | an exception is two bytes, the function code with its top bit set and the code |
| Mbap.ReadRequest | internal/transport/modbus/parser.go:12-46 | reading in place consumes exactly one frame, or fails with the error of the first thing wrong |
| Mbap.BuildResponse | internal/transport/modbus/response.go:7-21 | filling the buffer field by field yields the header with length PDU + 1 (wrapping) and the PDU |
| Mbap.RequestRoundTrip | internal/transport/modbus/parser.go:12-46 | a request framed as in section 3.1.3 of the MODBUS Messaging Implementation Guide V1.0b is read back, leaving exactly what follows |
| Mbap.ReadIsEncoding | internal/transport/modbus/parser.go:12-46 | conversely, whatever is read was a well-framed request followed by exactly what is left |
| Mbap.ParseRequestConsumes | internal/transport/modbus/parser.go:12-46 | each request read shortens the input by at least its frame; an empty input is an orderly end |
| Mbap.FrameRoundTrip | internal/transport/modbus/response.go:7-21 | re-reading a response frame recovers its ids and PDU if and only if the PDU has 1..65534 bytes |
| RawIngest.DecodeOne | internal/transport/rawingest/decoder.go:28-64 | reading in place consumes exactly one packet, or fails with the error of the first thing wrong |
| RawIngest.PacketRoundTrip | internal/transport/rawingest/decoder.go:14-64 | decoding undoes encoding and stops at the packet's end, if and only if a bit packet has at most 65528 elements |
| RawIngest.DecodedIsEncoding | internal/transport/rawingest/decoder.go:28-64 | conversely, whatever is decoded was the encoding of that packet, with the announced payload, followed by exactly what is left |
| RawIngest.ParsePacketConsumes | internal/transport/rawingest/decoder.go:28-64 | each packet read shortens the input by its header and payload |
| RawIngest.StreamRoundTrip | internal/transport/rawingest/decoder.go:28-64 | any list of packets is decoded from the concatenation of its encodings, with no byte left |
| RawIngest.PrefixFree | internal/transport/rawingest/decoder.go:14-64 | no encoding is a proper prefix of another |
| Dispatching.HandleReadBits | internal/transport/modbus/dispatch_memorycore.go:63-83 | the handler on the heap changes nothing and returns what the value-level answer is |
| Dispatching.HandleReadRegs | internal/transport/modbus/dispatch_memorycore.go:138-158 | as above for registers |
| Dispatching.HandleWriteSingleCoil | internal/transport/modbus/dispatch_memorycore.go:85-115 | memories and answer afterwards are those of the value-level write; all other memories keep their values |
| Dispatching.HandleWriteMultipleCoils | internal/transport/modbus/dispatch_memorycore.go:117-136 | as above |
| Dispatching.HandleWriteSingleReg | internal/transport/modbus/dispatch_memorycore.go:160-182 | as above |
| Dispatching.HandleWriteMultipleRegs | internal/transport/modbus/dispatch_memorycore.go:184-208 | as above |
| Dispatching.DispatchMemory | internal/transport/modbus/dispatch_memorycore.go:20-42 | the whole dispatch on the heap, for every function code, is `Dispatch`, which `Answers.ExactOutcome` and the rows of `Wire` fix in bytes |
| Answers.ExactOutcome | internal/transport/modbus/dispatch_memorycore.go:20-208 | every request is answered: by the function code with its top bit set and 0x01 for an unknown code, 0x03 for a bad payload, 0x02 for what is not there, in this order of precedence and with the store unchanged, or by a normal answer |
| Answers.RefusedUnchanged | internal/transport/modbus/dispatch_memorycore.go:20-208 | an answer is an exception exactly when the request is refused, and then nothing has changed |
| Answers.ReadBitsExact | internal/transport/modbus/dispatch_memorycore.go:63-83 | bit i of an FC1/FC2 answer is the element at address + i, pad bits are zero, the byte count is exact up to 2040 bits (sections 6.1 and 6.2 of the MODBUS Application Protocol Specification V1.1b3) |
| Answers.ReadRegsExact | internal/transport/modbus/dispatch_memorycore.go:138-158 | word i of an FC3/FC4 answer is the register at address + i (sections 6.3 and 6.4) |
| Answers.WriteEchoed | internal/transport/modbus/pdu_encode.go:16-31 | FC5/FC6 answers are the request, FC15/FC16 answers its first five bytes (sections 6.5, 6.6, 6.11, 6.12) |
| Answers.CoilWrite | internal/transport/modbus/dispatch_memorycore.go:85-136 | a successful FC5/FC15 overwrites exactly the addressed coils of one memory with the payload's bits |
| Answers.HoldingWrite | internal/transport/modbus/dispatch_memorycore.go:160-208 | a successful FC6/FC16 overwrites exactly the addressed holding registers of one memory with the payload's words |
| Singles.MultipleIsSingles | internal/transport/modbus/dispatch_memorycore.go:85-208 | a successful FC15 or FC16 leaves the store that its FC5 or FC6 requests leave, in any order and with repetitions |
| Authorities.MaskedContains | internal/authority/ipmatch.go:25-32 | masking the host bits changes no prefix membership |
| Authorities.ContainsExact | internal/authority/ipmatch.go:53-55 | a prefix contains an address exactly when the families are the same, the address has no zone and the first `bits` of 32 or 128 bits agree |
| Authorities.BareContains | internal/authority/ipmatch.go:39-43 | a bare address contains itself and nothing else |
| Authorities.ZeroContains | internal/authority/ipmatch.go:25-32 | /0 contains its whole family |
| Authorities.NamesExactly | internal/authority/ipmatch.go:16-59 | what an entry names, with and without a slash, in terms of address bits |
| Authorities.NewIPMatcher | internal/authority/ipmatch.go:16-47 | fails exactly when some entry does not parse the way its slash asks for; otherwise the prefixes in order |
| Authorities.Match | internal/authority/ipmatch.go:49-59 | true exactly when some prefix contains the address, that is, shares its family and its first bits |
| Authorities.ListMatches | internal/authority/ipmatch.go:16-59 | a list matches a source exactly when one of its entries names it |
| Authorities.ListOrderIrrelevant | internal/authority/ipmatch.go:16-59 | order and repetition inside a list are irrelevant |
| Authorities.NewRule | internal/authority/rules.go:19-39 | fails exactly for an empty id or a bad list; the rule allows a function code exactly when it is listed |
| Authorities.FirstMatchWins | internal/authority/authority.go:57-94 | the earliest rule containing the source decides; without one the request is denied with 0x01 |
| Authorities.OnlyFirstMatchCounts | internal/authority/authority.go:76-93 | adding or removing rules that do not match, or anything after the match, changes no decision |
| Authorities.Authority.Evaluate | internal/authority/authority.go:61-94 | the scan returns 0x06 for an id marked sealed; otherwise it allows exactly if the memory has a policy whose first rule reaching the source lists the code, and denies with 0x01 in all other cases |
| Authorities.JudgeExactly | internal/authority/authority.go:57-94 | the same for the decision as a function; a memory without a policy is always denied with 0x01 |
| Authorities.Authority.SetMemoryPolicy | internal/authority/authority.go:49-55 | replaces the policy of one memory and no other |
| Authorities.Sealing.Ensure | internal/authority/sealing.go:24-34 | the table keeps answering with the last operation on each id |
| Authorities.Sealing.IsSealed | internal/authority/sealing.go:36-45 | sealed exactly when the last operation on the id sealed it |
| Servers.CheckSeal | internal/transport/modbus/handle_conn.go:61-79 | busy exactly when the memory is there and has a flag, and the bit the flag points at is not there or not 1; never without a flag |
| Servers.SealedPlainly | internal/transport/modbus/handle_conn.go:61-79 | the same for any store, in terms of the flag's area number, its address and the maps |
| Servers.Unflagged | internal/transport/modbus/handle_conn.go:61-100 | a request to a memory without a flag, or to no memory, is answered as policy and dispatch say, never with 0x06 |
| Servers.SealedExact | internal/transport/modbus/handle_conn.go:61-79 | with its flag among the coils a memory is busy exactly when the flag coil is 0 |
| Servers.HandleRequest | internal/transport/modbus/handle_conn.go:52-100 | seal check, policy and dispatch in this order, on the heap, give `Answer`, which `Servers.FullOutcome` fixes in bytes |
| Servers.HandleModbus | internal/transport/modbus/handle_conn.go:43-110 | the whole loop: memories and frames afterwards are those of `Serve`, for any input and any point at which writes begin to fail |
| Servers.FullOutcome | internal/transport/modbus/handle_conn.go:61-108 | the answer is the exception 0x06, 0x01, 0x03 or 0x02, or normal, in this order of precedence, by flag bit, permission, payload and range; every exception leaves the store unchanged |
| Servers.Pipelined | internal/transport/modbus/handle_conn.go:43-110 | k requests sent back to back get exactly k frames in order, each with the ids of its request and its answer |
| Servers.PipelinedThen | internal/transport/modbus/handle_conn.go:43-110 | the same with anything following, and with what is then left of the writes |
| Servers.Unwritten | internal/transport/modbus/handle_conn.go:61-109 | when writes fail: requests turned away at the gate are passed over, the first other one is still dispatched and ends the connection |
| Servers.IngestPacket | internal/transport/rawingest/handle_conn.go:36-58 | on the heap, memories and status byte afterwards are those of `Ingest`, which `Servers.IngestExact` characterises |
| Servers.IngestExact | internal/transport/rawingest/handle_conn.go:36-58 | status byte 0 if and only if the memory exists, has the area, contains the addressed range and the payload carries it; then exactly these elements are overwritten (none in a bit area of more than 65528), otherwise status byte 1 and nothing changes |
| Servers.DecodedAccepted | internal/transport/rawingest/handle_conn.go:36-58 | for a packet off the wire the payload always suffices: memory, area and range alone decide |
| Servers.HandleRaw | internal/transport/rawingest/handle_conn.go:26-59 | the whole loop: memories and status bytes afterwards are those of `ServeRaw`, for any input |
| Servers.OneStatusEach | internal/transport/rawingest/handle_conn.go:12-59 | a stream of packets gets one byte 0 or 1 each, in order, and nothing more |
| Histories.EffectConfined | internal/transport/modbus/dispatch_memorycore.go:20-54 | one access changes at most the memory it names; FC5/FC15 only coils, FC6/FC16 only holding registers, other codes nothing |
| Histories.Isolation | internal/memorycore/store.go:17-51 | over any history a memory that is not addressed keeps its contents, and Modbus never changes discrete inputs or input registers |
| Histories.BitHistory | internal/memorycore/memory.go:72-156 | after any history a bit is what the last successful write covering it carried, else what it was at first |
| Histories.RegHistory | internal/memorycore/memory.go:158-248 | the same for registers, whatever the size of the area |
| Histories.SucceedsExactly | internal/transport/rawingest/handle_conn.go:36-58 | an access is answered with success if and only if it is acceptable: verdict 0 for a request, range and area in order for a packet |
| Histories.AcceptableEver | internal/memorycore/layout.go:20-32 | no history changes what is acceptable |
| Histories.BitsEndToEnd | internal/transport/modbus/dispatch_memorycore.go:63-83 | each bit of a successful FC1/FC2 answer is the one in the bytes of the last successful write covering it, from either transport, or zero |
| Histories.RegsEndToEnd | internal/transport/modbus/dispatch_memorycore.go:138-158 | the same for each register of a successful FC3/FC4 answer |
| Histories.SealHistory | internal/transport/modbus/handle_conn.go:57-79 | a memory with a flag is sealed exactly unless the last successful write covering the flag wrote 1 |
| Histories.SealsAgainExactly | internal/transport/modbus/handle_conn.go:61-79 | an open memory is sealed again exactly by an acceptable access that carries 0 to its flag, and a sealed one opened exactly by an acceptable access that carries 1 to a flag that can be packed; acceptable is decided by payload, area and range in the layouts, before the access |
| Histories.OpeningIsNotOneWay | docs/01_STATE_SEALING.md:121-134 | the documented one-way rule does not hold: two packets open a memory and seal it again |
| Gates.StepKeepsInv | internal/transport/modbus/handle_conn.go:43-110 | every step of every connection keeps: the store is the replay of the access log; each logged request was read, then checked with its memory open, then dispatched; each reply names its own moments and is justified at them |
| Gates.Reachable | internal/transport/modbus/handle_conn.go:43-110 | the invariant holds in every interleaving |
| Gates.ModbusNeverUnseals | internal/transport/modbus/handle_conn.go:61-79 | until raw ingest has written 1 to a memory's flag, in every interleaving no connection is past the check for it (judging, waiting to dispatch or sending a served answer), every answer about it is Device Busy, and it holds what ingest alone wrote |
| Gates.ServedFromLog | internal/transport/modbus/handle_conn.go:61-105 | a served answer is the dispatch of its own request on the store at its place in the log; its memory was open at its own check, its source was allowed, and read, check and dispatch came in this order |
| Gates.EveryAccessGated | internal/transport/modbus/handle_conn.go:43-110 | the same gate for every access in the log, answered or not; a connection reads a request only after its previous one took effect |
| Gates.NoAnswerTwice | internal/transport/modbus/handle_conn.go:97-109 | no two replies report the same dispatch, not even to equal requests |
| Gates.BusyExactly | internal/transport/modbus/handle_conn.go:61-79 | an answer is Device Busy if and only if, at the request's own check, the last successful write covering the flag had not written 1; a served request found it written at its own check |
| Gates.ServedBits | internal/transport/modbus/handle_conn.go:97-105 | the end-to-end statement for FC1/FC2 in every interleaving |
| Gates.ServedRegs | internal/transport/modbus/handle_conn.go:97-105 | the end-to-end statement for FC3/FC4 in every interleaving |
| Orders.InOrder | internal/transport/modbus/handle_conn.go:43-110 | in every interleaving with a connection's writes succeeding, its answers are to the requests in its bytes, in order, one each; what is not answered is still to come |
| Orders.AskedAll | internal/transport/modbus/parser.go:12-46 | for a stream of well-framed requests these are the requests sent |
| Reopenings.SealedBetween | internal/transport/modbus/handle_conn.go:61-79 | a memory open at one moment and sealed at a later one had 0 written to its flag in between |
| Reopenings.ModbusOpensExactly | internal/transport/modbus/handle_conn.go:61-100 | in every interleaving, a request dispatched to a sealed memory opens it if and only if it is acceptable and carries 1 to a flag that can be packed; its check had then found the memory open, and the flag was cleared between check and dispatch |
| Reopenings.ModbusCanReopen | docs/01_STATE_SEALING.md:103-117 | the documented rule that Modbus never unlocks does not hold: a schedule in which a request opens a sealed memory, for any source that may write the flag |
| Solos.ModbusAlone | internal/transport/modbus/handle_conn.go:43-110 | the steps of the machine, taken by one Modbus connection alone, do what the proved handler loop does: same memories, same frames, closed at the end |
| Solos.RawAlone | internal/transport/rawingest/handle_conn.go:26-59 | the same for a raw-ingest connection: same memories, same status bytes, closed at the end |
| Wire.RequestBytes | internal/transport/modbus/parser.go:12-46 | which byte is which: ids, length, unit, function code and payload of a request, and exactly which byte strings are one |
| Wire.FrameBytes | internal/transport/modbus/response.go:7-21 | the seven header bytes of an answer |
| Wire.AnswerBytes | internal/transport/modbus/handle_conn.go:43-110 | the answer to request bytes echoes bytes 0 to 3 and 6, with the length of the PDU in between |
| Wire.BrokenBytes | internal/transport/modbus/handle_conn.go:44-50 | any other bytes end the connection without an answer |
| Wire.VerdictBytes | internal/transport/modbus/dispatch_memorycore.go:20-208 | the verdict in terms of payload bytes and table bounds |
| Wire.ErrorBytes | internal/transport/modbus/dispatch_memorycore.go:20-208 | the two bytes of every exception, and that nothing has changed |
| Wire.BitReadBytes | internal/transport/modbus/dispatch_memorycore.go:63-83 | FC1 reads coils and FC2 discrete inputs: each bit of the data bytes is the element at its address, the rest is 0 |
| Wire.RegReadBytes | internal/transport/modbus/dispatch_memorycore.go:138-158 | FC3 reads holding registers and FC4 input registers, in big-endian words |
| Wire.CoilWriteBytes | internal/transport/modbus/dispatch_memorycore.go:85-136 | FC5 and FC15 lay the bits in their bytes over the coils, and change nothing else |
| Wire.RegWriteBytes | internal/transport/modbus/dispatch_memorycore.go:160-208 | FC6 and FC16 lay the words in their bytes over the holding registers, and change nothing else |
| Wire.WriteAnswerBytes | internal/transport/modbus/pdu_encode.go:16-31 | a write is answered by the first five bytes of its PDU |
| Wire.PacketBytes | internal/transport/rawingest/decoder.go:14-64 | which bytes are a packet: `R`, `I`, 1, area 1 to 4, unit, address and count in big-endian words, payload |
| Wire.RawBytes | internal/transport/rawingest/handle_conn.go:26-59 | each whole packet gets one byte; a refused header, or bytes that break off, get one byte 1 and end the connection; a clean end gets none |
| Wire.IngestBytes | internal/transport/rawingest/handle_conn.go:36-58 | status 0 and the payload laid over coils, discrete inputs, holding or input registers for area 1, 2, 3 or 4, if the memory has that range; otherwise status 1 and nothing |
| Locking.MoreExact | internal/memorycore/bits.go:18-30 | an operation's loop stops after exactly the iterations predicted, and no index wraps before |
| Locking.CopiedAtomic | internal/memorycore/memory.go:108-110 | a finished read loop has copied what the atomic read returns |
| Locking.StoredBitsAtomic | internal/memorycore/memory.go:151-153 | a finished bit write loop has stored what the atomic write stores |
| Locking.StoredRegsAtomic | internal/memorycore/memory.go:240-245 | a finished register write loop has stored what the atomic write stores |
| Locking.StepKeepsInv | internal/memorycore/memory.go:108-110 | one lock acquisition, one element copy or one release by any goroutine keeps: lock counts right, readers see the last finished write, one writer at most |
| Locking.Linearizable | internal/memorycore/memory.go:72-248 | in every interleaving all finished operations return what they return when run one at a time in the order of their finishing |
| Locking.EntersWhenItEnds | internal/memorycore/memory.go:108-110 | an operation enters that order at its own last step, so the order respects real time |
| FineGates.DispatchByOp | internal/transport/modbus/dispatch_memorycore.go:20-208 | every dispatch is at most one operation on the addressed memory, and its answer is a function of what that returned |
| FineGates.IngestByOp | internal/transport/rawingest/handle_conn.go:36-58 | the same for a packet |
| FineGates.SealByOp | internal/transport/modbus/handle_conn.go:61-79 | the seal check is at most one operation, and its outcome decides; without a flag there is none and the memory is open, as `Servers.SealedPlainly` says |
| FineGates.StepMatches | internal/memorycore/memory.go:108-110 | with a lock for each memory and any number of connections inside their loops, each step is a step of the machine of whole accesses or invisible to it |
| FineGates.Refines | internal/memorycore/memory.go:72-248 | every interleaving between single loop iterations has the log, replies and status bytes of some interleaving between whole accesses, and every memory without a writer inside holds what that one says |
| FineGates.FineNeverUnseals | internal/transport/modbus/handle_conn.go:61-79 | between loop iterations, too, Modbus never unseals |
| FineRuns.LockProgress | internal/memorycore/memory.go:108-110 | a goroutine that is alone at a memory finishes with its next step or comes nearer to its end: a free lock is taken and every loop ends |
| FineRuns.Completes | internal/memorycore/memory.go:72-248 | a connection scheduled alone completes its next whole access, as the machine of whole accesses does |
| FineRuns.Realizes | internal/memorycore/memory.go:72-248 | the converse of `FineGates.Refines`: every interleaving between whole accesses is reached by one between loop iterations |
| Alignment.AlignBits | internal/transport/raw/align_bits.go:10-26 | rejects exactly when the payload has too few bits; otherwise its first bits, least significant first |
| Alignment.AlignRegs | internal/transport/raw/align_regs.go:11-22 | rejects exactly a payload of the wrong size; otherwise its big-endian words |
| Alignment.SizedPayloadAccepted | internal/transport/raw/sizing.go:10-23 | on a payload of the demanded size the bit unpacker accepts exactly up to 65528 elements and the register unpacker always |
| Alignment.BitUnpackersAgree | internal/transport/raw/align_bits.go:10-26 | writing the unpacked bits one by one leaves the memory that the packed write leaves |
| Alignment.RegUnpackersAgree | internal/transport/raw/align_regs.go:11-22 | the same for registers |
| Configs.ValidatePolicy | internal/config/validate.go:245-274 | accepts exactly when every address entry parses one way or the other and no function code is 0 |
| Configs.ValidateIngress | internal/config/validate.go:38-67 | accepts exactly when listener ids are present and distinct, listen addresses present, and ports readable where memories are nested |
| Configs.ValidateLegacy | internal/config/validate.go:81-95 | accepts exactly acceptable legacy definitions of distinct identity, in whatever order the map is gone through |
| Configs.ValidateNested | internal/config/validate.go:97-127 | accepts exactly acceptable nested definitions whose identities are distinct from each other and from the legacy ones |
| Configs.Validate | internal/config/validate.go:16-32 | accepts exactly the well-formed configurations |
| Configs.AreaExact | internal/config/validate.go:192-207 | an area is accepted exactly when all its addresses are below 65536 |
| Configs.StateSealingExact | internal/config/validate.go:212-239 | a flag is accepted exactly when its area is `coil` and its address is one of the coils |
| Configs.DefExact | internal/config/validate.go:132-190 | what is asked of a definition, in plain numbers |
| Configs.PortExact | internal/config/build_authority_policies.go:113-133 | a port is accepted exactly from 1 to 65535 |
| Builders.BuildMemory | internal/config/build_memory_store.go:83-150 | fails exactly for a refused layout or flag; otherwise the blank memory with the declared areas and flag |
| Builders.BuildOneMemory | internal/config/build_memory_store.go:76-168 | registers that memory in new cells, or reports failure |
| Builders.BuildMemoryStore | internal/config/build_memory_store.go:19-69 | fails exactly when `StoreBuilt` does; otherwise the memories of the store are exactly those, pairwise disjoint |
| Builders.BuildPolicyFromDef | internal/config/build_authority_policies.go:93-111 | fails exactly when a rule cannot be built; otherwise one rule for each, in order |
| Builders.BuildLegacyPolicies | internal/config/build_authority_policies.go:28-48 | the outcome does not depend on the order in which the map is gone through |
| Builders.BuildAuthorityPolicies | internal/config/build_authority_policies.go:18-91 | returns the legacy policies with the nested ones added, or nothing on any duplicate, unreadable port or rule that cannot be built |
| Built.BuildAllExact | internal/config/build_memory_store.go:36-68 | building succeeds exactly when each declaration can be built; with distinct identities there is one memory for each and none is overwritten |
| Built.BlankDeclared | internal/config/build_memory_store.go:83-150 | the memory built has exactly the configured addresses in each area, all zero, and the configured flag |
| Built.ValidatedBuilds | internal/config/validate.go:78-130 | a validated configuration builds if and only if it has no legacy memory and no unit id 0; the store then holds exactly the declared memories |
| Built.EachBuilt | internal/config/build_memory_store.go:36-68 | each memory of each listener is in the store under that listener's port and its own unit id, as it was declared |
| Built.SealReadable | internal/transport/modbus/handle_conn.go:64-69 | on a store so built the flag read never fails, after any history |
| Built.BuiltStaysShut | internal/config/build_memory_store.go:121-150 | on a store so built, in every interleaving, a memory declared with a flag answers only Device Busy until raw ingest writes 1 to that flag |
| Built.AddPoliciesExact | internal/config/build_authority_policies.go:53-88 | nested policies are added exactly when each declared one can be built; exactly the declaring identities get one, with the declared rules, and what was there stays |
| Built.ValidRuleBuildable | internal/config/validate.go:248-271 | a validated rule is refused by the builder exactly when its id is empty or an entry with a slash is no prefix |
| Built.SlashedZone | internal/config/validate.go:276-284 | such an entry passes validation: an address with a slash in its zone |
| Built.ValidatedPolicies | internal/config/build_authority_policies.go:18-91 | the exact condition under which what the builder returns for a validated configuration, legacy and nested, is a set of policies, and which: the declared rules for exactly the declaring identities |
| Built.PoliciesForMemories | internal/config/build_authority_policies.go:53-88 | when a store is built, every policy is for one of its memories |
| Built.ConfiguredPermits | internal/config/build_authority_policies.go:93-111 | a built policy permits exactly what the configured rules allow, in the order in which they are written |
| Built.ConfiguredDecision | internal/authority/authority.go:57-94 | from configuration to decision: a request is allowed if and only if the first rule of that memory with an entry naming the source lists the function code; otherwise, and without a policy, it is denied with 0x01 |
| Built.ZeroNeverAllowed | internal/config/validate.go:266-271 | no validated rule lets function code 0 through |
| Built.UnitZeroNotBuilt | internal/config/validate.go:153-174 | a valid configuration with unit id 0 that is not built |
| Built.LegacyNotBuilt | internal/config/build_memory_store.go:24-29 | a valid configuration with a legacy memory that is not built |
| Built.BadRulesNotBuilt | internal/authority/rules.go:19-27 | valid configurations, with a rule without an id and with a slash in a zone, whose policies are not built |

## Left out

- Nil receivers, nil stores and nil configurations: the handlers are given real ones.
- Accepting connections, protocol detection on the first bytes, logging, timeouts and start-up order: plumbing around the handlers; a connection has its protocol from the start.
- YAML, `netip` and `SplitHostPort` parsing: entries and listen addresses come with what parsing makes of them, and `Built.WellRead` lists what is assumed of it.
- Error texts: errors are an enumeration, and validation and building report only whether they succeed.
- The runtime's lock: in `Locking` and `FineGates` it is a writer flag and a reader count. The class methods run without interleaving. A goroutine that is left alone always finishes; fairness among several is not covered.
- Locks of `Store`, `Authority` and `Sealing`: their tables do not change while connections are served, so that `Gates` takes each look-up as one step.
- Memory-model effects below a lock (torn or reordered word accesses): every access to a slice is under the lock.
- Truncated raw-ingest packets have no theorem of their own: `Servers.HandleRaw` follows the source, which sends no status byte when the stream ends exactly between a header and its payload.
- `internal/transport/modbus/mbap.go` and `internal/transport/modbus/pdu.go`: not used by the handler.
- The loop, header, reader, adapter and resolver of `internal/transport/raw`: not part of the running program; only its unpackers and its size rule are modelled.
- `tools`, `internal/domain`: a sender and empty files.
