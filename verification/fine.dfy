/** Connections interleaved between single loop iterations, with one lock for each memory, and why it is
    enough to interleave them between whole accesses. */
module FineGates {
  import opened Words
  import opened Bits
  import opened Outcomes
  import opened Layouts
  import opened Images
  import opened PackedMemories
  import opened Stores
  import opened Pdus
  import opened Mbap
  import opened RawIngest
  import opened Dispatching
  import opened Answers
  import opened Authorities
  import opened Servers
  import opened Histories
  import L = Locking
  import G = Gates

  // Accesses as operations on one memory.

  /** The operation a request asks for, if its function code and payload are in order. */
  function OpFor(req: Request): Option<L.Op> {
    var r, w := DecodeReadRequest(req.payload), DecodeWriteSingle(req.payload);
    var bits, regs := DecodeWriteMultipleBits(req.payload), WriteMultipleIn(req.payload);
    match req.functionCode
    case 1 => ReadBitsOp(r, COILS)
    case 2 => ReadBitsOp(r, DISCRETE_INPUTS)
    case 3 => ReadRegsOp(r, HOLDING_REGS)
    case 4 => ReadRegsOp(r, INPUT_REGS)
    case 5 =>
      if w.None? || (w.value.value != 0xFF00 && w.value.value != 0) then None
      else Some(L.Op(L.BitWrite, COILS, w.value.address, 1, [if w.value.value == 0xFF00 then 1 else 0]))
    case 6 =>
      if w.None? then None else Some(L.Op(L.RegWrite, HOLDING_REGS, w.value.address, 1, PutUint16(w.value.value)))
    case 15 =>
      if bits.None? || bits.value.quantity == 0 then None
      else Some(L.Op(L.BitWrite, COILS, bits.value.address, bits.value.quantity, bits.value.data))
    case 16 =>
      if regs.None? || regs.value.quantity == 0 || regs.value.quantity != |regs.value.values| then None
      else Some(L.Op(L.RegWrite, HOLDING_REGS, regs.value.address, regs.value.quantity, RegBytes(regs.value.values)))
    case _ => None
  }

  function ReadBitsOp(d: Option<ReadRequestPDU>, area: byte): Option<L.Op> {
    if d.None? || d.value.quantity == 0 then None
    else Some(L.Op(L.BitRead, area, d.value.address, d.value.quantity, Zeros(BytesForBits(d.value.quantity))))
  }

  function ReadRegsOp(d: Option<ReadRequestPDU>, area: byte): Option<L.Op> {
    if d.None? then None
    else Some(L.Op(L.RegRead, area, d.value.address, d.value.quantity, Zeros(2 * d.value.quantity)))
  }

  /** The answer to a request, given what its operation returned, if it was carried out. */
  function PduFor(req: Request, outcome: Option<L.Outcome>): seq<byte> {
    if !Supported(req.functionCode) then BuildExceptionPDU(req.functionCode, ILLEGAL_FUNCTION)
    else if OpFor(req).None? then BuildExceptionPDU(req.functionCode, ILLEGAL_DATA_VALUE)
    else
      match outcome
      case Some(Data(bytes)) => ReadResponse(req.functionCode, bytes)
      case Some(Done) => WriteResponse(req.functionCode, Uint16(req.payload[0..2]), Uint16(req.payload[2..4]))
      case _ => BuildExceptionPDU(req.functionCode, ILLEGAL_DATA_ADDRESS)
  }

  /** A dispatch is its operation on the addressed memory. */
  lemma DispatchByOp(s: Contents, req: Request)
    ensures Dispatch(s, req) ==
            if OpFor(req).None? || Target(req) !in s then (s, PduFor(req, None))
            else
              var (after, outcome) := L.Atomic(s[Target(req)], OpFor(req).value);
              (s[Target(req) := after], PduFor(req, Some(outcome)))
  {
    hide Image.ReadBits, Image.WriteBits, Image.ReadRegs, Image.WriteRegs, Uint16, PutUint16, RegBytes, RegsIn,
      BytesForBits, BuildExceptionPDU, ReadResponse, WriteResponse;
    if Target(req) in s {
      assert s[Target(req) := s[Target(req)]] == s;
    }
  }

  /** The operation of a packet. */
  function PacketOp(p: Packet): Option<L.Op> {
    if IsBitArea(p.area) then Some(L.Op(L.BitWrite, p.area, p.address, p.count, p.payload))
    else if IsRegArea(p.area) then Some(L.Op(L.RegWrite, p.area, p.address, p.count, p.payload))
    else None
  }

  function StatusFor(outcome: Option<L.Outcome>): byte { if outcome == Some(L.Done) then RESP_OK else RESP_REJECTED }

  lemma IngestByOp(s: Contents, p: Packet)
    ensures Ingest(s, p) ==
            if PacketOp(p).None? || Destination(p) !in s then (s, StatusFor(None))
            else
              var (after, outcome) := L.Atomic(s[Destination(p)], PacketOp(p).value);
              (s[Destination(p) := after], StatusFor(Some(outcome)))
  {
    hide Image.WriteBits, Image.WriteRegs;
    if Destination(p) in s {
      assert s[Destination(p) := s[Destination(p)]] == s;
    }
  }

  /** Reading the sealing flag. */
  function SealOp(def: StateSealingDef): L.Op { L.Op(L.BitRead, def.area, def.address, 1, [0]) }

  /** The memory counts as sealed if the read fails, or if it gives 0. */
  predicate SealedFor(outcome: Option<L.Outcome>) {
    match outcome
    case None => false
    case Some(Data(bytes)) => |bytes| == 0 || !TestBit(bytes[0], 0)
    case Some(_) => true
  }

  lemma SealByOp(s: Contents, mid: MemoryID)
    ensures Sealed(s, mid) <==>
              SealedFor(if mid !in s || s[mid].stateSealing.None? then None
                        else Some(L.Atomic(s[mid], SealOp(s[mid].stateSealing.value)).1))
    ensures mid in s && s[mid].stateSealing.Some? ==> L.Atomic(s[mid], SealOp(s[mid].stateSealing.value)).0 == s[mid]
  {
  }

  // The machine.

  /** Each memory with its lock, and the connections; goroutine `c` of a lock is connection `c`. */
  datatype Fine = Fine(
    locks: map<MemoryID, L.State>,
    peers: map<int, G.Peer>,
    log: seq<Access>,
    stamps: seq<G.Stamp>,
    replies: seq<G.Reply>,
    statuses: seq<(int, byte)>)

  /** The machine of whole accesses that has finished what this one has finished. */
  function Abs(f: Fine): G.Machine {
    G.Machine(map mid | mid in f.locks :: View(f.locks[mid].base), f.peers, f.log, f.stamps, f.replies, f.statuses)
  }

  /** The connections without the memories. */
  function Control(f: Fine): G.Machine { G.Machine(map[], f.peers, f.log, f.stamps, f.replies, f.statuses) }

  function Adopt(f: Fine, m: G.Machine): Fine { Fine(f.locks, m.peers, m.log, m.stamps, m.replies, m.statuses) }

  /** The memory a connection needs for its next step, and the operation it wants. */
  function Wanted(f: Fine, peer: G.Peer): Option<(MemoryID, L.Op)> {
    match peer
    case Checking(_, _, _, req, _) =>
      var mid := Target(req);
      if mid in f.locks && f.locks[mid].base.stateSealing.Some? then
        Some((mid, SealOp(f.locks[mid].base.stateSealing.value)))
      else None
    case Pending(_, _, _, req, _, _) =>
      if Target(req) in f.locks && OpFor(req).Some? then Some((Target(req), OpFor(req).value)) else None
    case Writing(_, _, pkt, _) =>
      if Destination(pkt) in f.locks && PacketOp(pkt).Some? then Some((Destination(pkt), PacketOp(pkt).value)) else None
    case _ => None
  }

  /** How connection `c` goes on once its operation, if it needed one, has returned. */
  function Resume(f: Fine, auth: Auth, c: int, ok: bool, outcome: Option<L.Outcome>): Fine
    requires c in f.peers
  {
    var m := Control(f);
    match f.peers[c]
    case Checking(_, _, _, _, _) => Adopt(f, G.Become(m, c, G.Checked(m, c, f.peers[c], SealedFor(outcome))))
    case Pending(port, src, input, req, read, checked) =>
      var reply := G.Served(c, req, src, PduFor(req, outcome), read, checked, |f.log|);
      f.(log := f.log + [Dispatched(req)],
         stamps := f.stamps + [G.Stamp(c, read, checked)],
         peers := f.peers[c := G.Answering(port, src, input, reply)])
    case Writing(port, input, pkt, read) =>
      f.(log := f.log + [Ingested(pkt)],
         stamps := f.stamps + [G.Stamp(c, read, read)],
         peers := f.peers[c := G.Reporting(port, input, StatusFor(outcome), false)])
    case _ => Adopt(f, G.Step(m, auth, c, ok))
  }

  /** The step of a goroutine on the lock it works on. */
  function Worked(st: L.State, c: int, op: L.Op): L.State
    requires c in st.threads
  {
    L.Step(st, if st.threads[c].Idle? then L.Call(c, op) else L.Move(c))
  }

  function Put(f: Fine, mid: MemoryID, st: L.State): Fine { f.(locks := f.locks[mid := st]) }

  /** The next step of connection `c`: a step of its operation on the memory it needs, which may be its
      last, or a step that needs no memory. */
  function FineStep(f: Fine, auth: Auth, c: int, ok: bool): Fine {
    if c !in f.peers then f
    else
      match Wanted(f, f.peers[c])
      case None => Resume(f, auth, c, ok, None)
      case Some((mid, op)) =>
        var st := f.locks[mid];
        if c !in st.threads then f
        else
          var st' := Worked(st, c, op);
          var g := Put(f, mid, st');
          if |st'.history| > |st.history| then
            Resume(g, auth, c, ok, Some(st'.history[|st'.history| - 1].outcome))
          else g
  }

  function FineExec(f: Fine, auth: Auth, schedule: seq<(int, bool)>): Fine {
    if schedule == [] then f
    else
      var (c, ok) := schedule[|schedule| - 1];
      FineStep(FineExec(f, auth, schedule[..|schedule| - 1]), auth, c, ok)
  }

  predicate FineInitial(f: Fine) {
    && G.Initial(Abs(f))
    && forall mid | mid in f.locks :: L.Initial(f.locks[mid]) && f.locks[mid].threads.Keys == f.peers.Keys
  }

  /** A memory keeps its own invariant, and its sealing definition. */
  predicate LockOk(st0: L.State, st: L.State) {
    L.Inv(View(st0.base), st) && st.base.stateSealing == st0.base.stateSealing && st.threads.Keys == st0.threads.Keys
  }

  /** Whoever is at work on a memory is there with the operation its connection wants. */
  predicate AtWork(f: Fine, mid: MemoryID, c: int)
    requires mid in f.locks && c in f.locks[mid].threads
  {
    var th := f.locks[mid].threads[c];
    !th.Idle? ==> c in f.peers && Wanted(f, f.peers[c]) == Some((mid, th.op))
  }

  /** All memories are in order, with a goroutine for each connection. */
  predicate LocksOk(f0: Fine, f: Fine) {
    && f.locks.Keys == f0.locks.Keys && f.peers.Keys == f0.peers.Keys
    && forall mid | mid in f.locks ::
         LockOk(f0.locks[mid], f.locks[mid]) && f.locks[mid].threads.Keys == f.peers.Keys
  }

  predicate Working(f: Fine, c: int) {
    forall mid | mid in f.locks && c in f.locks[mid].threads :: AtWork(f, mid, c)
  }

  predicate Resting(f: Fine, c: int) {
    forall mid | mid in f.locks && c in f.locks[mid].threads :: f.locks[mid].threads[c].Idle?
  }

  predicate FineInv(f0: Fine, f: Fine) {
    LocksOk(f0, f) && forall c | c in f.peers :: Working(f, c)
  }

  // One step of one lock.

  lemma AtomicFrame(m: Image, op: L.Op)
    ensures L.Atomic(m, op).0.stateSealing == m.stateSealing
  {
    hide Overwrite;
  }

  /** A step that finishes an operation finishes it with the atomic operation's outcome and effect; any
      other step leaves what has been finished as it was. */
  lemma LockStep(m: Image, st: L.State, a: L.Action)
    requires L.Inv(m, st)
    ensures var st' := L.Step(st, a);
            && L.Inv(m, st') && st'.base.stateSealing == st.base.stateSealing
            && if |st'.history| > |st.history| then
                 var e := st'.history[|st'.history| - 1];
                 L.Atomic(View(st.base), e.op) == (View(st'.base), e.outcome)
               else View(st'.base) == View(st.base)
  {
    L.StepKeepsInv(m, st, a);
    L.EntersWhenItEnds(st, a);
    hide L.Step, L.Atomic, View;
    var st' := L.Step(st, a);
    Sealing(st.base);
    Sealing(st'.base);
    hide L.LockInv, L.ThreadInv, Allocated;
    if |st'.history| > |st.history| {
      var n := |st.history|;
      assert st'.history[..n] == st.history;
      AtomicFrame(View(st.base), st'.history[n].op);
    } else {
      assert st'.history == st.history;
    }
  }

  lemma Sealing(p: Packed)
    ensures View(p).stateSealing == p.stateSealing
  {
  }

  /** What a step does to the goroutines. */
  lemma ThreadStep(st: L.State, a: L.Action)
    requires a.t in st.threads && (a.Call? <==> st.threads[a.t].Idle?)
    ensures var st', op := L.Step(st, a), if a.Call? then a.op else st.threads[a.t].op;
            && st'.threads.Keys == st.threads.Keys
            && (forall u | u in st.threads && u != a.t :: st'.threads[u] == st.threads[u])
            && if |st'.history| > |st.history| then
                 st'.threads[a.t].Idle? && st'.history[|st'.history| - 1].op == op
               else !st'.threads[a.t].Idle? && st'.threads[a.t].op == op
  {
    hide L.CopyOne, L.StoreOne, L.More, L.Check;
  }

  // One step of the machine.

  /** The same memories with the same sealing definitions. */
  predicate SameSeals(f: Fine, g: Fine) {
    f.locks.Keys == g.locks.Keys && forall mid | mid in f.locks :: f.locks[mid].base.stateSealing == g.locks[mid].base.stateSealing
  }

  lemma WantedSame(f: Fine, g: Fine, peer: G.Peer)
    requires SameSeals(f, g)
    ensures Wanted(f, peer) == Wanted(g, peer)
  {
  }

  /** The operation wanted by `c` has been carried out on its memory, or none was wanted. */
  predicate CarriedOut(f: Fine, g: Fine, c: int, outcome: Option<L.Outcome>)
    requires c in f.peers
  {
    && g == f.(locks := g.locks) && SameSeals(f, g)
    && match Wanted(f, f.peers[c])
       case None => outcome == None && Abs(g).store == Abs(f).store
       case Some((mid, op)) =>
         mid in f.locks && outcome.Some? &&
         var (after, out) := L.Atomic(View(f.locks[mid].base), op);
         outcome == Some(out) && Abs(g).store == Abs(f).store[mid := after]
  }

  lemma CheckMatches(f: Fine, g: Fine, auth: Auth, c: int, ok: bool, outcome: Option<L.Outcome>)
    requires c in f.peers && f.peers[c].Checking? && CarriedOut(f, g, c, outcome)
    ensures Abs(Resume(g, auth, c, ok, outcome)) == G.Step(Abs(f), auth, c, ok)
  {
    hide View, L.Atomic, ParseRequest, ParsePacket, Dispatch, Ingest, Judge, OpFor, PacketOp, PduFor, StatusFor, SealedFor, Sealed, SealOp;
    var s, req := Abs(f).store, f.peers[c].req;
    SealByOp(s, Target(req));
    SealsSeen(f, Target(req));
  }

  lemma DispatchMatches(f: Fine, g: Fine, auth: Auth, c: int, ok: bool, outcome: Option<L.Outcome>)
    requires c in f.peers && f.peers[c].Pending? && CarriedOut(f, g, c, outcome)
    ensures Abs(Resume(g, auth, c, ok, outcome)) == G.Step(Abs(f), auth, c, ok)
  {
    hide View, L.Atomic, ParseRequest, ParsePacket, Dispatch, Ingest, Judge, OpFor, PacketOp, PduFor, StatusFor, SealedFor, Sealed;
    var s, req := Abs(f).store, f.peers[c].req;
    DispatchByOp(s, req);
    SealsSeen(f, Target(req));
  }

  lemma IngestMatches(f: Fine, g: Fine, auth: Auth, c: int, ok: bool, outcome: Option<L.Outcome>)
    requires c in f.peers && f.peers[c].Writing? && CarriedOut(f, g, c, outcome)
    ensures Abs(Resume(g, auth, c, ok, outcome)) == G.Step(Abs(f), auth, c, ok)
  {
    hide View, L.Atomic, ParseRequest, ParsePacket, Dispatch, Ingest, Judge, OpFor, PacketOp, PduFor, StatusFor, SealedFor, Sealed;
    var s, pkt := Abs(f).store, f.peers[c].pkt;
    IngestByOp(s, pkt);
    SealsSeen(f, Destination(pkt));
  }

  /** Steps that do not look at the memories. */
  lemma LocalMatches(f: Fine, g: Fine, auth: Auth, c: int, ok: bool)
    requires c in f.peers && g == f.(locks := g.locks) && Abs(g).store == Abs(f).store
    requires !f.peers[c].Checking? && !f.peers[c].Pending? && !f.peers[c].Writing?
    ensures Abs(Resume(g, auth, c, ok, None)) == G.Step(Abs(f), auth, c, ok)
  {
    hide View;
    G.StepWithoutStore(Abs(f), auth, c, ok, map[]);
  }

  /** A connection that has what it needs goes on as in the machine of whole accesses. */
  lemma ResumeMatches(f: Fine, g: Fine, auth: Auth, c: int, ok: bool, outcome: Option<L.Outcome>)
    requires c in f.peers && CarriedOut(f, g, c, outcome)
    ensures Abs(Resume(g, auth, c, ok, outcome)) == G.Step(Abs(f), auth, c, ok)
  {
    match f.peers[c]
    case Checking(_, _, _, _, _) => CheckMatches(f, g, auth, c, ok, outcome);
    case Pending(_, _, _, _, _, _) => DispatchMatches(f, g, auth, c, ok, outcome);
    case Writing(_, _, _, _) => IngestMatches(f, g, auth, c, ok, outcome);
    case _ => LocalMatches(f, g, auth, c, ok);
  }

  lemma SealsSeen(f: Fine, mid: MemoryID)
    ensures mid in Abs(f).store <==> mid in f.locks
    ensures mid in f.locks ==>
              Abs(f).store[mid] == View(f.locks[mid].base) &&
              Abs(f).store[mid].stateSealing == f.locks[mid].base.stateSealing
  {
  }

  /** Only the connection `c` itself is different. */
  predicate Framed(f: Fine, g: Fine, c: int) {
    g.locks == f.locks && g.peers.Keys == f.peers.Keys && forall d | d in f.peers && d != c :: g.peers[d] == f.peers[d]
  }

  lemma ResumeFrame(f: Fine, auth: Auth, c: int, ok: bool, outcome: Option<L.Outcome>)
    requires c in f.peers
    ensures Framed(f, Resume(f, auth, c, ok, outcome), c)
  {
    hide G.Step, PduFor, StatusFor, SealedFor, G.Checked;
    G.StepFrame(Control(f), auth, c, ok);
  }

  lemma WorkingKept(f: Fine, g: Fine, c: int, d: int)
    requires Framed(f, g, c) && d in f.peers && d != c && Working(f, d)
    ensures Working(g, d)
  {
    WantedSame(f, g, f.peers[d]);
    hide Wanted;
    forall mid | mid in g.locks && d in g.locks[mid].threads
      ensures AtWork(g, mid, d)
    {
      assert AtWork(f, mid, d);
    }
  }

  lemma LocksFramed(f0: Fine, f: Fine, g: Fine, c: int)
    requires LocksOk(f0, f) && Framed(f, g, c)
    ensures LocksOk(f0, g)
    ensures c in f.peers && Resting(f, c) ==> Working(g, c)
  {
    hide LockOk, Wanted;
  }

  /** Going on, once nobody works for `c` any more. */
  lemma ResumeKeepsInv(f0: Fine, f: Fine, auth: Auth, c: int, ok: bool, outcome: Option<L.Outcome>)
    requires c in f.peers && LocksOk(f0, f) && Resting(f, c)
    requires forall d | d in f.peers && d != c :: Working(f, d)
    ensures FineInv(f0, Resume(f, auth, c, ok, outcome))
  {
    hide Resume, LocksOk, Working, Resting;
    var g := Resume(f, auth, c, ok, outcome);
    ResumeFrame(f, auth, c, ok, outcome);
    LocksFramed(f0, f, g, c);
    forall d | d in g.peers && d != c
      ensures Working(g, d)
    {
      WorkingKept(f, g, c, d);
    }
  }

  /** A step of the operation that `c` has under way, on its lock. */
  lemma WorkOnLock(st0: L.State, st: L.State, c: int, op: L.Op)
    requires LockOk(st0, st) && c in st.threads && (!st.threads[c].Idle? ==> st.threads[c].op == op)
    ensures var st' := Worked(st, c, op);
            && LockOk(st0, st') && st'.base.stateSealing == st.base.stateSealing
            && st'.threads.Keys == st.threads.Keys
            && (forall d | d in st.threads && d != c :: st'.threads[d] == st.threads[d])
            && if |st'.history| > |st.history| then
                 && L.Atomic(View(st.base), op) == (View(st'.base), st'.history[|st'.history| - 1].outcome)
                 && st'.threads[c].Idle?
               else
                 && View(st'.base) == View(st.base)
                 && !st'.threads[c].Idle? && st'.threads[c].op == op
  {
    hide L.Step, L.Inv, L.Atomic, View;
    var a := if st.threads[c].Idle? then L.Call(c, op) else L.Move(c);
    LockStep(View(st0.base), st, a);
    ThreadStep(st, a);
  }

  /** Another connection is not affected by it. */
  lemma WorkingStill(f: Fine, mid: MemoryID, st: L.State, d: int)
    requires mid in f.locks && d in f.peers && Working(f, d) && SameSeals(f, Put(f, mid, st))
    requires d in f.locks[mid].threads && d in st.threads && st.threads[d] == f.locks[mid].threads[d]
    ensures Working(Put(f, mid, st), d)
  {
    var g := Put(f, mid, st);
    WantedSame(f, g, f.peers[d]);
    hide Wanted;
    forall m | m in g.locks && d in g.locks[m].threads
      ensures AtWork(g, m, d)
    {
      assert AtWork(f, m, d);
    }
  }

  /** The connection itself is at work there, or nowhere. */
  lemma WorkingHere(f: Fine, c: int, mid: MemoryID, op: L.Op, st: L.State)
    requires c in f.peers && Working(f, c) && Wanted(f, f.peers[c]) == Some((mid, op)) && mid in f.locks
    requires SameSeals(f, Put(f, mid, st)) && c in st.threads
    ensures st.threads[c].Idle? ==> Resting(Put(f, mid, st), c)
    ensures !st.threads[c].Idle? && st.threads[c].op == op ==> Working(Put(f, mid, st), c)
  {
    var g := Put(f, mid, st);
    WantedSame(f, g, f.peers[c]);
    hide Wanted;
    forall m | m in g.locks && c in g.locks[m].threads && m != mid
      ensures g.locks[m].threads[c].Idle?
    {
      assert AtWork(f, m, c);
    }
  }

  lemma LocksStillOk(f0: Fine, f: Fine, mid: MemoryID, st: L.State)
    requires LocksOk(f0, f) && mid in f.locks && LockOk(f0.locks[mid], st)
    requires st.base.stateSealing == f.locks[mid].base.stateSealing && st.threads.Keys == f.locks[mid].threads.Keys
    ensures LocksOk(f0, Put(f, mid, st)) && SameSeals(f, Put(f, mid, st))
  {
    hide LockOk;
  }

  lemma Place(f0: Fine, f: Fine, mid: MemoryID)
    requires LocksOk(f0, f) && mid in f.locks
    ensures mid in f0.locks && LockOk(f0.locks[mid], f.locks[mid]) && f.locks[mid].threads.Keys == f.peers.Keys
  {
    hide LockOk;
  }

  lemma HereWith(f: Fine, c: int, mid: MemoryID, op: L.Op)
    requires c in f.peers && Working(f, c) && Wanted(f, f.peers[c]) == Some((mid, op))
    requires mid in f.locks && c in f.locks[mid].threads
    ensures !f.locks[mid].threads[c].Idle? ==> f.locks[mid].threads[c].op == op
  {
    hide Wanted;
    assert AtWork(f, mid, c);
  }

  /** A step of the operation that `c` has under way. */
  lemma WorkKeepsInv(f0: Fine, f: Fine, c: int, mid: MemoryID, op: L.Op)
    requires FineInv(f0, f) && c in f.peers && Wanted(f, f.peers[c]) == Some((mid, op)) && mid in f.locks
    requires c in f.locks[mid].threads
    ensures var st := f.locks[mid];
            var st' := Worked(st, c, op);
            var g := Put(f, mid, st');
            && SameSeals(f, g) && LocksOk(f0, g)
            && (forall d | d in g.peers && d != c :: Working(g, d))
            && if |st'.history| > |st.history| then
                 L.Atomic(View(st.base), op) == (View(st'.base), st'.history[|st'.history| - 1].outcome) && Resting(g, c)
               else FineInv(f0, g) && View(st'.base) == View(st.base)
  {
    hide Worked, LockOk, L.Atomic, View, Wanted, SameSeals, Resting, Working, LocksOk;
    var st := f.locks[mid];
    var st' := Worked(st, c, op);
    Place(f0, f, mid);
    HereWith(f, c, mid, op);
    WorkOnLock(f0.locks[mid], st, c, op);
    LocksStillOk(f0, f, mid, st');
    WorkingHere(f, c, mid, op, st');
    forall d | d in f.peers && d != c
      ensures Working(Put(f, mid, st'), d)
    {
      WorkingStill(f, mid, st', d);
    }
  }

  lemma StoreAfter(f: Fine, mid: MemoryID, st: L.State)
    requires mid in f.locks
    ensures Abs(Put(f, mid, st)).store == Abs(f).store[mid := View(st.base)]
    ensures View(st.base) == View(f.locks[mid].base) ==> Abs(Put(f, mid, st)) == Abs(f)
  {
    hide View;
    assert Abs(Put(f, mid, st)).store == Abs(f).store[mid := View(st.base)];
  }

  /** The next step of `c` is one that needs no memory, or the last one of its operation. */
  predicate Finishes(f: Fine, c: int) {
    c in f.peers &&
    match Wanted(f, f.peers[c])
    case None => true
    case Some((mid, op)) =>
      c in f.locks[mid].threads && |Worked(f.locks[mid], c, op).history| > |f.locks[mid].history|
  }

  /** A step between loop iterations is a step of the machine of whole accesses, or changes nothing
      there. */
  lemma StepMatches(f0: Fine, f: Fine, auth: Auth, c: int, ok: bool)
    requires FineInv(f0, f)
    ensures var g := FineStep(f, auth, c, ok);
            FineInv(f0, g) && Abs(g) == if Finishes(f, c) then G.Step(Abs(f), auth, c, ok) else Abs(f)
  {
    hide View, L.Atomic, G.Step, Wanted, Resume, Working, Resting, LocksOk, Abs, SameSeals, Worked, Put;
    if c in f.peers {
      assert Working(f, c);
      match Wanted(f, f.peers[c])
      case None =>
        NobodyWorks(f, c);
        ResumeMatches(f, f, auth, c, ok, None);
        ResumeKeepsInv(f0, f, auth, c, ok, None);
      case Some((mid, op)) =>
        WantedThere(f0, f, c);
        var st := f.locks[mid];
        var st' := Worked(st, c, op);
        var g := Put(f, mid, st');
        WorkKeepsInv(f0, f, c, mid, op);
        StoreAfter(f, mid, st');
        PutFrame(f, mid, st');
        if |st'.history| > |st.history| {
          var out := Some(st'.history[|st'.history| - 1].outcome);
          ResumeMatches(f, g, auth, c, ok, out);
          ResumeKeepsInv(f0, g, auth, c, ok, out);
        }
    }
  }

  lemma PutFrame(f: Fine, mid: MemoryID, st: L.State)
    ensures Put(f, mid, st) == f.(locks := Put(f, mid, st).locks)
  {
  }

  lemma WantedThere(f0: Fine, f: Fine, c: int)
    requires LocksOk(f0, f) && c in f.peers
    ensures match Wanted(f, f.peers[c])
            case Some((mid, op)) => mid in f.locks && c in f.locks[mid].threads
            case None => true
  {
    hide OpFor, PacketOp, LockOk;
  }

  lemma NobodyWorks(f: Fine, c: int)
    requires c in f.peers && Working(f, c) && Wanted(f, f.peers[c]) == None
    ensures Resting(f, c) && SameSeals(f, f)
  {
    hide Wanted;
    forall mid | mid in f.locks && c in f.locks[mid].threads
      ensures f.locks[mid].threads[c].Idle?
    {
      assert AtWork(f, mid, c);
    }
  }

  lemma FineStart(f: Fine)
    requires FineInitial(f)
    ensures FineInv(f, f)
  {
    hide Wanted;
    forall mid | mid in f.locks
      ensures LockOk(f.locks[mid], f.locks[mid])
    {
      L.Linearizable(f.locks[mid], []);
    }
  }

  /** Every interleaving of connections at the granularity of single loop iterations ends like some
      interleaving at the granularity of whole accesses, with the same log, replies and status bytes. So
      whatever holds in all of those holds here, and a memory that no writer is in holds what they say. */
  lemma {:induction false} Refines(f: Fine, auth: Auth, schedule: seq<(int, bool)>) returns (coarse: seq<(int, bool)>)
    requires FineInitial(f)
    ensures var now := FineExec(f, auth, schedule);
            && FineInv(f, now) && Abs(now) == G.Exec(Abs(f), auth, coarse)
            && forall mid | mid in now.locks && !now.locks[mid].writer ::
                 View(now.locks[mid].mem) == Abs(now).store[mid]
    decreases |schedule|
  {
    hide View, FineStep, G.Step, Allocated, L.LockInv, L.ThreadInv, L.Legal, L.After;
    if schedule == [] {
      FineStart(f);
      coarse := [];
    } else {
      var before := schedule[..|schedule| - 1];
      var (c, ok) := schedule[|schedule| - 1];
      coarse := Refines(f, auth, before);
      StepMatches(f, FineExec(f, auth, before), auth, c, ok);
      if Abs(FineExec(f, auth, schedule)) != Abs(FineExec(f, auth, before)) {
        assert (coarse + [(c, ok)])[..|coarse|] == coarse;
        coarse := coarse + [(c, ok)];
      }
    }
  }

  /** For one: between loop iterations, too, Modbus never unseals. */
  lemma FineNeverUnseals(f: Fine, auth: Auth, schedule: seq<(int, bool)>, mid: MemoryID)
    requires FineInitial(f) && mid in Abs(f).store && FreshMemory(Abs(f).store[mid])
    requires Abs(f).store[mid].stateSealing.Some?
    ensures var now := FineExec(f, auth, schedule);
            !G.IngestOpened(Abs(f).store, now.log, mid) ==>
              && (forall c | c in now.peers :: G.PastCheck(now.peers[c]) != Some(mid))
              && forall reply | reply in now.replies && Target(reply.req) == mid ::
                   reply.Pdu() == BuildExceptionPDU(reply.req.functionCode, DEVICE_BUSY)
  {
    hide FineExec, FineInv, FreshMemory, G.Exec, G.IngestOpened, View;
    var coarse := Refines(f, auth, schedule);
    if !G.IngestOpened(Abs(f).store, FineExec(f, auth, schedule).log, mid) {
      G.ModbusNeverUnseals(Abs(f), auth, coarse, mid);
    }
  }
}
