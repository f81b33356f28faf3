/** The four memory operations of any number of goroutines, interleaved between single loop iterations
    under the reader-writer lock of one memory. */
module Locking {
  import opened Words
  import opened Bits
  import opened Outcomes
  import opened Layouts
  import opened Images
  import opened PackedMemories

  datatype Kind = BitRead | BitWrite | RegRead | RegWrite

  /** A call; `buf` is the destination of a read or the source of a write. */
  datatype Op = Op(kind: Kind, area: byte, address: u16, count: u16, buf: seq<byte>) {
    predicate Reads() { kind.BitRead? || kind.RegRead? }
    predicate OnBits() { kind.BitRead? || kind.BitWrite? }
  }

  datatype Outcome = Failed(error: MemError) | Done | Data(bytes: seq<byte>)

  // The operations as single steps on the four maps.

  function ReadOutcome(r: Result<seq<byte>, MemError>): Outcome { if r.Err? then Failed(r.error) else Data(r.value) }

  function WriteOutcome(m: Image, r: Result<Image, MemError>): (Image, Outcome) {
    if r.Err? then (m, Failed(r.error)) else (r.value, Done)
  }

  function Atomic(m: Image, op: Op): (Image, Outcome) {
    match op.kind
    case BitRead => (m, ReadOutcome(m.ReadBits(op.area, op.address, op.count, op.buf)))
    case RegRead => (m, ReadOutcome(m.ReadRegs(op.area, op.address, op.count, op.buf)))
    case BitWrite => WriteOutcome(m, m.WriteBits(op.area, op.address, op.count, op.buf))
    case RegWrite => WriteOutcome(m, m.WriteRegs(op.area, op.address, op.count, op.buf))
  }

  // The operations as loops.

  /** What is checked before the lock is taken. */
  function Check(l: MemoryLayouts, op: Op): Option<MemError> {
    var small := if op.Reads() then DstTooSmall else SrcTooSmall;
    if op.OnBits() then
      var c := CheckBits(l, op.area, op.address, op.count);
      if c.Err? then Some(c.error) else if |op.buf| < BytesForBits(op.count) then Some(small) else None
    else if op.count == 0 then Some(CountZero)
    else if |op.buf| < 2 * op.count then Some(small)
    else
      var c := CheckRegs(l, op.area, op.address, op.count);
      if c.Err? then Some(c.error) else None
  }

  function BitBacking(p: Packed, area: byte): seq<byte> { if area == COILS then p.coils else p.discreteInputs }

  function RegBacking(p: Packed, area: byte): seq<u16> { if area == HOLDING_REGS then p.holdingRegs else p.inputRegs }

  function WithBitBacking(p: Packed, area: byte, s: seq<byte>): Packed {
    if area == COILS then p.(coils := s) else p.(discreteInputs := s)
  }

  function WithRegBacking(p: Packed, area: byte, s: seq<u16>): Packed {
    if area == HOLDING_REGS then p.(holdingRegs := s) else p.(inputRegs := s)
  }

  function OffsetOf(p: Packed, op: Op): u16 {
    var l := LayoutOf(p.layouts, op.area);
    if l.Some? then l.value.Offset(op.address) else 0
  }

  /** The loop goes on with iteration `i`: neither the count is reached nor the bounds check fails. */
  predicate More(p: Packed, op: Op, i: nat) {
    && i < op.count
    && if op.OnBits() then
         Wrap16(OffsetOf(p, op) + i) / 8 < |BitBacking(p, op.area)| && i / 8 < BytesForBits(op.count) <= |op.buf|
       else
         Wrap16(OffsetOf(p, op) + i) < |RegBacking(p, op.area)| && 2 * op.count <= |op.buf|
  }

  /** One iteration of a read: one element goes into the destination. */
  function CopyOne(p: Packed, op: Op, i: nat, dst: seq<byte>): seq<byte>
    requires op.Reads() && More(p, op, i) && |dst| == |op.buf|
  {
    var k := Wrap16(OffsetOf(p, op) + i);
    if op.OnBits() then SetBitAt(dst, i, BitAt(BitBacking(p, op.area), k))
    else
      var v := PutUint16(RegBacking(p, op.area)[k]);
      dst[2 * i := v[0]][2 * i + 1 := v[1]]
  }

  /** One iteration of a write: one element goes into the backing. */
  function StoreOne(p: Packed, op: Op, i: nat): Packed
    requires !op.Reads() && More(p, op, i)
  {
    var k := Wrap16(OffsetOf(p, op) + i);
    if op.OnBits() then
      WithBitBacking(p, op.area, SetBitAt(BitBacking(p, op.area), k, BitAt(op.buf, i)))
    else
      WithRegBacking(p, op.area, RegBacking(p, op.area)[k := Uint16(op.buf[2 * i..2 * i + 2])])
  }

  // Goroutines and the lock.

  /** Outside any operation, waiting for the lock, or inside its loop. */
  datatype Thread = Idle | Waiting(op: Op) | Inside(op: Op, i: nat, dst: seq<byte>)

  datatype Event = Event(thread: int, op: Op, outcome: Outcome)

  /** `writer` and `readers` are the lock; `history` lists the finished operations in the order in which
      they finished, and `base` is the memory after the last finished write. */
  datatype State = State(
    mem: Packed,
    writer: bool,
    readers: nat,
    threads: map<int, Thread>,
    history: seq<Event>,
    base: Packed)

  datatype Action = Call(t: int, op: Op) | Move(t: int)

  function Become(st: State, t: int, th: Thread): State { st.(threads := st.threads[t := th]) }

  function Finish(st: State, t: int, op: Op, outcome: Outcome): State {
    Become(st, t, Idle).(history := st.history + [Event(t, op, outcome)])
  }

  function Step(st: State, a: Action): State {
    if a.t !in st.threads then st
    else
      match (a, st.threads[a.t])
      case (Call(t, op), Idle) =>
        var err := Check(st.mem.layouts, op);
        if err.Some? then Finish(st, t, op, Failed(err.value)) else Become(st, t, Waiting(op))
      case (Move(t), Waiting(op)) =>
        if st.writer || (!op.Reads() && st.readers > 0) then st
        else if op.Reads() then Become(st, t, Inside(op, 0, op.buf)).(readers := st.readers + 1)
        else Become(st, t, Inside(op, 0, op.buf)).(writer := true)
      case (Move(t), Inside(op, i, dst)) =>
        if More(st.mem, op, i) then
          if op.Reads() then
            if |dst| == |op.buf| then Become(st, t, Inside(op, i + 1, CopyOne(st.mem, op, i, dst))) else st
          else Become(st, t, Inside(op, i + 1, dst)).(mem := StoreOne(st.mem, op, i))
        else if op.Reads() then
          Finish(st, t, op, Data(dst)).(readers := if st.readers > 0 then st.readers - 1 else 0)
        else Finish(st, t, op, Done).(writer := false, base := st.mem)
      case _ => st
  }

  function Exec(st: State, actions: seq<Action>): State {
    if actions == [] then st else Step(Exec(st, actions[..|actions| - 1]), actions[|actions| - 1])
  }

  predicate Initial(st: State) {
    && Allocated(st.mem) && st.base == st.mem
    && !st.writer && st.readers == 0 && st.history == []
    && forall t | t in st.threads :: st.threads[t].Idle?
  }

  // What a loop has done after `i` iterations.

  /** Number of iterations the loop makes. */
  function Turns(p: Packed, op: Op): nat {
    if op.OnBits() then Moved(|BitBacking(p, op.area)|, OffsetOf(p, op), BytesForBits(op.count), op.count) else op.count
  }

  predicate Checked(p: Packed, op: Op) {
    Allocated(p) && Check(p.layouts, op) == None
  }

  lemma CheckedRoom(p: Packed, op: Op)
    requires Checked(p, op)
    ensures op.OnBits() ==>
              && BytesForBits(op.count) <= |op.buf| && |BitBacking(p, op.area)| <= MAX_BYTES
              && var n := Turns(p, op);
                 n <= 8 * BytesForBits(op.count) && (n == 0 || OffsetOf(p, op) + n <= 8 * |BitBacking(p, op.area)|)
    ensures !op.OnBits() ==>
              && 2 * op.count <= |op.buf|
              && OffsetOf(p, op) + op.count <= |RegBacking(p, op.area)| && OffsetOf(p, op) + op.count <= 0x10000
  {
    if op.OnBits() {
      MovedBounds(|BitBacking(p, op.area)|, OffsetOf(p, op), BytesForBits(op.count), op.count);
      BytesForBitsExact(LayoutOf(p.layouts, op.area).value.size);
    } else {
      LayoutOf(p.layouts, op.area).value.ContainsExact(op.address, op.count);
    }
  }

  /** The loop stops exactly after its `Turns`. */
  lemma MoreExact(p: Packed, op: Op, i: nat)
    requires Checked(p, op) && i <= Turns(p, op)
    ensures More(p, op, i) <==> i < Turns(p, op)
    ensures More(p, op, i) ==> Wrap16(OffsetOf(p, op) + i) == OffsetOf(p, op) + i
  {
    hide Moved, Checked, BytesForBits, OffsetOf;
    CheckedRoom(p, op);
    MovedBounds(|BitBacking(p, op.area)|, OffsetOf(p, op), BytesForBits(op.count), op.count);
    if op.OnBits() && i < op.count {
      StopsAtMoved(|BitBacking(p, op.area)|, OffsetOf(p, op), BytesForBits(op.count), op.count, i);
    }
  }

  /** The destination after `i` iterations of a read. */
  function Copying(p: Packed, op: Op, i: nat): (dst: seq<byte>)
    requires Checked(p, op) && i <= Turns(p, op)
    ensures |dst| == |op.buf|
  {
    CheckedRoom(p, op);
    if op.OnBits() then
      PutFirst(op.buf, 0, Unpack(BitBacking(p, op.area), OffsetOf(p, op), Turns(p, op)), i)
    else
      RegBytes(RegBacking(p, op.area)[OffsetOf(p, op)..OffsetOf(p, op) + i]) + op.buf[2 * i..]
  }

  /** The memory after `i` iterations of a write. */
  function Storing(p: Packed, op: Op, i: nat): Packed
    requires Checked(p, op) && i <= Turns(p, op)
  {
    CheckedRoom(p, op);
    if op.OnBits() then
      WithBitBacking(p, op.area,
                     PutFirst(BitBacking(p, op.area), OffsetOf(p, op), Unpack(op.buf, 0, Turns(p, op)), i))
    else
      WithRegBacking(p, op.area, PutRegs(RegBacking(p, op.area), OffsetOf(p, op), RegsIn(op.buf, i)))
  }

  lemma CopyNextReg(regs: seq<u16>, off: nat, dst: seq<byte>, i: nat)
    requires off + i < |regs| && 2 * i + 2 <= |dst|
    ensures var v := PutUint16(regs[off + i]);
            (RegBytes(regs[off..off + i]) + dst[2 * i..])[2 * i := v[0]][2 * i + 1 := v[1]] ==
            RegBytes(regs[off..off + i + 1]) + dst[2 * (i + 1)..]
  {
    hide PutUint16;
    assert regs[off..off + i + 1] == regs[off..off + i] + [regs[off + i]];
    assert RegBytes(regs[off..off + i + 1]) == RegBytes(regs[off..off + i]) + PutUint16(regs[off + i]);
  }

  lemma CopyingStep(p: Packed, op: Op, i: nat)
    requires Checked(p, op) && op.Reads() && i < Turns(p, op) && More(p, op, i)
    ensures CopyOne(p, op, i, Copying(p, op, i)) == Copying(p, op, i + 1)
  {
    hide Checked, OffsetOf, RegBytes, PutUint16;
    CheckedRoom(p, op);
    MoreExact(p, op, i);
    if op.OnBits() {
      var bits := Unpack(BitBacking(p, op.area), OffsetOf(p, op), Turns(p, op));
      assert bits[i] == BitAt(BitBacking(p, op.area), OffsetOf(p, op) + i);
    } else {
      CopyNextReg(RegBacking(p, op.area), OffsetOf(p, op), op.buf, i);
    }
  }

  /** A write under way touches neither the layouts nor the lengths. */
  lemma StoringShape(p: Packed, op: Op, i: nat)
    requires Checked(p, op) && i <= Turns(p, op)
    ensures var q := Storing(p, op, i);
            && Checked(q, op) && q.layouts == p.layouts
            && OffsetOf(q, op) == OffsetOf(p, op) && Turns(q, op) == Turns(p, op)
  {
  }

  lemma PutNextReg(regs: seq<u16>, off: nat, src: seq<byte>, i: nat)
    requires off + i < |regs| && 2 * i + 2 <= |src|
    ensures PutRegs(regs, off, RegsIn(src, i))[off + i := Uint16(src[2 * i..2 * i + 2])] ==
            PutRegs(regs, off, RegsIn(src, i + 1))
  {
    assert RegsIn(src, i + 1) == RegsIn(src, i) + [Uint16(src[2 * i..2 * i + 2])];
  }

  lemma StoringMore(p: Packed, op: Op, i: nat)
    requires Checked(p, op) && !op.Reads() && i < Turns(p, op)
    ensures More(Storing(p, op, i), op, i)
    ensures OffsetOf(Storing(p, op, i), op) == OffsetOf(p, op)
    ensures Wrap16(OffsetOf(p, op) + i) == OffsetOf(p, op) + i
  {
    hide Checked, Storing, Turns, OffsetOf;
    StoringShape(p, op, i);
    MoreExact(Storing(p, op, i), op, i);
  }

  lemma StoringBit(p: Packed, op: Op, i: nat)
    requires Checked(p, op) && op.kind.BitWrite? && i < Turns(p, op) && More(Storing(p, op, i), op, i)
    ensures StoreOne(Storing(p, op, i), op, i) == Storing(p, op, i + 1)
  {
    hide Checked, OffsetOf, Turns, More;
    CheckedRoom(p, op);
    StoringMore(p, op, i);
    var bits := Unpack(op.buf, 0, Turns(p, op));
    assert bits[i] == BitAt(op.buf, i);
    assert BitBacking(Storing(p, op, i), op.area) == PutFirst(BitBacking(p, op.area), OffsetOf(p, op), bits, i);
  }

  lemma StoringReg(p: Packed, op: Op, i: nat)
    requires Checked(p, op) && op.kind.RegWrite? && i < Turns(p, op) && More(Storing(p, op, i), op, i)
    ensures StoreOne(Storing(p, op, i), op, i) == Storing(p, op, i + 1)
  {
    hide Checked, OffsetOf;
    CheckedRoom(p, op);
    StoringMore(p, op, i);
    PutNextReg(RegBacking(p, op.area), OffsetOf(p, op), op.buf, i);
  }

  lemma StoringStep(p: Packed, op: Op, i: nat)
    requires Checked(p, op) && !op.Reads() && i < Turns(p, op)
    ensures More(Storing(p, op, i), op, i)
    ensures StoreOne(Storing(p, op, i), op, i) == Storing(p, op, i + 1)
  {
    hide Checked, Storing, Turns, More, StoreOne;
    StoringMore(p, op, i);
    if op.OnBits() {
      StoringBit(p, op, i);
    } else {
      StoringReg(p, op, i);
    }
  }

  // A finished loop is the atomic operation.

  lemma RefusedAtomic(m: Image, op: Op)
    ensures var err := Check(m.layouts, op);
            if err.Some? then Atomic(m, op) == (m, Failed(err.value)) else !Atomic(m, op).1.Failed?
  {
  }

  lemma CopiedAtomic(p: Packed, op: Op)
    requires Checked(p, op) && op.Reads()
    ensures Atomic(View(p), op) == (View(p), Data(Copying(p, op, Turns(p, op))))
  {
    var l := LayoutOf(p.layouts, op.area).value;
    if op.OnBits() {
      ReadRefines(l, BitBacking(p, op.area), op.address, op.count, op.buf);
      assert Copying(p, op, Turns(p, op)) ==
             Copied(op.buf, BytesForBits(op.count), BitBacking(p, op.area), OffsetOf(p, op), op.count);
    } else {
      ReadRegsRefines(l, RegBacking(p, op.area), op.address, op.count);
    }
  }

  lemma StoredBitsAtomic(p: Packed, op: Op)
    requires Checked(p, op) && op.kind.BitWrite?
    ensures Atomic(View(p), op) == (View(Storing(p, op, Turns(p, op))), Done)
  {
    var l, want := LayoutOf(p.layouts, op.area).value, BytesForBits(op.count);
    var s, src := BitBacking(p, op.area), op.buf[..BytesForBits(op.count)];
    BytesForBitsExact(op.count);
    WriteRefines(l, s, op.address, op.count, src);
    assert Unpack(src, 0, Turns(p, op)) == Unpack(op.buf, 0, Turns(p, op));
    assert Storing(p, op, Turns(p, op)) == WithBitBacking(p, op.area, Landed(s, OffsetOf(p, op), op.count, src));
    if l.Packable() {
      assert Unpack(src, 0, op.count) == Unpack(op.buf, 0, op.count);
    }
  }

  lemma StoredRegsAtomic(p: Packed, op: Op)
    requires Checked(p, op) && op.kind.RegWrite?
    ensures Atomic(View(p), op) == (View(Storing(p, op, Turns(p, op))), Done)
  {
    var l := LayoutOf(p.layouts, op.area).value;
    WriteRegsRefines(l, RegBacking(p, op.area), op.address, op.count, RegsIn(op.buf, op.count));
  }

  // Linearizability.

  /** The four maps after the listed operations, each as one step. */
  function After(m: Image, history: seq<Event>): Image {
    if history == [] then m else Atomic(After(m, history[..|history| - 1]), history[|history| - 1].op).0
  }

  /** Every listed operation returned what it returns when all of them run one after the other. */
  predicate Legal(m: Image, history: seq<Event>) {
    forall k | 0 <= k < |history| :: history[k].outcome == Atomic(After(m, history[..k]), history[k].op).1
  }

  lemma LegalSnoc(m: Image, history: seq<Event>, e: Event)
    requires Legal(m, history) && e.outcome == Atomic(After(m, history), e.op).1
    ensures Legal(m, history + [e]) && After(m, history + [e]) == Atomic(After(m, history), e.op).0
  {
    hide Atomic;
    var h := history + [e];
    assert h[..|history|] == history;
    forall k | 0 <= k < |h|
      ensures h[k].outcome == Atomic(After(m, h[..k]), h[k].op).1
    {
      assert k < |history| ==> h[..k] == history[..k];
    }
  }

  function Readers(threads: map<int, Thread>): set<int> {
    set t | t in threads && threads[t].Inside? && threads[t].op.Reads()
  }

  function Writers(threads: map<int, Thread>): set<int> {
    set t | t in threads && threads[t].Inside? && !threads[t].op.Reads()
  }

  /** The lock counts who is inside: readers only, or one writer only. */
  predicate LockInv(st: State) {
    && st.readers == |Readers(st.threads)|
    && (st.writer <==> Writers(st.threads) != {})
    && (forall t, u | t in Writers(st.threads) && u in Writers(st.threads) :: t == u)
    && (st.writer ==> st.readers == 0)
  }

  /** A reader has so far copied from, and a writer has so far stored into, the memory that the last
      finished write left. */
  predicate ThreadInv(st: State, th: Thread) {
    match th
    case Idle => true
    case Waiting(op) => Check(st.base.layouts, op) == None
    case Inside(op, i, dst) =>
      && Checked(st.base, op) && i <= Turns(st.base, op)
      && if op.Reads() then dst == Copying(st.base, op, i) else st.mem == Storing(st.base, op, i)
  }

  predicate Inv(m: Image, st: State) {
    && Allocated(st.base) && st.mem.layouts == st.base.layouts
    && LockInv(st)
    && (!st.writer ==> st.mem == st.base)
    && (forall t | t in st.threads :: ThreadInv(st, st.threads[t]))
    && Legal(m, st.history) && View(st.base) == After(m, st.history)
  }

  lemma LockAfter(st: State, t: int, th: Thread)
    requires t in st.threads
    ensures Readers(st.threads[t := th]) ==
            if th.Inside? && th.op.Reads() then Readers(st.threads) + {t} else Readers(st.threads) - {t}
    ensures Writers(st.threads[t := th]) ==
            if th.Inside? && !th.op.Reads() then Writers(st.threads) + {t} else Writers(st.threads) - {t}
  {
  }

  /** Any change of one thread that leaves the rest alone. */
  lemma OthersKeep(st: State, st': State, t: int, th: Thread)
    requires forall u | u in st.threads :: ThreadInv(st, st.threads[u])
    requires st'.threads == st.threads[t := th] && st'.mem == st.mem && st'.base == st.base
    requires ThreadInv(st', th)
    ensures forall u | u in st'.threads :: ThreadInv(st', st'.threads[u])
  {
    hide ThreadInv;
    forall u | u in st'.threads && u != t
      ensures ThreadInv(st', st'.threads[u])
    {
      SameView(st, st', st.threads[u]);
    }
  }

  lemma SameView(st: State, st': State, th: Thread)
    requires ThreadInv(st, th) && st'.mem == st.mem && st'.base == st.base
    ensures ThreadInv(st', th)
  {
  }

  lemma RefuseStep(m: Image, st: State, t: int, op: Op)
    requires Inv(m, st) && t in st.threads && st.threads[t].Idle? && Check(st.mem.layouts, op).Some?
    ensures Inv(m, Step(st, Call(t, op)))
  {
    hide After, Legal, Allocated, Checked, Atomic, Check, Turns, Copying, Storing, More, CopyOne, StoreOne, View;
    LockAfter(st, t, Idle);
    OthersKeep(st, Step(st, Call(t, op)), t, Idle);
    ViewLayouts(st.base);
    RefusedAtomic(View(st.base), op);
    LegalSnoc(m, st.history, Event(t, op, Failed(Check(st.mem.layouts, op).value)));
  }

  lemma ViewLayouts(p: Packed)
    ensures View(p).layouts == p.layouts
  {
  }

  lemma WaitStep(m: Image, st: State, t: int, op: Op)
    requires Inv(m, st) && t in st.threads && st.threads[t].Idle? && Check(st.mem.layouts, op).None?
    ensures Inv(m, Step(st, Call(t, op)))
  {
    hide After, Legal, Allocated, Checked, Atomic, Check, Turns, Copying, Storing, More, CopyOne, StoreOne, View;
    LockAfter(st, t, Waiting(op));
    OthersKeep(st, Step(st, Call(t, op)), t, Waiting(op));
  }

  lemma CallStep(m: Image, st: State, t: int, op: Op)
    requires Inv(m, st) && t in st.threads
    ensures Inv(m, Step(st, Call(t, op)))
  {
    hide Inv, Check;
    if st.threads[t].Idle? {
      if Check(st.mem.layouts, op).Some? {
        RefuseStep(m, st, t, op);
      } else {
        WaitStep(m, st, t, op);
      }
    }
  }

  lemma AcquireStep(m: Image, st: State, t: int)
    requires Inv(m, st) && t in st.threads && st.threads[t].Waiting?
    ensures Inv(m, Step(st, Move(t)))
  {
    hide After, Legal, Atomic, Check, Copying, Storing, Turns, Allocated, More, CopyOne, StoreOne;
    var op := st.threads[t].op;
    if !(st.writer || (!op.Reads() && st.readers > 0)) {
      var th := Inside(op, 0, op.buf);
      LockAfter(st, t, th);
      NothingYet(st.base, op);
      OthersKeep(st, Step(st, Move(t)), t, th);
    }
  }

  lemma NothingYet(p: Packed, op: Op)
    requires Checked(p, op)
    ensures Copying(p, op, 0) == op.buf
    ensures Storing(p, op, 0) == p
  {
    hide Checked, Turns, OffsetOf, Unpack, BytesForBits;
    CheckedRoom(p, op);
  }

  lemma CopyMore(m: Image, st: State, t: int)
    requires Inv(m, st) && t in st.threads && st.threads[t].Inside? && st.threads[t].op.Reads()
    requires !st.writer && st.mem == st.base && More(st.mem, st.threads[t].op, st.threads[t].i)
    ensures Inv(m, Step(st, Move(t)))
  {
    hide After, Legal, Atomic, Checked, More, Copying, Storing, Turns, CopyOne, Allocated;
    var op, i, dst := st.threads[t].op, st.threads[t].i, st.threads[t].dst;
    MoreExact(st.base, op, i);
    CopyingStep(st.base, op, i);
    var th := Inside(op, i + 1, CopyOne(st.mem, op, i, dst));
    LockAfter(st, t, th);
    assert t in Readers(st.threads);
    assert Readers(st.threads[t := th]) == Readers(st.threads);
    OthersKeep(st, Step(st, Move(t)), t, th);
  }

  lemma CopyEnd(m: Image, st: State, t: int)
    requires Inv(m, st) && t in st.threads && st.threads[t].Inside? && st.threads[t].op.Reads()
    requires !st.writer && st.mem == st.base && !More(st.mem, st.threads[t].op, st.threads[t].i)
    requires t in Readers(st.threads)
    ensures Inv(m, Step(st, Move(t)))
  {
    hide After, Legal, Atomic, Checked, More, Copying, Storing, Turns, CopyOne, Allocated;
    var op, i, dst := st.threads[t].op, st.threads[t].i, st.threads[t].dst;
    MoreExact(st.base, op, i);
    CopiedAtomic(st.base, op);
    LegalSnoc(m, st.history, Event(t, op, Data(dst)));
    LockAfter(st, t, Idle);
    OthersKeep(st, Step(st, Move(t)), t, Idle);
  }

  lemma CopyStep(m: Image, st: State, t: int)
    requires Inv(m, st) && t in st.threads && st.threads[t].Inside? && st.threads[t].op.Reads()
    ensures Inv(m, Step(st, Move(t)))
  {
    hide More, Step, Legal, After, Copying, Storing, Checked, Turns;
    assert t in Readers(st.threads);
    if More(st.mem, st.threads[t].op, st.threads[t].i) {
      CopyMore(m, st, t);
    } else {
      CopyEnd(m, st, t);
    }
  }

  /** While a writer is inside, every other thread is outside. */
  lemma WriterAlone(st: State, t: int, u: int)
    requires LockInv(st) && t in Writers(st.threads) && u in st.threads && u != t
    ensures !st.threads[u].Inside?
  {
    assert Readers(st.threads) == {};
    assert u !in Readers(st.threads) && u !in Writers(st.threads);
  }

  lemma StoreMore(m: Image, st: State, t: int)
    requires Inv(m, st) && t in st.threads && st.threads[t].Inside? && !st.threads[t].op.Reads()
    requires forall u | u in st.threads && u != t :: !st.threads[u].Inside?
    requires t in Writers(st.threads)
    requires More(st.mem, st.threads[t].op, st.threads[t].i)
    ensures Inv(m, Step(st, Move(t)))
  {
    hide After, Legal, Atomic, Allocated, Check, More, Storing, Copying, Turns, StoreOne;
    var op, i, dst := st.threads[t].op, st.threads[t].i, st.threads[t].dst;
    StoringShape(st.base, op, i);
    MoreExact(st.mem, op, i);
    StoringStep(st.base, op, i);
    StoringShape(st.base, op, i + 1);
    LockAfter(st, t, Inside(op, i + 1, dst));
    assert Writers(st.threads[t := Inside(op, i + 1, dst)]) == Writers(st.threads);
  }

  lemma LastWriterLeaves(st: State, t: int)
    requires LockInv(st) && t in Writers(st.threads)
    ensures Writers(st.threads[t := Idle]) == {}
  {
    LockAfter(st, t, Idle);
    forall u | u in Writers(st.threads)
      ensures u == t
    {
    }
  }

  lemma StoreEnd(m: Image, st: State, t: int)
    requires Inv(m, st) && t in st.threads && st.threads[t].Inside? && !st.threads[t].op.Reads()
    requires forall u | u in st.threads && u != t :: !st.threads[u].Inside?
    requires t in Writers(st.threads)
    requires !More(st.mem, st.threads[t].op, st.threads[t].i)
    ensures Inv(m, Step(st, Move(t)))
  {
    hide After, Legal, Atomic, Allocated, Check, More, Storing, Copying, Turns, StoreOne;
    var op, i := st.threads[t].op, st.threads[t].i;
    StoringShape(st.base, op, i);
    MoreExact(st.mem, op, i);
    if op.OnBits() {
      StoredBitsAtomic(st.base, op);
    } else {
      StoredRegsAtomic(st.base, op);
    }
    LegalSnoc(m, st.history, Event(t, op, Done));
    LockAfter(st, t, Idle);
    LastWriterLeaves(st, t);
  }

  lemma StoreStep(m: Image, st: State, t: int)
    requires Inv(m, st) && t in st.threads && st.threads[t].Inside? && !st.threads[t].op.Reads()
    ensures Inv(m, Step(st, Move(t)))
  {
    hide After, Legal, Checked, More, Storing, Copying, Turns, Step;
    assert t in Writers(st.threads);
    forall u | u in st.threads && u != t
      ensures !st.threads[u].Inside?
    {
      WriterAlone(st, t, u);
    }
    if More(st.mem, st.threads[t].op, st.threads[t].i) {
      StoreMore(m, st, t);
    } else {
      StoreEnd(m, st, t);
    }
  }

  lemma StepKeepsInv(m: Image, st: State, a: Action)
    requires Inv(m, st)
    ensures Inv(m, Step(st, a))
  {
    hide Inv;
    if a.t in st.threads {
      match (a, st.threads[a.t])
      case (Call(t, op), Idle) => CallStep(m, st, t, op);
      case (Move(t), Waiting(op)) => AcquireStep(m, st, t);
      case (Move(t), Inside(op, i, dst)) =>
        if op.Reads() {
          CopyStep(m, st, t);
        } else {
          StoreStep(m, st, t);
        }
      case _ =>
    }
  }

  lemma NobodyInside(threads: map<int, Thread>)
    requires forall t | t in threads :: threads[t].Idle?
    ensures Readers(threads) == {} && Writers(threads) == {}
  {
    assert forall t :: t !in Readers(threads) && t !in Writers(threads);
  }

  /** In every interleaving at the granularity of single loop iterations, the operations that have
      finished returned what they return when executed whole, one after the other, in the order in
      which they finished; and whenever no writer is inside, the memory is what they leave. */
  lemma {:induction false} Linearizable(st: State, actions: seq<Action>)
    requires Initial(st)
    ensures var now := Exec(st, actions);
            && Inv(View(st.mem), now)
            && Legal(View(st.mem), now.history)
            && (!now.writer ==> View(now.mem) == After(View(st.mem), now.history))
    decreases |actions|
  {
    if actions == [] {
      NobodyInside(st.threads);
    } else {
      hide Step;
      Linearizable(st, actions[..|actions| - 1]);
      StepKeepsInv(View(st.mem), Exec(st, actions[..|actions| - 1]), actions[|actions| - 1]);
    }
  }

  /** An operation takes its place in the order by the step with which it finishes, which its own
      goroutine makes between its call and its return; no other step adds to the order. */
  lemma EntersWhenItEnds(st: State, a: Action)
    ensures st.history <= Step(st, a).history
    ensures |Step(st, a).history| <= |st.history| + 1
    ensures |Step(st, a).history| == |st.history| + 1 ==>
              && a.t in st.threads && Step(st, a).threads[a.t] == Idle
              && Step(st, a).history[|st.history|].thread == a.t
              && Step(st, a).history[|st.history|].op ==
                 if a.Call? then a.op else st.threads[a.t].op
  {
    hide CopyOne, StoreOne, More, Check;
  }
}
