/** A multiple write is the same as its single writes. */
module Singles {
  import opened Words
  import opened Bits
  import opened Layouts
  import opened Images
  import opened Stores
  import opened Pdus
  import opened Dispatching
  import opened Answers

  /** Writes of `vs[j]` to address `a + j`, one at a time, for the indices `j` in `order`. */
  function Scatter<T>(m: map<int, T>, a: int, vs: seq<T>, order: seq<nat>): map<int, T>
    requires forall i | 0 <= i < |order| :: order[i] < |vs|
  {
    if order == [] then m
    else
      var j := order[|order| - 1];
      Overwrite(Scatter(m, a, vs, order[..|order| - 1]), a + j, [vs[j]])
  }

  lemma {:induction false} ScatterAt<T>(m: map<int, T>, a: int, vs: seq<T>, order: seq<nat>, k: int)
    requires forall i | 0 <= i < |order| :: order[i] < |vs|
    requires k in m
    ensures k in Scatter(m, a, vs, order)
    ensures Scatter(m, a, vs, order)[k] == if k - a in order then vs[k - a] else m[k]
  {
    if order != [] {
      var init := order[..|order| - 1];
      assert order == init + [order[|order| - 1]];
      ScatterAt(m, a, vs, init, k);
    }
  }

  lemma {:induction false} ScatterKeys<T>(m: map<int, T>, a: int, vs: seq<T>, order: seq<nat>)
    requires forall i | 0 <= i < |order| :: order[i] < |vs|
    ensures Scatter(m, a, vs, order).Keys == m.Keys
  {
    if order != [] {
      ScatterKeys(m, a, vs, order[..|order| - 1]);
    }
  }

  /** All indices, in any order and any number of times, amount to one overwrite of the whole range. */
  lemma ScatterAll<T>(m: map<int, T>, a: int, vs: seq<T>, order: seq<nat>)
    requires forall i | 0 <= i < |order| :: order[i] < |vs|
    requires forall j: nat | j < |vs| :: j in order
    ensures Scatter(m, a, vs, order) == Overwrite(m, a, vs)
  {
    ScatterKeys(m, a, vs, order);
    forall k | k in m
      ensures Scatter(m, a, vs, order)[k] == Overwrite(m, a, vs)[k]
    {
      ScatterAt(m, a, vs, order, k);
    }
  }

  /** The FC5 request for element `j` of an FC15 request, or the FC6 request for one of an FC16. */
  function Single(req: Request, j: nat): Request
    requires req.functionCode in {15, 16} && WellShaped(req) && j < Size(req) && Address(req) + j < 0x10000
  {
    var value := if req.functionCode == 16 then PutUint16(HoldingsIn(req)[j])
                 else if CoilsIn(req)[j] then [0xFF, 0] else [0, 0];
    req.(functionCode := req.functionCode - 10, payload := PutUint16(Address(req) + j) + value)
  }

  /** Number of elements a multiple write really carries. */
  function Size(req: Request): nat
    requires req.functionCode in {15, 16} && WellShaped(req)
  {
    if req.functionCode == 15 then |CoilsIn(req)| else |HoldingsIn(req)|
  }

  /** Every entry names an element of the request. */
  predicate InOrder(req: Request, order: seq<nat>)
    requires req.functionCode in {15, 16} && WellShaped(req)
  {
    forall i | 0 <= i < |order| :: order[i] < Size(req) && Address(req) + order[i] < 0x10000
  }

  /** Dispatching the single requests for the indices in `order`, one after the other. */
  function DispatchSingles(s: Contents, req: Request, order: seq<nat>): Contents
    requires req.functionCode in {15, 16} && WellShaped(req) && InOrder(req, order)
  {
    if order == [] then s
    else Dispatch(DispatchSingles(s, req, order[..|order| - 1]), Single(req, order[|order| - 1])).0
  }

  lemma SinglePayload(req: Request, j: nat)
    requires req.functionCode in {15, 16} && WellShaped(req) && j < Size(req) && Address(req) + j < 0x10000
    ensures var one := Single(req, j);
            && WellShaped(one) && Target(one) == Target(req) && one.functionCode == req.functionCode - 10
            && Address(one) == Address(req) + j && Count(one) == 1
            && (req.functionCode == 15 ==> CoilsIn(one) == [CoilsIn(req)[j]])
            && (req.functionCode == 16 ==> HoldingsIn(one) == [HoldingsIn(req)[j]])
  {
    var one := Single(req, j);
    Uint16Put(Address(req) + j);
    assert one.payload[0..2] == PutUint16(Address(req) + j);
    if req.functionCode == 16 {
      Uint16Put(HoldingsIn(req)[j]);
      assert one.payload[2..4] == PutUint16(HoldingsIn(req)[j]);
    } else {
      assert Operand(one) == if CoilsIn(req)[j] then 0xFF00 else 0;
    }
  }

  lemma SingleVerdict(s: Contents, req: Request, j: nat)
    requires req.functionCode in {15, 16} && Verdict(s, req) == 0 && j < Size(req) && Address(req) + j < 0x10000
    ensures Verdict(s, Single(req, j)) == 0
  {
    SinglePayload(req, j);
    BytesForBitsExact(Operand(req));
  }

  lemma CoilStep(s: Contents, t: Contents, coils: map<int, bool>, req: Request, j: nat)
    requires req.functionCode == 15 && Verdict(s, req) == 0 && j < Size(req) && Address(req) + j < 0x10000
    requires t == s[Target(req) := s[Target(req)].(coils := coils)]
    requires s[Target(req)].layouts.coils.value.Packable()
    ensures Dispatch(t, Single(req, j)).0 ==
            s[Target(req) := s[Target(req)].(coils := Overwrite(coils, Address(req) + j, [CoilsIn(req)[j]]))]
  {
    SingleVerdict(s, req, j);
    SameVerdict(s, t, Single(req, j));
    SinglePayload(req, j);
    hide Dispatch, Verdict, CoilsIn, Single, Size, Overwrite;
    CoilWrite(t, Single(req, j));
  }

  lemma DeadCoilStep(s: Contents, req: Request, j: nat)
    requires req.functionCode == 15 && Verdict(s, req) == 0 && j < Size(req) && Address(req) + j < 0x10000
    requires !s[Target(req)].layouts.coils.value.Packable()
    ensures Dispatch(s, Single(req, j)).0 == s
  {
    SingleVerdict(s, req, j);
    SinglePayload(req, j);
    CoilWrite(s, Single(req, j));
  }

  lemma HoldingStep(s: Contents, t: Contents, regs: map<int, u16>, req: Request, j: nat)
    requires req.functionCode == 16 && Verdict(s, req) == 0 && j < Size(req) && Address(req) + j < 0x10000
    requires t == s[Target(req) := s[Target(req)].(holdingRegs := regs)]
    ensures Dispatch(t, Single(req, j)).0 ==
            s[Target(req) := s[Target(req)].(holdingRegs := Overwrite(regs, Address(req) + j, [HoldingsIn(req)[j]]))]
  {
    SingleVerdict(s, req, j);
    SameVerdict(s, t, Single(req, j));
    SinglePayload(req, j);
    HoldingWrite(t, Single(req, j));
  }

  lemma {:induction false} CoilsOneByOne(s: Contents, req: Request, order: seq<nat>)
    requires req.functionCode == 15 && Verdict(s, req) == 0 && InOrder(req, order)
    ensures var m := s[Target(req)];
            DispatchSingles(s, req, order) ==
            if m.layouts.coils.value.Packable() then
              s[Target(req) := m.(coils := Scatter(m.coils, Address(req), CoilsIn(req), order))]
            else s
  {
    hide Dispatch, CoilsIn, Overwrite;
    if order != [] {
      var m, init, j := s[Target(req)], order[..|order| - 1], order[|order| - 1];
      CoilsOneByOne(s, req, init);
      if m.layouts.coils.value.Packable() {
        CoilStep(s, DispatchSingles(s, req, init), Scatter(m.coils, Address(req), CoilsIn(req), init), req, j);
      } else {
        DeadCoilStep(s, req, j);
      }
    }
  }

  lemma {:induction false} HoldingsOneByOne(s: Contents, req: Request, order: seq<nat>)
    requires req.functionCode == 16 && Verdict(s, req) == 0 && InOrder(req, order)
    ensures var m := s[Target(req)];
            DispatchSingles(s, req, order) ==
            s[Target(req) := m.(holdingRegs := Scatter(m.holdingRegs, Address(req), HoldingsIn(req), order))]
  {
    hide Dispatch, HoldingsIn, Overwrite;
    if order != [] {
      var m, init, j := s[Target(req)], order[..|order| - 1], order[|order| - 1];
      HoldingsOneByOne(s, req, init);
      HoldingStep(s, DispatchSingles(s, req, init), Scatter(m.holdingRegs, Address(req), HoldingsIn(req), init), req, j);
    }
  }

  /** A successful FC15 leaves what its FC5 requests leave, and a successful FC16 what its FC6
      requests leave, sent in any order and even repeatedly, as long as none is left out. */
  lemma MultipleIsSingles(s: Contents, req: Request, order: seq<nat>)
    requires req.functionCode in {15, 16} && Verdict(s, req) == 0 && s[Target(req)].layouts.Validate().None?
    requires forall i | 0 <= i < |order| :: order[i] < Size(req)
    requires forall j: nat | j < Size(req) :: j in order
    ensures InOrder(req, order)
    ensures DispatchSingles(s, req, order) == Dispatch(s, req).0
  {
    BytesForBitsExact(Operand(req));
    var m := s[Target(req)];
    assert LayoutOf(m.layouts, AreaOf(req.functionCode)).value.Validate().None?;
    if req.functionCode == 15 {
      CoilsOneByOne(s, req, order);
      CoilWrite(s, req);
      ScatterAll(m.coils, Address(req), CoilsIn(req), order);
    } else {
      HoldingsOneByOne(s, req, order);
      HoldingWrite(s, req);
      ScatterAll(m.holdingRegs, Address(req), HoldingsIn(req), order);
    }
  }
}
