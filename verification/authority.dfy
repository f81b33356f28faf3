/** Who may use which function code on which memory. */
module Authorities {
  import opened Words
  import opened Outcomes
  import opened Pdus
  import opened Stores

  /** A source address; `V6` may carry a zone. */
  datatype Addr = Invalid | V4(value: nat) | V6(value: nat, zoned: bool)

  datatype Prefix = Prefix(v6: bool, value: nat, bits: nat) {
    function Width(): nat { if v6 then 128 else 32 }

    /** Number of host bits. */
    function HostBits(): nat { if bits <= Width() then Width() - bits else 0 }

    /** Same family, no zone, and the first `bits` bits agree. */
    predicate Contains(a: Addr) {
      && bits <= Width()
      && match a
         case Invalid => false
         case V4(value') => !v6 && Shifted(value', HostBits()) == Shifted(value, HostBits())
         case V6(value', zoned) => v6 && !zoned && Shifted(value', HostBits()) == Shifted(value, HostBits())
    }

    function Masked(): Prefix { this.(value := Cleared(value, HostBits())) }
  }

  /** `v` without its `k` low bits. */
  function Shifted(v: nat, k: nat): nat { if k == 0 then v else Shifted(v / 2, k - 1) }

  /** `v` with its `k` low bits set to zero. */
  function Cleared(v: nat, k: nat): nat { if k == 0 then v else 2 * Cleared(v / 2, k - 1) }

  lemma {:induction false} ShiftedCleared(v: nat, k: nat)
    ensures Shifted(Cleared(v, k), k) == Shifted(v, k)
  {
    if k > 0 {
      ShiftedCleared(v / 2, k - 1);
    }
  }

  /** Clearing the host bits changes no membership. */
  lemma MaskedContains(p: Prefix, a: Addr)
    ensures p.Masked().Contains(a) == p.Contains(a)
  {
    ShiftedCleared(p.value, p.HostBits());
  }

  // What containment means, bit by bit.

  lemma {:induction false} ShiftedBits(v: nat, k: nat, i: nat)
    ensures TestBit(Shifted(v, k), i) == TestBit(v, i + k)
  {
    if k > 0 {
      ShiftedBits(v / 2, k - 1, i);
    }
  }

  lemma {:induction false} ShiftedRange(v: nat, k: nat, w: nat)
    requires k <= w && v < Pow2(w)
    ensures Shifted(v, k) < Pow2(w - k)
  {
    if k > 0 {
      assert Pow2(w) == 2 * Pow2(w - 1);
      ShiftedRange(v / 2, k - 1, w - 1);
    }
  }

  /** Bits `k` to `w - 1` are the same. */
  predicate Agree(v: nat, u: nat, k: nat, w: nat) {
    forall i: nat | k <= i < w :: TestBit(v, i) == TestBit(u, i)
  }

  /** Values of `w` bits agree from bit `k` on exactly when they are shifted to the same value. */
  lemma ShiftedSame(v: nat, u: nat, k: nat, w: nat)
    requires k <= w && v < Pow2(w) && u < Pow2(w)
    ensures Shifted(v, k) == Shifted(u, k) <==> Agree(v, u, k, w)
  {
    ShiftedRange(v, k, w);
    ShiftedRange(u, k, w);
    hide TestBit, Shifted, Pow2;
    if Shifted(v, k) == Shifted(u, k) {
      forall i: nat | k <= i < w
        ensures TestBit(v, i) == TestBit(u, i)
      {
        ShiftedBits(v, k, i - k);
        ShiftedBits(u, k, i - k);
      }
    } else if Agree(v, u, k, w) {
      forall i: nat | i < w - k
        ensures TestBit(Shifted(v, k), i) == TestBit(Shifted(u, k), i)
      {
        ShiftedBits(v, k, i);
        ShiftedBits(u, k, i);
      }
      SameBits(Shifted(v, k), Shifted(u, k), w - k);
    }
  }

  /** Number of bits in an address of a family. */
  function AddressBits(v6: bool): nat { if v6 then 128 else 32 }

  predicate InRange(a: Addr) { !a.Invalid? && a.value < Pow2(AddressBits(a.V6?)) }

  predicate PrefixInRange(p: Prefix) { p.value < Pow2(AddressBits(p.v6)) }

  /** Both are of one family, the address has no zone, and the first `bits` bits of both agree. */
  predicate SharesBits(p: Prefix, a: Addr)
    requires !a.Invalid?
  {
    var w := AddressBits(p.v6);
    p.bits <= w && a.V6? == p.v6 && (a.V6? ==> !a.zoned) && Agree(a.value, p.value, w - p.bits, w)
  }

  /** A prefix contains an address exactly when both are of one family, the address has no zone, and their
      first `bits` bits agree. */
  lemma ContainsExact(p: Prefix, a: Addr)
    requires PrefixInRange(p) && InRange(a)
    ensures p.Contains(a) <==> SharesBits(p, a)
  {
    hide Pow2, TestBit, Shifted;
    var w := AddressBits(p.v6);
    if p.bits <= w && a.V6? == p.v6 {
      ShiftedSame(a.value, p.value, w - p.bits, w);
      assert p.Width() == w && p.HostBits() == w - p.bits;
      assert p.Contains(a) <==> (a.V6? ==> !a.zoned) && Shifted(a.value, w - p.bits) == Shifted(p.value, w - p.bits);
    }
  }

  /** An address without its zone. */
  function Unzoned(a: Addr): Addr { if a.V6? then a.(zoned := false) else a }

  /** A bare address contains itself only. */
  lemma BareContains(b: Addr, a: Addr)
    requires InRange(b) && InRange(a)
    ensures FullPrefix(b).Contains(a) <==> a == Unzoned(b)
  {
    hide Pow2, TestBit, Prefix.Contains;
    ContainsExact(FullPrefix(b), a);
    if FullPrefix(b).Contains(a) {
      SameBits(a.value, b.value, AddressBits(b.V6?));
    }
  }

  /** `/0` contains its whole family. */
  lemma ZeroContains(p: Prefix, a: Addr)
    requires PrefixInRange(p) && InRange(a) && p.bits == 0
    ensures p.Contains(a) <==> a.V6? == p.v6 && (a.V6? ==> !a.zoned)
  {
    hide Pow2, TestBit, Prefix.Contains;
    ContainsExact(p, a);
  }

  /** What an entry names: a bare address itself, a prefix the addresses that share its first bits. */
  lemma NamesExactly(item: IpItem, a: Addr)
    requires InRange(a)
    requires item.asAddr.Some? ==> InRange(item.asAddr.value)
    requires item.asPrefix.Some? ==> PrefixInRange(item.asPrefix.value)
    ensures !item.slash ==> (Names(item, a) <==> !item.blank && item.asAddr.Some? && a == Unzoned(item.asAddr.value))
    ensures item.slash ==>
              (Names(item, a) <==> !item.blank && item.asPrefix.Some? && SharesBits(item.asPrefix.value, a))
  {
    hide Pow2, TestBit, Prefix.Contains;
    if item.asAddr.Some? {
      BareContains(item.asAddr.value, a);
    }
    if item.asPrefix.Some? {
      ContainsExact(item.asPrefix.value, a);
    }
  }

  /** A trimmed address-list entry, with what the two parsers make of it. */
  datatype IpItem = IpItem(blank: bool, slash: bool, asPrefix: Option<Prefix>, asAddr: Option<Addr>)

  function FullPrefix(a: Addr): Prefix
    requires !a.Invalid?
  {
    Prefix(a.V6?, a.value, if a.V6? then 128 else 32)
  }

  /** The prefix an entry stands for, if the matcher accepts the entry. */
  function PrefixOf(item: IpItem): Option<Prefix> {
    if item.slash then
      if item.asPrefix.Some? then Some(item.asPrefix.value.Masked()) else None
    else if item.asAddr.Some? && !item.asAddr.value.Invalid? then Some(FullPrefix(item.asAddr.value))
    else None
  }

  function Prefixes(items: seq<IpItem>): seq<Prefix> {
    if items == [] then []
    else
      var item := items[|items| - 1];
      Prefixes(items[..|items| - 1]) + if item.blank || PrefixOf(item).None? then [] else [PrefixOf(item).value]
  }

  predicate AllParse(items: seq<IpItem>) {
    forall i | 0 <= i < |items| :: items[i].blank || PrefixOf(items[i]).Some?
  }

  datatype IPMatcher = IPMatcher(prefixes: seq<Prefix>)

  method NewIPMatcher(items: seq<IpItem>) returns (r: Option<IPMatcher>)
    ensures r == if AllParse(items) then Some(IPMatcher(Prefixes(items))) else None
  {
    var pfxs: seq<Prefix> := [];
    for i := 0 to |items|
      invariant AllParse(items[..i])
      invariant pfxs == Prefixes(items[..i])
    {
      assert items[..i + 1][..i] == items[..i];
      var item := items[i];
      if item.blank { continue; }
      if item.slash {
        if item.asPrefix.None? { return None; }
        pfxs := pfxs + [item.asPrefix.value.Masked()];
        continue;
      }
      if item.asAddr.None? || item.asAddr.value.Invalid? { return None; }
      pfxs := pfxs + [Prefix(item.asAddr.value.V6?, item.asAddr.value.value, if item.asAddr.value.V6? then 128 else 32)];
    }
    assert items[..|items|] == items;
    return Some(IPMatcher(pfxs));
  }

  /** Some prefix in the list contains the address. */
  predicate Within(prefixes: seq<Prefix>, a: Addr) {
    exists p | p in prefixes :: p.Contains(a)
  }

  lemma WithinExact(prefixes: seq<Prefix>, a: Addr)
    requires InRange(a) && forall p | p in prefixes :: PrefixInRange(p)
    ensures Within(prefixes, a) <==> exists p | p in prefixes :: SharesBits(p, a)
  {
    hide Prefix.Contains, SharesBits, PrefixInRange;
    forall p | p in prefixes
      ensures p.Contains(a) <==> SharesBits(p, a)
    {
      ContainsExact(p, a);
    }
  }

  method Match(m: IPMatcher, a: Addr) returns (r: bool)
    ensures r == Within(m.prefixes, a)
    ensures InRange(a) && (forall p | p in m.prefixes :: PrefixInRange(p)) ==>
              (r <==> exists p | p in m.prefixes :: !a.Invalid? && SharesBits(p, a))
  {
    if InRange(a) && forall p | p in m.prefixes :: PrefixInRange(p) {
      WithinExact(m.prefixes, a);
    }
    hide InRange, PrefixInRange, SharesBits;
    if a.Invalid? { return false; }
    for i := 0 to |m.prefixes|
      invariant forall k | 0 <= k < i :: !m.prefixes[k].Contains(a)
    {
      if m.prefixes[i].Contains(a) { return true; }
    }
    return false;
  }

  /** An entry matches when it is not blank and the range it names, as written, contains the address. */
  predicate Names(item: IpItem, a: Addr) {
    && !item.blank
    && (item.slash ==> item.asPrefix.Some? && item.asPrefix.value.Contains(a))
    && (!item.slash ==> item.asAddr.Some? && !item.asAddr.value.Invalid? && FullPrefix(item.asAddr.value).Contains(a))
  }

  /** A list matches exactly when one of its entries does; order and repetition do not matter. */
  lemma {:induction false} ListMatches(items: seq<IpItem>, a: Addr)
    ensures Within(Prefixes(items), a) <==> exists item | item in items :: Names(item, a)
  {
    if items != [] {
      var init, item := items[..|items| - 1], items[|items| - 1];
      assert items == init + [item];
      ListMatches(init, a);
      if item.slash && item.asPrefix.Some? {
        MaskedContains(item.asPrefix.value, a);
      }
      var last := if item.blank || PrefixOf(item).None? then [] else [PrefixOf(item).value];
      assert Within(Prefixes(items), a) <==> Within(Prefixes(init), a) || Within(last, a) by {
        WithinConcat(Prefixes(init), last, a);
      }
      assert Within(last, a) <==> Names(item, a) by {
        assert last != [] ==> last[0] in last;
      }
      assert (exists i | i in items :: Names(i, a)) <==> (exists i | i in init :: Names(i, a)) || Names(item, a);
    }
  }

  lemma WithinConcat(ps: seq<Prefix>, qs: seq<Prefix>, a: Addr)
    ensures Within(ps + qs, a) <==> Within(ps, a) || Within(qs, a)
  {
    if Within(ps, a) {
      var p :| p in ps && p.Contains(a);
      assert p in ps + qs;
    }
    if Within(qs, a) {
      var p :| p in qs && p.Contains(a);
      assert p in ps + qs;
    }
  }

  lemma ListOrderIrrelevant(items: seq<IpItem>, items': seq<IpItem>, a: Addr)
    requires forall item :: item in items <==> item in items'
    ensures Within(Prefixes(items), a) == Within(Prefixes(items'), a)
  {
    ListMatches(items, a);
    ListMatches(items', a);
  }

  // Rules and policies.

  datatype Rule = Rule(id: string, ip: IPMatcher, allow: set<byte>) {
    predicate Matches(a: Addr) { Within(ip.prefixes, a) }
    predicate AllowsFC(fc: byte) { fc in allow }
  }

  function Codes(s: seq<byte>): set<byte> { set fc | fc in s }

  method NewRule(id: string, ipList: seq<IpItem>, allowFC: seq<byte>) returns (r: Option<Rule>)
    ensures r == if id == "" || !AllParse(ipList) then None
                 else Some(Rule(id, IPMatcher(Prefixes(ipList)), Codes(allowFC)))
    ensures r.Some? ==> forall fc: byte :: r.value.AllowsFC(fc) <==> fc in allowFC
  {
    if id == "" { return None; }
    var m := NewIPMatcher(ipList);
    if m.None? { return None; }
    var allow: set<byte> := {};
    for i := 0 to |allowFC|
      invariant allow == Codes(allowFC[..i])
    {
      assert allowFC[..i + 1] == allowFC[..i] + [allowFC[i]];
      allow := allow + {allowFC[i]};
    }
    assert allowFC[..|allowFC|] == allowFC;
    return Some(Rule(id, m.value, allow));
  }

  /** A policy's rules, top down; an entry may be missing. */
  type Rules = seq<Option<Rule>>

  datatype Decision = Allow | Deny(code: byte)

  /** The decision of the first matching rule, or refusal. */
  function Decide(rules: Rules, a: Addr, fc: byte): Decision {
    if rules == [] then Deny(ILLEGAL_FUNCTION)
    else if rules[0].Some? && rules[0].value.Matches(a) then
      if rules[0].value.AllowsFC(fc) then Allow else Deny(ILLEGAL_FUNCTION)
    else Decide(rules[1..], a, fc)
  }

  predicate Hits(rules: Rules, i: nat, a: Addr)
    requires i < |rules|
  {
    rules[i].Some? && rules[i].value.Matches(a)
  }

  /** Rule `i` is the earliest one that contains the source. */
  predicate FirstHit(rules: Rules, i: nat, a: Addr) {
    i < |rules| && Hits(rules, i, a) && forall k: nat | k < i :: !Hits(rules, k, a)
  }

  lemma FirstHitOfRest(rules: Rules, i: nat, a: Addr)
    requires rules != [] && !Hits(rules, 0, a)
    ensures FirstHit(rules, i + 1, a) == FirstHit(rules[1..], i, a)
  {
    assert forall k: nat | k < |rules| - 1 :: Hits(rules[1..], k, a) == Hits(rules, k + 1, a);
    if FirstHit(rules[1..], i, a) {
      forall k: nat | k < i + 1
        ensures !Hits(rules, k, a)
      {
        assert k > 0 ==> Hits(rules[1..], k - 1, a) == Hits(rules, k, a);
      }
    }
  }

  /** The earliest rule that contains the source decides; without one the request is refused. */
  lemma {:induction false} FirstMatchWins(rules: Rules, a: Addr, fc: byte)
    ensures forall i: nat | FirstHit(rules, i, a) ::
              Decide(rules, a, fc) == if rules[i].value.AllowsFC(fc) then Allow else Deny(ILLEGAL_FUNCTION)
    ensures (forall i: nat | i < |rules| :: !Hits(rules, i, a)) ==> Decide(rules, a, fc) == Deny(ILLEGAL_FUNCTION)
    ensures (exists i: nat | i < |rules| :: Hits(rules, i, a)) ==> exists i: nat :: FirstHit(rules, i, a)
  {
    if rules != [] {
      if Hits(rules, 0, a) {
        assert FirstHit(rules, 0, a);
        assert forall i: nat | FirstHit(rules, i, a) :: i == 0;
      } else {
        var rest := rules[1..];
        FirstMatchWins(rest, a, fc);
        assert forall k: nat | k < |rest| :: Hits(rest, k, a) == Hits(rules, k + 1, a);
        forall i: nat | FirstHit(rules, i, a)
          ensures i > 0 && FirstHit(rest, i - 1, a)
        {
          FirstHitOfRest(rules, i - 1, a);
        }
        if i: nat :| i < |rules| && Hits(rules, i, a) {
          assert Hits(rest, i - 1, a);
          var j: nat :| FirstHit(rest, j, a);
          FirstHitOfRest(rules, j, a);
        }
      }
    }
  }

  /** Only what stands before and at the first match counts: anything that does not match can be put
      in or taken out, and anything after a match can be replaced. */
  lemma {:induction false} OnlyFirstMatchCounts(before: Rules, middle: Rules, after: Rules, a: Addr, fc: byte)
    ensures (forall i | 0 <= i < |middle| :: !Hits(middle, i, a)) ==>
              Decide(before + middle + after, a, fc) == Decide(before + after, a, fc)
    ensures (exists i | 0 <= i < |before| :: Hits(before, i, a)) ==>
              Decide(before + middle + after, a, fc) == Decide(before + after, a, fc)
    decreases |before| + |middle|
  {
    if before != [] {
      var rest := before[1..];
      assert forall i | 0 <= i < |rest| :: Hits(rest, i, a) == Hits(before, i + 1, a);
      OnlyFirstMatchCounts(rest, middle, after, a, fc);
      assert (before + middle + after)[1..] == rest + middle + after;
      assert (before + after)[1..] == rest + after;
      if exists i | 0 <= i < |before| :: Hits(before, i, a) {
        var i :| 0 <= i < |before| && Hits(before, i, a);
        assert i > 0 ==> Hits(rest, i - 1, a);
      }
    } else if middle != [] {
      var rest := middle[1..];
      assert forall i | 0 <= i < |rest| :: Hits(rest, i, a) == Hits(middle, i + 1, a);
      OnlyFirstMatchCounts([], rest, after, a, fc);
      assert (before + middle + after)[1..] == [] + rest + after;
      assert Hits(middle, 0, a) == (middle[0].Some? && middle[0].value.Matches(a));
      assert before + after == [] + after;
    } else {
      assert before + middle + after == before + after;
    }
  }

  // The sealing table.

  datatype SealOp = SealOp(mid: MemoryID, enabled: bool)

  /** The last operation on `mid`, if there was one. */
  function LastOp(ops: seq<SealOp>, mid: MemoryID): Option<bool> {
    if ops == [] then None
    else if ops[|ops| - 1].mid == mid then Some(ops[|ops| - 1].enabled)
    else LastOp(ops[..|ops| - 1], mid)
  }

  class Sealing {
    var flags: map<MemoryID, bool>
    /** Every operation so far. */
    ghost var ops: seq<SealOp>

    /** The table answers with the last operation on each identity. */
    ghost predicate Valid()
      reads this
    {
      forall mid :: LastOp(ops, mid) == if mid in flags then Some(flags[mid]) else None
    }

    constructor ()
      ensures Valid() && ops == [] && flags == map[]
    {
      flags, ops := map[], [];
    }

    method Ensure(mid: MemoryID, enabled: bool)
      requires Valid()
      modifies this
      ensures Valid() && ops == old(ops) + [SealOp(mid, enabled)]
      ensures flags == old(flags)[mid := enabled]
    {
      flags := flags[mid := enabled];
      ops := ops + [SealOp(mid, enabled)];
      assert ops[..|ops| - 1] == old(ops);
    }

    method IsSealed(mid: MemoryID) returns (r: bool)
      requires Valid()
      ensures r == (LastOp(ops, mid) == Some(true)) == (mid in flags && flags[mid])
    {
      r := mid in flags && flags[mid];
    }

    method Seal(mid: MemoryID)
      requires Valid()
      modifies this
      ensures Valid() && ops == old(ops) + [SealOp(mid, true)]
    {
      Ensure(mid, true);
    }

    method Unseal(mid: MemoryID)
      requires Valid()
      modifies this
      ensures Valid() && ops == old(ops) + [SealOp(mid, false)]
    {
      Ensure(mid, false);
    }
  }

  /** The authority as a value. */
  datatype Auth = Auth(flags: map<MemoryID, bool>, policies: map<MemoryID, Rules>)

  function RulesFor(auth: Auth, mid: MemoryID): Rules {
    if mid in auth.policies then auth.policies[mid] else []
  }

  /** Sealed memories are busy; otherwise the first matching rule decides. */
  function Judge(auth: Auth, mid: MemoryID, a: Addr, fc: byte): Decision {
    if mid in auth.flags && auth.flags[mid] then Deny(DEVICE_BUSY) else Decide(RulesFor(auth, mid), a, fc)
  }

  /** Some rule of the policy of `mid` contains the source, and the first one that does lists the code. */
  predicate Permitted(policies: map<MemoryID, Rules>, mid: MemoryID, a: Addr, fc: byte) {
    && mid in policies
    && exists i | 0 <= i < |policies[mid]| ::
         && Reached(policies[mid][i], a) && fc in policies[mid][i].value.allow
         && forall k | 0 <= k < i :: !Reached(policies[mid][k], a)
  }

  predicate Reached(rule: Option<Rule>, a: Addr) {
    rule.Some? && exists p | p in rule.value.ip.prefixes :: p.Contains(a)
  }

  /** The whole decision: 0x06 for an id marked sealed; otherwise allowed if permitted, and 0x01 in all
      other cases, among them a memory without any policy. */
  lemma JudgeExactly(auth: Auth, mid: MemoryID, a: Addr, fc: byte)
    ensures Judge(auth, mid, a, fc) ==
            if mid in auth.flags && auth.flags[mid] then Deny(6)
            else if Permitted(auth.policies, mid, a, fc) then Allow
            else Deny(1)
    ensures mid !in auth.policies && !(mid in auth.flags && auth.flags[mid]) ==> Judge(auth, mid, a, fc) == Deny(1)
  {
    var rules := RulesFor(auth, mid);
    FirstMatchWins(rules, a, fc);
    forall i: nat | i < |rules|
      ensures Hits(rules, i, a) == Reached(rules[i], a)
    {
    }
    if i: nat :| FirstHit(rules, i, a) {
      forall k: nat | FirstHit(rules, k, a)
        ensures k == i
      {
      }
    }
  }

  class Authority {
    const sealing: Sealing
    var policies: map<MemoryID, Rules>

    ghost predicate Valid()
      reads this, sealing
    {
      sealing.Valid()
    }

    ghost function Abs(): Auth
      reads this, sealing
    {
      Auth(sealing.flags, policies)
    }

    constructor ()
      ensures fresh(sealing) && Valid() && Abs() == Auth(map[], map[])
    {
      sealing := new Sealing();
      policies := map[];
    }

    method SetMemoryPolicy(mid: MemoryID, p: Rules)
      modifies this
      ensures policies == old(policies)[mid := p]
    {
      policies := policies[mid := p];
    }

    method Evaluate(mid: MemoryID, a: Addr, fc: byte) returns (d: Decision)
      requires Valid()
      ensures d == Judge(Abs(), mid, a, fc)
      ensures d == if mid in sealing.flags && sealing.flags[mid] then Deny(6)
                   else if Permitted(policies, mid, a, fc) then Allow
                   else Deny(1)
    {
      JudgeExactly(Abs(), mid, a, fc);
      hide Permitted;
      var sealed := sealing.IsSealed(mid);
      if sealed { return Deny(DEVICE_BUSY); }
      var rules := if mid in policies then policies[mid] else [];
      if |rules| == 0 { return Deny(ILLEGAL_FUNCTION); }
      for i := 0 to |rules|
        invariant Decide(rules, a, fc) == Decide(rules[i..], a, fc)
      {
        if rules[i].None? { continue; }
        var hit := Match(rules[i].value.ip, a);
        if !hit { continue; }
        if rules[i].value.AllowsFC(fc) { return Allow; }
        return Deny(ILLEGAL_FUNCTION);
      }
      return Deny(ILLEGAL_FUNCTION);
    }
  }
}
