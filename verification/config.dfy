/** From a configuration to the running store and its access rules. */
module Configs {
  import opened Words
  import opened Outcomes
  import opened Stores
  import opened Authorities

  /** A listen address, with what splitting it and reading its port number yields. */
  datatype Listen = Listen(blank: bool, port: Option<int>)

  datatype AreaConfig = AreaConfig(start: u16, count: u16)

  /** `area` is the configured name, trimmed and in lower case. */
  datatype StateSealingConfig = StateSealingConfig(area: string, address: u16)

  datatype PolicyRuleConfig = PolicyRuleConfig(id: string, sourceIP: seq<IpItem>, allowFC: seq<byte>)

  datatype MemoryDefinition = MemoryDefinition(
    port: u16,
    unitID: u16,
    coils: AreaConfig,
    discreteInputs: AreaConfig,
    holdingRegs: AreaConfig,
    inputRegs: AreaConfig,
    stateSealing: Option<StateSealingConfig>,
    policy: Option<seq<PolicyRuleConfig>>)

  datatype IngressGate = IngressGate(id: string, listen: Listen, memory: seq<MemoryDefinition>)

  datatype Config = Config(ingress: seq<IngressGate>, memories: map<string, MemoryDefinition>)

  function ParseListenPort(l: Listen): Option<u16> {
    if l.port.None? || l.port.value < 1 || l.port.value > 65535 then None else Some(l.port.value)
  }

  /** A nested definition with its runtime identity. */
  datatype Decl = Decl(id: MemoryID, def: MemoryDefinition)

  /** The declarations of one listener; the port comes from its listen address. */
  function DeclsOf(g: IngressGate): (ds: seq<Decl>)
    ensures |ds| == |g.memory|
  {
    var port := match ParseListenPort(g.listen) case Some(p) => p case None => 0;
    seq(|g.memory|, i requires 0 <= i < |g.memory| => Decl(MemoryID(port, g.memory[i].unitID), g.memory[i]))
  }

  /** All nested declarations, in the order in which they are written. */
  function AllDecls(gates: seq<IngressGate>): seq<Decl> {
    if gates == [] then [] else AllDecls(gates[..|gates| - 1]) + DeclsOf(gates[|gates| - 1])
  }

  predicate ListenOk(g: IngressGate) { g.memory != [] ==> ParseListenPort(g.listen).Some? }

  predicate ListensOk(gates: seq<IngressGate>) {
    forall i | 0 <= i < |gates| :: ListenOk(gates[i])
  }

  // Validation.

  /** The check made on each area: an empty area is not looked at any further. */
  predicate ValidateArea(a: AreaConfig) {
    if a.count == 0 then true else !(a.start + a.count > 0x10000)
  }

  predicate ValidateAreas(def: MemoryDefinition) {
    ValidateArea(def.coils) && ValidateArea(def.discreteInputs) &&
    ValidateArea(def.holdingRegs) && ValidateArea(def.inputRegs)
  }

  /** The check made on a sealing definition, by validation and again by the builder. */
  predicate ValidateStateSealing(def: MemoryDefinition) {
    def.stateSealing.Some? ==>
      var a := def.stateSealing.value.address;
      && def.stateSealing.value.area == "coil"
      && def.coils.count != 0
      && !(a < def.coils.start || a >= def.coils.start + def.coils.count)
  }

  /** An area is acceptable exactly when all its addresses are 16-bit numbers. */
  lemma AreaExact(a: AreaConfig)
    ensures ValidateArea(a) <==> forall x :: InArea(a, x) ==> x < 65536
  {
    if a.count != 0 {
      assert InArea(a, a.start + (a.count - 1));
    }
  }

  predicate InArea(a: AreaConfig, x: int) { a.start <= x < a.start + a.count }

  /** A sealing definition is acceptable exactly when its flag is one of the coils. */
  lemma StateSealingExact(def: MemoryDefinition)
    ensures ValidateStateSealing(def) <==>
              def.stateSealing.None? ||
              (def.stateSealing.value.area == "coil" && InArea(def.coils, def.stateSealing.value.address))
  {
  }

  /** What validation asks of a definition, in plain numbers. */
  lemma DefExact(port: u16, def: MemoryDefinition)
    ensures DefOk(port, def) <==>
              && port != 0 && def.unitID <= 255
              && (forall x :: InArea(def.coils, x) ==> x < 65536)
              && (forall x :: InArea(def.discreteInputs, x) ==> x < 65536)
              && (forall x :: InArea(def.holdingRegs, x) ==> x < 65536)
              && (forall x :: InArea(def.inputRegs, x) ==> x < 65536)
              && (def.stateSealing.Some? ==>
                    def.stateSealing.value.area == "coil" && InArea(def.coils, def.stateSealing.value.address))
              && PolicyOk(def.policy)
  {
    AreaExact(def.coils);
    AreaExact(def.discreteInputs);
    AreaExact(def.holdingRegs);
    AreaExact(def.inputRegs);
    StateSealingExact(def);
    hide ValidateArea, ValidateStateSealing, InArea, PolicyOk;
  }

  /** A port is accepted exactly when its number is 1 to 65535. */
  lemma PortExact(l: Listen)
    ensures ParseListenPort(l) == if l.port.Some? && 1 <= l.port.value <= 65535 then Some(l.port.value) else None
  {
  }

  predicate RuleOk(r: PolicyRuleConfig) {
    && (forall i | 0 <= i < |r.sourceIP| ::
          r.sourceIP[i].blank || r.sourceIP[i].asPrefix.Some? || r.sourceIP[i].asAddr.Some?)
    && (forall i | 0 <= i < |r.allowFC| :: r.allowFC[i] != 0)
  }

  predicate PolicyOk(p: Option<seq<PolicyRuleConfig>>) {
    p.Some? ==> forall i | 0 <= i < |p.value| :: RuleOk(p.value[i])
  }

  method ValidatePolicy(p: Option<seq<PolicyRuleConfig>>) returns (ok: bool)
    ensures ok == PolicyOk(p)
  {
    if p.None? { return true; }
    for i := 0 to |p.value|
      invariant forall k | 0 <= k < i :: RuleOk(p.value[k])
    {
      var r := p.value[i];
      for j := 0 to |r.sourceIP|
        invariant forall k | 0 <= k < j ::
                    r.sourceIP[k].blank || r.sourceIP[k].asPrefix.Some? || r.sourceIP[k].asAddr.Some?
      {
        if r.sourceIP[j].blank { continue; }
        if r.sourceIP[j].asPrefix.None? && r.sourceIP[j].asAddr.None? { return false; }
      }
      for j := 0 to |r.allowFC|
        invariant forall k | 0 <= k < j :: r.allowFC[k] != 0
      {
        if r.allowFC[j] == 0 { return false; }
      }
    }
    return true;
  }

  predicate DefOk(port: u16, def: MemoryDefinition) {
    port != 0 && def.unitID <= 0xFF && ValidateAreas(def) && ValidateStateSealing(def) && PolicyOk(def.policy)
  }

  method ValidateDef(port: u16, def: MemoryDefinition) returns (ok: bool)
    ensures ok == DefOk(port, def)
  {
    if port == 0 || def.unitID > 0xFF || !ValidateAreas(def) || !ValidateStateSealing(def) { return false; }
    ok := ValidatePolicy(def.policy);
  }

  predicate IngressOk(gates: seq<IngressGate>) {
    && (forall i | 0 <= i < |gates| :: gates[i].id != "" && !gates[i].listen.blank && ListenOk(gates[i]))
    && (forall i, j | 0 <= i < j < |gates| :: gates[i].id != gates[j].id)
  }

  method ValidateIngress(gates: seq<IngressGate>) returns (ok: bool)
    ensures ok == IngressOk(gates)
  {
    var seen: set<string> := {};
    for i := 0 to |gates|
      invariant IngressOk(gates[..i])
      invariant forall id :: id in seen <==> exists k | 0 <= k < i :: gates[k].id == id
    {
      var g := gates[i];
      assert gates[..i + 1] == gates[..i] + [g];
      if g.id == "" { return false; }
      if g.id in seen { return false; }
      seen := seen + {g.id};
      if g.listen.blank { return false; }
      if |g.memory| > 0 {
        var port := ParseListenPort(g.listen);
        if port.None? { return false; }
      }
    }
    assert gates[..|gates|] == gates;
    return true;
  }

  function LegacyID(def: MemoryDefinition): MemoryID { MemoryID(def.port, def.unitID) }

  /** The legacy definitions under `keys` are acceptable and have different identities. */
  predicate LegacyGood(memories: map<string, MemoryDefinition>, keys: set<string>)
    requires keys <= memories.Keys
  {
    && (forall k | k in keys :: DefOk(memories[k].port, memories[k]))
    && (forall k, l | k in keys && l in keys && k != l :: LegacyID(memories[k]) != LegacyID(memories[l]))
  }

  predicate LegacyOk(memories: map<string, MemoryDefinition>) { LegacyGood(memories, memories.Keys) }

  function IDsOf(memories: map<string, MemoryDefinition>, keys: set<string>): set<MemoryID>
    requires keys <= memories.Keys
  {
    set k | k in keys :: LegacyID(memories[k])
  }

  function LegacyIDs(memories: map<string, MemoryDefinition>): set<MemoryID> { IDsOf(memories, memories.Keys) }

  /** Every declaration is acceptable, and no identity occurs twice or in `taken`. */
  predicate DeclsOk(taken: set<MemoryID>, decls: seq<Decl>) {
    && (forall i | 0 <= i < |decls| :: DefOk(decls[i].id.port, decls[i].def) && decls[i].id !in taken)
    && (forall i, j | 0 <= i < j < |decls| :: decls[i].id != decls[j].id)
  }

  /** Legacy and nested declarations share one name space of identities. */
  predicate MemoriesOk(cfg: Config) {
    && LegacyOk(cfg.memories)
    && ListensOk(cfg.ingress)
    && DeclsOk(LegacyIDs(cfg.memories), AllDecls(cfg.ingress))
  }

  // Going through a map in some order: what is done, and what is left.

  lemma Visited(all: set<string>)
    ensures all - all == {} && all - {} == all
  {
  }

  lemma Visit(all: set<string>, left: set<string>, key: string)
    requires left <= all && key in left
    ensures all - (left - {key}) == all - left + {key} && key !in all - left
  {
  }

  lemma GoodStart(memories: map<string, MemoryDefinition>)
    ensures LegacyGood(memories, {}) && IDsOf(memories, {}) == {}
  {
  }

  /** One turn of the legacy loop. */
  lemma GoodOne(memories: map<string, MemoryDefinition>, keys: set<string>, key: string)
    requires keys <= memories.Keys && key in memories && key !in keys && LegacyGood(memories, keys)
    ensures var def := memories[key];
            if DefOk(def.port, def) && LegacyID(def) !in IDsOf(memories, keys) then
              && LegacyGood(memories, keys + {key})
              && IDsOf(memories, keys + {key}) == IDsOf(memories, keys) + {LegacyID(def)}
            else !LegacyOk(memories)
  {
    hide DefOk;
    var def := memories[key];
    if LegacyID(def) in IDsOf(memories, keys) {
      var k :| k in keys && LegacyID(memories[k]) == LegacyID(def);
    }
  }

  /** The legacy part of the check; the map is gone through in some order. */
  method ValidateLegacy(memories: map<string, MemoryDefinition>) returns (ok: bool, seen: set<MemoryID>)
    ensures ok == LegacyOk(memories)
    ensures ok ==> seen == LegacyIDs(memories)
  {
    GoodStart(memories);
    Visited(memories.Keys);
    hide LegacyGood, IDsOf, DefOk;
    var left := memories.Keys;
    ghost var all := left;
    seen := {};
    while left != {}
      invariant left <= all
      invariant LegacyGood(memories, all - left) && seen == IDsOf(memories, all - left)
      decreases |left|
    {
      var key :| key in left;
      Visit(all, left, key);
      GoodOne(memories, all - left, key);
      var good := ValidateDef(memories[key].port, memories[key]);
      if !good { return false, seen; }
      var id := MemoryID(memories[key].port, memories[key].unitID);
      if id in seen { return false, seen; }
      seen := seen + {id};
      left := left - {key};
    }
    ok := true;
  }

  /** Taking in one more declaration. */
  lemma DeclsSnoc(taken: set<MemoryID>, decls: seq<Decl>, d: Decl)
    requires DeclsOk(taken, decls)
    ensures DeclsOk(taken, decls + [d]) <==>
              DefOk(d.id.port, d.def) && d.id !in taken && forall i | 0 <= i < |decls| :: decls[i].id != d.id
  {
    var all := decls + [d];
    assert all[|decls|] == d;
    if DeclsOk(taken, all) {
      forall i | 0 <= i < |decls|
        ensures decls[i].id != d.id
      {
        assert all[i] == decls[i];
      }
    }
  }

  /** A prefix of acceptable declarations is acceptable. */
  lemma DeclsPrefix(taken: set<MemoryID>, decls: seq<Decl>, all: seq<Decl>)
    requires DeclsOk(taken, all) && decls <= all
    ensures DeclsOk(taken, decls)
  {
    assert forall i | 0 <= i < |decls| :: decls[i] == all[i];
  }

  /** The declarations of the listeners before `i` and the first `j` of listener `i`. */
  function Sofar(gates: seq<IngressGate>, i: nat, j: nat): seq<Decl>
    requires i < |gates| && j <= |gates[i].memory|
  {
    AllDecls(gates[..i]) + DeclsOf(gates[i])[..j]
  }

  lemma {:induction false} SofarPrefix(gates: seq<IngressGate>, i: nat, j: nat)
    requires i < |gates| && j <= |gates[i].memory|
    ensures Sofar(gates, i, j) <= AllDecls(gates)
    ensures j == |gates[i].memory| ==> Sofar(gates, i, j) == AllDecls(gates[..i + 1])
    ensures j == 0 ==> Sofar(gates, i, j) == AllDecls(gates[..i])
    ensures j < |gates[i].memory| ==> Sofar(gates, i, j + 1) == Sofar(gates, i, j) + [DeclsOf(gates[i])[j]]
    decreases |gates|
  {
    assert gates[..i + 1][..i] == gates[..i];
    if i < |gates| - 1 {
      var init := gates[..|gates| - 1];
      assert init[..i] == gates[..i] && init[i] == gates[i];
      SofarPrefix(init, i, j);
    } else {
      assert gates[..i + 1] == gates;
    }
  }

  /** Where the declarations of listener `i` begin and end. */
  lemma SofarEnds(gates: seq<IngressGate>, i: nat)
    requires i < |gates|
    ensures Sofar(gates, i, 0) == AllDecls(gates[..i])
    ensures Sofar(gates, i, |gates[i].memory|) == AllDecls(gates[..i + 1])
  {
    SofarPrefix(gates, i, 0);
    SofarPrefix(gates, i, |gates[i].memory|);
  }

  function Ids(decls: seq<Decl>): set<MemoryID> { set d | d in decls :: d.id }

  /** One turn of the nested loop: the next declaration is taken in, or the whole is refused. */
  lemma TakeOne(taken: set<MemoryID>, gates: seq<IngressGate>, i: nat, j: nat)
    requires i < |gates| && j < |gates[i].memory| && DeclsOk(taken, Sofar(gates, i, j))
    ensures var d := DeclsOf(gates[i])[j];
            && Ids(Sofar(gates, i, j + 1)) == Ids(Sofar(gates, i, j)) + {d.id}
            && if DefOk(d.id.port, d.def) && d.id !in taken + Ids(Sofar(gates, i, j)) then
                 DeclsOk(taken, Sofar(gates, i, j + 1))
               else !DeclsOk(taken, AllDecls(gates))
  {
    hide DefOk, AllDecls, Sofar;
    var d, sofar := DeclsOf(gates[i])[j], Sofar(gates, i, j);
    SofarPrefix(gates, i, j);
    SofarPrefix(gates, i, j + 1);
    DeclsSnoc(taken, sofar, d);
    assert d in sofar + [d];
    assert forall x :: x in sofar + [d] <==> x in sofar || x == d;
    if DeclsOk(taken, AllDecls(gates)) {
      DeclsPrefix(taken, sofar + [d], AllDecls(gates));
    }
  }

  lemma NoDecls(taken: set<MemoryID>)
    ensures AllDecls([]) == [] && DeclsOk(taken, []) && Ids([]) == {}
  {
  }

  /** The nested part of the check. */
  method ValidateNested(gates: seq<IngressGate>, taken: set<MemoryID>) returns (ok: bool)
    ensures ok == (ListensOk(gates) && DeclsOk(taken, AllDecls(gates)))
  {
    hide AllDecls, Sofar, DeclsOk, DefOk, Ids;
    var seen := taken;
    NoDecls(taken);
    for i := 0 to |gates|
      invariant ListensOk(gates[..i])
      invariant DeclsOk(taken, AllDecls(gates[..i]))
      invariant seen == taken + Ids(AllDecls(gates[..i]))
    {
      var l := gates[i];
      assert gates[..i + 1] == gates[..i] + [l];
      SofarEnds(gates, i);
      if |l.memory| == 0 { continue; }
      var port := ParseListenPort(l.listen);
      if port.None? { return false; }
      for j := 0 to |l.memory|
        invariant DeclsOk(taken, Sofar(gates, i, j))
        invariant seen == taken + Ids(Sofar(gates, i, j))
      {
        TakeOne(taken, gates, i, j);
        var good := ValidateDef(port.value, l.memory[j]);
        if !good { return false; }
        var id := MemoryID(port.value, l.memory[j].unitID);
        if id in seen { return false; }
        seen := seen + {id};
      }
    }
    assert gates[..|gates|] == gates;
    return true;
  }

  method ValidateAllMemories(cfg: Config) returns (ok: bool)
    ensures ok == MemoriesOk(cfg)
  {
    var seen: set<MemoryID>;
    ok, seen := ValidateLegacy(cfg.memories);
    if ok {
      ok := ValidateNested(cfg.ingress, seen);
    }
  }

  predicate ConfigOk(cfg: Config) { IngressOk(cfg.ingress) && MemoriesOk(cfg) }

  /** Structural validation accepts exactly the well-formed configurations. */
  method Validate(cfg: Config) returns (ok: bool)
    ensures ok == ConfigOk(cfg)
  {
    ok := ValidateIngress(cfg.ingress);
    if ok {
      ok := ValidateAllMemories(cfg);
    }
  }
}
