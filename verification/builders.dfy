/** What a configuration becomes: the store of memories and the access rules. */
module Builders {
  import opened Words
  import opened Outcomes
  import opened Layouts
  import opened Images
  import opened MemoryCore
  import opened Stores
  import opened Authorities
  import opened Configs

  // The store.

  /** An area without elements is not allocated. */
  function AreaOfConfig(a: AreaConfig): Option<AreaLayout> {
    if a.count > 0 then Some(AreaLayout(a.start, a.count)) else None
  }

  function LayoutsOf(def: MemoryDefinition): MemoryLayouts {
    MemoryLayouts(AreaOfConfig(def.coils), AreaOfConfig(def.discreteInputs),
                  AreaOfConfig(def.holdingRegs), AreaOfConfig(def.inputRegs))
  }

  function SealOf(def: MemoryDefinition): Option<StateSealingDef> {
    if def.stateSealing.Some? then Some(StateSealingDef(COILS, def.stateSealing.value.address)) else None
  }

  /** The declaration can be turned into a memory and registered. */
  predicate Buildable(d: Decl) {
    LayoutsOf(d.def).Validate().None? && ValidateStateSealing(d.def) && d.id.Validate().None?
  }

  /** The memories built from a list of declarations; None if one of them cannot be built. */
  function BuildAll(decls: seq<Decl>): Option<Contents> {
    if decls == [] then Some(map[])
    else
      var d, before := decls[|decls| - 1], BuildAll(decls[..|decls| - 1]);
      if before.None? || !Buildable(d) then None
      else Some(before.value[d.id := Blank(LayoutsOf(d.def), SealOf(d.def))])
  }

  function StoreBuilt(cfg: Config): Option<Contents> {
    if cfg.memories != map[] || !ListensOk(cfg.ingress) then None else BuildAll(AllDecls(cfg.ingress))
  }

  /** The memory of one definition, with its sealing flag. */
  method BuildMemory(def: MemoryDefinition) returns (r: Option<Memory>)
    ensures r.Some? <==> LayoutsOf(def).Validate().None? && ValidateStateSealing(def)
    ensures r.Some? ==> fresh(r.value.Repr) && r.value.Valid() && r.value.Abs() == Blank(LayoutsOf(def), SealOf(def))
  {
    hide Blank, Memory.Abs, Memory.Valid;
    var layouts := MemoryLayouts(None, None, None, None);
    if def.coils.count > 0 {
      layouts := layouts.(coils := Some(AreaLayout(def.coils.start, def.coils.count)));
    }
    if def.discreteInputs.count > 0 {
      layouts := layouts.(discreteInputs := Some(AreaLayout(def.discreteInputs.start, def.discreteInputs.count)));
    }
    if def.holdingRegs.count > 0 {
      layouts := layouts.(holdingRegs := Some(AreaLayout(def.holdingRegs.start, def.holdingRegs.count)));
    }
    if def.inputRegs.count > 0 {
      layouts := layouts.(inputRegs := Some(AreaLayout(def.inputRegs.start, def.inputRegs.count)));
    }
    var mem := Memory.NewMemory(layouts);
    if mem.Err? { return None; }
    if def.stateSealing.Some? {
      if def.stateSealing.value.area != "coil" { return None; }
      if def.coils.count == 0 { return None; }
      var endExclusive := def.coils.start + def.coils.count;
      var addr := def.stateSealing.value.address;
      if addr < def.coils.start || addr >= endExclusive { return None; }
      mem.value.SetStateSealing(StateSealingDef(COILS, addr));
    }
    BlankSealed(layouts, SealOf(def));
    return Some(mem.value);
  }

  /** Builds one memory and registers it. */
  method BuildOneMemory(store: Store, port: u16, def: MemoryDefinition) returns (ok: bool)
    requires store.Valid()
    modifies store
    ensures store.Valid() && fresh(store.Repr - old(store.Repr))
    ensures var d := Decl(MemoryID(port, def.unitID), def);
            && ok == Buildable(d)
            && (ok ==> store.contents == old(store.contents)[d.id := Blank(LayoutsOf(def), SealOf(def))])
  {
    hide Blank, Memory.Abs, Memory.Valid, Store.Valid;
    var mem := BuildMemory(def);
    if mem.None? { return false; }
    var err := store.Add(MemoryID(port, def.unitID), mem.value);
    ok := err.None?;
  }

  /** What the builders' loops know about the declaration they are at. */
  lemma DeclAt(gates: seq<IngressGate>, i: nat, j: nat)
    requires i < |gates| && j < |gates[i].memory| && ParseListenPort(gates[i].listen).Some?
    ensures DeclsOf(gates[i])[j] ==
            Decl(MemoryID(ParseListenPort(gates[i].listen).value, gates[i].memory[j].unitID), gates[i].memory[j])
  {
  }

  lemma BlankSealed(layouts: MemoryLayouts, seal: Option<StateSealingDef>)
    ensures Blank(layouts, None).(stateSealing := seal) == Blank(layouts, seal)
  {
  }

  /** What a failed prefix means for the whole. */
  lemma {:induction false} BuildPrefix(decls: seq<Decl>, all: seq<Decl>)
    requires decls <= all && BuildAll(decls).None?
    ensures BuildAll(all).None?
  {
    if decls == all {
      return;
    }
    var init := all[..|all| - 1];
    assert decls <= init;
    BuildPrefix(decls, init);
  }

  /** One turn of the builder's loop. */
  lemma BuildOne(gates: seq<IngressGate>, i: nat, j: nat)
    requires i < |gates| && j < |gates[i].memory|
    ensures var d, before := DeclsOf(gates[i])[j], BuildAll(Sofar(gates, i, j));
            var after := BuildAll(Sofar(gates, i, j + 1));
            && (before.Some? && Buildable(d) ==>
                  after == Some(before.value[d.id := Blank(LayoutsOf(d.def), SealOf(d.def))]))
            && (before.None? || !Buildable(d) ==> BuildAll(AllDecls(gates)).None?)
  {
    hide AllDecls, Buildable, Blank, Sofar;
    var d, sofar := DeclsOf(gates[i])[j], Sofar(gates, i, j);
    SofarPrefix(gates, i, j);
    SofarPrefix(gates, i, j + 1);
    assert (sofar + [d])[..|sofar + [d]| - 1] == sofar;
    if BuildAll(sofar).None? {
      BuildPrefix(sofar, AllDecls(gates));
    } else if !Buildable(d) {
      BuildPrefix(sofar + [d], AllDecls(gates));
    }
  }

  /** The nested part of the builder. */
  method BuildNested(gates: seq<IngressGate>) returns (r: Option<Store>)
    ensures r.Some? <==> ListensOk(gates) && BuildAll(AllDecls(gates)).Some?
    ensures r.Some? ==> r.value.Valid() && fresh(r.value) && fresh(r.value.Repr)
                        && BuildAll(AllDecls(gates)) == Some(r.value.contents)
  {
    hide AllDecls, Sofar, BuildAll, Buildable, Store.Valid, Blank, DeclsOf, LayoutsOf, SealOf;
    var store := new Store();
    NothingBuilt();
    for i := 0 to |gates|
      invariant forall k | 0 <= k < i :: ListenOk(gates[k])
      invariant store.Valid() && fresh(store.Repr)
      invariant BuildAll(AllDecls(gates[..i])) == Some(store.contents)
    {
      var l := gates[i];
      SofarEnds(gates, i);
      if |l.memory| == 0 { continue; }
      var port := ParseListenPort(l.listen);
      if port.None? { return None; }
      for j := 0 to |l.memory|
        invariant store.Valid() && fresh(store.Repr)
        invariant BuildAll(Sofar(gates, i, j)) == Some(store.contents)
      {
        BuildOne(gates, i, j);
        DeclAt(gates, i, j);
        var ok := BuildOneMemory(store, port.value, l.memory[j]);
        if !ok { return None; }
      }
    }
    assert gates[..|gates|] == gates;
    return Some(store);
  }

  method BuildMemoryStore(cfg: Config) returns (r: Option<Store>)
    ensures r.Some? <==> StoreBuilt(cfg).Some?
    ensures r.Some? ==> r.value.Valid() && fresh(r.value) && fresh(r.value.Repr)
                        && StoreBuilt(cfg) == Some(r.value.contents)
  {
    if |cfg.memories| > 0 { return None; }
    assert cfg.memories == map[];
    r := BuildNested(cfg.ingress);
  }

  lemma NothingBuilt()
    ensures AllDecls([]) == [] && BuildAll([]) == Some(map[])
  {
  }

  // The access rules.

  predicate RuleBuildable(r: PolicyRuleConfig) { r.id != "" && AllParse(r.sourceIP) }

  function RuleOf(r: PolicyRuleConfig): Rule {
    Rule(r.id, IPMatcher(Prefixes(r.sourceIP)), Codes(r.allowFC))
  }

  predicate PolicyBuildable(def: MemoryDefinition) {
    def.policy.Some? ==> forall i | 0 <= i < |def.policy.value| :: RuleBuildable(def.policy.value[i])
  }

  function RulesOf(rules: seq<PolicyRuleConfig>): Rules {
    seq(|rules|, i requires 0 <= i < |rules| => Some(RuleOf(rules[i])))
  }

  method BuildPolicyFromDef(def: MemoryDefinition) returns (r: Option<Rules>)
    requires def.policy.Some?
    ensures r == if PolicyBuildable(def) then Some(RulesOf(def.policy.value)) else None
  {
    var p: Rules := [];
    var rules := def.policy.value;
    for i := 0 to |rules|
      invariant forall k | 0 <= k < i :: RuleBuildable(rules[k])
      invariant p == RulesOf(rules[..i])
    {
      var r := NewRule(rules[i].id, rules[i].sourceIP, rules[i].allowFC);
      if r.None? { return None; }
      assert rules[..i + 1] == rules[..i] + [rules[i]];
      p := p + [r];
    }
    assert rules[..|rules|] == rules;
    return Some(p);
  }

  type Policies = map<MemoryID, Rules>

  /** The policies of a list of declarations, added to `out`; None if a rule cannot be built or an
      identity has a policy already. */
  function AddPolicies(out: Policies, decls: seq<Decl>): Option<Policies>
    decreases |decls|
  {
    if decls == [] then Some(out)
    else
      var d, before := decls[|decls| - 1], AddPolicies(out, decls[..|decls| - 1]);
      if before.None? || d.def.policy.None? then before
      else if d.id in before.value || !PolicyBuildable(d.def) then None
      else Some(before.value[d.id := RulesOf(d.def.policy.value)])
  }

  lemma {:induction false} PolicyPrefix(out: Policies, decls: seq<Decl>, all: seq<Decl>)
    requires decls <= all && AddPolicies(out, decls).None?
    ensures AddPolicies(out, all).None?
    decreases |all|
  {
    if decls == all {
      return;
    }
    var init := all[..|all| - 1];
    assert decls <= init;
    PolicyPrefix(out, decls, init);
  }

  /** One turn of the nested loop. */
  lemma PolicyOne(out: Policies, gates: seq<IngressGate>, i: nat, j: nat)
    requires i < |gates| && j < |gates[i].memory|
    requires AddPolicies(out, Sofar(gates, i, j)).Some?
    ensures var d, now := DeclsOf(gates[i])[j], AddPolicies(out, Sofar(gates, i, j)).value;
            var after := AddPolicies(out, Sofar(gates, i, j + 1));
            if d.def.policy.None? then after == Some(now)
            else if d.id in now || !PolicyBuildable(d.def) then AddPolicies(out, AllDecls(gates)).None?
            else after == Some(now[d.id := RulesOf(d.def.policy.value)])
  {
    hide AllDecls, PolicyBuildable, RulesOf, Sofar;
    var d, sofar := DeclsOf(gates[i])[j], Sofar(gates, i, j);
    SofarPrefix(gates, i, j);
    SofarPrefix(gates, i, j + 1);
    assert (sofar + [d])[..|sofar + [d]| - 1] == sofar;
    if AddPolicies(out, sofar + [d]).None? {
      PolicyPrefix(out, sofar + [d], AllDecls(gates));
    }
  }

  /** The legacy definitions under `keys` can all be built, and those with a policy have different identities. */
  predicate LegacyFine(memories: map<string, MemoryDefinition>, keys: set<string>)
    requires keys <= memories.Keys
  {
    && (forall k | k in keys :: PolicyBuildable(memories[k]))
    && (forall k, l | k in keys && l in keys && k != l && memories[k].policy.Some? && memories[l].policy.Some? ::
          LegacyID(memories[k]) != LegacyID(memories[l]))
  }

  predicate LegacyPoliciesOk(memories: map<string, MemoryDefinition>) { LegacyFine(memories, memories.Keys) }

  /** `out` holds the policies of the legacy definitions under `keys` and nothing else. */
  predicate LegacyPolicies(memories: map<string, MemoryDefinition>, keys: set<string>, out: Policies)
    requires keys <= memories.Keys
  {
    && out.Keys == (set k | k in keys && memories[k].policy.Some? :: LegacyID(memories[k]))
    && forall k | k in keys && memories[k].policy.Some? ::
         LegacyID(memories[k]) in out && out[LegacyID(memories[k])] == RulesOf(memories[k].policy.value)
  }

  /** One turn of the legacy loop. */
  lemma LegacyOne(memories: map<string, MemoryDefinition>, keys: set<string>, key: string, out: Policies)
    requires keys <= memories.Keys && key in memories && key !in keys
    requires LegacyFine(memories, keys) && LegacyPolicies(memories, keys, out)
    ensures var def := memories[key];
            if def.policy.None? then
              LegacyFine(memories, keys + {key}) && LegacyPolicies(memories, keys + {key}, out)
            else if LegacyID(def) in out || !PolicyBuildable(def) then !LegacyPoliciesOk(memories)
            else
              && LegacyFine(memories, keys + {key})
              && LegacyPolicies(memories, keys + {key}, out[LegacyID(def) := RulesOf(def.policy.value)])
  {
    var def := memories[key];
    if def.policy.None? { NoPolicy(def); }
    hide PolicyBuildable, RulesOf;
    if LegacyID(def) in out && def.policy.Some? {
      var k :| k in keys && memories[k].policy.Some? && LegacyID(memories[k]) == LegacyID(def);
    }
  }

  lemma LegacyStart(memories: map<string, MemoryDefinition>)
    ensures LegacyFine(memories, {}) && LegacyPolicies(memories, {}, map[])
    ensures LegacyPoliciesOk(memories) == LegacyFine(memories, memories.Keys)
  {
  }

  /** The map of legacy definitions is gone through in some order; the outcome does not depend on it. */
  method BuildLegacyPolicies(memories: map<string, MemoryDefinition>) returns (r: Option<Policies>)
    ensures r.Some? <==> LegacyPoliciesOk(memories)
    ensures r.Some? ==> LegacyPolicies(memories, memories.Keys, r.value)
  {
    LegacyStart(memories);
    Visited(memories.Keys);
    hide PolicyBuildable, RulesOf, LegacyFine, LegacyPolicies, LegacyPoliciesOk;
    var out: Policies := map[];
    var left := memories.Keys;
    ghost var all := memories.Keys;
    while left != {}
      invariant left <= all
      invariant LegacyFine(memories, all - left) && LegacyPolicies(memories, all - left, out)
      decreases |left|
    {
      var key :| key in left;
      Visit(all, left, key);
      LegacyOne(memories, all - left, key, out);
      var def := memories[key];
      left := left - {key};
      if def.policy.None? { continue; }
      var mid := MemoryID(def.port, def.unitID);
      if mid in out { return None; }
      var p := BuildPolicyFromDef(def);
      if p.None? { return None; }
      out := out[mid := p.value];
    }
    r := Some(out);
  }

  lemma NoPolicy(def: MemoryDefinition)
    requires def.policy.None?
    ensures PolicyBuildable(def)
  {
  }

  /** The nested part of the builder. */
  method BuildNestedPolicies(gates: seq<IngressGate>, legacy: Policies) returns (r: Option<Policies>)
    ensures r == if ListensOk(gates) then AddPolicies(legacy, AllDecls(gates)) else None
  {
    hide AllDecls, Sofar, PolicyBuildable, RulesOf, AddPolicies, DeclsOf;
    var out := legacy;
    NothingAdded(legacy);
    for i := 0 to |gates|
      invariant forall k | 0 <= k < i :: ListenOk(gates[k])
      invariant AddPolicies(legacy, AllDecls(gates[..i])) == Some(out)
    {
      var l := gates[i];
      SofarEnds(gates, i);
      if |l.memory| == 0 { continue; }
      var port := ParseListenPort(l.listen);
      if port.None? { return None; }
      for j := 0 to |l.memory|
        invariant AddPolicies(legacy, Sofar(gates, i, j)) == Some(out)
      {
        PolicyOne(legacy, gates, i, j);
        DeclAt(gates, i, j);
        var def := l.memory[j];
        if def.policy.None? { continue; }
        var mid := MemoryID(port.value, def.unitID);
        if mid in out {
          return None;
        }
        var p := BuildPolicyFromDef(def);
        if p.None? { return None; }
        out := out[mid := p.value];
      }
    }
    assert gates[..|gates|] == gates;
    r := Some(out);
  }

  /** What the builder returns: the legacy policies come first, and the nested ones are added to them. */
  ghost predicate PoliciesBuilt(cfg: Config, r: Option<Policies>) {
    if LegacyPoliciesOk(cfg.memories) && ListensOk(cfg.ingress) then
      exists legacy :: LegacyPolicies(cfg.memories, cfg.memories.Keys, legacy)
                       && r == AddPolicies(legacy, AllDecls(cfg.ingress))
    else r.None?
  }

  method BuildAuthorityPolicies(cfg: Config) returns (r: Option<Policies>)
    ensures PoliciesBuilt(cfg, r)
    ensures cfg.memories == map[] && ListensOk(cfg.ingress) ==> r == AddPolicies(map[], AllDecls(cfg.ingress))
  {
    hide AddPolicies, AllDecls, LegacyPolicies, LegacyPoliciesOk, ListensOk;
    r := BuildLegacyPolicies(cfg.memories);
    NoLegacy(cfg.memories);
    if r.None? { return; }
    NoLegacyPolicies(cfg.memories, r.value);
    r := BuildNestedPolicies(cfg.ingress, r.value);
  }

  lemma NoLegacyPolicies(memories: map<string, MemoryDefinition>, legacy: Policies)
    requires LegacyPolicies(memories, memories.Keys, legacy)
    ensures memories == map[] ==> legacy == map[]
  {
  }

  lemma NoLegacy(memories: map<string, MemoryDefinition>)
    ensures memories == map[] ==> LegacyPoliciesOk(memories)
  {
  }

  lemma NothingAdded(out: Policies)
    ensures AllDecls([]) == [] && AddPolicies(out, []) == Some(out)
  {
  }
}
