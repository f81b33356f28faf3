/** A validated configuration becomes exactly the memories and rules it declares. */
module Built {
  import opened Words
  import opened Outcomes
  import opened Layouts
  import opened Images
  import opened MemoryCore
  import opened Stores
  import opened Authorities
  import opened Pdus
  import opened Dispatching
  import opened Histories
  import opened Gates
  import opened Configs
  import opened Builders

  predicate Distinct(decls: seq<Decl>) {
    forall i, j | 0 <= i < j < |decls| :: decls[i].id != decls[j].id
  }

  lemma DistinctInit(decls: seq<Decl>)
    requires Distinct(decls) && decls != []
    ensures var init, d := decls[..|decls| - 1], decls[|decls| - 1];
            Distinct(init) && d.id !in Ids(init) && decls == init + [d]
            && Ids(decls) == Ids(init) + {d.id}
  {
    var init, d := decls[..|decls| - 1], decls[|decls| - 1];
    assert decls == init + [d];
    assert forall x :: x in decls <==> x in init || x == d;
  }

  lemma OneMoreKey<K, V>(s: map<K, V>, k: K, v: V)
    requires k !in s
    ensures s[k := v].Keys == s.Keys + {k} && |s[k := v]| == |s| + 1
  {
    assert |s[k := v].Keys| == |s.Keys| + 1;
  }

  /** Building succeeds when every declaration can be built; with distinct identities none of them
      overwrites another. */
  lemma {:induction false} BuildAllExact(decls: seq<Decl>)
    requires Distinct(decls)
    ensures BuildAll(decls).Some? <==> forall d | d in decls :: Buildable(d)
    ensures BuildAll(decls).Some? ==>
              var s := BuildAll(decls).value;
              && s.Keys == Ids(decls) && |s| == |decls|
              && forall d | d in decls :: s[d.id] == Blank(LayoutsOf(d.def), SealOf(d.def))
    decreases |decls|
  {
    hide Buildable, Blank, LayoutsOf, SealOf, Distinct;
    if decls != [] {
      var init, d := decls[..|decls| - 1], decls[|decls| - 1];
      DistinctInit(decls);
      BuildAllExact(init);
      assert forall x :: x in decls <==> x in init || x == d;
      if BuildAll(decls).Some? {
        var s, t := BuildAll(init).value, BuildAll(decls).value;
        OneMoreKey(s, d.id, t[d.id]);
        forall x | x in init
          ensures t[x.id] == s[x.id]
        {
          assert x.id in Ids(init);
        }
      }
    }
  }

  /** The memory has exactly the addresses of the definition, each holding zero, and its flag. */
  ghost predicate Declared(m: Image, def: MemoryDefinition) {
    && (forall a :: a in m.coils <==> def.coils.start <= a < def.coils.start + def.coils.count)
    && (forall a :: a in m.discreteInputs <==>
          def.discreteInputs.start <= a < def.discreteInputs.start + def.discreteInputs.count)
    && (forall a :: a in m.holdingRegs <==> def.holdingRegs.start <= a < def.holdingRegs.start + def.holdingRegs.count)
    && (forall a :: a in m.inputRegs <==> def.inputRegs.start <= a < def.inputRegs.start + def.inputRegs.count)
    && true !in m.coils.Values && true !in m.discreteInputs.Values
    && (forall a | a in m.holdingRegs :: m.holdingRegs[a] == 0)
    && (forall a | a in m.inputRegs :: m.inputRegs[a] == 0)
    && m.stateSealing.Some? == def.stateSealing.Some?
    && (m.stateSealing.Some? ==> m.stateSealing.value == StateSealingDef(COILS, def.stateSealing.value.address))
  }

  lemma AddressesOf(a: AreaConfig)
    ensures forall x :: x in Addresses(AreaOfConfig(a)) <==> a.start <= x < a.start + a.count
  {
    assert a.count > 0 ==> forall x :: AreaOfConfig(a).value.Covers(x) <==> a.start <= x < a.start + a.count;
  }

  lemma BlankDeclared(def: MemoryDefinition)
    ensures Declared(Blank(LayoutsOf(def), SealOf(def)), def)
  {
    AddressesOf(def.coils);
    AddressesOf(def.discreteInputs);
    AddressesOf(def.holdingRegs);
    AddressesOf(def.inputRegs);
  }

  /** A validated definition can be built exactly when its unit id is not 0. */
  lemma ValidBuildable(d: Decl)
    requires DefOk(d.id.port, d.def) && d.id.unitID == d.def.unitID
    ensures Buildable(d) <==> d.def.unitID != 0
    ensures FreshMemory(Blank(LayoutsOf(d.def), SealOf(d.def)))
  {
  }

  lemma {:induction false} DeclIDs(gates: seq<IngressGate>)
    ensures forall d | d in AllDecls(gates) :: d.id.unitID == d.def.unitID
  {
    if gates != [] {
      DeclIDs(gates[..|gates| - 1]);
    }
  }

  /** A validated configuration is built exactly when it declares no legacy memory and no nested unit
      id 0; then there is one memory for each definition, as it was declared, all zero, and no other. */
  lemma ValidatedBuilds(cfg: Config)
    requires ConfigOk(cfg)
    ensures StoreBuilt(cfg).Some? <==>
              cfg.memories == map[] && forall d | d in AllDecls(cfg.ingress) :: d.def.unitID != 0
    ensures StoreBuilt(cfg).Some? ==>
              var s, decls := StoreBuilt(cfg).value, AllDecls(cfg.ingress);
              && s.Keys == Ids(decls) && |s| == |decls|
              && (forall d | d in decls :: Declared(s[d.id], d.def))
              && (forall mid | mid in s :: FreshMemory(s[mid]))
  {
    hide AllDecls, Buildable, Declared, FreshMemory, Blank, BuildAll, DefOk;
    var decls := AllDecls(cfg.ingress);
    DeclIDs(cfg.ingress);
    BuildAllExact(decls);
    forall d | d in decls
      ensures Buildable(d) <==> d.def.unitID != 0
      ensures Declared(Blank(LayoutsOf(d.def), SealOf(d.def)), d.def)
      ensures FreshMemory(Blank(LayoutsOf(d.def), SealOf(d.def)))
    {
      ValidBuildable(d);
      BlankDeclared(d.def);
    }
  }

  lemma SealOfFresh(m: Image, n: Image)
    requires FreshMemory(m) && SameFrame(m, n) && m.stateSealing.Some?
    ensures var seal := n.stateSealing.value; n.ReadBits(seal.area, seal.address, 1, [0]).Ok?
  {
    assert n.layouts.coils.value.Contains(n.stateSealing.value.address, 1);
  }

  /** In a store built from a validated configuration, the handler's read of a sealing flag never
      fails, whatever has been done to the store in the meantime. */
  lemma SealReadable(cfg: Config, log: seq<Access>, mid: MemoryID)
    requires ConfigOk(cfg) && StoreBuilt(cfg).Some? && mid in StoreBuilt(cfg).value
    ensures var s := Replay(StoreBuilt(cfg).value, log);
            && mid in s && s[mid].stateSealing == StoreBuilt(cfg).value[mid].stateSealing
            && (s[mid].stateSealing.Some? ==>
                  var seal := s[mid].stateSealing.value;
                  s[mid].ReadBits(seal.area, seal.address, 1, [0]).Ok?)
  {
    hide StoreBuilt, Replay, ConfigOk, FreshMemory, Declared, AllDecls;
    ValidatedBuilds(cfg);
    var s := StoreBuilt(cfg).value;
    ReplayShape(s, log);
    if s[mid].stateSealing.Some? {
      SealOfFresh(s[mid], Replay(s, log)[mid]);
    }
  }

  /** From configuration to every interleaving: connections on a store built from a validated
      configuration get nothing but Device Busy about a memory declared with a sealing flag, as long as
      raw ingest has not written 1 to that flag. */
  lemma BuiltStaysShut(cfg: Config, d: Decl, m: Machine, auth: Auth, schedule: seq<(int, bool)>)
    requires ConfigOk(cfg) && StoreBuilt(cfg) == Some(m.store) && Initial(m)
    requires d in AllDecls(cfg.ingress) && d.def.stateSealing.Some?
    ensures d.id in m.store && m.store[d.id].stateSealing.Some?
    ensures m.store[d.id].stateSealing.value.address == d.def.stateSealing.value.address
    ensures !IngestOpened(m.store, Exec(m, auth, schedule).log, d.id) ==>
              forall reply | reply in Exec(m, auth, schedule).replies && Target(reply.req) == d.id ::
                reply.Pdu() == BuildExceptionPDU(reply.req.functionCode, DEVICE_BUSY)
  {
    hide StoreBuilt, ConfigOk, AllDecls, FreshMemory, IngestOpened, Exec;
    ValidatedBuilds(cfg);
    assert d.id in Ids(AllDecls(cfg.ingress));
    if !IngestOpened(m.store, Exec(m, auth, schedule).log, d.id) {
      ModbusNeverUnseals(m, auth, schedule, d.id);
    }
  }

  // Policies.

  function PolicyIds(decls: seq<Decl>): set<MemoryID> { set d | d in decls && d.def.policy.Some? :: d.id }

  lemma PolicyIdsWithin(decls: seq<Decl>)
    ensures PolicyIds(decls) <= Ids(decls)
    ensures PolicyIds([]) == {}
  {
  }

  lemma PolicyIdsSnoc(decls: seq<Decl>, d: Decl)
    ensures PolicyIds(decls + [d]) == PolicyIds(decls) + if d.def.policy.Some? then {d.id} else {}
  {
    assert forall x :: x in decls + [d] <==> x in decls || x == d;
  }

  /** `all` is `out` with the declared policies added. */
  predicate Adds(out: Policies, decls: seq<Decl>, all: Policies) {
    && all.Keys == out.Keys + PolicyIds(decls)
    && (forall d | d in decls && d.def.policy.Some? :: d.id in all && all[d.id] == RulesOf(d.def.policy.value))
    && (forall mid | mid in out :: mid in all && all[mid] == out[mid])
  }

  lemma AddsOne(out: Policies, decls: seq<Decl>, d: Decl, all: Policies)
    requires Adds(out, decls, all) && d.id !in Ids(decls) && d.id !in out
    ensures d.id !in all
    ensures Adds(out, decls + [d],
                 if d.def.policy.None? then all else all[d.id := RulesOf(d.def.policy.value)])
  {
    hide RulesOf, PolicyIds;
    PolicyIdsWithin(decls);
    PolicyIdsSnoc(decls, d);
    forall x | x in decls
      ensures x.id != d.id
    {
      assert x.id in Ids(decls);
    }
  }

  /** Adding the policies of declarations with identities of their own. */
  lemma {:induction false} AddPoliciesExact(out: Policies, decls: seq<Decl>)
    requires Distinct(decls) && out.Keys !! Ids(decls)
    ensures AddPolicies(out, decls).Some? <==> forall d | d in decls :: PolicyBuildable(d.def)
    ensures AddPolicies(out, decls).Some? ==> Adds(out, decls, AddPolicies(out, decls).value)
    decreases |decls|
  {
    PolicyIdsWithin([]);
    assert Adds(out, [], out);
    hide PolicyBuildable, RulesOf, PolicyIds, Distinct, Adds;
    if decls != [] {
      var init, d := decls[..|decls| - 1], decls[|decls| - 1];
      DistinctInit(decls);
      AddPoliciesExact(out, init);
      assert forall x :: x in decls <==> x in init || x == d;
      if d.def.policy.None? { NoPolicy(d.def); }
      if AddPolicies(out, init).Some? {
        AddsOne(out, init, d, AddPolicies(out, init).value);
      }
    }
  }

  /** What parsing can yield: a prefix contains a slash, and an address is never the invalid one. */
  predicate WellRead(item: IpItem) {
    && (item.asPrefix.Some? ==> item.slash)
    && (item.asAddr.Some? ==> !item.asAddr.value.Invalid?)
  }

  /** A rule that validation accepts can still be refused by the builder: when it has no id, or when an
      entry with a slash in it is an address (the slash is in its zone) but no prefix. */
  predicate RuleUsable(r: PolicyRuleConfig) {
    r.id != "" && forall i | 0 <= i < |r.sourceIP| :: r.sourceIP[i].blank || !r.sourceIP[i].slash || r.sourceIP[i].asPrefix.Some?
  }

  lemma ValidRuleBuildable(r: PolicyRuleConfig)
    requires RuleOk(r) && forall item | item in r.sourceIP :: WellRead(item)
    ensures RuleBuildable(r) <==> RuleUsable(r)
  {
    forall i | 0 <= i < |r.sourceIP|
      ensures (r.sourceIP[i].blank || PrefixOf(r.sourceIP[i]).Some?) <==>
              (r.sourceIP[i].blank || !r.sourceIP[i].slash || r.sourceIP[i].asPrefix.Some?)
    {
      assert WellRead(r.sourceIP[i]);
    }
  }

  /** A rule whose only entry is an address with a slash in its zone. */
  function SlashedRule(): PolicyRuleConfig {
    PolicyRuleConfig("r", [IpItem(false, true, None, Some(V6(1, true)))], [3])
  }

  /** It is valid, and refused. */
  lemma SlashedZone()
    ensures var r := SlashedRule(); RuleOk(r) && WellRead(r.sourceIP[0]) && !RuleBuildable(r)
  {
  }

  /** All rules of all policies, legacy and nested. */
  ghost predicate RuleDeclared(cfg: Config, r: PolicyRuleConfig) {
    || (exists k :: k in cfg.memories && RuleIn(cfg.memories[k], r))
    || (exists d :: d in AllDecls(cfg.ingress) && RuleIn(d.def, r))
  }

  predicate RuleIn(def: MemoryDefinition, r: PolicyRuleConfig) { def.policy.Some? && r in def.policy.value }

  lemma PolicyUsable(def: MemoryDefinition)
    requires PolicyOk(def.policy)
    requires forall r, item | RuleIn(def, r) && item in r.sourceIP :: WellRead(item)
    ensures PolicyBuildable(def) <==> forall r | RuleIn(def, r) :: RuleUsable(r)
  {
    hide RuleUsable, RuleBuildable, WellRead;
    if def.policy.Some? {
      forall r | r in def.policy.value
        ensures RuleBuildable(r) <==> RuleUsable(r)
      {
        assert RuleIn(def, r);
        ValidRuleBuildable(r);
      }
      assert forall i | 0 <= i < |def.policy.value| :: RuleIn(def, def.policy.value[i]);
    }
  }

  /** The rules of a validated configuration are built exactly when each has an id and none has such an
      entry; then exactly the memories that declare a policy have one, and it is what they declare. */
  lemma ValidatedPolicies(cfg: Config, r: Option<Policies>)
    requires ConfigOk(cfg) && PoliciesBuilt(cfg, r)
    requires forall rule, item | RuleDeclared(cfg, rule) && item in rule.sourceIP :: WellRead(item)
    ensures r.Some? <==> forall rule | RuleDeclared(cfg, rule) :: RuleUsable(rule)
    ensures r.Some? ==>
              && r.value.Keys == LegacyPolicyIds(cfg.memories) + PolicyIds(AllDecls(cfg.ingress))
              && (forall d | d in AllDecls(cfg.ingress) && d.def.policy.Some? ::
                    r.value[d.id] == RulesOf(d.def.policy.value))
              && (forall k | k in cfg.memories && cfg.memories[k].policy.Some? ::
                    r.value[LegacyID(cfg.memories[k])] == RulesOf(cfg.memories[k].policy.value))
  {
    hide AllDecls, RuleUsable, PolicyBuildable, AddPolicies, RulesOf, WellRead, DefOk, PolicyOk, RuleIn, PolicyIds;
    var decls := AllDecls(cfg.ingress);
    forall d | d in decls
      ensures PolicyBuildable(d.def) <==> forall rule | RuleIn(d.def, rule) :: RuleUsable(rule)
    {
      DefPolicy(d.id.port, d.def);
      assert forall rule | RuleIn(d.def, rule) :: RuleDeclared(cfg, rule);
      PolicyUsable(d.def);
    }
    forall k | k in cfg.memories
      ensures PolicyBuildable(cfg.memories[k]) <==> forall rule | RuleIn(cfg.memories[k], rule) :: RuleUsable(rule)
    {
      DefPolicy(cfg.memories[k].port, cfg.memories[k]);
      assert forall rule | RuleIn(cfg.memories[k], rule) :: RuleDeclared(cfg, rule);
      PolicyUsable(cfg.memories[k]);
    }
    if LegacyPoliciesOk(cfg.memories) {
      var legacy :| LegacyPolicies(cfg.memories, cfg.memories.Keys, legacy) && r == AddPolicies(legacy, decls);
      LegacyWithin(cfg.memories, legacy);
      AddPoliciesExact(legacy, decls);
    }
  }

  lemma DefPolicy(port: u16, def: MemoryDefinition)
    requires DefOk(port, def)
    ensures PolicyOk(def.policy)
  {
  }

  function LegacyPolicyIds(memories: map<string, MemoryDefinition>): set<MemoryID> {
    set k | k in memories && memories[k].policy.Some? :: LegacyID(memories[k])
  }

  lemma LegacyWithin(memories: map<string, MemoryDefinition>, legacy: Policies)
    requires LegacyPolicies(memories, memories.Keys, legacy)
    ensures legacy.Keys == LegacyPolicyIds(memories) && legacy.Keys <= LegacyIDs(memories)
  {
  }

  /** Without legacy memories, which is when a store is built, policies are for memories of the store. */
  lemma PoliciesForMemories(cfg: Config, r: Option<Policies>)
    requires ConfigOk(cfg) && StoreBuilt(cfg).Some? && PoliciesBuilt(cfg, r) && r.Some?
    ensures r == AddPolicies(map[], AllDecls(cfg.ingress))
    ensures r.value.Keys == PolicyIds(AllDecls(cfg.ingress)) <= StoreBuilt(cfg).value.Keys
  {
    hide AllDecls, AddPolicies, StoreBuilt, RulesOf;
    ValidatedBuilds(cfg);
    var legacy :| LegacyPolicies(cfg.memories, cfg.memories.Keys, legacy) && r == AddPolicies(legacy, AllDecls(cfg.ingress));
    NoLegacyPolicies(cfg.memories, legacy);
    AddPoliciesExact(map[], AllDecls(cfg.ingress));
    PolicyIdsWithin(AllDecls(cfg.ingress));
  }

  // Definition by definition.

  /** The identity of memory `j` of listener `i`: the port it listens on, and the unit id. */
  function Identity(cfg: Config, i: nat, j: nat): MemoryID
    requires i < |cfg.ingress| && j < |cfg.ingress[i].memory|
    requires cfg.ingress[i].listen.port.Some? && 1 <= cfg.ingress[i].listen.port.value <= 65535
  {
    MemoryID(cfg.ingress[i].listen.port.value, cfg.ingress[i].memory[j].unitID)
  }

  lemma DeclaredThere(cfg: Config, i: nat, j: nat)
    requires ListensOk(cfg.ingress) && i < |cfg.ingress| && j < |cfg.ingress[i].memory|
    ensures cfg.ingress[i].listen.port.Some? && 1 <= cfg.ingress[i].listen.port.value <= 65535
    ensures Decl(Identity(cfg, i, j), cfg.ingress[i].memory[j]) in AllDecls(cfg.ingress)
  {
    hide AllDecls, Sofar;
    assert ListenOk(cfg.ingress[i]);
    DeclAt(cfg.ingress, i, j);
    SofarPrefix(cfg.ingress, i, j);
    SofarPrefix(cfg.ingress, i, j + 1);
    var d, all := DeclsOf(cfg.ingress[i])[j], Sofar(cfg.ingress, i, j + 1);
    assert all[|all| - 1] == d;
    assert d in all;
  }

  /** Each memory of each listener is in the store, under its port and unit id, as it was declared. */
  lemma EachBuilt(cfg: Config, i: nat, j: nat)
    requires ConfigOk(cfg) && StoreBuilt(cfg).Some? && i < |cfg.ingress| && j < |cfg.ingress[i].memory|
    ensures cfg.ingress[i].listen.port.Some? && 1 <= cfg.ingress[i].listen.port.value <= 65535
    ensures Identity(cfg, i, j) in StoreBuilt(cfg).value
    ensures Declared(StoreBuilt(cfg).value[Identity(cfg, i, j)], cfg.ingress[i].memory[j])
  {
    DeclaredThere(cfg, i, j);
    hide AllDecls, StoreBuilt, Declared, FreshMemory, ConfigOk;
    ValidatedBuilds(cfg);
    assert Identity(cfg, i, j) in Ids(AllDecls(cfg.ingress));
  }

  // From configured rules to decisions.

  /** An entry of the rule names the source. */
  predicate RuleCovers(r: PolicyRuleConfig, a: Addr) { exists item | item in r.sourceIP :: Names(item, a) }

  /** The first rule that covers the source lists the function code. */
  predicate Allows(rules: seq<PolicyRuleConfig>, a: Addr, fc: byte) {
    exists i | 0 <= i < |rules| ::
      RuleCovers(rules[i], a) && fc in rules[i].allowFC && forall k | 0 <= k < i :: !RuleCovers(rules[k], a)
  }

  lemma RuleReached(r: PolicyRuleConfig, a: Addr)
    ensures Reached(Some(RuleOf(r)), a) <==> RuleCovers(r, a)
  {
    ListMatches(r.sourceIP, a);
  }

  /** A memory whose policy was built from configured rules is open to exactly what they allow. */
  lemma ConfiguredPermits(policies: Policies, mid: MemoryID, rules: seq<PolicyRuleConfig>, a: Addr, fc: byte)
    requires mid in policies && policies[mid] == RulesOf(rules)
    ensures Permitted(policies, mid, a, fc) <==> Allows(rules, a, fc)
  {
    forall k | 0 <= k < |rules|
      ensures Reached(policies[mid][k], a) == RuleCovers(rules[k], a)
      ensures fc in RuleOf(rules[k]).allow <==> fc in rules[k].allowFC
    {
      RuleReached(rules[k], a);
    }
    hide Reached, RuleCovers, RuleOf;
    if i :| 0 <= i < |rules| && RuleCovers(rules[i], a) && fc in rules[i].allowFC
            && forall k | 0 <= k < i :: !RuleCovers(rules[k], a) {
      assert Reached(policies[mid][i], a);
    }
  }

  /** From configuration to decision: a request to memory `j` of listener `i` is allowed if and only if the
      memory declares a policy and the first of its rules, in the order written, with an entry that names
      the source lists the function code; otherwise it is denied with 0x01. */
  lemma ConfiguredDecision(cfg: Config, r: Option<Policies>, auth: Auth, i: nat, j: nat, a: Addr, fc: byte)
    requires ConfigOk(cfg) && PoliciesBuilt(cfg, r) && r == Some(auth.policies) && auth.flags == map[]
    requires forall rule, item | RuleDeclared(cfg, rule) && item in rule.sourceIP :: WellRead(item)
    requires i < |cfg.ingress| && j < |cfg.ingress[i].memory|
    ensures cfg.ingress[i].listen.port.Some? && 1 <= cfg.ingress[i].listen.port.value <= 65535
    ensures var policy := cfg.ingress[i].memory[j].policy;
            Judge(auth, Identity(cfg, i, j), a, fc) ==
            if policy.Some? && Allows(policy.value, a, fc) then Allow else Deny(0x01)
  {
    DeclaredThere(cfg, i, j);
    var mid, def := Identity(cfg, i, j), cfg.ingress[i].memory[j];
    hide AllDecls, Permitted, Allows, RulesOf, PoliciesBuilt, WellRead, RuleDeclared, Judge;
    ValidatedPolicies(cfg, r);
    JudgeExactly(auth, mid, a, fc);
    if def.policy.Some? {
      ConfiguredPermits(auth.policies, mid, def.policy.value, a, fc);
    } else {
      NoPolicyThere(cfg, mid, def);
    }
  }

  /** Validation sees to it that no rule lets function code 0 through. */
  lemma ZeroNeverAllowed(cfg: Config, i: nat, j: nat, a: Addr)
    requires ConfigOk(cfg) && i < |cfg.ingress| && j < |cfg.ingress[i].memory|
    ensures var policy := cfg.ingress[i].memory[j].policy; policy.Some? ==> !Allows(policy.value, a, 0)
  {
    DeclaredThere(cfg, i, j);
    hide AllDecls;
    DefPolicy(Identity(cfg, i, j).port, cfg.ingress[i].memory[j]);
  }

  lemma NoPolicyThere(cfg: Config, mid: MemoryID, def: MemoryDefinition)
    requires ConfigOk(cfg) && Decl(mid, def) in AllDecls(cfg.ingress) && def.policy.None?
    ensures mid !in LegacyPolicyIds(cfg.memories) + PolicyIds(AllDecls(cfg.ingress))
  {
    hide AllDecls, DefOk;
  }

  // Valid configurations that do not start.

  function Plain(unitID: u16, policy: Option<seq<PolicyRuleConfig>>): MemoryDefinition {
    var none := AreaConfig(0, 0);
    MemoryDefinition(502, unitID, AreaConfig(0, 8), none, none, none, None, policy)
  }

  /** One listener on port 502 with one memory. */
  function Nested(def: MemoryDefinition): Config {
    Config([IngressGate("g", Listen(false, Some(502)), [def])], map[])
  }

  function Legacy(def: MemoryDefinition): Config { Config([], map["m" := def]) }

  lemma NestedDecls(def: MemoryDefinition)
    ensures AllDecls(Nested(def).ingress) == [Decl(MemoryID(502, def.unitID), def)]
    ensures ListensOk(Nested(def).ingress) && IngressOk(Nested(def).ingress)
  {
    var gates := Nested(def).ingress;
    assert gates[..0] == [] && AllDecls([]) == [];
    assert DeclsOf(gates[0]) == [Decl(MemoryID(502, def.unitID), def)];
  }

  lemma NestedOk(unitID: u16, policy: Option<seq<PolicyRuleConfig>>)
    requires unitID <= 0xFF && PolicyOk(policy)
    ensures ConfigOk(Nested(Plain(unitID, policy)))
  {
    hide AllDecls;
    NestedDecls(Plain(unitID, policy));
  }

  lemma UnitZeroNotBuilt()
    ensures ConfigOk(Nested(Plain(0, None))) && StoreBuilt(Nested(Plain(0, None))).None?
  {
    hide AllDecls, StoreBuilt, ConfigOk;
    NestedOk(0, None);
    NestedDecls(Plain(0, None));
    ValidatedBuilds(Nested(Plain(0, None)));
    assert Decl(MemoryID(502, 0), Plain(0, None)) in AllDecls(Nested(Plain(0, None)).ingress);
  }

  lemma LegacyNotBuilt()
    ensures ConfigOk(Legacy(Plain(1, None))) && StoreBuilt(Legacy(Plain(1, None))).None?
  {
    assert "m" in Legacy(Plain(1, None)).memories;
  }

  /** A rule without an id, and the rule with the slash in a zone, stop start-up too. */
  lemma BadRulesNotBuilt(rule: PolicyRuleConfig, r: Option<Policies>)
    requires rule == PolicyRuleConfig("", [], [3]) || rule == SlashedRule()
    requires PoliciesBuilt(Nested(Plain(1, Some([rule]))), r)
    ensures ConfigOk(Nested(Plain(1, Some([rule])))) && r.None?
  {
    var def := Plain(1, Some([rule]));
    hide AllDecls, ConfigOk;
    SlashedZone();
    assert RuleOk(rule) && !RuleBuildable(rule);
    NestedOk(1, Some([rule]));
    NestedDecls(def);
    assert !PolicyBuildable(def) by {
      assert def.policy.value[0] == rule;
    }
    OneBadPolicy(Decl(MemoryID(502, 1), def));
  }

  lemma OneBadPolicy(d: Decl)
    requires d.def.policy.Some? && !PolicyBuildable(d.def)
    ensures forall out: Policies :: AddPolicies(out, [d]).None?
  {
    assert [d][..0] == [];
  }
}
