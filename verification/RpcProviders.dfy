/**
 * Which RPC providers are configured, and which is the default. Models resolveManagedProviders
 * (packages/sdp-rpc/src/relay.ts) and the second implementation of default selection,
 * resolveDefaultSolanaRpcUrl (packages/sdp-rpc/src/config.ts), each with its own list of vendors.
 */
module RpcProviders {
  import opened Wrappers

  datatype ProviderId = Triton | Helius | Alchemy | Quicknode | Validationcloud | Nodit | Default

  function Name(id: ProviderId): string {
    match id
    case Triton => "triton"
    case Helius => "helius"
    case Alchemy => "alchemy"
    case Quicknode => "quicknode"
    case Validationcloud => "validationcloud"
    case Nodit => "nodit"
    case Default => "default"
  }

  datatype Provider = Provider(id: ProviderId, url: string, headers: map<string, string>)

  /** The other implementation's view of a provider: no headers. */
  datatype Target = Target(id: ProviderId, url: string)

  /** The environment variables that both implementations read. */
  datatype Env = Env(
    tritonUrl: Option<string>, tritonKey: Option<string>,
    heliusUrl: Option<string>, heliusKey: Option<string>,
    alchemyUrl: Option<string>, alchemyKey: Option<string>,
    quicknodeUrl: Option<string>, quicknodeKey: Option<string>,
    validationcloudUrl: Option<string>, validationcloudKey: Option<string>,
    noditUrl: Option<string>, noditKey: Option<string>,
    defaultUrl: Option<string>, preferredDefault: Option<string>)

  /** The URL templates, which both implementations share: any functions of URL and key. */
  datatype Templates = Templates(
    applyApiKey: (string, string) -> string,
    withHelius: (string, Option<string>) -> string,
    withAlchemy: (string, Option<string>) -> string,
    withOptional: (string, Option<string>) -> string)

  /** Present and not the empty string. */
  predicate IsSet(x: Option<string>) {
    x.Some? && x.value != ""
  }

  function OrEmpty(x: Option<string>): string {
    if x.Some? then x.value else ""
  }

  // ------------------------------------------------ the relay's own list

  function TritonProvider(env: Env, t: Templates): seq<Provider> {
    if !IsSet(env.tritonUrl) then []
    else
      var headers := if IsSet(env.tritonKey) then map["x-api-key" := env.tritonKey.value] else map[];
      [Provider(Triton, t.applyApiKey(env.tritonUrl.value, OrEmpty(env.tritonKey)), headers)]
  }

  function HeliusProvider(env: Env, t: Templates): seq<Provider> {
    if IsSet(env.heliusUrl) then [Provider(Helius, t.withHelius(env.heliusUrl.value, env.heliusKey), map[])] else []
  }

  function AlchemyProvider(env: Env, t: Templates): seq<Provider> {
    if IsSet(env.alchemyUrl)
    then [Provider(Alchemy, t.withAlchemy(env.alchemyUrl.value, env.alchemyKey), map[])]
    else []
  }

  function QuicknodeProvider(env: Env, t: Templates): seq<Provider> {
    if IsSet(env.quicknodeUrl)
    then [Provider(Quicknode, t.withOptional(env.quicknodeUrl.value, env.quicknodeKey), map[])]
    else []
  }

  function ValidationcloudProvider(env: Env, t: Templates): seq<Provider> {
    if !IsSet(env.validationcloudUrl) then []
    else
      var url := t.applyApiKey(env.validationcloudUrl.value, OrEmpty(env.validationcloudKey));
      [Provider(Validationcloud, url, map[])]
  }

  function NoditProvider(env: Env, t: Templates): seq<Provider> {
    if IsSet(env.noditUrl) then [Provider(Nodit, t.withOptional(env.noditUrl.value, env.noditKey), map[])] else []
  }

  function DefaultProvider(env: Env): seq<Provider> {
    if IsSet(env.defaultUrl) then [Provider(Default, env.defaultUrl.value, map[])] else []
  }

  function ConfiguredProviders(env: Env, t: Templates): seq<Provider> {
    TritonProvider(env, t)
    + HeliusProvider(env, t)
    + AlchemyProvider(env, t)
    + QuicknodeProvider(env, t)
    + ValidationcloudProvider(env, t)
    + NoditProvider(env, t)
    + DefaultProvider(env)
  }

  predicate IsManagedId(name: string) {
    exists id :: Name(id) == name
  }

  function IndexOfName(ps: seq<Provider>, name: string): (i: int)
    ensures -1 <= i < |ps|
    ensures i >= 0 ==> Name(ps[i].id) == name
    ensures forall j :: 0 <= j < (if i == -1 then |ps| else i) ==> Name(ps[j].id) != name
  {
    if ps == [] then -1
    else if Name(ps[0].id) == name then 0
    else
      var rest := IndexOfName(ps[1..], name);
      if rest == -1 then -1 else rest + 1
  }

  function Without(ps: seq<Provider>, name: string): seq<Provider> {
    if ps == [] then [] else (if Name(ps[0].id) != name then [ps[0]] else []) + Without(ps[1..], name)
  }

  /** The preferred provider moved to the front, if it names a known provider that is configured. */
  function PreferredFirst(ps: seq<Provider>, preferred: Option<string>): seq<Provider> {
    if IsSet(preferred) && IsManagedId(preferred.value) && IndexOfName(ps, preferred.value) >= 0
    then [ps[IndexOfName(ps, preferred.value)]] + Without(ps, preferred.value)
    else ps
  }

  function ManagedProviders(env: Env, t: Templates): seq<Provider> {
    PreferredFirst(ConfiguredProviders(env, t), env.preferredDefault)
  }

  method CollectProviders(env: Env, t: Templates) returns (providers: seq<Provider>)
    ensures providers == ConfiguredProviders(env, t)
  {
    providers := [];
    if IsSet(env.tritonUrl) {
      var headers := map[];
      if IsSet(env.tritonKey) {
        headers := headers["x-api-key" := env.tritonKey.value];
      }
      providers := providers + [Provider(Triton, t.applyApiKey(env.tritonUrl.value, OrEmpty(env.tritonKey)), headers)];
    }
    assert providers == TritonProvider(env, t);
    if IsSet(env.heliusUrl) {
      providers := providers + [Provider(Helius, t.withHelius(env.heliusUrl.value, env.heliusKey), map[])];
    }
    assert providers == TritonProvider(env, t) + HeliusProvider(env, t);
    if IsSet(env.alchemyUrl) {
      providers := providers + [Provider(Alchemy, t.withAlchemy(env.alchemyUrl.value, env.alchemyKey), map[])];
    }
    assert providers == TritonProvider(env, t) + HeliusProvider(env, t) + AlchemyProvider(env, t);
    if IsSet(env.quicknodeUrl) {
      providers := providers + [Provider(Quicknode, t.withOptional(env.quicknodeUrl.value, env.quicknodeKey), map[])];
    }
    assert providers == TritonProvider(env, t) + HeliusProvider(env, t) + AlchemyProvider(env, t)
      + QuicknodeProvider(env, t);
    if IsSet(env.validationcloudUrl) {
      var url := t.applyApiKey(env.validationcloudUrl.value, OrEmpty(env.validationcloudKey));
      providers := providers + [Provider(Validationcloud, url, map[])];
    }
    assert providers == TritonProvider(env, t) + HeliusProvider(env, t) + AlchemyProvider(env, t)
      + QuicknodeProvider(env, t) + ValidationcloudProvider(env, t);
    if IsSet(env.noditUrl) {
      providers := providers + [Provider(Nodit, t.withOptional(env.noditUrl.value, env.noditKey), map[])];
    }
    assert providers == TritonProvider(env, t) + HeliusProvider(env, t) + AlchemyProvider(env, t)
      + QuicknodeProvider(env, t) + ValidationcloudProvider(env, t) + NoditProvider(env, t);
    if IsSet(env.defaultUrl) {
      providers := providers + [Provider(Default, env.defaultUrl.value, map[])];
    }
  }

  method ResolveManagedProviders(env: Env, t: Templates) returns (providers: seq<Provider>)
    ensures providers == ManagedProviders(env, t)
  {
    providers := CollectProviders(env, t);
    if IsSet(env.preferredDefault) && IsManagedId(env.preferredDefault.value) {
      var preferred := IndexOfName(providers, env.preferredDefault.value);
      if preferred >= 0 {
        return [providers[preferred]] + Without(providers, env.preferredDefault.value);
      }
    }
  }

  // ------------------------------------ the standalone default's own list

  function TritonTarget(env: Env, t: Templates): seq<Target> {
    if IsSet(env.tritonUrl) then [Target(Triton, t.applyApiKey(env.tritonUrl.value, OrEmpty(env.tritonKey)))] else []
  }

  function HeliusTarget(env: Env, t: Templates): seq<Target> {
    if IsSet(env.heliusUrl) then [Target(Helius, t.withHelius(env.heliusUrl.value, env.heliusKey))] else []
  }

  function AlchemyTarget(env: Env, t: Templates): seq<Target> {
    if IsSet(env.alchemyUrl) then [Target(Alchemy, t.withAlchemy(env.alchemyUrl.value, env.alchemyKey))] else []
  }

  function QuicknodeTarget(env: Env, t: Templates): seq<Target> {
    if IsSet(env.quicknodeUrl)
    then [Target(Quicknode, t.withOptional(env.quicknodeUrl.value, env.quicknodeKey))]
    else []
  }

  function ValidationcloudTarget(env: Env, t: Templates): seq<Target> {
    if IsSet(env.validationcloudUrl)
    then [Target(Validationcloud, t.applyApiKey(env.validationcloudUrl.value, OrEmpty(env.validationcloudKey)))]
    else []
  }

  function NoditTarget(env: Env, t: Templates): seq<Target> {
    if IsSet(env.noditUrl) then [Target(Nodit, t.withOptional(env.noditUrl.value, env.noditKey))] else []
  }

  function DefaultTarget(env: Env): seq<Target> {
    if IsSet(env.defaultUrl) then [Target(Default, env.defaultUrl.value)] else []
  }

  function ConfiguredTargets(env: Env, t: Templates): seq<Target> {
    TritonTarget(env, t)
    + HeliusTarget(env, t)
    + AlchemyTarget(env, t)
    + QuicknodeTarget(env, t)
    + ValidationcloudTarget(env, t)
    + NoditTarget(env, t)
    + DefaultTarget(env)
  }

  function IndexOfTarget(ts: seq<Target>, name: string): (i: int)
    ensures -1 <= i < |ts|
    ensures i >= 0 ==> Name(ts[i].id) == name
    ensures forall j :: 0 <= j < (if i == -1 then |ts| else i) ==> Name(ts[j].id) != name
  {
    if ts == [] then -1
    else if Name(ts[0].id) == name then 0
    else
      var rest := IndexOfTarget(ts[1..], name);
      if rest == -1 then -1 else rest + 1
  }

  /** The preferred provider's URL if it is configured, else the first one's, else none. */
  function DefaultUrl(env: Env, t: Templates): Option<string> {
    var targets := ConfiguredTargets(env, t);
    if IsSet(env.preferredDefault) && IndexOfTarget(targets, env.preferredDefault.value) >= 0
    then Some(targets[IndexOfTarget(targets, env.preferredDefault.value)].url)
    else if targets == [] then None
    else Some(targets[0].url)
  }

  method CollectTargets(env: Env, t: Templates) returns (targets: seq<Target>)
    ensures targets == ConfiguredTargets(env, t)
  {
    targets := [];
    if IsSet(env.tritonUrl) {
      targets := targets + [Target(Triton, t.applyApiKey(env.tritonUrl.value, OrEmpty(env.tritonKey)))];
    }
    assert targets == TritonTarget(env, t);
    if IsSet(env.heliusUrl) {
      targets := targets + [Target(Helius, t.withHelius(env.heliusUrl.value, env.heliusKey))];
    }
    assert targets == TritonTarget(env, t) + HeliusTarget(env, t);
    if IsSet(env.alchemyUrl) {
      targets := targets + [Target(Alchemy, t.withAlchemy(env.alchemyUrl.value, env.alchemyKey))];
    }
    assert targets == TritonTarget(env, t) + HeliusTarget(env, t) + AlchemyTarget(env, t);
    if IsSet(env.quicknodeUrl) {
      targets := targets + [Target(Quicknode, t.withOptional(env.quicknodeUrl.value, env.quicknodeKey))];
    }
    assert targets == TritonTarget(env, t) + HeliusTarget(env, t) + AlchemyTarget(env, t)
      + QuicknodeTarget(env, t);
    if IsSet(env.validationcloudUrl) {
      var url := t.applyApiKey(env.validationcloudUrl.value, OrEmpty(env.validationcloudKey));
      targets := targets + [Target(Validationcloud, url)];
    }
    assert targets == TritonTarget(env, t) + HeliusTarget(env, t) + AlchemyTarget(env, t)
      + QuicknodeTarget(env, t) + ValidationcloudTarget(env, t);
    if IsSet(env.noditUrl) {
      targets := targets + [Target(Nodit, t.withOptional(env.noditUrl.value, env.noditKey))];
    }
    assert targets == TritonTarget(env, t) + HeliusTarget(env, t) + AlchemyTarget(env, t)
      + QuicknodeTarget(env, t) + ValidationcloudTarget(env, t) + NoditTarget(env, t);
    if IsSet(env.defaultUrl) {
      targets := targets + [Target(Default, env.defaultUrl.value)];
    }
  }

  method ResolveDefaultSolanaRpcUrl(env: Env, t: Templates) returns (url: Option<string>)
    ensures url == DefaultUrl(env, t)
  {
    var targets := CollectTargets(env, t);
    if IsSet(env.preferredDefault) {
      var preferred := IndexOfTarget(targets, env.preferredDefault.value);
      if preferred >= 0 {
        return Some(targets[preferred].url);
      }
    }
    return if targets == [] then None else Some(targets[0].url);
  }

  // ----------------------------------------------------------- agreement

  ghost predicate DistinctIds(ps: seq<Provider>) {
    forall i, j :: 0 <= i < j < |ps| ==> ps[i].id != ps[j].id
  }

  function Rank(id: ProviderId): nat {
    match id
    case Triton => 0
    case Helius => 1
    case Alchemy => 2
    case Quicknode => 3
    case Validationcloud => 4
    case Nodit => 5
    case Default => 6
  }

  /** Providers come in the order of the branches, each at most once. */
  ghost predicate InOrder(ps: seq<Provider>, bound: nat) {
    && (forall i :: 0 <= i < |ps| ==> Rank(ps[i].id) < bound)
    && (forall i, j :: 0 <= i < j < |ps| ==> Rank(ps[i].id) < Rank(ps[j].id))
  }

  /** At most one provider, of the given rank. */
  ghost predicate Only(ps: seq<Provider>, rank: nat) {
    |ps| <= 1 && (ps != [] ==> Rank(ps[0].id) == rank)
  }

  lemma NextInOrder(ps: seq<Provider>, next: seq<Provider>, bound: nat)
    requires InOrder(ps, bound) && Only(next, bound)
    ensures InOrder(ps + next, bound + 1)
  {
  }

  lemma AllInOrder(
    a: seq<Provider>, b: seq<Provider>, c: seq<Provider>, d: seq<Provider>, e: seq<Provider>, f: seq<Provider>,
                   g: seq<Provider>)
    requires Only(a, 0) && Only(b, 1) && Only(c, 2) && Only(d, 3) && Only(e, 4) && Only(f, 5) && Only(g, 6)
    ensures InOrder(a + b + c + d + e + f + g, 7)
  {
    NextInOrder(a, b, 1);
    NextInOrder(a + b, c, 2);
    NextInOrder(a + b + c, d, 3);
    NextInOrder(a + b + c + d, e, 4);
    NextInOrder(a + b + c + d + e, f, 5);
    NextInOrder(a + b + c + d + e + f, g, 6);
  }

  lemma ConfiguredAreDistinct(env: Env, t: Templates)
    ensures DistinctIds(ConfiguredProviders(env, t))
  {
    AllInOrder(TritonProvider(env, t), HeliusProvider(env, t), AlchemyProvider(env, t), QuicknodeProvider(env, t),
               ValidationcloudProvider(env, t), NoditProvider(env, t), DefaultProvider(env));
    OrderedAreDistinct(ConfiguredProviders(env, t), 7);
  }

  lemma OrderedAreDistinct(ps: seq<Provider>, bound: nat)
    requires InOrder(ps, bound)
    ensures DistinctIds(ps)
  {
  }

  function Targets(ps: seq<Provider>): (ts: seq<Target>)
    ensures |ts| == |ps| && forall i :: 0 <= i < |ps| ==> ts[i] == Target(ps[i].id, ps[i].url)
  {
    seq(|ps|, i requires 0 <= i < |ps| => Target(ps[i].id, ps[i].url))
  }

  lemma TargetsJoin(a: seq<Provider>, b: seq<Provider>)
    ensures Targets(a + b) == Targets(a) + Targets(b)
  {
  }

  /** The two lists, written twice, name the same providers with the same URLs in the same order. */
  lemma ListsAgree(env: Env, t: Templates)
    ensures ConfiguredTargets(env, t) == Targets(ConfiguredProviders(env, t))
  {
    var listed := TritonProvider(env, t);
    TargetsJoin(listed, HeliusProvider(env, t));
    listed := listed + HeliusProvider(env, t);
    TargetsJoin(listed, AlchemyProvider(env, t));
    listed := listed + AlchemyProvider(env, t);
    TargetsJoin(listed, QuicknodeProvider(env, t));
    listed := listed + QuicknodeProvider(env, t);
    TargetsJoin(listed, ValidationcloudProvider(env, t));
    listed := listed + ValidationcloudProvider(env, t);
    TargetsJoin(listed, NoditProvider(env, t));
    listed := listed + NoditProvider(env, t);
    TargetsJoin(listed, DefaultProvider(env));
    assert Targets(TritonProvider(env, t)) == TritonTarget(env, t);
    assert Targets(HeliusProvider(env, t)) == HeliusTarget(env, t);
    assert Targets(AlchemyProvider(env, t)) == AlchemyTarget(env, t);
    assert Targets(QuicknodeProvider(env, t)) == QuicknodeTarget(env, t);
    assert Targets(ValidationcloudProvider(env, t)) == ValidationcloudTarget(env, t);
    assert Targets(NoditProvider(env, t)) == NoditTarget(env, t);
    assert Targets(DefaultProvider(env)) == DefaultTarget(env);
  }

  lemma {:induction false} SameIndex(ps: seq<Provider>, name: string)
    ensures IndexOfTarget(Targets(ps), name) == IndexOfName(ps, name)
  {
  }

  lemma NamesDiffer(a: ProviderId, b: ProviderId)
    ensures Name(a) == Name(b) ==> a == b
  {
    assert Name(Triton)[0] == 't' && Name(Helius)[0] == 'h' && Name(Alchemy)[0] == 'a' && Name(Quicknode)[0] == 'q';
    assert Name(Validationcloud)[0] == 'v' && Name(Nodit)[0] == 'n' && Name(Default)[0] == 'd';
  }

  lemma {:induction false} WithoutMembers(ps: seq<Provider>, name: string)
    ensures forall p :: p in Without(ps, name) <==> p in ps && Name(p.id) != name
  {
    if ps != [] {
      WithoutMembers(ps[1..], name);
      assert ps == [ps[0]] + ps[1..];
    }
  }

  lemma {:induction false} WithoutStaysDistinct(ps: seq<Provider>, name: string)
    requires DistinctIds(ps)
    ensures DistinctIds(Without(ps, name))
  {
    if ps != [] {
      WithoutStaysDistinct(ps[1..], name);
      WithoutMembers(ps[1..], name);
      assert forall p :: p in ps[1..] ==> p.id != ps[0].id;
      assert forall p :: p in Without(ps[1..], name) ==> p.id != ps[0].id;
    }
  }

  lemma OnlyOneWithName(ps: seq<Provider>, k: nat)
    requires DistinctIds(ps) && k < |ps|
    ensures ps[k] in ps && forall p :: p in ps && Name(p.id) == Name(ps[k].id) ==> p == ps[k]
  {
    forall p | p in ps && Name(p.id) == Name(ps[k].id) ensures p == ps[k] {
      NamesDiffer(p.id, ps[k].id);
    }
  }

  lemma PreferredFirstIs(ps: seq<Provider>, preferred: Option<string>)
    requires DistinctIds(ps)
    ensures var moved := PreferredFirst(ps, preferred);
            DistinctIds(moved) && forall p :: p in moved <==> p in ps
  {
    if IsSet(preferred) {
      WithoutMembers(ps, preferred.value);
      WithoutStaysDistinct(ps, preferred.value);
      var k := IndexOfName(ps, preferred.value);
      if k >= 0 { OnlyOneWithName(ps, k); }
    }
  }

  /**
   * The two implementations agree: the first managed provider's URL is the default URL, and there
   * is none exactly when nothing is configured. Preferring a provider only moves it to the front.
   */
  lemma DefaultSelectionsAgree(env: Env, t: Templates)
    ensures var providers := ManagedProviders(env, t);
            && DefaultUrl(env, t) == (if providers == [] then None else Some(providers[0].url))
            && DistinctIds(providers)
            && forall p :: p in providers <==> p in ConfiguredProviders(env, t)
  {
    var ps := ConfiguredProviders(env, t);
    ConfiguredAreDistinct(env, t);
    PreferredFirstIs(ps, env.preferredDefault);
    ListsAgree(env, t);
    if IsSet(env.preferredDefault) {
      SameIndex(ps, env.preferredDefault.value);
      var k := IndexOfName(ps, env.preferredDefault.value);
      assert k >= 0 ==> IsManagedId(env.preferredDefault.value);
    }
  }
}
