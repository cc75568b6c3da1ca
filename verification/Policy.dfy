/**
 Agent policies and their deterministic encoding (`agent/policy.rs`). A policy
 digest is a hash of these bytes, so what matters is exactly which policies, and
 which parameters, share them.
 */
module Policy {
  import opened Wrappers
  import opened Bytes
  import opened Texts
  import opened Ordering
  import opened Cbor
  import opened AgentTypes

  const CURRENT_POLICY_VERSION: u64 := 3
  const MAX_TTL: nat := 86400 * 365
  const MAX_CONCURRENT_GRANTS_LIMIT: nat := 1000

  datatype PolicyError =
    | InvalidVersion(version: u64)
    | EmptyActions
    | InvalidTtl(ttl: u64)
    | InvalidMaxConcurrent(n: u64)

  /** The fields a policy takes over unchanged from its parameters. */
  datatype Settings = Settings(
    profileId: Text,
    mode: Text,
    registrationAllowed: bool,
    requireUv: bool,
    maxConcurrentGrants: u64,
    maxGrantTtl: u64,
    maxSessionTtl: u64,
    principalUser: Text,
    deviceName: Text,
    devicePhys: Text,
    deviceUniq: Text,
    deviceVendorId: u16,
    deviceProductId: u16,
    browserArgv: Vec<Text>,
    storageBackend: Text,
    storagePath: Text,
    browserUser: Text,
    browserRuntimeRoot: Text)

  datatype PolicyParams = PolicyParams(
    settings: Settings,
    normalizedRpIds: Vec<Text>,
    credentialRefs: Vec<CredentialRef>,
    allowedActions: Vec<Text>,
    startUrl: Option<Text>,
    rules: Vec<RpRule>)

  datatype Policy = Policy(
    version: u64,
    settings: Settings,
    normalizedRpIds: Vec<Text>,
    credentialRefs: Vec<Text>,
    allowedActions: Vec<Text>,
    startUrl: Text,
    rules: Vec<RpRule>)

  // ----- Policy::from_params -----

  function RefHex(c: CredentialRef): Text { Hex(c) }

  /** The key rules are sorted by. */
  function RuleKey(rule: RpRule): Text { Normalize(rule.rpId) }

  function PolicyOf(params: PolicyParams): Policy {
    Policy(
      CURRENT_POLICY_VERSION,
      params.settings,
      SortDedup(params.normalizedRpIds, TextLess),
      SortDedup(Mapped(params.credentialRefs, RefHex), TextLess),
      SortDedup(params.allowedActions, TextLess),
      if params.startUrl.Some? then params.startUrl.value else [],
      StableSort(params.rules, RuleKey, TextLess))
  }

  function Validate(policy: Policy): Option<PolicyError> {
    var s := policy.settings;
    if policy.version != CURRENT_POLICY_VERSION then Some(InvalidVersion(policy.version))
    else if policy.allowedActions == [] then Some(EmptyActions)
    else if s.maxGrantTtl == 0 || s.maxGrantTtl > MAX_TTL then Some(InvalidTtl(s.maxGrantTtl))
    else if s.maxSessionTtl > MAX_TTL then Some(InvalidTtl(s.maxSessionTtl))
    else if s.maxConcurrentGrants == 0 || s.maxConcurrentGrants > MAX_CONCURRENT_GRANTS_LIMIT
    then Some(InvalidMaxConcurrent(s.maxConcurrentGrants))
    else None
  }

  function FromParams(params: PolicyParams): Result<Policy, PolicyError> {
    match Validate(PolicyOf(params))
    case Some(error) => Err(error)
    case None => Ok(PolicyOf(params))
  }

  // ----- cbor::encode_policy -----

  /** What `encode_rules` writes of a rule: `credential_selection` is not part of it. */
  datatype RuleView = RuleView(rpId: Text, register: CeremonyPolicy, authenticate: CeremonyPolicy)

  function ViewOf(rule: RpRule): RuleView {
    RuleView(Normalize(rule.rpId), rule.register, rule.authenticate)
  }

  function ViewKey(view: RuleView): Text { view.rpId }

  function CeremonyEntries(c: CeremonyPolicy): Vec<Entry> {
    [Entry(Ascii("authorization"), TextString(AuthorizationName(c.authorization))),
     Entry(Ascii("user_presence"), TextString(SourceName(c.userPresence))),
     Entry(Ascii("user_verification"), TextString(SourceName(c.userVerification)))]
  }

  function ViewEntries(view: RuleView): Vec<Entry> {
    [Entry(Ascii("rp_id"), TextString(view.rpId)),
     Entry(Ascii("register"), SortedMap(CeremonyEntries(view.register))),
     Entry(Ascii("authenticate"), SortedMap(CeremonyEntries(view.authenticate)))]
  }

  function ViewItem(view: RuleView): Item { SortedMap(ViewEntries(view)) }

  function TextItem(t: Text): Item { TextString(t) }

  function TextArray(texts: Vec<Text>): Item { Array(Mapped(texts, TextItem)) }

  function RulesItem(rules: Vec<RpRule>): Item { Array(Mapped(Mapped(rules, ViewOf), ViewItem)) }

  function ScopeEntries(p: Policy): (es: seq<Entry>)
    ensures |es| == 8
  {
    [Entry(Ascii("version"), UInt(p.version)),
     Entry(Ascii("profile_id"), TextString(p.settings.profileId)),
     Entry(Ascii("mode"), TextString(p.settings.mode)),
     Entry(Ascii("normalized_rp_ids"), TextArray(p.normalizedRpIds)),
     Entry(Ascii("credential_refs"), TextArray(p.credentialRefs)),
     Entry(Ascii("allowed_actions"), TextArray(p.allowedActions)),
     Entry(Ascii("registration_allowed"), Bool(p.settings.registrationAllowed)),
     Entry(Ascii("require_uv"), Bool(p.settings.requireUv))]
  }

  function LimitEntries(s: Settings): (es: seq<Entry>)
    ensures |es| == 9
  {
    [Entry(Ascii("max_concurrent_grants"), UInt(s.maxConcurrentGrants)),
     Entry(Ascii("max_grant_ttl"), UInt(s.maxGrantTtl)),
     Entry(Ascii("max_session_ttl"), UInt(s.maxSessionTtl)),
     Entry(Ascii("principal_user"), TextString(s.principalUser)),
     Entry(Ascii("device_name"), TextString(s.deviceName)),
     Entry(Ascii("device_phys"), TextString(s.devicePhys)),
     Entry(Ascii("device_uniq"), TextString(s.deviceUniq)),
     Entry(Ascii("device_vendor_id"), UInt(s.deviceVendorId)),
     Entry(Ascii("device_product_id"), UInt(s.deviceProductId))]
  }

  function BrowserEntries(p: Policy): (es: seq<Entry>)
    ensures |es| == 7
  {
    [Entry(Ascii("start_url"), TextString(p.startUrl)),
     Entry(Ascii("browser_argv"), TextArray(p.settings.browserArgv)),
     Entry(Ascii("storage_backend"), TextString(p.settings.storageBackend)),
     Entry(Ascii("storage_path"), TextString(p.settings.storagePath)),
     Entry(Ascii("browser_user"), TextString(p.settings.browserUser)),
     Entry(Ascii("browser_runtime_root"), TextString(p.settings.browserRuntimeRoot)),
     Entry(Ascii("rules"), RulesItem(p.rules))]
  }

  function PolicyEntries(p: Policy): (es: Vec<Entry>)
    ensures |es| == 24
  {
    ScopeEntries(p) + LimitEntries(p.settings) + BrowserEntries(p)
  }

  /** `to_deterministic_cbor`: the bytes a policy digest hashes. */
  function EncodePolicy(p: Policy): seq<byte> { Encode(SortedMap(PolicyEntries(p))) }

  // ----- Injectivity -----

  /** Sorted maps over the same keys are equal only if all their values are. */
  lemma SortedMapInjective(a: Vec<Entry>, b: Vec<Entry>)
    requires |a| == |b| && forall i :: 0 <= i < |a| ==> a[i].key == b[i].key
    requires SortedMap(a) == SortedMap(b)
    ensures a == b
  {
    LengthFirstIsTotal();
    StableSortDetermined(a, b, EntryKey, LengthFirst);
    SameKeysDetermined(a, b, EntryKey);
  }

  lemma NamesInjective()
    ensures forall a, b :: AuthorizationName(a) == AuthorizationName(b) ==> a == b
    ensures forall a, b :: SourceName(a) == SourceName(b) ==> a == b
  {
    assert SourceName(Human)[0] == 'h' as int && SourceName(Agent)[0] == 'a' as int;
  }

  lemma CeremonyInjective(a: CeremonyPolicy, b: CeremonyPolicy)
    requires SortedMap(CeremonyEntries(a)) == SortedMap(CeremonyEntries(b))
    ensures a == b
  {
    var ea, eb := CeremonyEntries(a), CeremonyEntries(b);
    SortedMapInjective(ea, eb);
    NamesInjective();
    assert ea[0] == eb[0] && ea[1] == eb[1] && ea[2] == eb[2];
  }

  lemma ViewInjective(a: RuleView, b: RuleView)
    requires ViewItem(a) == ViewItem(b)
    ensures a == b
  {
    var ea, eb := ViewEntries(a), ViewEntries(b);
    SortedMapInjective(ea, eb);
    assert ea[0] == eb[0] && ea[1] == eb[1] && ea[2] == eb[2];
    CeremonyInjective(a.register, b.register);
    CeremonyInjective(a.authenticate, b.authenticate);
  }

  lemma TextArrayInjective(a: Vec<Text>, b: Vec<Text>)
    requires TextArray(a) == TextArray(b)
    ensures a == b
  {}

  lemma RulesInjective(a: Vec<RpRule>, b: Vec<RpRule>)
    requires RulesItem(a) == RulesItem(b)
    ensures Mapped(a, ViewOf) == Mapped(b, ViewOf)
  {
    var va, vb := Mapped(a, ViewOf), Mapped(b, ViewOf);
    var ia, ib := Mapped(va, ViewItem), Mapped(vb, ViewItem);
    forall i | 0 <= i < |va|
      ensures va[i] == vb[i]
    {
      assert ia[i] == ib[i];
      ViewInjective(va[i], vb[i]);
    }
  }

  /** Everything of a policy except what its rules do not encode. */
  ghost predicate SamePolicy(p: Policy, q: Policy) {
    && p.(rules := []) == q.(rules := [])
    && Mapped(p.rules, ViewOf) == Mapped(q.rules, ViewOf)
  }

  lemma ScopeInjective(p: Policy, q: Policy)
    requires ScopeEntries(p) == ScopeEntries(q)
    ensures p.version == q.version && p.normalizedRpIds == q.normalizedRpIds
    ensures p.credentialRefs == q.credentialRefs && p.allowedActions == q.allowedActions
    ensures p.settings.profileId == q.settings.profileId && p.settings.mode == q.settings.mode
    ensures p.settings.registrationAllowed == q.settings.registrationAllowed
    ensures p.settings.requireUv == q.settings.requireUv
  {}

  lemma LimitsInjective(s: Settings, t: Settings)
    requires LimitEntries(s) == LimitEntries(t)
    ensures s.maxConcurrentGrants == t.maxConcurrentGrants && s.maxGrantTtl == t.maxGrantTtl
    ensures s.maxSessionTtl == t.maxSessionTtl && s.principalUser == t.principalUser
    ensures s.deviceName == t.deviceName && s.devicePhys == t.devicePhys && s.deviceUniq == t.deviceUniq
    ensures s.deviceVendorId == t.deviceVendorId && s.deviceProductId == t.deviceProductId
  {}

  lemma BrowserInjective(p: Policy, q: Policy)
    requires BrowserEntries(p) == BrowserEntries(q)
    ensures p.startUrl == q.startUrl && Mapped(p.rules, ViewOf) == Mapped(q.rules, ViewOf)
    ensures p.settings.browserArgv == q.settings.browserArgv
    ensures p.settings.storageBackend == q.settings.storageBackend
    ensures p.settings.storagePath == q.settings.storagePath
    ensures p.settings.browserUser == q.settings.browserUser
    ensures p.settings.browserRuntimeRoot == q.settings.browserRuntimeRoot
  {
    var a, b := BrowserEntries(p), BrowserEntries(q);
    assert a[0] == b[0] && a[1] == b[1] && a[2] == b[2] && a[3] == b[3];
    assert a[4] == b[4] && a[5] == b[5] && a[6] == b[6];
    TextArrayInjective(p.settings.browserArgv, q.settings.browserArgv);
    RulesInjective(p.rules, q.rules);
  }

  lemma EntriesInjective(p: Policy, q: Policy)
    requires PolicyEntries(p) == PolicyEntries(q)
    ensures SamePolicy(p, q)
  {
    var a, b := PolicyEntries(p), PolicyEntries(q);
    assert a[..8] == ScopeEntries(p) && b[..8] == ScopeEntries(q);
    assert a[8..17] == LimitEntries(p.settings) && b[8..17] == LimitEntries(q.settings);
    assert a[17..] == BrowserEntries(p) && b[17..] == BrowserEntries(q);
    ScopeInjective(p, q);
    LimitsInjective(p.settings, q.settings);
    BrowserInjective(p, q);
  }

  /** The keys, and the order the entries are listed in, do not depend on the policy. */
  lemma PolicyKeysFixed(p: Policy, q: Policy, i: nat)
    requires i < 24
    ensures PolicyEntries(p)[i].key == PolicyEntries(q)[i].key
  {}

  lemma SortedEntriesInjective(p: Policy, q: Policy)
    requires EncodePolicy(p) == EncodePolicy(q)
    ensures PolicyEntries(p) == PolicyEntries(q)
  {
    hide PolicyEntries, Encode;
    forall i | 0 <= i < 24
      ensures PolicyEntries(p)[i].key == PolicyEntries(q)[i].key
    {
      PolicyKeysFixed(p, q, i);
    }
    EncodePrefixFree(SortedMap(PolicyEntries(p)), SortedMap(PolicyEntries(q)), [], []);
    SortedMapInjective(PolicyEntries(p), PolicyEntries(q));
  }

  /**
   Two policies have the same bytes exactly when all 24 fields agree, rules
   being compared by normalized RP id and their two ceremony policies.
   */
  lemma PolicyBytesInjective(p: Policy, q: Policy)
    ensures EncodePolicy(p) == EncodePolicy(q) <==> SamePolicy(p, q)
  {
    if EncodePolicy(p) == EncodePolicy(q) {
      SortedEntriesInjective(p, q);
      EntriesInjective(p, q);
    }
  }

  // ----- The map is well formed -----

  /** Where a policy key stands in the list of entries, read off its bytes. */
  function KeyIndex(k: Text): nat {
    if |k| == 4 then 2
    else if |k| == 5 then 23
    else if |k| == 7 then 0
    else if |k| == 9 then 17
    else if |k| == 10 then if k[0] == 'p' as int then 1 else 7
    else if |k| == 11 then if k[7] == 'n' as int then 12 else if k[7] == 'p' as int then 13 else 14
    else if |k| == 12 then if k[0] == 's' as int then 20 else if k[8] == 'a' as int then 18 else 21
    else if |k| == 13 then 9
    else if |k| == 14 then 11
    else if |k| == 15 then
      if k[0] == 'c' as int then 4 else if k[0] == 'a' as int then 5 else if k[0] == 'm' as int then 10 else 19
    else if |k| == 16 then 15
    else if |k| == 17 then if k[0] == 'n' as int then 3 else 16
    else if |k| == 20 then if k[0] == 'r' as int then 6 else 22
    else 8
  }

  lemma ScopeKeyIndex(p: Policy, i: nat)
    requires i < 8
    ensures KeyIndex(ScopeEntries(p)[i].key) == i
  {
    hide TextArray;
  }

  lemma LimitKeyIndex(s: Settings, i: nat)
    requires i < 9
    ensures KeyIndex(LimitEntries(s)[i].key) == 8 + i
  {}

  lemma BrowserKeyIndex(p: Policy, i: nat)
    requires i < 7
    ensures KeyIndex(BrowserEntries(p)[i].key) == 17 + i
  {
    hide TextArray, RulesItem;
  }

  lemma PolicyKeyIndex(p: Policy, i: nat)
    requires i < 24
    ensures KeyIndex(PolicyEntries(p)[i].key) == i
  {
    hide KeyIndex, ScopeEntries, LimitEntries, BrowserEntries;
    if i < 8 {
      ScopeKeyIndex(p, i);
    } else if i < 17 {
      LimitKeyIndex(p.settings, i - 8);
    } else {
      BrowserKeyIndex(p, i - 17);
    }
  }

  lemma PolicyKeysDistinct(p: Policy)
    ensures DistinctKeys(PolicyEntries(p), EntryKey)
  {
    hide PolicyEntries, KeyIndex;
    forall i, j | 0 <= i < j < 24
      ensures PolicyEntries(p)[i].key != PolicyEntries(p)[j].key
    {
      PolicyKeyIndex(p, i);
      PolicyKeyIndex(p, j);
    }
  }

  /**
   A policy's bytes decode, with nothing left over, to a map that holds exactly
   its 24 entries under keys whose encodings strictly ascend.
   */
  lemma PolicyBytesDecode(p: Policy)
    ensures Decode(EncodePolicy(p)).Some?
    ensures var (item, rest) := Decode(EncodePolicy(p)).value;
      && rest == [] && item.Map?
      && multiset(item.entries) == multiset(PolicyEntries(p))
      && forall i, j :: 0 <= i < j < |item.entries| ==>
           BytesLess(EncodeText(item.entries[i].key), EncodeText(item.entries[j].key))
  {
    hide PolicyEntries, Encode, Decode, EncodeText;
    var item := SortedMap(PolicyEntries(p));
    EncodeRoundTrip(item, []);
    assert Encode(item) + [] == EncodePolicy(p);
    StableSortMultiset(PolicyEntries(p), EntryKey, LengthFirst);
    LengthFirstIsTotal();
    PolicyKeysDistinct(p);
    StableSortAscends(PolicyEntries(p), EntryKey, LengthFirst);
    forall i, j | 0 <= i < j < |item.entries|
      ensures BytesLess(EncodeText(item.entries[i].key), EncodeText(item.entries[j].key))
    {
      assert LengthFirst(EntryKey(item.entries[i]), EntryKey(item.entries[j]));
      KeyOrdersAgree(item.entries[i].key, item.entries[j].key);
    }
  }

  // ----- What the bytes hold, key by key -----

  predicate Has(entries: seq<Entry>, key: string, value: Item) {
    |key| < TWO64 && Entry(Ascii(key), value) in entries
  }

  predicate HasText(entries: seq<Entry>, key: string, text: Text) { Has(entries, key, TextString(text)) }

  /** Under `key` stands an array of exactly these texts, in this order. */
  ghost predicate HasTexts(entries: seq<Entry>, key: string, texts: seq<Text>) {
    exists items: Vec<Item> :: Has(entries, key, Array(items))
      && |items| == |texts| && forall i :: 0 <= i < |texts| ==> items[i] == TextString(texts[i])
  }

  /** Under `key` stands a map of a ceremony policy's three fields. */
  ghost predicate HasCeremony(entries: seq<Entry>, key: string, c: CeremonyPolicy) {
    exists fields: Vec<Entry> :: Has(entries, key, Map(fields)) && IsCeremony(fields, c)
  }

  predicate IsCeremony(fields: seq<Entry>, c: CeremonyPolicy) {
    && |fields| == 3
    && HasText(fields, "authorization", match c.authorization
                                        case Deny => Ascii("deny")
                                        case Confirm => Ascii("confirm")
                                        case Allow => Ascii("allow"))
    && HasText(fields, "user_presence", SourceText(c.userPresence))
    && HasText(fields, "user_verification", SourceText(c.userVerification))
  }

  function SourceText(s: Source): Text {
    if s == Human then Ascii("human") else if s == Agent then Ascii("agent") else Ascii("none")
  }

  /** A rule's map: its normalized RP id and its two ceremony policies. */
  ghost predicate IsRule(item: Item, rule: RpRule) {
    && item.Map? && |item.entries| == 3
    && HasText(item.entries, "rp_id", Normalize(rule.rpId))
    && HasCeremony(item.entries, "register", rule.register)
    && HasCeremony(item.entries, "authenticate", rule.authenticate)
  }

  ghost predicate HasRules(entries: seq<Entry>, rules: seq<RpRule>) {
    exists items: Vec<Item> :: Has(entries, "rules", Array(items))
      && |items| == |rules| && forall i :: 0 <= i < |rules| ==> IsRule(items[i], rules[i])
  }

  ghost predicate HasScope(entries: seq<Entry>, p: Policy) {
    && Has(entries, "version", UInt(p.version))
    && HasText(entries, "profile_id", p.settings.profileId)
    && HasText(entries, "mode", p.settings.mode)
    && HasTexts(entries, "normalized_rp_ids", p.normalizedRpIds)
    && HasTexts(entries, "credential_refs", p.credentialRefs)
    && HasTexts(entries, "allowed_actions", p.allowedActions)
    && Has(entries, "registration_allowed", Bool(p.settings.registrationAllowed))
    && Has(entries, "require_uv", Bool(p.settings.requireUv))
  }

  ghost predicate HasLimits(entries: seq<Entry>, s: Settings) {
    && Has(entries, "max_concurrent_grants", UInt(s.maxConcurrentGrants))
    && Has(entries, "max_grant_ttl", UInt(s.maxGrantTtl))
    && Has(entries, "max_session_ttl", UInt(s.maxSessionTtl))
    && HasText(entries, "principal_user", s.principalUser)
    && HasText(entries, "device_name", s.deviceName)
    && HasText(entries, "device_phys", s.devicePhys)
    && HasText(entries, "device_uniq", s.deviceUniq)
    && Has(entries, "device_vendor_id", UInt(s.deviceVendorId))
    && Has(entries, "device_product_id", UInt(s.deviceProductId))
  }

  ghost predicate HasBrowser(entries: seq<Entry>, p: Policy) {
    && HasText(entries, "start_url", p.startUrl)
    && HasTexts(entries, "browser_argv", p.settings.browserArgv)
    && HasText(entries, "storage_backend", p.settings.storageBackend)
    && HasText(entries, "storage_path", p.settings.storagePath)
    && HasText(entries, "browser_user", p.settings.browserUser)
    && HasText(entries, "browser_runtime_root", p.settings.browserRuntimeRoot)
    && HasRules(entries, p.rules)
  }

  lemma TextsListed(entries: seq<Entry>, key: string, texts: Vec<Text>)
    requires Has(entries, key, TextArray(texts))
    ensures HasTexts(entries, key, texts)
  {
    hide Has;
    var items: Vec<Item> := Mapped(texts, TextItem);
    assert Has(entries, key, Array(items));
  }

  lemma SortedHas(entries: Vec<Entry>, e: Entry)
    requires e in entries
    ensures SortedMap(entries).Map? && |SortedMap(entries).entries| == |entries| && e in SortedMap(entries).entries
  {
    StableSortMultiset(entries, EntryKey, LengthFirst);
    MultisetMember(entries, SortedMap(entries).entries, e);
  }

  lemma CeremonyListed(c: CeremonyPolicy)
    ensures SortedMap(CeremonyEntries(c)).Map? && IsCeremony(SortedMap(CeremonyEntries(c)).entries, c)
  {
    var es := CeremonyEntries(c);
    SortedHas(es, es[0]);
    SortedHas(es, es[1]);
    SortedHas(es, es[2]);
    hide SortedMap, Ascii;
  }

  lemma RuleListed(rule: RpRule)
    ensures IsRule(ViewItem(ViewOf(rule)), rule)
  {
    var es := ViewEntries(ViewOf(rule));
    var item := ViewItem(ViewOf(rule));
    SortedHas(es, es[0]);
    SortedHas(es, es[1]);
    SortedHas(es, es[2]);
    CeremonyListed(rule.register);
    CeremonyListed(rule.authenticate);
    hide SortedMap, Ascii, CeremonyEntries, IsCeremony, Normalize;
    var register, authenticate := SortedMap(CeremonyEntries(rule.register)), SortedMap(CeremonyEntries(rule.authenticate));
    assert Has(item.entries, "register", Map(register.entries)) && Has(item.entries, "authenticate", Map(authenticate.entries));
  }

  lemma RulesListed(entries: seq<Entry>, rules: Vec<RpRule>)
    requires Has(entries, "rules", RulesItem(rules))
    ensures HasRules(entries, rules)
  {
    hide Has, IsRule, ViewItem;
    var views := Mapped(rules, ViewOf);
    var items: Vec<Item> := Mapped(views, ViewItem);
    forall i | 0 <= i < |rules|
      ensures IsRule(items[i], rules[i])
    {
      RuleListed(rules[i]);
    }
    assert Has(entries, "rules", Array(items));
  }

  lemma ScopeListed(entries: seq<Entry>, p: Policy)
    requires forall i :: 0 <= i < 8 ==> ScopeEntries(p)[i] in entries
    ensures HasScope(entries, p)
  {
    var es := ScopeEntries(p);
    assert es[0] in entries && es[1] in entries && es[2] in entries && es[3] in entries;
    assert es[4] in entries && es[5] in entries && es[6] in entries && es[7] in entries;
    hide Ascii, TextArray, HasTexts;
    TextsListed(entries, "normalized_rp_ids", p.normalizedRpIds);
    TextsListed(entries, "credential_refs", p.credentialRefs);
    TextsListed(entries, "allowed_actions", p.allowedActions);
  }

  lemma LimitsListed(entries: seq<Entry>, s: Settings)
    requires forall i :: 0 <= i < 9 ==> LimitEntries(s)[i] in entries
    ensures HasLimits(entries, s)
  {
    var es := LimitEntries(s);
    hide Ascii;
    assert es[0] in entries && es[1] in entries && es[2] in entries && es[3] in entries && es[4] in entries;
    assert es[5] in entries && es[6] in entries && es[7] in entries && es[8] in entries;
  }

  lemma BrowserListed(entries: seq<Entry>, p: Policy)
    requires forall i :: 0 <= i < 7 ==> BrowserEntries(p)[i] in entries
    ensures HasBrowser(entries, p)
  {
    var es := BrowserEntries(p);
    hide RulesItem, ViewItem;
    assert es[0] in entries && es[1] in entries && es[2] in entries && es[3] in entries;
    assert es[4] in entries && es[5] in entries && es[6] in entries;
    hide Ascii, TextArray, HasTexts, RulesItem, HasRules;
    TextsListed(entries, "browser_argv", p.settings.browserArgv);
    RulesListed(entries, p.rules);
  }

  /**
   Read back, the bytes are one map of 24 entries, and each field of the policy
   stands under its own key: texts and numbers as they are, lists in order, rules
   with their normalized RP id and both ceremony policies.
   */
  lemma PolicyBytesHold(p: Policy)
    ensures Decode(EncodePolicy(p)).Some?
    ensures var (item, rest) := Decode(EncodePolicy(p)).value;
      && rest == [] && item.Map? && |item.entries| == 24
      && HasScope(item.entries, p) && HasLimits(item.entries, p.settings) && HasBrowser(item.entries, p)
  {
    hide *;
    PolicyBytesDecode(p);
    EntriesAreListed(p, Decode(EncodePolicy(p)).value.0.entries);
  }

  lemma EntriesAreListed(p: Policy, entries: seq<Entry>)
    requires multiset(entries) == multiset(PolicyEntries(p))
    ensures |entries| == 24 && HasScope(entries, p) && HasLimits(entries, p.settings) && HasBrowser(entries, p)
  {
    GroupsIn(p, entries);
    hide *;
    ScopeListed(entries, p);
    LimitsListed(entries, p.settings);
    BrowserListed(entries, p);
  }

  lemma GroupsIn(p: Policy, entries: seq<Entry>)
    requires multiset(entries) == multiset(PolicyEntries(p))
    ensures |entries| == 24
    ensures forall i :: 0 <= i < 8 ==> ScopeEntries(p)[i] in entries
    ensures forall i :: 0 <= i < 9 ==> LimitEntries(p.settings)[i] in entries
    ensures forall i :: 0 <= i < 7 ==> BrowserEntries(p)[i] in entries
  {
    hide ScopeEntries, LimitEntries, BrowserEntries;
    var es := PolicyEntries(p);
    assert |entries| == |multiset(entries)| == |multiset(es)| == |es|;
    assert forall e :: e in es ==> e in entries by {
      assert forall e :: e in es <==> e in multiset(es);
      assert forall e :: e in entries <==> e in multiset(entries);
    }
    assert forall i :: 0 <= i < 8 ==> ScopeEntries(p)[i] == es[i];
    assert forall i :: 0 <= i < 9 ==> LimitEntries(p.settings)[i] == es[8 + i];
    assert forall i :: 0 <= i < 7 ==> BrowserEntries(p)[i] == es[17 + i];
  }

  /** Policies that differ only in their rules' credential selection share their bytes. */
  lemma CredentialSelectionNotEncoded(p: Policy, i: nat, selection: Option<CredentialSelection>)
    requires i < |p.rules|
    ensures EncodePolicy(p.(rules := p.rules[i := p.rules[i].(credentialSelection := selection)])) == EncodePolicy(p)
  {
    var rules := p.rules[i := p.rules[i].(credentialSelection := selection)];
    assert Mapped(rules, ViewOf) == Mapped(p.rules, ViewOf);
    PolicyBytesInjective(p.(rules := rules), p);
  }

  // ----- What a policy takes from its parameters -----

  /** The elements of `b`, each once and in order. */
  ghost predicate IsSortedSet(a: seq<Text>, b: seq<Text>) {
    StrictlyAscending(a, Self, TextLess) && forall t :: t in a <==> t in b
  }

  lemma SortDedupIsSortedSet(texts: seq<Text>)
    ensures IsSortedSet(SortDedup(texts, TextLess), texts)
  {
    TextLessIsTotal();
    StableSortSorted(texts, Self, TextLess);
    DedupAscends(StableSort(texts, Self, TextLess), TextLess);
    forall t
      ensures t in SortDedup(texts, TextLess) <==> t in texts
    {
      SortDedupMembers(texts, t, TextLess);
    }
  }

  /**
   A policy holds its parameters' settings, the three lists as sorted sets (references
   in hex), the start URL or an empty text, and the rules reordered by normalized id.
   */
  lemma PolicyOfExact(params: PolicyParams)
    ensures var p := PolicyOf(params);
      && p.version == 3 && p.settings == params.settings
      && IsSortedSet(p.normalizedRpIds, params.normalizedRpIds)
      && IsSortedSet(p.credentialRefs, Mapped(params.credentialRefs, RefHex))
      && IsSortedSet(p.allowedActions, params.allowedActions)
      && p.startUrl == (match params.startUrl case None => [] case Some(url) => url)
      && multiset(p.rules) == multiset(params.rules)
      && SortedBy(p.rules, RuleKey, TextLess) && SameSublists(p.rules, params.rules, RuleKey)
  {
    hide SortDedup, StableSort, IsSortedSet;
    TextLessIsTotal();
    SortDedupIsSortedSet(params.normalizedRpIds);
    SortDedupIsSortedSet(Mapped(params.credentialRefs, RefHex));
    SortDedupIsSortedSet(params.allowedActions);
    StableSortMultiset(params.rules, RuleKey, TextLess);
    StableSortSorted(params.rules, RuleKey, TextLess);
    forall k: Text
      ensures WithKey(PolicyOf(params).rules, k, RuleKey) == WithKey(params.rules, k, RuleKey)
    {
      StableSortWithKey(params.rules, k, RuleKey, TextLess);
    }
  }

  /**
   Parameters are accepted exactly when they name an action, the grant lifetime is
   between one second and a year, the session lifetime at most a year, and between
   1 and 1000 grants are allowed at once; the first of these that fails is reported.
   */
  lemma FromParamsExact(params: PolicyParams)
    ensures var s := params.settings;
      var r := FromParams(params);
      if params.allowedActions == [] then r == Err(EmptyActions)
      else if !(1 <= s.maxGrantTtl <= 31536000) then r == Err(InvalidTtl(s.maxGrantTtl))
      else if s.maxSessionTtl > 31536000 then r == Err(InvalidTtl(s.maxSessionTtl))
      else if !(1 <= s.maxConcurrentGrants <= 1000) then r == Err(InvalidMaxConcurrent(s.maxConcurrentGrants))
      else r == Ok(PolicyOf(params))
  {
    hide SortDedup, StableSort, TextLess;
    SortDedupIsSortedSet(params.allowedActions);
    var sorted := SortDedup(params.allowedActions, TextLess);
    assert params.allowedActions != [] ==> params.allowedActions[0] in sorted;
    assert sorted != [] ==> sorted[0] in params.allowedActions;
  }

  // ----- What the bytes of a policy built from parameters depend on -----

  ghost predicate SameMembers<T(!new)>(a: seq<T>, b: seq<T>) { forall x :: x in a <==> x in b }

  function StartUrl(params: PolicyParams): Text {
    if params.startUrl.Some? then params.startUrl.value else []
  }

  /**
   Equal settings and start URL; equal sets of RP ids, credential references
   and actions; and, for every normalized RP id, equal ceremony policies in the
   same order.
   */
  ghost predicate EquivalentParams(p: PolicyParams, q: PolicyParams) {
    && p.settings == q.settings
    && StartUrl(p) == StartUrl(q)
    && SameMembers(p.normalizedRpIds, q.normalizedRpIds)
    && SameMembers(p.credentialRefs, q.credentialRefs)
    && SameMembers(p.allowedActions, q.allowedActions)
    && SameSublists(Mapped(p.rules, ViewOf), Mapped(q.rules, ViewOf), ViewKey)
  }

  lemma HexMembers(refs: seq<CredentialRef>, c: CredentialRef)
    ensures RefHex(c) in Mapped(refs, RefHex) <==> c in refs
  {
    var hexes := Mapped(refs, RefHex);
    if RefHex(c) in hexes {
      var i :| 0 <= i < |hexes| && hexes[i] == RefHex(c);
      HexInjective(refs[i], c);
    }
    if c in refs {
      var i :| 0 <= i < |refs| && refs[i] == c;
      assert hexes[i] == RefHex(c);
    }
  }

  lemma HexSameMembers(a: seq<CredentialRef>, b: seq<CredentialRef>)
    ensures SameMembers(Mapped(a, RefHex), Mapped(b, RefHex)) <==> SameMembers(a, b)
  {
    var ha, hb := Mapped(a, RefHex), Mapped(b, RefHex);
    if SameMembers(ha, hb) {
      forall c: CredentialRef
        ensures c in a <==> c in b
      {
        HexMembers(a, c);
        HexMembers(b, c);
      }
    }
    if SameMembers(a, b) {
      forall h
        ensures h in ha <==> h in hb
      {
        if i :| 0 <= i < |ha| && ha[i] == h {
          assert a[i] in b;
          HexMembers(b, a[i]);
        }
        if i :| 0 <= i < |hb| && hb[i] == h {
          assert b[i] in a;
          HexMembers(a, b[i]);
        }
      }
    }
  }

  lemma SortDedupTexts(a: seq<Text>, b: seq<Text>)
    ensures SortDedup(a, TextLess) == SortDedup(b, TextLess) <==> SameMembers(a, b)
  {
    TextLessIsTotal();
    SortDedupDetermined(a, b, TextLess);
  }

  lemma RulesDetermined(a: Vec<RpRule>, b: Vec<RpRule>)
    ensures Mapped(StableSort(a, RuleKey, TextLess), ViewOf) == Mapped(StableSort(b, RuleKey, TextLess), ViewOf)
       <==> SameSublists(Mapped(a, ViewOf), Mapped(b, ViewOf), ViewKey)
  {
    TextLessIsTotal();
    var va, vb := Mapped(a, ViewOf), Mapped(b, ViewOf);
    StableSortMapped(a, va, ViewOf, RuleKey, ViewKey, TextLess);
    StableSortMapped(b, vb, ViewOf, RuleKey, ViewKey, TextLess);
    StableSortDetermined(va, vb, ViewKey, TextLess);
  }

  /**
   Policies built from two parameter records have the same bytes exactly when
   the records are equivalent: the digest ignores order and repetition in the
   three lists, and the order of rules for different RP ids, and nothing else.
   */
  lemma ParamsBytesDetermined(p: PolicyParams, q: PolicyParams)
    requires FromParams(p).Ok? && FromParams(q).Ok?
    ensures EncodePolicy(FromParams(p).value) == EncodePolicy(FromParams(q).value) <==> EquivalentParams(p, q)
  {
    PolicyBytesInjective(PolicyOf(p), PolicyOf(q));
    SortDedupTexts(p.normalizedRpIds, q.normalizedRpIds);
    SortDedupTexts(Mapped(p.credentialRefs, RefHex), Mapped(q.credentialRefs, RefHex));
    HexSameMembers(p.credentialRefs, q.credentialRefs);
    SortDedupTexts(p.allowedActions, q.allowedActions);
    RulesDetermined(p.rules, q.rules);
  }

  /** Equivalent parameters are accepted alike, or refused for the same reason. */
  lemma EquivalentParamsAgree(p: PolicyParams, q: PolicyParams)
    requires EquivalentParams(p, q)
    ensures FromParams(p).Ok? <==> FromParams(q).Ok?
    ensures FromParams(p).Err? ==> FromParams(q) == FromParams(p)
  {
    hide SortDedup, StableSort, Mapped, SameSublists, RefHex, RuleKey, SameMembers;
    SortDedupTexts(p.allowedActions, q.allowedActions);
  }

  /** With distinct normalized RP ids, the order of the rules does not matter at all. */
  lemma RuleOrderIrrelevant(p: PolicyParams, rules: Vec<RpRule>)
    requires DistinctKeys(p.rules, RuleKey) && multiset(rules) == multiset(p.rules)
    ensures PolicyOf(p.(rules := rules)) == PolicyOf(p)
  {
    TextLessIsTotal();
    PermutationSortsAlike(p.rules, rules, RuleKey, TextLess);
  }

  // ----- cbor::encode_generation_digest -----

  type Generation = (Text, Text)

  function ProfileOf(g: Generation): Text { g.0 }

  function GenerationItem(g: Generation): Item { Array([TextString(g.0), ByteString(g.1)]) }

  function EncodeGeneration(entries: Vec<Generation>): seq<byte> {
    Encode(Array(Mapped(StableSort(entries, ProfileOf, TextLess), GenerationItem)))
  }

  /**
   The generation encoding determines, for every profile id, the digests listed
   under it and their order, and depends on nothing else.
   */
  lemma GenerationBytesDetermined(a: Vec<Generation>, b: Vec<Generation>)
    ensures EncodeGeneration(a) == EncodeGeneration(b) <==> SameSublists(a, b, ProfileOf)
  {
    TextLessIsTotal();
    StableSortDetermined(a, b, ProfileOf, TextLess);
    var sa, sb := StableSort(a, ProfileOf, TextLess), StableSort(b, ProfileOf, TextLess);
    if EncodeGeneration(a) == EncodeGeneration(b) {
      EncodePrefixFree(Array(Mapped(sa, GenerationItem)), Array(Mapped(sb, GenerationItem)), [], []);
      GenerationItemsInjective(sa, sb);
    }
  }

  lemma GenerationItemsInjective(a: Vec<Generation>, b: Vec<Generation>)
    requires Mapped(a, GenerationItem) == Mapped(b, GenerationItem)
    ensures a == b
  {}

  /** For distinct profile ids, the encoding is a function of the set of entries, and injective on it. */
  lemma GenerationBytesDistinct(a: Vec<Generation>, b: Vec<Generation>)
    requires DistinctKeys(a, ProfileOf) && DistinctKeys(b, ProfileOf)
    ensures EncodeGeneration(a) == EncodeGeneration(b) <==> multiset(a) == multiset(b)
  {
    GenerationBytesDetermined(a, b);
    TextLessIsTotal();
    StableSortDetermined(a, b, ProfileOf, TextLess);
    StableSortMultiset(a, ProfileOf, TextLess);
    StableSortMultiset(b, ProfileOf, TextLess);
    if multiset(a) == multiset(b) {
      PermutationSortsAlike(a, b, ProfileOf, TextLess);
    }
  }

  /**
   Read back, the generation bytes are an array of pairs, one for each entry and
   ordered by profile id: the id as text, then the digest as bytes.
   */
  lemma GenerationBytesHold(entries: Vec<Generation>)
    ensures Decode(EncodeGeneration(entries)).Some?
    ensures var (item, rest) := Decode(EncodeGeneration(entries)).value;
      rest == [] && item.Array? && |item.items| == |entries| &&
      exists sorted: seq<Generation> ::
        && multiset(sorted) == multiset(entries) && SortedBy(sorted, ProfileOf, TextLess)
        && |sorted| == |entries|
        && forall i :: 0 <= i < |entries| ==> item.items[i] == Array([TextString(sorted[i].0), ByteString(sorted[i].1)])
  {
    hide Encode, Decode, StableSort, TextLess;
    TextLessIsTotal();
    var sorted := StableSort(entries, ProfileOf, TextLess);
    StableSortMultiset(entries, ProfileOf, TextLess);
    StableSortSorted(entries, ProfileOf, TextLess);
    var item := Array(Mapped(sorted, GenerationItem));
    EncodeRoundTrip(item, []);
    assert Encode(item) + [] == EncodeGeneration(entries);
  }
}
