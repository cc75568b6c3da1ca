/**
 Agent configuration (`agent/config.rs`): the validation loops, and which rule a
 profile applies to an RP. Path canonicalization and host-name lookups belong to
 the environment.
 */
module AgentConfig {
  import opened Bytes
  import opened Texts
  import opened Wrappers
  import opened AgentTypes
  import opened Paths
  import opened RpIds

  const BACKSLASH: byte := 92
  const MAX_OPERATIONS := 4096
  const MAX_CONCURRENT_SESSIONS := 64
  const DEVICE_NAME_MAX := 127
  const DEVICE_PHYS_MAX := 63
  const DEVICE_UNIQ_MAX := 63
  const HUMAN_VENDOR_ID := 0x15d9
  const HUMAN_PRODUCT_ID := 0x0a37
  const MAX_PROFILE_ID_LEN := 128

  datatype Component = ParentDir | Name(name: Text)

  datatype RawPath = RawPath(absolute: bool, components: seq<Component>)

  function Join(a: RawPath, b: RawPath): RawPath {
    if b.absolute then b else RawPath(a.absolute, a.components + b.components)
  }

  datatype Storage =
    | Local(path: RawPath, pinPath: RawPath)
    | Pass(storePath: RawPath, path: RawPath, pinPath: RawPath)
    | Tpm(path: RawPath, pinPath: RawPath)

  datatype Mode = SameUser | Isolated

  datatype BrowserScope = SessionScope | ProfileScope

  datatype CdpExpose = Pipe | Port

  datatype Device = Device(name: Text, phys: Text, uniq: Text, vendorId: u16, productId: u16)

  datatype Profile = Profile(
    mode: Mode,
    principalUser: Text,
    rpIds: seq<Text>,
    requireUv: bool,
    credentialRefs: Option<seq<CredentialRef>>,
    maxOperations: nat,
    maxConcurrentSessions: nat,
    browserScope: BrowserScope,
    credentialSelection: CredentialSelection,
    storage: Option<Storage>,
    registrationAllowed: bool,
    rules: seq<RpRule>,
    device: Device,
    startUrl: Option<Text>,
    browserCommand: Option<seq<Text>>,
    browserUser: Option<Text>,
    browserRuntimeRoot: Option<RawPath>,
    browserCdpExpose: Option<CdpExpose>,
    browserCdpPort: Option<nat>)

  /** A profile under its name; `profiles` lists the map in iteration order. */
  datatype Named = Named(name: Text, profile: Profile)

  datatype Config = Config(
    enabled: bool,
    profiles: seq<Named>,
    auditPath: Option<RawPath>,
    acknowledgeGlobalSameUser: seq<Text>,
    acknowledgeSameUserRegistration: seq<Text>)

  datatype Env = Env(hosts: Hosts, canonical: RawPath -> Path)

  // ----- Rules -----

  function LegacyConfirm(requireUv: bool): CeremonyPolicy {
    CeremonyPolicy(Confirm, Human, if requireUv then Human else NoSource)
  }

  function DenyPolicy(): CeremonyPolicy { CeremonyPolicy(Deny, NoSource, NoSource) }

  /** `effective_rules`: the explicit rules, or one confirming rule per legacy RP id. */
  function EffectiveRules(p: Profile): seq<RpRule> {
    if p.rules != [] then p.rules
    else
      seq(|p.rpIds|, i requires 0 <= i < |p.rpIds| =>
        RpRule(
          p.rpIds[i],
          if p.registrationAllowed then LegacyConfirm(p.requireUv) else DenyPolicy(),
          LegacyConfirm(p.requireUv),
          None))
  }

  predicate HasId(rule: RpRule, id: Text) { Normalize(rule.rpId) == id }

  /** The first rule with normalized id `id`. */
  function FindRule(rules: seq<RpRule>, id: Text): (r: Option<RpRule>)
    ensures r.Some? ==> r.value in rules && HasId(r.value, id)
    ensures r.None? ==> forall rule :: rule in rules ==> !HasId(rule, id)
  {
    if rules == [] then None
    else if HasId(rules[0], id) then Some(rules[0])
    else FindRule(rules[1..], id)
  }

  /** `rule_for_rp`: the exact rule, else the wildcard. */
  function RuleForRp(h: Hosts, p: Profile, rpId: Text): Option<RpRule> {
    match ValidateRpId(h, rpId)
    case Err(_) => None
    case Ok(normalized) =>
      var exact := FindRule(EffectiveRules(p), normalized);
      if exact.Some? then exact else FindRule(EffectiveRules(p), ANY_RP_ID)
  }

  /** `credential_selection_for_rp`. */
  function CredentialSelectionFor(h: Hosts, p: Profile, rpId: Text): CredentialSelection {
    var rule := RuleForRp(h, p, rpId);
    if rule.Some? && rule.value.credentialSelection.Some? then rule.value.credentialSelection.value
    else p.credentialSelection
  }

  predicate AllowsRegistration(p: Profile) {
    exists rule :: rule in EffectiveRules(p) && rule.register.authorization != Deny
  }

  // ----- What a valid profile is -----

  predicate CeremonyValid(c: CeremonyPolicy) {
    && (c.authorization == Deny ==> c.userPresence == NoSource && c.userVerification == NoSource)
    && (c.authorization == Allow ==> c.userPresence != Human)
  }

  /** A selected credential is one of the profile's, if it lists them. */
  predicate Listed(selection: CredentialSelection, refs: Option<seq<CredentialRef>>) {
    selection.Credential? && refs.Some? ==> selection.reference in refs.value
  }

  predicate RuleAcceptable(h: Hosts, p: Profile, rule: RpRule) {
    && ValidateRuleId(h, rule.rpId).Ok?
    && CeremonyValid(rule.register) && CeremonyValid(rule.authenticate)
    && (rule.credentialSelection.Some? ==> Listed(rule.credentialSelection.value, p.credentialRefs))
  }

  predicate DistinctIds(rules: seq<RpRule>) {
    forall i, j :: 0 <= i < j < |rules| ==> Normalize(rules[i].rpId) != Normalize(rules[j].rpId)
  }

  predicate WildcardAcceptable(p: Profile, rule: RpRule) {
    && p.rules != [] && p.mode == SameUser && p.credentialRefs.None?
    && rule.register.authorization == Deny
    && !(rule.credentialSelection.Some? && rule.credentialSelection.value.Credential?)
  }

  predicate LimitsValid(p: Profile) {
    && p.principalUser != []
    && 1 <= p.maxOperations <= 4096
    && p.maxConcurrentSessions <= 64
    && (p.browserScope == SessionScope ==>
          && 1 <= p.maxConcurrentSessions
          && (p.maxConcurrentSessions > 1 && p.browserCdpExpose == Some(Port) ==>
                p.browserCdpPort.None? || p.browserCdpPort.value == 0))
  }

  predicate DeviceFieldValid(t: Text, max: nat) { 0 !in t && |t| <= max }

  predicate IsHumanDevice(d: Device) {
    && d.name == Ascii("virtual-fido") && d.phys == Ascii("virtual-fido-001")
    && d.vendorId == HUMAN_VENDOR_ID && d.productId == HUMAN_PRODUCT_ID
  }

  predicate DeviceValid(d: Device) {
    && DeviceFieldValid(d.name, 127) && DeviceFieldValid(d.phys, 63) && DeviceFieldValid(d.uniq, 63)
    && !(d.name == Ascii("virtual-fido") && d.phys == Ascii("virtual-fido-001")
         && d.vendorId == 0x15d9 && d.productId == 0x0a37)
  }

  function CredentialPath(env: Env, s: Storage): Path {
    match s
    case Local(path, _) => env.canonical(path)
    case Pass(storePath, path, _) => env.canonical(Join(storePath, path))
    case Tpm(path, _) => env.canonical(path)
  }

  function PinPath(env: Env, s: Storage): Path {
    match s
    case Local(_, pinPath) => env.canonical(pinPath)
    case Pass(storePath, _, pinPath) => env.canonical(Join(storePath, pinPath))
    case Tpm(_, pinPath) => env.canonical(pinPath)
  }

  /** One path is the other or lies beneath it (`starts_with`, either way). */
  predicate Overlap(a: Path, b: Path) { a <= b || b <= a }

  predicate StorageValid(env: Env, s: Storage) {
    s.Pass? ==>
      && !s.pinPath.absolute && ParentDir !in s.pinPath.components
      && !Overlap(CredentialPath(env, s), PinPath(env, s))
  }

  predicate ModeValid(env: Env, p: Profile) {
    match p.mode
    case SameUser => p.storage.None?
    case Isolated =>
      && p.device.name != [] && p.device.phys != [] && p.device.uniq != []
      && DeviceValid(p.device)
      && p.storage.Some? && StorageValid(env, p.storage.value)
      && p.browserUser.None? && p.browserRuntimeRoot.None?
  }

  predicate CommandValid(command: Option<seq<Text>>) {
    command.Some? ==> command.value != [] && forall i :: 0 <= i < |command.value| ==> 0 !in command.value[i]
  }

  predicate UrlValid(url: Option<Text>) {
    url.Some? ==> url.value != [] && (Ascii("https://") <= url.value || Ascii("http://") <= url.value)
  }

  predicate ProfileValid(env: Env, p: Profile) {
    && LimitsValid(p)
    && Listed(p.credentialSelection, p.credentialRefs)
    && (p.rules != [] ==> p.rpIds == [] && !p.registrationAllowed && !p.requireUv)
    && RulesValid(env.hosts, p)
    && CommandValid(p.browserCommand)
    && ModeValid(env, p)
    && UrlValid(p.startUrl)
  }

  predicate RulesValid(h: Hosts, p: Profile) {
    var rules := EffectiveRules(p);
    && (forall i :: 0 <= i < |rules| ==> RuleAcceptable(h, p, rules[i]))
    && DistinctIds(rules)
    && (forall i :: 0 <= i < |rules| && HasId(rules[i], ANY_RP_ID) ==> WildcardAcceptable(p, rules[i]))
  }

  /** Among rules with distinct ids, an id picks one rule. */
  lemma IdPicksOne(rules: seq<RpRule>, a: RpRule, b: RpRule)
    requires DistinctIds(rules) && a in rules && b in rules && Normalize(a.rpId) == Normalize(b.rpId)
    ensures a == b
  {}

  // ----- Which error a profile is refused with -----

  datatype RuleError =
    | BadRpId(error: RpIdError)
    | DuplicateRule
    | EvidenceWithDeny(registration: bool)
    | HumanWithAllow(registration: bool)
    | RuleSelectionUnlisted

  datatype WildcardError =
    | NeedsExplicitRules | NeedsSameUser | NeedsNoReferences | NeedsDeniedRegistration | SelectsOneCredential

  datatype DeviceField = NameField | PhysField | UniqField

  datatype DeviceError = HasNul(field: DeviceField) | TooLong(field: DeviceField) | HumanDevice

  datatype StorageError = PinAbsolute | PinTraversal | PinOverlap

  datatype ProfileError =
    | EmptyUser | BadMaxOperations | BadSessionCount | PortNeedsOneSession | TooManySessions
    | SelectionUnlisted | MixedRules
    | BadRule(index: nat, rule: RuleError)
    | BadWildcard(wildcard: WildcardError)
    | EmptyCommand | NulInCommand(index: nat)
    | StorageGiven | IncompleteDevice | BadDevice(device: DeviceError)
    | NoStorage | BadStorage(storage: StorageError) | BrowserUserGiven | RuntimeRootGiven
    | EmptyUrl | BadScheme

  /** The first of two checks that fails. */
  function Or<E>(a: Option<E>, b: Option<E>): Option<E> { if a.Some? then a else b }

  function Fails<E>(bad: bool, error: E): Option<E> { if bad then Some(error) else None }

  function LimitsError(p: Profile): Option<ProfileError> {
    var sessions, scope := p.maxConcurrentSessions, p.browserScope;
    var port := if p.browserCdpPort.Some? then p.browserCdpPort.value else 0;
    Or(Fails(p.principalUser == [], EmptyUser),
    Or(Fails(p.maxOperations == 0 || p.maxOperations > MAX_OPERATIONS, BadMaxOperations),
    Or(Fails(scope == SessionScope && (sessions == 0 || sessions > MAX_CONCURRENT_SESSIONS), BadSessionCount),
    Or(Fails(scope == SessionScope && sessions > 1 && p.browserCdpExpose == Some(Port) && port != 0, PortNeedsOneSession),
       Fails(scope == ProfileScope && sessions > MAX_CONCURRENT_SESSIONS, TooManySessions)))))
  }

  function CeremonyError(c: CeremonyPolicy, registration: bool): Option<RuleError> {
    Or(Fails(c.authorization == Deny && (c.userPresence != NoSource || c.userVerification != NoSource),
             EvidenceWithDeny(registration)),
       Fails(c.authorization == Allow && c.userPresence == Human, HumanWithAllow(registration)))
  }

  predicate Repeats(rules: seq<RpRule>, i: nat)
    requires i < |rules|
  {
    exists j :: 0 <= j < i && Normalize(rules[j].rpId) == Normalize(rules[i].rpId)
  }

  function RuleErrorAt(h: Hosts, p: Profile, rules: seq<RpRule>, i: nat): Option<RuleError>
    requires i < |rules|
  {
    var rule := rules[i];
    var id := ValidateRuleId(h, rule.rpId);
    if id.Err? then Some(BadRpId(id.error))
    else
      Or(Fails(Repeats(rules, i), DuplicateRule),
      Or(CeremonyError(rule.register, true),
      Or(CeremonyError(rule.authenticate, false),
         Fails(rule.credentialSelection.Some? && !Listed(rule.credentialSelection.value, p.credentialRefs),
               RuleSelectionUnlisted))))
  }

  function RuleErrorFrom(h: Hosts, p: Profile, rules: seq<RpRule>, i: nat): Option<ProfileError>
    requires i <= |rules|
    decreases |rules| - i
  {
    if i == |rules| then None
    else
      var error := RuleErrorAt(h, p, rules, i);
      if error.Some? then Some(BadRule(i, error.value)) else RuleErrorFrom(h, p, rules, i + 1)
  }

  function WildcardErrorOf(p: Profile, rule: RpRule): Option<WildcardError> {
    Or(Fails(p.rules == [], NeedsExplicitRules),
    Or(Fails(p.mode != SameUser, NeedsSameUser),
    Or(Fails(p.credentialRefs.Some?, NeedsNoReferences),
    Or(Fails(rule.register.authorization != Deny, NeedsDeniedRegistration),
       Fails(rule.credentialSelection.Some? && rule.credentialSelection.value.Credential?, SelectsOneCredential)))))
  }

  function WildcardErrorIn(p: Profile, rules: seq<RpRule>): Option<ProfileError> {
    var wildcard := FindRule(rules, ANY_RP_ID);
    if wildcard.None? then None
    else
      var error := WildcardErrorOf(p, wildcard.value);
      if error.Some? then Some(BadWildcard(error.value)) else None
  }

  function RulesError(h: Hosts, p: Profile): Option<ProfileError> {
    var rules := EffectiveRules(p);
    Or(RuleErrorFrom(h, p, rules, 0), WildcardErrorIn(p, rules))
  }

  function NulFrom(command: seq<Text>, i: nat): Option<ProfileError>
    requires i <= |command|
    decreases |command| - i
  {
    if i == |command| then None
    else if 0 in command[i] then Some(NulInCommand(i))
    else NulFrom(command, i + 1)
  }

  function CommandError(command: Option<seq<Text>>): Option<ProfileError> {
    if command.None? then None
    else if command.value == [] then Some(EmptyCommand)
    else NulFrom(command.value, 0)
  }

  function DeviceFieldError(t: Text, field: DeviceField, max: nat): Option<DeviceError> {
    Or(Fails(0 in t, HasNul(field)), Fails(|t| > max, TooLong(field)))
  }

  function DeviceErrorOf(d: Device): Option<DeviceError> {
    Or(DeviceFieldError(d.name, NameField, DEVICE_NAME_MAX),
    Or(DeviceFieldError(d.phys, PhysField, DEVICE_PHYS_MAX),
    Or(DeviceFieldError(d.uniq, UniqField, DEVICE_UNIQ_MAX),
       Fails(IsHumanDevice(d), HumanDevice))))
  }

  function StorageErrorOf(env: Env, s: Storage): Option<StorageError> {
    if !s.Pass? then None
    else
      Or(Fails(s.pinPath.absolute, PinAbsolute),
      Or(Fails(ParentDir in s.pinPath.components, PinTraversal),
         Fails(Overlap(CredentialPath(env, s), PinPath(env, s)), PinOverlap)))
  }

  function IsolatedError(env: Env, p: Profile): Option<ProfileError> {
    var d := p.device;
    if d.name == [] || d.phys == [] || d.uniq == [] then Some(IncompleteDevice)
    else if DeviceErrorOf(d).Some? then Some(BadDevice(DeviceErrorOf(d).value))
    else if p.storage.None? then Some(NoStorage)
    else if StorageErrorOf(env, p.storage.value).Some? then Some(BadStorage(StorageErrorOf(env, p.storage.value).value))
    else Or(Fails(p.browserUser.Some?, BrowserUserGiven), Fails(p.browserRuntimeRoot.Some?, RuntimeRootGiven))
  }

  function ModeError(env: Env, p: Profile): Option<ProfileError> {
    match p.mode
    case SameUser => Fails(p.storage.Some?, StorageGiven)
    case Isolated => IsolatedError(env, p)
  }

  function UrlError(url: Option<Text>): Option<ProfileError> {
    if url.None? then None
    else
      Or(Fails(url.value == [], EmptyUrl),
         Fails(!(Ascii("https://") <= url.value) && !(Ascii("http://") <= url.value), BadScheme))
  }

  /** The first check of `AgentProfileConfig::validate` that fails. */
  function ProfileErrorOf(env: Env, p: Profile): Option<ProfileError> {
    Or(LimitsError(p),
    Or(Fails(!Listed(p.credentialSelection, p.credentialRefs), SelectionUnlisted),
    Or(Fails(p.rules != [] && (p.rpIds != [] || p.registrationAllowed || p.requireUv), MixedRules),
    Or(RulesError(env.hosts, p),
    Or(CommandError(p.browserCommand),
    Or(ModeError(env, p), UrlError(p.startUrl)))))))
  }

  lemma RuleErrorAtExact(h: Hosts, p: Profile, rules: seq<RpRule>, i: nat)
    requires i < |rules|
    ensures RuleErrorAt(h, p, rules, i).None? <==> RuleAcceptable(h, p, rules[i]) && !Repeats(rules, i)
  {
    hide ValidateRuleId, Repeats, Listed;
  }

  /** A rule is reported exactly if it is the first that is unacceptable or repeats an earlier one's id. */
  lemma {:induction false} FirstBadRule(h: Hosts, p: Profile, rules: seq<RpRule>, from: nat)
    requires from <= |rules|
    ensures RuleErrorFrom(h, p, rules, from).None? <==>
      forall i :: from <= i < |rules| ==> RuleErrorAt(h, p, rules, i).None?
    ensures RuleErrorFrom(h, p, rules, from).Some? ==>
      var error := RuleErrorFrom(h, p, rules, from).value;
      && error.BadRule? && from <= error.index < |rules|
      && RuleErrorAt(h, p, rules, error.index) == Some(error.rule)
      && forall i :: from <= i < error.index ==> RuleErrorAt(h, p, rules, i).None?
    decreases |rules| - from
  {
    hide RuleErrorAt;
    if from < |rules| {
      FirstBadRule(h, p, rules, from + 1);
    }
  }

  lemma DistinctIffNoRepeat(rules: seq<RpRule>)
    ensures DistinctIds(rules) <==> forall i :: 0 <= i < |rules| ==> !Repeats(rules, i)
  {
    hide Normalize;
    if forall i :: 0 <= i < |rules| ==> !Repeats(rules, i) {
      forall i, j | 0 <= i < j < |rules|
        ensures Normalize(rules[i].rpId) != Normalize(rules[j].rpId)
      {
        assert !Repeats(rules, j);
      }
    }
  }

  lemma WildcardErrorExact(p: Profile, rules: seq<RpRule>)
    requires DistinctIds(rules)
    ensures WildcardErrorIn(p, rules).None? <==>
      forall i :: 0 <= i < |rules| && HasId(rules[i], ANY_RP_ID) ==> WildcardAcceptable(p, rules[i])
  {
    hide Normalize, FindRule;
    var wildcard := FindRule(rules, ANY_RP_ID);
    if wildcard.Some? {
      assert WildcardErrorOf(p, wildcard.value).None? <==> WildcardAcceptable(p, wildcard.value);
      forall i | 0 <= i < |rules| && HasId(rules[i], ANY_RP_ID)
        ensures rules[i] == wildcard.value
      {
        IdPicksOne(rules, rules[i], wildcard.value);
      }
      var k :| 0 <= k < |rules| && rules[k] == wildcard.value;
    }
  }

  lemma RulesErrorExact(h: Hosts, p: Profile)
    ensures RulesError(h, p).None? <==> RulesValid(h, p)
  {
    hide RuleErrorAt, RuleErrorFrom, WildcardErrorIn, RuleAcceptable, WildcardAcceptable, Repeats, DistinctIds, EffectiveRules, HasId;
    var rules := EffectiveRules(p);
    FirstBadRule(h, p, rules, 0);
    DistinctIffNoRepeat(rules);
    forall i | 0 <= i < |rules|
      ensures RuleErrorAt(h, p, rules, i).None? <==> RuleAcceptable(h, p, rules[i]) && !Repeats(rules, i)
    {
      RuleErrorAtExact(h, p, rules, i);
    }
    if DistinctIds(rules) {
      WildcardErrorExact(p, rules);
    }
  }

  lemma {:induction false} NulFromExact(command: seq<Text>, i: nat)
    requires i <= |command|
    ensures NulFrom(command, i).None? <==> forall j :: i <= j < |command| ==> 0 !in command[j]
    decreases |command| - i
  {
    if i < |command| {
      NulFromExact(command, i + 1);
    }
  }

  lemma ModeErrorExact(env: Env, p: Profile)
    ensures ModeError(env, p).None? <==> ModeValid(env, p)
  {
    hide Overlap, CredentialPath, PinPath, Ascii;
  }

  /** No check fails exactly when the profile is valid. */
  lemma ProfileErrorExact(env: Env, p: Profile)
    ensures ProfileErrorOf(env, p).None? <==> ProfileValid(env, p)
  {
    hide RulesError, RulesValid, ModeError, ModeValid, Ascii, Listed;
    RulesErrorExact(env.hosts, p);
    ModeErrorExact(env, p);
    if p.browserCommand.Some? {
      NulFromExact(p.browserCommand.value, 0);
    }
  }

  // ----- The order of the checks -----

  /** Whether check number `k` of a profile fails, in the order they are made. */
  predicate CheckFails(env: Env, p: Profile, k: nat) {
    match k
    case 0 => p.principalUser == []
    case 1 => !(1 <= p.maxOperations <= 4096)
    case 2 => p.browserScope == SessionScope && !(1 <= p.maxConcurrentSessions <= 64)
    case 3 =>
      && p.browserScope == SessionScope && p.maxConcurrentSessions > 1
      && p.browserCdpExpose == Some(Port) && p.browserCdpPort.Some? && p.browserCdpPort.value != 0
    case 4 => p.browserScope == ProfileScope && p.maxConcurrentSessions > 64
    case 5 =>
      && p.credentialSelection.Credential? && p.credentialRefs.Some?
      && p.credentialSelection.reference !in p.credentialRefs.value
    case 6 => p.rules != [] && !(p.rpIds == [] && !p.registrationAllowed && !p.requireUv)
    case 7 => RuleErrorFrom(env.hosts, p, EffectiveRules(p), 0).Some?
    case 8 => WildcardErrorIn(p, EffectiveRules(p)).Some?
    case 9 => p.browserCommand == Some([])
    case 10 => p.browserCommand.Some? && exists i :: 0 <= i < |p.browserCommand.value| && 0 in p.browserCommand.value[i]
    case 11 => p.mode == SameUser && p.storage.Some?
    case 12 => p.mode == Isolated && (p.device.name == [] || p.device.phys == [] || p.device.uniq == [])
    case 13 => p.mode == Isolated && !DeviceValid(p.device)
    case 14 => p.mode == Isolated && p.storage.None?
    case 15 => p.mode == Isolated && p.storage.Some? && !StorageValid(env, p.storage.value)
    case 16 => p.mode == Isolated && p.browserUser.Some?
    case 17 => p.mode == Isolated && p.browserRuntimeRoot.Some?
    case 18 => p.startUrl == Some([])
    case 19 => p.startUrl.Some? && !(Ascii("http://") <= p.startUrl.value || Ascii("https://") <= p.startUrl.value)
    case _ => false
  }

  /** The check an error reports. */
  function CheckOf(e: ProfileError): nat {
    match e
    case EmptyUser => 0
    case BadMaxOperations => 1
    case BadSessionCount => 2
    case PortNeedsOneSession => 3
    case TooManySessions => 4
    case SelectionUnlisted => 5
    case MixedRules => 6
    case BadRule(_, _) => 7
    case BadWildcard(_) => 8
    case EmptyCommand => 9
    case NulInCommand(_) => 10
    case StorageGiven => 11
    case IncompleteDevice => 12
    case BadDevice(_) => 13
    case NoStorage => 14
    case BadStorage(_) => 15
    case BrowserUserGiven => 16
    case RuntimeRootGiven => 17
    case EmptyUrl => 18
    case BadScheme => 19
  }

  /** `error` reports the first failing check among `from` to `to`, or there is none. */
  ghost predicate IsFirst(env: Env, p: Profile, error: Option<ProfileError>, from: nat, to: nat) {
    match error
    case None => forall k :: from <= k < to ==> !CheckFails(env, p, k)
    case Some(e) =>
      && from <= CheckOf(e) < to && CheckFails(env, p, CheckOf(e))
      && forall k :: from <= k < CheckOf(e) ==> !CheckFails(env, p, k)
  }

  lemma FirstOf(env: Env, p: Profile, a: Option<ProfileError>, b: Option<ProfileError>, from: nat, mid: nat, to: nat)
    requires IsFirst(env, p, a, from, mid) && IsFirst(env, p, b, mid, to) && from <= mid <= to
    ensures IsFirst(env, p, Or(a, b), from, to)
  {
    hide CheckFails, CheckOf;
  }

  lemma FirstLimit(env: Env, p: Profile)
    ensures IsFirst(env, p, LimitsError(p), 0, 5)
  {
    hide RuleErrorFrom, WildcardErrorIn, DeviceValid, StorageValid, Listed, EffectiveRules, Ascii;
  }

  lemma FirstSelection(env: Env, p: Profile)
    ensures IsFirst(env, p, Fails(!Listed(p.credentialSelection, p.credentialRefs), SelectionUnlisted), 5, 6)
    ensures IsFirst(env, p, Fails(p.rules != [] && (p.rpIds != [] || p.registrationAllowed || p.requireUv), MixedRules), 6, 7)
  {
    hide RuleErrorFrom, WildcardErrorIn, DeviceValid, StorageValid, EffectiveRules, Ascii;
  }

  lemma FirstRule(env: Env, p: Profile)
    ensures IsFirst(env, p, RuleErrorFrom(env.hosts, p, EffectiveRules(p), 0), 7, 8)
  {
    hide RuleErrorFrom, RuleErrorAt, WildcardErrorIn, DeviceValid, StorageValid, Listed, EffectiveRules, Ascii;
    FirstBadRule(env.hosts, p, EffectiveRules(p), 0);
  }

  lemma FirstWildcard(env: Env, p: Profile)
    ensures IsFirst(env, p, WildcardErrorIn(p, EffectiveRules(p)), 8, 9)
  {
    assert WildcardErrorIn(p, EffectiveRules(p)).Some? ==> WildcardErrorIn(p, EffectiveRules(p)).value.BadWildcard?;
    hide RuleErrorFrom, WildcardErrorIn, DeviceValid, StorageValid, Listed, EffectiveRules, Ascii;
  }

  lemma {:induction false} NulFromIs(command: seq<Text>, i: nat)
    requires i <= |command|
    ensures NulFrom(command, i).Some? ==> NulFrom(command, i).value.NulInCommand?
    decreases |command| - i
  {
    if i < |command| {
      NulFromIs(command, i + 1);
    }
  }

  lemma FirstCommand(env: Env, p: Profile)
    ensures IsFirst(env, p, CommandError(p.browserCommand), 9, 11)
  {
    hide RuleErrorFrom, WildcardErrorIn, DeviceValid, StorageValid, Listed, EffectiveRules, Ascii, NulFrom;
    if p.browserCommand.Some? {
      NulFromExact(p.browserCommand.value, 0);
      NulFromIs(p.browserCommand.value, 0);
    }
  }

  lemma RulesErrorSplits(h: Hosts, p: Profile)
    ensures RulesError(h, p) == Or(RuleErrorFrom(h, p, EffectiveRules(p), 0), WildcardErrorIn(p, EffectiveRules(p)))
  {
    hide RuleErrorFrom, WildcardErrorIn, EffectiveRules, Or;
  }

  lemma PartsExact(env: Env, p: Profile)
    ensures DeviceErrorOf(p.device).None? <==> DeviceValid(p.device)
    ensures p.storage.Some? ==> (StorageErrorOf(env, p.storage.value).None? <==> StorageValid(env, p.storage.value))
  {
    hide Ascii, Overlap, CredentialPath, PinPath;
  }

  lemma FirstMode(env: Env, p: Profile)
    ensures IsFirst(env, p, ModeError(env, p), 11, 18)
  {
    hide RuleErrorFrom, WildcardErrorIn, Listed, EffectiveRules, Ascii, DeviceErrorOf, DeviceValid, StorageErrorOf, StorageValid;
    PartsExact(env, p);
  }

  lemma FirstUrl(env: Env, p: Profile)
    ensures IsFirst(env, p, UrlError(p.startUrl), 18, 20)
  {
    hide RuleErrorFrom, WildcardErrorIn, DeviceValid, StorageValid, Listed, EffectiveRules, Ascii;
  }

  /** A profile is refused with the first of the twenty checks that fails, and accepted if none does. */
  lemma FirstFailingCheck(env: Env, p: Profile)
    ensures IsFirst(env, p, ProfileErrorOf(env, p), 0, 20)
  {
    hide IsFirst, LimitsError, RulesError, CommandError, ModeError, UrlError, Or, Fails, Listed;
    FirstLimit(env, p);
    FirstSelection(env, p);
    FirstRule(env, p);
    FirstWildcard(env, p);
    FirstOf(env, p, RuleErrorFrom(env.hosts, p, EffectiveRules(p), 0), WildcardErrorIn(p, EffectiveRules(p)), 7, 8, 9);
    RulesErrorSplits(env.hosts, p);
    FirstCommand(env, p);
    FirstMode(env, p);
    FirstUrl(env, p);
    var unlisted := Fails(!Listed(p.credentialSelection, p.credentialRefs), SelectionUnlisted);
    var mixed := Fails(p.rules != [] && (p.rpIds != [] || p.registrationAllowed || p.requireUv), MixedRules);
    var tail := Or(ModeError(env, p), UrlError(p.startUrl));
    FirstOf(env, p, ModeError(env, p), UrlError(p.startUrl), 11, 18, 20);
    FirstOf(env, p, CommandError(p.browserCommand), tail, 9, 11, 20);
    var commands := Or(CommandError(p.browserCommand), tail);
    FirstOf(env, p, RulesError(env.hosts, p), commands, 7, 9, 20);
    var rules := Or(RulesError(env.hosts, p), commands);
    FirstOf(env, p, mixed, rules, 6, 7, 20);
    FirstOf(env, p, unlisted, Or(mixed, rules), 5, 6, 20);
    FirstOf(env, p, LimitsError(p), Or(unlisted, Or(mixed, rules)), 0, 5, 20);
  }

  /** The error of a rule: of its id first, then of repetition, of its two ceremonies, and of its selection. */
  lemma RuleErrorIs(h: Hosts, p: Profile, rules: seq<RpRule>, i: nat)
    requires i < |rules|
    ensures var rule, error := rules[i], RuleErrorAt(h, p, rules, i);
      var badId := !(Normalize(rule.rpId) == ANY_RP_ID || IsRpId(h, Normalize(rule.rpId)));
      var repeated := exists j :: 0 <= j < i && Normalize(rules[j].rpId) == Normalize(rule.rpId);
      && (badId <==> error.Some? && error.value.BadRpId?)
      && (!badId && repeated <==> error == Some(DuplicateRule))
      && (!badId && !repeated && !CeremonyValid(rule.register) <==>
            error == Some(EvidenceWithDeny(true)) || error == Some(HumanWithAllow(true)))
      && (!badId && !repeated && CeremonyValid(rule.register) && !CeremonyValid(rule.authenticate) <==>
            error == Some(EvidenceWithDeny(false)) || error == Some(HumanWithAllow(false)))
      && (error == Some(RuleSelectionUnlisted) ==>
            && rule.credentialSelection.Some? && rule.credentialSelection.value.Credential?
            && p.credentialRefs.Some? && rule.credentialSelection.value.reference !in p.credentialRefs.value)
  {
    ValidateRuleIdExact(h, rules[i].rpId);
    hide ValidateRuleId, IsRpId, Normalize;
  }

  /** Which of its demands a wildcard rule fails first. */
  lemma WildcardErrorIs(p: Profile, rule: RpRule)
    ensures var error, selection := WildcardErrorOf(p, rule), rule.credentialSelection;
      && (error == Some(NeedsExplicitRules) <==> p.rules == [])
      && (error == Some(NeedsSameUser) <==> p.rules != [] && p.mode == Isolated)
      && (error == Some(NeedsNoReferences) <==> p.rules != [] && p.mode == SameUser && p.credentialRefs.Some?)
      && (error == Some(NeedsDeniedRegistration) <==>
            p.rules != [] && p.mode == SameUser && p.credentialRefs.None? && rule.register.authorization != Deny)
      && (error == Some(SelectsOneCredential) <==>
            && p.rules != [] && p.mode == SameUser && p.credentialRefs.None? && rule.register.authorization == Deny
            && selection.Some? && selection.value.Credential?)
  {}

  /** A device is refused for its name first, then its phys, its uniq, and for being the human's device. */
  lemma DeviceErrorIs(d: Device)
    ensures var error := DeviceErrorOf(d);
      var name, phys, uniq := DeviceFieldValid(d.name, 127), DeviceFieldValid(d.phys, 63), DeviceFieldValid(d.uniq, 63);
      && (error == Some(HasNul(NameField)) <==> 0 in d.name)
      && (error == Some(TooLong(NameField)) <==> 0 !in d.name && |d.name| >= 128)
      && (error == Some(HasNul(PhysField)) <==> name && 0 in d.phys)
      && (error == Some(TooLong(PhysField)) <==> name && 0 !in d.phys && |d.phys| >= 64)
      && (error == Some(HasNul(UniqField)) <==> name && phys && 0 in d.uniq)
      && (error == Some(TooLong(UniqField)) <==> name && phys && 0 !in d.uniq && |d.uniq| >= 64)
      && (error == Some(HumanDevice) <==> name && phys && uniq && !DeviceValid(d))
  {
    hide Ascii;
  }

  /** A pass store is refused for an absolute pin path first, then for `..` in it, then for overlapping paths. */
  lemma StorageErrorIs(env: Env, s: Storage)
    ensures var error := StorageErrorOf(env, s);
      && (error == Some(PinAbsolute) <==> s.Pass? && s.pinPath.absolute)
      && (error == Some(PinTraversal) <==> s.Pass? && !s.pinPath.absolute && ParentDir in s.pinPath.components)
      && (error == Some(PinOverlap) <==>
            && s.Pass? && !s.pinPath.absolute && ParentDir !in s.pinPath.components
            && Overlap(CredentialPath(env, s), PinPath(env, s)))
  {
    hide Overlap;
  }

  // ----- The validation loops -----

  /** The loop over a profile's rules. */
  method ValidateRules(h: Hosts, p: Profile) returns (error: Option<ProfileError>)
    ensures error == RulesError(h, p)
  {
    hide Normalize, ValidateRuleId, CeremonyError, WildcardErrorOf, EffectiveRules, Listed, RuleErrorFrom;
    var rules := EffectiveRules(p);
    var seen: set<Text> := {};
    for i := 0 to |rules|
      invariant RuleErrorFrom(h, p, rules, 0) == RuleErrorFrom(h, p, rules, i)
      invariant forall j :: 0 <= j < i ==> Normalize(rules[j].rpId) in seen
      invariant forall id :: id in seen ==> exists j :: 0 <= j < i && Normalize(rules[j].rpId) == id
    {
      RuleErrorUnfolds(h, p, rules, i);
      var rule := rules[i];
      var id := ValidateRuleId(h, rule.rpId);
      if id.Err? {
        return Some(BadRule(i, BadRpId(id.error)));
      }
      var normalized := Normalize(rule.rpId);
      assert normalized in seen <==> Repeats(rules, i);
      if normalized in seen {
        return Some(BadRule(i, DuplicateRule));
      }
      seen := seen + {normalized};
      var register := CeremonyError(rule.register, true);
      if register.Some? {
        return Some(BadRule(i, register.value));
      }
      var authenticate := CeremonyError(rule.authenticate, false);
      if authenticate.Some? {
        return Some(BadRule(i, authenticate.value));
      }
      if rule.credentialSelection.Some? && !Listed(rule.credentialSelection.value, p.credentialRefs) {
        return Some(BadRule(i, RuleSelectionUnlisted));
      }
    }
    NoMoreRules(h, p, rules);
    return WildcardErrorIn(p, rules);
  }

  lemma RuleErrorUnfolds(h: Hosts, p: Profile, rules: seq<RpRule>, i: nat)
    requires i < |rules|
    ensures RuleErrorFrom(h, p, rules, i) ==
      var error := RuleErrorAt(h, p, rules, i);
      if error.Some? then Some(BadRule(i, error.value)) else RuleErrorFrom(h, p, rules, i + 1)
  {
    hide RuleErrorAt;
  }

  lemma NoMoreRules(h: Hosts, p: Profile, rules: seq<RpRule>)
    ensures RuleErrorFrom(h, p, rules, |rules|) == None
  {}

  /** The loop over the arguments of the browser command. */
  method ValidateCommand(command: Option<seq<Text>>) returns (error: Option<ProfileError>)
    ensures error == CommandError(command)
  {
    if command.None? {
      return None;
    }
    if command.value == [] {
      return Some(EmptyCommand);
    }
    for i := 0 to |command.value|
      invariant NulFrom(command.value, 0) == NulFrom(command.value, i)
    {
      if 0 in command.value[i] {
        return Some(NulInCommand(i));
      }
    }
    return None;
  }

  /** `AgentProfileConfig::validate`: the first failing check, and none exactly for a valid profile. */
  method ValidateProfile(env: Env, p: Profile) returns (error: Option<ProfileError>)
    ensures error == ProfileErrorOf(env, p)
    ensures error.None? <==> ProfileValid(env, p)
  {
    hide RulesError, ModeError, CommandError, UrlError, Listed, ProfileValid;
    ProfileErrorExact(env, p);
    if p.principalUser == [] {
      return Some(EmptyUser);
    }
    if p.maxOperations == 0 || p.maxOperations > MAX_OPERATIONS {
      return Some(BadMaxOperations);
    }
    if p.browserScope == SessionScope {
      if p.maxConcurrentSessions == 0 || p.maxConcurrentSessions > MAX_CONCURRENT_SESSIONS {
        return Some(BadSessionCount);
      }
      var port := if p.browserCdpPort.Some? then p.browserCdpPort.value else 0;
      if p.maxConcurrentSessions > 1 && p.browserCdpExpose == Some(Port) && port != 0 {
        return Some(PortNeedsOneSession);
      }
    }
    if p.browserScope == ProfileScope && p.maxConcurrentSessions > MAX_CONCURRENT_SESSIONS {
      return Some(TooManySessions);
    }
    assert LimitsError(p) == None;
    hide LimitsError;
    if !Listed(p.credentialSelection, p.credentialRefs) {
      return Some(SelectionUnlisted);
    }
    if p.rules != [] && (p.rpIds != [] || p.registrationAllowed || p.requireUv) {
      return Some(MixedRules);
    }
    error := ValidateRules(env.hosts, p);
    if error.Some? {
      return error;
    }
    error := ValidateCommand(p.browserCommand);
    if error.Some? {
      return error;
    }
    error := ModeError(env, p);
    if error.Some? {
      return error;
    }
    return UrlError(p.startUrl);
  }

  // ----- What a valid configuration is -----

  /** `ProfileId::new` accepts the name. */
  predicate ProfileIdValid(name: Text) {
    && 0 < |name| <= 128
    && name == Trim(name)
    && !Contains(name, [DOT, DOT]) && SLASH !in name && BACKSLASH !in name
    && (forall i :: 0 <= i < |name| ==> 0x20 <= name[i] != 0x7f)
    && name != [DOT]
  }

  /** The profile authenticates to any RP with the human's credentials. */
  predicate GlobalSameUser(p: Profile) {
    p.mode == SameUser &&
    exists rule :: rule in EffectiveRules(p) && HasId(rule, ANY_RP_ID) && rule.authenticate.authorization != Deny
  }

  predicate SameUserRegistration(p: Profile) { p.mode == SameUser && AllowsRegistration(p) }

  predicate Admitted(env: Env, config: Config, named: Named) {
    && ProfileIdValid(named.name)
    && ProfileValid(env, named.profile)
    && (GlobalSameUser(named.profile) ==> named.name in config.acknowledgeGlobalSameUser)
    && (SameUserRegistration(named.profile) ==> named.name in config.acknowledgeSameUserRegistration)
  }

  predicate Known(config: Config, name: Text) {
    exists i :: 0 <= i < |config.profiles| && config.profiles[i].name == name
  }

  predicate AcknowledgementsKnown(config: Config) {
    var acknowledged := config.acknowledgeGlobalSameUser + config.acknowledgeSameUserRegistration;
    forall i :: 0 <= i < |acknowledged| ==> Known(config, acknowledged[i])
  }

  function StorageRoots(env: Env, profiles: seq<Named>): seq<Path> {
    if profiles == [] then []
    else
      var last := profiles[|profiles| - 1].profile;
      StorageRoots(env, profiles[..|profiles| - 1]) +
      if last.storage.None? then []
      else [CredentialPath(env, last.storage.value), PinPath(env, last.storage.value)]
  }

  /** The audit path and every profile's credential and pin paths. */
  function AgentRoots(env: Env, config: Config): seq<Path> {
    (if config.auditPath.Some? then [env.canonical(config.auditPath.value)] else []) +
    StorageRoots(env, config.profiles)
  }

  /** All of these and the human's state path, if there is one. */
  function AllRoots(env: Env, config: Config, human: Option<RawPath>): seq<Path> {
    AgentRoots(env, config) + if human.Some? then [env.canonical(human.value)] else []
  }

  predicate NoOverlaps(roots: seq<Path>) {
    forall i, j :: 0 <= i < j < |roots| ==> !Overlap(roots[i], roots[j])
  }

  function Decimal(n: nat): (t: seq<byte>)
    ensures t != []
  {
    (if n < 10 then [] else Decimal(n / 10)) + [48 + n % 10]
  }

  /** The five fields of a device identity, joined by colons. */
  function DeviceKey(d: Device): seq<byte> {
    d.name + [COLON] + d.phys + [COLON] + d.uniq + [COLON] + Decimal(d.vendorId) + [COLON] + Decimal(d.productId)
  }

  predicate DevicesDistinct(profiles: seq<Named>) {
    forall i, j ::
      0 <= i < j < |profiles| && profiles[i].profile.mode == Isolated && profiles[j].profile.mode == Isolated ==>
        DeviceKey(profiles[i].profile.device) != DeviceKey(profiles[j].profile.device)
  }

  predicate EnabledValid(env: Env, config: Config, human: Option<RawPath>) {
    && config.auditPath.Some?
    && AcknowledgementsKnown(config)
    && (forall i :: 0 <= i < |config.profiles| ==> Admitted(env, config, config.profiles[i]))
    && NoOverlaps(AllRoots(env, config, human))
    && DevicesDistinct(config.profiles)
  }

  // ----- Which error a configuration is refused with -----

  datatype IdError = EmptyName | LongName | Whitespace | NulByte | Traversal | Separator | Control

  datatype ConfigError =
    | NoAuditPath
    | UnknownAcknowledgement(index: nat)
    | BadProfileId(index: nat, id: IdError)
    | BadProfile(index: nat, profile: ProfileError)
    | GlobalUnacknowledged(index: nat)
    | RegistrationUnacknowledged(index: nat)
    | RootsOverlap(index: nat, other: nat)
    | HumanOverlap(index: nat)
    | DeviceCollision(index: nat)

  predicate HasControl(name: Text) { exists i :: 0 <= i < |name| && (name[i] < 0x20 || name[i] == 0x7f) }

  /** `ProfileId::validate`. */
  function IdErrorOf(name: Text): Option<IdError> {
    Or(Fails(name == [], EmptyName),
    Or(Fails(|name| > MAX_PROFILE_ID_LEN, LongName),
    Or(Fails(name != Trim(name), Whitespace),
    Or(Fails(0 in name, NulByte),
    Or(Fails(Contains(name, [DOT, DOT]), Traversal),
    Or(Fails(SLASH in name || BACKSLASH in name, Separator),
    Or(Fails(HasControl(name), Control),
       Fails(name == [DOT], Traversal))))))))
  }

  lemma IdErrorExact(name: Text)
    ensures IdErrorOf(name).None? <==> ProfileIdValid(name)
  {
    hide Trim, Contains;
  }

  /** Which of its demands a profile name fails first. */
  lemma IdErrorIs(name: Text)
    ensures var error := IdErrorOf(name);
      var sized, trimmed := 1 <= |name| <= 128, name == Trim(name);
      var dots, separated := Contains(name, Ascii("..")), Ascii("/")[0] in name || Ascii("\\")[0] in name;
      && (error == Some(EmptyName) <==> name == [])
      && (error == Some(LongName) <==> |name| >= 129)
      && (error == Some(Whitespace) <==> sized && !trimmed)
      && (error == Some(NulByte) <==> sized && trimmed && 0 in name)
      && (error == Some(Separator) <==> sized && trimmed && 0 !in name && !dots && separated)
      && (error == Some(Control) <==> sized && trimmed && 0 !in name && !dots && !separated && HasControl(name))
      && (error == Some(Traversal) <==>
            sized && trimmed && 0 !in name && (dots || (!separated && !HasControl(name) && name == Ascii("."))))
  {
    hide Trim, Contains;
    assert Ascii("..") == [46, 46] && Ascii(".") == [46] && Ascii("/") == [47] && Ascii("\\") == [92];
  }

  function AdmissionError(env: Env, config: Config, i: nat): Option<ConfigError>
    requires i < |config.profiles|
  {
    var named := config.profiles[i];
    var id := IdErrorOf(named.name);
    if id.Some? then Some(BadProfileId(i, id.value))
    else
      var profile := ProfileErrorOf(env, named.profile);
      if profile.Some? then Some(BadProfile(i, profile.value))
      else
        Or(Fails(GlobalSameUser(named.profile) && named.name !in config.acknowledgeGlobalSameUser, GlobalUnacknowledged(i)),
           Fails(SameUserRegistration(named.profile) && named.name !in config.acknowledgeSameUserRegistration,
                 RegistrationUnacknowledged(i)))
  }

  function AdmissionErrorFrom(env: Env, config: Config, i: nat): Option<ConfigError>
    requires i <= |config.profiles|
    decreases |config.profiles| - i
  {
    if i == |config.profiles| then None
    else Or(AdmissionError(env, config, i), AdmissionErrorFrom(env, config, i + 1))
  }

  function UnknownFrom(config: Config, acknowledged: seq<Text>, i: nat): Option<ConfigError>
    requires i <= |acknowledged|
    decreases |acknowledged| - i
  {
    if i == |acknowledged| then None
    else Or(Fails(!Known(config, acknowledged[i]), UnknownAcknowledgement(i)), UnknownFrom(config, acknowledged, i + 1))
  }

  /** The first overlapping pair among those the nested loop visits from `(i, j)` on. */
  function OverlapFrom(roots: seq<Path>, i: nat, j: nat): Option<ConfigError>
    requires i < j <= |roots| + 1
    decreases |roots| - i, |roots| + 1 - j
  {
    if i >= |roots| then None
    else if j >= |roots| then OverlapFrom(roots, i + 1, i + 2)
    else if Overlap(roots[i], roots[j]) then Some(RootsOverlap(i, j))
    else OverlapFrom(roots, i, j + 1)
  }

  function HumanOverlapFrom(roots: seq<Path>, human: Path, i: nat): Option<ConfigError>
    requires i <= |roots|
    decreases |roots| - i
  {
    if i == |roots| then None
    else Or(Fails(Overlap(roots[i], human), HumanOverlap(i)), HumanOverlapFrom(roots, human, i + 1))
  }

  /** An earlier isolated profile has the same device key. */
  predicate Collides(profiles: seq<Named>, i: nat)
    requires i < |profiles|
  {
    profiles[i].profile.mode == Isolated &&
    exists j :: 0 <= j < i && profiles[j].profile.mode == Isolated
             && DeviceKey(profiles[j].profile.device) == DeviceKey(profiles[i].profile.device)
  }

  function CollisionFrom(profiles: seq<Named>, i: nat): Option<ConfigError>
    requires i <= |profiles|
    decreases |profiles| - i
  {
    if i == |profiles| then None else Or(Fails(Collides(profiles, i), DeviceCollision(i)), CollisionFrom(profiles, i + 1))
  }

  function Acknowledged(config: Config): seq<Text> {
    config.acknowledgeGlobalSameUser + config.acknowledgeSameUserRegistration
  }

  function RootsError(env: Env, config: Config, human: Option<RawPath>): Option<ConfigError> {
    var roots := AgentRoots(env, config);
    Or(OverlapFrom(roots, 0, 1), if human.Some? then HumanOverlapFrom(roots, env.canonical(human.value), 0) else None)
  }

  /** The first check of `AgentConfig::validate` that fails on an enabled configuration. */
  function EnabledError(env: Env, config: Config, human: Option<RawPath>): Option<ConfigError> {
    Or(Fails(config.auditPath.None?, NoAuditPath),
    Or(UnknownFrom(config, Acknowledged(config), 0),
    Or(AdmissionErrorFrom(env, config, 0),
    Or(RootsError(env, config, human), CollisionFrom(config.profiles, 0)))))
  }

  lemma AdmissionExact(env: Env, config: Config, i: nat)
    requires i < |config.profiles|
    ensures AdmissionError(env, config, i).None? <==> Admitted(env, config, config.profiles[i])
  {
    hide IdErrorOf, ProfileIdValid, ProfileErrorOf, ProfileValid, GlobalSameUser, SameUserRegistration;
    IdErrorExact(config.profiles[i].name);
    ProfileErrorExact(env, config.profiles[i].profile);
  }

  /** The profile an admission error names is the first one not admitted. */
  lemma {:induction false} FirstNotAdmitted(env: Env, config: Config, from: nat)
    requires from <= |config.profiles|
    ensures AdmissionErrorFrom(env, config, from).None? <==>
      forall i :: from <= i < |config.profiles| ==> Admitted(env, config, config.profiles[i])
    ensures AdmissionErrorFrom(env, config, from).Some? ==>
      exists i :: from <= i < |config.profiles|
        && AdmissionErrorFrom(env, config, from) == AdmissionError(env, config, i)
        && !Admitted(env, config, config.profiles[i])
        && forall j :: from <= j < i ==> Admitted(env, config, config.profiles[j])
    decreases |config.profiles| - from
  {
    hide AdmissionError, Admitted;
    if from < |config.profiles| {
      AdmissionExact(env, config, from);
      FirstNotAdmitted(env, config, from + 1);
    }
  }

  lemma {:induction false} UnknownFromExact(config: Config, acknowledged: seq<Text>, i: nat)
    requires i <= |acknowledged|
    ensures UnknownFrom(config, acknowledged, i).None? <==>
      forall j :: i <= j < |acknowledged| ==> Known(config, acknowledged[j])
    decreases |acknowledged| - i
  {
    hide Known;
    if i < |acknowledged| {
      UnknownFromExact(config, acknowledged, i + 1);
    }
  }

  lemma {:induction false} OverlapFromExact(roots: seq<Path>, i: nat, j: nat)
    requires i < j <= |roots| + 1
    ensures OverlapFrom(roots, i, j).None? <==>
      && (forall k :: j <= k < |roots| ==> !Overlap(roots[i], roots[k]))
      && (forall k, l :: i < k < l < |roots| ==> !Overlap(roots[k], roots[l]))
    decreases |roots| - i, |roots| + 1 - j
  {
    hide Overlap;
    if i < |roots| {
      if j >= |roots| {
        OverlapFromExact(roots, i + 1, i + 2);
      } else if !Overlap(roots[i], roots[j]) {
        OverlapFromExact(roots, i, j + 1);
      }
    }
  }

  lemma {:induction false} HumanOverlapExact(roots: seq<Path>, human: Path, i: nat)
    requires i <= |roots|
    ensures HumanOverlapFrom(roots, human, i).None? <==> forall j :: i <= j < |roots| ==> !Overlap(roots[j], human)
    decreases |roots| - i
  {
    hide Overlap;
    if i < |roots| {
      HumanOverlapExact(roots, human, i + 1);
    }
  }

  lemma RootsErrorExact(env: Env, config: Config, human: Option<RawPath>)
    ensures RootsError(env, config, human).None? <==> NoOverlaps(AllRoots(env, config, human))
  {
    hide Overlap, OverlapFrom, HumanOverlapFrom, AgentRoots;
    var roots, all := AgentRoots(env, config), AllRoots(env, config, human);
    OverlapFromExact(roots, 0, 1);
    assert forall i :: 0 <= i < |roots| ==> all[i] == roots[i];
    if human.Some? {
      HumanOverlapExact(roots, env.canonical(human.value), 0);
      assert all[|roots|] == env.canonical(human.value);
    }
  }

  lemma {:induction false} CollisionFromExact(profiles: seq<Named>, i: nat)
    requires i <= |profiles|
    ensures CollisionFrom(profiles, i).None? <==> forall j :: i <= j < |profiles| ==> !Collides(profiles, j)
    decreases |profiles| - i
  {
    hide Collides;
    if i < |profiles| {
      CollisionFromExact(profiles, i + 1);
    }
  }

  lemma DistinctIffNoCollision(profiles: seq<Named>)
    ensures DevicesDistinct(profiles) <==> forall j :: 0 <= j < |profiles| ==> !Collides(profiles, j)
  {
    hide DeviceKey;
    if forall j :: 0 <= j < |profiles| ==> !Collides(profiles, j) {
      forall i, j | 0 <= i < j < |profiles| && profiles[i].profile.mode == Isolated && profiles[j].profile.mode == Isolated
        ensures DeviceKey(profiles[i].profile.device) != DeviceKey(profiles[j].profile.device)
      {
        assert !Collides(profiles, j);
      }
    }
  }

  /** No check fails exactly when the configuration is valid. */
  lemma EnabledErrorExact(env: Env, config: Config, human: Option<RawPath>)
    ensures EnabledError(env, config, human).None? <==> EnabledValid(env, config, human)
  {
    hide UnknownFrom, AdmissionErrorFrom, RootsError, CollisionFrom, Known, Admitted, NoOverlaps, AllRoots, DevicesDistinct;
    UnknownFromExact(config, Acknowledged(config), 0);
    FirstNotAdmitted(env, config, 0);
    RootsErrorExact(env, config, human);
    CollisionFromExact(config.profiles, 0);
    DistinctIffNoCollision(config.profiles);
  }

  predicate IsProfileName(config: Config, name: Text) { exists named :: named in config.profiles && named.name == name }

  /** The acknowledgements are in order exactly if each name in either list is a profile's. */
  lemma AcknowledgementsExact(config: Config)
    ensures AcknowledgementsKnown(config) <==>
      && (forall name :: name in config.acknowledgeGlobalSameUser ==> IsProfileName(config, name))
      && (forall name :: name in config.acknowledgeSameUserRegistration ==> IsProfileName(config, name))
  {
    forall name
      ensures Known(config, name) <==> IsProfileName(config, name)
    {
      if i :| 0 <= i < |config.profiles| && config.profiles[i].name == name {
        assert config.profiles[i] in config.profiles;
      }
    }
    hide Known, IsProfileName;
    var acknowledged := Acknowledged(config);
    assert forall name :: name in acknowledged <==>
      name in config.acknowledgeGlobalSameUser || name in config.acknowledgeSameUserRegistration;
  }

  predicate ConfigCheckFails(env: Env, config: Config, human: Option<RawPath>, k: nat) {
    match k
    case 0 => config.auditPath.None?
    case 1 => !AcknowledgementsKnown(config)
    case 2 => exists i :: 0 <= i < |config.profiles| && !Admitted(env, config, config.profiles[i])
    case 3 => !NoOverlaps(AgentRoots(env, config))
    case 4 =>
      human.Some? && exists i :: 0 <= i < |AgentRoots(env, config)| && Overlap(AgentRoots(env, config)[i], env.canonical(human.value))
    case 5 => !DevicesDistinct(config.profiles)
    case _ => false
  }

  function ConfigCheckOf(e: ConfigError): nat {
    match e
    case NoAuditPath => 0
    case UnknownAcknowledgement(_) => 1
    case BadProfileId(_, _) => 2
    case BadProfile(_, _) => 2
    case GlobalUnacknowledged(_) => 2
    case RegistrationUnacknowledged(_) => 2
    case RootsOverlap(_, _) => 3
    case HumanOverlap(_) => 4
    case DeviceCollision(_) => 5
  }

  lemma {:induction false} UnknownIs(config: Config, acknowledged: seq<Text>, i: nat)
    requires i <= |acknowledged|
    ensures var e := UnknownFrom(config, acknowledged, i);
      e.Some? ==>
        e.value.UnknownAcknowledgement? && i <= e.value.index < |acknowledged| && !Known(config, acknowledged[e.value.index])
    decreases |acknowledged| - i
  {
    if i < |acknowledged| {
      UnknownIs(config, acknowledged, i + 1);
    }
  }

  lemma {:induction false} OverlapIs(roots: seq<Path>, i: nat, j: nat)
    requires i < j <= |roots| + 1
    ensures var e := OverlapFrom(roots, i, j);
      e.Some? ==>
        && e.value.RootsOverlap? && e.value.index < e.value.other < |roots|
        && Overlap(roots[e.value.index], roots[e.value.other])
    decreases |roots| - i, |roots| + 1 - j
  {
    if i < |roots| {
      if j >= |roots| {
        OverlapIs(roots, i + 1, i + 2);
      } else if !Overlap(roots[i], roots[j]) {
        OverlapIs(roots, i, j + 1);
      }
    }
  }

  lemma {:induction false} HumanOverlapIs(roots: seq<Path>, human: Path, i: nat)
    requires i <= |roots|
    ensures var e := HumanOverlapFrom(roots, human, i);
      e.Some? ==> e.value.HumanOverlap? && e.value.index < |roots| && Overlap(roots[e.value.index], human)
    decreases |roots| - i
  {
    if i < |roots| {
      HumanOverlapIs(roots, human, i + 1);
    }
  }

  lemma {:induction false} CollisionIs(profiles: seq<Named>, i: nat)
    requires i <= |profiles|
    ensures var e := CollisionFrom(profiles, i);
      e.Some? ==> e.value.DeviceCollision? && e.value.index < |profiles| && Collides(profiles, e.value.index)
    decreases |profiles| - i
  {
    hide Collides;
    if i < |profiles| {
      CollisionIs(profiles, i + 1);
    }
  }

  /** What an admission error says of the profile it names. */
  lemma AdmissionErrorIs(env: Env, config: Config, i: nat)
    requires i < |config.profiles|
    ensures var error, named := AdmissionError(env, config, i), config.profiles[i];
      && (!ProfileIdValid(named.name) <==> error.Some? && error.value.BadProfileId?)
      && (ProfileIdValid(named.name) && !ProfileValid(env, named.profile) <==> error.Some? && error.value.BadProfile?)
      && (error == Some(GlobalUnacknowledged(i)) ==>
            GlobalSameUser(named.profile) && named.name !in config.acknowledgeGlobalSameUser)
      && (error == Some(RegistrationUnacknowledged(i)) ==>
            SameUserRegistration(named.profile) && named.name !in config.acknowledgeSameUserRegistration)
      && (error.Some? ==> error.value.index == i && ConfigCheckOf(error.value) == 2)
  {
    hide IdErrorOf, ProfileIdValid, ProfileErrorOf, ProfileValid, GlobalSameUser, SameUserRegistration;
    IdErrorExact(config.profiles[i].name);
    ProfileErrorExact(env, config.profiles[i].profile);
  }

  lemma AdmissionIs(env: Env, config: Config)
    ensures AdmissionErrorFrom(env, config, 0).Some? ==> ConfigCheckOf(AdmissionErrorFrom(env, config, 0).value) == 2
  {
    FirstNotAdmitted(env, config, 0);
    if AdmissionErrorFrom(env, config, 0).Some? {
      var i :| 0 <= i < |config.profiles| && AdmissionErrorFrom(env, config, 0) == AdmissionError(env, config, i);
      hide AdmissionErrorFrom, AdmissionError, Admitted;
      AdmissionErrorIs(env, config, i);
    }
  }

  /** `error` reports the first failing check among `from` to `to`, or there is none. */
  ghost predicate IsFirstConfig(
    env: Env, config: Config, human: Option<RawPath>, error: Option<ConfigError>, from: nat, to: nat)
  {
    match error
    case None => forall k :: from <= k < to ==> !ConfigCheckFails(env, config, human, k)
    case Some(e) =>
      && from <= ConfigCheckOf(e) < to && ConfigCheckFails(env, config, human, ConfigCheckOf(e))
      && forall k :: from <= k < ConfigCheckOf(e) ==> !ConfigCheckFails(env, config, human, k)
  }

  lemma FirstConfigOf(
    env: Env, config: Config, human: Option<RawPath>, a: Option<ConfigError>, b: Option<ConfigError>,
    from: nat, mid: nat, to: nat)
    requires IsFirstConfig(env, config, human, a, from, mid) && IsFirstConfig(env, config, human, b, mid, to)
    requires from <= mid <= to
    ensures IsFirstConfig(env, config, human, Or(a, b), from, to)
  {
    hide ConfigCheckFails, ConfigCheckOf;
  }

  lemma OneConfigCheck(env: Env, config: Config, human: Option<RawPath>, error: Option<ConfigError>, k: nat)
    requires error.Some? <==> ConfigCheckFails(env, config, human, k)
    requires error.Some? ==> ConfigCheckOf(error.value) == k
    ensures IsFirstConfig(env, config, human, error, k, k + 1)
  {
    hide ConfigCheckFails, ConfigCheckOf;
  }

  lemma FirstNames(env: Env, config: Config, human: Option<RawPath>)
    ensures IsFirstConfig(env, config, human, Fails(config.auditPath.None?, NoAuditPath), 0, 1)
    ensures IsFirstConfig(env, config, human, UnknownFrom(config, Acknowledged(config), 0), 1, 2)
  {
    UnknownFromExact(config, Acknowledged(config), 0);
    UnknownIs(config, Acknowledged(config), 0);
    hide UnknownFrom, Known, IsFirstConfig;
    OneConfigCheck(env, config, human, Fails(config.auditPath.None?, NoAuditPath), 0);
    OneConfigCheck(env, config, human, UnknownFrom(config, Acknowledged(config), 0), 1);
  }

  lemma FirstAdmission(env: Env, config: Config, human: Option<RawPath>)
    ensures IsFirstConfig(env, config, human, AdmissionErrorFrom(env, config, 0), 2, 3)
  {
    FirstNotAdmitted(env, config, 0);
    AdmissionIs(env, config);
    hide AdmissionErrorFrom, AdmissionError, Admitted, IsFirstConfig;
    OneConfigCheck(env, config, human, AdmissionErrorFrom(env, config, 0), 2);
  }

  lemma FirstRoots(env: Env, config: Config, human: Option<RawPath>)
    ensures IsFirstConfig(env, config, human, RootsError(env, config, human), 3, 5)
  {
    hide OverlapFrom, HumanOverlapFrom, Overlap, AgentRoots, IsFirstConfig, Or;
    var roots := AgentRoots(env, config);
    var overlap := OverlapFrom(roots, 0, 1);
    var withHuman := if human.Some? then HumanOverlapFrom(roots, env.canonical(human.value), 0) else None;
    OverlapFromExact(roots, 0, 1);
    OverlapIs(roots, 0, 1);
    if human.Some? {
      HumanOverlapExact(roots, env.canonical(human.value), 0);
      HumanOverlapIs(roots, env.canonical(human.value), 0);
    }
    OneConfigCheck(env, config, human, overlap, 3);
    OneConfigCheck(env, config, human, withHuman, 4);
    FirstConfigOf(env, config, human, overlap, withHuman, 3, 4, 5);
  }

  lemma FirstCollision(env: Env, config: Config, human: Option<RawPath>)
    ensures IsFirstConfig(env, config, human, CollisionFrom(config.profiles, 0), 5, 6)
  {
    hide CollisionFrom, Collides, DevicesDistinct, IsFirstConfig;
    CollisionFromExact(config.profiles, 0);
    CollisionIs(config.profiles, 0);
    DistinctIffNoCollision(config.profiles);
    OneConfigCheck(env, config, human, CollisionFrom(config.profiles, 0), 5);
  }

  /** An enabled configuration is refused with the first of the six checks that fails, and accepted if none does. */
  lemma FirstFailingConfigCheck(env: Env, config: Config, human: Option<RawPath>)
    ensures IsFirstConfig(env, config, human, EnabledError(env, config, human), 0, 6)
  {
    hide IsFirstConfig, UnknownFrom, AdmissionErrorFrom, RootsError, CollisionFrom, Or, Fails;
    FirstNames(env, config, human);
    FirstAdmission(env, config, human);
    FirstRoots(env, config, human);
    FirstCollision(env, config, human);
    var roots, devices := RootsError(env, config, human), CollisionFrom(config.profiles, 0);
    var admission, names := AdmissionErrorFrom(env, config, 0), UnknownFrom(config, Acknowledged(config), 0);
    FirstConfigOf(env, config, human, roots, devices, 3, 5, 6);
    FirstConfigOf(env, config, human, admission, Or(roots, devices), 2, 3, 6);
    FirstConfigOf(env, config, human, names, Or(admission, Or(roots, devices)), 1, 2, 6);
    FirstConfigOf(
      env, config, human, Fails(config.auditPath.None?, NoAuditPath), Or(names, Or(admission, Or(roots, devices))), 0, 1, 6);
  }

  // ----- The configuration's loops -----

  method ValidateProfiles(env: Env, config: Config) returns (error: Option<ConfigError>)
    ensures error == AdmissionErrorFrom(env, config, 0)
  {
    hide ProfileErrorOf, ProfileValid, IdErrorOf, GlobalSameUser, SameUserRegistration;
    for i := 0 to |config.profiles|
      invariant AdmissionErrorFrom(env, config, 0) == AdmissionErrorFrom(env, config, i)
    {
      var named := config.profiles[i];
      var id := IdErrorOf(named.name);
      if id.Some? {
        return Some(BadProfileId(i, id.value));
      }
      var profile := ValidateProfile(env, named.profile);
      if profile.Some? {
        return Some(BadProfile(i, profile.value));
      }
      if GlobalSameUser(named.profile) && named.name !in config.acknowledgeGlobalSameUser {
        return Some(GlobalUnacknowledged(i));
      }
      if SameUserRegistration(named.profile) && named.name !in config.acknowledgeSameUserRegistration {
        return Some(RegistrationUnacknowledged(i));
      }
    }
    return None;
  }

  /** The roots in the order the loops push them. */
  method CollectRoots(env: Env, config: Config) returns (roots: seq<Path>)
    ensures roots == AgentRoots(env, config)
  {
    hide CredentialPath, PinPath;
    roots := [];
    if config.auditPath.Some? {
      roots := [env.canonical(config.auditPath.value)];
    }
    ghost var audit := roots;
    for i := 0 to |config.profiles|
      invariant roots == audit + StorageRoots(env, config.profiles[..i])
    {
      assert config.profiles[..i + 1][..i] == config.profiles[..i];
      var storage := config.profiles[i].profile.storage;
      if storage.Some? {
        roots := roots + [CredentialPath(env, storage.value)];
        roots := roots + [PinPath(env, storage.value)];
      }
    }
    assert config.profiles[..|config.profiles|] == config.profiles;
  }

  /** The nested loop over pairs of roots: the first pair that overlaps, and none exactly if no two do. */
  method CheckRoots(roots: seq<Path>) returns (error: Option<ConfigError>)
    ensures error == OverlapFrom(roots, 0, 1)
    ensures error.None? <==> NoOverlaps(roots)
  {
    OverlapFromExact(roots, 0, 1);
    for i := 0 to |roots|
      invariant OverlapFrom(roots, 0, 1) == OverlapFrom(roots, i, i + 1)
    {
      for k := i + 1 to |roots|
        invariant OverlapFrom(roots, 0, 1) == OverlapFrom(roots, i, k)
      {
        if roots[k] <= roots[i] || roots[i] <= roots[k] {
          return Some(RootsOverlap(i, k));
        }
      }
    }
    return None;
  }

  method CheckHuman(roots: seq<Path>, human: Path) returns (error: Option<ConfigError>)
    ensures error == HumanOverlapFrom(roots, human, 0)
  {
    for i := 0 to |roots|
      invariant HumanOverlapFrom(roots, human, 0) == HumanOverlapFrom(roots, human, i)
    {
      if human <= roots[i] || roots[i] <= human {
        return Some(HumanOverlap(i));
      }
    }
    return None;
  }

  /** The loop over device keys: the first that repeats, and none exactly if all differ. */
  method CheckDevices(profiles: seq<Named>) returns (error: Option<ConfigError>)
    ensures error == CollisionFrom(profiles, 0)
    ensures error.None? <==> DevicesDistinct(profiles)
  {
    hide DeviceKey, DevicesDistinct;
    CollisionFromExact(profiles, 0);
    DistinctIffNoCollision(profiles);
    var keys: set<seq<byte>> := {};
    for i := 0 to |profiles|
      invariant CollisionFrom(profiles, 0) == CollisionFrom(profiles, i)
      invariant forall j :: 0 <= j < i && profiles[j].profile.mode == Isolated ==> DeviceKey(profiles[j].profile.device) in keys
      invariant forall key :: key in keys ==>
        exists j :: 0 <= j < i && profiles[j].profile.mode == Isolated && DeviceKey(profiles[j].profile.device) == key
    {
      if profiles[i].profile.mode == SameUser {
        continue;
      }
      var key := DeviceKey(profiles[i].profile.device);
      assert key in keys <==> Collides(profiles, i);
      if key in keys {
        return Some(DeviceCollision(i));
      }
      keys := keys + {key};
    }
    return None;
  }

  method CheckAcknowledged(config: Config) returns (error: Option<ConfigError>)
    ensures error == UnknownFrom(config, Acknowledged(config), 0)
  {
    hide Known;
    var acknowledged := Acknowledged(config);
    for i := 0 to |acknowledged|
      invariant UnknownFrom(config, acknowledged, 0) == UnknownFrom(config, acknowledged, i)
    {
      if !Known(config, acknowledged[i]) {
        return Some(UnknownAcknowledgement(i));
      }
    }
    return None;
  }

  /** `AgentConfig::validate`: a disabled configuration is not looked at. */
  method Validate(env: Env, config: Config, human: Option<RawPath>) returns (error: Option<ConfigError>)
    ensures error == if config.enabled then EnabledError(env, config, human) else None
    ensures error.None? <==> (config.enabled ==> EnabledValid(env, config, human))
  {
    hide EnabledValid, UnknownFrom, AdmissionErrorFrom, OverlapFrom, HumanOverlapFrom, CollisionFrom, AgentRoots;
    EnabledErrorExact(env, config, human);
    if !config.enabled {
      return None;
    }
    if config.auditPath.None? {
      return Some(NoAuditPath);
    }
    error := CheckAcknowledged(config);
    if error.Some? {
      return error;
    }
    error := ValidateProfiles(env, config);
    if error.Some? {
      return error;
    }
    var roots := CollectRoots(env, config);
    error := CheckRoots(roots);
    if error.Some? {
      return error;
    }
    if human.Some? {
      error := CheckHuman(roots, env.canonical(human.value));
      if error.Some? {
        return error;
      }
    }
    error := CheckDevices(config.profiles);
  }

  // ----- Disjoint roots -----

  predicate Beneath(x: Path, root: Path) { root <= x }

  /** Two roots overlap exactly when some path lies beneath both. */
  lemma OverlapExact(a: Path, b: Path)
    ensures Overlap(a, b) <==> exists x :: Beneath(x, a) && Beneath(x, b)
  {
    if a <= b {
      assert Beneath(b, a) && Beneath(b, b);
    } else if b <= a {
      assert Beneath(a, a) && Beneath(a, b);
    }
    forall x | Beneath(x, a) && Beneath(x, b)
      ensures Overlap(a, b)
    {
      assert a == x[..|a|] && b == x[..|b|];
    }
  }

  /** In a valid configuration no path lies beneath two of the roots. */
  lemma RootsAreDisjoint(env: Env, config: Config, human: Option<RawPath>, x: Path, i: nat, j: nat)
    requires EnabledValid(env, config, human) && i < j < |AllRoots(env, config, human)|
    ensures !(Beneath(x, AllRoots(env, config, human)[i]) && Beneath(x, AllRoots(env, config, human)[j]))
  {
    var roots := AllRoots(env, config, human);
    hide AllRoots, AgentRoots, Admitted;
    OverlapExact(roots[i], roots[j]);
  }

  /** The paths of a storage: the second and third of a password store lie in its directory unless absolute. */
  ghost predicate KeptAt(env: Env, s: Storage, x: Path) {
    match s
    case Local(path, pinPath) => x == env.canonical(path) || x == env.canonical(pinPath)
    case Tpm(path, pinPath) => x == env.canonical(path) || x == env.canonical(pinPath)
    case Pass(storePath, path, pinPath) => x == InStore(env, storePath, path) || x == InStore(env, storePath, pinPath)
  }

  ghost function InStore(env: Env, store: RawPath, path: RawPath): Path {
    env.canonical(if path.absolute then path else RawPath(store.absolute, store.components + path.components))
  }

  lemma {:induction false} StorageRootsExact(env: Env, profiles: seq<Named>, x: Path)
    ensures x in StorageRoots(env, profiles) <==>
      exists i :: 0 <= i < |profiles| && profiles[i].profile.storage.Some? && KeptAt(env, profiles[i].profile.storage.value, x)
  {
    if profiles != [] {
      var n := |profiles| - 1;
      var init, storage := profiles[..n], profiles[n].profile.storage;
      StorageRootsExact(env, init, x);
      if storage.Some? {
        assert x in [CredentialPath(env, storage.value), PinPath(env, storage.value)] <==> KeptAt(env, storage.value, x);
      }
      hide KeptAt, CredentialPath, PinPath;
      assert forall i :: 0 <= i < n ==> init[i] == profiles[i];
    }
  }

  /** The roots are the audit path, every path any profile's storage is kept at, and the human's state path. */
  lemma RootsExact(env: Env, config: Config, human: Option<RawPath>, x: Path)
    ensures x in AllRoots(env, config, human) <==>
      || (config.auditPath.Some? && x == env.canonical(config.auditPath.value))
      || (exists i :: 0 <= i < |config.profiles| && config.profiles[i].profile.storage.Some?
                   && KeptAt(env, config.profiles[i].profile.storage.value, x))
      || (human.Some? && x == env.canonical(human.value))
  {
    hide KeptAt, StorageRoots;
    StorageRootsExact(env, config.profiles, x);
  }

  // ----- Which rule applies -----

  /**
   With distinct rule ids, `rule_for_rp` finds the rule named for the RP, or the
   wildcard if no rule is; no other rule, whatever the order.
   */
  lemma RuleForRpExact(h: Hosts, p: Profile, rpId: Text, rule: RpRule)
    requires DistinctIds(EffectiveRules(p))
    ensures RuleForRp(h, p, rpId) == Some(rule) <==>
      && IsRpId(h, Normalize(rpId)) && rule in EffectiveRules(p)
      && (|| HasId(rule, Normalize(rpId))
          || (HasId(rule, ANY_RP_ID) && forall other :: other in EffectiveRules(p) ==> !HasId(other, Normalize(rpId))))
  {
    hide EffectiveRules, FindRule, Normalize, ValidateRpId, IsRpId, DistinctIds;
    ValidateRpIdExact(h, rpId);
    var rules := EffectiveRules(p);
    if rule in rules && IsRpId(h, Normalize(rpId)) {
      var exact, wildcard := FindRule(rules, Normalize(rpId)), FindRule(rules, ANY_RP_ID);
      if exact.Some? && HasId(rule, Normalize(rpId)) {
        IdPicksOne(rules, rule, exact.value);
      }
      if wildcard.Some? && HasId(rule, ANY_RP_ID) {
        IdPicksOne(rules, rule, wildcard.value);
      }
    }
  }

  /** Reordering a profile's rules changes no answer. */
  lemma RuleOrderIrrelevant(h: Hosts, p: Profile, q: Profile, rpId: Text)
    requires DistinctIds(EffectiveRules(p)) && DistinctIds(EffectiveRules(q))
    requires multiset(EffectiveRules(p)) == multiset(EffectiveRules(q))
    ensures RuleForRp(h, p, rpId) == RuleForRp(h, q, rpId)
  {
    hide EffectiveRules, RuleForRp, Normalize, IsRpId, DistinctIds;
    assert forall rule :: rule in EffectiveRules(p) <==> rule in multiset(EffectiveRules(p));
    assert forall rule :: rule in EffectiveRules(q) <==> rule in multiset(EffectiveRules(q));
    forall rule: RpRule
      ensures RuleForRp(h, p, rpId) == Some(rule) <==> RuleForRp(h, q, rpId) == Some(rule)
    {
      RuleForRpExact(h, p, rpId, rule);
      RuleForRpExact(h, q, rpId, rule);
    }
    var here, there := RuleForRp(h, p, rpId), RuleForRp(h, q, rpId);
    assert here.Some? ==> here == Some(here.value);
    assert there.Some? ==> there == Some(there.value);
  }

  /** A rule that names an RP is the one applied to it. */
  lemma EveryRuleApplies(h: Hosts, p: Profile, rule: RpRule)
    requires RulesValid(h, p) && rule in EffectiveRules(p) && !HasId(rule, ANY_RP_ID)
    ensures RuleForRp(h, p, rule.rpId) == Some(rule)
  {
    var rules := EffectiveRules(p);
    var i :| 0 <= i < |rules| && rules[i] == rule;
    assert RuleAcceptable(h, p, rules[i]);
    ValidateRuleIdExact(h, rule.rpId);
    RuleForRpExact(h, p, rule.rpId, rule);
  }

  /** A valid profile permits registration only by a rule that names the RP. */
  lemma WildcardNeverRegisters(h: Hosts, p: Profile, rpId: Text, rule: RpRule)
    requires RulesValid(h, p) && RuleForRp(h, p, rpId) == Some(rule)
    ensures !HasId(rule, Normalize(rpId)) ==> WildcardAcceptable(p, rule)
    ensures rule.register.authorization != Deny ==> HasId(rule, Normalize(rpId)) && !HasId(rule, ANY_RP_ID)
  {
    RuleForRpExact(h, p, rpId, rule);
    var rules := EffectiveRules(p);
    var i :| 0 <= i < |rules| && rules[i] == rule;
    assert HasId(rules[i], ANY_RP_ID) ==> WildcardAcceptable(p, rules[i]);
    AnyIsNotAnRpId(h);
  }

  /** The credential a profile selects for an RP is among those it lists. */
  lemma SelectedCredentialListed(env: Env, p: Profile, rpId: Text)
    requires ProfileValid(env, p)
    ensures Listed(CredentialSelectionFor(env.hosts, p, rpId), p.credentialRefs)
  {
    hide ModeValid, UrlValid, CommandValid, LimitsValid, ValidateRpId, ValidateRuleId, EffectiveRules, HasId;
    var rules := EffectiveRules(p);
    var found := RuleForRp(env.hosts, p, rpId);
    if found.Some? {
      var i :| 0 <= i < |rules| && rules[i] == found.value;
      assert RuleAcceptable(env.hosts, p, rules[i]);
    }
  }

  /**
   A legacy RP id's rule: authentication takes the human's confirmation and presence,
   registration the same if it is allowed and is denied otherwise, and verification
   is the human's exactly if it is required.
   */
  predicate IsLegacyRule(p: Profile, rule: RpRule, rpId: Text) {
    && rule.rpId == rpId && rule.credentialSelection == None
    && rule.authenticate.authorization == Confirm && rule.authenticate.userPresence == Human
    && (rule.authenticate.userVerification == Human <==> p.requireUv)
    && (rule.authenticate.userVerification == NoSource <==> !p.requireUv)
    && (rule.register.authorization == Confirm <==> p.registrationAllowed)
    && (rule.register.authorization == Deny <==> !p.registrationAllowed)
    && (p.registrationAllowed ==> rule.register == rule.authenticate)
    && (!p.registrationAllowed ==> rule.register.userPresence == NoSource && rule.register.userVerification == NoSource)
  }

  /** Explicit rules are used as they are; without any, each legacy RP id has its rule, in order. */
  lemma EffectiveRulesExact(p: Profile)
    ensures p.rules != [] ==> EffectiveRules(p) == p.rules
    ensures p.rules == [] ==> |EffectiveRules(p)| == |p.rpIds|
    ensures p.rules == [] ==> forall i :: 0 <= i < |p.rpIds| ==> IsLegacyRule(p, EffectiveRules(p)[i], p.rpIds[i])
  {
    if p.rules == [] {
      forall i | 0 <= i < |p.rpIds|
        ensures IsLegacyRule(p, EffectiveRules(p)[i], p.rpIds[i])
      {
        var rule := EffectiveRules(p)[i];
        assert rule.authenticate == LegacyConfirm(p.requireUv);
        assert rule.register == if p.registrationAllowed then LegacyConfirm(p.requireUv) else DenyPolicy();
      }
    }
  }

  /** What a valid profile without explicit rules answers for an RP. */
  lemma LegacyRuleForRp(h: Hosts, p: Profile, rpId: Text)
    requires RulesValid(h, p) && p.rules == []
    ensures RuleForRp(h, p, rpId).Some? <==>
      IsRpId(h, Normalize(rpId)) && exists i :: 0 <= i < |p.rpIds| && Normalize(p.rpIds[i]) == Normalize(rpId)
    ensures RuleForRp(h, p, rpId).Some? ==>
      var rule := RuleForRp(h, p, rpId).value;
      && HasId(rule, Normalize(rpId)) && rule.authenticate.authorization == Confirm
      && rule.register.authorization == (if p.registrationAllowed then Confirm else Deny)
      && (rule.authenticate.userVerification == Human <==> p.requireUv)
  {
    EffectiveRulesExact(p);
    ValidateRpIdExact(h, rpId);
    var rules, found := EffectiveRules(p), RuleForRp(h, p, rpId);
    hide Normalize, ValidateRpId, IsRpId, FindRule, EffectiveRules, RuleAcceptable;
    if found.Some? {
      var i :| 0 <= i < |rules| && rules[i] == found.value;
      assert HasId(rules[i], ANY_RP_ID) ==> WildcardAcceptable(p, rules[i]);
    }
    if i :| 0 <= i < |p.rpIds| && Normalize(p.rpIds[i]) == Normalize(rpId) {
      assert HasId(rules[i], Normalize(rpId)) && rules[i] in rules;
    }
  }

  ghost predicate RegistersAt(h: Hosts, p: Profile, rpId: Text) {
    var rule := RuleForRp(h, p, rpId);
    rule.Some? && rule.value.register.authorization != Deny
  }

  lemma RegisteringRuleNamesItsRp(h: Hosts, p: Profile, rule: RpRule)
    requires RulesValid(h, p) && rule in EffectiveRules(p) && rule.register.authorization != Deny
    ensures !HasId(rule, ANY_RP_ID)
  {
    hide EffectiveRules, Normalize, RuleAcceptable;
    var rules := EffectiveRules(p);
    var i :| 0 <= i < |rules| && rules[i] == rule;
    assert rules[i].register.authorization != Deny ==> !WildcardAcceptable(p, rules[i]);
  }

  /** A profile may register credentials exactly when the lookup permits it for some RP. */
  lemma RegistrationReachable(h: Hosts, p: Profile)
    requires RulesValid(h, p)
    ensures AllowsRegistration(p) <==> exists rpId :: RegistersAt(h, p, rpId)
  {
    hide RulesValid, EffectiveRules, HasId, FindRule, ValidateRpId;
    if AllowsRegistration(p) {
      var rule :| rule in EffectiveRules(p) && rule.register.authorization != Deny;
      RegisteringRuleNamesItsRp(h, p, rule);
      EveryRuleApplies(h, p, rule);
      assert RegistersAt(h, p, rule.rpId);
    }
    if rpId :| RegistersAt(h, p, rpId) {
      assert RuleForRp(h, p, rpId).value in EffectiveRules(p);
    }
  }

  /**
   The acknowledgements are asked for exactly where needed: same-user registration
   where the lookup permits it for some RP, and global same-user authority where a
   wildcard rule confirms or allows authentication.
   */
  lemma AcknowledgementsNeeded(h: Hosts, p: Profile)
    requires RulesValid(h, p)
    ensures SameUserRegistration(p) <==> p.mode == SameUser && exists rpId :: RegistersAt(h, p, rpId)
    ensures GlobalSameUser(p) <==>
      && p.mode == SameUser && FindRule(EffectiveRules(p), ANY_RP_ID).Some?
      && FindRule(EffectiveRules(p), ANY_RP_ID).value.authenticate.authorization in {Confirm, Allow}
  {
    RegistrationReachable(h, p);
    var rules := EffectiveRules(p);
    hide EffectiveRules, HasId, Normalize, RuleAcceptable, WildcardAcceptable, RegistersAt;
    var found := FindRule(rules, ANY_RP_ID);
    forall rule | rule in rules && HasId(rule, ANY_RP_ID)
      ensures found == Some(rule)
    {
      OnlyWildcard(rules, rule);
    }
  }

  lemma OnlyWildcard(rules: seq<RpRule>, rule: RpRule)
    requires DistinctIds(rules) && rule in rules && HasId(rule, ANY_RP_ID)
    ensures FindRule(rules, ANY_RP_ID) == Some(rule)
  {
    hide Normalize;
    var found := FindRule(rules, ANY_RP_ID);
    IdPicksOne(rules, rule, found.value);
  }

  /** A rule's own credential selection is used for the RP it names, and the profile's for an RP no rule covers. */
  lemma SelectionFollowsRule(h: Hosts, p: Profile, rule: RpRule, rpId: Text)
    requires RulesValid(h, p) && rule in EffectiveRules(p) && !HasId(rule, ANY_RP_ID)
    ensures CredentialSelectionFor(h, p, rule.rpId) ==
      match rule.credentialSelection case None => p.credentialSelection case Some(selection) => selection
    ensures RuleForRp(h, p, rpId).None? ==> CredentialSelectionFor(h, p, rpId) == p.credentialSelection
  {
    hide RulesValid, EffectiveRules, RuleForRp;
    EveryRuleApplies(h, p, rule);
  }

  // ----- Acknowledgements -----

  /** Registering with the human's credentials takes the operator's acknowledgement of that profile. */
  lemma RegistrationIsAcknowledged(
    env: Env, config: Config, human: Option<RawPath>, i: nat, rpId: Text, rule: RpRule)
    requires EnabledValid(env, config, human) && i < |config.profiles|
    requires RuleForRp(env.hosts, config.profiles[i].profile, rpId) == Some(rule)
    requires config.profiles[i].profile.mode == SameUser && rule.register.authorization != Deny
    ensures config.profiles[i].name in config.acknowledgeSameUserRegistration
    ensures HasId(rule, Normalize(rpId)) && !HasId(rule, ANY_RP_ID)
  {
    var p := config.profiles[i].profile;
    assert Admitted(env, config, config.profiles[i]);
    hide AllRoots, DevicesDistinct, ValidateRpId;
    WildcardNeverRegisters(env.hosts, p, rpId, rule);
    assert rule in EffectiveRules(p);
  }

  /** Authenticating to an RP no rule names takes same-user mode and the operator's acknowledgement. */
  lemma UnnamedRpIsAcknowledged(
    env: Env, config: Config, human: Option<RawPath>, i: nat, rpId: Text, rule: RpRule)
    requires EnabledValid(env, config, human) && i < |config.profiles|
    requires RuleForRp(env.hosts, config.profiles[i].profile, rpId) == Some(rule)
    requires !HasId(rule, Normalize(rpId)) && rule.authenticate.authorization != Deny
    ensures config.profiles[i].profile.mode == SameUser
    ensures config.profiles[i].name in config.acknowledgeGlobalSameUser
  {
    var p := config.profiles[i].profile;
    assert Admitted(env, config, config.profiles[i]);
    hide AllRoots, DevicesDistinct, ValidateRpId;
    WildcardNeverRegisters(env.hosts, p, rpId, rule);
    RuleForRpExact(env.hosts, p, rpId, rule);
    assert rule in EffectiveRules(p) && HasId(rule, ANY_RP_ID);
  }

  // ----- Profiles for an RP -----

  /** The filter in `profiles_for_rp_id`. */
  function Filtered(profiles: seq<Named>, normalized: Text): seq<Named> {
    if profiles == [] then []
    else
      (if exists rule :: rule in EffectiveRules(profiles[0].profile)
           && (HasId(rule, normalized) || HasId(rule, ANY_RP_ID)) then [profiles[0]] else []) +
      Filtered(profiles[1..], normalized)
  }

  /** `profiles_for_rp_id`. */
  function ProfilesForRp(h: Hosts, config: Config, rpId: Text): seq<Named> {
    match ValidateRpId(h, rpId)
    case Err(_) => []
    case Ok(normalized) => Filtered(config.profiles, normalized)
  }

  /** The profiles for which `rule_for_rp` finds a rule, in order. */
  function Serving(h: Hosts, profiles: seq<Named>, rpId: Text): seq<Named> {
    if profiles == [] then []
    else
      (if RuleForRp(h, profiles[0].profile, rpId).Some? then [profiles[0]] else []) +
      Serving(h, profiles[1..], rpId)
  }

  lemma {:induction false} FilteredServe(h: Hosts, profiles: seq<Named>, rpId: Text)
    ensures Serving(h, profiles, rpId) ==
      if ValidateRpId(h, rpId).Ok? then Filtered(profiles, ValidateRpId(h, rpId).value) else []
  {
    hide ValidateRpId, EffectiveRules, HasId;
    if profiles != [] {
      FilteredServe(h, profiles[1..], rpId);
    }
  }

  /** The listing and the lookup agree, for any configuration. */
  lemma ProfilesForRpExact(h: Hosts, config: Config, rpId: Text)
    ensures ProfilesForRp(h, config, rpId) == Serving(h, config.profiles, rpId)
  {
    FilteredServe(h, config.profiles, rpId);
  }

  // ----- Device keys -----

  function Colons(t: seq<byte>): (n: nat)
    ensures n == 0 <==> COLON !in t
  {
    if t == [] then 0 else (if t[0] == COLON then 1 else 0) + Colons(t[1..])
  }

  lemma {:induction false} ColonsAdd(a: seq<byte>, b: seq<byte>)
    ensures Colons(a + b) == Colons(a) + Colons(b)
  {
    if a == [] {
      assert a + b == b;
    } else {
      assert (a + b)[1..] == a[1..] + b;
      ColonsAdd(a[1..], b);
    }
  }

  lemma {:induction false} DecimalDigits(n: nat)
    ensures COLON !in Decimal(n)
  {
    if n >= 10 {
      DecimalDigits(n / 10);
    }
  }

  lemma {:induction false} DecimalInjective(m: nat, n: nat)
    requires Decimal(m) == Decimal(n)
    ensures m == n
  {
    var s, t := Decimal(m), Decimal(n);
    assert s[|s| - 1] == 48 + m % 10 && t[|t| - 1] == 48 + n % 10;
    if m >= 10 && n >= 10 {
      assert s[..|s| - 1] == Decimal(m / 10) && t[..|t| - 1] == Decimal(n / 10);
      DecimalInjective(m / 10, n / 10);
    }
  }

  lemma FirstColon(a: seq<byte>, rest: seq<byte>, b: seq<byte>, more: seq<byte>)
    requires a + [COLON] + rest == b + [COLON] + more && COLON !in a && COLON !in b
    ensures a == b && rest == more
  {
    var t := a + [COLON] + rest;
    assert t[|a|] == COLON && t[|b|] == COLON;
    assert a == t[..|a|] && b == t[..|b|];
    assert forall i :: 0 <= i < |a| ==> t[i] == a[i];
    assert forall i :: 0 <= i < |b| ==> t[i] == b[i];
    assert rest == t[|a| + 1..] && more == t[|b| + 1..];
  }

  predicate ColonFree(d: Device) { COLON !in d.name && COLON !in d.phys && COLON !in d.uniq }

  function KeyTail(d: Device): seq<byte> { Decimal(d.vendorId) + [COLON] + Decimal(d.productId) }

  lemma DeviceKeyShape(d: Device)
    ensures DeviceKey(d) == d.name + [COLON] + (d.phys + [COLON] + (d.uniq + [COLON] + KeyTail(d)))
  {}

  lemma DeviceKeyColons(d: Device)
    ensures Colons(DeviceKey(d)) == Colons(d.name) + Colons(d.phys) + Colons(d.uniq) + 4
  {
    hide Decimal, Colons;
    var vendor, product := Decimal(d.vendorId), Decimal(d.productId);
    DecimalDigits(d.vendorId);
    DecimalDigits(d.productId);
    assert Colons(vendor) == 0 && Colons(product) == 0;
    OneColon();
    var a := d.name + [COLON];
    var b := a + d.phys;
    var c := b + [COLON];
    var e := c + d.uniq;
    var f := e + [COLON];
    var g := f + vendor;
    ColonsAdd(d.name, [COLON]);
    ColonsAdd(a, d.phys);
    ColonsAdd(b, [COLON]);
    ColonsAdd(c, d.uniq);
    ColonsAdd(e, [COLON]);
    ColonsAdd(f, vendor);
    ColonsAdd(g, [COLON]);
    ColonsAdd(g + [COLON], product);
  }

  lemma OneColon()
    ensures Colons([COLON]) == 1
  {}

  lemma ColonFreeKeyUnique(d: Device, e: Device)
    requires ColonFree(d) && DeviceKey(d) == DeviceKey(e)
    ensures d == e
  {
    DeviceKeyColons(d);
    DeviceKeyColons(e);
    DeviceKeyShape(d);
    DeviceKeyShape(e);
    hide DeviceKey, Decimal, Colons;
    FirstColon(
      d.name, d.phys + [COLON] + (d.uniq + [COLON] + KeyTail(d)),
      e.name, e.phys + [COLON] + (e.uniq + [COLON] + KeyTail(e)));
    FirstColon(d.phys, d.uniq + [COLON] + KeyTail(d), e.phys, e.uniq + [COLON] + KeyTail(e));
    FirstColon(d.uniq, KeyTail(d), e.uniq, KeyTail(e));
    DecimalDigits(d.vendorId);
    DecimalDigits(e.vendorId);
    FirstColon(Decimal(d.vendorId), Decimal(d.productId), Decimal(e.vendorId), Decimal(e.productId));
    DecimalInjective(d.vendorId, e.vendorId);
    DecimalInjective(d.productId, e.productId);
  }

  lemma SplitAtColon(t: seq<byte>) returns (k: nat)
    requires COLON in t
    ensures k < |t| && t == t[..k] + [COLON] + t[k + 1..]
  {
    k :| 0 <= k < |t| && t[k] == COLON;
  }

  lemma Regroup(a: seq<byte>, b: seq<byte>, c: seq<byte>, d: seq<byte>)
    ensures a + [COLON] + b + [COLON] + (c + [COLON] + d) == (a + [COLON] + b) + [COLON] + c + [COLON] + d
    ensures a + [COLON] + b + [COLON] + (c + [COLON] + d) == a + [COLON] + (b + [COLON] + c) + [COLON] + d
  {}

  /** A device whose fields hold a colon has a namesake: another device with the same key. */
  lemma ColonHasNamesake(d: Device) returns (e: Device)
    requires DeviceValid(d) && !ColonFree(d)
    ensures e != d && DeviceKey(e) == DeviceKey(d)
  {
    hide DeviceKey, Decimal;
    if COLON in d.name {
      var k := SplitAtColon(d.name);
      e := d.(name := d.name[..k], phys := d.name[k + 1..], uniq := d.phys + [COLON] + d.uniq);
      Regroup(e.name, e.phys, d.phys, d.uniq);
    } else if COLON in d.phys {
      var k := SplitAtColon(d.phys);
      e := d.(phys := d.phys[..k], uniq := d.phys[k + 1..] + [COLON] + d.uniq);
      Regroup(d.name, e.phys, d.phys[k + 1..], d.uniq);
    } else {
      var k := SplitAtColon(d.uniq);
      e := d.(name := d.name + [COLON] + d.phys, phys := d.uniq[..k], uniq := d.uniq[k + 1..]);
      Regroup(d.name, d.phys, e.phys, e.uniq);
    }
    KeysRegroup(d);
    KeysRegroup(e);
  }

  lemma KeysRegroup(d: Device)
    ensures DeviceKey(d) == (d.name + [COLON] + d.phys + [COLON] + d.uniq) + ([COLON] + KeyTail(d))
  {}

  /** Among all device records, the key identifies one exactly when none of its text fields holds a colon. */
  lemma DeviceKeyIdentifies(d: Device)
    requires DeviceValid(d)
    ensures ColonFree(d) <==> forall e :: DeviceKey(e) == DeviceKey(d) ==> e == d
  {
    hide DeviceKey, DeviceValid;
    if ColonFree(d) {
      forall e | DeviceKey(e) == DeviceKey(d)
        ensures e == d
      {
        ColonFreeKeyUnique(d, e);
      }
    } else {
      var e := ColonHasNamesake(d);
    }
  }

  /**
   Where isolated devices are free of colons, the key check rejects exactly
   repeated device identities.
   */
  lemma DevicesDistinctExact(profiles: seq<Named>)
    requires forall i :: 0 <= i < |profiles| && profiles[i].profile.mode == Isolated ==> ColonFree(profiles[i].profile.device)
    ensures DevicesDistinct(profiles) <==>
      forall i, j ::
        0 <= i < j < |profiles| && profiles[i].profile.mode == Isolated && profiles[j].profile.mode == Isolated ==>
          profiles[i].profile.device != profiles[j].profile.device
  {
    hide DeviceKey, ColonFree;
    forall i, j | 0 <= i < j < |profiles| && profiles[i].profile.mode == Isolated && profiles[j].profile.mode == Isolated
      ensures DeviceKey(profiles[i].profile.device) == DeviceKey(profiles[j].profile.device) <==>
        profiles[i].profile.device == profiles[j].profile.device
    {
      if DeviceKey(profiles[i].profile.device) == DeviceKey(profiles[j].profile.device) {
        ColonFreeKeyUnique(profiles[i].profile.device, profiles[j].profile.device);
      }
    }
  }

  // ----- Namesakes that validation admits -----

  /** What isolated mode asks of a device. */
  predicate Admissible(d: Device) {
    d.name != [] && d.phys != [] && d.uniq != [] && DeviceValid(d)
  }

  function Joined(d: Device): seq<byte> { d.name + [COLON] + d.phys + [COLON] + d.uniq }

  lemma LastColon(a: seq<byte>, x: seq<byte>, b: seq<byte>, y: seq<byte>)
    requires a + [COLON] + x == b + [COLON] + y && COLON !in x && COLON !in y
    ensures a == b && x == y
  {
    var t := a + [COLON] + x;
    assert t[|a|] == COLON && t[|b|] == COLON;
    assert x == t[|a| + 1..] && y == t[|b| + 1..];
    assert forall i :: |a| < i < |t| ==> t[i] == x[i - |a| - 1];
    assert forall i :: |b| < i < |t| ==> t[i] == y[i - |b| - 1];
    assert a == t[..|a|] && b == t[..|b|];
  }

  /** Keys agree exactly when the joined texts and both numbers do. */
  lemma KeysAgreeExactly(d: Device, e: Device)
    ensures DeviceKey(d) == DeviceKey(e) <==>
      Joined(d) == Joined(e) && d.vendorId == e.vendorId && d.productId == e.productId
  {
    hide Decimal;
    if DeviceKey(d) == DeviceKey(e) {
      DecimalDigits(d.vendorId);
      DecimalDigits(e.vendorId);
      DecimalDigits(d.productId);
      DecimalDigits(e.productId);
      LastColon(
        Joined(d) + [COLON] + Decimal(d.vendorId), Decimal(d.productId),
        Joined(e) + [COLON] + Decimal(e.vendorId), Decimal(e.productId));
      LastColon(Joined(d), Decimal(d.vendorId), Joined(e), Decimal(e.vendorId));
      DecimalInjective(d.vendorId, e.vendorId);
      DecimalInjective(d.productId, e.productId);
    }
  }

  /** The device with `d`'s numbers whose fields are `d`'s joined text cut at two colons. */
  function CutAt(d: Device, i: nat, j: nat): Device
    requires DeviceValid(d) && i < j < |Joined(d)|
  {
    var t := Joined(d);
    d.(name := t[..i], phys := t[i + 1..j], uniq := t[j + 1..])
  }

  /** Cutting at other colons than `d`'s own gives fields that validation admits too. */
  predicate OtherCut(d: Device, i: nat, j: nat)
    requires DeviceValid(d)
  {
    && i < j < |Joined(d)| && Joined(d)[i] == COLON && Joined(d)[j] == COLON
    && (i != |d.name| || j != |d.name| + 1 + |d.phys|)
    && Admissible(CutAt(d, i, j))
  }

  lemma CutJoins(d: Device, i: nat, j: nat)
    requires DeviceValid(d) && i < j < |Joined(d)| && Joined(d)[i] == COLON && Joined(d)[j] == COLON
    ensures Joined(CutAt(d, i, j)) == Joined(d)
    ensures CutAt(d, i, j) == d ==> i == |d.name| && j == |d.name| + 1 + |d.phys|
  {
    var t := Joined(d);
    assert t == t[..i] + [t[i]] + t[i + 1..j] + [t[j]] + t[j + 1..];
  }

  lemma JoinedIsCut(d: Device, e: Device)
    requires DeviceValid(d) && Joined(e) == Joined(d) && e.vendorId == d.vendorId && e.productId == d.productId
    ensures var i, j := |e.name|, |e.name| + 1 + |e.phys|;
      i < j < |Joined(d)| && Joined(d)[i] == COLON && Joined(d)[j] == COLON && CutAt(d, i, j) == e
  {
    var t, i, j := Joined(e), |e.name|, |e.name| + 1 + |e.phys|;
    assert t[i] == COLON && t[j] == COLON;
    assert t[..i] == e.name && t[i + 1..j] == e.phys && t[j + 1..] == e.uniq;
  }

  /**
   A device that validation admits shares its key with another one exactly when
   its joined text can be cut at other colons into fields validation admits.
   */
  lemma AdmittedNamesakes(d: Device)
    requires Admissible(d)
    ensures (exists e :: Admissible(e) && e != d && DeviceKey(e) == DeviceKey(d)) <==> exists i, j :: OtherCut(d, i, j)
  {
    hide DeviceKey, DeviceValid;
    if e :| Admissible(e) && e != d && DeviceKey(e) == DeviceKey(d) {
      KeysAgreeExactly(e, d);
      JoinedIsCut(d, e);
      JoinedIsCut(d, d);
      assert OtherCut(d, |e.name|, |e.name| + 1 + |e.phys|);
    }
    if i: nat, j: nat :| OtherCut(d, i, j) {
      CutJoins(d, i, j);
      KeysAgreeExactly(CutAt(d, i, j), d);
    }
  }

  /** Two different valid devices the key check takes for one. */
  lemma DifferentDevicesCanCollide()
    ensures var d, e := Device(Ascii("a:b"), Ascii("c"), Ascii("d"), 1, 2), Device(Ascii("a"), Ascii("b"), Ascii("c:d"), 1, 2);
      d != e && DeviceValid(d) && DeviceValid(e) && DeviceKey(d) == DeviceKey(e)
  {}
}
