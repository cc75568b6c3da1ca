/**
 The backup and restore handlers of the authenticator (`authenticator.rs`): a
 two-phase backup with a map of pending tokens, and a restore that replaces a
 credential with rollback. What storage, authorization and other commands do is
 chosen by the environment.
 */
module BackupService {
  import opened Wrappers
  import opened Bytes
  import opened BackupBundle

  type Token = t: seq<byte> | |t| == 32 witness seq(32, _ => 0)

  /** `CredentialRef` as the handlers build it: it has no field for `hmac_secret`. */
  datatype CredentialRef = CredentialRef(
    id: Text,
    rpId: Text,
    rpName: Option<Text>,
    userId: Text,
    userName: Option<Text>,
    userDisplayName: Option<Text>,
    signCount: nat,
    alg: int,
    keyProvider: KeyProvider,
    keyFormatVersion: nat,
    keyMaterial: Text,
    created: int,
    discoverable: bool,
    credProtect: Option<byte>,
    backupState: BackupState,
    credRandom: Option<Text>)

  function RefOf(c: Credential): CredentialRef {
    CredentialRef(
      c.id, c.rpId, c.rpName, c.userId, c.userName, c.userDisplayName, c.signCount, c.alg,
      c.keyProvider, c.keyFormatVersion, c.keyMaterial, c.created, c.discoverable,
      c.credProtect, c.backupState, c.credRandom)
  }

  /**
   What the handlers cannot see: the codec, the digest, the wrapping keys, and
   the `hmac_secret` storage puts into a credential it rebuilds from a reference.
   */
  datatype World = World(
    codec: Codec,
    digest: seq<byte> -> Token,
    keys: Text -> Option<Key>,
    hmacOf: CredentialRef -> Option<bool>)

  /** The credential storage holds after writing `c` through a reference. */
  function Stored(w: World, c: Credential): (r: Credential)
    ensures r == c.(hmacSecret := w.hmacOf(RefOf(c)))
  {
    var ref := RefOf(c);
    Credential(
      ref.id, ref.rpId, ref.rpName, ref.userId, ref.userName, ref.userDisplayName, ref.signCount, ref.alg,
      ref.keyProvider, ref.keyFormatVersion, ref.keyMaterial, ref.created, ref.discoverable,
      ref.backupState, ref.credProtect, w.hmacOf(ref), ref.credRandom)
  }

  type Store = map<Text, Credential>

  datatype Status =
    | Success
    | Prepared(bundle: seq<byte>, token: Token)
    | UnsupportedOption
    | Refused(status: byte)
    | InvalidSubcommand
    | NoCredentials
    | IntegrityFailure
    | CredentialExcluded
    | Backup(error: BackupError)
    | Other

  datatype State = State(store: Store, pending: map<Text, Token>)

  /** Storage holds each credential under its own id. */
  ghost predicate Indexed(store: Store) { forall id :: id in store ==> store[id].id == id }

  /** The environment's choices during a prepare; `refusal` is the status of a failed authorization. */
  datatype PrepareEnv = PrepareEnv(refusal: Option<byte>, readFault: bool, nonce: Nonce, built: bool)

  datatype WriteResult = Written | WriteDoesNotExist | WriteFault

  datatype CommitEnv = CommitEnv(refusal: Option<byte>, readFault: bool, write: WriteResult)

  datatype RestoreEnv = RestoreEnv(refusal: Option<byte>, readFault: bool, deleted: bool, written: bool, rolledBack: bool, built: bool)

  function EncryptFor(w: World, c: Credential, recipient: Text, nonce: Nonce): Result<seq<byte>, BackupError> {
    if !ValidRecipient(recipient) then Err(InvalidInput)
    else
      match w.keys(recipient)
      case None => Err(CryptoUnavailable)
      case Some(key) => EncryptWithKey(w.codec, c, recipient, key, nonce)
  }

  /** Which error an export is refused with: of the recipient, of its key, of the credential, or of size. */
  lemma EncryptErrorIs(w: World, c: Credential, recipient: Text, nonce: Nonce)
    ensures var r, named, keyed := EncryptFor(w, c, recipient, nonce), ValidRecipient(recipient), w.keys(recipient).Some?;
      && (r == Err(InvalidInput) <==> !named)
      && (r == Err(CryptoUnavailable) <==> named && !keyed)
      && (r == Err(UnsupportedCredential) <==> named && keyed && !Exportable(c))
      && (named && keyed && Exportable(c) ==> r.Ok? || r == Err(TooLarge))
  {
    hide ValidRecipient;
  }

  function BackupStateForExport(s: BackupState): Result<BackupState, BackupError> {
    if !IsEligible(s) then Err(UnsupportedCredential) else Ok(BackedUp)
  }

  function PrepareStep(w: World, s: State, id: Text, recipient: Text, env: PrepareEnv): (State, Status) {
    if env.refusal.Some? then (s, Refused(env.refusal.value))
    else if env.readFault then (s, Other)
    else if id !in s.store then (s, NoCredentials)
    else
      match BackupStateForExport(s.store[id].backupState)
      case Err(error) => (s, Backup(error))
      case Ok(exportState) =>
        match EncryptFor(w, s.store[id].(backupState := exportState), recipient, env.nonce)
        case Err(error) => (s, Backup(error))
        case Ok(bundle) =>
          var token := w.digest(bundle);
          (s.(pending := s.pending[id := token]), if env.built then Prepared(bundle, token) else Other)
  }

  function CommitStep(w: World, s: State, id: Text, token: Text, env: CommitEnv): (State, Status) {
    if env.refusal.Some? then (s, Refused(env.refusal.value))
    else if |token| != 32 || id !in s.pending || s.pending[id] != token then (s, IntegrityFailure)
    else if env.readFault then (s, Other)
    else if id !in s.store then (s, NoCredentials)
    else if env.write != Written then (s, if env.write == WriteFault then Other else NoCredentials)
    else
      var credential := s.store[id].(backupState := BackedUp);
      (State(s.store[credential.id := Stored(w, credential)], s.pending - {id}), Success)
  }

  /** The storage part of a restore: install the credential, or roll back. */
  function InstallStep(w: World, store: Store, c: Credential, replace: bool, env: RestoreEnv): (Store, Status) {
    if env.readFault then (store, Other)
    else if c.id in store && !replace then (store, CredentialExcluded)
    else if c.id in store && !env.deleted then (store, Other)
    else
      var cleared := store - {c.id};
      if env.written then (cleared[c.id := Stored(w, c)], Success)
      else if c.id in store && env.rolledBack then
        var previous := store[c.id];
        (cleared[previous.id := Stored(w, previous)], Other)
      else (cleared, Other)
  }

  function RestoreStep(w: World, s: State, bundle: seq<byte>, replace: bool, env: RestoreEnv): (State, Status) {
    if env.refusal.Some? then (s, Refused(env.refusal.value))
    else
      match Decrypt(w.codec, w.keys, bundle)
      case Err(error) => (s, Backup(error))
      case Ok(credential) =>
        var (store, status) := InstallStep(w, s.store, credential.(backupState := BackedUp), replace, env);
        (s.(store := store), if status.Success? && !env.built then Other else status)
  }

  /** A backup request as parsed: a parameter may be missing or ill-typed, the subcommand unknown. */
  datatype BackupRequest =
    | Malformed(status: byte)
    | UnknownSubcommand
    | PrepareRequest(id: Text, recipient: Text, prepareEnv: PrepareEnv)
    | CommitRequest(id: Text, token: Text, commitEnv: CommitEnv)

  /** A restore request; an absent or ill-typed `replace` is false. */
  datatype RestoreRequest = Illegible(status: byte) | RestoreRequest(bundle: Text, replace: Option<bool>, env: RestoreEnv)

  function BackupStep(w: World, s: State, r: BackupRequest): (State, Status) {
    match r
    case Malformed(status) => (s, Refused(status))
    case UnknownSubcommand => (s, InvalidSubcommand)
    case PrepareRequest(id, recipient, env) => PrepareStep(w, s, id, recipient, env)
    case CommitRequest(id, token, env) => CommitStep(w, s, id, token, env)
  }

  function RestoreRequestStep(w: World, s: State, r: RestoreRequest): (State, Status) {
    match r
    case Illegible(status) => (s, Refused(status))
    case RestoreRequest(bundle, replace, env) => RestoreStep(w, s, bundle, replace == Some(true), env)
  }

  // ----- The handlers, updating the service in place -----

  class Service {
    const w: World
    const enabled: bool
    var store: Store
    var pending: map<Text, Token>

    function Current(): State
      reads this
    {
      State(store, pending)
    }

    constructor (w: World, enabled: bool, store: Store)
      ensures this.w == w && this.enabled == enabled && Current() == State(store, map[])
    {
      this.w, this.enabled, this.store, this.pending := w, enabled, store, map[];
    }

    /** `handle_backup_command`. */
    method HandleBackup(r: BackupRequest) returns (status: Status)
      modifies this
      ensures if enabled then (Current(), status) == BackupStep(w, old(Current()), r)
              else Current() == old(Current()) && status == UnsupportedOption
    {
      hide PrepareStep, CommitStep;
      if !enabled {
        return UnsupportedOption;
      }
      match r {
        case Malformed(refused) =>
          return Refused(refused);
        case UnknownSubcommand =>
          return InvalidSubcommand;
        case PrepareRequest(id, recipient, env) =>
          status := Prepare(id, recipient, env);
        case CommitRequest(id, token, env) =>
          status := Commit(id, token, env);
      }
    }

    /** `handle_restore_command`. */
    method HandleRestore(r: RestoreRequest) returns (status: Status)
      modifies this
      ensures if enabled then (Current(), status) == RestoreRequestStep(w, old(Current()), r)
              else Current() == old(Current()) && status == UnsupportedOption
    {
      hide RestoreStep;
      if !enabled {
        return UnsupportedOption;
      }
      match r {
        case Illegible(refused) =>
          return Refused(refused);
        case RestoreRequest(bundle, replace, env) =>
          status := Restore(bundle, replace == Some(true), env);
      }
    }

    /** The prepare subcommand, once its parameters are read. */
    method Prepare(id: Text, recipient: Text, env: PrepareEnv) returns (status: Status)
      modifies this
      ensures (Current(), status) == PrepareStep(w, old(Current()), id, recipient, env)
    {
      if env.refusal.Some? {
        return Refused(env.refusal.value);
      }
      if env.readFault {
        return Other;
      }
      if id !in store {
        return NoCredentials;
      }
      var credential := store[id];
      var exportState := BackupStateForExport(credential.backupState);
      if exportState.Err? {
        return Backup(exportState.error);
      }
      credential := credential.(backupState := exportState.value);
      var bundle := EncryptFor(w, credential, recipient, env.nonce);
      if bundle.Err? {
        return Backup(bundle.error);
      }
      var token := w.digest(bundle.value);
      pending := pending[id := token];
      return if env.built then Prepared(bundle.value, token) else Other;
    }

    /** The commit subcommand, once its parameters are read. */
    method Commit(id: Text, token: Text, env: CommitEnv) returns (status: Status)
      modifies this
      ensures (Current(), status) == CommitStep(w, old(Current()), id, token, env)
    {
      if env.refusal.Some? {
        return Refused(env.refusal.value);
      }
      if |token| != 32 || id !in pending || pending[id] != token {
        return IntegrityFailure;
      }
      if env.readFault {
        return Other;
      }
      if id !in store {
        return NoCredentials;
      }
      var credential := store[id];
      credential := credential.(backupState := BackedUp);
      if env.write != Written {
        return if env.write == WriteFault then Other else NoCredentials;
      }
      store := store[credential.id := Stored(w, credential)];
      pending := pending - {id};
      return Success;
    }

    /** The restore command, once its parameters are read. */
    method Restore(bundle: seq<byte>, replace: bool, env: RestoreEnv) returns (status: Status)
      modifies this
      ensures (Current(), status) == RestoreStep(w, old(Current()), bundle, replace, env)
    {
      if env.refusal.Some? {
        return Refused(env.refusal.value);
      }
      var decrypted := Decrypt(w.codec, w.keys, bundle);
      if decrypted.Err? {
        return Backup(decrypted.error);
      }
      var credential := decrypted.value.(backupState := BackedUp);
      if env.readFault {
        return Other;
      }
      var existing := if credential.id in store then Some(store[credential.id]) else None;
      if existing.Some? && !replace {
        return CredentialExcluded;
      }
      if existing.Some? {
        if !env.deleted {
          return Other;
        }
        store := store - {credential.id};
      }
      if !env.written {
        if existing.Some? && env.rolledBack {
          store := store[existing.value.id := Stored(w, existing.value)];
        }
        assert existing.None? ==> store == store - {credential.id};
        return Other;
      }
      assert existing.None? ==> store == store - {credential.id};
      store := store[credential.id := Stored(w, credential)];
      return if env.built then Success else Other;
    }
  }

  // ----- Runs -----

  datatype Event =
    | DoPrepare(id: Text, recipient: Text, prepareEnv: PrepareEnv)
    | DoCommit(id: Text, token: Text, commitEnv: CommitEnv)
    | DoRestore(bundle: seq<byte>, replace: bool, restoreEnv: RestoreEnv)
    | BadRequest(status: Status)
    | OtherCommand(store: Store)

  /** Any other command may change the store in any way, but not the pending map. */
  function Step(w: World, s: State, e: Event): (State, Status) {
    match e
    case DoPrepare(id, recipient, env) => PrepareStep(w, s, id, recipient, env)
    case DoCommit(id, token, env) => CommitStep(w, s, id, token, env)
    case DoRestore(bundle, replace, env) => RestoreStep(w, s, bundle, replace, env)
    case BadRequest(status) => (s, status)
    case OtherCommand(store) => (s.(store := store), Success)
  }

  /** The state after a run that starts with no pending tokens. */
  function After(w: World, store: Store, events: seq<Event>): State {
    if events == [] then State(store, map[])
    else Step(w, After(w, store, events[..|events| - 1]), events[|events| - 1]).0
  }

  /** Event `i` of a run put `token` into the pending map for `id`. */
  predicate Inserts(w: World, store: Store, events: seq<Event>, i: nat, id: Text, token: Token)
    requires i < |events|
  {
    var before := After(w, store, events[..i]);
    && events[i].DoPrepare? && events[i].id == id
    && Insertion(w, before, events[i]) == Some(token)
  }

  /** The token a prepare inserts, even when building the response fails afterwards. */
  function Insertion(w: World, s: State, e: Event): Option<Token>
    requires e.DoPrepare?
  {
    if e.prepareEnv.refusal.Some? || e.prepareEnv.readFault || e.id !in s.store || !IsEligible(s.store[e.id].backupState)
    then None
    else
      match EncryptFor(w, s.store[e.id].(backupState := BackedUp), e.recipient, e.prepareEnv.nonce)
      case Err(_) => None
      case Ok(bundle) => Some(w.digest(bundle))
  }

  predicate Commits(w: World, store: Store, events: seq<Event>, i: nat, id: Text)
    requires i < |events|
  {
    && events[i].DoCommit? && events[i].id == id
    && Step(w, After(w, store, events[..i]), events[i]).1.Success?
  }

  /** Event `i` inserts or commits something for `id`. */
  ghost predicate Touches(w: World, store: Store, events: seq<Event>, i: nat, id: Text)
    requires i < |events|
  {
    Commits(w, store, events, i, id) || exists t: Token :: Inserts(w, store, events, i, id, t)
  }

  /** `token` was inserted for `id` by event `j`, and nothing since has replaced or consumed it. */
  ghost predicate LatestUncommitted(w: World, store: Store, events: seq<Event>, j: nat, id: Text, token: Token) {
    && j < |events|
    && Inserts(w, store, events, j, id, token)
    && forall k :: j < k < |events| ==> !Touches(w, store, events, k, id)
  }

  /** How one step changes the pending entry of one id. */
  lemma StepPending(w: World, s: State, e: Event, id: Text)
    ensures var (t, status) := Step(w, s, e);
      if e.DoPrepare? && e.id == id && Insertion(w, s, e).Some? then
        id in t.pending && t.pending[id] == Insertion(w, s, e).value
      else if e.DoCommit? && e.id == id && status.Success? then id !in t.pending
      else (id in t.pending <==> id in s.pending) && (id in s.pending ==> t.pending[id] == s.pending[id])
  {}

  /** Events that happened are not changed by later ones. */
  lemma HistoryStands(w: World, store: Store, events: seq<Event>, e: Event, i: nat, id: Text)
    requires i < |events|
    ensures forall t: Token :: Inserts(w, store, events + [e], i, id, t) == Inserts(w, store, events, i, id, t)
    ensures Touches(w, store, events + [e], i, id) == Touches(w, store, events, i, id)
  {
    assert (events + [e])[..i] == events[..i];
    hide After, Step, Insertion;
    assert Commits(w, store, events + [e], i, id) == Commits(w, store, events, i, id);
    assert forall t: Token :: Inserts(w, store, events + [e], i, id, t) == Inserts(w, store, events, i, id, t);
  }

  /** Event `j` stays the latest uncommitted insertion when the next event neither inserts nor commits. */
  lemma LatestExtends(w: World, store: Store, events: seq<Event>, e: Event, j: nat, id: Text, token: Token)
    requires j < |events|
    ensures LatestUncommitted(w, store, events + [e], j, id, token) ==
      (LatestUncommitted(w, store, events, j, id, token) && !Touches(w, store, events + [e], |events|, id))
  {
    hide Inserts, Touches;
    var all := events + [e];
    HistoryStands(w, store, events, e, j, id);
    forall k | 0 <= k < |events|
      ensures Touches(w, store, all, k, id) == Touches(w, store, events, k, id)
    {
      HistoryStands(w, store, events, e, k, id);
    }
  }

  /** What the last event of a run does to a pending entry. */
  lemma LastEvent(w: World, store: Store, events: seq<Event>, e: Event, id: Text)
    ensures After(w, store, events + [e]) == Step(w, After(w, store, events), e).0
    ensures
      forall t: Token ::
        Inserts(w, store, events + [e], |events|, id, t) ==
        (e.DoPrepare? && e.id == id && Insertion(w, After(w, store, events), e) == Some(t))
    ensures Commits(w, store, events + [e], |events|, id) ==
      (e.DoCommit? && e.id == id && Step(w, After(w, store, events), e).1.Success?)
  {}

  /**
   After any run, the pending map holds exactly, for each id, the token of the
   latest prepare that inserted one and has not been committed since.
   */
  lemma {:induction false} PendingIsLatest(w: World, store: Store, events: seq<Event>, id: Text, token: Token)
    ensures (id in After(w, store, events).pending && After(w, store, events).pending[id] == token)
       <==> exists j :: LatestUncommitted(w, store, events, j, id, token)
  {
    if events != [] {
      var init, e := events[..|events| - 1], events[|events| - 1];
      assert events == init + [e];
      PendingIsLatest(w, store, init, id, token);
      PendingStep(w, store, init, e, id, token);
    }
  }

  lemma PendingStep(w: World, store: Store, init: seq<Event>, e: Event, id: Text, token: Token)
    requires (id in After(w, store, init).pending && After(w, store, init).pending[id] == token)
        <==> exists j :: LatestUncommitted(w, store, init, j, id, token)
    ensures (id in After(w, store, init + [e]).pending && After(w, store, init + [e]).pending[id] == token)
       <==> exists j :: LatestUncommitted(w, store, init + [e], j, id, token)
  {
    hide After, Step, Inserts, Commits, Insertion;
    var n, all := |init|, init + [e];
    LastEvent(w, store, init, e, id);
    StepPending(w, After(w, store, init), e, id);
    forall j | 0 <= j < n
      ensures LatestUncommitted(w, store, all, j, id, token) ==
        (LatestUncommitted(w, store, init, j, id, token) && !Touches(w, store, all, n, id))
    {
      LatestExtends(w, store, init, e, j, id, token);
    }
    assert LatestUncommitted(w, store, all, n, id, token) <==> Inserts(w, store, all, n, id, token);
  }

  /**
   In every run a commit succeeds only with the token of the latest prepare for
   that id that has not been committed, and it consumes the token.
   */
  lemma CommitNeedsLatestToken(w: World, store: Store, events: seq<Event>, id: Text, token: Text, env: CommitEnv)
    requires CommitStep(w, After(w, store, events), id, token, env).1.Success?
    ensures |token| == 32 && exists j :: LatestUncommitted(w, store, events, j, id, token)
    ensures id !in CommitStep(w, After(w, store, events), id, token, env).0.pending
  {
    hide LatestUncommitted, After;
    PendingIsLatest(w, store, events, id, token);
  }

  // ----- What commits, failures and restores change -----

  /** A successful commit changes one credential, and of it only the backup state if storage keeps `hmac_secret`. */
  lemma CommitEffect(w: World, s: State, id: Text, token: Text, env: CommitEnv)
    requires Indexed(s.store) && CommitStep(w, s, id, token, env).1.Success?
    ensures var t := CommitStep(w, s, id, token, env).0;
      && id in s.store && t.store.Keys == s.store.Keys && Indexed(t.store)
      && (forall other :: other in s.store && other != id ==> t.store[other] == s.store[other])
      && t.pending == s.pending - {id}
      && t.store[id].backupState == BackedUp
      && (t.store[id] == s.store[id].(backupState := BackedUp)
          <==> w.hmacOf(RefOf(s.store[id].(backupState := BackedUp))) == s.store[id].hmacSecret)
  {}

  /** Without authorization nothing changes; a prepare never touches the store, and a failed commit nothing. */
  lemma RefusalsChangeNothing(w: World, s: State, e: Event)
    ensures e.DoPrepare? ==> Step(w, s, e).0.store == s.store
    ensures e.DoPrepare? && e.prepareEnv.refusal.Some? ==> Step(w, s, e) == (s, Refused(e.prepareEnv.refusal.value))
    ensures e.DoCommit? && !Step(w, s, e).1.Success? ==> Step(w, s, e).0 == s
    ensures e.DoCommit? && e.commitEnv.refusal.Some? ==> Step(w, s, e) == (s, Refused(e.commitEnv.refusal.value))
    ensures e.DoRestore? ==> Step(w, s, e).0.pending == s.pending
    ensures e.DoRestore? && e.restoreEnv.refusal.Some? ==> Step(w, s, e) == (s, Refused(e.restoreEnv.refusal.value))
  {}

  /**
   The storage part of a restore touches only the credential's id. It installs
   the credential exactly when every storage call it needs succeeds and an
   existing one may be replaced; otherwise the store is unchanged, except after a
   delete that the write does not follow up: then the old credential is written
   back, or gone if that fails too.
   */
  lemma InstallOutcome(w: World, store: Store, c: Credential, replace: bool, env: RestoreEnv)
    requires Indexed(store)
    ensures var (after, status) := InstallStep(w, store, c, replace, env);
      && Indexed(after)
      && after - {c.id} == store - {c.id}
      && (status.Success? <==> !env.readFault && env.written && (c.id in store ==> replace && env.deleted))
      && (status.Success? ==> c.id in after && after[c.id] == Stored(w, c))
      && (c.id in store && !replace ==> after == store && !status.Success?)
      && (!status.Success? ==>
            if !env.readFault && c.id in store && replace && env.deleted then
              after == if env.rolledBack then store[c.id := Stored(w, store[c.id])] else store - {c.id}
            else after == store)
  {}

  /** Rolling back restores the store exactly when storage rebuilds the old credential's `hmac_secret`. */
  lemma RollbackRestores(w: World, store: Store, c: Credential, env: RestoreEnv)
    requires Indexed(store) && c.id in store && !env.readFault && env.deleted && !env.written && env.rolledBack
    ensures InstallStep(w, store, c, true, env).0 == store
       <==> w.hmacOf(RefOf(store[c.id])) == store[c.id].hmacSecret
  {}

  // ----- Whole requests -----

  /** Export encrypts the credential as backed up, whatever eligible state it is in. */
  function Exported(w: World, s: State, id: Text, recipient: Text, nonce: Nonce): Result<seq<byte>, BackupError>
    requires id in s.store
  {
    EncryptFor(w, s.store[id].(backupState := BackedUp), recipient, nonce)
  }

  /** A request that cannot be read, or whose subcommand is unknown, changes nothing and is answered as such. */
  lemma BadRequestsChangeNothing(w: World, s: State, r: BackupRequest, q: RestoreRequest)
    ensures r.Malformed? ==> BackupStep(w, s, r).0 == s && BackupStep(w, s, r).1 == Refused(r.status)
    ensures r.UnknownSubcommand? ==> BackupStep(w, s, r).0 == s && BackupStep(w, s, r).1 == InvalidSubcommand
    ensures q.Illegible? ==> RestoreRequestStep(w, s, q).0 == s && RestoreRequestStep(w, s, q).1 == Refused(q.status)
  {}

  /** Every answer to a prepare, and exactly when it is given. */
  lemma PrepareOutcome(w: World, s: State, id: Text, recipient: Text, env: PrepareEnv)
    ensures var (t, status) := PrepareStep(w, s, id, recipient, env);
      if env.refusal.Some? then t == s && status == Refused(env.refusal.value)
      else if env.readFault then t == s && status == Other
      else if id !in s.store then t == s && status == NoCredentials
      else if s.store[id].backupState == NotEligible then t == s && status == Backup(UnsupportedCredential)
      else if Exported(w, s, id, recipient, env.nonce).Err? then
        t == s && status == Backup(Exported(w, s, id, recipient, env.nonce).error)
      else
        var bundle := Exported(w, s, id, recipient, env.nonce).value;
        && t.store == s.store && t.pending == s.pending[id := w.digest(bundle)]
        && status == if env.built then Prepared(bundle, w.digest(bundle)) else Other
  {
    hide EncryptFor;
  }

  /** Every answer to a commit, and exactly when it is given. */
  lemma CommitOutcome(w: World, s: State, id: Text, token: Text, env: CommitEnv)
    ensures var (t, status) := CommitStep(w, s, id, token, env);
      if env.refusal.Some? then t == s && status == Refused(env.refusal.value)
      else if !(id in s.pending && s.pending[id] == token) then t == s && status == IntegrityFailure
      else if env.readFault then t == s && status == Other
      else if id !in s.store || env.write == WriteDoesNotExist then t == s && status == NoCredentials
      else if env.write == WriteFault then t == s && status == Other
      else status == Success
  {}

  /** The token a prepare answers with commits, on the state it leaves, exactly when authorization and storage allow it. */
  lemma PreparedTokenCommits(w: World, s: State, id: Text, recipient: Text, env: PrepareEnv, commitEnv: CommitEnv)
    requires PrepareStep(w, s, id, recipient, env).1.Prepared?
    ensures var (t, prepared) := PrepareStep(w, s, id, recipient, env);
      && prepared.token == w.digest(prepared.bundle)
      && (CommitStep(w, t, id, prepared.token, commitEnv).1.Success? <==>
          commitEnv.refusal.None? && !commitEnv.readFault && commitEnv.write == Written)
  {
    hide EncryptFor;
  }

  /** The storage calls a restore of this credential needs all succeed, and it may replace what is there. */
  predicate Installs(store: Store, c: Credential, replace: bool, env: RestoreEnv) {
    !env.readFault && env.written && (c.id in store ==> replace && env.deleted)
  }

  /** Every answer to a restore, and exactly when it is given and what the store is then. */
  lemma RestoreOutcome(w: World, s: State, bundle: seq<byte>, replace: bool, env: RestoreEnv)
    requires Indexed(s.store)
    ensures var (t, status) := RestoreStep(w, s, bundle, replace, env);
      var result := Decrypt(w.codec, w.keys, bundle);
      if env.refusal.Some? then t == s && status == Refused(env.refusal.value)
      else if result.Err? then t == s && status == Backup(result.error)
      else
        var c := result.value.(backupState := BackedUp);
        && t.pending == s.pending && t.store - {c.id} == s.store - {c.id}
        && (Installs(s.store, c, replace, env) ==>
              t.store == s.store[c.id := Stored(w, c)] && status == if env.built then Success else Other)
        && (!env.readFault && c.id in s.store && !replace ==> t == s && status == CredentialExcluded)
        && (env.readFault || (c.id in s.store && replace && !env.deleted) ==> t == s && status == Other)
        && (!env.readFault && !env.written && (c.id in s.store ==> replace && env.deleted) ==>
              status == Other && t.store == if c.id !in s.store then s.store
                                            else if env.rolledBack then s.store[c.id := Stored(w, s.store[c.id])]
                                            else s.store - {c.id})
  {
    hide Decrypt, Indexed;
    if env.refusal.None? && Decrypt(w.codec, w.keys, bundle).Ok? {
      var c := Decrypt(w.codec, w.keys, bundle).value.(backupState := BackedUp);
      InstallOutcome(w, s.store, c, replace, env);
      if Installs(s.store, c, replace, env) {
        InstallReplaces(w, s.store, c, replace, env);
      }
    }
  }

  lemma InstallReplaces(w: World, store: Store, c: Credential, replace: bool, env: RestoreEnv)
    requires Installs(store, c, replace, env)
    ensures InstallStep(w, store, c, replace, env) == (store[c.id := Stored(w, c)], Success)
  {
    assert (store - {c.id})[c.id := Stored(w, c)] == store[c.id := Stored(w, c)];
  }

  /** Unless the request says `replace`, a credential already stored under the bundle's id is kept as it is. */
  lemma ExistingNeedsReplace(w: World, s: State, r: RestoreRequest)
    requires Indexed(s.store) && r.RestoreRequest? && r.replace != Some(true)
    requires Decrypt(w.codec, w.keys, r.bundle).Ok? && Decrypt(w.codec, w.keys, r.bundle).value.id in s.store
    ensures RestoreRequestStep(w, s, r).0 == s && !RestoreRequestStep(w, s, r).1.Success?
    ensures r.env.refusal.None? && !r.env.readFault ==> RestoreRequestStep(w, s, r).1 == CredentialExcluded
  {
    RestoreOutcome(w, s, r.bundle, false, r.env);
  }

  /** A request that says `replace` has it. */
  lemma ReplaceIsPassedOn(w: World, s: State, bundle: Text, env: RestoreEnv)
    ensures RestoreRequestStep(w, s, RestoreRequest(bundle, Some(true), env)) == RestoreStep(w, s, bundle, true, env)
  {}

  // ----- Backup eligibility -----

  ghost predicate PendingEligible(s: State) {
    forall id :: id in s.pending && id in s.store ==> IsEligible(s.store[id].backupState)
  }

  /** Some commit would mark an ineligible credential backed up. */
  ghost predicate CanPromote(w: World, s: State) {
    exists id, token: Text, env ::
      CommitStep(w, s, id, token, env).1.Success? && s.store[id].backupState == NotEligible
  }

  /** A commit can do that exactly when an ineligible credential is stored under a pending id. */
  lemma PromotionExact(w: World, s: State)
    ensures CanPromote(w, s) <==> !PendingEligible(s)
  {
    if !PendingEligible(s) {
      var id :| id in s.pending && id in s.store && !IsEligible(s.store[id].backupState);
      assert CommitStep(w, s, id, s.pending[id], CommitEnv(None, false, Written)).1.Success?;
    }
  }

  /** Other commands leave every credential under its own id. */
  ghost predicate KeepIndexed(events: seq<Event>) {
    forall k :: 0 <= k < |events| && events[k].OtherCommand? ==> Indexed(events[k].store)
  }

  /** Other commands put no ineligible credential under an id that is pending at that time. */
  ghost predicate Considerate(w: World, store: Store, events: seq<Event>) {
    forall k :: 0 <= k < |events| && events[k].OtherCommand? ==>
      PendingEligible(State(events[k].store, After(w, store, events[..k]).pending))
  }

  lemma StepKeepsEligible(w: World, s: State, e: Event)
    requires Indexed(s.store) && PendingEligible(s)
    requires e.OtherCommand? ==> Indexed(e.store) && PendingEligible(State(e.store, s.pending))
    ensures Indexed(Step(w, s, e).0.store) && PendingEligible(Step(w, s, e).0)
  {
    hide EncryptFor, Decrypt, RefOf;
    if e.DoRestore? && e.restoreEnv.refusal.None? && Decrypt(w.codec, w.keys, e.bundle).Ok? {
      var c := Decrypt(w.codec, w.keys, e.bundle).value.(backupState := BackedUp);
      hide InstallStep;
      InstallOutcome(w, s.store, c, e.replace, e.restoreEnv);
      InstallKeepsEligible(w, s, c, e.replace, e.restoreEnv);
    }
  }

  lemma InstallKeepsEligible(w: World, s: State, c: Credential, replace: bool, env: RestoreEnv)
    requires Indexed(s.store) && PendingEligible(s) && IsEligible(c.backupState)
    ensures PendingEligible(s.(store := InstallStep(w, s.store, c, replace, env).0))
  {}

  lemma ConsideratePrefix(w: World, store: Store, events: seq<Event>, n: nat)
    requires Considerate(w, store, events) && n <= |events|
    ensures Considerate(w, store, events[..n])
  {
    forall k | 0 <= k < n && events[..n][k].OtherCommand?
      ensures PendingEligible(State(events[..n][k].store, After(w, store, events[..n][..k]).pending))
    {
      assert events[..n][..k] == events[..k] && events[..n][k] == events[k];
    }
  }

  lemma {:induction false} RunKeepsEligible(w: World, store: Store, events: seq<Event>)
    requires Indexed(store) && KeepIndexed(events) && Considerate(w, store, events)
    ensures Indexed(After(w, store, events).store) && PendingEligible(After(w, store, events))
  {
    if events != [] {
      var n := |events| - 1;
      var init, e := events[..n], events[n];
      ConsideratePrefix(w, store, events, n);
      assert e.OtherCommand? ==> PendingEligible(State(e.store, After(w, store, events[..n]).pending));
      hide Step, Considerate;
      RunKeepsEligible(w, store, init);
      StepKeepsEligible(w, After(w, store, init), e);
    }
  }

  ghost predicate PromotableAt(w: World, store: Store, events: seq<Event>, n: nat)
    requires n <= |events|
  {
    CanPromote(w, After(w, store, events[..n]))
  }

  lemma AfterOther(w: World, store: Store, events: seq<Event>, k: nat)
    requires k < |events| && events[k].OtherCommand?
    ensures After(w, store, events[..k + 1]) == State(events[k].store, After(w, store, events[..k]).pending)
  {
    assert events[..k + 1][..k] == events[..k];
  }

  /**
   A run never reaches a state in which a commit could mark an ineligible
   credential backed up, exactly when its other commands are considerate.
   */
  lemma NeverPromotableExactly(w: World, store: Store, events: seq<Event>)
    requires Indexed(store) && KeepIndexed(events)
    ensures Considerate(w, store, events) <==> forall n :: 0 <= n <= |events| ==> !PromotableAt(w, store, events, n)
  {
    hide After, CanPromote;
    if Considerate(w, store, events) {
      forall n | 0 <= n <= |events|
        ensures !PromotableAt(w, store, events, n)
      {
        ConsideratePrefix(w, store, events, n);
        RunKeepsEligible(w, store, events[..n]);
        PromotionExact(w, After(w, store, events[..n]));
      }
    }
    if forall n :: 0 <= n <= |events| ==> !PromotableAt(w, store, events, n) {
      forall k | 0 <= k < |events| && events[k].OtherCommand?
        ensures PendingEligible(State(events[k].store, After(w, store, events[..k]).pending))
      {
        assert !PromotableAt(w, store, events, k + 1);
        AfterOther(w, store, events, k);
        PromotionExact(w, After(w, store, events[..k + 1]));
      }
    }
  }

  /** As long as other commands are considerate, backups never change an ineligible credential. */
  lemma IneligibleStaysIneligible(w: World, store: Store, events: seq<Event>, e: Event, id: Text)
    requires Indexed(store) && KeepIndexed(events) && Considerate(w, store, events) && (e.DoPrepare? || e.DoCommit?)
    requires id in After(w, store, events).store && After(w, store, events).store[id].backupState == NotEligible
    ensures id in Step(w, After(w, store, events), e).0.store
    ensures Step(w, After(w, store, events), e).0.store[id] == After(w, store, events).store[id]
  {
    hide After;
    RunKeepsEligible(w, store, events);
    RefusalsChangeNothing(w, After(w, store, events), e);
  }

  /** One that is not lets the next commit back up whatever ineligible credential it stored. */
  lemma InconsiderateCommandPromotes(w: World, s: State, id: Text, replaced: Store)
    requires id in s.pending && Indexed(replaced) && id in replaced && replaced[id].backupState == NotEligible
    ensures var swapped := Step(w, s, OtherCommand(replaced)).0;
      var (t, status) := Step(w, swapped, DoCommit(id, s.pending[id], CommitEnv(None, false, Written)));
      status.Success? && id in t.store && t.store[id].backupState == BackedUp
  {}

  // ----- From one authenticator to another -----

  /** The same serialization and cipher; the firmware versions may differ. */
  ghost predicate SameFormat(a: Codec, b: Codec) { b.(firmwareVersion := a.firmwareVersion) == a }

  /** Another authenticator with the recipient's key opens a prepared bundle, if import accepts the credential. */
  lemma PreparedDecrypts(a: World, s: State, id: Text, recipient: Text, env: PrepareEnv, b: World)
    requires Lawful(a.codec) && SameFormat(a.codec, b.codec) && b.keys(recipient) == a.keys(recipient)
    requires PrepareStep(a, s, id, recipient, env).1.Prepared?
    ensures id in s.store
    ensures var exported := s.store[id].(backupState := BackedUp);
      Decrypt(b.codec, b.keys, PrepareStep(a, s, id, recipient, env).1.bundle) ==
      if Importable(exported) then Ok(exported) else Err(InvalidBundle)
  {
    var exported := s.store[id].(backupState := BackedUp);
    var bundle := PrepareStep(a, s, id, recipient, env).1.bundle;
    var key := a.keys(recipient).value;
    assert EncryptWithKey(a.codec, exported, recipient, key, env.nonce) == Ok(bundle);
    BundleRoundTrip(a.codec, b.keys, exported, recipient, key, env.nonce);
    FirmwareIgnored(a.codec, b.codec, b.keys, bundle);
  }

  lemma FirmwareIgnored(a: Codec, b: Codec, keys: Text -> Option<Key>, bundle: seq<byte>)
    requires SameFormat(a, b)
    ensures Decrypt(b, keys, bundle) == Decrypt(a, keys, bundle)
  {
    hide IntoCredential, ValidEnvelope, ValidRecipient;
  }

  /**
   A credential prepared and committed on one authenticator, and restored from
   that bundle on another that holds the recipient's wrapping key, is backed up on
   both and differs in `hmac_secret` at most: the two are identical exactly when
   both storages rebuild the same value for it.
   */
  lemma MigrationAgrees(
    a: World, source: State, id: Text, recipient: Text, prepareEnv: PrepareEnv, later: State, commitEnv: CommitEnv,
    b: World, target: State, replace: bool, restoreEnv: RestoreEnv)
    requires Lawful(a.codec) && SameFormat(a.codec, b.codec) && b.keys(recipient) == a.keys(recipient)
    requires Indexed(source.store) && Indexed(target.store) && Indexed(later.store)
    requires PrepareStep(a, source, id, recipient, prepareEnv).1.Prepared?
    requires id in later.store && later.store[id] == source.store[id]
    requires CommitStep(a, later, id, PrepareStep(a, source, id, recipient, prepareEnv).1.token, commitEnv).1.Success?
    requires RestoreStep(b, target, PrepareStep(a, source, id, recipient, prepareEnv).1.bundle, replace, restoreEnv).1.Success?
    ensures var prepared := PrepareStep(a, source, id, recipient, prepareEnv).1;
      var committed := CommitStep(a, later, id, prepared.token, commitEnv).0.store;
      var restored := RestoreStep(b, target, prepared.bundle, replace, restoreEnv).0.store;
      var exported := source.store[id].(backupState := BackedUp);
      && id in committed && id in restored
      && committed[id].(hmacSecret := None) == restored[id].(hmacSecret := None) == exported.(hmacSecret := None)
      && (committed[id] == restored[id] <==> a.hmacOf(RefOf(exported)) == b.hmacOf(RefOf(exported)))
  {
    var exported := source.store[id].(backupState := BackedUp);
    PreparedDecrypts(a, source, id, recipient, prepareEnv, b);
    var bundle := PrepareStep(a, source, id, recipient, prepareEnv).1.bundle;
    hide PrepareStep, Decrypt, InstallStep;
    assert Decrypt(b.codec, b.keys, bundle) == Ok(exported);
    InstallOutcome(b, target.store, exported, replace, restoreEnv);
  }
}
