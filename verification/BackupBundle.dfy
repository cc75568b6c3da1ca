/**
 The portable credential format and the encrypted bundle around it
 (`credential_backup.rs`). Serialization and AES-256-GCM are abstract functions of
 which only the round-trip laws are used.
 */
module BackupBundle {
  import opened Wrappers
  import opened Bytes
  import opened Texts

  const MAX_BACKUP_BUNDLE_SIZE: nat := 64 * 1024
  const MAX_BACKUP_RECIPIENT_LENGTH: nat := 128
  const BACKUP_FORMAT_VERSION: nat := 2
  const PORTABLE_CREDENTIAL_VERSION: nat := 1
  const NONCE_SIZE: nat := 12

  function BackupMagic(): Text { Ascii("passless-credential-backup") }

  function CipherSuite(): Text { Ascii("AES-256-GCM") }

  function Aaguid(): Text { Ascii("fido.passless.rs") }

  datatype BackupError =
    | InvalidInput
    | InvalidBundle
    | UnsupportedCredential
    | CryptoUnavailable
    | CryptoFailed
    | TooLarge

  datatype BackupState = NotEligible | Eligible | BackedUp

  predicate IsEligible(s: BackupState) { s != NotEligible }

  datatype KeyProvider = Software | Provider(id: Text)

  datatype Credential = Credential(
    id: Text,
    rpId: Text,
    rpName: Option<Text>,
    userId: Text,
    userName: Option<Text>,
    userDisplayName: Option<Text>,
    signCount: nat,
    alg: int,
    keyProvider: KeyProvider,
    keyFormatVersion: nat,
    keyMaterial: Text,
    created: int,
    discoverable: bool,
    backupState: BackupState,
    credProtect: Option<byte>,
    hmacSecret: Option<bool>,
    credRandom: Option<Text>)

  /** `PortableCredentialV1`. */
  datatype Portable = Portable(
    version: nat,
    id: Text,
    rpId: Text,
    rpName: Option<Text>,
    userId: Text,
    userName: Option<Text>,
    userDisplayName: Option<Text>,
    signCount: nat,
    algorithm: int,
    softwareKeyFormatVersion: nat,
    privateKey: Text,
    created: int,
    discoverable: bool,
    credProtect: Option<byte>,
    hmacSecret: Option<bool>,
    credRandom: Option<Text>,
    backupEligible: bool,
    backedUp: bool)

  predicate Exportable(c: Credential) {
    && c.keyProvider.Software?
    && c.keyFormatVersion == 1
    && |c.keyMaterial| == 32
    && IsEligible(c.backupState)
  }

  function FromCredential(c: Credential): Result<Portable, BackupError> {
    if !Exportable(c) then Err(UnsupportedCredential)
    else Ok(Portable(
      PORTABLE_CREDENTIAL_VERSION, c.id, c.rpId, c.rpName, c.userId, c.userName, c.userDisplayName,
      c.signCount, c.alg, c.keyFormatVersion, c.keyMaterial, c.created, c.discoverable,
      c.credProtect, c.hmacSecret, c.credRandom, IsEligible(c.backupState), c.backupState.BackedUp?))
  }

  predicate PortableValid(p: Portable) {
    && p.version == PORTABLE_CREDENTIAL_VERSION
    && 1 <= |p.id| <= 64
    && 1 <= |p.rpId| <= 253
    && 1 <= |p.userId| <= 64
    && p.softwareKeyFormatVersion == 1
    && |p.privateKey| == 32
    && p.backupEligible
    && (p.credProtect.Some? ==> 1 <= p.credProtect.value <= 3)
    && (p.credRandom.Some? ==> |p.credRandom.value| == 32)
  }

  function IntoCredential(p: Portable): Result<Credential, BackupError> {
    if !PortableValid(p) then Err(InvalidBundle)
    else Ok(Credential(
      p.id, p.rpId, p.rpName, p.userId, p.userName, p.userDisplayName, p.signCount, p.algorithm,
      Software, p.softwareKeyFormatVersion, p.privateKey, p.created, p.discoverable,
      if p.backedUp then BackedUp else Eligible, p.credProtect, p.hmacSecret, p.credRandom))
  }

  /** What import demands of a credential beyond what export does. */
  predicate Importable(c: Credential) {
    && 1 <= |c.id| <= 64
    && 1 <= |c.rpId| <= 253
    && 1 <= |c.userId| <= 64
    && (c.credProtect.Some? ==> 1 <= c.credProtect.value <= 3)
    && (c.credRandom.Some? ==> |c.credRandom.value| == 32)
  }

  /** Exporting and importing gives back the same credential exactly when import accepts its fields. */
  lemma PortableRoundTrip(c: Credential)
    requires FromCredential(c).Ok?
    ensures IntoCredential(FromCredential(c).value) == if Importable(c) then Ok(c) else Err(InvalidBundle)
  {}

  /** Every record import accepts is one that export would write. */
  lemma PortableCanonical(p: Portable)
    requires IntoCredential(p).Ok?
    ensures FromCredential(IntoCredential(p).value) == Ok(p)
  {}

  // ----- The encrypted bundle -----

  datatype Envelope = Envelope(magic: Text, version: nat, aaguid: Text, firmwareVersion: Text, credential: Portable)

  datatype Bundle = Bundle(magic: Text, version: nat, cipher: Text, recipient: Text, nonce: seq<byte>, ciphertext: seq<byte>)

  type Key = k: seq<byte> | |k| == 32 witness seq(32, _ => 0)

  type Nonce = n: seq<byte> | |n| == NONCE_SIZE witness seq(12, _ => 0)

  /** The serializers, the cipher and the firmware version string. */
  datatype Codec = Codec(
    envelopeBytes: Envelope -> seq<byte>,
    envelopeOf: seq<byte> -> Option<Envelope>,
    bundleBytes: Bundle -> seq<byte>,
    bundleOf: seq<byte> -> Option<Bundle>,
    metadata: Text -> seq<byte>,
    seal: (Key, Nonce, seq<byte>, seq<byte>) -> seq<byte>,
    unseal: (Key, Nonce, seq<byte>, seq<byte>) -> Option<seq<byte>>,
    firmwareVersion: Text)

  /** Deserializing undoes serializing, unsealing undoes sealing, and a sealed text is never empty. */
  ghost predicate Lawful(c: Codec) {
    && (forall e :: c.envelopeOf(c.envelopeBytes(e)) == Some(e))
    && (forall b :: c.bundleOf(c.bundleBytes(b)) == Some(b))
    && (forall k, n, a, m :: c.unseal(k, n, a, c.seal(k, n, a, m)) == Some(m))
    && (forall k, n, a, m :: c.seal(k, n, a, m) != [])
    && c.firmwareVersion != []
  }

  predicate RecipientByte(b: byte) {
    || 48 <= b <= 57 || 65 <= b <= 90 || 97 <= b <= 122
    || b == 64 || b == 46 || b == 95 || b == 45 || b == 43
  }

  predicate ValidRecipient(r: Text) {
    && 1 <= |r| <= MAX_BACKUP_RECIPIENT_LENGTH
    && r != [46]
    && (forall i :: 0 <= i < |r| - 1 ==> !(r[i] == 46 && r[i + 1] == 46))
    && (forall i :: 0 <= i < |r| ==> RecipientByte(r[i]))
  }

  function EncryptWithKey(c: Codec, credential: Credential, recipient: Text, key: Key, nonce: Nonce)
    : Result<seq<byte>, BackupError>
  {
    if !ValidRecipient(recipient) then Err(InvalidInput)
    else
      match FromCredential(credential)
      case Err(error) => Err(error)
      case Ok(portable) =>
        var plaintext := c.envelopeBytes(
          Envelope(BackupMagic(), BACKUP_FORMAT_VERSION, Aaguid(), c.firmwareVersion, portable));
        if |plaintext| > MAX_BACKUP_BUNDLE_SIZE then Err(TooLarge)
        else
          var ciphertext := c.seal(key, nonce, c.metadata(recipient), plaintext);
          var bundle := c.bundleBytes(
            Bundle(BackupMagic(), BACKUP_FORMAT_VERSION, CipherSuite(), recipient, nonce, ciphertext));
          if bundle == [] || |bundle| > MAX_BACKUP_BUNDLE_SIZE then Err(TooLarge) else Ok(bundle)
  }

  function DecodeBundle(c: Codec, bytes: seq<byte>): Result<Bundle, BackupError> {
    if bytes == [] || |bytes| > MAX_BACKUP_BUNDLE_SIZE then Err(TooLarge)
    else
      match c.bundleOf(bytes)
      case None => Err(InvalidBundle)
      case Some(outer) =>
        if || outer.magic != BackupMagic()
           || outer.version != BACKUP_FORMAT_VERSION
           || outer.cipher != CipherSuite()
           || |outer.nonce| != NONCE_SIZE
           || outer.ciphertext == []
           || !ValidRecipient(outer.recipient)
        then Err(InvalidBundle) else Ok(outer)
  }

  predicate ValidEnvelope(e: Envelope) {
    && e.magic == BackupMagic()
    && e.version == BACKUP_FORMAT_VERSION
    && |e.aaguid| == |Aaguid()|
    && e.firmwareVersion != []
    && PortableValid(e.credential)
  }

  /** `decrypt_credential`; `keys` is the wrapping-key directory. */
  function Decrypt(c: Codec, keys: Text -> Option<Key>, bytes: seq<byte>): Result<Credential, BackupError> {
    match DecodeBundle(c, bytes)
    case Err(error) => Err(error)
    case Ok(outer) =>
      if |outer.nonce| != NONCE_SIZE then Err(InvalidBundle)
      else
        match keys(outer.recipient)
        case None => Err(CryptoUnavailable)
        case Some(key) =>
          match c.unseal(key, outer.nonce, c.metadata(outer.recipient), outer.ciphertext)
          case None => Err(CryptoFailed)
          case Some(plaintext) =>
            match c.envelopeOf(plaintext)
            case None => Err(InvalidBundle)
            case Some(envelope) =>
              if !ValidEnvelope(envelope) then Err(InvalidBundle) else IntoCredential(envelope.credential)
  }

  /**
   A bundle decrypts, with the key it was made with, to the credential it was
   made from exactly when import accepts that credential's fields, and is an
   invalid bundle otherwise.
   */
  lemma BundleRoundTrip(
    c: Codec, keys: Text -> Option<Key>, credential: Credential, recipient: Text, key: Key, nonce: Nonce)
    requires Lawful(c) && keys(recipient) == Some(key)
    requires EncryptWithKey(c, credential, recipient, key, nonce).Ok?
    ensures Decrypt(c, keys, EncryptWithKey(c, credential, recipient, key, nonce).value)
         == if Importable(credential) then Ok(credential) else Err(InvalidBundle)
  {}

  /** Export succeeds on some credentials that import refuses: an empty user id is one of them. */
  lemma ExportAcceptsMoreThanImport(c: Credential)
    requires Exportable(c)
    ensures FromCredential(c.(userId := [])).Ok?
    ensures IntoCredential(FromCredential(c.(userId := [])).value) == Err(InvalidBundle)
  {}

  // ----- What is exported, and what is accepted -----

  /** Exactly eligible credentials with a 32-byte software key of format 1 are exported, field by field. */
  lemma ExportExact(c: Credential)
    ensures FromCredential(c).Ok? <==>
      c.keyProvider.Software? && c.keyFormatVersion == 1 && |c.keyMaterial| == 32 && c.backupState != NotEligible
    ensures FromCredential(c).Err? ==> FromCredential(c).error == UnsupportedCredential
    ensures FromCredential(c).Ok? ==>
      var p := FromCredential(c).value;
      && p.version == 1 && p.id == c.id && p.rpId == c.rpId && p.rpName == c.rpName
      && p.userId == c.userId && p.userName == c.userName && p.userDisplayName == c.userDisplayName
      && p.signCount == c.signCount && p.algorithm == c.alg
      && p.softwareKeyFormatVersion == 1 && p.privateKey == c.keyMaterial
      && p.created == c.created && p.discoverable == c.discoverable
      && p.credProtect == c.credProtect && p.hmacSecret == c.hmacSecret && p.credRandom == c.credRandom
      && p.backupEligible && (p.backedUp <==> c.backupState == BackedUp)
  {}

  /** Encryption succeeds exactly for a valid recipient, an exportable credential and sizes within the limit. */
  lemma EncryptExact(c: Codec, credential: Credential, recipient: Text, key: Key, nonce: Nonce, bytes: seq<byte>)
    ensures EncryptWithKey(c, credential, recipient, key, nonce) == Ok(bytes) <==>
      && ValidRecipient(recipient) && FromCredential(credential).Ok?
      && (var plaintext := c.envelopeBytes(Envelope(
            Ascii("passless-credential-backup"), 2, Ascii("fido.passless.rs"), c.firmwareVersion,
            FromCredential(credential).value));
          && |plaintext| <= 65536 && 1 <= |bytes| <= 65536
          && bytes == c.bundleBytes(Bundle(
               Ascii("passless-credential-backup"), 2, Ascii("AES-256-GCM"), recipient, nonce,
               c.seal(key, nonce, c.metadata(recipient), plaintext))))
  {
    hide ValidRecipient, FromCredential, Ascii;
  }

  /**
   A bundle is accepted exactly if it is within the size limit, its outer and inner
   records have the right magic, version and shapes, the recipient's key opens it,
   and its credential record is valid.
   */
  lemma DecryptExact(c: Codec, keys: Text -> Option<Key>, bytes: seq<byte>, credential: Credential)
    ensures Decrypt(c, keys, bytes) == Ok(credential) <==>
      && 1 <= |bytes| <= 65536 && c.bundleOf(bytes).Some?
      && (var outer := c.bundleOf(bytes).value;
          && outer.magic == Ascii("passless-credential-backup") && outer.version == 2
          && outer.cipher == Ascii("AES-256-GCM") && |outer.nonce| == 12 && outer.ciphertext != []
          && ValidRecipient(outer.recipient) && keys(outer.recipient).Some?
          && (var plaintext :=
                c.unseal(keys(outer.recipient).value, outer.nonce, c.metadata(outer.recipient), outer.ciphertext);
              && plaintext.Some? && c.envelopeOf(plaintext.value).Some?
              && (var envelope := c.envelopeOf(plaintext.value).value;
                  && envelope.magic == Ascii("passless-credential-backup") && envelope.version == 2
                  && |envelope.aaguid| == 16 && envelope.firmwareVersion != []
                  && IntoCredential(envelope.credential) == Ok(credential))))
  {
    hide ValidRecipient, Ascii;
  }

  /**
   The error of a refused bundle: of its size, of its form, of a missing key, or of
   a key that does not open it, in that order; anything else is an invalid bundle.
   */
  lemma DecryptErrorIs(c: Codec, keys: Text -> Option<Key>, bytes: seq<byte>)
    ensures var r, sized := Decrypt(c, keys, bytes), 1 <= |bytes| <= 65536;
      var outer := DecodeBundle(c, bytes);
      && (r == Err(TooLarge) <==> !sized)
      && (sized && outer.Err? ==> r == Err(InvalidBundle))
      && (r == Err(CryptoUnavailable) <==> outer.Ok? && keys(outer.value.recipient).None?)
      && (r == Err(CryptoFailed) <==>
            && outer.Ok? && keys(outer.value.recipient).Some?
            && c.unseal(
                 keys(outer.value.recipient).value, outer.value.nonce,
                 c.metadata(outer.value.recipient), outer.value.ciphertext).None?)
      && r != Err(InvalidInput) && r != Err(UnsupportedCredential)
  {
    hide ValidRecipient, Ascii;
  }

  /**
   Recipients are 1 to 128 bytes of ASCII letters, digits and `@ . _ - +`, without two
   dots in a row and not a single dot.
   */
  lemma RecipientExact(r: Text)
    ensures ValidRecipient(r) <==>
      && 0 < |r| < 129 && r != Ascii(".")
      && (forall i :: 0 <= i < |r| ==> IsRecipientChar(r[i]))
      && (forall i :: 0 <= i < |r| - 1 ==> !(IsDot(r[i]) && IsDot(r[i + 1])))
  {
    assert Ascii(".") == [46] && Ascii("@._-+") == [64, 46, 95, 45, 43];
    forall b: byte
      ensures IsRecipientChar(b) == RecipientByte(b) && (IsDot(b) <==> b == 46)
    {
      RecipientChars(b);
    }
    hide IsRecipientChar, RecipientByte, IsDot;
  }

  predicate IsDot(b: byte) { b == '.' as int }

  predicate IsRecipientChar(b: byte) {
    || '0' as int <= b <= '9' as int || 'A' as int <= b <= 'Z' as int || 'a' as int <= b <= 'z' as int
    || b in Ascii("@._-+")
  }

  lemma RecipientChars(b: byte)
    ensures IsRecipientChar(b) == RecipientByte(b) && (IsDot(b) <==> b == 46)
  {
    assert Ascii("@._-+") == [64, 46, 95, 45, 43];
  }
}
