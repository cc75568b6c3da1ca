/**
 The data a client authorizes for backup and restore commands
 (`credential_backup.rs`): a domain, the command bytes and length-framed fields.
 The source hashes it; the claims are about the bytes that are hashed.
 */
module BackupAuth {
  import opened Bytes
  import opened Texts

  const CMD_PASSLESS_BACKUP: byte := 0x43
  const CMD_PASSLESS_RESTORE: byte := 0x44
  const BACKUP_PREPARE_SUBCOMMAND: byte := 0x01
  const BACKUP_COMMIT_SUBCOMMAND: byte := 0x02

  function AuthDomain(): seq<byte> { Ascii("passless-credential-backup-auth-v1") }

  function Framed(field: Text): (s: seq<byte>)
    ensures |s| == 8 + |field|
  {
    BigEndian(8, |field|) + field
  }

  function FramedAll(fields: seq<Text>): seq<byte> {
    if fields == [] then [] else FramedAll(fields[..|fields| - 1]) + Framed(fields[|fields| - 1])
  }

  /** The bytes `hash_auth_data` hashes. */
  function AuthPreimage(command: byte, subcommand: byte, fields: seq<Text>): seq<byte> {
    AuthDomain() + [command, subcommand] + FramedAll(fields)
  }

  /** `hash_auth_data`, returning what the hasher is fed. */
  method FeedAuthData(command: byte, subcommand: byte, fields: seq<Text>) returns (fed: seq<byte>)
    ensures fed == AuthPreimage(command, subcommand, fields)
  {
    var header := AuthDomain() + [command, subcommand];
    fed := header;
    for i := 0 to |fields|
      invariant fed == header + FramedAll(fields[..i])
    {
      fed := fed + BigEndian(8, |fields[i]|);
      fed := fed + fields[i];
      assert fields[..i + 1][..i] == fields[..i];
    }
    assert fields[..|fields|] == fields;
  }

  lemma FramedAllSnoc(fields: seq<Text>, field: Text)
    ensures FramedAll(fields + [field]) == FramedAll(fields) + Framed(field)
  {
    hide Framed;
    assert (fields + [field])[..|fields|] == fields;
  }

  lemma Assoc(a: seq<byte>, b: seq<byte>, c: seq<byte>)
    ensures a + b + c == a + (b + c)
  {}

  lemma NoneFramed(field: Text)
    ensures FramedAll([]) == [] && FramedAll([field]) == Framed(field)
  {
    hide Framed;
    FramedAllSnoc([], field);
    assert [] + [field] == [field] && [] + Framed(field) == Framed(field);
  }

  lemma {:induction false} FramedAllCons(field: Text, fields: seq<Text>)
    ensures FramedAll([field] + fields) == Framed(field) + FramedAll(fields)
  {
    hide Framed, FramedAll;
    if fields == [] {
      NoneFramed(field);
      assert [field] + fields == [field] && Framed(field) + [] == Framed(field);
    } else {
      var init, last := fields[..|fields| - 1], fields[|fields| - 1];
      assert fields == init + [last];
      FramedAllCons(field, init);
      FramedAllSnoc(init, last);
      SnocOfCons(field, init, last);
      Assoc(Framed(field), FramedAll(init), Framed(last));
    }
  }

  lemma SnocOfCons(field: Text, init: seq<Text>, last: Text)
    ensures FramedAll([field] + (init + [last])) == FramedAll([field] + init) + Framed(last)
  {
    hide Framed, FramedAll;
    assert [field] + (init + [last]) == [field] + init + [last];
    FramedAllSnoc([field] + init, last);
  }

  /** Framed fields followed by anything can be taken off one by one. */
  lemma FramedPrefixFree(a: Text, b: Text, x: seq<byte>, y: seq<byte>)
    requires Framed(a) + x == Framed(b) + y
    ensures a == b && x == y
  {
    Pow256Values();
    BigEndianRoundTrip(8, |a|);
    BigEndianRoundTrip(8, |b|);
    hide BigEndian, FromBigEndian;
    var s := Framed(a) + x;
    assert BigEndian(8, |a|) == s[..8] == BigEndian(8, |b|);
    assert a == s[8..8 + |a|] && b == s[8..8 + |b|];
    assert x == s[8 + |a|..] && y == s[8 + |b|..];
  }

  lemma {:induction false} FramedAllInjective(a: seq<Text>, b: seq<Text>)
    requires FramedAll(a) == FramedAll(b)
    ensures a == b
  {
    if a != [] {
      assert a == [a[0]] + a[1..];
      FramedAllCons(a[0], a[1..]);
      assert b != [];
      assert b == [b[0]] + b[1..];
      FramedAllCons(b[0], b[1..]);
      FramedPrefixFree(a[0], b[0], FramedAll(a[1..]), FramedAll(b[1..]));
      FramedAllInjective(a[1..], b[1..]);
    }
  }

  /** The preimage is uniquely decodable, for any number of fields. */
  lemma AuthPreimageInjective(c: byte, s: byte, fields: seq<Text>, c': byte, s': byte, fields': seq<Text>)
    ensures AuthPreimage(c, s, fields) == AuthPreimage(c', s', fields') <==> c == c' && s == s' && fields == fields'
  {
    var p, p' := AuthPreimage(c, s, fields), AuthPreimage(c', s', fields');
    var n := |AuthDomain()|;
    hide AuthDomain;
    assert p[n] == c && p[n + 1] == s && p[n + 2..] == FramedAll(fields);
    assert p'[n] == c' && p'[n + 1] == s' && p'[n + 2..] == FramedAll(fields');
    if p == p' {
      FramedAllInjective(fields, fields');
    }
  }

  /** The commands that need authorization. */
  datatype Command =
    | Prepare(credentialId: Text, recipient: Text)
    | Commit(credentialId: Text, token: Text)
    | Restore(bundle: Text, replace: bool)

  /** The command byte, subcommand and fields of a command's authorization data. */
  function Parts(c: Command): (byte, byte, seq<Text>) {
    match c
    case Prepare(id, recipient) => (CMD_PASSLESS_BACKUP, BACKUP_PREPARE_SUBCOMMAND, [id, recipient])
    case Commit(id, token) => (CMD_PASSLESS_BACKUP, BACKUP_COMMIT_SUBCOMMAND, [id, token])
    case Restore(bundle, replace) => (CMD_PASSLESS_RESTORE, 0, [bundle, [if replace then 1 else 0]])
  }

  /** `backup_prepare_auth_data`, `backup_commit_auth_data` and `restore_auth_data`, before hashing. */
  function AuthData(c: Command): seq<byte> {
    var (command, subcommand, fields) := Parts(c);
    AuthPreimage(command, subcommand, fields)
  }

  /**
   The bytes authorized for each command: the domain, the command and subcommand
   bytes, and each field after its length in eight bytes.
   */
  lemma AuthDataBytes(c: Command)
    ensures
      match c
      case Prepare(id, recipient) =>
        AuthData(c) == Ascii("passless-credential-backup-auth-v1") + [0x43, 0x01] +
                       ((BigEndian(8, |id|) + id) + (BigEndian(8, |recipient|) + recipient))
      case Commit(id, token) =>
        AuthData(c) == Ascii("passless-credential-backup-auth-v1") + [0x43, 0x02] +
                       ((BigEndian(8, |id|) + id) + (BigEndian(8, |token|) + token))
      case Restore(bundle, replace) =>
        AuthData(c) == Ascii("passless-credential-backup-auth-v1") + [0x44, 0x00] +
                       ((BigEndian(8, |bundle|) + bundle) + (BigEndian(8, 1) + [if replace then 1 else 0]))
  {
    hide Ascii, BigEndian, FramedAll;
    match c
    case Prepare(id, recipient) => TwoFramed(id, recipient);
    case Commit(id, token) => TwoFramed(id, token);
    case Restore(bundle, replace) => TwoFramed(bundle, [if replace then 1 else 0]);
  }

  lemma TwoFramed(a: Text, b: Text)
    ensures FramedAll([a, b]) == Framed(a) + Framed(b)
  {
    hide Framed;
    FramedAllSnoc([], a);
    FramedAllSnoc([a], b);
    assert [] + [a] == [a] && [a] + [b] == [a, b] && [] + Framed(a) == Framed(a);
  }

  /** What is authorized for one command is not what is authorized for any other. */
  lemma AuthDataInjective(a: Command, b: Command)
    ensures AuthData(a) == AuthData(b) <==> a == b
  {
    hide AuthPreimage;
    var (ca, sa, fa) := Parts(a);
    var (cb, sb, fb) := Parts(b);
    AuthPreimageInjective(ca, sa, fa, cb, sb, fb);
    if fa == fb {
      assert fa[0] == fb[0] && fa[1] == fb[1];
    }
  }
}
