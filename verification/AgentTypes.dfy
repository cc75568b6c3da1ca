/** The agent rule types shared by the policy encoder and the configuration. */
module AgentTypes {
  import opened Bytes
  import opened Texts
  import opened Wrappers

  type CredentialRef = s: seq<byte> | |s| == 32 witness seq(32, _ => 0)

  datatype CredentialSelection = Single | FirstMatching | Newest | Credential(reference: CredentialRef)

  datatype Authorization = Deny | Confirm | Allow

  datatype Source = Human | Agent | NoSource

  datatype CeremonyPolicy = CeremonyPolicy(
    authorization: Authorization,
    userPresence: Source,
    userVerification: Source)

  datatype RpRule = RpRule(
    rpId: Text,
    register: CeremonyPolicy,
    authenticate: CeremonyPolicy,
    credentialSelection: Option<CredentialSelection>)

  function AuthorizationName(a: Authorization): Text {
    match a
    case Deny => Ascii("deny")
    case Confirm => Ascii("confirm")
    case Allow => Ascii("allow")
  }

  function SourceName(s: Source): Text {
    match s
    case Human => Ascii("human")
    case Agent => Ascii("agent")
    case NoSource => Ascii("none")
  }
}
