/** The records of a DID document (`src/document.rs`). The hash-safe sets of
    the source are held as sequences in their iteration order. */
module DocumentModel {
  import opened Wrappers
  import opened Did
  import opened DidUrl

  /** The key types a verification method may declare. */
  datatype VerificationMethodType =
    | JWK2020
    | ECDSASECP256K12019
    | Ed255192018
    | Bls12381G12020
    | Bls12381G22020
    | PGP2021
    | ECDSASECP256K1Recovery2020
    | VerifiableCondition2021

  const YEARS: set<string> := {"2018", "2019", "2020", "2021"}

  /** `VerificationMethodType::to_string`: the registered name of the type;
      every name ends in the four-digit year of its registration. */
  function TypeName(t: VerificationMethodType): (name: string)
    ensures |name| > 4 && name[|name| - 4..] in YEARS
  {
    match t
    case JWK2020 => "JsonWebKey2020"
    case ECDSASECP256K12019 => "EcdsaSecp256k1VerificationKey2019"
    case Ed255192018 => "Ed25519VerificationKey2018"
    case Bls12381G12020 => "Bls12381G1Key2020"
    case Bls12381G22020 => "Bls12381G2Key2020"
    case PGP2021 => "PgpVerificationKey2021"
    case ECDSASECP256K1Recovery2020 => "EcdsaSecp256k1RecoveryMethod2020"
    case VerifiableCondition2021 => "VerifiableCondition2021"
  }

  /** No two types share a name, so the name identifies the type. */
  lemma TypeNameInjective(a: VerificationMethodType, b: VerificationMethodType)
    ensures TypeName(a) == TypeName(b) <==> a == b
  {
    if TypeName(a) == TypeName(b) {
      assert TypeName(a)[9] == TypeName(b)[9];
      match a
      case JWK2020 =>
      case ECDSASECP256K12019 =>
      case Ed255192018 =>
      case Bls12381G12020 =>
      case Bls12381G22020 =>
      case PGP2021 =>
      case ECDSASECP256K1Recovery2020 =>
      case VerifiableCondition2021 =>
    }
  }

  /** A JSON Web Key; its structure is not part of this model. */
  datatype Jwk = Jwk(json: string)

  /** A multibase-encoded key; its structure is not part of this model. */
  datatype MultiBase = MultiBase(encoded: string)

  /** An absolute URL of the `url` crate (not a DID URL), held as its text. */
  datatype WebUrl = WebUrl(text: string)

  datatype VerificationMethod = VerificationMethod(
    id: URL,
    controller: DID,
    typ: VerificationMethodType,
    publicKeyJwk: Option<Jwk>,
    publicKeyMultibase: Option<MultiBase>)

  /** The derived equality of verification methods compares every field: two
      methods with one id but different key material are different methods. */
  lemma VerificationMethodEquality(a: VerificationMethod, b: VerificationMethod)
    ensures a == b <==> a.id == b.id && a.controller == b.controller && a.typ == b.typ
                        && a.publicKeyJwk == b.publicKeyJwk && a.publicKeyMultibase == b.publicKeyMultibase
  {
  }

  datatype ServiceEndpoint = ServiceEndpoint(
    id: WebUrl,
    typ: Sum<string, seq<string>>,
    endpoint: Sum<WebUrl, seq<WebUrl>>)

  /** A verification relationship: embedded methods, or a reference to one. */
  type Relationship = Sum<seq<VerificationMethod>, URL>

  /** The entries of `alsoKnownAs` are read by the registry as a DID or a URL. */
  type Alias = Sum<DID, WebUrl>

  datatype Document = Document(
    id: DID,
    alsoKnownAs: Option<seq<Alias>>,
    controller: Option<Sum<DID, seq<DID>>>,
    verificationMethod: Option<seq<VerificationMethod>>,
    authentication: Option<Relationship>,
    assertionMethod: Option<Relationship>,
    keyAgreement: Option<Relationship>,
    capabilityInvocation: Option<Relationship>,
    capabilityDelegation: Option<Relationship>,
    service: Option<seq<ServiceEndpoint>>)
}
