/**
 * The registry program's error enum and the guard each variant names. A guard
 * returns the error a request violates, or `None` when the request passes it.
 */
module RegistryErrors {
  import opened Wrappers
  import opened Bytes
  import opened RegistryState

  datatype ModelRegistryError =
    | ModelNameTooLong
    | MetadataUriTooLong
    | ModelNameEmpty
    | MetadataUriEmpty
    | UnauthorizedPublisher
    | ModelDeprecated
    | AlreadyDeprecated
    | InvalidLicense

  /** Anchor numbers `#[error_code]` variants from 6000 in declaration order. */
  function ErrorCode(e: ModelRegistryError): (c: nat)
    ensures 6000 <= c < 6008
  {
    match e
    case ModelNameTooLong => 6000
    case MetadataUriTooLong => 6001
    case ModelNameEmpty => 6002
    case MetadataUriEmpty => 6003
    case UnauthorizedPublisher => 6004
    case ModelDeprecated => 6005
    case AlreadyDeprecated => 6006
    case InvalidLicense => 6007
  }

  /** The error with a given code, if any. */
  function ErrorFromCode(c: int): (r: Option<ModelRegistryError>)
    ensures r.Some? <==> 6000 <= c < 6008
  {
    if c == 6000 then Some(ModelNameTooLong)
    else if c == 6001 then Some(MetadataUriTooLong)
    else if c == 6002 then Some(ModelNameEmpty)
    else if c == 6003 then Some(MetadataUriEmpty)
    else if c == 6004 then Some(UnauthorizedPublisher)
    else if c == 6005 then Some(ModelDeprecated)
    else if c == 6006 then Some(AlreadyDeprecated)
    else if c == 6007 then Some(InvalidLicense)
    else None
  }

  /** Codes identify errors: decoding a code gives back its error, so no two errors share one. */
  lemma ErrorCodeRoundTrip(e: ModelRegistryError, c: int)
    ensures ErrorFromCode(ErrorCode(e)) == Some(e)
    ensures ErrorFromCode(c).Some? ==> ErrorCode(ErrorFromCode(c).value) == c
  {
  }

  /** The `#[msg]` text of each variant. */
  function Message(e: ModelRegistryError): string {
    match e
    case ModelNameTooLong => "Model name exceeds maximum length of 64 characters"
    case MetadataUriTooLong => "Metadata URI exceeds maximum length of 128 characters"
    case ModelNameEmpty => "Model name cannot be empty"
    case MetadataUriEmpty => "Metadata URI cannot be empty"
    case UnauthorizedPublisher => "Only the model publisher can perform this action"
    case ModelDeprecated => "Cannot add versions to a deprecated model"
    case AlreadyDeprecated => "Model is already deprecated"
    case InvalidLicense => "Invalid license type"
  }

  // ---------------------------------------------------------------- guards

  /** A model name must be non-empty and at most 64 bytes long (Rust's `String::len`). */
  function NameError(name: string): (r: Option<ModelRegistryError>)
    ensures r == Some(ModelNameEmpty) <==> name == []
    ensures r == Some(ModelNameTooLong) <==> |Utf8Encode(name)| > MaxNameLength
    ensures r == None <==> name != [] && |Utf8Encode(name)| <= MaxNameLength
  {
    Utf8EncodeEmpty(name);
    if |Utf8Encode(name)| == 0 then Some(ModelNameEmpty)
    else if |Utf8Encode(name)| > MaxNameLength then Some(ModelNameTooLong)
    else None
  }

  /** A metadata URI must be non-empty and at most 128 bytes long. */
  function UriError(uri: string): (r: Option<ModelRegistryError>)
    ensures r == Some(MetadataUriEmpty) <==> uri == []
    ensures r == Some(MetadataUriTooLong) <==> |Utf8Encode(uri)| > MaxUriLength
    ensures r == None <==> uri != [] && |Utf8Encode(uri)| <= MaxUriLength
  {
    Utf8EncodeEmpty(uri);
    if |Utf8Encode(uri)| == 0 then Some(MetadataUriEmpty)
    else if |Utf8Encode(uri)| > MaxUriLength then Some(MetadataUriTooLong)
    else None
  }

  /** A license argument must be one of the five tags. */
  function LicenseError(tag: int): (r: Option<ModelRegistryError>)
    ensures r == None <==> LicenseFromTag(tag).Some?
    ensures r != None ==> r == Some(InvalidLicense)
  {
    if LicenseFromTag(tag).Some? then None else Some(InvalidLicense)
  }

  /** Only the model's current publisher may change it. */
  function PublisherError(m: Model, signer: Pubkey): (r: Option<ModelRegistryError>)
    ensures r == None <==> signer == m.publisher
    ensures r != None ==> r == Some(UnauthorizedPublisher)
  {
    if signer == m.publisher then None else Some(UnauthorizedPublisher)
  }

  /** No version may be added to a deprecated model. */
  function AddVersionDeprecationError(m: Model): (r: Option<ModelRegistryError>)
    ensures r == None <==> !m.isDeprecated
    ensures r != None ==> r == Some(ModelDeprecated)
  {
    if m.isDeprecated then Some(ModelDeprecated) else None
  }

  /** Deprecation is applied once: a deprecated model cannot be deprecated again. */
  function DeprecateError(m: Model): (r: Option<ModelRegistryError>)
    ensures r == None <==> !m.isDeprecated
    ensures r != None ==> r == Some(AlreadyDeprecated)
  {
    if m.isDeprecated then Some(AlreadyDeprecated) else None
  }
}
