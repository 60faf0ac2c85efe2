/**
 * The model registry's account records (`License`, `RegistryConfig`, `Model`,
 * `ModelVersion`) and their fixed on-chain layouts: an 8-byte account
 * discriminator followed by the Borsh encoding of the fields, in a buffer whose
 * size is fixed when the account is created.
 */
module RegistryState {
  import opened Wrappers
  import opened Bytes

  /** Byte capacities reserved for the two strings of a model. */
  const MaxNameLength := 64
  const MaxUriLength := 128

  // ---------------------------------------------------------------- License

  datatype License = MIT | Apache2 | GPL3 | CreativeCommons | Custom

  /** The wire tag: the variant's position in the Rust enum (Borsh encodes an enum by its index). */
  function LicenseTag(l: License): (t: nat)
    ensures t <= 4
  {
    match l
    case MIT => 0
    case Apache2 => 1
    case GPL3 => 2
    case CreativeCommons => 3
    case Custom => 4
  }

  /** Decoding a tag; anything outside 0..4 has no license. */
  function LicenseFromTag(t: int): (r: Option<License>)
    ensures r.Some? <==> 0 <= t <= 4
  {
    if t == 0 then Some(MIT)
    else if t == 1 then Some(Apache2)
    else if t == 2 then Some(GPL3)
    else if t == 3 then Some(CreativeCommons)
    else if t == 4 then Some(Custom)
    else None
  }

  /** Tags and licenses correspond one to one. */
  lemma LicenseTagRoundTrip(l: License, t: int)
    ensures LicenseFromTag(LicenseTag(l)) == Some(l)
    ensures LicenseFromTag(t).Some? ==> LicenseTag(LicenseFromTag(t).value) == t
  {
  }

  /** The key of the one-entry object Anchor's client decodes a `License` into. */
  function LicenseKey(l: License): string {
    match l
    case MIT => "mit"
    case Apache2 => "apache2"
    case GPL3 => "gpl3"
    case CreativeCommons => "creativeCommons"
    case Custom => "custom"
  }

  /** The browsing client's decoding of that key to a number: four named keys, and 4 for anything else. */
  function ClientLicenseNumber(key: string): (n: nat)
    ensures n <= 4
  {
    if key == "mit" then 0
    else if key == "apache2" then 1
    else if key == "gpl3" then 2
    else if key == "creativeCommons" then 3
    else 4
  }

  /** Decoding a license's key gives its wire tag, so a license survives the trip to the client. */
  lemma ClientLicenseRoundTrip(l: License)
    ensures ClientLicenseNumber(LicenseKey(l)) == LicenseTag(l)
    ensures LicenseFromTag(ClientLicenseNumber(LicenseKey(l))) == Some(l)
  {
  }

  /** The publish form's license choices: value and displayed title. */
  datatype LicenseOption = LicenseOption(value: nat, title: string)

  const LicenseOptions: seq<LicenseOption> := [
    LicenseOption(0, "MIT"),
    LicenseOption(1, "Apache 2.0"),
    LicenseOption(2, "GPL 3.0"),
    LicenseOption(3, "Creative Commons"),
    LicenseOption(4, "Custom")
  ]

  /** The form offers exactly the five wire tags, in order, and every one of them decodes. */
  lemma LicenseOptionsAreTags()
    ensures |LicenseOptions| == 5
    ensures forall i :: 0 <= i < 5 ==> LicenseOptions[i].value == i
    ensures forall i :: 0 <= i < 5 ==> LicenseFromTag(LicenseOptions[i].value).Some?
  {
  }

  // ---------------------------------------------------------------- records

  datatype RegistryConfig = RegistryConfig(authority: Pubkey, totalModels: U64, totalVersions: U64, bump: Byte)

  datatype Model = Model(
    publisher: Pubkey,
    modelName: string,
    weightsHash: Hash32,
    metadataUri: string,
    license: License,
    versionCount: U32,
    createdAt: I64,
    updatedAt: I64,
    isDeprecated: bool,
    bump: Byte)

  datatype ModelVersion = ModelVersion(
    model: Pubkey,
    version: U32,
    weightsHash: Hash32,
    metadataUri: string,
    createdAt: I64,
    bump: Byte)

  /** The strings of a model fit their reserved capacities. */
  predicate ModelFits(m: Model) {
    |Utf8Encode(m.modelName)| <= MaxNameLength && |Utf8Encode(m.metadataUri)| <= MaxUriLength
  }

  predicate VersionFits(v: ModelVersion) {
    |Utf8Encode(v.metadataUri)| <= MaxUriLength
  }

  // ---------------------------------------------------------------- Borsh layout

  function U32Bytes(v: U32): (r: seq<Byte>) ensures |r| == 4 { LittleEndian(v, 4) }
  function U64Bytes(v: U64): (r: seq<Byte>) ensures |r| == 8 { LittleEndian(v, 8) }

  /** An `i64` in two's complement, little-endian. */
  function I64Bytes(v: I64): (r: seq<Byte>)
    ensures |r| == 8
  {
    LittleEndian(if v >= 0 then v else v + 0x1_0000_0000_0000_0000, 8)
  }

  /** A Borsh string: its UTF-8 byte length as a `u32`, then the bytes. */
  function BorshString(s: string): (r: seq<Byte>)
    ensures |r| == 4 + |Utf8Encode(s)|
  {
    LittleEndian(|Utf8Encode(s)|, 4) + Utf8Encode(s)
  }

  function BoolByte(b: bool): Byte { if b then 1 else 0 }

  function ConfigBody(c: RegistryConfig): seq<Byte> {
    c.authority + U64Bytes(c.totalModels) + U64Bytes(c.totalVersions) + [c.bump]
  }

  function ModelBody(m: Model): seq<Byte> {
    m.publisher + BorshString(m.modelName) + m.weightsHash + BorshString(m.metadataUri)
    + [LicenseTag(m.license)] + U32Bytes(m.versionCount) + I64Bytes(m.createdAt) + I64Bytes(m.updatedAt)
    + [BoolByte(m.isDeprecated)] + [m.bump]
  }

  function VersionBody(v: ModelVersion): seq<Byte> {
    v.model + U32Bytes(v.version) + v.weightsHash + BorshString(v.metadataUri) + I64Bytes(v.createdAt) + [v.bump]
  }

  /** Account sizes: the 8-byte discriminator plus the largest body each record can have. */
  const DiscriminatorLength := 8
  const ConfigSpace := DiscriminatorLength + 32 + 8 + 8 + 1
  const ModelSpace := DiscriminatorLength + 32 + (4 + MaxNameLength) + 32 + (4 + MaxUriLength) + 1 + 4 + 8 + 8 + 1 + 1
  const VersionSpace := DiscriminatorLength + 32 + 4 + 32 + (4 + MaxUriLength) + 8 + 1

  /** The account sizes the layout comments give. */
  lemma SpacesAsDocumented()
    ensures ConfigSpace == 57 && ModelSpace == 295 && VersionSpace == 217
  {
  }

  /** The raw data of an account of `space` bytes: discriminator, body, zero fill. */
  function AccountData(discriminator: seq<Byte>, body: seq<Byte>, space: nat): (r: seq<Byte>)
    requires |discriminator| == DiscriminatorLength && DiscriminatorLength + |body| <= space
    ensures |r| == space
  {
    discriminator + body + seq(space - DiscriminatorLength - |body|, _ => 0)
  }

  /** The config body is always 49 bytes, filling its account exactly. */
  lemma ConfigBodyLength(c: RegistryConfig)
    ensures DiscriminatorLength + |ConfigBody(c)| == ConfigSpace
  {
  }

  /** A model whose strings fit has a body of at most 287 bytes; exactly 287 when both strings are full. */
  lemma ModelBodyLength(m: Model)
    requires ModelFits(m)
    ensures |ModelBody(m)| == 95 + |Utf8Encode(m.modelName)| + |Utf8Encode(m.metadataUri)|
    ensures DiscriminatorLength + |ModelBody(m)| <= ModelSpace
    ensures DiscriminatorLength + |ModelBody(m)| == ModelSpace <==>
              |Utf8Encode(m.modelName)| == MaxNameLength && |Utf8Encode(m.metadataUri)| == MaxUriLength
  {
  }

  /** A version whose URI fits has a body of at most 209 bytes; exactly 209 when the URI is full. */
  lemma VersionBodyLength(v: ModelVersion)
    requires VersionFits(v)
    ensures DiscriminatorLength + |VersionBody(v)| <= VersionSpace
    ensures DiscriminatorLength + |VersionBody(v)| == VersionSpace <==> |Utf8Encode(v.metadataUri)| == MaxUriLength
  {
  }

  /** The data of a model's account. */
  function ModelAccountData(discriminator: seq<Byte>, m: Model): (r: seq<Byte>)
    requires |discriminator| == DiscriminatorLength && ModelFits(m)
    ensures |r| == ModelSpace
  {
    ModelBodyLength(m);
    AccountData(discriminator, ModelBody(m), ModelSpace)
  }

  /** Reading the Borsh fields back: the account starts with the discriminator, then the publisher. */
  lemma ModelAccountPrefix(discriminator: seq<Byte>, m: Model)
    requires |discriminator| == DiscriminatorLength && ModelFits(m)
    ensures ModelAccountData(discriminator, m)[..8] == discriminator
    ensures ModelAccountData(discriminator, m)[8..40] == m.publisher
  {
    var d := ModelAccountData(discriminator, m);
    ModelBodyLength(m);
    assert d == discriminator + ModelBody(m) + seq(ModelSpace - 8 - |ModelBody(m)|, _ => 0);
    assert ModelBody(m)[..32] == m.publisher;
  }

  // ---------------------------------------------------------------- the browsing client's account filter

  /** The `dataSize` filter the browsing client passes when it fetches models without a wallet. */
  const ClientModelDataSize := 283

  /** The client's filter as written: keep accounts whose data is `ClientModelDataSize` bytes. */
  predicate ClientFilterKeeps(data: seq<Byte>) {
    |data| == ClientModelDataSize
  }

  /** As written, the filter keeps no model account at all: every one is `ModelSpace` bytes. */
  lemma ClientFilterMissesEveryModel(discriminator: seq<Byte>, m: Model)
    requires |discriminator| == DiscriminatorLength && ModelFits(m)
    ensures !ClientFilterKeeps(ModelAccountData(discriminator, m))
  {
  }

  /** The filter with the model account size. */
  predicate ModelFilterKeeps(data: seq<Byte>) {
    |data| == ModelSpace
  }

  /** The corrected filter keeps every model account and nothing of config or version size. */
  lemma ModelFilterKeepsEveryModel(discriminator: seq<Byte>, m: Model, data: seq<Byte>)
    requires |discriminator| == DiscriminatorLength && ModelFits(m)
    ensures ModelFilterKeeps(ModelAccountData(discriminator, m))
    ensures |data| == ConfigSpace || |data| == VersionSpace ==> !ModelFilterKeeps(data)
  {
  }
}
