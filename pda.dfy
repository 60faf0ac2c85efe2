/**
 * Seed lists of the registry's program-derived addresses, as the client
 * (`deriveConfigPda`, `deriveModelPda`, `deriveVersionPda`) and the tests build
 * them. The derivation itself, `PublicKey.findProgramAddressSync`, is a foreign
 * call: it is a parameter `derive` here, and the properties are stated about the
 * seed lists, which is what any injective derivation preserves.
 */
module Pda {
  import opened Wrappers
  import opened Bytes

  /** `findProgramAddressSync`'s result: the off-curve address and the bump seed that found it. */
  datatype ProgramAddress = ProgramAddress(address: Pubkey, bump: Byte)

  /** What `findProgramAddressSync` maps seed lists to, for one program id. */
  type Derivation = seq<seq<Byte>> -> ProgramAddress

  /** Solana's per-seed length limit; `findProgramAddressSync` throws beyond it. */
  const MaxSeedLength := 32

  function ConfigTag(): (t: seq<Byte>) ensures |t| == 6 { AsciiBytes("config") }
  function ModelTag(): (t: seq<Byte>) ensures |t| == 5 { AsciiBytes("model") }
  function VersionTag(): (t: seq<Byte>) ensures |t| == 7 { AsciiBytes("version") }

  /** `[Buffer.from("config")]`. */
  function ConfigSeeds(): seq<seq<Byte>> {
    [ConfigTag()]
  }

  /** `[Buffer.from("model"), publisher.toBuffer(), nameHash]`. */
  function ModelSeeds(publisher: Pubkey, nameHash: Hash32): seq<seq<Byte>> {
    [ModelTag(), publisher, nameHash]
  }

  /**
   * `Buffer.alloc(4).writeUInt32LE(version)`: the four little-endian bytes of the
   * version; Node throws a `RangeError` for a value outside 0..2^32-1, which is `None`.
   */
  function VersionBytes(version: int): (r: Option<seq<Byte>>)
    ensures r.Some? <==> 0 <= version <= MaxU32
    ensures r.Some? ==> |r.value| == 4
  {
    if 0 <= version <= MaxU32 then Some(LittleEndian(version, 4)) else None
  }

  /** `[Buffer.from("version"), modelPda.toBuffer(), versionBytes]`, when the version bytes exist. */
  function VersionSeeds(model: Pubkey, version: int): (r: Option<seq<seq<Byte>>>)
    ensures r.Some? <==> 0 <= version <= MaxU32
  {
    match VersionBytes(version)
    case None => None
    case Some(vb) => Some([VersionTag(), model, vb])
  }

  /** Every seed fits Solana's 32-byte limit. */
  predicate SeedsWithinLimit(seeds: seq<seq<Byte>>) {
    forall i :: 0 <= i < |seeds| ==> |seeds[i]| <= MaxSeedLength
  }

  lemma Pow256At4()
    ensures Pow256(4) == MaxU32 + 1
  {
    assert Pow256(2) == 0x1_0000;
  }

  /** Decoding the version bytes gives back the version. */
  lemma VersionBytesRoundTrip(version: int)
    requires 0 <= version <= MaxU32
    ensures VersionBytes(version).Some?
    ensures FromLittleEndian(VersionBytes(version).value) == version
  {
    Pow256At4();
    LittleEndianRoundTrip(version, 4);
  }

  /** Any four bytes are the version bytes of exactly one version: the one they decode to. */
  lemma VersionBytesOnto(b: seq<Byte>)
    requires |b| == 4
    ensures FromLittleEndian(b) <= MaxU32
    ensures VersionBytes(FromLittleEndian(b)) == Some(b)
  {
    Pow256At4();
    LittleEndianBytesRoundTrip(b);
  }

  /** All three seed lists respect the 32-byte seed limit. */
  lemma AllSeedsWithinLimit(publisher: Pubkey, nameHash: Hash32, model: Pubkey, version: int)
    requires 0 <= version <= MaxU32
    ensures SeedsWithinLimit(ConfigSeeds())
    ensures SeedsWithinLimit(ModelSeeds(publisher, nameHash))
    ensures SeedsWithinLimit(VersionSeeds(model, version).value)
  {
  }

  /** Equal model seeds mean the same publisher and the same name hash. */
  lemma ModelSeedsInjective(p1: Pubkey, h1: Hash32, p2: Pubkey, h2: Hash32)
    requires ModelSeeds(p1, h1) == ModelSeeds(p2, h2)
    ensures p1 == p2 && h1 == h2
  {
    assert ModelSeeds(p1, h1)[1] == p1 && ModelSeeds(p2, h2)[1] == p2;
    assert ModelSeeds(p1, h1)[2] == h1 && ModelSeeds(p2, h2)[2] == h2;
  }

  /** Equal version seeds mean the same model and the same version number. */
  lemma VersionSeedsInjective(m1: Pubkey, v1: int, m2: Pubkey, v2: int)
    requires VersionSeeds(m1, v1).Some? && VersionSeeds(m2, v2).Some?
    requires VersionSeeds(m1, v1) == VersionSeeds(m2, v2)
    ensures m1 == m2 && v1 == v2
  {
    var s1, s2 := VersionSeeds(m1, v1).value, VersionSeeds(m2, v2).value;
    assert s1[1] == m1 && s2[1] == m2;
    assert s1[2] == LittleEndian(v1, 4) && s2[2] == LittleEndian(v2, 4);
    Pow256At4();
    LittleEndianInjective(v1, v2, 4);
  }

  /** The three kinds of seed list never coincide: their tags and lengths differ. */
  lemma SeedKindsDistinct(publisher: Pubkey, nameHash: Hash32, model: Pubkey, version: int)
    requires 0 <= version <= MaxU32
    ensures ConfigSeeds() != ModelSeeds(publisher, nameHash)
    ensures ConfigSeeds() != VersionSeeds(model, version).value
    ensures ModelSeeds(publisher, nameHash) != VersionSeeds(model, version).value
  {
    assert |ModelSeeds(publisher, nameHash)[0]| == 5;
    assert |VersionSeeds(model, version).value[0]| == 7;
  }

  /** The model account's address. */
  function ModelAddress(derive: Derivation, publisher: Pubkey, nameHash: Hash32): Pubkey {
    derive(ModelSeeds(publisher, nameHash)).address
  }

  /** The address of version `version` of the model at `model`. */
  function VersionAddress(derive: Derivation, model: Pubkey, version: int): (r: Option<Pubkey>)
    ensures r.Some? <==> 0 <= version <= MaxU32
  {
    match VersionSeeds(model, version)
    case None => None
    case Some(s) => Some(derive(s).address)
  }

  /** Whether `derive` is collision-free on the given seed lists. */
  predicate InjectiveOn(derive: Derivation, a: seq<seq<Byte>>, b: seq<seq<Byte>>) {
    derive(a).address == derive(b).address ==> a == b
  }

  /** With a collision-free derivation, distinct (publisher, name hash) pairs get distinct model addresses. */
  lemma ModelAddressesDistinct(derive: Derivation, p1: Pubkey, h1: Hash32, p2: Pubkey, h2: Hash32)
    requires InjectiveOn(derive, ModelSeeds(p1, h1), ModelSeeds(p2, h2))
    requires p1 != p2 || h1 != h2
    ensures ModelAddress(derive, p1, h1) != ModelAddress(derive, p2, h2)
  {
    if ModelAddress(derive, p1, h1) == ModelAddress(derive, p2, h2) {
      ModelSeedsInjective(p1, h1, p2, h2);
    }
  }

  /** With a collision-free derivation, distinct version numbers of one model get distinct addresses. */
  lemma VersionAddressesDistinct(derive: Derivation, model: Pubkey, v1: int, v2: int)
    requires 0 <= v1 <= MaxU32 && 0 <= v2 <= MaxU32 && v1 != v2
    requires InjectiveOn(derive, VersionSeeds(model, v1).value, VersionSeeds(model, v2).value)
    ensures VersionAddress(derive, model, v1) != VersionAddress(derive, model, v2)
  {
    if VersionAddress(derive, model, v1) == VersionAddress(derive, model, v2) {
      VersionSeedsInjective(model, v1, model, v2);
    }
  }
}
