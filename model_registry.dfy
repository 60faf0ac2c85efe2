/**
 * The model registry program as a state machine over its accounts: the config
 * singleton, one `Model` account per (publisher, model name) and one
 * `ModelVersion` account per (model, version number). Each instruction either
 * fails with one error and changes nothing, or applies all of its writes.
 *
 * Accounts are keyed by address. Addresses come from the seed lists of module
 * `Pda` through the registry's `derive` parameter, which stands for
 * `findProgramAddressSync` under the program id.
 */
module ModelRegistry {
  import opened Wrappers
  import opened Bytes
  import opened RegistryState
  import opened RegistryErrors
  import opened Pda
  import Sha256

  /**
   * Why an instruction failed: a program error, or a check the framework makes
   * on accounts and arithmetic. `InvalidAddress` is a supplied account that is
   * not the address its seeds derive.
   */
  datatype Failure =
    | Program(error: ModelRegistryError)
    | InvalidAddress
    | AccountAlreadyInUse
    | AccountNotInitialized
    | ArithmeticOverflow

  datatype Outcome<T> = Ok(value: T) | Err(failure: Failure)

  /** The name hash in the model seeds: SHA-256 of the name's UTF-8 bytes. */
  function NameHash(name: string): Hash32 {
    Sha256.FipsHash(Utf8Encode(name))
  }

  /**
   * For every name the program accepts, the browser client's hand-written
   * hash gives the same name hash, so its model addresses are the program's.
   */
  lemma ClientNameHashAgrees(name: string)
    requires NameError(name).None?
    ensures Sha256.Hash(Utf8Encode(name)) == NameHash(name)
  {
    Sha256.HashIsFips(Utf8Encode(name));
  }

  /** An error guard as a failure. */
  function AsFailure(e: Option<ModelRegistryError>): Option<Failure> {
    match e
    case None => None
    case Some(err) => Some(Program(err))
  }

  /** Where version `v` of the model at `a` lives, with its bump: the derivation on the version seeds. */
  type VersionPda = (Pubkey, U32) -> ProgramAddress

  /** Where the model of a publisher and a name hash lives: the derivation on the model seeds. */
  type ModelPda = (Pubkey, Hash32) -> ProgramAddress

  /** Every version 1..versionCount of the model at `a` has its record at its derived address. */
  ghost predicate VersionsPresent(at: VersionPda, a: Pubkey, m: Model, versions: map<Pubkey, ModelVersion>) {
    forall v: U32 :: 1 <= v <= m.versionCount ==>
      at(a, v).address in versions &&
      versions[at(a, v).address].model == a &&
      versions[at(a, v).address].version == v
  }

  /** The record at `va` belongs to an existing model, numbers one of its versions and sits at that version's address. */
  ghost predicate VersionBacked(at: VersionPda, va: Pubkey, r: ModelVersion, models: map<Pubkey, Model>) {
    r.model in models && 1 <= r.version <= models[r.model].versionCount &&
    at(r.model, r.version).address == va && VersionFits(r)
  }

  /** A model's `weightsHash` is that of its latest version. */
  ghost predicate LatestHashMatches(at: VersionPda, a: Pubkey, m: Model, versions: map<Pubkey, ModelVersion>)
    requires VersionsPresent(at, a, m, versions) && m.versionCount >= 1
  {
    versions[at(a, m.versionCount).address].weightsHash == m.weightsHash
  }

  /** The registry's invariant, on values. */
  ghost predicate Consistent(at: VersionPda, configAddress: Pubkey, config: Option<RegistryConfig>,
                             models: map<Pubkey, Model>, versions: map<Pubkey, ModelVersion>) {
    (config.None? ==> models == map[] && versions == map[]) &&
    (config.Some? ==> config.value.totalModels == |models| && config.value.totalVersions == |versions|) &&
    configAddress !in models && configAddress !in versions &&
    (forall a :: a in models ==> a !in versions) &&
    AllWellFormed(at, models, versions) &&
    AllBacked(at, models, versions)
  }

  /** Every model is well-formed. */
  ghost predicate AllWellFormed(at: VersionPda, models: map<Pubkey, Model>, versions: map<Pubkey, ModelVersion>) {
    forall a {:trigger ModelWellFormed(at, a, models[a], versions)} :: a in models ==> ModelWellFormed(at, a, models[a], versions)
  }

  /** Every version record is backed by its model. */
  ghost predicate AllBacked(at: VersionPda, models: map<Pubkey, Model>, versions: map<Pubkey, ModelVersion>) {
    forall va {:trigger VersionBacked(at, va, versions[va], models)} :: va in versions ==> VersionBacked(at, va, versions[va], models)
  }

  /** A model has at least one version, fits its account, and has all its version records, the latest carrying its hash. */
  ghost predicate ModelWellFormed(at: VersionPda, a: Pubkey, m: Model, versions: map<Pubkey, ModelVersion>) {
    m.versionCount >= 1 && ModelFits(m) &&
    VersionsPresent(at, a, m, versions) &&
    LatestHashMatches(at, a, m, versions)
  }

  /** What every instruction keeps: no account disappears, version records never change, deprecation stays. */
  ghost predicate Preserves(models: map<Pubkey, Model>, versions: map<Pubkey, ModelVersion>,
                            models': map<Pubkey, Model>, versions': map<Pubkey, ModelVersion>) {
    (forall a :: a in models ==>
       a in models' &&
       models'[a].modelName == models[a].modelName &&
       models[a].versionCount <= models'[a].versionCount &&
       (models[a].isDeprecated ==> models'[a].isDeprecated)) &&
    (forall va :: va in versions ==> va in versions' && versions'[va] == versions[va])
  }

  /** `versions'` keeps every record of `versions` unchanged. */
  ghost predicate Keeps(versions: map<Pubkey, ModelVersion>, versions': map<Pubkey, ModelVersion>) {
    forall x :: x in versions ==> x in versions' && versions'[x] == versions[x]
  }

  /** Every model of `models` is still in `models'`, with at least as many versions. */
  ghost predicate Grows(models: map<Pubkey, Model>, models': map<Pubkey, Model>) {
    forall b :: b in models ==> b in models' && models[b].versionCount <= models'[b].versionCount
  }

  /** Adding version records leaves a well-formed model well-formed. */
  lemma WellFormedUnderNewVersions(at: VersionPda, a: Pubkey, m: Model,
                                   versions: map<Pubkey, ModelVersion>, versions': map<Pubkey, ModelVersion>)
    requires ModelWellFormed(at, a, m, versions) && Keeps(versions, versions')
    ensures ModelWellFormed(at, a, m, versions')
  {
    forall v: U32 | 1 <= v <= m.versionCount
      ensures at(a, v).address in versions'
    {
      assert at(a, v).address in versions;
    }
  }

  /** Writing one well-formed model and adding version records keeps every model well-formed. */
  lemma WellFormedAfterWrite(at: VersionPda, models: map<Pubkey, Model>, versions: map<Pubkey, ModelVersion>,
                             versions': map<Pubkey, ModelVersion>, a: Pubkey, m: Model)
    requires AllWellFormed(at, models, versions) && Keeps(versions, versions')
    requires ModelWellFormed(at, a, m, versions')
    ensures AllWellFormed(at, models[a := m], versions')
  {
    var models' := models[a := m];
    forall b | b in models'
      ensures ModelWellFormed(at, b, models'[b], versions')
    {
      if b != a {
        WellFormedUnderNewVersions(at, b, models[b], versions, versions');
      }
    }
  }

  /** Growing the models keeps every version record backed. */
  lemma BackedAfterGrowth(at: VersionPda, models: map<Pubkey, Model>, models': map<Pubkey, Model>,
                          versions: map<Pubkey, ModelVersion>)
    requires AllBacked(at, models, versions) && Grows(models, models')
    ensures AllBacked(at, models', versions)
  {
    forall vb | vb in versions
      ensures VersionBacked(at, vb, versions[vb], models')
    {
      assert VersionBacked(at, vb, versions[vb], models);
    }
  }

  /** Growing the models and adding one backed record keeps every version record backed. */
  lemma BackedAfterInsert(at: VersionPda, models: map<Pubkey, Model>, models': map<Pubkey, Model>,
                          versions: map<Pubkey, ModelVersion>, va: Pubkey, rec: ModelVersion)
    requires AllBacked(at, models, versions) && Grows(models, models')
    requires VersionBacked(at, va, rec, models')
    ensures AllBacked(at, models', versions[va := rec])
  {
    BackedAfterGrowth(at, models, models', versions);
    var versions' := versions[va := rec];
    forall vb | vb in versions'
      ensures VersionBacked(at, vb, versions'[vb], models')
    {
      if vb != va {
        assert VersionBacked(at, vb, versions[vb], models');
      }
    }
  }

  /** A new model with one version, whose record is at the version-1 address, is well-formed. */
  lemma FirstVersionWellFormed(at: VersionPda, a: Pubkey, m: Model, versions': map<Pubkey, ModelVersion>)
    requires m.versionCount == 1 && ModelFits(m)
    requires at(a, 1).address in versions'
    requires versions'[at(a, 1).address].model == a && versions'[at(a, 1).address].version == 1
    requires versions'[at(a, 1).address].weightsHash == m.weightsHash
    ensures ModelWellFormed(at, a, m, versions')
  {
  }

  /** A well-formed model with one more version, recorded at the next address and carrying the hash, is well-formed. */
  lemma NextVersionWellFormed(at: VersionPda, a: Pubkey, m: Model, m': Model,
                              versions: map<Pubkey, ModelVersion>, va: Pubkey, rec: ModelVersion)
    requires ModelWellFormed(at, a, m, versions) && va !in versions
    requires m'.versionCount as int == m.versionCount as int + 1 && ModelFits(m')
    requires at(a, m'.versionCount).address == va
    requires rec.model == a && rec.version == m'.versionCount && rec.weightsHash == m'.weightsHash
    ensures ModelWellFormed(at, a, m', versions[va := rec])
  {
    forall v: U32 | 1 <= v <= m'.versionCount
      ensures at(a, v).address in versions[va := rec]
      ensures versions[va := rec][at(a, v).address].model == a
      ensures versions[va := rec][at(a, v).address].version == v
    {
      if v < m'.versionCount {
        assert at(a, v).address in versions;
      }
    }
  }

  /** A model rewritten with the same version count and hash stays well-formed if it still fits. */
  lemma RewriteWellFormed(at: VersionPda, a: Pubkey, m: Model, m': Model, versions: map<Pubkey, ModelVersion>)
    requires ModelWellFormed(at, a, m, versions)
    requires m'.versionCount == m.versionCount && m'.weightsHash == m.weightsHash && ModelFits(m')
    ensures ModelWellFormed(at, a, m', versions)
  {
    assert VersionsPresent(at, a, m', versions) by {
      forall v: U32 | 1 <= v <= m'.versionCount
        ensures at(a, v).address in versions
      {
        assert at(a, v).address in versions;
      }
    }
  }

  /** Publishing adds a well-formed model with its first version and counts both. */
  lemma PublishKeepsConsistent(at: VersionPda, configAddress: Pubkey, c: RegistryConfig,
                               models: map<Pubkey, Model>, versions: map<Pubkey, ModelVersion>,
                               a: Pubkey, m: Model, va: Pubkey, rec: ModelVersion)
    requires Consistent(at, configAddress, Some(c), models, versions)
    requires c.totalModels < MaxU64 && c.totalVersions < MaxU64
    requires a !in models && a !in versions && va !in models && va !in versions && va != a
    requires a != configAddress && va != configAddress
    requires at(a, 1).address == va
    requires m.versionCount == 1 && ModelFits(m) && m.weightsHash == rec.weightsHash
    requires rec.model == a && rec.version == 1 && VersionFits(rec)
    ensures Consistent(at, configAddress,
                       Some(c.(totalModels := c.totalModels + 1, totalVersions := c.totalVersions + 1)),
                       models[a := m], versions[va := rec])
    ensures Preserves(models, versions, models[a := m], versions[va := rec])
  {
    FirstVersionWellFormed(at, a, m, versions[va := rec]);
    WellFormedAfterWrite(at, models, versions, versions[va := rec], a, m);
    BackedAfterInsert(at, models, models[a := m], versions, va, rec);
  }

  /** Adding a version keeps the registry consistent and counts the new record. */
  lemma AddVersionKeepsConsistent(at: VersionPda, configAddress: Pubkey, c: RegistryConfig,
                                  models: map<Pubkey, Model>, versions: map<Pubkey, ModelVersion>,
                                  a: Pubkey, m': Model, va: Pubkey, rec: ModelVersion)
    requires Consistent(at, configAddress, Some(c), models, versions)
    requires c.totalVersions < MaxU64
    requires a in models && va !in models && va !in versions && va != configAddress
    requires m'.versionCount as int == models[a].versionCount as int + 1
    requires m'.modelName == models[a].modelName && |Utf8Encode(m'.metadataUri)| <= MaxUriLength
    requires m'.isDeprecated == models[a].isDeprecated
    requires at(a, m'.versionCount).address == va
    requires rec.model == a && rec.version == m'.versionCount && rec.weightsHash == m'.weightsHash && VersionFits(rec)
    ensures Consistent(at, configAddress, Some(c.(totalVersions := c.totalVersions + 1)),
                       models[a := m'], versions[va := rec])
    ensures Preserves(models, versions, models[a := m'], versions[va := rec])
  {
    assert ModelWellFormed(at, a, models[a], versions);
    NextVersionWellFormed(at, a, models[a], m', versions, va, rec);
    WellFormedAfterWrite(at, models, versions, versions[va := rec], a, m');
    BackedAfterInsert(at, models, models[a := m'], versions, va, rec);
  }

  /** Rewriting a model's mutable fields, keeping its name, versions and latest hash, keeps the registry consistent. */
  lemma RewriteKeepsConsistent(at: VersionPda, configAddress: Pubkey, config: Option<RegistryConfig>,
                               models: map<Pubkey, Model>, versions: map<Pubkey, ModelVersion>,
                               a: Pubkey, m': Model)
    requires Consistent(at, configAddress, config, models, versions)
    requires a in models
    requires m'.modelName == models[a].modelName && m'.versionCount == models[a].versionCount
    requires m'.metadataUri == models[a].metadataUri || |Utf8Encode(m'.metadataUri)| <= MaxUriLength
    requires m'.weightsHash == models[a].weightsHash
    requires models[a].isDeprecated ==> m'.isDeprecated
    ensures Consistent(at, configAddress, config, models[a := m'], versions)
    ensures Preserves(models, versions, models[a := m'], versions)
  {
    assert ModelWellFormed(at, a, models[a], versions);
    RewriteWellFormed(at, a, models[a], m', versions);
    WellFormedAfterWrite(at, models, versions, versions, a, m');
    BackedAfterGrowth(at, models, models[a := m'], versions);
  }

  class Registry {
    const derive: Derivation
    /** The derivation on the model seeds. */
    const modelPda: ModelPda
    /** The derivation on the version seeds. */
    const versionPda: VersionPda
    /** The name hash in the model seeds: `NameHash` in the deployed program and its clients. */
    const hashName: string -> Hash32
    /** Where the config account lives: the address of the config seeds. */
    const configAddress: Pubkey
    var config: Option<RegistryConfig>
    var models: map<Pubkey, Model>
    var versions: map<Pubkey, ModelVersion>

    ghost predicate Valid()
      reads this
    {
      Consistent(versionPda, configAddress, config, models, versions)
    }

    /** Whether an account already lives at `a`. */
    predicate InUse(a: Pubkey)
      reads this
    {
      (config.Some? && a == configAddress) || a in models || a in versions
    }

    /** A fresh deployment under a derivation and a name hash: no accounts yet. */
    constructor(derive: Derivation, hashName: string -> Hash32)
      ensures this.derive == derive && this.hashName == hashName && configAddress == derive(ConfigSeeds()).address
      ensures forall p: Pubkey, h: Hash32 :: modelPda(p, h) == derive(ModelSeeds(p, h))
      ensures forall a: Pubkey, v: U32 :: versionPda(a, v) == derive(VersionSeeds(a, v).value)
      ensures config == None && models == map[] && versions == map[]
      ensures Valid()
    {
      this.derive := derive;
      modelPda := (p: Pubkey, h: Hash32) => derive(ModelSeeds(p, h));
      versionPda := (a: Pubkey, v: U32) => derive(VersionSeeds(a, v).value);
      this.hashName := hashName;
      configAddress := derive(ConfigSeeds()).address;
      config := None;
      models := map[];
      versions := map[];
    }

    /**
     * `initialize` with the supplied config account: create the config with the
     * signer as authority and both counters at zero, at the config seeds' address.
     */
    method Initialize(signer: Pubkey, configAccount: Pubkey) returns (r: Outcome<()>)
      requires Valid()
      modifies this
      ensures Valid()
      ensures r == Err(InvalidAddress) <==> configAccount != configAddress
      ensures r == Err(AccountAlreadyInUse) <==> configAccount == configAddress && old(config).Some?
      ensures r.Ok? <==> configAccount == configAddress && old(config).None?
      ensures r.Ok? ==> config == Some(RegistryConfig(signer, 0, 0, derive(ConfigSeeds()).bump))
      ensures r.Err? ==> config == old(config)
      ensures models == old(models) && versions == old(versions)
    {
      if configAccount != configAddress {
        return Err(InvalidAddress);
      }
      if config.Some? {
        return Err(AccountAlreadyInUse);
      }
      config := Some(RegistryConfig(signer, 0, 0, derive(ConfigSeeds()).bump));
      r := Ok(());
    }

    /** The address `publishModel` creates the model at. */
    function ModelAt(publisher: Pubkey, name: string): Pubkey {
      modelPda(publisher, hashName(name)).address
    }

    /** The address of version `v` of the model at `a`. */
    function VersionAt(a: Pubkey, v: U32): Pubkey {
      versionPda(a, v).address
    }

    /**
     * Why `publishModel` fails with the supplied model and version-1 accounts,
     * checking in order: config, the accounts' addresses, both new accounts,
     * arguments, counters.
     */
    function PublishFailure(signer: Pubkey, modelAccount: Pubkey, versionAccount: Pubkey, name: string, uri: string, license: Byte)
      : Option<Failure>
      reads this
    {
      var a := ModelAt(signer, name);
      if config.None? then Some(AccountNotInitialized)
      else if modelAccount != a || versionAccount != VersionAt(a, 1) then Some(InvalidAddress)
      else if InUse(a) || InUse(VersionAt(a, 1)) || VersionAt(a, 1) == a then Some(AccountAlreadyInUse)
      else if NameError(name).Some? then AsFailure(NameError(name))
      else if UriError(uri).Some? then AsFailure(UriError(uri))
      else if LicenseError(license).Some? then AsFailure(LicenseError(license))
      else if config.value.totalModels == MaxU64 || config.value.totalVersions == MaxU64 then Some(ArithmeticOverflow)
      else None
    }

    /**
     * `publishModel(name, weightsHash, uri, license)`: create the model at the
     * address derived from the signer and the name's hash, with version count 1,
     * not deprecated, and its version-1 record; count one model and one version.
     * The supplied accounts must be those addresses.
     */
    method PublishModel(signer: Pubkey, modelAccount: Pubkey, versionAccount: Pubkey,
                        name: string, weightsHash: Hash32, uri: string, license: Byte, now: I64)
      returns (r: Outcome<Pubkey>)
      requires Valid()
      modifies this
      ensures Valid()
      ensures r.Err? <==> old(PublishFailure(signer, modelAccount, versionAccount, name, uri, license)).Some?
      ensures r.Err? ==> Some(r.failure) == old(PublishFailure(signer, modelAccount, versionAccount, name, uri, license))
      ensures r.Err? ==> config == old(config) && models == old(models) && versions == old(versions)
      ensures r.Ok? ==> r.value == modelAccount == ModelAt(signer, name) && r.value !in old(models)
      ensures r.Ok? ==> versionAccount == VersionAt(modelAccount, 1) && versionAccount !in old(versions)
      ensures r.Ok? ==>
        var a := ModelAt(signer, name);
        models == old(models)[a := Model(signer, name, weightsHash, uri, LicenseFromTag(license).value, 1, now, now, false,
                                         modelPda(signer, hashName(name)).bump)] &&
        versions == old(versions)[VersionAt(a, 1) := ModelVersion(a, 1, weightsHash, uri, now,
                                                                  versionPda(a, 1).bump)] &&
        config == Some(old(config).value.(totalModels := old(config).value.totalModels + 1,
                                          totalVersions := old(config).value.totalVersions + 1))
      ensures Preserves(old(models), old(versions), models, versions)
    {
      var failure := PublishFailure(signer, modelAccount, versionAccount, name, uri, license);
      if failure.Some? {
        return Err(failure.value);
      }
      var a := ModelAt(signer, name);
      var va := VersionAt(a, 1);
      var m := Model(signer, name, weightsHash, uri, LicenseFromTag(license).value, 1, now, now, false,
                     modelPda(signer, hashName(name)).bump);
      var rec := ModelVersion(a, 1, weightsHash, uri, now, versionPda(a, 1).bump);
      PublishKeepsConsistent(versionPda, configAddress, config.value, models, versions, a, m, va, rec);
      models := models[a := m];
      versions := versions[va := rec];
      config := Some(config.value.(totalModels := config.value.totalModels + 1,
                                   totalVersions := config.value.totalVersions + 1));
      r := Ok(a);
    }

    /**
     * Why `addVersion` fails on the model at `a` with the supplied new version
     * account, checking in order: accounts, signer, deprecation, URI, counters,
     * the new account's address, the new account.
     */
    function AddVersionFailure(signer: Pubkey, a: Pubkey, versionAccount: Pubkey, uri: string): Option<Failure>
      reads this
    {
      if a !in models || config.None? then Some(AccountNotInitialized)
      else if PublisherError(models[a], signer).Some? then AsFailure(PublisherError(models[a], signer))
      else if AddVersionDeprecationError(models[a]).Some? then AsFailure(AddVersionDeprecationError(models[a]))
      else if UriError(uri).Some? then AsFailure(UriError(uri))
      else if models[a].versionCount == MaxU32 || config.value.totalVersions == MaxU64 then Some(ArithmeticOverflow)
      else if versionAccount != VersionAt(a, models[a].versionCount + 1) then Some(InvalidAddress)
      else if InUse(versionAccount) then Some(AccountAlreadyInUse)
      else None
    }

    /**
     * `addVersion(weightsHash, uri)` on the model at `a`: record version
     * `versionCount + 1` at its derived address, make it the model's latest
     * (hash, URI, count, update time) and count one more version. The
     * supplied version account must be that address.
     */
    method AddVersion(signer: Pubkey, a: Pubkey, versionAccount: Pubkey, weightsHash: Hash32, uri: string, now: I64)
      returns (r: Outcome<U32>)
      requires Valid()
      modifies this
      ensures Valid()
      ensures r.Err? <==> old(AddVersionFailure(signer, a, versionAccount, uri)).Some?
      ensures r.Err? ==> Some(r.failure) == old(AddVersionFailure(signer, a, versionAccount, uri))
      ensures r.Err? ==> config == old(config) && models == old(models) && versions == old(versions)
      ensures r.Ok? ==> a in old(models) && old(models)[a].versionCount < MaxU32
      ensures r.Ok? ==> versionAccount == VersionAt(a, r.value) && versionAccount !in old(versions)
      ensures r.Ok? ==>
        var m := old(models)[a];
        r.value == m.versionCount + 1 &&
        models == old(models)[a := m.(weightsHash := weightsHash, metadataUri := uri, versionCount := m.versionCount + 1,
                                       updatedAt := now)] &&
        versions == old(versions)[VersionAt(a, m.versionCount + 1) := ModelVersion(a, m.versionCount + 1, weightsHash, uri, now,
                                                                        versionPda(a, m.versionCount + 1).bump)] &&
        config == Some(old(config).value.(totalVersions := old(config).value.totalVersions + 1))
      ensures Preserves(old(models), old(versions), models, versions)
    {
      var failure := AddVersionFailure(signer, a, versionAccount, uri);
      if failure.Some? {
        return Err(failure.value);
      }
      var next := AppendVersion(a, weightsHash, uri, now);
      r := Ok(next);
    }

    /** The writes of a successful `addVersion`. */
    method AppendVersion(a: Pubkey, weightsHash: Hash32, uri: string, now: I64) returns (next: U32)
      requires Valid() && a in models && config.Some? && |Utf8Encode(uri)| <= MaxUriLength
      requires models[a].versionCount < MaxU32 && config.value.totalVersions < MaxU64
      requires !InUse(VersionAt(a, models[a].versionCount + 1))
      modifies this
      ensures Valid()
      ensures a in old(models) && old(models)[a].versionCount < MaxU32
      ensures
        var m := old(models)[a];
        models == old(models)[a := m.(weightsHash := weightsHash, metadataUri := uri, versionCount := m.versionCount + 1,
                                       updatedAt := now)] &&
        versions == old(versions)[VersionAt(a, m.versionCount + 1) := ModelVersion(a, m.versionCount + 1, weightsHash, uri, now,
                                                                     versionPda(a, m.versionCount + 1).bump)] &&
        next == m.versionCount + 1 &&
        config == Some(old(config).value.(totalVersions := old(config).value.totalVersions + 1))
      ensures Preserves(old(models), old(versions), models, versions)
    {
      var m := models[a];
      next := m.versionCount + 1;
      var va := VersionAt(a, next);
      var m' := m.(weightsHash := weightsHash, metadataUri := uri, versionCount := next, updatedAt := now);
      var rec := ModelVersion(a, next, weightsHash, uri, now, versionPda(a, next).bump);
      AddVersionKeepsConsistent(versionPda, configAddress, config.value, models, versions, a, m', va, rec);
      models := models[a := m'];
      versions := versions[va := rec];
      config := Some(config.value.(totalVersions := config.value.totalVersions + 1));
    }

    /** Why `updateMetadata` fails on the model at `a`: a missing model, another signer, or a bad URI. */
    function UpdateMetadataFailure(signer: Pubkey, a: Pubkey, uri: string): Option<Failure>
      reads this
    {
      if a !in models then Some(AccountNotInitialized)
      else if PublisherError(models[a], signer).Some? then AsFailure(PublisherError(models[a], signer))
      else if UriError(uri).Some? then AsFailure(UriError(uri))
      else None
    }

    /** `updateMetadata(uri)`: replace the model's metadata URI and update time, deprecated or not. */
    method UpdateMetadata(signer: Pubkey, a: Pubkey, uri: string, now: I64) returns (r: Outcome<()>)
      requires Valid()
      modifies this
      ensures Valid()
      ensures r.Err? <==> old(UpdateMetadataFailure(signer, a, uri)).Some?
      ensures r.Err? ==> Some(r.failure) == old(UpdateMetadataFailure(signer, a, uri))
      ensures r.Err? ==> models == old(models)
      ensures r.Ok? ==> a in old(models) && models == old(models)[a := old(models)[a].(metadataUri := uri, updatedAt := now)]
      ensures config == old(config) && versions == old(versions)
      ensures Preserves(old(models), old(versions), models, versions)
    {
      var failure := UpdateMetadataFailure(signer, a, uri);
      if failure.Some? {
        return Err(failure.value);
      }
      var m' := models[a].(metadataUri := uri, updatedAt := now);
      RewriteKeepsConsistent(versionPda, configAddress, config, models, versions, a, m');
      models := models[a := m'];
      r := Ok(());
    }

    /** Why `deprecateModel` fails on the model at `a`: a missing model, another signer, or a model already deprecated. */
    function DeprecateFailure(signer: Pubkey, a: Pubkey): Option<Failure>
      reads this
    {
      if a !in models then Some(AccountNotInitialized)
      else if PublisherError(models[a], signer).Some? then AsFailure(PublisherError(models[a], signer))
      else if DeprecateError(models[a]).Some? then AsFailure(DeprecateError(models[a]))
      else None
    }

    /** `deprecateModel()`: latch the model as deprecated. */
    method DeprecateModel(signer: Pubkey, a: Pubkey) returns (r: Outcome<()>)
      requires Valid()
      modifies this
      ensures Valid()
      ensures r.Err? <==> old(DeprecateFailure(signer, a)).Some?
      ensures r.Err? ==> Some(r.failure) == old(DeprecateFailure(signer, a))
      ensures r.Err? ==> models == old(models)
      ensures r.Ok? ==> a in old(models) && !old(models)[a].isDeprecated &&
                        models == old(models)[a := old(models)[a].(isDeprecated := true)]
      ensures config == old(config) && versions == old(versions)
      ensures Preserves(old(models), old(versions), models, versions)
    {
      var failure := DeprecateFailure(signer, a);
      if failure.Some? {
        return Err(failure.value);
      }
      var m' := models[a].(isDeprecated := true);
      RewriteKeepsConsistent(versionPda, configAddress, config, models, versions, a, m');
      models := models[a := m'];
      r := Ok(());
    }

    /** Why `transferOwnership` fails on the model at `a`: a missing model or another signer. */
    function TransferFailure(signer: Pubkey, a: Pubkey): Option<Failure>
      reads this
    {
      if a !in models then Some(AccountNotInitialized)
      else if PublisherError(models[a], signer).Some? then AsFailure(PublisherError(models[a], signer))
      else None
    }

    /** `transferOwnership(newOwner)`: make `newOwner` the publisher; the model stays at its address. */
    method TransferOwnership(signer: Pubkey, a: Pubkey, newOwner: Pubkey) returns (r: Outcome<()>)
      requires Valid()
      modifies this
      ensures Valid()
      ensures r.Err? <==> old(TransferFailure(signer, a)).Some?
      ensures r.Err? ==> Some(r.failure) == old(TransferFailure(signer, a))
      ensures r.Err? ==> models == old(models)
      ensures r.Ok? ==> a in old(models) && models == old(models)[a := old(models)[a].(publisher := newOwner)]
      ensures config == old(config) && versions == old(versions)
      ensures Preserves(old(models), old(versions), models, versions)
    {
      var failure := TransferFailure(signer, a);
      if failure.Some? {
        return Err(failure.value);
      }
      var m' := models[a].(publisher := newOwner);
      RewriteKeepsConsistent(versionPda, configAddress, config, models, versions, a, m');
      models := models[a := m'];
      r := Ok(());
    }
  }
}
