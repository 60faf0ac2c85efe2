/**
 * The registry's lifecycle as the program's own test suite drives it:
 * initialize, publish, add a version, update the metadata, deprecate, fail
 * to add a version to the deprecated model, publish a second model and
 * transfer it. Every step's outcome and every field the tests look at is
 * proved, for any names, URIs and hashes the program accepts.
 */
module RegistryScenario {
  import opened Wrappers
  import opened Bytes
  import opened RegistryState
  import opened RegistryErrors
  import opened Pda
  import opened ModelRegistry

  /** No two entries of `s` are equal. */
  predicate Distinct(s: seq<Pubkey>) {
    forall i, j :: 0 <= i < j < |s| ==> s[i] != s[j]
  }

  /**
   * The seed lists of the six accounts of the lifecycle: the config, two
   * models of one publisher under name hashes `h1` and `h2`, the first two
   * versions of the first model and the first version of the second.
   */
  function LifecycleSeeds(derive: Derivation, publisher: Pubkey, h1: Hash32, h2: Hash32): seq<seq<seq<Byte>>> {
    var a1 := ModelAddress(derive, publisher, h1);
    var a2 := ModelAddress(derive, publisher, h2);
    [ConfigSeeds(), ModelSeeds(publisher, h1), ModelSeeds(publisher, h2),
     VersionSeeds(a1, 1).value, VersionSeeds(a1, 2).value, VersionSeeds(a2, 1).value]
  }

  /**
   * The derivation maps no two of the lifecycle's seed lists to one address
   * unless they are the same list: the collision resistance of program
   * addresses, asked of these six lists only.
   */
  predicate LifecycleInjective(derive: Derivation, publisher: Pubkey, h1: Hash32, h2: Hash32) {
    var seeds := LifecycleSeeds(derive, publisher, h1, h2);
    forall i, j :: 0 <= i < j < 6 ==> InjectiveOn(derive, seeds[i], seeds[j])
  }

  /** The addresses of the six lifecycle accounts, in the order of their seed lists. */
  function LifecycleAccounts(derive: Derivation, publisher: Pubkey, h1: Hash32, h2: Hash32): seq<Pubkey> {
    var a1 := ModelAddress(derive, publisher, h1);
    var a2 := ModelAddress(derive, publisher, h2);
    [derive(ConfigSeeds()).address, a1, a2,
     VersionAddress(derive, a1, 1).value, VersionAddress(derive, a1, 2).value, VersionAddress(derive, a2, 1).value]
  }

  /**
   * The six lifecycle seed lists differ from one another, so a derivation
   * without collisions among them puts the six accounts at six different addresses.
   */
  lemma LifecycleAccountsDistinct(derive: Derivation, publisher: Pubkey, h1: Hash32, h2: Hash32)
    requires LifecycleInjective(derive, publisher, h1, h2) && h1 != h2
    ensures Distinct(LifecycleAccounts(derive, publisher, h1, h2))
  {
    var a1 := ModelAddress(derive, publisher, h1);
    var a2 := ModelAddress(derive, publisher, h2);
    var cs, m1, m2 := ConfigSeeds(), ModelSeeds(publisher, h1), ModelSeeds(publisher, h2);
    var s11, s12, s21 := VersionSeeds(a1, 1).value, VersionSeeds(a1, 2).value, VersionSeeds(a2, 1).value;
    var seeds := LifecycleSeeds(derive, publisher, h1, h2);
    assert seeds == [cs, m1, m2, s11, s12, s21];
    SeedKindsDistinct(publisher, h1, a1, 1);
    SeedKindsDistinct(publisher, h1, a1, 2);
    SeedKindsDistinct(publisher, h2, a2, 1);
    SeedKindsDistinct(publisher, h1, a2, 1);
    SeedKindsDistinct(publisher, h2, a1, 1);
    SeedKindsDistinct(publisher, h2, a1, 2);
    if m1 == m2 {
      ModelSeedsInjective(publisher, h1, publisher, h2);
    }
    assert a1 != a2 by {
      assert InjectiveOn(derive, seeds[1], seeds[2]);
    }
    if s11 == s12 {
      VersionSeedsInjective(a1, 1, a1, 2);
    }
    if s11 == s21 {
      VersionSeedsInjective(a1, 1, a2, 1);
    }
    if s12 == s21 {
      VersionSeedsInjective(a1, 2, a2, 1);
    }
    assert forall i, j :: 0 <= i < j < 6 ==> seeds[i] != seeds[j];
    var accounts := LifecycleAccounts(derive, publisher, h1, h2);
    forall i, j | 0 <= i < j < 6
      ensures accounts[i] != accounts[j]
    {
      assert accounts[i] == derive(seeds[i]).address;
      assert accounts[j] == derive(seeds[j]).address;
      assert InjectiveOn(derive, seeds[i], seeds[j]);
    }
  }

  /**
   * What every lifecycle step assumes: two names the program accepts, with
   * different name hashes, and no address collision among the lifecycle's accounts.
   */
  predicate Setting(derive: Derivation, hashName: string -> Hash32, publisher: Pubkey, name1: string, name2: string) {
    LifecycleInjective(derive, publisher, hashName(name1), hashName(name2)) && hashName(name1) != hashName(name2) &&
    NameError(name1).None? && NameError(name2).None?
  }

  /** The registry's address functions are those of the derivation. */
  ghost predicate Derived(reg: Registry, derive: Derivation, hashName: string -> Hash32)
    reads reg
  {
    reg.derive == derive && reg.hashName == hashName &&
    reg.configAddress == derive(ConfigSeeds()).address &&
    (forall p: Pubkey, h: Hash32 :: reg.modelPda(p, h) == derive(ModelSeeds(p, h))) &&
    (forall a: Pubkey, v: U32 :: reg.versionPda(a, v) == derive(VersionSeeds(a, v).value))
  }

  /** "Initialize registry": a fresh registry whose config names the signer as authority, with both counters at zero. */
  method Initialized(derive: Derivation, hashName: string -> Hash32, publisher: Pubkey) returns (reg: Registry)
    ensures fresh(reg) && reg.Valid() && Derived(reg, derive, hashName)
    ensures reg.config.Some? && reg.config.value.authority == publisher
    ensures reg.config.value.totalModels == 0 && reg.config.value.totalVersions == 0
    ensures reg.models == map[] && reg.versions == map[]
  {
    reg := new Registry(derive, hashName);
    var init := reg.Initialize(publisher, derive(ConfigSeeds()).address);
    assert init.Ok?;
  }

  /** "Publish model": the initialized registry with one model at version 1. */
  method Published(derive: Derivation, hashName: string -> Hash32, publisher: Pubkey, name1: string, name2: string, uri: string, w: Hash32, now: I64)
    returns (reg: Registry, a: Pubkey)
    requires Setting(derive, hashName, publisher, name1, name2) && UriError(uri).None?
    ensures fresh(reg) && reg.Valid() && Derived(reg, derive, hashName)
    ensures a == reg.ModelAt(publisher, name1)
    ensures reg.config.Some? && reg.config.value.authority == publisher
    ensures reg.config.value.totalModels == 1 && reg.config.value.totalVersions == 1
    ensures reg.models.Keys == {a} && reg.versions.Keys == {reg.VersionAt(a, 1)}
    ensures reg.models[a].publisher == publisher && reg.models[a].modelName == name1
    ensures reg.models[a].weightsHash == w && reg.models[a].metadataUri == uri
    ensures reg.models[a].versionCount == 1 && !reg.models[a].isDeprecated
    ensures reg.versions[reg.VersionAt(a, 1)].model == a && reg.versions[reg.VersionAt(a, 1)].version == 1
    ensures reg.versions[reg.VersionAt(a, 1)].weightsHash == w
  {
    reg := Initialized(derive, hashName, publisher);
    a := reg.ModelAt(publisher, name1);
    assert reg.VersionAt(a, 1) != a && reg.configAddress != a && reg.configAddress != reg.VersionAt(a, 1) by {
      LifecycleAccountsDistinct(derive, publisher, hashName(name1), hashName(name2));
      var accounts := LifecycleAccounts(derive, publisher, hashName(name1), hashName(name2));
      assert reg.configAddress == accounts[0] && a == accounts[1] && reg.VersionAt(a, 1) == accounts[3];
    }
    assert NameError(name1).None? && UriError(uri).None? && LicenseError(0).None?;
    assert reg.PublishFailure(publisher, a, reg.VersionAt(a, 1), name1, uri, 0).None?;
    var published := reg.PublishModel(publisher, a, reg.VersionAt(a, 1), name1, w, uri, 0, now);
    assert published == Ok(a);
  }

  /** "Add version": version 2 is recorded and becomes the model's latest. */
  method AddVersionStep(derive: Derivation, hashName: string -> Hash32, publisher: Pubkey, name1: string, name2: string,
                        uri1: string, uri2: string, w1: Hash32, w2: Hash32, now: I64)
    returns (latest: Model, record: ModelVersion)
    requires Setting(derive, hashName, publisher, name1, name2)
    requires UriError(uri1).None? && UriError(uri2).None?
    ensures latest.versionCount == 2 && latest.weightsHash == w2 && latest.metadataUri == uri2
    ensures record.version == 2 && record.weightsHash == w2 && record.version == latest.versionCount
  {
    var reg, a := Published(derive, hashName, publisher, name1, name2, uri1, w1, now);
    var v1, v2 := reg.VersionAt(a, 1), reg.VersionAt(a, 2);
    assert v2 !in {reg.configAddress, a, v1} by {
      LifecycleAccountsDistinct(derive, publisher, hashName(name1), hashName(name2));
      var accounts := LifecycleAccounts(derive, publisher, hashName(name1), hashName(name2));
      assert reg.configAddress == accounts[0] && a == accounts[1];
      assert v1 == accounts[3] && v2 == accounts[4];
    }
    assert !reg.InUse(v2);
    assert reg.AddVersionFailure(publisher, a, v2, uri2).None?;
    var added := reg.AddVersion(publisher, a, v2, w2, uri2, now);
    assert added == Ok(2);
    latest := reg.models[a];
    record := reg.versions[reg.VersionAt(a, 2)];
  }

  /** "Update metadata": only the URI changes. */
  method UpdateMetadataStep(derive: Derivation, hashName: string -> Hash32, publisher: Pubkey, name1: string, name2: string,
                            uri1: string, uri2: string, w: Hash32, now: I64)
    returns (updated: Model)
    requires Setting(derive, hashName, publisher, name1, name2)
    requires UriError(uri1).None? && UriError(uri2).None?
    ensures updated.metadataUri == uri2 && updated.weightsHash == w && updated.versionCount == 1
    ensures updated.publisher == publisher && !updated.isDeprecated
  {
    var reg, a := Published(derive, hashName, publisher, name1, name2, uri1, w, now);
    var r := reg.UpdateMetadata(publisher, a, uri2, now);
    assert r.Ok?;
    updated := reg.models[a];
  }

  /**
   * "Deprecate model" and "Prevent adding version to deprecated model":
   * deprecation latches, a second deprecation is refused, and so is a new
   * version, which leaves the version count where it was.
   */
  method DeprecateStep(derive: Derivation, hashName: string -> Hash32, publisher: Pubkey, name1: string, name2: string,
                       uri1: string, uri2: string, w1: Hash32, w2: Hash32, now: I64)
    returns (deprecated: Model, again: Outcome<()>, refused: Outcome<U32>)
    requires Setting(derive, hashName, publisher, name1, name2)
    requires UriError(uri1).None? && UriError(uri2).None?
    ensures deprecated.isDeprecated && deprecated.versionCount == 1 && deprecated.weightsHash == w1
    ensures again == Err(Program(AlreadyDeprecated))
    ensures refused == Err(Program(ModelDeprecated))
  {
    var reg, a := Published(derive, hashName, publisher, name1, name2, uri1, w1, now);
    var r := reg.DeprecateModel(publisher, a);
    assert r.Ok?;
    again := reg.DeprecateModel(publisher, a);
    refused := reg.AddVersion(publisher, a, reg.VersionAt(a, 2), w2, uri2, now);
    deprecated := reg.models[a];
  }

  /** The second publication of the suite: a model of the same publisher under another name. */
  method PublishedPair(derive: Derivation, hashName: string -> Hash32, publisher: Pubkey,
                       name1: string, name2: string, uri: string, w1: Hash32, w2: Hash32, now: I64)
    returns (reg: Registry, a2: Pubkey)
    requires Setting(derive, hashName, publisher, name1, name2) && UriError(uri).None?
    ensures fresh(reg) && reg.Valid()
    ensures a2 == reg.ModelAt(publisher, name2) && a2 == ModelAddress(derive, publisher, hashName(name2))
    ensures a2 in reg.models && reg.models[a2].publisher == publisher
    ensures reg.models[a2].modelName == name2 && reg.models[a2].weightsHash == w2
  {
    var a1;
    reg, a1 := Published(derive, hashName, publisher, name1, name2, uri, w1, now);
    a2 := reg.ModelAt(publisher, name2);
    var v1, v2 := reg.VersionAt(a1, 1), reg.VersionAt(a2, 1);
    assert a2 !in {reg.configAddress, a1, v1} && v2 !in {reg.configAddress, a1, v1, a2} by {
      LifecycleAccountsDistinct(derive, publisher, hashName(name1), hashName(name2));
      var accounts := LifecycleAccounts(derive, publisher, hashName(name1), hashName(name2));
      assert reg.configAddress == accounts[0] && a1 == accounts[1] && a2 == accounts[2];
      assert v1 == accounts[3] && v2 == accounts[5];
    }
    assert !reg.InUse(a2) && !reg.InUse(v2) && v2 != a2;
    assert reg.PublishFailure(publisher, a2, v2, name2, uri, 0).None?;
    var published := reg.PublishModel(publisher, a2, v2, name2, w2, uri, 0, now);
    assert published.Ok?;
  }

  /**
   * "Transfer ownership": a second model changes hands, stays at the address
   * derived from its original publisher, and its former publisher can no
   * longer update it.
   */
  method TransferStep(derive: Derivation, hashName: string -> Hash32, publisher: Pubkey, newOwner: Pubkey,
                      name1: string, name2: string, uri: string, w1: Hash32, w2: Hash32, now: I64)
    returns (transferred: Model, address: Pubkey, formerOwner: Outcome<()>)
    requires Setting(derive, hashName, publisher, name1, name2) && UriError(uri).None?
    requires newOwner != publisher
    ensures transferred.publisher == newOwner && transferred.modelName == name2 && transferred.weightsHash == w2
    ensures address == ModelAddress(derive, publisher, hashName(name2))
    ensures formerOwner == Err(Program(UnauthorizedPublisher))
  {
    var reg;
    reg, address := PublishedPair(derive, hashName, publisher, name1, name2, uri, w1, w2, now);
    var r := reg.TransferOwnership(publisher, address, newOwner);
    assert r.Ok?;
    transferred := reg.models[address];
    formerOwner := reg.UpdateMetadata(publisher, address, uri, now);
  }
}
