/** Two defects of the secret store engine, each shown on the code as written
    and beside it the evidently intended definition with its property proved:
    addVersion persists the counter it never advanced, so every version of a
    secret is numbered alike; and the ListSecrets walk also selects version
    manifests, so the listing fails once any secret has a version. */
module SecretFindings {
  import opened Wrappers
  import opened Errors
  import opened GoStrings
  import opened SecretStore

  // ------------------------------------------------- the version counter

  /** As written: after a successful AddSecretVersion whose manifest could be
      written, the manifest loads back with the counter it had before. */
  lemma CounterNotPersisted(lib: Libraries, root: string, unwritable: set<string>, files: Files,
                            req: AddSecretVersionRequest, now: Timestamp, uuid: Result<string, Error>)
    requires RoundTrips(lib.versions) && ManifestPath(root, req.parent) !in unwritable
    requires AddSecretVersionOutcome(lib, root, unwritable, files, req, now, uuid).result.Ok?
    ensures var o := AddSecretVersionOutcome(lib, root, unwritable, files, req, now, uuid);
      LoadVersions(lib, root, o.files, req.parent).Ok? &&
      LoadVersions(lib, root, o.files, req.parent).value.next ==
        LoadVersions(lib, root, files, req.parent).value.next
  {
    var o := AddSecretVersionOutcome(lib, root, unwritable, files, req, now, uuid);
    var versions := LoadVersions(lib, root, files, req.parent).value;
    var manifest := WrittenManifest(versions, Version(uuid.value, versions.next, now.seconds), lib.copierSharesMap);
    assert lib.versions.unmarshal(lib.versions.marshal(manifest).value) == Ok(manifest);
  }

  /** As written: two successive successful AddSecretVersion calls on the
      same secret return the same version name; on a secret without
      versions both are named ".../versions/1". */
  lemma SecondVersionRepeatsName(lib: Libraries, root: string, unwritable: set<string>, files: Files,
                                 req1: AddSecretVersionRequest, req2: AddSecretVersionRequest,
                                 now1: Timestamp, now2: Timestamp,
                                 uuid1: Result<string, Error>, uuid2: Result<string, Error>)
    requires RoundTrips(lib.versions) && req1.parent == req2.parent
    requires ManifestPath(root, req1.parent) !in unwritable
    requires AddSecretVersionOutcome(lib, root, unwritable, files, req1, now1, uuid1).result.Ok?
    requires var o1 := AddSecretVersionOutcome(lib, root, unwritable, files, req1, now1, uuid1);
      AddSecretVersionOutcome(lib, root, unwritable, o1.files, req2, now2, uuid2).result.Ok?
    ensures var o1 := AddSecretVersionOutcome(lib, root, unwritable, files, req1, now1, uuid1);
      var o2 := AddSecretVersionOutcome(lib, root, unwritable, o1.files, req2, now2, uuid2);
      o2.result.value.name == o1.result.value.name &&
      (ManifestPath(root, req1.parent) !in files ==> o2.result.value.name == req1.parent + "/versions/1")
  {
    CounterNotPersisted(lib, root, unwritable, files, req1, now1, uuid1);
    assert IntToDecimal(1) == "1";
  }

  /** Intended: the manifest persisted holds the new version and the
      advanced counter. */
  function AdvancedManifest(versions: Versions, version: Version): (m: Versions)
    ensures m.next == versions.next + 1
    ensures m.versions == versions.versions[version.number := version]
  {
    Versions(versions.next + 1, versions.versions[version.number := version])
  }

  /** addVersion persisting the advanced copy. */
  function AddVersionCorrected(lib: Libraries, unwritable: set<string>, files: Files, versions: Versions,
                               dir: string, payload: seq<byte>, now: Timestamp,
                               uuid: Result<string, Error>): (o: Outcome<Version>)
    ensures uuid.Err? ==> o == Outcome(Err(uuid.error), files)
    ensures o.result.Ok? ==> uuid.Ok? && o.result.value == Version(uuid.value, versions.next, now.seconds)
    ensures o.result.Ok? && dir + "/versions.json" !in unwritable ==>
      var manifest := AdvancedManifest(versions, o.result.value);
      lib.versions.marshal(manifest).Ok? && dir + "/versions.json" in o.files &&
      o.files[dir + "/versions.json"] == lib.versions.marshal(manifest).value
  {
    match uuid
    case Err(e) => Outcome(Err(e), files)
    case Ok(fileName) =>
      var version := Version(fileName, versions.next, now.seconds);
      StoreVersion(lib, unwritable, files, dir, version, payload, AdvancedManifest(versions, version))
  }

  /** AddSecretVersion over the corrected addVersion. */
  function AddSecretVersionCorrected(lib: Libraries, root: string, unwritable: set<string>, files: Files,
                                     req: AddSecretVersionRequest, now: Timestamp,
                                     uuid: Result<string, Error>): (o: Outcome<SecretVersion>)
    ensures o.result.Ok? ==>
      LoadVersions(lib, root, files, req.parent).Ok? &&
      o.result.value == SecretVersion(VersionName(req.parent, LoadVersions(lib, root, files, req.parent).value.next),
                                      Timestamp(now.seconds, 0))
    ensures o.result.Ok? && ManifestPath(root, req.parent) !in unwritable ==>
      LoadVersions(lib, root, files, req.parent).Ok? && uuid.Ok? &&
      var versions := LoadVersions(lib, root, files, req.parent).value;
      var manifest := AdvancedManifest(versions, Version(uuid.value, versions.next, now.seconds));
      lib.versions.marshal(manifest).Ok? && ManifestPath(root, req.parent) in o.files &&
      o.files[ManifestPath(root, req.parent)] == lib.versions.marshal(manifest).value
  {
    match LoadVersions(lib, root, files, req.parent)
    case Err(e) => Outcome(Err(e), files)
    case Ok(versions) =>
      if req.payload.None? then Outcome(Err(NilDereference), files)
      else
        var dir := root + "/" + req.parent;
        assert dir + "/versions.json" == ManifestPath(root, req.parent);
        var added := AddVersionCorrected(lib, unwritable, files, versions, dir, req.payload.value.data, now, uuid);
        match added.result
        case Err(e) => Outcome(Err(e), added.files)
        case Ok(version) =>
          Outcome(Ok(SecretVersion(VersionName(req.parent, versions.next), Timestamp(version.createTime, 0))),
                  added.files)
  }

  /** Intended: each successful call advances the persisted counter by one
      and records the version it numbered. */
  lemma CorrectedCounterAdvances(lib: Libraries, root: string, unwritable: set<string>, files: Files,
                                 req: AddSecretVersionRequest, now: Timestamp, uuid: Result<string, Error>)
    requires RoundTrips(lib.versions) && ManifestPath(root, req.parent) !in unwritable
    requires AddSecretVersionCorrected(lib, root, unwritable, files, req, now, uuid).result.Ok?
    ensures var o := AddSecretVersionCorrected(lib, root, unwritable, files, req, now, uuid);
      var before := LoadVersions(lib, root, files, req.parent).value;
      LoadVersions(lib, root, o.files, req.parent) ==
        Ok(Versions(before.next + 1, before.versions[before.next := Version(uuid.value, before.next, now.seconds)]))
  {
    var before := LoadVersions(lib, root, files, req.parent).value;
    var manifest := AdvancedManifest(before, Version(uuid.value, before.next, now.seconds));
    assert lib.versions.unmarshal(lib.versions.marshal(manifest).value) == Ok(manifest);
  }

  /** Intended: two successive versions of a secret get distinct names,
      numbered n and n + 1; on a secret without versions, 1 and 2. */
  lemma CorrectedVersionsDiffer(lib: Libraries, root: string, unwritable: set<string>, files: Files,
                                req1: AddSecretVersionRequest, req2: AddSecretVersionRequest,
                                now1: Timestamp, now2: Timestamp,
                                uuid1: Result<string, Error>, uuid2: Result<string, Error>)
    requires RoundTrips(lib.versions) && req1.parent == req2.parent
    requires ManifestPath(root, req1.parent) !in unwritable
    requires AddSecretVersionCorrected(lib, root, unwritable, files, req1, now1, uuid1).result.Ok?
    requires var o1 := AddSecretVersionCorrected(lib, root, unwritable, files, req1, now1, uuid1);
      AddSecretVersionCorrected(lib, root, unwritable, o1.files, req2, now2, uuid2).result.Ok?
    ensures var o1 := AddSecretVersionCorrected(lib, root, unwritable, files, req1, now1, uuid1);
      var o2 := AddSecretVersionCorrected(lib, root, unwritable, o1.files, req2, now2, uuid2);
      var n := LoadVersions(lib, root, files, req1.parent).value.next;
      o1.result.value.name == VersionName(req1.parent, n) &&
      o2.result.value.name == VersionName(req1.parent, n + 1) &&
      o1.result.value.name != o2.result.value.name &&
      (ManifestPath(root, req1.parent) !in files ==>
        o1.result.value.name == req1.parent + "/versions/1" &&
        o2.result.value.name == req1.parent + "/versions/2")
  {
    var n := LoadVersions(lib, root, files, req1.parent).value.next;
    CorrectedCounterAdvances(lib, root, unwritable, files, req1, now1, uuid1);
    if VersionName(req1.parent, n) == VersionName(req1.parent, n + 1) {
      var prefix := req1.parent + "/versions/";
      assert IntToDecimal(n) == VersionName(req1.parent, n)[|prefix|..];
      assert IntToDecimal(n + 1) == VersionName(req1.parent, n + 1)[|prefix|..];
      IntToDecimalInjective(n, n + 1);
    }
    assert IntToDecimal(1) == "1" && IntToDecimal(2) == "2";
  }

  // ------------------------------------------------------ the listing walk

  /** The file name of `a + "/" + b` is `b` when `b` holds no '/'. */
  lemma BaseNameOf(a: string, b: string)
    requires '/' !in b
    ensures BaseName(a + "/" + b) == b
  {
    assert a + "/" + b == a + ['/'] + b;
    LastIndexAt(a, '/', b);
  }

  /** Removing ".json" from `id + ".json"` gives `id` back. */
  lemma TrimJson(id: string)
    ensures TrimSuffix(id + ".json", ".json") == id
  {
    var s := id + ".json";
    assert s[|s| - 5..] == ".json";
    assert s[..|s| - 5] == id;
  }

  /** A string starts with what is put in front of it. */
  lemma PrefixOfConcat(a: string, b: string)
    ensures HasPrefix(a + b, a)
  {
    assert (a + b)[..|a|] == a;
  }

  /** The manifest's file name. */
  lemma ManifestBaseName(root: string, secret: string)
    ensures BaseName(ManifestPath(root, secret)) == "versions.json"
  {
    var dir := root + "/" + secret;
    assert ManifestPath(root, secret) == dir + "/" + "versions.json";
    BaseNameOf(dir, "versions.json");
  }

  /** The manifest of a secret lies under its project's secrets directory. */
  lemma ManifestUnderSecretsDir(root: string, parent: string, secretId: string)
    ensures HasPrefix(ManifestPath(root, SecretName(parent, secretId)), SecretsDir(root, parent) + "/")
  {
    var prefix := SecretsDir(root, parent) + "/";
    assert ManifestPath(root, SecretName(parent, secretId)) == prefix + (secretId + "/versions.json");
    PrefixOfConcat(prefix, secretId + "/versions.json");
  }

  /** As written: the manifest of any secret is selected by the walk, and
      the name derived from it is the secret "versions". */
  lemma ManifestIsListed(root: string, parent: string, secretId: string)
    ensures var manifest := ManifestPath(root, SecretName(parent, secretId));
      WalkSelects(root, parent, manifest) && ListedName(parent, manifest) == SecretName(parent, "versions")
  {
    ManifestBaseName(root, SecretName(parent, secretId));
    ManifestUnderSecretsDir(root, parent, secretId);
    TrimJson("versions");
    assert "versions" + ".json" == "versions.json";
    assert HasSuffix("versions.json", ".json");
  }

  /** As written: once a secret has a manifest, and no secret is called
      "versions", some file the walk selects fails to read with
      FileNotFound, so ListSecrets fails. */
  lemma ListingFailsOnManifest(lib: Libraries, root: string, files: Files, parent: string, secretId: string)
    requires '/' !in secretId
    requires ManifestPath(root, SecretName(parent, secretId)) in files
    requires SecretFilePath(root, SecretName(parent, "versions")) !in files
    ensures exists p :: p in ListedPaths(root, parent, files) &&
                ListedRead(lib, root, files, parent, p) ==
                  Err(FileNotFound(SecretFilePath(root, SecretName(parent, "versions"))))
  {
    var manifest := ManifestPath(root, SecretName(parent, secretId));
    ManifestIsListed(root, parent, secretId);
    assert manifest in ListedPaths(root, parent, files);
  }

  /** As written, end to end: after a version is added to a secret, the
      listing of its project fails (unless a secret is called "versions"). */
  lemma ListingFailsAfterAddVersion(lib: Libraries, root: string, unwritable: set<string>, files: Files,
                                    parent: string, secretId: string, payload: SecretPayload,
                                    now: Timestamp, uuid: Result<string, Error>)
    requires '/' !in secretId
    requires ManifestPath(root, SecretName(parent, secretId)) !in unwritable
    requires var req := AddSecretVersionRequest(SecretName(parent, secretId), Some(payload));
      var o := AddSecretVersionOutcome(lib, root, unwritable, files, req, now, uuid);
      o.result.Ok? && SecretFilePath(root, SecretName(parent, "versions")) !in o.files
    ensures var req := AddSecretVersionRequest(SecretName(parent, secretId), Some(payload));
      var o := AddSecretVersionOutcome(lib, root, unwritable, files, req, now, uuid);
      exists p :: p in ListedPaths(root, parent, o.files) && ListedRead(lib, root, o.files, parent, p).Err?
  {
    var req := AddSecretVersionRequest(SecretName(parent, secretId), Some(payload));
    var o := AddSecretVersionOutcome(lib, root, unwritable, files, req, now, uuid);
    ListingFailsOnManifest(lib, root, o.files, parent, secretId);
  }

  /** Intended: every file the corrected walk selects is the metadata file
      of the name it derives, so a read can only fail by not decoding. */
  lemma CorrectedListingReadsMetadata(lib: Libraries, root: string, files: Files, parent: string, path: string)
    requires path in MetadataPaths(root, parent, files)
    ensures ListedRead(lib, root, files, parent, path).Ok? <==> lib.secrets.unmarshal(files[path]).Ok?
    ensures ListedRead(lib, root, files, parent, path).Err? ==>
      ListedRead(lib, root, files, parent, path) == Err(lib.secrets.unmarshal(files[path]).error)
  {
  }

  /** Intended: a secret CreateSecret stored is listed, under its name. */
  lemma CreatedSecretIsListed(root: string, parent: string, files: Files, secretId: string)
    requires '/' !in secretId && CreatedFilePath(root, parent, secretId) in files
    ensures var path := CreatedFilePath(root, parent, secretId);
      path in MetadataPaths(root, parent, files) && ListedName(parent, path) == SecretName(parent, secretId)
  {
    var path := CreatedFilePath(root, parent, secretId);
    CreatedBaseName(root, parent, secretId);
    CreatedUnderSecretsDir(root, parent, secretId);
    TrimJson(secretId);
    CreatedFileIsSecretFile(root, parent, secretId);
    assert WalkSelects(root, parent, path);
  }

  /** The metadata file's name is the id with ".json" appended. */
  lemma CreatedBaseName(root: string, parent: string, secretId: string)
    requires '/' !in secretId
    ensures BaseName(CreatedFilePath(root, parent, secretId)) == secretId + ".json"
    ensures HasSuffix(secretId + ".json", ".json")
  {
    var dir := SecretsDir(root, parent) + "/" + secretId;
    assert CreatedFilePath(root, parent, secretId) == dir + "/" + (secretId + ".json");
    BaseNameOf(dir, secretId + ".json");
    var base := secretId + ".json";
    assert base[|base| - 5..] == ".json";
  }

  /** The metadata file lies under the secrets directory. */
  lemma CreatedUnderSecretsDir(root: string, parent: string, secretId: string)
    ensures HasPrefix(CreatedFilePath(root, parent, secretId), SecretsDir(root, parent) + "/")
  {
    assert CreatedFilePath(root, parent, secretId) ==
      (SecretsDir(root, parent) + "/") + (secretId + "/" + secretId + ".json");
    PrefixOfConcat(SecretsDir(root, parent) + "/", secretId + "/" + secretId + ".json");
  }

  /** Intended: a secret's manifest is not selected by the corrected walk
      (a secret called "versions" keeps its metadata and its manifest in the
      same file, so it is excluded). */
  lemma ManifestNotListed(root: string, parent: string, files: Files, secretId: string)
    requires secretId != "versions"
    ensures ManifestPath(root, SecretName(parent, secretId)) !in MetadataPaths(root, parent, files)
  {
    ManifestIsListed(root, parent, secretId);
    CreatedFileIsSecretFile(root, parent, "versions");
    ManifestIsNotMetadataOfVersions(root, parent, secretId);
  }

  /** Only the secret "versions" has its manifest where the metadata of a
      secret called "versions" lies. */
  lemma ManifestIsNotMetadataOfVersions(root: string, parent: string, secretId: string)
    requires secretId != "versions"
    ensures ManifestPath(root, SecretName(parent, secretId)) != CreatedFilePath(root, parent, "versions")
  {
    var prefix := SecretsDir(root, parent) + "/";
    var manifest := ManifestPath(root, SecretName(parent, secretId));
    var other := CreatedFilePath(root, parent, "versions");
    assert manifest == prefix + secretId + "/versions.json";
    assert other == prefix + "versions" + "/versions.json";
    if |secretId| == 8 {
      assert manifest[|prefix|..|prefix| + 8] == secretId;
      assert other[|prefix|..|prefix| + 8] == "versions";
    }
  }
}
