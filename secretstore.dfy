/** The local Secret Manager engine (pkg/gcloud/grpc/secretmanager.go): secrets
    are JSON files under a data root, one directory per secret, and each secret
    directory also holds a `versions.json` manifest and one file per version
    payload. The file system is a map from path to bytes; protojson, the JSON
    package, the UUID source and the clock are parameters. */
module SecretStore {
  import opened Wrappers
  import opened Errors
  import opened GoStrings

  /** google.protobuf.Timestamp. */
  datatype Timestamp = Timestamp(seconds: int, nanos: int)

  /** secretmanagerpb.Secret: the name, the creation time, the labels and
      every other field (replication, topics, ...) as opaque text. */
  datatype Secret = Secret(name: string, createTime: Option<Timestamp>,
                           labels: map<string, string>, other: map<string, string>)

  const EmptySecret: Secret := Secret("", None, map[], map[])

  /** The request and response messages; an `Option` field is a message
      pointer that may be nil. */
  datatype CreateSecretRequest = CreateSecretRequest(parent: string, secretId: string, secret: Option<Secret>)
  datatype GetSecretRequest = GetSecretRequest(name: string)
  datatype ListSecretsRequest = ListSecretsRequest(parent: string)
  datatype ListSecretsResponse = ListSecretsResponse(secrets: seq<Secret>)
  datatype FieldMask = FieldMask(paths: seq<string>)
  datatype UpdateSecretRequest = UpdateSecretRequest(secret: Option<Secret>, updateMask: Option<FieldMask>)
  datatype SecretPayload = SecretPayload(data: seq<byte>)
  datatype AddSecretVersionRequest = AddSecretVersionRequest(parent: string, payload: Option<SecretPayload>)
  datatype SecretVersion = SecretVersion(name: string, createTime: Timestamp)

  /** The persisted version records: `Version` names the payload file, and
      `Versions` is the `versions.json` manifest with its counter. */
  datatype Version = Version(file: string, number: int, createTime: int)
  datatype Versions = Versions(next: int, versions: map<int, Version>)

  /** A serialisation library: protojson for secrets, encoding/json for the
      manifest. */
  datatype Codec<!T> = Codec(marshal: T -> Result<seq<byte>, Error>,
                            unmarshal: seq<byte> -> Result<T, Error>)

  /** What the libraries the engine calls do: the two codecs, and whether
      copier.Copy leaves the copy of a `Versions` sharing its map with the
      original (a shallow copy does; a deep one does not). */
  datatype Libraries = Libraries(secrets: Codec<Secret>, versions: Codec<Versions>, copierSharesMap: bool)

  /** A codec whose decoder reads back what its encoder wrote. */
  ghost predicate RoundTrips<T(!new)>(c: Codec<T>) {
    forall x: T :: c.marshal(x).Ok? ==> c.unmarshal(c.marshal(x).value) == Ok(x)
  }

  type Files = map<string, seq<byte>>

  /** The result of an operation that writes, and the files afterwards. */
  datatype Outcome<T> = Outcome(result: Result<T, Error>, files: Files)

  /** The blocking write of afero: refused for a path in `unwritable`. */
  function Write(unwritable: set<string>, files: Files, path: string, data: seq<byte>): Result<Files, Error> {
    if path in unwritable then Err(IOFailure(path)) else Ok(files[path := data])
  }

  // ---------------------------------------------------------------- paths

  /** "%s/secrets/%s": the resource name of a secret. */
  function SecretName(parent: string, secretId: string): string {
    parent + "/secrets/" + secretId
  }

  /** The directory ListSecrets walks: "%s/%s/secrets". */
  function SecretsDir(root: string, parent: string): string {
    root + "/" + parent + "/secrets"
  }

  /** The metadata file CreateSecret writes: "<dir>/<id>.json" in the
      directory "%s/%s/secrets/%s". */
  function CreatedFilePath(root: string, parent: string, secretId: string): string {
    SecretsDir(root, parent) + "/" + secretId + "/" + secretId + ".json"
  }

  /** The last '/'-separated element of a resource name. */
  function LastElement(name: string): (r: string)
    ensures '/' !in r
    ensures HasSuffix(name, r)
  {
    var pieces := Split(name, '/');
    LastPiece(name, '/');
    pieces[|pieces| - 1]
  }

  /** createSecretFilePath: where a secret named `name` is read and
      rewritten. */
  function SecretFilePath(root: string, name: string): string {
    root + "/" + name + "/" + LastElement(name) + ".json"
  }

  /** The file CreateSecret writes is the one GetSecret reads back for the
      name it gives the secret, when the id holds no '/'. */
  lemma CreatedFileIsSecretFile(root: string, parent: string, secretId: string)
    requires '/' !in secretId
    ensures CreatedFilePath(root, parent, secretId) == SecretFilePath(root, SecretName(parent, secretId))
  {
    var name := SecretName(parent, secretId);
    assert name == (parent + "/secrets") + ['/'] + secretId;
    LastPieceSplit(parent + "/secrets", '/', secretId);
  }

  /** "%s/%s/versions.json": the version manifest of a secret. */
  function ManifestPath(root: string, secret: string): string {
    root + "/" + secret + "/versions.json"
  }

  // --------------------------------------------------------------- secrets

  /** The secret CreateSecret stores: a copy of the request's secret (an
      empty one when it is nil, as copier.Copy then fails and its error is
      ignored) with the creation time and the resource name set. */
  function CreatedSecret(req: CreateSecretRequest, now: Timestamp): (s: Secret)
    ensures s.name == SecretName(req.parent, req.secretId)
    ensures s.createTime == Some(now)
    ensures req.secret.Some? ==> s.labels == req.secret.value.labels && s.other == req.secret.value.other
    ensures req.secret.None? ==> s.labels == map[] && s.other == map[]
  {
    var given := if req.secret.Some? then req.secret.value else EmptySecret;
    given.(createTime := Some(now), name := SecretName(req.parent, req.secretId))
  }

  /** CreateSecret: encode, then write the metadata file, overwriting any
      secret of the same id. */
  function CreateOutcome(lib: Libraries, root: string, unwritable: set<string>, files: Files,
                         req: CreateSecretRequest, now: Timestamp): (o: Outcome<Secret>)
    ensures o.result.Ok? ==> o.result.value == CreatedSecret(req, now)
    ensures o.result.Ok? <==>
      lib.secrets.marshal(CreatedSecret(req, now)).Ok? && CreatedFilePath(root, req.parent, req.secretId) !in unwritable
    ensures o.result.Err? ==> o.files == files
    ensures o.result.Ok? ==>
      o.files == files[CreatedFilePath(root, req.parent, req.secretId) := lib.secrets.marshal(CreatedSecret(req, now)).value]
  {
    var secret := CreatedSecret(req, now);
    match lib.secrets.marshal(secret)
    case Err(e) => Outcome(Err(e), files)
    case Ok(bytes) =>
      match Write(unwritable, files, CreatedFilePath(root, req.parent, req.secretId), bytes)
      case Err(e) => Outcome(Err(e), files)
      case Ok(written) => Outcome(Ok(secret), written)
  }

  /** GetSecret: read and decode the metadata file; the name the caller
      asked for replaces the stored one. */
  function ReadSecret(lib: Libraries, root: string, files: Files, name: string): (r: Result<Secret, Error>)
    ensures SecretFilePath(root, name) !in files ==> r == Err(FileNotFound(SecretFilePath(root, name)))
    ensures r.Ok? ==> r.value.name == name
    ensures r.Ok? <==> SecretFilePath(root, name) in files && lib.secrets.unmarshal(files[SecretFilePath(root, name)]).Ok?
    ensures r.Ok? ==> r.value == lib.secrets.unmarshal(files[SecretFilePath(root, name)]).value.(name := name)
  {
    var path := SecretFilePath(root, name);
    if path !in files then Err(FileNotFound(path))
    else
      match lib.secrets.unmarshal(files[path])
      case Err(e) => Err(e)
      case Ok(secret) => Ok(secret.(name := name))
  }

  /** The only field an update mask may name. */
  const MutableField := "labels"
  const InvalidMaskMessage := "Update mask must only contain mutable fields"

  predicate MaskIsValid(paths: seq<string>) {
    forall i :: 0 <= i < |paths| ==> paths[i] == MutableField
  }

  /** validateUpdateMask: scan for a path other than "labels"; a nil mask
      is dereferenced and panics. */
  method ValidateUpdateMask(updateMask: Option<FieldMask>) returns (err: Option<Error>)
    ensures updateMask.None? ==> err == Some(NilDereference)
    ensures updateMask.Some? ==> (err.None? <==> MaskIsValid(updateMask.value.paths))
    ensures updateMask.Some? && err.Some? ==> err.value == Status(InvalidArgument, InvalidMaskMessage)
  {
    if updateMask.None? {
      return Some(NilDereference);
    }
    var paths := updateMask.value.paths;
    var foundInvalidField := false;
    var i := 0;
    while !foundInvalidField && i < |paths|
      invariant 0 <= i <= |paths|
      invariant !foundInvalidField ==> MaskIsValid(paths[..i])
      invariant foundInvalidField ==> !MaskIsValid(paths)
    {
      if paths[i] != MutableField {
        foundInvalidField := true;
      }
      i := i + 1;
    }
    if foundInvalidField {
      return Some(Status(InvalidArgument, InvalidMaskMessage));
    }
    assert paths[..i] == paths;
    return None;
  }

  /** UpdateSecret: check the mask, read the stored secret, replace its
      labels and write it back. */
  function UpdateOutcome(lib: Libraries, root: string, unwritable: set<string>, files: Files,
                         req: UpdateSecretRequest): (o: Outcome<Secret>)
    ensures req.updateMask.None? ==> o == Outcome(Err(NilDereference), files)
    ensures req.updateMask.Some? && !MaskIsValid(req.updateMask.value.paths) ==>
      o == Outcome(Err(Status(InvalidArgument, InvalidMaskMessage)), files)
    ensures o.result.Err? ==> o.files == files
    ensures o.result.Ok? ==> req.secret.Some? && req.updateMask.Some? && MaskIsValid(req.updateMask.value.paths)
    ensures o.result.Ok? ==>
      var name := req.secret.value.name;
      var stored := ReadSecret(lib, root, files, name);
      stored.Ok? && o.result.value == stored.value.(labels := req.secret.value.labels) &&
      lib.secrets.marshal(o.result.value).Ok? &&
      o.files == files[SecretFilePath(root, name) := lib.secrets.marshal(o.result.value).value]
  {
    if req.updateMask.None? then Outcome(Err(NilDereference), files)
    else if !MaskIsValid(req.updateMask.value.paths) then
      Outcome(Err(Status(InvalidArgument, InvalidMaskMessage)), files)
    else if req.secret.None? then Outcome(Err(NilDereference), files)
    else
      var name := req.secret.value.name;
      match ReadSecret(lib, root, files, name)
      case Err(e) => Outcome(Err(e), files)
      case Ok(stored) =>
        StoreSecret(lib, unwritable, files, SecretFilePath(root, name),
                    stored.(labels := req.secret.value.labels))
  }

  /** Encode a secret and write it at `path`; the secret is the result. */
  function StoreSecret(lib: Libraries, unwritable: set<string>, files: Files, path: string,
                       secret: Secret): (o: Outcome<Secret>)
    ensures o.result.Ok? <==> lib.secrets.marshal(secret).Ok? && path !in unwritable
    ensures o.result.Err? ==> o.files == files
    ensures o.result.Ok? ==>
      o.result.value == secret && o.files == files[path := lib.secrets.marshal(secret).value]
  {
    match lib.secrets.marshal(secret)
    case Err(e) => Outcome(Err(e), files)
    case Ok(bytes) =>
      match Write(unwritable, files, path, bytes)
      case Err(e) => Outcome(Err(e), files)
      case Ok(written) => Outcome(Ok(secret), written)
  }

  /** A secret CreateSecret stored reads back as it was returned, under
      the name it was given. */
  lemma CreateThenGet(lib: Libraries, root: string, unwritable: set<string>, files: Files,
                      req: CreateSecretRequest, now: Timestamp)
    requires RoundTrips(lib.secrets) && '/' !in req.secretId
    requires CreateOutcome(lib, root, unwritable, files, req, now).result.Ok?
    ensures var o := CreateOutcome(lib, root, unwritable, files, req, now);
      ReadSecret(lib, root, o.files, SecretName(req.parent, req.secretId)) == o.result
  {
    var secret := CreatedSecret(req, now);
    CreatedFileIsSecretFile(root, req.parent, req.secretId);
    assert lib.secrets.unmarshal(lib.secrets.marshal(secret).value) == Ok(secret);
    assert secret.(name := SecretName(req.parent, req.secretId)) == secret;
  }

  /** After UpdateSecret succeeds, GetSecret returns the updated secret:
      the stored one with the request's labels. */
  lemma UpdateThenGet(lib: Libraries, root: string, unwritable: set<string>, files: Files,
                      req: UpdateSecretRequest)
    requires RoundTrips(lib.secrets)
    requires UpdateOutcome(lib, root, unwritable, files, req).result.Ok?
    ensures var o := UpdateOutcome(lib, root, unwritable, files, req);
      ReadSecret(lib, root, o.files, req.secret.value.name) == o.result
  {
    var o := UpdateOutcome(lib, root, unwritable, files, req);
    var updated := o.result.value;
    assert lib.secrets.unmarshal(lib.secrets.marshal(updated).value) == Ok(updated);
    assert updated.(name := req.secret.value.name) == updated;
  }

  // -------------------------------------------------------------- listing

  /** The file name of a path: what follows its last '/'. */
  function BaseName(path: string): (r: string)
    ensures '/' !in r
  {
    path[LastIndex(path, '/') + 1..]
  }

  /** The files the walk of ListSecrets hands to GetSecret: every file
      under the secrets directory whose name ends in ".json". */
  predicate WalkSelects(root: string, parent: string, path: string) {
    HasPrefix(path, SecretsDir(root, parent) + "/") && HasSuffix(BaseName(path), ".json")
  }

  function ListedPaths(root: string, parent: string, files: Files): set<string> {
    set path | path in files && WalkSelects(root, parent, path)
  }

  /** The name ListSecrets derives from a selected file: the file name
      without ".json", as a secret of the parent. */
  function ListedName(parent: string, path: string): string {
    SecretName(parent, TrimSuffix(BaseName(path), ".json"))
  }

  /** The read ListSecrets makes for a selected file. */
  function ListedRead(lib: Libraries, root: string, files: Files, parent: string, path: string): Result<Secret, Error> {
    ReadSecret(lib, root, files, ListedName(parent, path))
  }

  /** The selection ListSecrets evidently intends: only a secret's own
      metadata file, the one GetSecret reads for the name derived from it;
      a `versions.json` manifest or a payload file is not one. */
  predicate IsMetadataFile(root: string, parent: string, path: string) {
    WalkSelects(root, parent, path) && SecretFilePath(root, ListedName(parent, path)) == path
  }

  function MetadataPaths(root: string, parent: string, files: Files): set<string> {
    set path | path in files && IsMetadataFile(root, parent, path)
  }

  // ------------------------------------------------------------- versions

  /** getVersions: the decoded manifest, or a fresh one numbering from 1
      when the secret has none. */
  function LoadVersions(lib: Libraries, root: string, files: Files, secret: string): (r: Result<Versions, Error>)
    ensures ManifestPath(root, secret) !in files ==> r == Ok(Versions(1, map[]))
    ensures ManifestPath(root, secret) in files ==> r == lib.versions.unmarshal(files[ManifestPath(root, secret)])
  {
    var path := ManifestPath(root, secret);
    if path in files then lib.versions.unmarshal(files[path]) else Ok(Versions(1, map[]))
  }

  /** getVersions reads back what was written: once a manifest is stored
      with a codec that round-trips, loading gives that manifest. */
  lemma LoadVersionsReadsBack(lib: Libraries, root: string, files: Files, secret: string, m: Versions)
    requires RoundTrips(lib.versions)
    requires lib.versions.marshal(m).Ok?
    ensures LoadVersions(lib, root, files[ManifestPath(root, secret) := lib.versions.marshal(m).value], secret) == Ok(m)
  {
    assert lib.versions.unmarshal(lib.versions.marshal(m).value) == Ok(m);
  }

  /** The manifest addVersion encodes: the loaded `versions` itself, not the
      copy whose counter it incremented; the new version is in its map only
      when the copy shares that map. */
  function WrittenManifest(versions: Versions, version: Version, sharesMap: bool): (m: Versions)
    ensures m.next == versions.next
    ensures sharesMap ==> m.versions == versions.versions[version.number := version]
    ensures !sharesMap ==> m.versions == versions.versions
  {
    if sharesMap then versions.(versions := versions.versions[version.number := version]) else versions
  }

  /** The writes of addVersion once the version is named: the payload file
      in `dir`, then the encoded manifest beside it. An error writing the
      manifest is dropped. */
  function StoreVersion(lib: Libraries, unwritable: set<string>, files: Files, dir: string,
                        version: Version, payload: seq<byte>, manifest: Versions): (o: Outcome<Version>)
    ensures o.result.Ok? <==> dir + "/" + version.file !in unwritable && lib.versions.marshal(manifest).Ok?
    ensures o.result.Ok? ==> o.result.value == version
    ensures dir + "/" + version.file in unwritable ==>
      o == Outcome(Err(IOFailure(dir + "/" + version.file)), files)
    ensures dir + "/" + version.file !in unwritable && lib.versions.marshal(manifest).Err? ==>
      o == Outcome(Err(lib.versions.marshal(manifest).error), files[dir + "/" + version.file := payload])
    ensures o.result.Ok? && dir + "/versions.json" in unwritable ==>
      o.files == files[dir + "/" + version.file := payload]
    ensures o.result.Ok? && dir + "/versions.json" !in unwritable ==>
      o.files == files[dir + "/" + version.file := payload][dir + "/versions.json" := lib.versions.marshal(manifest).value]
  {
    match Write(unwritable, files, dir + "/" + version.file, payload)
    case Err(e) => Outcome(Err(e), files)
    case Ok(withPayload) =>
      match lib.versions.marshal(manifest)
      case Err(e) => Outcome(Err(e), withPayload)
      case Ok(bytes) =>
        match Write(unwritable, withPayload, dir + "/versions.json", bytes)
        case Err(_) => Outcome(Ok(version), withPayload)
        case Ok(written) => Outcome(Ok(version), written)
  }

  /** addVersion: name the payload file from the UUID source and number the
      version by the loaded counter, then store both. */
  function AddVersionOutcome(lib: Libraries, unwritable: set<string>, files: Files, versions: Versions,
                             dir: string, payload: seq<byte>, now: Timestamp,
                             uuid: Result<string, Error>): (o: Outcome<Version>)
    ensures uuid.Err? ==> o == Outcome(Err(uuid.error), files)
    ensures o.result.Ok? ==> uuid.Ok? && o.result.value == Version(uuid.value, versions.next, now.seconds)
    ensures o.result.Ok? && dir + "/versions.json" !in unwritable ==>
      var manifest := WrittenManifest(versions, o.result.value, lib.copierSharesMap);
      lib.versions.marshal(manifest).Ok? && dir + "/versions.json" in o.files &&
      o.files[dir + "/versions.json"] == lib.versions.marshal(manifest).value
  {
    match uuid
    case Err(e) => Outcome(Err(e), files)
    case Ok(fileName) =>
      var version := Version(fileName, versions.next, now.seconds);
      StoreVersion(lib, unwritable, files, dir, version, payload,
                   WrittenManifest(versions, version, lib.copierSharesMap))
  }

  /** "%s/versions/%d": the resource name of a version. */
  function VersionName(parent: string, number: int): string {
    parent + "/versions/" + IntToDecimal(number)
  }

  /** AddSecretVersion: load the manifest, add the version under the
      secret's directory, and name it by the loaded counter. A nil payload
      panics after the manifest is loaded and before anything is written. */
  function AddSecretVersionOutcome(lib: Libraries, root: string, unwritable: set<string>, files: Files,
                                   req: AddSecretVersionRequest, now: Timestamp,
                                   uuid: Result<string, Error>): (o: Outcome<SecretVersion>)
    ensures LoadVersions(lib, root, files, req.parent).Err? ==>
      o == Outcome(Err(LoadVersions(lib, root, files, req.parent).error), files)
    ensures LoadVersions(lib, root, files, req.parent).Ok? && req.payload.None? ==>
      o == Outcome(Err(NilDereference), files)
    ensures o.result.Ok? ==>
      LoadVersions(lib, root, files, req.parent).Ok? &&
      o.result.value == SecretVersion(VersionName(req.parent, LoadVersions(lib, root, files, req.parent).value.next),
                                      Timestamp(now.seconds, 0))
    ensures o.result.Ok? && ManifestPath(root, req.parent) !in unwritable ==>
      LoadVersions(lib, root, files, req.parent).Ok? && uuid.Ok? &&
      var versions := LoadVersions(lib, root, files, req.parent).value;
      var manifest := WrittenManifest(versions, Version(uuid.value, versions.next, now.seconds), lib.copierSharesMap);
      lib.versions.marshal(manifest).Ok? && ManifestPath(root, req.parent) in o.files &&
      o.files[ManifestPath(root, req.parent)] == lib.versions.marshal(manifest).value
  {
    match LoadVersions(lib, root, files, req.parent)
    case Err(e) => Outcome(Err(e), files)
    case Ok(versions) =>
      if req.payload.None? then Outcome(Err(NilDereference), files)
      else
        var dir := root + "/" + req.parent;
        assert dir + "/versions.json" == ManifestPath(root, req.parent);
        var added := AddVersionOutcome(lib, unwritable, files, versions, dir, req.payload.value.data, now, uuid);
        match added.result
        case Err(e) => Outcome(Err(e), added.files)
        case Ok(version) =>
          Outcome(Ok(SecretVersion(VersionName(req.parent, versions.next), Timestamp(version.createTime, 0))),
                  added.files)
  }

  // --------------------------------------------------------- unimplemented

  /** The RPCs of the service this engine does not implement. */
  datatype UnimplementedRpc =
    | DeleteSecret | ListSecretVersions | GetSecretVersion | AccessSecretVersion
    | DisableSecretVersion | EnableSecretVersion | DestroySecretVersion
    | SetIamPolicy | GetIamPolicy | TestIamPermissions

  function RpcName(m: UnimplementedRpc): string {
    match m
    case DeleteSecret => "DeleteSecret"
    case ListSecretVersions => "ListSecretVersions"
    case GetSecretVersion => "GetSecretVersion"
    case AccessSecretVersion => "AccessSecretVersion"
    case DisableSecretVersion => "DisableSecretVersion"
    case EnableSecretVersion => "EnableSecretVersion"
    case DestroySecretVersion => "DestroySecretVersion"
    case SetIamPolicy => "SetIamPolicy"
    case GetIamPolicy => "GetIamPolicy"
    case TestIamPermissions => "TestIamPermissions"
  }

  /** Each unimplemented RPC answers with an Unimplemented status naming
      itself, never with a result. */
  function NotImplemented(m: UnimplementedRpc): (e: Error)
    ensures CodeOf(e) == Some(Unimplemented)
    ensures e.desc == "method " + RpcName(m) + " not implemented"
  {
    Status(Unimplemented, "method " + RpcName(m) + " not implemented")
  }

  // ------------------------------------------------------------ the state

  /** The afero file system: its files change; which paths it refuses to
      write is fixed. */
  class FileSystem {
    var files: Files
    const unwritable: set<string>

    constructor (files: Files, unwritable: set<string>)
      ensures this.files == files && this.unwritable == unwritable
    {
      this.files := files;
      this.unwritable := unwritable;
    }

    /** afero.WriteFile: create or truncate `path` and write `data`. */
    method WriteFile(path: string, data: seq<byte>) returns (err: Option<Error>)
      modifies this
      ensures path in unwritable ==> err == Some(IOFailure(path)) && files == old(files)
      ensures path !in unwritable ==> err == None && files == old(files)[path := data]
    {
      if path in unwritable {
        return Some(IOFailure(path));
      }
      files := files[path := data];
      return None;
    }

    /** afero.ReadFile. */
    method ReadFile(path: string) returns (r: Result<seq<byte>, Error>)
      ensures path in files ==> r == Ok(files[path])
      ensures path !in files ==> r == Err(FileNotFound(path))
    {
      if path !in files {
        return Err(FileNotFound(path));
      }
      return Ok(files[path]);
    }
  }

  /** filepath.Walk with the ListSecrets callback, over the files it
      selects: `read(path)` is the callback's GetSecret of the name derived
      from the file, and the first failing read ends the walk with its error.
      The walk's lexical order is not modelled: files are visited in an
      arbitrary order, and nothing stated depends on it. */
  method WalkRead(paths: set<string>, read: string -> Result<Secret, Error>) returns (r: Result<seq<Secret>, Error>)
    ensures r.Ok? <==> forall p :: p in paths ==> read(p).Ok?
    ensures r.Err? ==> exists p :: p in paths && read(p) == Err(r.error)
    ensures r.Ok? ==> |r.value| == |paths|
    ensures r.Ok? ==> forall p :: p in paths ==> read(p).value in r.value
    ensures r.Ok? ==> forall k :: 0 <= k < |r.value| ==> exists p :: p in paths && read(p) == Ok(r.value[k])
  {
    var secrets: seq<Secret> := [];
    var rest := paths;
    ghost var order: seq<string> := [];
    while rest != {}
      invariant rest <= paths
      invariant |order| == |secrets| && |secrets| + |rest| == |paths|
      invariant forall k :: 0 <= k < |order| ==> order[k] in paths && read(order[k]) == Ok(secrets[k])
      invariant forall p :: p in paths && p !in rest ==> read(p).Ok? && read(p).value in secrets
      decreases |rest|
    {
      var path :| path in rest;
      var secret := read(path);
      if secret.Err? {
        return Err(secret.error);
      }
      secrets := secrets + [secret.value];
      order := order + [path];
      rest := rest - {path};
    }
    forall k | 0 <= k < |secrets|
      ensures exists p :: p in paths && read(p) == Ok(secrets[k])
    {
      assert order[k] in paths;
    }
    return Ok(secrets);
  }

  /** SecretManager: the data root and the file system it stores under. */
  class SecretManager {
    const dataRootDir: string
    const fs: FileSystem
    const lib: Libraries

    constructor (dataRootDir: string, fs: FileSystem, lib: Libraries)
      ensures this.dataRootDir == dataRootDir && this.fs == fs && this.lib == lib
    {
      this.dataRootDir := dataRootDir;
      this.fs := fs;
      this.lib := lib;
    }

    /** CreateSecret, with the clock's reading passed in. */
    method CreateSecret(req: CreateSecretRequest, now: Timestamp) returns (r: Result<Secret, Error>)
      modifies fs
      ensures var o := CreateOutcome(lib, dataRootDir, fs.unwritable, old(fs.files), req, now);
        r == o.result && fs.files == o.files
    {
      var secret := CreatedSecret(req, now);
      var bytes := lib.secrets.marshal(secret);
      if bytes.Err? {
        return Err(bytes.error);
      }
      var filePath := CreatedFilePath(dataRootDir, req.parent, req.secretId);
      var err := fs.WriteFile(filePath, bytes.value);
      if err.Some? {
        return Err(err.value);
      }
      return Ok(secret);
    }

    /** GetSecret. */
    method GetSecret(req: GetSecretRequest) returns (r: Result<Secret, Error>)
      ensures r == ReadSecret(lib, dataRootDir, fs.files, req.name)
    {
      var bytes := fs.ReadFile(SecretFilePath(dataRootDir, req.name));
      if bytes.Err? {
        return Err(bytes.error);
      }
      var secret := lib.secrets.unmarshal(bytes.value);
      if secret.Err? {
        return Err(secret.error);
      }
      return Ok(secret.value.(name := req.name));
    }

    /** ListSecrets: walk the selected files of the parent's secrets
      directory. */
    method ListSecrets(req: ListSecretsRequest) returns (r: Result<ListSecretsResponse, Error>)
      ensures var paths := ListedPaths(dataRootDir, req.parent, fs.files);
        r.Ok? <==> forall p :: p in paths ==> ListedRead(lib, dataRootDir, fs.files, req.parent, p).Ok?
      ensures r.Err? ==>
        exists p :: p in ListedPaths(dataRootDir, req.parent, fs.files) &&
          ListedRead(lib, dataRootDir, fs.files, req.parent, p) == Err(r.error)
      ensures r.Ok? ==> |r.value.secrets| == |ListedPaths(dataRootDir, req.parent, fs.files)|
      ensures r.Ok? ==> forall p :: p in ListedPaths(dataRootDir, req.parent, fs.files) ==>
        ListedRead(lib, dataRootDir, fs.files, req.parent, p).value in r.value.secrets
      ensures r.Ok? ==> forall k :: 0 <= k < |r.value.secrets| ==>
        exists p :: p in ListedPaths(dataRootDir, req.parent, fs.files) &&
          ListedRead(lib, dataRootDir, fs.files, req.parent, p) == Ok(r.value.secrets[k])
    {
      var files := fs.files;
      var secrets := WalkRead(ListedPaths(dataRootDir, req.parent, files),
                              path => ListedRead(lib, dataRootDir, files, req.parent, path));
      if secrets.Err? {
        return Err(secrets.error);
      }
      return Ok(ListSecretsResponse(secrets.value));
    }

    /** ListSecrets with the intended selection: the walk reads only
      metadata files, so it fails only on a stored secret that does not
      decode. */
    method ListSecretsCorrected(req: ListSecretsRequest) returns (r: Result<ListSecretsResponse, Error>)
      ensures var paths := MetadataPaths(dataRootDir, req.parent, fs.files);
        r.Ok? <==> forall p :: p in paths ==> lib.secrets.unmarshal(fs.files[p]).Ok?
      ensures r.Err? ==>
        exists p :: p in MetadataPaths(dataRootDir, req.parent, fs.files) &&
          lib.secrets.unmarshal(fs.files[p]) == Err(r.error)
      ensures r.Ok? ==> |r.value.secrets| == |MetadataPaths(dataRootDir, req.parent, fs.files)|
      ensures r.Ok? ==> forall p :: p in MetadataPaths(dataRootDir, req.parent, fs.files) ==>
        ListedRead(lib, dataRootDir, fs.files, req.parent, p).value in r.value.secrets
      ensures r.Ok? ==> forall k :: 0 <= k < |r.value.secrets| ==>
        exists p :: p in MetadataPaths(dataRootDir, req.parent, fs.files) &&
          ListedRead(lib, dataRootDir, fs.files, req.parent, p) == Ok(r.value.secrets[k])
    {
      var files := fs.files;
      var secrets := WalkRead(MetadataPaths(dataRootDir, req.parent, files),
                              path => ListedRead(lib, dataRootDir, files, req.parent, path));
      if secrets.Err? {
        return Err(secrets.error);
      }
      return Ok(ListSecretsResponse(secrets.value));
    }

    /** UpdateSecret. */
    method UpdateSecret(req: UpdateSecretRequest) returns (r: Result<Secret, Error>)
      modifies fs
      ensures var o := UpdateOutcome(lib, dataRootDir, fs.unwritable, old(fs.files), req);
        r == o.result && fs.files == o.files
    {
      var err := ValidateUpdateMask(req.updateMask);
      if err.Some? {
        return Err(err.value);
      }
      if req.secret.None? {
        return Err(NilDereference);
      }
      var name := req.secret.value.name;
      var stored := GetSecret(GetSecretRequest(name));
      if stored.Err? {
        return Err(stored.error);
      }
      var updated := stored.value.(labels := req.secret.value.labels);
      var bytes := lib.secrets.marshal(updated);
      if bytes.Err? {
        return Err(bytes.error);
      }
      err := fs.WriteFile(SecretFilePath(dataRootDir, name), bytes.value);
      if err.Some? {
        return Err(err.value);
      }
      return Ok(updated);
    }

    /** getVersions. */
    method GetVersions(secret: string) returns (r: Result<Versions, Error>)
      ensures r == LoadVersions(lib, dataRootDir, fs.files, secret)
    {
      var path := ManifestPath(dataRootDir, secret);
      if path !in fs.files {
        return Ok(Versions(1, map[]));
      }
      var bytes := fs.ReadFile(path);
      return lib.versions.unmarshal(bytes.value);
    }

    /** addVersion, with the UUID source's result and the clock's reading
      passed in. The copy's counter is incremented, but the original is
      what gets encoded. */
    method AddVersion(versions: Versions, versionsDirectory: string, payload: seq<byte>,
                      now: Timestamp, uuid: Result<string, Error>) returns (r: Result<Version, Error>)
      modifies fs
      ensures var o := AddVersionOutcome(lib, fs.unwritable, old(fs.files), versions, versionsDirectory,
                                         payload, now, uuid);
        r == o.result && fs.files == o.files
    {
      var versionsCopy := versions;
      var original := versions;
      if uuid.Err? {
        return Err(uuid.error);
      }
      var fileName := uuid.value;
      var version := Version(fileName, versionsCopy.next, now.seconds);
      versionsCopy := versionsCopy.(versions := versionsCopy.versions[version.number := version]);
      if lib.copierSharesMap {
        original := original.(versions := versionsCopy.versions);
      }
      var err := fs.WriteFile(versionsDirectory + "/" + fileName, payload);
      if err.Some? {
        return Err(err.value);
      }
      versionsCopy := versionsCopy.(next := versionsCopy.next + 1);
      var versionsBytes := lib.versions.marshal(original);
      if versionsBytes.Err? {
        return Err(versionsBytes.error);
      }
      err := fs.WriteFile(versionsDirectory + "/versions.json", versionsBytes.value);
      return Ok(version);
    }

    /** AddSecretVersion. */
    method AddSecretVersion(req: AddSecretVersionRequest, now: Timestamp, uuid: Result<string, Error>)
      returns (r: Result<SecretVersion, Error>)
      modifies fs
      ensures var o := AddSecretVersionOutcome(lib, dataRootDir, fs.unwritable, old(fs.files), req, now, uuid);
        r == o.result && fs.files == o.files
    {
      var versions := GetVersions(req.parent);
      if versions.Err? {
        return Err(versions.error);
      }
      if req.payload.None? {
        return Err(NilDereference);
      }
      var version := AddVersion(versions.value, dataRootDir + "/" + req.parent, req.payload.value.data, now, uuid);
      if version.Err? {
        return Err(version.error);
      }
      return Ok(SecretVersion(VersionName(req.parent, versions.value.next),
                              Timestamp(version.value.createTime, 0)));
    }
  }
}
