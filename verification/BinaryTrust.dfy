/** Trust records of managed executables: two builders, the file between them and the verifier. */
module BinaryTrust {
  import opened Prelude
  import opened Digest
  import opened Json
  import JsonParser
  import PyText
  import ResourceManifest

  // ----- The tool catalogue -----

  /** The `build_toolchain_sha256` entry: missing, one digest a platform, or anything that is no dictionary. */
  datatype Toolchains = Missing | PerPlatform(digests: map<string, string>) | NotADict

  datatype Tool = Tool(
    version: string, allowedModes: Option<set<string>>, trustMode: Option<string>,
    checksums: map<string, string>, assets: map<string, string>,
    toolchains: Toolchains, buildToolchain: Option<string>,
    sourceCommit: Option<string>, sourceRevision: Option<string>)

  type Catalogue = map<string, Tool>

  function Lookup(m: map<string, string>, k: string): Option<string> {
    if k in m then Some(m[k]) else None
  }

  predicate Truthy(s: Option<string>) { s.Some? && s.value != "" }

  const DIRECT := "DIRECT_ARTIFACT_MODE"
  const SOURCE := "SOURCE_BUILD_MODE"

  /** `_is_trust_mode_authorized` */
  predicate Authorized(t: Tool, mode: string) {
    if t.allowedModes.Some? then mode in t.allowedModes.value
    else if t.trustMode.Some? then t.trustMode.value == mode
    else mode == DIRECT
  }

  // ----- The machine -----

  datatype Machine = Machine(platform: string, architecture: string) {
    function Key(): string { platform + "_" + architecture }
  }

  /** A file of the managed directory: whether it is regular and no symlink, whether it is executable, its bytes. */
  datatype Managed = Managed(regular: bool, executable: bool, bytes: seq<Byte>)

  /** The record beside an executable. Its text is ASCII, so its length is its size. */
  datatype RecordFile = RecordFile(regular: bool, text: string)

  datatype Disk = Disk(
    managedIsSymlink: bool, files: map<string, Managed>, records: map<string, RecordFile>,
    resources: ResourceManifest.Node)

  /** An absolute path: whether its parent is the managed directory, and its last component. */
  datatype Location = Location(inManagedDir: bool, name: string)

  predicate ExecutableOf(disk: Disk, tool: string, at: Location) {
    && !disk.managedIsSymlink
    && at.inManagedDir && (at.name == tool || at.name == tool + ".exe")
    && at.name in disk.files && disk.files[at.name].regular && disk.files[at.name].executable
  }

  // ----- Records -----

  datatype Field =
    | ToolId | ToolVersion | ArtifactFilename | ArtifactSha256 | ExecutablePath | ExecutableSha256
    | Platform | Architecture | InstallerVersion | TrustStatus | Claims | ResourceTree
    | BuildToolchain | BuildToolchainSha256 | UpstreamProvenance | SourceCommit | SourceRevision
  {
    function Name(): string {
      match this
      case ToolId => "tool_id"
      case ToolVersion => "tool_version"
      case ArtifactFilename => "artifact_filename"
      case ArtifactSha256 => "artifact_sha256"
      case ExecutablePath => "executable_relative_path"
      case ExecutableSha256 => "executable_sha256"
      case Platform => "platform"
      case Architecture => "architecture"
      case InstallerVersion => "installer_version"
      case TrustStatus => "trust_status"
      case Claims => "claims"
      case ResourceTree => "resource_manifest"
      case BuildToolchain => "build_toolchain"
      case BuildToolchainSha256 => "build_toolchain_sha256"
      case UpstreamProvenance => "upstream_provenance_verified"
      case SourceCommit => "source_commit"
      case SourceRevision => "source_revision"
    }
  }

  type Record = map<Field, Json>

  lemma NamesDiffer(f: Field, g: Field)
    requires f.Name() == g.Name()
    ensures f == g
  {
    // names of one length differ in an early letter
    assert "artifact_sha256"[0] != "build_toolchain"[0] && "build_toolchain"[0] != "source_revision"[0];
    assert "artifact_sha256"[0] != "source_revision"[0];
    assert "tool_version"[0] == 't' && "architecture"[0] == 'a' && "trust_status"[1] == 'r';
    assert "tool_version"[1] == 'o';
    assert "executable_sha256"[0] == 'e' && "artifact_filename"[0] == 'a';
    assert "installer_version"[0] == 'i' && "resource_manifest"[0] == 'r';
  }

  function FieldKey(f: Field): Text { Runes(f.Name()) }

  lemma FieldKeysDiffer()
    ensures forall f: Field, g: Field {:trigger FieldKey(f), FieldKey(g)} :: FieldKey(f) == FieldKey(g) ==> f == g
  {
    forall f: Field, g: Field {:trigger FieldKey(f), FieldKey(g)} | FieldKey(f) == FieldKey(g) ensures f == g {
      RunesInjective(f.Name(), g.Name());
      NamesDiffer(f, g);
    }
  }

  /** The record as the dictionary that is printed. */
  function AsFields(r: Record): map<Text, Json> {
    FieldKeysDiffer();
    map f | f in r :: FieldKey(f) := r[f]
  }

  /** `record.get(field)` */
  function Get(fields: map<Text, Json>, f: Field): Json {
    if FieldKey(f) in fields then fields[FieldKey(f)] else Null
  }

  function S(s: string): Json { Str(Runes(s)) }

  function OptionalJson(s: Option<string>): Json {
    if s.Some? then S(s.value) else Null
  }

  function Listed(names: seq<string>): (v: Json)
    ensures v.List? && |v.items| == |names| && forall i :: 0 <= i < |names| ==> v.items[i] == S(names[i])
  {
    List(seq(|names|, i requires 0 <= i < |names| => S(names[i])))
  }

  const ARCHIVE := "ARCHIVE_INTEGRITY_VERIFIED"
  const EXECUTABLE := "EXECUTABLE_INTEGRITY_VERIFIED"
  const SOURCE_ARCHIVE := "SOURCE_ARCHIVE_INTEGRITY_VERIFIED"
  const TOOLCHAIN := "BUILD_TOOLCHAIN_INTEGRITY_VERIFIED"
  const RESOURCES := "RESOURCE_TREE_INTEGRITY_VERIFIED"

  function ManifestJson(m: ResourceManifest.Manifest): Json {
    Obj(map k | k in m :: S(m[k]))
  }

  // ----- Versions -----

  function DropVs(s: string): (t: string)
    ensures |t| <= |s|
  {
    if s != "" && s[0] == 'v' then DropVs(s[1..]) else s
  }

  /** `_normalized_version` of a string */
  function Normalized(s: string): string {
    DropVs(PyText.Strip(s))
  }

  /** `str(value or "")`; `None` for a nonempty list or dictionary, whose text is never a version or a digest. */
  function PyStr(v: Json): Option<string> {
    match v
    case Null => Some("")
    case Bool(b) => Some(if b then "True" else "")
    case Int(n) => Some(if n == 0 then "" else PrintInt(n))
    case Str(t) => if AllScalar(t) then Some(Chars(t)) else None
    case List(items) => if items == [] then Some("") else None
    case Obj(fields) => if fields == map[] then Some("") else None
  }

  predicate BlankText(t: Text) {
    forall i | 0 <= i < |t| :: PyText.IsSpaceRune(t[i])
  }

  // ----- The builders -----

  /** What both builders put into a record. */
  function CommonRecord(h: Hash, tool: string, t: Tool, machine: Machine, bytes: seq<Byte>, name: string,
                        filename: string, sha: string, installerVersion: string, claims: seq<string>): Record {
    map[ToolId := S("TOOL-" + PyText.Upper(tool)), ToolVersion := S("v" + t.version),
        ArtifactFilename := S(filename), ArtifactSha256 := S(sha),
        ExecutablePath := S(name), ExecutableSha256 := S(h(bytes)),
        Platform := S(machine.platform), Architecture := S(machine.architecture),
        InstallerVersion := S(installerVersion), TrustStatus := S("VALID"), Claims := Listed(claims)]
  }

  /** `build_direct_artifact_trust_record`; `None` where it raises. */
  function BuildDirect(h: Hash, catalogue: Catalogue, tool: string, machine: Machine, disk: Disk, at: Location,
                       installerVersion: string, resources: Option<ResourceManifest.Manifest>): Option<Record> {
    if tool !in catalogue || !Authorized(catalogue[tool], DIRECT) || !ExecutableOf(disk, tool, at) then None
    else
      var t := catalogue[tool];
      var sha, asset := Lookup(t.checksums, machine.Key()), Lookup(t.assets, machine.Key());
      if !Truthy(sha) || !Truthy(asset) then None
      else
        var claims := [ARCHIVE, EXECUTABLE] + if resources.Some? then [RESOURCES] else [];
        var r := CommonRecord(h, tool, t, machine, disk.files[at.name].bytes, at.name, asset.value, sha.value,
                              installerVersion, claims);
        Some(if resources.Some? then r[ResourceTree := ManifestJson(resources.value)] else r)
  }

  function SourceIdentity(t: Tool): Option<string> {
    if t.sourceCommit.Some? then t.sourceCommit else t.sourceRevision
  }

  /** The toolchain digest a builder compares with: a missing entry counts as an empty dictionary. */
  function BuilderToolchain(t: Tool, machine: Machine): Option<string> {
    match t.toolchains
    case Missing => None
    case PerPlatform(m) => Lookup(m, machine.Key())
    case NotADict => Lookup(t.checksums, "go_" + machine.Key())
  }

  /** The toolchain digest the verifier compares with: a missing entry counts as no dictionary. */
  function VerifierToolchain(t: Tool, machine: Machine): Option<string> {
    match t.toolchains
    case PerPlatform(m) => Lookup(m, machine.Key())
    case _ => Lookup(t.checksums, "go_" + machine.Key())
  }

  /** `build_source_artifact_trust_record`; `None` where it raises. */
  function BuildSource(h: Hash, catalogue: Catalogue, tool: string, machine: Machine, disk: Disk, at: Location,
                       identity: string, toolchainSha: string, installerVersion: string): Option<Record> {
    if tool !in catalogue || !Authorized(catalogue[tool], SOURCE) || SourceIdentity(catalogue[tool]).None?
       || !ExecutableOf(disk, tool, at) then None
    else
      var t := catalogue[tool];
      var sha, name := Lookup(t.checksums, "source_archive"), Lookup(t.assets, "source_archive");
      if Some(identity) != SourceIdentity(t) || !Truthy(sha) || !Truthy(name)
         || Some(toolchainSha) != BuilderToolchain(t, machine) || t.buildToolchain.None? then None
      else
        var r := CommonRecord(h, tool, t, machine, disk.files[at.name].bytes, at.name, name.value, sha.value,
                              installerVersion, [SOURCE_ARCHIVE, TOOLCHAIN, EXECUTABLE]);
        Some(r[BuildToolchain := S(t.buildToolchain.value)][BuildToolchainSha256 := S(toolchainSha)]
              [UpstreamProvenance := Bool(false)]
              [(if t.sourceCommit.Some? then SourceCommit else SourceRevision) := S(identity)])
  }

  const SPACED := Style(true, true)

  function RecordText(r: Record): string {
    Print(Obj(AsFields(r)), SPACED)
  }

  /** The atomic replacement of the record file. */
  function Written(disk: Disk, at: Location, r: Record): Disk {
    disk.(records := disk.records[at.name := RecordFile(true, RecordText(r))])
  }

  // ----- The verifier -----

  const MAX_RECORD := 1024 * 1024

  predicate Claimed(claims: seq<Json>, name: string) { S(name) in claims }

  /** `_validate_common_record` */
  predicate CommonValid(h: Hash, fields: map<Text, Json>, tool: string, name: string, bytes: seq<Byte>,
                        expected: string, machine: Machine) {
    && (forall f | f in {ToolId, ToolVersion, ExecutablePath, ExecutableSha256, Platform, Architecture,
                         InstallerVersion, TrustStatus, Claims} :: FieldKey(f) in fields)
    && Get(fields, ToolId) == S("TOOL-" + PyText.Upper(tool))
    && PyStr(Get(fields, ToolVersion)).Some?
    && Normalized(PyStr(Get(fields, ToolVersion)).value) == Normalized(expected)
    && Get(fields, ExecutablePath) == S(name)
    && Get(fields, Platform) == S(machine.platform)
    && Get(fields, Architecture) == S(machine.architecture)
    && Get(fields, InstallerVersion).Str? && !BlankText(Get(fields, InstallerVersion).text)
    && Get(fields, TrustStatus) == S("VALID")
    && Get(fields, Claims).List? && Claimed(Get(fields, Claims).items, EXECUTABLE)
    && PyStr(Get(fields, ExecutableSha256)).Some?
    && var sha := PyText.Lower(PyStr(Get(fields, ExecutableSha256)).value);
    && IsDigest(sha) && sha == h(bytes)
  }

  predicate SourceValid(fields: map<Text, Json>, claims: seq<Json>, t: Tool, machine: Machine) {
    && Claimed(claims, TOOLCHAIN)
    && Get(fields, ArtifactFilename) == OptionalJson(Lookup(t.assets, "source_archive"))
    && Get(fields, ArtifactSha256) == OptionalJson(Lookup(t.checksums, "source_archive"))
    && (if FieldKey(SourceCommit) in fields then Get(fields, SourceCommit) else Get(fields, SourceRevision))
       == OptionalJson(SourceIdentity(t))
    && Get(fields, BuildToolchain) == OptionalJson(t.buildToolchain)
    && Truthy(VerifierToolchain(t, machine))
    && Get(fields, BuildToolchainSha256) == OptionalJson(VerifierToolchain(t, machine))
    && Get(fields, UpstreamProvenance) != Bool(true)
  }

  predicate DirectValid(fields: map<Text, Json>, claims: seq<Json>, t: Tool, machine: Machine) {
    var sha, asset := Lookup(t.checksums, machine.Key()), Lookup(t.assets, machine.Key());
    && Claimed(claims, ARCHIVE) && Truthy(sha) && Truthy(asset)
    && Get(fields, ArtifactSha256) == OptionalJson(sha) && Get(fields, ArtifactFilename) == OptionalJson(asset)
  }

  /** Whether a stored manifest is the one that the resource tree, listed in some order, has now. */
  predicate ResourcesValid(h: Hash, stored: Json, disk: Disk, listing: seq<ResourceManifest.Entry>) {
    var actual := ResourceManifest.Scan(h, listing);
    && stored.Obj? && actual.Some? && stored == ManifestJson(actual.value)
    && ResourceManifest.Verifies(h, disk.resources, listing, actual.value)
  }

  /** The version that a record must show: the one the caller asks for, or else that of the catalogue. */
  function ExpectedVersion(t: Tool, asked: Option<string>): string {
    if Truthy(asked) then asked.value else t.version
  }

  /** `verify_managed_binary_artifact`; `listing` is the order in which the resource tree is listed. */
  predicate Verify(h: Hash, catalogue: Catalogue, tool: string, machine: Machine, disk: Disk, at: Location,
                   expectedVersion: Option<string>, listing: seq<ResourceManifest.Entry>) {
    && tool in catalogue
    && var t := catalogue[tool];
    && var expected := ExpectedVersion(t, expectedVersion);
    && expected != ""
    && ExecutableOf(disk, tool, at)
    && at.name in disk.records && disk.records[at.name].regular && |disk.records[at.name].text| <= MAX_RECORD
    && var parsed := JsonParser.Parse(JsonParser.KeepLast, disk.records[at.name].text);
    && parsed.Some? && parsed.value.Obj?
    && var fields := parsed.value.fields;
    && CommonValid(h, fields, tool, at.name, disk.files[at.name].bytes, expected, machine)
    && var claims := Get(fields, Claims).items;
    && (forall c | c in claims :: !c.List? && !c.Obj?)
    && (if Claimed(claims, SOURCE_ARCHIVE)
        then Authorized(t, SOURCE) && SourceValid(fields, claims, t, machine)
        else Authorized(t, DIRECT) && DirectValid(fields, claims, t, machine))
    && (Get(fields, ResourceTree) == Null
        || (Claimed(claims, RESOURCES) && ResourcesValid(h, Get(fields, ResourceTree), disk, listing)))
  }
}
