/** What an accepted trust record says, wherever it comes from, and that no word of a built one can be changed. */
module TrustAcceptance {
  import opened Prelude
  import opened Digest
  import opened Json
  import opened BinaryTrust
  import opened BinaryTrustLaws
  import Decimal
  import JsonParser
  import JsonRoundTrip
  import PyText
  import ResourceManifest

  // ----- What acceptance means -----

  /** What the verifier reads from the record file. */
  function Stored(disk: Disk, at: Location): map<Text, Json>
    requires at.name in disk.records
    requires var parsed := JsonParser.Parse(JsonParser.KeepLast, disk.records[at.name].text);
      parsed.Some? && parsed.value.Obj?
  {
    JsonParser.Parse(JsonParser.KeepLast, disk.records[at.name].text).value.fields
  }

  ghost predicate Holds(fields: map<Text, Json>, name: string, value: string) {
    Runes(name) in fields && fields[Runes(name)] == Str(Runes(value))
  }

  ghost predicate Claims(fields: map<Text, Json>, claim: string) {
    && Runes("claims") in fields && fields[Runes("claims")].List?
    && Str(Runes(claim)) in fields[Runes("claims")].items
  }

  /** The field holds the entry, or is missing or null where the catalogue has none. */
  ghost predicate HoldsEntry(fields: map<Text, Json>, name: string, entry: Option<string>) {
    if entry.Some? then Holds(fields, name, entry.value)
    else Runes(name) !in fields || fields[Runes(name)] == Null
  }

  /** The mode is one the catalogue lists or, without a list, the one it names or else the direct one. */
  ghost predicate Authorizes(t: Tool, mode: string) {
    match t.allowedModes
    case Some(modes) => mode in modes
    case None => mode == if t.trustMode.Some? then t.trustMode.value else "DIRECT_ARTIFACT_MODE"
  }

  /** The text that stands for a value where a version or a digest is expected. */
  lemma PyStrExactly(v: Json, s: string)
    ensures PyStr(v) == Some(s) <==>
      || (s == "" && (v == Null || v == Bool(false) || v == Int(0) || v == List([]) || v == Obj(map[])))
      || (s == "True" && v == Bool(true))
      || (v.Int? && v.n > 0 && s == Decimal.Numeral(v.n))
      || (v.Int? && v.n < 0 && s == "-" + Decimal.Numeral(-v.n))
      || v == Str(Runes(s))
  {
    if v.Str? && AllScalar(v.text) && v.text == Runes(s) {
      RunesInjective(Chars(v.text), s);
    }
  }

  /** The place, the files and the sizes that are accepted. */
  ghost predicate InPlace(disk: Disk, tool: string, at: Location) {
    && !disk.managedIsSymlink && at.inManagedDir && (at.name == tool || at.name == tool + ".exe")
    && at.name in disk.files && disk.files[at.name].regular && disk.files[at.name].executable
    && at.name in disk.records && disk.records[at.name].regular && |disk.records[at.name].text| <= 1048576
  }

  /** This tool, machine and executable, and the version that is expected. */
  ghost predicate ShowsIdentity(h: Hash, fields: map<Text, Json>, tool: string, machine: Machine, name: string,
                                bytes: seq<Byte>, expected: string) {
    && Holds(fields, "trust_status", "VALID") && Holds(fields, "tool_id", "TOOL-" + PyText.Upper(tool))
    && Holds(fields, "platform", machine.platform) && Holds(fields, "architecture", machine.architecture)
    && Holds(fields, "executable_relative_path", name) && Claims(fields, "EXECUTABLE_INTEGRITY_VERIFIED")
    && Runes("installer_version") in fields && fields[Runes("installer_version")].Str?
    && (exists r :: r in fields[Runes("installer_version")].text && !PyText.IsSpaceRune(r))
    && Runes("tool_version") in fields && PyStr(fields[Runes("tool_version")]).Some?
    && Normalized(PyStr(fields[Runes("tool_version")]).value) == Normalized(expected)
    && Runes("executable_sha256") in fields && PyStr(fields[Runes("executable_sha256")]).Some?
    && PyText.Lower(PyStr(fields[Runes("executable_sha256")]).value) == h(bytes)
  }

  /** What the catalogue says of the source archive, its toolchain and its revision. */
  ghost predicate ShowsSource(fields: map<Text, Json>, t: Tool, machine: Machine) {
    && Claims(fields, "BUILD_TOOLCHAIN_INTEGRITY_VERIFIED")
    && HoldsEntry(fields, "artifact_filename", Lookup(t.assets, "source_archive"))
    && HoldsEntry(fields, "artifact_sha256", Lookup(t.checksums, "source_archive"))
    && HoldsEntry(fields, if Runes("source_commit") in fields then "source_commit" else "source_revision",
                  if t.sourceCommit.Some? then t.sourceCommit else t.sourceRevision)
    && HoldsEntry(fields, "build_toolchain", t.buildToolchain)
    && ToolchainDigest(t, machine) != "" && Holds(fields, "build_toolchain_sha256", ToolchainDigest(t, machine))
    && !(Runes("upstream_provenance_verified") in fields
         && fields[Runes("upstream_provenance_verified")] == Bool(true))
  }

  /** The digest of the toolchain for this machine, or the empty text. */
  ghost function ToolchainDigest(t: Tool, machine: Machine): string {
    var key := machine.platform + "_" + machine.architecture;
    if t.toolchains.PerPlatform? then (if key in t.toolchains.digests then t.toolchains.digests[key] else "")
    else if "go_" + key in t.checksums then t.checksums["go_" + key]
    else ""
  }

  /** What the catalogue says of the release archive for this machine. */
  ghost predicate ShowsRelease(fields: map<Text, Json>, t: Tool, machine: Machine) {
    var key := machine.platform + "_" + machine.architecture;
    && Claims(fields, "ARCHIVE_INTEGRITY_VERIFIED")
    && key in t.checksums && t.checksums[key] != "" && Holds(fields, "artifact_sha256", t.checksums[key])
    && key in t.assets && t.assets[key] != "" && Holds(fields, "artifact_filename", t.assets[key])
  }

  /** The mode follows from the claims, is authorised, and the artifact is that of the mode. */
  ghost predicate ShowsArtifact(fields: map<Text, Json>, t: Tool, machine: Machine) {
    if Claims(fields, "SOURCE_ARCHIVE_INTEGRITY_VERIFIED")
    then Authorizes(t, "SOURCE_BUILD_MODE") && ShowsSource(fields, t, machine)
    else Authorizes(t, "DIRECT_ARTIFACT_MODE") && ShowsRelease(fields, t, machine)
  }

  /** An embedded manifest is claimed, and is the one of the resource tree as it is now. */
  ghost predicate ShowsResources(h: Hash, fields: map<Text, Json>, disk: Disk) {
    var key := Runes("resource_manifest");
    key in fields && fields[key] != Null ==>
      && Claims(fields, "RESOURCE_TREE_INTEGRITY_VERIFIED")
      && ResourceManifest.Build(h, disk.resources).Some?
      && fields[key] == ManifestJson(ResourceManifest.Build(h, disk.resources).value)
  }

  /** The text of the record is an object. */
  ghost predicate IsRecord(disk: Disk, at: Location)
    requires at.name in disk.records
  {
    var parsed := JsonParser.Parse(JsonParser.KeepLast, disk.records[at.name].text);
    parsed.Some? && parsed.value.Obj?
  }

  /** No claim is a list or a dictionary, of which no set can be made. */
  ghost predicate ClaimsPlain(fields: map<Text, Json>) {
    Runes("claims") in fields && fields[Runes("claims")].List? ==>
      forall c :: c in fields[Runes("claims")].items ==> !c.List? && !c.Obj?
  }

  /** All that a record has to show. */
  ghost predicate Shows(h: Hash, fields: map<Text, Json>, t: Tool, tool: string, machine: Machine, disk: Disk,
                        name: string, asked: Option<string>)
    requires name in disk.files
  {
    var expected := if asked.Some? && asked.value != "" then asked.value else t.version;
    && expected != "" && ShowsIdentity(h, fields, tool, machine, name, disk.files[name].bytes, expected)
    && ClaimsPlain(fields) && ShowsArtifact(fields, t, machine) && ShowsResources(h, fields, disk)
  }

  /** A record of whatever origin is accepted exactly if it is in its place and shows all that. */
  lemma AcceptedExactly(h: Hash, catalogue: Catalogue, tool: string, machine: Machine, disk: Disk, at: Location,
                        asked: Option<string>, listing: seq<ResourceManifest.Entry>)
    requires Digests(h)
    requires ResourceManifest.WellNamed(disk.resources) && ResourceManifest.Lists(disk.resources, listing)
    ensures Verify(h, catalogue, tool, machine, disk, at, asked, listing) <==>
      && tool in catalogue && InPlace(disk, tool, at) && IsRecord(disk, at)
      && Shows(h, Stored(disk, at), catalogue[tool], tool, machine, disk, at.name, asked)
  {
    hide FieldsValid, Shows, JsonParser.Parse, ResourceManifest.WellNamed, ResourceManifest.Lists;
    if tool in catalogue && InPlace(disk, tool, at) && IsRecord(disk, at) {
      VerifiesFields(h, catalogue, tool, machine, disk, at, asked, listing);
      FieldsShown(h, catalogue[tool], tool, machine, disk, at, asked, listing, Stored(disk, at));
    }
    OnlyInPlace(h, catalogue, tool, machine, disk, at, asked, listing);
  }

  lemma OnlyInPlace(h: Hash, catalogue: Catalogue, tool: string, machine: Machine, disk: Disk, at: Location,
                    asked: Option<string>, listing: seq<ResourceManifest.Entry>)
    ensures Verify(h, catalogue, tool, machine, disk, at, asked, listing) ==>
      tool in catalogue && InPlace(disk, tool, at) && IsRecord(disk, at)
  {
    hide CommonValid, SourceValid, DirectValid, ResourcesValid, JsonParser.Parse, Authorized, Get, Claimed;
  }

  lemma VerifiesFields(h: Hash, catalogue: Catalogue, tool: string, machine: Machine, disk: Disk, at: Location,
                       asked: Option<string>, listing: seq<ResourceManifest.Entry>)
    requires tool in catalogue && InPlace(disk, tool, at) && IsRecord(disk, at)
    ensures Verify(h, catalogue, tool, machine, disk, at, asked, listing) <==>
      && ExpectedVersion(catalogue[tool], asked) != ""
      && FieldsValid(h, catalogue[tool], tool, machine, disk, at, asked, listing, Stored(disk, at))
  {
    hide CommonValid, SourceValid, DirectValid, ResourcesValid, JsonParser.Parse, Authorized, Get, Claimed;
  }

  lemma FieldsShown(h: Hash, t: Tool, tool: string, machine: Machine, disk: Disk, at: Location,
                    asked: Option<string>, listing: seq<ResourceManifest.Entry>, fields: map<Text, Json>)
    requires Digests(h) && at.name in disk.files
    requires ResourceManifest.WellNamed(disk.resources) && ResourceManifest.Lists(disk.resources, listing)
    ensures ExpectedVersion(t, asked) != "" && FieldsValid(h, t, tool, machine, disk, at, asked, listing, fields)
       <==> Shows(h, fields, t, tool, machine, disk, at.name, asked)
  {
    hide CommonValid, SourceValid, DirectValid, ResourcesValid, Authorized, Claimed, IsDigest;
    hide ShowsIdentity, ShowsSource, ShowsRelease, ShowsResources, Authorizes, Claims, ClaimsPlain, Get;
    hide ResourceManifest.WellNamed, ResourceManifest.Lists;
    IdentityShown(h, fields, tool, at.name, disk.files[at.name].bytes, ExpectedVersion(t, asked), machine);
    IdentityClaims(h, fields, tool, machine, at.name, disk.files[at.name].bytes, ExpectedVersion(t, asked));
    if Get(fields, Field.Claims).List? {
      var claims := Get(fields, Field.Claims).items;
      PlainClaimsRead(fields);
      ClaimsRead(fields, SOURCE_ARCHIVE);
      ModeAuthorized(t, SOURCE);
      ModeAuthorized(t, DIRECT);
      SourceShown(fields, claims, t, machine);
      ReleaseShown(fields, claims, t, machine);
      ResourcesShown(h, fields, disk, listing);
    }
  }

  lemma IdentityClaims(h: Hash, fields: map<Text, Json>, tool: string, machine: Machine, name: string,
                       bytes: seq<Byte>, expected: string)
    ensures ShowsIdentity(h, fields, tool, machine, name, bytes, expected) ==> Get(fields, Field.Claims).List?
  {
    hide PyStr, Normalized, Runes, PyText.Upper, PyText.Lower, PyText.IsSpaceRune;
  }

  lemma PlainClaimsRead(fields: map<Text, Json>)
    requires Get(fields, Field.Claims).List?
    ensures ClaimsPlain(fields) <==> forall c :: c in Get(fields, Field.Claims).items ==> !c.List? && !c.Obj?
  {
    hide Runes;
  }

  lemma ModeAuthorized(t: Tool, mode: string)
    ensures Authorized(t, mode) <==> Authorizes(t, mode)
  {
  }

  lemma ClaimsRead(fields: map<Text, Json>, claim: string)
    requires Get(fields, Field.Claims).List?
    ensures Claimed(Get(fields, Field.Claims).items, claim) <==> Claims(fields, claim)
  {
    hide Runes;
  }

  lemma HoldsMeans(fields: map<Text, Json>, f: Field, value: string)
    ensures FieldKey(f) in fields && Get(fields, f) == S(value) <==> Holds(fields, f.Name(), value)
  {
    hide Runes;
  }

  lemma TextsShown(fields: map<Text, Json>, id: string, machine: Machine, name: string)
    ensures
      && (forall f | f in {TrustStatus, ToolId, Platform, Architecture, ExecutablePath} :: FieldKey(f) in fields)
      && Get(fields, TrustStatus) == S("VALID") && Get(fields, ToolId) == S(id)
      && Get(fields, Platform) == S(machine.platform) && Get(fields, Architecture) == S(machine.architecture)
      && Get(fields, ExecutablePath) == S(name)
      <==>
      && Holds(fields, "trust_status", "VALID") && Holds(fields, "tool_id", id)
      && Holds(fields, "platform", machine.platform) && Holds(fields, "architecture", machine.architecture)
      && Holds(fields, "executable_relative_path", name)
  {
    hide Get, FieldKey, Holds, Runes;
    HoldsMeans(fields, TrustStatus, "VALID");
    HoldsMeans(fields, ToolId, id);
    HoldsMeans(fields, Platform, machine.platform);
    HoldsMeans(fields, Architecture, machine.architecture);
    HoldsMeans(fields, ExecutablePath, name);
  }

  lemma OthersShown(fields: map<Text, Json>)
    ensures FieldKey(InstallerVersion) == Runes("installer_version") && FieldKey(ToolVersion) == Runes("tool_version")
    ensures FieldKey(ExecutableSha256) == Runes("executable_sha256") && FieldKey(Field.Claims) == Runes("claims")
    ensures forall f | f in {InstallerVersion, ToolVersion, ExecutableSha256, Field.Claims} ::
      FieldKey(f) in fields ==> Get(fields, f) == fields[FieldKey(f)]
  {
    hide Runes;
  }

  lemma IdentityShown(h: Hash, fields: map<Text, Json>, tool: string, name: string, bytes: seq<Byte>,
                      expected: string, machine: Machine)
    ensures CommonValid(h, fields, tool, name, bytes, expected, machine) ==>
      ShowsIdentity(h, fields, tool, machine, name, bytes, expected) && Get(fields, Field.Claims).List?
    ensures ShowsIdentity(h, fields, tool, machine, name, bytes, expected) && IsDigest(h(bytes)) ==>
      CommonValid(h, fields, tool, name, bytes, expected, machine)
  {
    hide PyStr, Normalized, IsDigest, Runes, PyText.Upper, PyText.Lower, PyText.IsSpaceRune, BlankText;
    hide Get, FieldKey, Holds;
    TextsShown(fields, "TOOL-" + PyText.Upper(tool), machine, name);
    OthersShown(fields);
    if Get(fields, InstallerVersion).Str? {
      NotBlankText(Get(fields, InstallerVersion).text);
    }
  }

  lemma NotBlankText(t: Text)
    ensures !BlankText(t) <==> exists r :: r in t && !PyText.IsSpaceRune(r)
  {
    hide PyText.IsSpaceRune;
    if !BlankText(t) {
      var i :| 0 <= i < |t| && !PyText.IsSpaceRune(t[i]);
      assert t[i] in t;
    }
  }

  lemma SourceShown(fields: map<Text, Json>, claims: seq<Json>, t: Tool, machine: Machine)
    requires Get(fields, Field.Claims) == List(claims)
    ensures SourceValid(fields, claims, t, machine) <==> ShowsSource(fields, t, machine)
  {
    hide Claims, Claimed, Get, HoldsEntry, Holds, Lookup, FieldKey, Runes, OptionalJson;
    hide ToolchainDigest, VerifierToolchain;
    ClaimsRead(fields, TOOLCHAIN);
    EntryShown(fields, ArtifactFilename, Lookup(t.assets, "source_archive"));
    EntryShown(fields, ArtifactSha256, Lookup(t.checksums, "source_archive"));
    if FieldKey(SourceCommit) in fields {
      EntryShown(fields, SourceCommit, SourceIdentity(t));
    } else {
      EntryShown(fields, SourceRevision, SourceIdentity(t));
    }
    EntryShown(fields, BuildToolchain, t.buildToolchain);
    assert FieldKey(SourceCommit) == Runes("source_commit") by { KeyNamed(SourceCommit); }
    ToolchainShown(fields, t, machine);
    ProvenanceShown(fields);
  }

  lemma KeyNamed(f: Field)
    ensures FieldKey(f) == Runes(f.Name())
  {
  }

  lemma EntryShown(fields: map<Text, Json>, f: Field, entry: Option<string>)
    ensures Get(fields, f) == OptionalJson(entry) <==> HoldsEntry(fields, f.Name(), entry)
  {
    hide Runes;
  }

  lemma ToolchainShown(fields: map<Text, Json>, t: Tool, machine: Machine)
    ensures
      && Truthy(VerifierToolchain(t, machine))
      && Get(fields, BuildToolchainSha256) == OptionalJson(VerifierToolchain(t, machine))
      <==>
      && ToolchainDigest(t, machine) != ""
      && Holds(fields, "build_toolchain_sha256", ToolchainDigest(t, machine))
  {
    hide Runes;
  }

  lemma ProvenanceShown(fields: map<Text, Json>)
    ensures Get(fields, UpstreamProvenance) == Bool(true) <==>
      Runes("upstream_provenance_verified") in fields
      && fields[Runes("upstream_provenance_verified")] == Bool(true)
  {
    hide Runes;
  }

  lemma ReleaseShown(fields: map<Text, Json>, claims: seq<Json>, t: Tool, machine: Machine)
    requires Get(fields, Field.Claims) == List(claims)
    ensures DirectValid(fields, claims, t, machine) <==> ShowsRelease(fields, t, machine)
  {
    hide Runes, Claims, Claimed;
    ClaimsRead(fields, ARCHIVE);
  }

  lemma ResourcesShown(h: Hash, fields: map<Text, Json>, disk: Disk, listing: seq<ResourceManifest.Entry>)
    requires ResourceManifest.WellNamed(disk.resources) && ResourceManifest.Lists(disk.resources, listing)
    requires Get(fields, Field.Claims).List?
    ensures
      Get(fields, ResourceTree) == Null
      || (Claimed(Get(fields, Field.Claims).items, RESOURCES)
          && ResourcesValid(h, Get(fields, ResourceTree), disk, listing))
      <==> ShowsResources(h, fields, disk)
  {
    hide Runes, Claims, Claimed, ResourcesValid, ManifestJson, ResourceManifest.Build;
    hide ResourceManifest.WellNamed, ResourceManifest.Lists;
    ClaimsRead(fields, RESOURCES);
    ManifestShown(h, Get(fields, ResourceTree), disk, listing);
  }

  lemma ManifestShown(h: Hash, stored: Json, disk: Disk, listing: seq<ResourceManifest.Entry>)
    requires ResourceManifest.WellNamed(disk.resources) && ResourceManifest.Lists(disk.resources, listing)
    ensures ResourcesValid(h, stored, disk, listing) <==>
      && ResourceManifest.Build(h, disk.resources).Some?
      && stored == ManifestJson(ResourceManifest.Build(h, disk.resources).value)
  {
    hide ResourceManifest.Build, ManifestJson, ResourceManifest.WellNamed, ResourceManifest.Lists;
    hide ResourceManifest.Scan, ResourcesValid;
    if ResourcesValid(h, stored, disk, listing) {
      ValidManifest(h, stored, disk, listing);
    }
    if ResourceManifest.Build(h, disk.resources).Some? {
      var m := ResourceManifest.Build(h, disk.resources).value;
      ResourceManifest.VerifiesExactlyWhatBuilds(h, disk.resources, listing, m);
      if stored == ManifestJson(m) {
        BuiltIsValid(h, stored, m, disk, listing);
      }
    }
  }

  lemma BuiltIsValid(h: Hash, stored: Json, m: ResourceManifest.Manifest, disk: Disk,
                     listing: seq<ResourceManifest.Entry>)
    requires ResourceManifest.Verifies(h, disk.resources, listing, m) && stored == ManifestJson(m)
    ensures ResourcesValid(h, stored, disk, listing)
  {
    hide ResourceManifest.Scan;
  }

  // ----- One field changed -----

  /** The verifier on the fields of a record that is in place. */
  ghost predicate FieldsValid(h: Hash, t: Tool, tool: string, machine: Machine, disk: Disk, at: Location,
                              asked: Option<string>, listing: seq<ResourceManifest.Entry>, fields: map<Text, Json>)
    requires at.name in disk.files
  {
    && CommonValid(h, fields, tool, at.name, disk.files[at.name].bytes, ExpectedVersion(t, asked), machine)
    && var claims := Get(fields, Field.Claims).items;
    && (forall c | c in claims :: !c.List? && !c.Obj?)
    && (if Claimed(claims, SOURCE_ARCHIVE)
        then Authorized(t, SOURCE) && SourceValid(fields, claims, t, machine)
        else Authorized(t, DIRECT) && DirectValid(fields, claims, t, machine))
    && (Get(fields, ResourceTree) == Null
        || (Claimed(claims, RESOURCES) && ResourcesValid(h, Get(fields, ResourceTree), disk, listing)))
  }

  lemma WrittenVerifies(h: Hash, catalogue: Catalogue, tool: string, machine: Machine, disk: Disk, at: Location,
                        asked: Option<string>, listing: seq<ResourceManifest.Entry>, r: Record)
    ensures Verify(h, catalogue, tool, machine, Written(disk, at, r), at, asked, listing) <==>
      && tool in catalogue && ExpectedVersion(catalogue[tool], asked) != "" && ExecutableOf(disk, tool, at)
      && |RecordText(r)| <= MAX_RECORD
      && FieldsValid(h, catalogue[tool], tool, machine, disk, at, asked, listing, AsFields(AsRead(r)))
  {
    RecordReads(r);
    hide CommonValid, SourceValid, DirectValid, JsonParser.Parse, Authorized, Get, Claimed, AsFields, AsRead;
    hide RecordText;
  }

  lemma ChangedFields(r: Record, f: Field, v: Json)
    ensures AsFields(AsRead(r[f := v])) == AsFields(AsRead(r))[FieldKey(f) := JsonRoundTrip.Reread(v)]
  {
    hide JsonRoundTrip.Reread;
    assert AsRead(r[f := v]) == AsRead(r)[f := JsonRoundTrip.Reread(v)];
    OneFieldMore(AsRead(r), f, JsonRoundTrip.Reread(v));
  }

  lemma OneFieldMore(r: Record, f: Field, v: Json)
    ensures AsFields(r[f := v]) == AsFields(r)[FieldKey(f) := v]
  {
    var a, b := AsFields(r[f := v]), AsFields(r)[FieldKey(f) := v];
    forall g: Field ensures (FieldKey(g) in a <==> FieldKey(g) in b) && Get(a, g) == Get(b, g) {
      GetOfRecord(r[f := v], g);
      GetOfRecord(r, g);
      GetOther(AsFields(r), f, v, g);
    }
    KeysOnly(r[f := v]);
    KeysOnly(r);
    hide AsFields, FieldKey;
    SameGets(a, b);
  }

  lemma KeysOnly(r: Record)
    ensures forall k :: k in AsFields(r) ==> exists g: Field :: k == FieldKey(g)
  {
    hide FieldKey;
  }

  lemma SameGets(a: map<Text, Json>, b: map<Text, Json>)
    requires forall g: Field :: (FieldKey(g) in a <==> FieldKey(g) in b) && Get(a, g) == Get(b, g)
    requires forall k :: k in a || k in b ==> exists g: Field :: k == FieldKey(g)
    ensures a == b
  {
    hide FieldKey;
    forall k | k in a || k in b ensures k in a && k in b && a[k] == b[k] {
      var g: Field :| k == FieldKey(g);
    }
  }

  lemma GetOther(a: map<Text, Json>, f: Field, w: Json, g: Field)
    ensures Get(a[FieldKey(f) := w], g) == if g == f then w else Get(a, g)
    ensures FieldKey(g) in a[FieldKey(f) := w] <==> g == f || FieldKey(g) in a
  {
    FieldKeysDiffer();
    hide FieldKey;
    assert FieldKey(f) == FieldKey(g) ==> f == g;
  }

  /** The claims are those of a source build. */
  ghost predicate FromSource(fields: map<Text, Json>) {
    Claims(fields, "SOURCE_ARCHIVE_INTEGRITY_VERIFIED")
  }

  /** The fields that admit one value only. */
  ghost predicate Fixed(fields: map<Text, Json>, f: Field) {
    || f in {ToolId, TrustStatus, Platform, Architecture, ExecutablePath, ArtifactFilename, ArtifactSha256}
    || (FromSource(fields)
        && (f in {BuildToolchain, BuildToolchainSha256, SourceCommit}
            || (f == SourceRevision && FieldKey(SourceCommit) !in fields)))
  }

  /** The value that the surroundings demand of such a field. */
  ghost function Demanded(f: Field, source: bool, tool: string, t: Tool, machine: Machine, name: string): Json {
    match f
    case ToolId => S("TOOL-" + PyText.Upper(tool))
    case TrustStatus => S("VALID")
    case Platform => S(machine.platform)
    case Architecture => S(machine.architecture)
    case ExecutablePath => S(name)
    case ArtifactFilename => OptionalJson(Lookup(t.assets, if source then "source_archive" else machine.Key()))
    case ArtifactSha256 => OptionalJson(Lookup(t.checksums, if source then "source_archive" else machine.Key()))
    case BuildToolchain => OptionalJson(t.buildToolchain)
    case BuildToolchainSha256 => OptionalJson(VerifierToolchain(t, machine))
    case _ => OptionalJson(SourceIdentity(t))
  }

  lemma FixedIsDemanded(h: Hash, t: Tool, tool: string, machine: Machine, disk: Disk, at: Location,
                        asked: Option<string>, listing: seq<ResourceManifest.Entry>, fields: map<Text, Json>, f: Field)
    requires at.name in disk.files && FieldsValid(h, t, tool, machine, disk, at, asked, listing, fields)
    requires FieldKey(f) in fields && Fixed(fields, f)
    ensures Get(fields, f) == Demanded(f, FromSource(fields), tool, t, machine, at.name)
  {
    hide PyStr, Normalized, IsDigest, BlankText, PyText.Upper, PyText.Lower, S, ResourcesValid, Authorized;
    hide Get, FieldKey, FromSource, Claimed, Lookup, VerifierToolchain, SourceIdentity;
    assert FromSource(fields) <==> Claimed(Get(fields, Field.Claims).items, SOURCE_ARCHIVE) by {
      FromSourceRead(fields);
    }
  }

  lemma FromSourceRead(fields: map<Text, Json>)
    requires Get(fields, Field.Claims).List?
    ensures FromSource(fields) <==> Claimed(Get(fields, Field.Claims).items, SOURCE_ARCHIVE)
  {
    hide Get, Claimed;
    ClaimsRead(fields, SOURCE_ARCHIVE);
  }

  /**
   * In an accepted record of whatever origin, a fixed field can be given no other value: the record
   * stays accepted exactly if the new value is read as the old one is, and the file keeps its limit.
   */
  lemma FixedFieldsBind(h: Hash, catalogue: Catalogue, tool: string, machine: Machine, disk: Disk, at: Location,
                        asked: Option<string>, listing: seq<ResourceManifest.Entry>, r: Record, f: Field, v: Json)
    requires Verify(h, catalogue, tool, machine, Written(disk, at, r), at, asked, listing)
    requires f in r && Fixed(AsFields(AsRead(r)), f)
    ensures Verify(h, catalogue, tool, machine, Written(disk, at, r[f := v]), at, asked, listing)
       <==> JsonRoundTrip.Reread(v) == JsonRoundTrip.Reread(r[f]) && |RecordText(r[f := v])| <= MAX_RECORD
  {
    hide Verify, RecordText, JsonRoundTrip.Reread, AsFields, AsRead, FieldsValid, Written, Fixed, FieldKey, Get;
    hide ExpectedVersion;
    WrittenVerifies(h, catalogue, tool, machine, disk, at, asked, listing, r);
    WrittenVerifies(h, catalogue, tool, machine, disk, at, asked, listing, r[f := v]);
    ChangedFields(r, f, v);
    FieldRead(r, f);
    var a, w := AsFields(AsRead(r)), JsonRoundTrip.Reread(v);
    var b := a[FieldKey(f) := w];
    if FieldsValid(h, catalogue[tool], tool, machine, disk, at, asked, listing, b) {
      SameMode(a, f, w);
      FixedIsDemanded(h, catalogue[tool], tool, machine, disk, at, asked, listing, a, f);
      FixedIsDemanded(h, catalogue[tool], tool, machine, disk, at, asked, listing, b, f);
      assert Get(b, f) == w by { Put(a, f, w); }
    }
    assert w == Get(a, f) ==> b == a by { Unchanged(a, f); }
  }

  lemma FieldRead(r: Record, f: Field)
    requires f in r
    ensures FieldKey(f) in AsFields(AsRead(r)) && Get(AsFields(AsRead(r)), f) == JsonRoundTrip.Reread(r[f])
  {
    hide JsonRoundTrip.Reread;
    assert AsRead(r)[f] == JsonRoundTrip.Reread(r[f]);
    GetOfRecord(AsRead(r), f);
  }

  lemma Put(fields: map<Text, Json>, f: Field, w: Json)
    ensures Get(fields[FieldKey(f) := w], f) == w
  {
    hide FieldKey;
  }

  lemma Unchanged(fields: map<Text, Json>, f: Field)
    ensures FieldKey(f) in fields ==> fields[FieldKey(f) := Get(fields, f)] == fields
  {
    hide FieldKey;
  }

  /** A change elsewhere leaves the claims, and with them what is fixed. */
  lemma SameMode(fields: map<Text, Json>, f: Field, w: Json)
    requires Fixed(fields, f) && FieldKey(f) in fields
    ensures var changed := fields[FieldKey(f) := w];
      FromSource(changed) == FromSource(fields) && Fixed(changed, f)
  {
    FieldKeysDiffer();
    assert FieldKey(Field.Claims) == Runes("claims");
    hide FieldKey, Runes;
  }

  /** What the other fields of single words may be changed to. */
  ghost predicate Permitted(h: Hash, t: Tool, bytes: seq<Byte>, asked: Option<string>, source: bool, f: Field,
                            w: Json) {
    match f
    case ToolVersion => PyStr(w).Some? && Normalized(PyStr(w).value) == Normalized(ExpectedVersion(t, asked))
    case ExecutableSha256 => PyStr(w).Some? && PyText.Lower(PyStr(w).value) == h(bytes)
    case InstallerVersion => w.Str? && exists r :: r in w.text && !PyText.IsSpaceRune(r)
    case _ => source ==> w != Bool(true)
  }

  /** And the version, the digest of the executable, the installer and the provenance only as far as this. */
  lemma OtherFieldsBind(h: Hash, catalogue: Catalogue, tool: string, machine: Machine, disk: Disk, at: Location,
                        asked: Option<string>, listing: seq<ResourceManifest.Entry>, r: Record, f: Field, v: Json)
    requires Digests(h) && Verify(h, catalogue, tool, machine, Written(disk, at, r), at, asked, listing)
    requires f in {ToolVersion, ExecutableSha256, InstallerVersion, UpstreamProvenance}
    ensures Verify(h, catalogue, tool, machine, Written(disk, at, r[f := v]), at, asked, listing)
       <==> Permitted(h, catalogue[tool], disk.files[at.name].bytes, asked, FromSource(AsFields(AsRead(r))), f,
                      JsonRoundTrip.Reread(v))
            && |RecordText(r[f := v])| <= MAX_RECORD
  {
    WrittenVerifies(h, catalogue, tool, machine, disk, at, asked, listing, r);
    WrittenVerifies(h, catalogue, tool, machine, disk, at, asked, listing, r[f := v]);
    ChangedFields(r, f, v);
    hide Verify, RecordText, JsonRoundTrip.Reread, AsFields, AsRead, FieldsValid, Written, Permitted, FieldKey;
    hide FromSource, Digests;
    ChangePermitted(h, catalogue[tool], tool, machine, disk, at, asked, listing, AsFields(AsRead(r)), f,
                    JsonRoundTrip.Reread(v));
  }

  lemma ChangePermitted(h: Hash, t: Tool, tool: string, machine: Machine, disk: Disk, at: Location,
                        asked: Option<string>, listing: seq<ResourceManifest.Entry>, a: map<Text, Json>, f: Field,
                        w: Json)
    requires Digests(h) && at.name in disk.files
    requires FieldsValid(h, t, tool, machine, disk, at, asked, listing, a)
    requires f in {ToolVersion, ExecutableSha256, InstallerVersion, UpstreamProvenance}
    ensures FieldsValid(h, t, tool, machine, disk, at, asked, listing, a[FieldKey(f) := w])
       <==> Permitted(h, t, disk.files[at.name].bytes, asked, FromSource(a), f, w)
  {
    FromSourceRead(a);
    GetOther(a, f, w, Field.Claims);
    GetOther(a, f, w, ResourceTree);
    hide ResourcesValid, Authorized, FieldKey, Get, Claimed, FromSource, CommonValid, SourceValid, DirectValid;
    hide PyStr, Normalized, PyText.Lower, PyText.IsSpaceRune, Digests;
    CommonChanged(h, a, tool, at.name, disk.files[at.name].bytes, t, asked, machine, f, w);
    ArtifactChanged(a, Get(a, Field.Claims).items, t, machine, f, w);
  }

  lemma CommonChanged(h: Hash, a: map<Text, Json>, tool: string, name: string, bytes: seq<Byte>,
                      t: Tool, asked: Option<string>, machine: Machine, f: Field, w: Json)
    requires Digests(h) && f in {ToolVersion, ExecutableSha256, InstallerVersion, UpstreamProvenance}
    requires CommonValid(h, a, tool, name, bytes, ExpectedVersion(t, asked), machine)
    ensures CommonValid(h, a[FieldKey(f) := w], tool, name, bytes, ExpectedVersion(t, asked), machine)
       <==> f == UpstreamProvenance || Permitted(h, t, bytes, asked, false, f, w)
  {
    OtherGets(a, f, w);
    if w.Str? {
      NotBlankText(w.text);
      BlankAll(w.text);
    }
    assert IsDigest(h(bytes));
    hide PyStr, Normalized, IsDigest, BlankText, PyText.Upper, PyText.Lower, S, FieldKey, Get, Claimed;
    hide PyText.IsSpaceRune, Digests;
  }

  lemma ArtifactChanged(a: map<Text, Json>, claims: seq<Json>, t: Tool, machine: Machine, f: Field, w: Json)
    requires f in {ToolVersion, ExecutableSha256, InstallerVersion, UpstreamProvenance}
    ensures DirectValid(a[FieldKey(f) := w], claims, t, machine) <==> DirectValid(a, claims, t, machine)
    ensures SourceValid(a, claims, t, machine) ==>
      (SourceValid(a[FieldKey(f) := w], claims, t, machine) <==> (f == UpstreamProvenance ==> w != Bool(true)))
  {
    OtherGets(a, f, w);
    hide FieldKey, Get, Claimed, Lookup, VerifierToolchain, SourceIdentity, S;
  }

  lemma BlankAll(t: Text)
    ensures BlankText(t) ==> forall r :: r in t ==> PyText.IsSpaceRune(r)
  {
    hide PyText.IsSpaceRune;
  }

  lemma OtherGets(a: map<Text, Json>, f: Field, w: Json)
    ensures forall g: Field :: Get(a[FieldKey(f) := w], g) == if g == f then w else Get(a, g)
    ensures forall g: Field :: FieldKey(g) in a[FieldKey(f) := w] <==> g == f || FieldKey(g) in a
  {
    forall g: Field ensures Get(a[FieldKey(f) := w], g) == if g == f then w else Get(a, g) {
      GetOther(a, f, w, g);
    }
    forall g: Field ensures FieldKey(g) in a[FieldKey(f) := w] <==> g == f || FieldKey(g) in a {
      GetOther(a, f, w, g);
    }
  }

  // ----- When a record is built -----

  ghost predicate ExecutableInPlace(disk: Disk, tool: string, at: Location) {
    && !disk.managedIsSymlink && at.inManagedDir && (at.name == tool || at.name == tool + ".exe")
    && at.name in disk.files && disk.files[at.name].regular && disk.files[at.name].executable
  }

  /** A direct-artifact record is built exactly for an authorised tool with an archive for this machine. */
  lemma BuildsDirectExactly(h: Hash, catalogue: Catalogue, tool: string, machine: Machine, disk: Disk, at: Location,
                            installerVersion: string, resources: Option<ResourceManifest.Manifest>)
    ensures BuildDirect(h, catalogue, tool, machine, disk, at, installerVersion, resources).Some? <==>
      && ExecutableInPlace(disk, tool, at)
      && tool in catalogue && Authorizes(catalogue[tool], "DIRECT_ARTIFACT_MODE")
      && var t := catalogue[tool]; var key := machine.platform + "_" + machine.architecture;
      && key in t.checksums && t.checksums[key] != "" && key in t.assets && t.assets[key] != ""
  {
    hide CommonRecord, S, ManifestJson;
  }

  /** And a source-build record exactly for the revision, the archive and the toolchain of the catalogue. */
  lemma BuildsSourceExactly(h: Hash, catalogue: Catalogue, tool: string, machine: Machine, disk: Disk, at: Location,
                            identity: string, toolchainSha: string, installerVersion: string)
    ensures BuildSource(h, catalogue, tool, machine, disk, at, identity, toolchainSha, installerVersion).Some? <==>
      && ExecutableInPlace(disk, tool, at)
      && tool in catalogue && Authorizes(catalogue[tool], "SOURCE_BUILD_MODE")
      && var t := catalogue[tool]; var key := machine.platform + "_" + machine.architecture;
      && Some(identity) == (if t.sourceCommit.Some? then t.sourceCommit else t.sourceRevision)
      && "source_archive" in t.checksums && t.checksums["source_archive"] != ""
      && "source_archive" in t.assets && t.assets["source_archive"] != ""
      && t.buildToolchain.Some?
      && match t.toolchains
         case Missing => false
         case PerPlatform(m) => key in m && m[key] == toolchainSha
         case NotADict => "go_" + key in t.checksums && t.checksums["go_" + key] == toolchainSha
  {
    hide CommonRecord, S;
  }
}
