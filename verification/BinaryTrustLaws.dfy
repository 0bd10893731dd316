/** When the verifier accepts what the builders write, and what it never accepts. */
module BinaryTrustLaws {
  import opened Prelude
  import opened Digest
  import opened Json
  import opened BinaryTrust
  import JsonParser
  import JsonRoundTrip
  import PyText
  import ResourceManifest
  import Surrogates
  import TextOrder

  // ----- Records through their file -----

  lemma GetOfRecord(r: Record, f: Field)
    ensures FieldKey(f) in AsFields(r) <==> f in r
    ensures Get(AsFields(r), f) == if f in r then r[f] else Null
  {
    FieldKeysDiffer();
  }

  lemma SInjective(a: string, b: string)
    ensures S(a) == S(b) <==> a == b
  {
    if S(a) == S(b) {
      RunesInjective(a, b);
    }
  }

  lemma ScalarPairFree(s: string)
    ensures Each(S(s), PairFree) && PairFree(Runes(s))
  {
  }

  /** File names may hold stray low surrogates, as undecodable bytes do, but no split pairs. */
  predicate NamesPairFree(m: ResourceManifest.Manifest) {
    forall k | k in m :: PairFree(k)
  }

  /** The fields of a record as reading its file leaves them. */
  function AsRead(r: Record): Record {
    map f | f in r :: JsonRoundTrip.Reread(r[f])
  }

  lemma FieldKeysPairFree(r: Record)
    ensures forall k :: k in AsFields(r) ==> PairFree(k) && exists f: Field :: f in r && k == FieldKey(f)
  {
    forall k | k in AsFields(r) ensures PairFree(k) && exists f: Field :: f in r && k == FieldKey(f) {
      var f: Field :| f in r && k == FieldKey(f);
      ScalarPairFree(f.Name());
    }
  }

  /** A written record can always be parsed, to its own fields, each as reading leaves it. */
  lemma RecordReads(r: Record)
    ensures JsonParser.Parse(JsonParser.KeepLast, RecordText(r)) == Some(Obj(AsFields(AsRead(r))))
  {
    hide AsFields, AsRead, JsonRoundTrip.Reread, JsonParser.Parse, Print;
    JsonRoundTrip.PrintedReads(Obj(AsFields(r)), SPACED);
    FieldKeysPairFree(r);
    JsonRoundTrip.RereadObject(AsFields(r));
    FieldsAsRead(r);
  }

  lemma FieldsAsRead(r: Record)
    ensures AsFields(AsRead(r)) == JsonRoundTrip.RereadFields(AsFields(r))
  {
    hide JsonRoundTrip.Reread;
    FieldKeysDiffer();
    hide FieldKey;
    assert AsRead(r).Keys == r.Keys;
  }

  /** So a record without split surrogate pairs is read back as it was. */
  lemma RecordReadsBack(r: Record)
    requires forall f :: f in r ==> Each(r[f], PairFree)
    ensures JsonParser.Parse(JsonParser.KeepLast, RecordText(r)) == Some(Obj(AsFields(r)))
  {
    RecordReads(r);
    hide JsonRoundTrip.Reread;
    forall f | f in r ensures JsonRoundTrip.Reread(r[f]) == r[f] {
      JsonRoundTrip.RereadPairFree(r[f]);
    }
    assert AsRead(r) == r;
  }

  // ----- Manifests through their file -----

  function Collected(m: ResourceManifest.Manifest, names: seq<Text>): ResourceManifest.Manifest
    requires forall k | k in names :: k in m
  {
    if names == [] then map[]
    else
      var k := names[|names| - 1];
      Collected(m, names[..|names| - 1])[Surrogates.Joined(k) := m[k]]
  }

  /** A manifest as reading the record leaves it: split pairs in file names are put together. */
  function ManifestAsRead(m: ResourceManifest.Manifest): ResourceManifest.Manifest {
    Collected(m, TextOrder.Sorted(m.Keys))
  }

  lemma {:induction false} CollectedPairs(m: ResourceManifest.Manifest, names: seq<Text>)
    requires forall k | k in names :: k in m
    ensures JsonParser.LastWins(JsonRoundTrip.RereadPairs(ManifestJson(m), names))
         == ManifestJson(Collected(m, names)).fields
    ensures forall k :: k in Collected(m, names) ==> PairFree(k)
  {
    hide JsonRoundTrip.Reread, Surrogates.Joined, PairFree;
    var v := ManifestJson(m);
    var pairs := JsonRoundTrip.RereadPairs(v, names);
    if names == [] {
      assert pairs == [];
    } else {
      var init, k := names[..|names| - 1], names[|names| - 1];
      CollectedPairs(m, init);
      assert pairs[..|pairs| - 1] == JsonRoundTrip.RereadPairs(v, init);
      ScalarPairFree(m[k]);
      JsonRoundTrip.RereadPairFree(S(m[k]));
      Surrogates.JoinedPairFree(k);
    }
  }

  lemma ManifestRereads(m: ResourceManifest.Manifest)
    ensures JsonRoundTrip.Reread(ManifestJson(m)) == ManifestJson(ManifestAsRead(m))
    ensures ManifestAsRead(m) == m <==> NamesPairFree(m)
  {
    var names := TextOrder.Sorted(m.Keys);
    assert ManifestJson(m).fields.Keys == m.Keys;
    CollectedPairs(m, names);
    hide Collected, JsonParser.LastWins, JsonRoundTrip.RereadPairs, PairFree;
    assert JsonRoundTrip.Reread(ManifestJson(m)) == ManifestJson(ManifestAsRead(m));
    if NamesPairFree(m) {
      ManifestJsonPairFree(m);
      hide JsonRoundTrip.Reread, ManifestJson, Each, ManifestAsRead;
      JsonRoundTrip.RereadPairFree(ManifestJson(m));
      ManifestJsonInjective(ManifestAsRead(m), m);
    }
  }

  lemma ClaimedExactly(names: seq<string>, name: string)
    ensures Claimed(Listed(names).items, name) <==> name in names
    ensures forall c :: c in Listed(names).items ==> c.Str? && Each(c, PairFree)
  {
    var items := Listed(names).items;
    if name in names {
      var i :| 0 <= i < |names| && names[i] == name;
      assert items[i] == S(name);
    }
    if S(name) in items {
      var i :| 0 <= i < |items| && items[i] == S(name);
      SInjective(names[i], name);
    }
  }

  lemma ManifestJsonInjective(m: ResourceManifest.Manifest, n: ResourceManifest.Manifest)
    ensures ManifestJson(m) == ManifestJson(n) <==> m == n
  {
    if ManifestJson(m) == ManifestJson(n) {
      var a, b := ManifestJson(m).fields, ManifestJson(n).fields;
      assert a.Keys == m.Keys && b.Keys == n.Keys;
      forall k | k in m ensures k in n && m[k] == n[k] {
        assert k in a && a[k] == b[k];
        SInjective(m[k], n[k]);
      }
    }
  }

  lemma ManifestJsonPairFree(m: ResourceManifest.Manifest)
    requires NamesPairFree(m)
    ensures Each(ManifestJson(m), PairFree)
  {
    forall k | k in m ensures Each(ManifestJson(m).fields[k], PairFree) {
      ScalarPairFree(m[k]);
    }
  }

  // ----- Versions and digests -----

  lemma PyStrOfString(s: string)
    ensures PyStr(S(s)) == Some(s)
  {
    RunesInjective(Chars(Runes(s)), s);
  }

  lemma LowerOfDigest(d: string)
    requires IsDigest(d)
    ensures PyText.Lower(d) == d
  {
  }

  lemma StripRightCons(c: char, s: string)
    ensures PyText.StripRight(s) != "" || !PyText.IsSpace(c) ==>
      PyText.StripRight([c] + s) == [c] + PyText.StripRight(s)
    ensures PyText.StripRight(s) == "" && PyText.IsSpace(c) ==> PyText.StripRight([c] + s) == ""
  {
    hide PyText.IsSpace;
    var t := [c] + s;
    if s == "" {
      assert t[..|t| - 1] == "";
    } else if PyText.IsSpace(s[|s| - 1]) {
      assert t[..|t| - 1] == [c] + s[..|s| - 1];
      StripRightCons(c, s[..|s| - 1]);
    }
  }

  lemma StripShortens(s: string)
    ensures |PyText.Strip(s)| <= |PyText.StripRight(s)|
  {
    hide PyText.IsSpace;
  }

  /** The condition on a version: it starts with no blank, or is nothing but blanks. */
  predicate VersionClean(s: string) {
    s == "" || !PyText.IsSpace(s[0]) || PyText.Strip(s) == ""
  }

  /** Writing a `v` in front of a version leaves its normal form alone exactly under that condition. */
  lemma PrefixedVersion(s: string)
    ensures Normalized("v" + s) == Normalized(s) <==> VersionClean(s)
  {
    VIsNoSpace();
    hide PyText.IsSpace;
    var r := PyText.StripRight(s);
    StripRightCons('v', s);
    assert ("v" + s)[0] == 'v' && PyText.StripLeft("v" + s) == "v" + s;
    assert ['v'] + s == "v" + s && ("v" + r)[1..] == r;
    assert Normalized("v" + s) == DropVs(r);
    if s != "" && PyText.IsSpace(s[0]) {
      LeadingBlankSeen(s);
    } else {
      assert PyText.StripLeft(s) == s;
    }
  }

  lemma LeadingBlankSeen(s: string)
    requires s != "" && PyText.IsSpace(s[0])
    ensures DropVs(PyText.StripRight(s)) == Normalized(s) <==> PyText.Strip(s) == ""
  {
    hide PyText.IsSpace, PyText.StripRight;
    var r := PyText.StripRight(s);
    assert s == [s[0]] + s[1..];
    StripRightCons(s[0], s[1..]);
    StripShortens(s[1..]);
    assert PyText.Strip(s) == PyText.Strip(s[1..]);
    if PyText.Strip(s) == "" {
      AllBlank(s);
    } else {
      StripShortens(s);
      BlankIsNoV(s[0]);
      assert r != "" && r[0] == s[0] && DropVs(r) == r;
      assert |DropVs(PyText.Strip(s))| <= |PyText.Strip(s[1..])| < |r|;
    }
  }

  lemma BlankIsNoV(c: char)
    requires PyText.IsSpace(c)
    ensures c != 'v' && c != 'V'
  {
  }

  lemma VIsNoSpace()
    ensures !PyText.IsSpace('v')
  {
  }

  lemma AllBlank(s: string)
    requires PyText.Strip(s) == ""
    ensures PyText.StripRight(s) == ""
  {
    hide PyText.IsSpace;
  }

  // ----- Builder and verifier agree -----

  /** What a record and its surroundings must satisfy beyond having been built, for a version asked for. */
  ghost predicate Acceptable(t: Tool, asked: Option<string>, installerVersion: string, r: Record) {
    var expected := ExpectedVersion(t, asked);
    && expected != "" && Normalized("v" + t.version) == Normalized(expected)
    && !BlankText(Runes(installerVersion))
    && |RecordText(r)| <= 1048576
  }

  /** If no version is asked for: the catalogue's version is nonempty and clean. */
  lemma AcceptableByDefault(t: Tool, installerVersion: string, r: Record)
    ensures Acceptable(t, None, installerVersion, r)
       <==> (t.version != "" && VersionClean(t.version)
             && !BlankText(Runes(installerVersion)) && |RecordText(r)| <= MAX_RECORD)
  {
    hide Normalized, VersionClean, BlankText, RecordText;
    PrefixedVersion(t.version);
  }

  lemma CommonAgrees(h: Hash, r: Record, tool: string, t: Tool, machine: Machine, bytes: seq<Byte>, name: string,
                     filename: string, sha: string, installerVersion: string, claims: seq<string>, expected: string)
    requires Digests(h) && EXECUTABLE in claims
    requires var c := CommonRecord(h, tool, t, machine, bytes, name, filename, sha, installerVersion, claims);
      c.Keys <= r.Keys && forall f :: f in c ==> r[f] == c[f]
    ensures CommonValid(h, AsFields(r), tool, name, bytes, expected, machine)
       <==> Normalized("v" + t.version) == Normalized(expected) && !BlankText(Runes(installerVersion))
  {
    CommonGets(h, r, tool, t, machine, bytes, name, filename, sha, installerVersion, claims);
    PyStrOfString("v" + t.version);
    PyStrOfString(h(bytes));
    LowerOfDigest(h(bytes));
    ClaimedExactly(claims, EXECUTABLE);
    StrOfS(installerVersion);
    hide Normalized, BlankText, IsDigest, PyStr, AsFields, Get, FieldKey, Listed, S, CommonRecord;
    hide PyText.Upper, PyText.Lower, Claimed;
  }

  /** What the verifier finds in the fields that every builder writes. */
  lemma CommonGets(h: Hash, r: Record, tool: string, t: Tool, machine: Machine, bytes: seq<Byte>, name: string,
                   filename: string, sha: string, installerVersion: string, claims: seq<string>)
    requires var c := CommonRecord(h, tool, t, machine, bytes, name, filename, sha, installerVersion, claims);
      c.Keys <= r.Keys && forall f :: f in c ==> r[f] == c[f]
    ensures var fields := AsFields(r);
      && (forall f | f in {ToolId, ToolVersion, ExecutablePath, ExecutableSha256, Platform, Architecture,
                           InstallerVersion, TrustStatus, Claims} :: FieldKey(f) in fields)
      && Get(fields, ToolId) == S("TOOL-" + PyText.Upper(tool)) && Get(fields, ToolVersion) == S("v" + t.version)
      && Get(fields, ExecutablePath) == S(name) && Get(fields, ExecutableSha256) == S(h(bytes))
      && Get(fields, Platform) == S(machine.platform) && Get(fields, Architecture) == S(machine.architecture)
      && Get(fields, InstallerVersion) == S(installerVersion) && Get(fields, TrustStatus) == S("VALID")
      && Get(fields, Claims) == Listed(claims)
  {
    hide AsFields, Get, FieldKey, Listed, S, PyText.Upper;
    CommonFields(r);
  }

  lemma CommonFields(r: Record)
    ensures forall f: Field :: FieldKey(f) in AsFields(r) <==> f in r
    ensures forall f: Field :: Get(AsFields(r), f) == if f in r then r[f] else Null
  {
    hide AsFields, Get, FieldKey;
    forall f: Field ensures (FieldKey(f) in AsFields(r) <==> f in r)
        && Get(AsFields(r), f) == if f in r then r[f] else Null {
      GetOfRecord(r, f);
    }
  }

  lemma StrOfS(s: string)
    ensures S(s).Str? && S(s).text == Runes(s)
  {
  }

  lemma CommonPairFree(h: Hash, tool: string, t: Tool, machine: Machine, bytes: seq<Byte>, name: string,
                       filename: string, sha: string, installerVersion: string, claims: seq<string>)
    ensures var c := CommonRecord(h, tool, t, machine, bytes, name, filename, sha, installerVersion, claims);
      forall f :: f in c ==> Each(c[f], PairFree)
  {
    hide PairFree, S, PyText.Upper;
    forall s ensures Each(S(s), PairFree) { ScalarPairFree(s); }
    ClaimedExactly(claims, "");
    assert Each(Listed(claims), PairFree);
  }

  /** What a direct-artifact record holds once its file has been read. */
  ghost predicate DirectShaped(h: Hash, r: Record, tool: string, t: Tool, machine: Machine, bytes: seq<Byte>,
                               name: string,
                               installerVersion: string, resources: Option<ResourceManifest.Manifest>) {
    var claims := DirectClaimNames(resources.Some?);
    var sha, asset := Lookup(t.checksums, machine.Key()), Lookup(t.assets, machine.Key());
    && Truthy(sha) && Truthy(asset)
    && var c := CommonRecord(h, tool, t, machine, bytes, name, asset.value, sha.value, installerVersion, claims);
    && c.Keys <= r.Keys && (forall f :: f in c ==> r[f] == c[f])
    && Field.Claims in r && r[Field.Claims] == Listed(claims)
    && ArtifactSha256 in r && r[ArtifactSha256] == S(sha.value)
    && ArtifactFilename in r && r[ArtifactFilename] == S(asset.value)
    && (ResourceTree in r <==> resources.Some?)
    && (resources.Some? ==> r[ResourceTree] == ManifestJson(ManifestAsRead(resources.value)))
  }

  function DirectClaimNames(withResources: bool): seq<string> {
    [ARCHIVE, EXECUTABLE] + if withResources then [RESOURCES] else []
  }

  lemma BuiltDirectShaped(h: Hash, catalogue: Catalogue, tool: string, machine: Machine, disk: Disk, at: Location,
                          installerVersion: string, resources: Option<ResourceManifest.Manifest>)
    requires BuildDirect(h, catalogue, tool, machine, disk, at, installerVersion, resources).Some?
    ensures var r := BuildDirect(h, catalogue, tool, machine, disk, at, installerVersion, resources).value;
      DirectShaped(h, AsRead(r), tool, catalogue[tool], machine, disk.files[at.name].bytes, at.name,
                   installerVersion, resources)
  {
    hide S, Listed, Authorized, PyText.Upper, Lookup, CommonRecord, JsonRoundTrip.Reread, ManifestJson, ManifestAsRead;
    hide Each, PairFree;
    var t := catalogue[tool];
    var sha, asset := Lookup(t.checksums, machine.Key()), Lookup(t.assets, machine.Key());
    var claims := DirectClaimNames(resources.Some?);
    var bytes := disk.files[at.name].bytes;
    var c := CommonRecord(h, tool, t, machine, bytes, at.name, asset.value, sha.value, installerVersion, claims);
    CommonPairFree(h, tool, t, machine, bytes, at.name, asset.value, sha.value, installerVersion, claims);
    CommonEntries(h, tool, t, machine, bytes, at.name, asset.value, sha.value, installerVersion, claims);
    forall f | f in c ensures JsonRoundTrip.Reread(c[f]) == c[f] {
      JsonRoundTrip.RereadPairFree(c[f]);
    }
    if resources.Some? {
      ManifestRereads(resources.value);
    }
  }

  /**
   * A direct-artifact record is accepted on the disk it was built from, for whatever version is
   * asked for, exactly when that version is not empty and the written one normalises to the same,
   * the installer version is not blank, the record fits its limit, and the manifest it embeds, if
   * any, is that of the resource tree once it has been read back.
   */
  lemma DirectAgreement(h: Hash, catalogue: Catalogue, tool: string, machine: Machine, disk: Disk, at: Location,
                        installerVersion: string, resources: Option<ResourceManifest.Manifest>,
                        asked: Option<string>, listing: seq<ResourceManifest.Entry>)
    requires Digests(h)
    requires BuildDirect(h, catalogue, tool, machine, disk, at, installerVersion, resources).Some?
    ensures var r := BuildDirect(h, catalogue, tool, machine, disk, at, installerVersion, resources).value;
      Verify(h, catalogue, tool, machine, Written(disk, at, r), at, asked, listing)
      <==> Acceptable(catalogue[tool], asked, installerVersion, r)
           && (resources.Some? ==>
                 ResourceManifest.Verifies(h, disk.resources, listing, ManifestAsRead(resources.value)))
  {
    var r := BuildDirect(h, catalogue, tool, machine, disk, at, installerVersion, resources).value;
    BuiltDirectShaped(h, catalogue, tool, machine, disk, at, installerVersion, resources);
    assert Authorized(catalogue[tool], DIRECT) && ExecutableOf(disk, tool, at);
    hide BuildDirect, DirectShaped;
    DirectVerifies(h, catalogue, tool, machine, disk, at, r, installerVersion, resources, asked, listing);
  }

  lemma DirectVerifies(h: Hash, catalogue: Catalogue, tool: string, machine: Machine, disk: Disk, at: Location,
                       r: Record,
                       installerVersion: string, resources: Option<ResourceManifest.Manifest>,
                       asked: Option<string>, listing: seq<ResourceManifest.Entry>)
    requires Digests(h) && tool in catalogue && Authorized(catalogue[tool], DIRECT) && ExecutableOf(disk, tool, at)
    requires DirectShaped(h, AsRead(r), tool, catalogue[tool], machine, disk.files[at.name].bytes, at.name,
                          installerVersion, resources)
    ensures Verify(h, catalogue, tool, machine, Written(disk, at, r), at, asked, listing)
      <==> Acceptable(catalogue[tool], asked, installerVersion, r)
           && (resources.Some? ==>
                 ResourceManifest.Verifies(h, disk.resources, listing, ManifestAsRead(resources.value)))
  {
    hide Normalized, BlankText, IsDigest, PyStr, AsFields, Get, FieldKey, Listed, S, CommonValid;
    hide CommonRecord;
    hide RecordText, SourceValid, ManifestJson, ManifestAsRead, ResourceManifest.Verifies, ResourceManifest.Scan;
    hide AsRead;
    hide Authorized, ResourcesValid, JsonParser.Parse;
    var t := catalogue[tool];
    var q := AsRead(r);
    var sha, asset := Lookup(t.checksums, machine.Key()), Lookup(t.assets, machine.Key());
    var claims := DirectClaimNames(resources.Some?);
    RecordReads(r);
    CommonAgrees(h, q, tool, t, machine, disk.files[at.name].bytes, at.name, asset.value, sha.value, installerVersion,
                 claims, ExpectedVersion(t, asked));
    DirectClaims(claims, resources.Some?);
    GetOfRecord(q, Field.Claims);
    GetOfRecord(q, ArtifactSha256);
    GetOfRecord(q, ArtifactFilename);
    GetOfRecord(q, ResourceTree);
    if resources.Some? {
      StoredManifest(h, ManifestAsRead(resources.value), Written(disk, at, r), listing);
    }
  }

  lemma DirectClaims(claims: seq<string>, withResources: bool)
    requires claims == [ARCHIVE, EXECUTABLE] + if withResources then [RESOURCES] else []
    ensures var items := Listed(claims).items;
      && Claimed(items, ARCHIVE) && !Claimed(items, SOURCE_ARCHIVE) && (Claimed(items, RESOURCES) <==> withResources)
      && forall c :: c in items ==> !c.List? && !c.Obj?
  {
    ClaimedExactly(claims, ARCHIVE);
    ClaimedExactly(claims, SOURCE_ARCHIVE);
    ClaimedExactly(claims, RESOURCES);
    assert SOURCE_ARCHIVE[0] == 'S' && ARCHIVE[0] == 'A' && EXECUTABLE[0] == 'E' && RESOURCES[0] == 'R';
  }

  lemma StoredManifest(h: Hash, m: ResourceManifest.Manifest, disk: Disk, listing: seq<ResourceManifest.Entry>)
    ensures ManifestJson(m) != Null
    ensures ResourcesValid(h, ManifestJson(m), disk, listing)
       <==> ResourceManifest.Verifies(h, disk.resources, listing, m)
  {
    var actual := ResourceManifest.Scan(h, listing);
    if actual.Some? {
      ManifestJsonInjective(m, actual.value);
    }
  }

  /**
   * With the manifest that was built from the resource tree, nothing about the tree is left to
   * check but that no file name holds a split surrogate pair, which its own file does not keep.
   */
  lemma DirectWithBuiltResources(h: Hash, catalogue: Catalogue, tool: string, machine: Machine, disk: Disk,
                                 at: Location,
                                 installerVersion: string, asked: Option<string>,
                                 listing: seq<ResourceManifest.Entry>)
    requires Digests(h) && ResourceManifest.WellNamed(disk.resources) && ResourceManifest.Lists(disk.resources, listing)
    requires ResourceManifest.Build(h, disk.resources).Some?
    requires BuildDirect(h, catalogue, tool, machine, disk, at, installerVersion,
                         ResourceManifest.Build(h, disk.resources)).Some?
    ensures var m := ResourceManifest.Build(h, disk.resources);
      var r := BuildDirect(h, catalogue, tool, machine, disk, at, installerVersion, m).value;
      Verify(h, catalogue, tool, machine, Written(disk, at, r), at, asked, listing)
      <==> Acceptable(catalogue[tool], asked, installerVersion, r) && NamesPairFree(m.value)
  {
    hide Verify, BuildDirect, Acceptable, ResourceManifest.Build, NamesPairFree, ManifestAsRead;
    hide ResourceManifest.Verifies;
    hide ResourceManifest.WellNamed, ResourceManifest.Lists;
    var m := ResourceManifest.Build(h, disk.resources);
    DirectAgreement(h, catalogue, tool, machine, disk, at, installerVersion, m, asked, listing);
    ManifestRereads(m.value);
    ResourceManifest.VerifiesExactlyWhatBuilds(h, disk.resources, listing, ManifestAsRead(m.value));
  }

  /** What a source-build record holds. */
  ghost predicate SourceShaped(h: Hash, r: Record, tool: string, t: Tool, machine: Machine, bytes: seq<Byte>,
                               name: string,
                               identity: string, toolchainSha: string, installerVersion: string) {
    var claims := [SOURCE_ARCHIVE, TOOLCHAIN, EXECUTABLE];
    var sha, asset := Lookup(t.checksums, "source_archive"), Lookup(t.assets, "source_archive");
    && sha.Some? && asset.Some? && t.buildToolchain.Some?
    && var c := CommonRecord(h, tool, t, machine, bytes, name, asset.value, sha.value, installerVersion, claims);
    && c.Keys <= r.Keys && (forall f :: f in c ==> r[f] == c[f])
    && ResourceTree !in r && Field.Claims in r && r[Field.Claims] == Listed(claims)
    && Some(identity) == SourceIdentity(t) && Some(toolchainSha) == BuilderToolchain(t, machine)
    && {ArtifactFilename, ArtifactSha256, BuildToolchain, BuildToolchainSha256, UpstreamProvenance} <= r.Keys
    && r[ArtifactFilename] == S(asset.value) && r[ArtifactSha256] == S(sha.value)
    && r[BuildToolchain] == S(t.buildToolchain.value) && r[BuildToolchainSha256] == S(toolchainSha)
    && r[UpstreamProvenance] == Bool(false)
    && (if t.sourceCommit.Some? then SourceCommit in r && r[SourceCommit] == S(identity)
        else SourceCommit !in r && SourceRevision in r && r[SourceRevision] == S(identity))
  }

  lemma BuiltSourceShaped(h: Hash, catalogue: Catalogue, tool: string, machine: Machine, disk: Disk, at: Location,
                          identity: string, toolchainSha: string, installerVersion: string)
    requires BuildSource(h, catalogue, tool, machine, disk, at, identity, toolchainSha, installerVersion).Some?
    ensures SourceShaped(h, BuildSource(h, catalogue, tool, machine, disk, at, identity, toolchainSha,
                         installerVersion).value,
                         tool, catalogue[tool], machine, disk.files[at.name].bytes, at.name,
                         identity, toolchainSha, installerVersion)
  {
    hide S, Listed, SourceIdentity, BuilderToolchain, Authorized, PyText.Upper, Lookup, CommonRecord;
    var t := catalogue[tool];
    CommonEntries(h, tool, t, machine, disk.files[at.name].bytes, at.name, Lookup(t.assets, "source_archive").value,
                  Lookup(t.checksums, "source_archive").value, installerVersion, [SOURCE_ARCHIVE, TOOLCHAIN,
                    EXECUTABLE]);
  }

  lemma CommonEntries(h: Hash, tool: string, t: Tool, machine: Machine, bytes: seq<Byte>, name: string,
                      filename: string, sha: string, installerVersion: string, claims: seq<string>)
    ensures var c := CommonRecord(h, tool, t, machine, bytes, name, filename, sha, installerVersion, claims);
      && c.Keys !! {BuildToolchain, BuildToolchainSha256, UpstreamProvenance, SourceCommit, SourceRevision,
        ResourceTree}
      && Field.Claims in c && ArtifactFilename in c && ArtifactSha256 in c
      && c[Field.Claims] == Listed(claims) && c[ArtifactFilename] == S(filename) && c[ArtifactSha256] == S(sha)
  {
    hide S, Listed, PyText.Upper;
  }

  lemma BuiltSourcePairFree(h: Hash, catalogue: Catalogue, tool: string, machine: Machine, disk: Disk, at: Location,
                            identity: string, toolchainSha: string, installerVersion: string)
    requires BuildSource(h, catalogue, tool, machine, disk, at, identity, toolchainSha, installerVersion).Some?
    ensures var r := BuildSource(h, catalogue, tool, machine, disk, at, identity, toolchainSha, installerVersion).value;
      forall f :: f in r ==> Each(r[f], PairFree)
  {
    hide S, Listed, SourceIdentity, BuilderToolchain, Authorized, PyText.Upper, Lookup, Each, CommonRecord;
    var t := catalogue[tool];
    var sha, name := Lookup(t.checksums, "source_archive"), Lookup(t.assets, "source_archive");
    CommonPairFree(h, tool, t, machine, disk.files[at.name].bytes, at.name, name.value, sha.value, installerVersion,
                   [SOURCE_ARCHIVE, TOOLCHAIN, EXECUTABLE]);
    ScalarPairFree(t.buildToolchain.value);
    ScalarPairFree(toolchainSha);
    ScalarPairFree(identity);
    BoolPairFree();
  }

  /**
   * A source-build record is accepted on the disk it was built from exactly under the same
   * conditions and a toolchain digest that is not empty, which the builder does not ask for.
   */
  lemma SourceAgreement(h: Hash, catalogue: Catalogue, tool: string, machine: Machine, disk: Disk, at: Location,
                        identity: string, toolchainSha: string, installerVersion: string,
                        asked: Option<string>, listing: seq<ResourceManifest.Entry>)
    requires Digests(h)
    requires BuildSource(h, catalogue, tool, machine, disk, at, identity, toolchainSha, installerVersion).Some?
    ensures var r := BuildSource(h, catalogue, tool, machine, disk, at, identity, toolchainSha, installerVersion).value;
      Verify(h, catalogue, tool, machine, Written(disk, at, r), at, asked, listing)
      <==> Acceptable(catalogue[tool], asked, installerVersion, r) && toolchainSha != ""
  {
    var r := BuildSource(h, catalogue, tool, machine, disk, at, identity, toolchainSha, installerVersion).value;
    BuiltSourcePairFree(h, catalogue, tool, machine, disk, at, identity, toolchainSha, installerVersion);
    BuiltSourceShaped(h, catalogue, tool, machine, disk, at, identity, toolchainSha, installerVersion);
    assert Authorized(catalogue[tool], SOURCE) && ExecutableOf(disk, tool, at);
    hide BuildSource, SourceShaped;
    SourceVerifies(h, catalogue, tool, machine, disk, at, r, identity, toolchainSha, installerVersion, asked,
                   listing);
  }

  lemma SourceVerifies(h: Hash, catalogue: Catalogue, tool: string, machine: Machine, disk: Disk, at: Location,
                       r: Record,
                       identity: string, toolchainSha: string, installerVersion: string,
                       asked: Option<string>, listing: seq<ResourceManifest.Entry>)
    requires Digests(h) && tool in catalogue && Authorized(catalogue[tool], SOURCE) && ExecutableOf(disk, tool, at)
    requires forall f :: f in r ==> Each(r[f], PairFree)
    requires SourceShaped(h, r, tool, catalogue[tool], machine, disk.files[at.name].bytes, at.name,
                          identity, toolchainSha, installerVersion)
    ensures Verify(h, catalogue, tool, machine, Written(disk, at, r), at, asked, listing)
      <==> Acceptable(catalogue[tool], asked, installerVersion, r) && toolchainSha != ""
  {
    hide Normalized, BlankText, IsDigest, PyStr, AsFields, Get, FieldKey, Listed, S, CommonValid;
    hide CommonRecord;
    hide RecordText, DirectValid, SourceValid, ResourcesValid, Each, Authorized, Lookup, SourceIdentity;
    hide BuilderToolchain;
    var t := catalogue[tool];
    var sha, name := Lookup(t.checksums, "source_archive"), Lookup(t.assets, "source_archive");
    var claims := [SOURCE_ARCHIVE, TOOLCHAIN, EXECUTABLE];
    RecordReadsBack(r);
    CommonAgrees(h, r, tool, t, machine, disk.files[at.name].bytes, at.name, name.value, sha.value, installerVersion,
                 claims, ExpectedVersion(t, asked));
    SourceClaims(claims);
    GetOfRecord(r, Field.Claims);
    GetOfRecord(r, ResourceTree);
    SourceFields(r, t, machine, identity, toolchainSha, claims);
  }

  lemma BoolPairFree()
    ensures Each(Bool(false), PairFree)
  {
  }

  lemma SourceClaims(claims: seq<string>)
    requires claims == [SOURCE_ARCHIVE, TOOLCHAIN, EXECUTABLE]
    ensures var items := Listed(claims).items;
      Claimed(items, SOURCE_ARCHIVE) && Claimed(items, TOOLCHAIN) && forall c :: c in items ==> !c.List? && !c.Obj?
  {
    ClaimedExactly(claims, SOURCE_ARCHIVE);
    ClaimedExactly(claims, TOOLCHAIN);
  }

  lemma SourceFields(r: Record, t: Tool, machine: Machine, identity: string, toolchainSha: string, claims: seq<string>)
    requires claims == [SOURCE_ARCHIVE, TOOLCHAIN, EXECUTABLE]
    requires Some(identity) == SourceIdentity(t) && Some(toolchainSha) == BuilderToolchain(t, machine)
    requires t.buildToolchain.Some?
    requires forall f: Field :: f in {ArtifactFilename, ArtifactSha256, BuildToolchain, BuildToolchainSha256,
      UpstreamProvenance} ==> f in r
    requires r[ArtifactFilename] == OptionalJson(Lookup(t.assets, "source_archive"))
    requires r[ArtifactSha256] == OptionalJson(Lookup(t.checksums, "source_archive"))
    requires r[BuildToolchain] == S(t.buildToolchain.value) && r[BuildToolchainSha256] == S(toolchainSha)
    requires r[UpstreamProvenance] == Bool(false)
    requires SourceCommit in r <==> t.sourceCommit.Some?
    requires t.sourceCommit.Some? ==> r[SourceCommit] == S(identity)
    requires t.sourceCommit.None? ==> SourceRevision in r && r[SourceRevision] == S(identity)
    ensures SourceValid(AsFields(r), Listed(claims).items, t, machine) <==> toolchainSha != ""
  {
    hide AsFields, Get, FieldKey, Listed, S;
    SourceClaims(claims);
    forall f: Field ensures (FieldKey(f) in AsFields(r) <==> f in r)
        && Get(AsFields(r), f) == if f in r then r[f] else Null {
      GetOfRecord(r, f);
    }
  }

  // ----- What is never accepted -----

  /** Under an injective hash one record is accepted with one content of the executable only. */
  lemma ExecutableIsBound(h: Hash, catalogue: Catalogue, tool: string, machine: Machine, a: Disk, b: Disk, at: Location,
                          expectedA: Option<string>, expectedB: Option<string>,
                          xs: seq<ResourceManifest.Entry>, ys: seq<ResourceManifest.Entry>)
    requires CollisionFree(h)
    requires Verify(h, catalogue, tool, machine, a, at, expectedA, xs)
    requires Verify(h, catalogue, tool, machine, b, at, expectedB, ys)
    requires a.records[at.name].text == b.records[at.name].text
    ensures a.files[at.name].bytes == b.files[at.name].bytes
  {
    hide Get, PyStr, IsDigest, Normalized, BlankText, DirectValid, SourceValid, ResourcesValid, JsonParser.Parse;
    var fields := JsonParser.Parse(JsonParser.KeepLast, a.records[at.name].text).value.fields;
    assert CommonValid(h, fields, tool, at.name, a.files[at.name].bytes,
                       ExpectedVersion(catalogue[tool], expectedA), machine);
    assert CommonValid(h, fields, tool, at.name, b.files[at.name].bytes,
                       ExpectedVersion(catalogue[tool], expectedB), machine);
  }

  /**
   * And a record that embeds a manifest is accepted with one resource tree only, up to
   * directories without files.
   */
  lemma ResourcesAreBound(h: Hash, catalogue: Catalogue, tool: string, machine: Machine, a: Disk, b: Disk, at: Location,
                          expectedA: Option<string>, expectedB: Option<string>,
                          xs: seq<ResourceManifest.Entry>, ys: seq<ResourceManifest.Entry>)
    requires CollisionFree(h)
    requires Verify(h, catalogue, tool, machine, a, at, expectedA, xs)
    requires Verify(h, catalogue, tool, machine, b, at, expectedB, ys)
    requires a.records[at.name].text == b.records[at.name].text
    requires Get(JsonParser.Parse(JsonParser.KeepLast, a.records[at.name].text).value.fields, ResourceTree) != Null
    requires ResourceManifest.WellNamed(a.resources) && ResourceManifest.Lists(a.resources, xs)
    requires ResourceManifest.WellNamed(b.resources) && ResourceManifest.Lists(b.resources, ys)
    ensures ResourceManifest.Pruned(a.resources) == ResourceManifest.Pruned(b.resources)
  {
    hide Get, CommonValid, DirectValid, SourceValid, ResourcesValid, JsonParser.Parse, ManifestJson, CollisionFree;
    hide ResourceManifest.WellNamed, ResourceManifest.Lists;
    var stored := Get(JsonParser.Parse(JsonParser.KeepLast, a.records[at.name].text).value.fields, ResourceTree);
    assert ResourcesValid(h, stored, a, xs) && ResourcesValid(h, stored, b, ys);
    hide Verify;
    ValidManifest(h, stored, a, xs);
    ValidManifest(h, stored, b, ys);
    var m, n := ResourceManifest.Build(h, a.resources).value, ResourceManifest.Build(h, b.resources).value;
    ManifestJsonInjective(m, n);
    ResourceManifest.EqualManifestsSamePruned(h, a.resources, b.resources);
  }

  lemma ValidManifest(h: Hash, stored: Json, disk: Disk, listing: seq<ResourceManifest.Entry>)
    requires ResourcesValid(h, stored, disk, listing)
    requires ResourceManifest.WellNamed(disk.resources) && ResourceManifest.Lists(disk.resources, listing)
    ensures ResourceManifest.Build(h, disk.resources).Some?
    ensures stored == ManifestJson(ResourceManifest.Build(h, disk.resources).value)
  {
    hide ResourceManifest.Build, ManifestJson, ResourceManifest.WellNamed, ResourceManifest.Lists;
    var actual := ResourceManifest.Scan(h, listing).value;
    ResourceManifest.VerifiesExactlyWhatBuilds(h, disk.resources, listing, actual);
  }

  // ----- A record that is built in vain -----

  /** With an empty toolchain digest in the catalogue, a record is built that the verifier refuses. */
  lemma EmptyToolchainBuilt(h: Hash, listing: seq<ResourceManifest.Entry>)
    returns (catalogue: Catalogue, machine: Machine, disk: Disk, at: Location)
    requires Digests(h)
    ensures var built := BuildSource(h, catalogue, "tool", machine, disk, at, "commit", "", "1");
      built.Some? && !Verify(h, catalogue, "tool", machine, Written(disk, at, built.value), at, None, listing)
  {
    machine := Machine("linux", "amd64");
    var source := map["source_archive" := "x"];
    catalogue := map["tool" := Tool("1", Some({SOURCE}), None, source, source, PerPlatform(map[machine.Key() := ""]),
                                    Some("go"), Some("commit"), None)];
    disk := Disk(false, map["tool" := Managed(true, true, [])], map[], ResourceManifest.Special);
    at := Location(true, "tool");
    assert BuildSource(h, catalogue, "tool", machine, disk, at, "commit", "", "1").Some? by {
      hide CommonRecord, S;
      assert Lookup(source, "source_archive") == Some("x");
    }
    hide BuildSource, Verify, Acceptable, Written;
    SourceAgreement(h, catalogue, "tool", machine, disk, at, "commit", "", "1", None, listing);
  }

  /**
   * With a leading blank in the catalogue's version, a record is built that the verifier refuses
   * unless it is asked for another version.
   */
  lemma BlankVersionBuilt(h: Hash, listing: seq<ResourceManifest.Entry>)
    returns (catalogue: Catalogue, machine: Machine, disk: Disk, at: Location)
    requires Digests(h)
    ensures var built := BuildDirect(h, catalogue, "tool", machine, disk, at, "1", None);
      built.Some? && !Verify(h, catalogue, "tool", machine, Written(disk, at, built.value), at, None, listing)
  {
    machine := Machine("linux", "amd64");
    var source := map[machine.Key() := "x"];
    catalogue := map["tool" := Tool(" 1", None, None, source, source, Missing, None, None, None)];
    disk := Disk(false, map["tool" := Managed(true, true, [])], map[], ResourceManifest.Special);
    at := Location(true, "tool");
    assert BuildDirect(h, catalogue, "tool", machine, disk, at, "1", None).Some? by {
      hide CommonRecord, S;
      assert Lookup(source, machine.Key()) == Some("x");
    }
    var t := catalogue["tool"];
    BlankOneUnclean();
    hide BuildDirect, Verify, Acceptable, Written, VersionClean;
    DirectAgreement(h, catalogue, "tool", machine, disk, at, "1", None, None, listing);
    AcceptableByDefault(t, "1", BuildDirect(h, catalogue, "tool", machine, disk, at, "1", None).value);
  }

  lemma BlankOneUnclean()
    ensures !VersionClean(" 1")
  {
    assert PyText.IsSpace(' ') && !PyText.IsSpace('1');
    var s := PyText.StripLeft(" 1");
    assert " 1"[1..] == "1";
    assert s == "1";
    PyText.StripTrimmed("1");
  }
}
