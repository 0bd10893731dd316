/** Issuing a launch context from a claimed capability, and the checks it must pass afterwards. */
module LaunchContext {
  import opened Prelude
  import opened Digest
  import opened Binding
  import opened Snapshots
  import opened ExecutionProof
  import Json
  import PyText
  import Utf8

  /** The identifying strings of a context: required, and stripped by the model that holds them. */
  datatype Identity = Identity(
    executionId: string, requestId: string, organizationId: string, assetId: string, targetId: string,
    targetSeal: string, authorizationDecisionId: string, requestFingerprint: string,
    targetPolicyVersion: string, operationPolicyRevision: string, toolId: string, operationFamily: string,
    workerIdentity: string, workerGeneration: string, sessionJti: string, correlationId: string,
    authorityToken: string)
  {
    function All(): seq<string> {
      [executionId, requestId, organizationId, assetId, targetId, targetSeal, authorizationDecisionId,
       requestFingerprint, targetPolicyVersion, operationPolicyRevision, toolId, operationFamily,
       workerIdentity, workerGeneration, sessionJti, correlationId, authorityToken]
    }

    /** `_require_nonblank` on every field. */
    predicate NonBlank() {
      forall s | s in All() :: PyText.Strip(s) != ""
    }

    function Stripped(): Identity {
      Identity(PyText.Strip(executionId), PyText.Strip(requestId), PyText.Strip(organizationId),
               PyText.Strip(assetId), PyText.Strip(targetId), PyText.Strip(targetSeal),
               PyText.Strip(authorizationDecisionId), PyText.Strip(requestFingerprint),
               PyText.Strip(targetPolicyVersion), PyText.Strip(operationPolicyRevision), PyText.Strip(toolId),
               PyText.Strip(operationFamily), PyText.Strip(workerIdentity), PyText.Strip(workerGeneration),
               PyText.Strip(sessionJti), PyText.Strip(correlationId), PyText.Strip(authorityToken))
    }
  }

  /** The four maps an approval fixes. */
  datatype Maps = Maps(options: map<Text, Value>, resources: map<Text, Value>,
                       impact: map<Text, Value>, credentials: map<Text, Value>)

  datatype Digests4 = Digests4(options: string, resources: string, impact: string, credentials: string)

  datatype Decision = Decision(
    id: string, organizationId: string, projectId: Option<string>, assetId: string, targetId: string,
    authorizationDecisionId: string, targetPolicyVersion: string, operationPolicyRevision: string,
    sessionJti: string, maps: Maps, expiresAt: int)

  datatype Capability = Capability(
    decision: Decision, targetSeal: string, toolId: string, operationFamily: string,
    operationOptionsDigest: string, commandDigest: string, workerIdentity: string, workerGeneration: string,
    claimToken: string, dispatchClaimToken: string, executionId: string)

  /** The durable run row. */
  datatype Run = Run(
    decisionId: string, organizationId: string, workerGeneration: string, requestId: string,
    requestFingerprint: Option<string>, correlationId: string, operationPolicyRevision: string,
    projectId: Option<string>, targetPolicyVersion: string, maps: Maps)

  datatype Context = Context(
    ids: Identity, projectId: Option<string>,
    options: Value, resources: Value, impact: Value, credentials: Value, digests: Digests4,
    revocationCheckReference: string, expiresAt: int, exactCommand: seq<Text>, commandDigest: string)

  // ----- Issuing -----

  predicate Serializable(v: Value) {
    match v
    case Moment(_) => false
    case Foreign => false
    case List(items) => forall x | x in items :: Serializable(x)
    case Tuple(items) => forall x | x in items :: Serializable(x)
    case Dict(entries) => forall k | k in entries :: Serializable(entries[k])
    case _ => true
  }

  function AsJson(v: Value): Json.Json
    requires Serializable(v)
  {
    match v
    case Nothing => Json.Null
    case Boolean(b) => Json.Bool(b)
    case Whole(n) => Json.Int(n)
    case Str(t) => Json.Str(t)
    case List(items) => Json.List(seq(|items|, i requires 0 <= i < |items| => AsJson(items[i])))
    case Tuple(items) => Json.List(seq(|items|, i requires 0 <= i < |items| => AsJson(items[i])))
    case Dict(entries) => Json.Obj(map k | k in entries :: AsJson(entries[k]))
  }

  /** `_operation_digest` */
  function OperationDigest(h: Hash, options: map<Text, Value>): Option<string> {
    if Serializable(Dict(options)) then Some(h(Utf8.Encode(Json.Print(AsJson(Dict(options)), COMPACT)))) else None
  }

  /** The four digests of a set of maps, if none of them raises. */
  function BindingDigests(h: Hash, maps: Maps): Option<Digests4> {
    var options :- BindingDigest(h, Dict(maps.options));
    var resources :- BindingDigest(h, Dict(maps.resources));
    var impact :- BindingDigest(h, Dict(maps.impact));
    var credentials :- BindingDigest(h, Dict(maps.credentials));
    Some(Digests4(options, resources, impact, credentials))
  }

  /** `assert_valid_for_launch` as the issuer calls it: on its own fields and a given command. */
  predicate ValidForLaunch(h: Hash, cap: Capability, command: seq<Text>) {
    && OperationDigest(h, cap.decision.maps.options) == Some(cap.operationOptionsDigest)
    && CapabilityCommandDigest(h, command) == Some(cap.commandDigest)
  }

  /** The four maps of the run row, compared as Python compares dictionaries. */
  predicate SnapshotMatches(stored: Maps, approved: Maps) {
    && PyEqual(Dict(stored.options), Dict(approved.options))
    && PyEqual(Dict(stored.resources), Dict(approved.resources))
    && PyEqual(Dict(stored.impact), Dict(approved.impact))
    && PyEqual(Dict(stored.credentials), Dict(approved.credentials))
  }

  /** A run row that holds the approved maps themselves always matches. */
  lemma OwnSnapshotMatches(maps: Maps)
    ensures SnapshotMatches(maps, maps)
  {
    PyEqualSelf(Dict(maps.options));
    PyEqualSelf(Dict(maps.resources));
    PyEqualSelf(Dict(maps.impact));
    PyEqualSelf(Dict(maps.credentials));
  }

  /** What the snapshot comparison is for: whatever run row passes it carries the approved digests. */
  ghost predicate SnapshotPinsDigests(h: Hash, approved: Maps) {
    forall stored :: SnapshotMatches(stored, approved) ==> BindingDigests(h, stored) == BindingDigests(h, approved)
  }

  /** That is so exactly if none of the four maps holds a Boolean or an integer 0 or 1. */
  lemma SnapshotPinsExactly(h: Hash, approved: Maps)
    requires CollisionFree(h) && BindingDigests(h, approved).Some?
    ensures SnapshotPinsDigests(h, approved)
       <==> (Definite(Dict(approved.options)) && Definite(Dict(approved.resources))
             && Definite(Dict(approved.impact)) && Definite(Dict(approved.credentials)))
  {
    hide BindingDigest, PyEqual, Definite;
    OwnSnapshotMatches(approved);
    if !Definite(Dict(approved.options)) {
      var n := OtherSnapshot(h, approved.options);
      assert SnapshotMatches(approved.(options := n), approved);
    } else if !Definite(Dict(approved.resources)) {
      var n := OtherSnapshot(h, approved.resources);
      assert SnapshotMatches(approved.(resources := n), approved);
    } else if !Definite(Dict(approved.impact)) {
      var n := OtherSnapshot(h, approved.impact);
      assert SnapshotMatches(approved.(impact := n), approved);
    } else if !Definite(Dict(approved.credentials)) {
      var n := OtherSnapshot(h, approved.credentials);
      assert SnapshotMatches(approved.(credentials := n), approved);
    } else {
      forall stored | SnapshotMatches(stored, approved) ensures stored == approved {
        DefiniteAlone(Dict(stored.options), Dict(approved.options));
        DefiniteAlone(Dict(stored.resources), Dict(approved.resources));
        DefiniteAlone(Dict(stored.impact), Dict(approved.impact));
        DefiniteAlone(Dict(stored.credentials), Dict(approved.credentials));
      }
    }
  }

  predicate RunMatches(cap: Capability, run: Run) {
    && run.decisionId == cap.decision.id
    && run.organizationId == cap.decision.organizationId
    && run.workerGeneration == cap.workerGeneration
    && run.requestFingerprint.Some?
    && run.operationPolicyRevision == cap.decision.operationPolicyRevision
    && run.projectId == cap.decision.projectId
    && run.targetPolicyVersion == cap.decision.targetPolicyVersion
    && SnapshotMatches(run.maps, cap.decision.maps)
  }

  /** The identity handed to the context model, before it strips anything. */
  function RawIdentity(cap: Capability, run: Run): Identity
    requires run.requestFingerprint.Some?
  {
    var d := cap.decision;
    var correlation := if run.correlationId != "" then run.correlationId else "corr-execution-" + cap.executionId;
    Identity(cap.executionId, run.requestId, d.organizationId, d.assetId, d.targetId, cap.targetSeal,
             d.authorizationDecisionId, run.requestFingerprint.value, d.targetPolicyVersion,
             d.operationPolicyRevision, cap.toolId, cap.operationFamily, cap.workerIdentity,
             cap.workerGeneration, d.sessionJti, correlation, cap.dispatchClaimToken)
  }

  /** The validators of the context model. */
  function Validate(h: Hash, raw: Context, now: int): Option<Context> {
    if !raw.ids.NonBlank() then None
    else if ContextCommandDigest(h, raw.exactCommand) != Some(raw.commandDigest) then None
    else if BindingDigest(h, raw.options) != Some(raw.digests.options) then None
    else if BindingDigest(h, raw.resources) != Some(raw.digests.resources) then None
    else if BindingDigest(h, raw.impact) != Some(raw.digests.impact) then None
    else if BindingDigest(h, raw.credentials) != Some(raw.digests.credentials) then None
    else if raw.expiresAt <= now then None
    else Some(raw.(ids := raw.ids.Stripped()))
  }

  /** `issue_execution_context`; `None` where it raises. */
  function Issue(h: Hash, cap: Capability, run: Run, command: seq<Text>, now: int): Option<Context> {
    if cap.executionId == "" || cap.dispatchClaimToken == "" || cap.claimToken == "" then None
    else if !ValidForLaunch(h, cap, command) || !RunMatches(cap, run) then None
    else
      var maps := cap.decision.maps;
      var options :- Freeze(Dict(maps.options));
      var resources :- Freeze(Dict(maps.resources));
      var impact :- Freeze(Dict(maps.impact));
      var credentials :- Freeze(Dict(maps.credentials));
      var digests :- BindingDigests(h, maps);
      var commandDigest :- ContextCommandDigest(h, command);
      Validate(h, Context(RawIdentity(cap, run), cap.decision.projectId, options, resources, impact, credentials,
                          digests, "session-jti:" + cap.decision.sessionJti, cap.decision.expiresAt,
                          command, commandDigest), now)
  }

  // ----- Checks on an issued context -----

  /** `assert_bound_to_capability`, for a context in the registry. */
  predicate Bound(h: Hash, c: Context, cap: Capability) {
    var d := cap.decision;
    && cap.executionId == c.ids.executionId
    && c.ids.organizationId == d.organizationId
    && c.projectId == d.projectId
    && c.ids.assetId == d.assetId
    && c.ids.targetSeal == cap.targetSeal
    && c.ids.authorizationDecisionId == d.authorizationDecisionId
    && c.ids.targetPolicyVersion == d.targetPolicyVersion
    && c.ids.toolId == cap.toolId
    && c.ids.operationFamily == cap.operationFamily
    && BindingDigests(h, d.maps) == Some(c.digests)
    && c.ids.operationPolicyRevision == d.operationPolicyRevision
    && c.ids.workerIdentity == cap.workerIdentity
    && c.ids.workerGeneration == cap.workerGeneration
    && c.ids.sessionJti == d.sessionJti
    && c.ids.authorityToken == cap.dispatchClaimToken
    && c.revocationCheckReference == "session-jti:" + d.sessionJti
  }

  /** `assert_launch`, for a context in the registry; a command it cannot digest is refused too. */
  predicate Launches(h: Hash, c: Context, executionId: string, organizationId: string, command: seq<Text>, now: int) {
    && now < c.expiresAt
    && executionId == c.ids.executionId && organizationId == c.ids.organizationId
    && ContextCommandDigest(h, command) == Some(c.commandDigest)
  }

  // ----- Main results -----

  /** What the issuer needs, comparison by comparison; no digest is left in it but those of the capability. */
  ghost predicate Issuable(h: Hash, cap: Capability, run: Run, command: seq<Text>, now: int) {
    var d := cap.decision;
    && cap.executionId != "" && cap.dispatchClaimToken != "" && cap.claimToken != ""
    && OperationDigest(h, d.maps.options) == Some(cap.operationOptionsDigest)
    && CapabilityCommandDigest(h, command) == Some(cap.commandDigest)
    && run.decisionId == d.id && run.organizationId == d.organizationId
    && run.workerGeneration == cap.workerGeneration && run.requestFingerprint.Some?
    && run.operationPolicyRevision == d.operationPolicyRevision && run.projectId == d.projectId
    && run.targetPolicyVersion == d.targetPolicyVersion
    && PyEqual(Dict(run.maps.options), Dict(d.maps.options))
    && PyEqual(Dict(run.maps.resources), Dict(d.maps.resources))
    && PyEqual(Dict(run.maps.impact), Dict(d.maps.impact))
    && PyEqual(Dict(run.maps.credentials), Dict(d.maps.credentials))
    && BindingDigest(h, Dict(d.maps.options)).Some? && BindingDigest(h, Dict(d.maps.resources)).Some?
    && BindingDigest(h, Dict(d.maps.impact)).Some? && BindingDigest(h, Dict(d.maps.credentials)).Some?
    && ContextCommandDigest(h, command).Some?
    && NothingBlank(cap, run)
    && now < d.expiresAt
  }

  /** None of the seventeen identifying strings is empty or all blank. */
  ghost predicate NothingBlank(cap: Capability, run: Run)
    requires run.requestFingerprint.Some?
  {
    var d := cap.decision;
    && PyText.Strip(cap.executionId) != "" && PyText.Strip(run.requestId) != ""
    && PyText.Strip(d.organizationId) != "" && PyText.Strip(d.assetId) != "" && PyText.Strip(d.targetId) != ""
    && PyText.Strip(cap.targetSeal) != "" && PyText.Strip(d.authorizationDecisionId) != ""
    && PyText.Strip(run.requestFingerprint.value) != "" && PyText.Strip(d.targetPolicyVersion) != ""
    && PyText.Strip(d.operationPolicyRevision) != "" && PyText.Strip(cap.toolId) != ""
    && PyText.Strip(cap.operationFamily) != "" && PyText.Strip(cap.workerIdentity) != ""
    && PyText.Strip(cap.workerGeneration) != "" && PyText.Strip(d.sessionJti) != ""
    && (run.correlationId != "" ==> PyText.Strip(run.correlationId) != "")
    && PyText.Strip(cap.dispatchClaimToken) != ""
  }

  lemma RawNonBlank(cap: Capability, run: Run)
    requires run.requestFingerprint.Some?
    ensures RawIdentity(cap, run).NonBlank() <==> NothingBlank(cap, run)
  {
    DefaultCorrelation(cap.executionId);
    NonBlankMeans(RawIdentity(cap, run));
    hide PyText.Strip, Identity.NonBlank;
  }

  lemma NonBlankMeans(ids: Identity)
    ensures ids.NonBlank() <==>
      && PyText.Strip(ids.executionId) != "" && PyText.Strip(ids.requestId) != ""
      && PyText.Strip(ids.organizationId) != "" && PyText.Strip(ids.assetId) != ""
      && PyText.Strip(ids.targetId) != "" && PyText.Strip(ids.targetSeal) != ""
      && PyText.Strip(ids.authorizationDecisionId) != "" && PyText.Strip(ids.requestFingerprint) != ""
      && PyText.Strip(ids.targetPolicyVersion) != "" && PyText.Strip(ids.operationPolicyRevision) != ""
      && PyText.Strip(ids.toolId) != "" && PyText.Strip(ids.operationFamily) != ""
      && PyText.Strip(ids.workerIdentity) != "" && PyText.Strip(ids.workerGeneration) != ""
      && PyText.Strip(ids.sessionJti) != "" && PyText.Strip(ids.correlationId) != ""
      && PyText.Strip(ids.authorityToken) != ""
  {
    hide PyText.Strip, NoneBlank;
    var a := [ids.executionId, ids.requestId, ids.organizationId, ids.assetId];
    var b := [ids.targetId, ids.targetSeal, ids.authorizationDecisionId, ids.requestFingerprint];
    var c := [ids.targetPolicyVersion, ids.operationPolicyRevision, ids.toolId, ids.operationFamily];
    var d := [ids.workerIdentity, ids.workerGeneration, ids.sessionJti, ids.correlationId];
    var e := [ids.authorityToken];
    assert ids.All() == a + b + c + d + e;
    assert ids.NonBlank() <==> NoneBlank(ids.All()) by { AllNonBlank(ids); }
    FourNonBlank(ids.executionId, ids.requestId, ids.organizationId, ids.assetId);
    FourNonBlank(ids.targetId, ids.targetSeal, ids.authorizationDecisionId, ids.requestFingerprint);
    FourNonBlank(ids.targetPolicyVersion, ids.operationPolicyRevision, ids.toolId, ids.operationFamily);
    FourNonBlank(ids.workerIdentity, ids.workerGeneration, ids.sessionJti, ids.correlationId);
    OneNonBlank(ids.authorityToken);
    BothNonBlank(a, b);
    BothNonBlank(a + b, c);
    BothNonBlank(a + b + c, d);
    BothNonBlank(a + b + c + d, e);
  }

  predicate NoneBlank(ss: seq<string>) {
    forall s | s in ss :: PyText.Strip(s) != ""
  }

  lemma AllNonBlank(ids: Identity)
    ensures ids.NonBlank() <==> NoneBlank(ids.All())
  {
    hide Identity.All, PyText.Strip;
  }

  lemma BothNonBlank(a: seq<string>, b: seq<string>)
    ensures NoneBlank(a + b) <==> NoneBlank(a) && NoneBlank(b)
  {
    hide PyText.Strip;
    assert forall s :: s in a + b <==> s in a || s in b;
  }

  lemma FourNonBlank(a: string, b: string, c: string, d: string)
    ensures NoneBlank([a, b, c, d])
       <==> PyText.Strip(a) != "" && PyText.Strip(b) != "" && PyText.Strip(c) != "" && PyText.Strip(d) != ""
  {
    hide PyText.Strip;
    assert forall s :: s in [a, b, c, d] <==> s == a || s == b || s == c || s == d;
  }

  lemma OneNonBlank(a: string)
    ensures NoneBlank([a]) <==> PyText.Strip(a) != ""
  {
    hide PyText.Strip;
    assert forall s :: s in [a] <==> s == a;
  }

  lemma DefaultCorrelation(executionId: string)
    ensures PyText.Strip("corr-execution-" + executionId) != ""
  {
    var s := "corr-execution-" + executionId;
    assert s[0] == 'c' && !PyText.IsSpace('c');
    hide PyText.IsSpace;
    assert PyText.StripLeft(s) == s;
  }

  /** A context is issued whenever those conditions hold: its own four digest checks can never fail. */
  lemma IssuedExactlyWhenIssuable(h: Hash, cap: Capability, run: Run, command: seq<Text>, now: int)
    ensures Issue(h, cap, run, command, now).Some? <==> Issuable(h, cap, run, command, now)
  {
    IssuedWhen(h, cap, run, command, now);
    hide BindingDigest, ContextCommandDigest, CapabilityCommandDigest, OperationDigest, NothingBlank, Issue, PyEqual;
    hide Identity.NonBlank;
    if run.requestFingerprint.Some? {
      RawNonBlank(cap, run);
    }
  }

  lemma IssuedWhen(h: Hash, cap: Capability, run: Run, command: seq<Text>, now: int)
    ensures Issue(h, cap, run, command, now).Some? <==>
      && cap.executionId != "" && cap.dispatchClaimToken != "" && cap.claimToken != ""
      && ValidForLaunch(h, cap, command) && RunMatches(cap, run)
      && BindingDigests(h, cap.decision.maps).Some? && ContextCommandDigest(h, command).Some?
      && run.requestFingerprint.Some? && RawIdentity(cap, run).NonBlank()
      && now < cap.decision.expiresAt
  {
    hide Freeze, BindingDigest, ContextCommandDigest, ValidForLaunch, RunMatches, Identity.NonBlank, Identity.Stripped;
    var maps := cap.decision.maps;
    DigestOfFrozen(h, maps.options);
    DigestOfFrozen(h, maps.resources);
    DigestOfFrozen(h, maps.impact);
    DigestOfFrozen(h, maps.credentials);
    assert RunMatches(cap, run) ==> run.requestFingerprint.Some? by { MatchedRun(cap, run); }
  }

  lemma MatchedRun(cap: Capability, run: Run)
    ensures RunMatches(cap, run) ==> run.requestFingerprint.Some?
  {
  }

  lemma DigestOfFrozen(h: Hash, m: map<Text, Value>)
    ensures BindingDigest(h, Dict(m)).Some? ==> Freeze(Dict(m)).Some?
    ensures Freeze(Dict(m)).Some? ==> BindingDigest(h, Freeze(Dict(m)).value) == BindingDigest(h, Dict(m))
  {
    if Freeze(Dict(m)).Some? {
      FreezeIdempotent(h, Dict(m));
    }
  }

  /** The identifiers that the binding check compares with their unstripped originals. */
  ghost predicate ComparedTrimmed(cap: Capability) {
    var d := cap.decision;
    && PyText.Trimmed(cap.executionId) && PyText.Trimmed(d.organizationId) && PyText.Trimmed(d.assetId)
    && PyText.Trimmed(cap.targetSeal) && PyText.Trimmed(d.authorizationDecisionId)
    && PyText.Trimmed(d.targetPolicyVersion) && PyText.Trimmed(cap.toolId) && PyText.Trimmed(cap.operationFamily)
    && PyText.Trimmed(d.operationPolicyRevision) && PyText.Trimmed(cap.workerIdentity)
    && PyText.Trimmed(cap.workerGeneration) && PyText.Trimmed(d.sessionJti)
    && PyText.Trimmed(cap.dispatchClaimToken)
  }

  /** What an issued context takes from its issuer. */
  lemma IssuedShape(h: Hash, cap: Capability, run: Run, command: seq<Text>, now: int)
    requires Issue(h, cap, run, command, now).Some?
    ensures var c := Issue(h, cap, run, command, now).value;
      && RunMatches(cap, run) && c.ids == RawIdentity(cap, run).Stripped() && c.projectId == cap.decision.projectId
      && BindingDigests(h, cap.decision.maps) == Some(c.digests)
      && c.revocationCheckReference == "session-jti:" + cap.decision.sessionJti
      && c.expiresAt == cap.decision.expiresAt && ContextCommandDigest(h, command) == Some(c.commandDigest)
    ensures run.requestFingerprint.Some?
  {
    hide Freeze, BindingDigest, BindingDigests, ContextCommandDigest, ValidForLaunch, Identity.NonBlank;
    hide PyText.Strip, SnapshotMatches, Identity.Stripped;
  }

  /** An issued context is bound to its issuer exactly when none of those identifiers has blanks around it. */
  lemma IssuedIsBound(h: Hash, cap: Capability, run: Run, command: seq<Text>, now: int)
    requires Issue(h, cap, run, command, now).Some?
    ensures Bound(h, Issue(h, cap, run, command, now).value, cap) <==> ComparedTrimmed(cap)
  {
    IssuedShape(h, cap, run, command, now);
    hide Freeze, BindingDigest, BindingDigests, ContextCommandDigest, ValidForLaunch, Identity.NonBlank;
    hide PyText.Strip, PyText.Trimmed, Issue, Validate, RunMatches;
    var d := cap.decision;
    PyText.StripTrimmed(cap.executionId);
    PyText.StripTrimmed(d.organizationId);
    PyText.StripTrimmed(d.assetId);
    PyText.StripTrimmed(cap.targetSeal);
    PyText.StripTrimmed(d.authorizationDecisionId);
    PyText.StripTrimmed(d.targetPolicyVersion);
    PyText.StripTrimmed(cap.toolId);
    PyText.StripTrimmed(cap.operationFamily);
    PyText.StripTrimmed(d.operationPolicyRevision);
    PyText.StripTrimmed(cap.workerIdentity);
    PyText.StripTrimmed(cap.workerGeneration);
    PyText.StripTrimmed(d.sessionJti);
    PyText.StripTrimmed(cap.dispatchClaimToken);
  }

  /** Such an issuer: its execution id starts with a blank, a context is issued, and is not bound to it. */
  lemma BlankIdentifierUnbound(h: Hash, now: int)
    returns (cap: Capability, run: Run, command: seq<Text>)
    ensures Issue(h, cap, run, command, now).Some?
    ensures !Bound(h, Issue(h, cap, run, command, now).value, cap)
  {
    command := [[0x78]];
    NothingDigests(h, command);
    cap := BlankCapability(OperationDigest(h, map[]).value, CapabilityCommandDigest(h, command).value, now);
    run := OwnRun();
    BlankIsIssuable(h, command, now);
    hide Issuable, Issue, Bound, ComparedTrimmed;
    IssuedExactlyWhenIssuable(h, cap, run, command, now);
    IssuedIsBound(h, cap, run, command, now);
  }

  const NO_MAPS := Maps(map[], map[], map[], map[])

  function BlankCapability(optionsDigest: string, commandDigest: string, now: int): Capability {
    Capability(Decision("x", "x", None, "x", "x", "x", "x", "x", "x", NO_MAPS, now + 1),
               "x", "x", "x", optionsDigest, commandDigest, "x", "x", "x", "x", " x")
  }

  function OwnRun(): Run {
    Run("x", "x", "x", "x", Some("x"), "x", "x", None, "x", NO_MAPS)
  }

  lemma BlankIsIssuable(h: Hash, command: seq<Text>, now: int)
    requires command == [[0x78]]
    requires OperationDigest(h, map[]).Some? && CapabilityCommandDigest(h, command).Some?
    requires ContextCommandDigest(h, command).Some? && BindingDigest(h, Dict(map[])).Some?
    ensures var cap := BlankCapability(OperationDigest(h, map[]).value, CapabilityCommandDigest(h, command).value, now);
      Issuable(h, cap, OwnRun(), command, now) && !ComparedTrimmed(cap)
  {
    hide BindingDigest, OperationDigest, ContextCommandDigest, CapabilityCommandDigest, NothingBlank;
    hide PyText.Strip, PyText.Trimmed, PyEqual, BindingDigests, ComparedTrimmed, Identity.NonBlank;
    var options, digest := OperationDigest(h, map[]).value, CapabilityCommandDigest(h, command).value;
    BlankUntrimmed(options, digest, now);
    PyEqualSelf(Dict(map[]));
    LettersNonBlank(RawIdentity(BlankCapability(options, digest, now), OwnRun()));
    RawNonBlank(BlankCapability(options, digest, now), OwnRun());
  }

  lemma BlankUntrimmed(optionsDigest: string, commandDigest: string, now: int)
    ensures !ComparedTrimmed(BlankCapability(optionsDigest, commandDigest, now))
  {
    BlankAndLetter();
    hide PyText.Trimmed;
  }

  lemma LettersNonBlank(ids: Identity)
    requires ids == Identity(" x", "x", "x", "x", "x", "x", "x", "x", "x", "x", "x", "x", "x", "x", "x", "x", "x")
    ensures ids.NonBlank()
  {
    BlankAndLetter();
    hide PyText.Strip, PyText.Trimmed;
  }

  lemma NothingDigests(h: Hash, command: seq<Text>)
    requires command == [[0x78]]
    ensures BindingDigest(h, Dict(map[])).Some? && OperationDigest(h, map[]).Some?
    ensures CapabilityCommandDigest(h, command).Some? && ContextCommandDigest(h, command).Some?
  {
    var m: map<Text, Value> := map[];
    assert Freeze(Dict(m)) == Some(Tuple([]));
  }

  lemma BlankAndLetter()
    ensures PyText.Strip("x") != "" && PyText.Strip(" x") != "" && !PyText.Trimmed(" x")
  {
    assert PyText.IsSpace(' ') && !PyText.IsSpace('x');
    hide PyText.IsSpace;
    assert " x"[1..] == "x";
    assert PyText.StripLeft("x") == "x" && PyText.StripLeft(" x") == "x";
    assert PyText.StripRight("x") == "x";
  }

  /** And it launches its own command under its own identity until it expires, and nothing else. */
  lemma IssuedLaunchesOneCommand(h: Hash, cap: Capability, run: Run, command: seq<Text>, now: int,
                                 executionId: string, organizationId: string, launched: seq<Text>, later: int)
    requires CollisionFree(h)
    requires Issue(h, cap, run, command, now).Some?
    ensures var c := Issue(h, cap, run, command, now).value;
      Launches(h, c, executionId, organizationId, launched, later)
      <==> (launched == command && later < cap.decision.expiresAt
            && executionId == PyText.Strip(cap.executionId)
            && organizationId == PyText.Strip(cap.decision.organizationId))
  {
    IssuedShape(h, cap, run, command, now);
    hide Freeze, BindingDigest, BindingDigests, ContextCommandDigest, ValidForLaunch, Identity.NonBlank, PyText.Strip;
    hide Issue, Validate, RunMatches;
    LaunchAcceptsOneVector(h, command, launched);
  }
}
