/** What an issued context holds, whom it is bound to, and what all contexts of one capability share. */
module LaunchLaws {
  import opened Prelude
  import opened Digest
  import opened Binding
  import opened LaunchContext
  import Json
  import PyText

  // ----- What a context holds -----

  /** Every identifier stripped and in its place; the fallback of the correlation id names the execution. */
  lemma IssuedCarries(h: Hash, cap: Capability, run: Run, command: seq<Text>, now: int)
    requires Issue(h, cap, run, command, now).Some?
    ensures run.requestFingerprint.Some?
    ensures var c := Issue(h, cap, run, command, now).value; var d := cap.decision;
      && c.ids.executionId == PyText.Strip(cap.executionId) && c.ids.requestId == PyText.Strip(run.requestId)
      && c.ids.organizationId == PyText.Strip(d.organizationId) && c.ids.assetId == PyText.Strip(d.assetId)
      && c.ids.targetId == PyText.Strip(d.targetId) && c.ids.targetSeal == PyText.Strip(cap.targetSeal)
      && c.ids.authorizationDecisionId == PyText.Strip(d.authorizationDecisionId)
      && c.ids.requestFingerprint == PyText.Strip(run.requestFingerprint.value)
      && c.ids.targetPolicyVersion == PyText.Strip(d.targetPolicyVersion)
      && c.ids.operationPolicyRevision == PyText.Strip(d.operationPolicyRevision)
      && c.ids.toolId == PyText.Strip(cap.toolId) && c.ids.operationFamily == PyText.Strip(cap.operationFamily)
      && c.ids.workerIdentity == PyText.Strip(cap.workerIdentity)
      && c.ids.workerGeneration == PyText.Strip(cap.workerGeneration)
      && c.ids.sessionJti == PyText.Strip(d.sessionJti)
      && c.ids.correlationId
         == PyText.Strip(if run.correlationId == "" then "corr-execution-" + cap.executionId else run.correlationId)
      && c.ids.authorityToken == PyText.Strip(cap.dispatchClaimToken)
      && c.exactCommand == command && c.expiresAt == d.expiresAt && c.projectId == d.projectId
    ensures var c := Issue(h, cap, run, command, now).value; var maps := cap.decision.maps;
      && Some(c.options) == Freeze(Dict(maps.options)) && Some(c.resources) == Freeze(Dict(maps.resources))
      && Some(c.impact) == Freeze(Dict(maps.impact)) && Some(c.credentials) == Freeze(Dict(maps.credentials))
  {
    hide Freeze, BindingDigest, BindingDigests, ContextCommandDigest, ValidForLaunch, Identity.NonBlank;
    hide PyText.Strip, SnapshotMatches;
  }

  // ----- Whom it is bound to -----

  /** Each of the four maps has a digest and freezes as its counterpart does. */
  ghost predicate FrozenAlike(h: Hash, m: Maps, n: Maps) {
    && BindingDigest(h, Dict(m.options)).Some? && Freeze(Dict(m.options)) == Freeze(Dict(n.options))
    && BindingDigest(h, Dict(m.resources)).Some? && Freeze(Dict(m.resources)) == Freeze(Dict(n.resources))
    && BindingDigest(h, Dict(m.impact)).Some? && Freeze(Dict(m.impact)) == Freeze(Dict(n.impact))
    && BindingDigest(h, Dict(m.credentials)).Some? && Freeze(Dict(m.credentials)) == Freeze(Dict(n.credentials))
  }

  /**
   * The capabilities that an issued context is bound to: those that show the stripped identifiers of
   * its issuer, its project, its unstripped session and, map by map, what freezes as its own does.
   */
  lemma BoundExactly(h: Hash, cap: Capability, run: Run, command: seq<Text>, now: int, other: Capability)
    requires CollisionFree(h) && Issue(h, cap, run, command, now).Some?
    ensures var d := other.decision; var own := cap.decision;
      Bound(h, Issue(h, cap, run, command, now).value, other)
      <==> (&& other.executionId == PyText.Strip(cap.executionId)
            && d.organizationId == PyText.Strip(own.organizationId) && d.assetId == PyText.Strip(own.assetId)
            && other.targetSeal == PyText.Strip(cap.targetSeal)
            && d.authorizationDecisionId == PyText.Strip(own.authorizationDecisionId)
            && d.targetPolicyVersion == PyText.Strip(own.targetPolicyVersion)
            && d.operationPolicyRevision == PyText.Strip(own.operationPolicyRevision)
            && other.toolId == PyText.Strip(cap.toolId)
            && other.operationFamily == PyText.Strip(cap.operationFamily)
            && other.workerIdentity == PyText.Strip(cap.workerIdentity)
            && other.workerGeneration == PyText.Strip(cap.workerGeneration)
            && d.sessionJti == PyText.Strip(own.sessionJti)
            && other.dispatchClaimToken == PyText.Strip(cap.dispatchClaimToken)
            && d.projectId == own.projectId
            && d.sessionJti == own.sessionJti
            && FrozenAlike(h, d.maps, own.maps))
  {
    IssuedShape(h, cap, run, command, now);
    IssuedCarries(h, cap, run, command, now);
    MapsIdentified(h, other.decision.maps, cap.decision.maps);
    SameReference(other.decision.sessionJti, cap.decision.sessionJti);
    hide Freeze, BindingDigest, BindingDigests, ContextCommandDigest, Issue, FrozenAlike, PyText.Strip, RunMatches;
    hide Identity.Stripped;
  }

  lemma SameReference(a: string, b: string)
    ensures "session-jti:" + a == "session-jti:" + b <==> a == b
  {
    assert ("session-jti:" + a)[12..] == a && ("session-jti:" + b)[12..] == b;
  }

  lemma MapsIdentified(h: Hash, m: Maps, n: Maps)
    requires CollisionFree(h) && BindingDigests(h, n).Some?
    ensures BindingDigests(h, m) == BindingDigests(h, n) <==> FrozenAlike(h, m, n)
  {
    hide Freeze, BindingDigest;
    MapIdentified(h, m.options, n.options);
    MapIdentified(h, m.resources, n.resources);
    MapIdentified(h, m.impact, n.impact);
    MapIdentified(h, m.credentials, n.credentials);
  }

  lemma MapIdentified(h: Hash, m: map<Text, Value>, n: map<Text, Value>)
    requires CollisionFree(h) && BindingDigest(h, Dict(n)).Some?
    ensures BindingDigest(h, Dict(m)) == BindingDigest(h, Dict(n))
       <==> BindingDigest(h, Dict(m)).Some? && Freeze(Dict(m)) == Freeze(Dict(n))
  {
    hide Freeze, BindingDigest;
    if BindingDigest(h, Dict(m)).Some? {
      DigestsIdentifyFrozen(h, Dict(m), Dict(n));
    }
  }

  // ----- What the contexts of one capability share -----

  /** Whatever run rows and commands they are issued with, they differ in what the run row names at most. */
  lemma OneCapabilityOneLaunch(h: Hash, cap: Capability, a: Run, b: Run, x: seq<Text>, y: seq<Text>, s: int, t: int)
    requires CollisionFree(h)
    requires Issue(h, cap, a, x, s).Some? && Issue(h, cap, b, y, t).Some?
    ensures var c, e := Issue(h, cap, a, x, s).value, Issue(h, cap, b, y, t).value;
      c.(ids := e.ids) == e
      && c.ids.(requestId := e.ids.requestId, requestFingerprint := e.ids.requestFingerprint,
                correlationId := e.ids.correlationId) == e.ids
  {
    OneCommand(h, cap, a, b, x, y, s, t);
    IssuedShape(h, cap, a, x, s);
    IssuedShape(h, cap, b, y, t);
    IssuedCarries(h, cap, a, x, s);
    IssuedCarries(h, cap, b, y, t);
    hide Freeze, BindingDigest, BindingDigests, ContextCommandDigest, Issue, PyText.Strip, RunMatches;
    hide Identity.Stripped;
  }

  lemma OneCommand(h: Hash, cap: Capability, a: Run, b: Run, x: seq<Text>, y: seq<Text>, s: int, t: int)
    requires CollisionFree(h)
    requires Issue(h, cap, a, x, s).Some? && Issue(h, cap, b, y, t).Some?
    ensures x == y
  {
    IssuedExactlyWhenIssuable(h, cap, a, x, s);
    IssuedExactlyWhenIssuable(h, cap, b, y, t);
    assert x != [] by { hide Issue; }
    hide BindingDigest, ContextCommandDigest, CapabilityCommandDigest, OperationDigest, NothingBlank, Issue;
    BothChecksLeaveOneVector(h, x, x, y);
  }
}
