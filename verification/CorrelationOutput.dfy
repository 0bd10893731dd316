/** What a root cause says of the occurrences that point at it, read off the output alone. */
module CorrelationOutput {
  import opened Prelude
  import opened Correlator
  import opened CorrelationLaws
  import opened CorrelationCounts
  import PyText

  // ----- Where the occurrences of a root cause stand -----

  /** How many occurrences the clusters before the `i`-th have. */
  function Start(cs: seq<Cluster>, i: nat): nat
    requires i <= |cs|
  {
    if i == 0 then 0 else Start(cs, i - 1) + |cs[i - 1].Members()|
  }

  lemma {:induction false} StartPrefix(cs: seq<Cluster>, c: Cluster, i: nat)
    requires i <= |cs|
    ensures Start(cs + [c], i) == Start(cs, i)
  {
    if i > 0 {
      StartPrefix(cs, c, i - 1);
    }
  }

  /** The `i`-th root cause is made of the `i`-th cluster, and its occurrences are one block. */
  lemma {:induction false} Emitted(cs: seq<Cluster>, i: nat)
    requires i < |cs|
    ensures var o := EmitAll(cs); var a, n := Start(cs, i), |cs[i].Members()|;
      && |o.canonicals| == |cs| && o.canonicals[i] == CanonicalOf(i, cs[i])
      && a + n <= |o.occurrences| && o.occurrences[a..a + n] == OccurrencesOf(i, cs[i])
    decreases |cs|
  {
    hide CanonicalOf, OccurrencesOf;
    var init, last := cs[..|cs| - 1], cs[|cs| - 1];
    assert cs == init + [last];
    EmittedLength(init);
    StartPrefix(init, last, i);
    if i < |init| {
      Emitted(init, i);
      assert init[i] == cs[i];
    }
  }

  lemma {:induction false} EmittedLength(cs: seq<Cluster>)
    ensures |EmitAll(cs).occurrences| == Start(cs, |cs|)
  {
    hide CanonicalOf, OccurrencesOf;
    if cs != [] {
      var init, last := cs[..|cs| - 1], cs[|cs| - 1];
      EmittedLength(init);
      assert cs == init + [last];
      StartPrefix(init, last, |init|);
    }
  }

  /** Every occurrence lies in one block. */
  lemma {:induction false} BlockOf(cs: seq<Cluster>, n: nat) returns (i: nat)
    requires n < Start(cs, |cs|)
    ensures i < |cs| && Start(cs, i) <= n < Start(cs, i) + |cs[i].Members()|
    decreases |cs|
  {
    var init, last := cs[..|cs| - 1], cs[|cs| - 1];
    assert cs == init + [last];
    StartPrefix(init, last, |init|);
    if n < Start(init, |init|) {
      i := BlockOf(init, n);
      StartPrefix(init, last, i);
      assert init[i] == cs[i];
    } else {
      i := |init|;
    }
  }

  lemma {:induction false} StartGrows(cs: seq<Cluster>, i: nat, j: nat)
    requires i < j <= |cs|
    ensures Start(cs, i) + |cs[i].Members()| <= Start(cs, j)
    decreases j
  {
    if i < j - 1 {
      StartGrows(cs, i, j - 1);
    }
  }

  /** The occurrences that point at a root cause are those of its block. */
  lemma PointsAtBlock(cs: seq<Cluster>, i: nat, n: nat)
    requires i < |cs| && n < |EmitAll(cs).occurrences|
    ensures var a := Start(cs, i); var o := EmitAll(cs).occurrences[n];
      && (o.canonicalId == i <==> a <= n < a + |cs[i].Members()|)
      && (o.canonicalId < i <==> n < a)
      && (a <= n < a + |cs[i].Members()| ==> o == OccurrencesOf(i, cs[i])[n - a])
  {
    hide EmitAll, CanonicalOf;
    EmittedLength(cs);
    var j := BlockOf(cs, n);
    Emitted(cs, j);
    var b, m := Start(cs, j), |cs[j].Members()|;
    assert EmitAll(cs).occurrences[n] == EmitAll(cs).occurrences[b..b + m][n - b];
    if i < j {
      StartGrows(cs, i, j);
    } else if j < i {
      StartGrows(cs, j, i);
    }
  }

  // ----- Occurrences -----

  /** An occurrence copies its finding; the curl of a pair comes from its DAST side and the trace from the other. */
  ghost predicate Copies(o: Occurrence, f: Finding, curl: bool, trace: bool) {
    && o.raisedBy == f.id && o.scanId == f.scanId && o.sourceTool == f.sourceTool && o.checkId == f.checkId
    && o.evidence == f.evidence
    && o.curl == (if curl then f.curl else None) && o.taintTrace == (if trace then f.taintTrace else None)
  }

  lemma MembersCopied(id: nat, c: Cluster, k: nat)
    requires k < |c.Members()|
    ensures var o := OccurrencesOf(id, c)[k];
      o.canonicalId == id
      && Copies(o, c.Members()[k], c.Keyed? || k == 0, c.Keyed? || k == 1)
  {
  }

  /** Every occurrence points at a root cause and copies a finding of the input. */
  lemma OccurrenceMeans(findings: seq<Finding>, n: nat) returns (f: Finding)
    requires n < |Correlated(findings).occurrences|
    ensures var out := Correlated(findings); var o := out.occurrences[n];
      && o.canonicalId < |out.canonicals| && f in findings
      && (o.canonicalId >= |Pairs(findings)| ==> Copies(o, f, true, true))
      && (o.canonicalId < |Pairs(findings)| ==> Copies(o, f, true, false) || Copies(o, f, false, true))
  {
    var cs := Clusters(findings);
    var i, k := OccurrenceCopies(cs, n);
    f := cs[i].Members()[k];
    MemberFound(findings, i, k);
    ClusterKind(findings, i);
    hide Clusters, EmitAll, Pairs, Copies;
  }

  lemma OccurrenceCopies(cs: seq<Cluster>, n: nat) returns (i: nat, k: nat)
    requires n < |EmitAll(cs).occurrences|
    ensures i < |cs| == |EmitAll(cs).canonicals| && k < |cs[i].Members()|
    ensures var o := EmitAll(cs).occurrences[n];
      o.canonicalId == i && Copies(o, cs[i].Members()[k], cs[i].Keyed? || k == 0, cs[i].Keyed? || k == 1)
  {
    hide EmitAll, OccurrencesOf, Copies, Start;
    EmittedLength(cs);
    i := BlockOf(cs, n);
    k := n - Start(cs, i);
    PointsAtBlock(cs, i, n);
    MembersCopied(i, cs[i], k);
  }

  /** The pairs come first, then the groups. */
  lemma ClusterKind(findings: seq<Finding>, i: nat)
    requires i < |Clusters(findings)|
    ensures |Pairs(findings)| <= |Clusters(findings)|
    ensures i < |Pairs(findings)| ==> Clusters(findings)[i] == Verified(Pairs(findings)[i])
    ensures i >= |Pairs(findings)| ==> Clusters(findings)[i].Keyed?
  {
    hide Pairs, PairIds, KeyOrder, Remaining, Group;
  }

  lemma MemberFound(findings: seq<Finding>, i: nat, k: nat)
    requires i < |Clusters(findings)| && k < |Clusters(findings)[i].Members()|
    ensures Clusters(findings)[i].Members()[k] in findings
  {
    hide Pairs, PairIds, KeyOrder, Key;
    var pairs := Pairs(findings);
    var rest := Remaining(findings, PairIds(pairs));
    var c := Clusters(findings)[i];
    var f := c.Members()[k];
    if i < |pairs| {
      PairsMaximal(findings);
      assert pairs[i] in pairs;
    } else {
      var key := KeyOrder(rest)[i - |pairs|];
      assert c == Keyed(Group(rest, key));
      Selected(rest, HasKey(key), f);
      Selected(findings, NotIn(PairIds(pairs)), f);
    }
  }

  // ----- Root causes -----

  lemma MoreThanOne<T>(s: set<T>)
    ensures |s| > 1 <==> exists t, u :: t in s && u in s && t != u
  {
    if t, u :| t in s && u in s && t != u {
      assert |s| == |s - {t}| + 1 && u in s - {t};
    } else if s != {} {
      var t :| t in s;
      assert s == {t};
    }
  }

  /** The tools of the occurrences that point at a root cause. */
  function ToolsAt(out: Output, i: nat): set<string> {
    set o | o in out.occurrences && o.canonicalId == i :: o.sourceTool
  }

  lemma ToolSeen(cs: seq<Cluster>, i: nat, o: Occurrence)
    requires i < |cs| && o in EmitAll(cs).occurrences && o.canonicalId == i
    ensures o.sourceTool in Tools(cs[i].Members())
  {
    hide EmitAll, OccurrencesOf;
    var n :| 0 <= n < |EmitAll(cs).occurrences| && EmitAll(cs).occurrences[n] == o;
    PointsAtBlock(cs, i, n);
    MembersCopied(i, cs[i], n - Start(cs, i));
    assert cs[i].Members()[n - Start(cs, i)] in cs[i].Members();
  }

  lemma ToolShown(cs: seq<Cluster>, i: nat, k: nat)
    requires i < |cs| && k < |cs[i].Members()|
    ensures cs[i].Members()[k].sourceTool in ToolsAt(EmitAll(cs), i)
  {
    Emitted(cs, i);
    hide EmitAll, OccurrencesOf, CanonicalOf;
    var n := Start(cs, i) + k;
    PointsAtBlock(cs, i, n);
    MembersCopied(i, cs[i], k);
    assert EmitAll(cs).occurrences[n] in EmitAll(cs).occurrences;
  }

  lemma ToolsOfBlock(cs: seq<Cluster>, i: nat)
    requires i < |cs|
    ensures ToolsAt(EmitAll(cs), i) == Tools(cs[i].Members())
  {
    hide EmitAll;
    forall t | t in ToolsAt(EmitAll(cs), i) ensures t in Tools(cs[i].Members()) {
      var o :| o in EmitAll(cs).occurrences && o.canonicalId == i && o.sourceTool == t;
      ToolSeen(cs, i, o);
    }
    forall t | t in Tools(cs[i].Members()) ensures t in ToolsAt(EmitAll(cs), i) {
      var m :| m in cs[i].Members() && m.sourceTool == t;
      var k :| 0 <= k < |cs[i].Members()| && cs[i].Members()[k] == m;
      ToolShown(cs, i, k);
    }
  }

  /** What is said of the tools of a root cause follows from the occurrences that point at it. */
  lemma ToolsMean(findings: seq<Finding>, i: nat)
    requires i < |Correlated(findings).canonicals|
    ensures var out := Correlated(findings); var c := out.canonicals[i];
      && c.id == i
      && c.tools == (set o | o in out.occurrences && o.canonicalId == i :: o.sourceTool)
      && (c.correlation == SastDastVerified <==> i < |Pairs(findings)|)
      && (c.correlation == MultiToolConfirmed <==>
            && i >= |Pairs(findings)|
            && exists o, p :: o in out.occurrences && p in out.occurrences
                 && o.canonicalId == i == p.canonicalId && o.sourceTool != p.sourceTool)
  {
    var cs := Clusters(findings);
    var out := EmitAll(cs);
    Emitted(cs, i);
    ToolsOfBlock(cs, i);
    ClusterKind(findings, i);
    CanonicalTools(i, cs[i]);
    hide Clusters, EmitAll, Pairs, CanonicalOf, OccurrencesOf;
    MoreThanOne(ToolsAt(out, i));
    TwoOccurrences(out, i);
  }

  lemma TwoOccurrences(out: Output, i: nat)
    ensures (exists t, u :: t in ToolsAt(out, i) && u in ToolsAt(out, i) && t != u)
       <==> exists o, p :: o in out.occurrences && p in out.occurrences
              && o.canonicalId == i == p.canonicalId && o.sourceTool != p.sourceTool
  {
    if o, p :| o in out.occurrences && p in out.occurrences
               && o.canonicalId == i == p.canonicalId && o.sourceTool != p.sourceTool {
      assert o.sourceTool in ToolsAt(out, i) && p.sourceTool in ToolsAt(out, i);
    }
    if t, u :| t in ToolsAt(out, i) && u in ToolsAt(out, i) && t != u {
      var o :| o in out.occurrences && o.canonicalId == i && o.sourceTool == t;
      var p :| p in out.occurrences && p.canonicalId == i && p.sourceTool == u;
    }
  }

  lemma CanonicalTools(i: nat, c: Cluster)
    ensures var r := CanonicalOf(i, c);
      && r.id == i && r.tools == Tools(c.Members())
      && (r.correlation == SastDastVerified <==> c.Verified?)
      && (r.correlation == MultiToolConfirmed <==> c.Keyed? && |Tools(c.Members())| > 1)
  {
    if c.Verified? {
      var ms := c.Members();
      assert ms == [c.pair.dast, c.pair.sast];
      assert ms[0] in ms && ms[1] in ms;
    }
  }

  /** The first occurrence that points at a root cause is of the finding that its other fields come from. */
  lemma FirstOccurrenceMeans(findings: seq<Finding>, i: nat) returns (n: nat, f: Finding)
    requires i < |Correlated(findings).canonicals|
    ensures n < |Correlated(findings).occurrences| && f in findings
    ensures var out := Correlated(findings); var c := out.canonicals[i];
      && out.occurrences[n].canonicalId == i
      && (forall m :: 0 <= m < n ==> out.occurrences[m].canonicalId < i)
      && out.occurrences[n].raisedBy == f.id && out.occurrences[n].evidence == f.evidence
      && c.category == f.category && c.hashed == f.evidence
      && (i >= |Pairs(findings)| ==> c.cweId == f.cweId)
  {
    var cs := Clusters(findings);
    n := Start(cs, i);
    Emitted(cs, i);
    ClusterNotEmpty(findings, i);
    f := cs[i].Members()[0];
    MemberFound(findings, i, 0);
    ClusterKind(findings, i);
    CanonicalFirst(i, cs[i]);
    hide Clusters, EmitAll, Pairs, CanonicalOf, OccurrencesOf;
    PointsAtBlock(cs, i, n);
    MembersCopied(i, cs[i], 0);
    forall m | 0 <= m < n ensures EmitAll(cs).occurrences[m].canonicalId < i {
      PointsAtBlock(cs, i, m);
    }
  }

  lemma ClusterNotEmpty(findings: seq<Finding>, i: nat)
    requires i < |Clusters(findings)|
    ensures Clusters(findings)[i].Members() != []
  {
    EveryRootCauseObserved(findings);
    hide Clusters, EmitAll;
    assert Clusters(findings)[i] in Clusters(findings);
  }

  lemma CanonicalFirst(i: nat, c: Cluster)
    requires c.Members() != []
    ensures var r := CanonicalOf(i, c); var f := c.Members()[0];
      r.category == f.category && r.hashed == f.evidence && (c.Keyed? ==> r.cweId == f.cweId)
  {
  }

  /** The `i`-th pair becomes the `i`-th root cause, with the CWE of its DAST side unless that has none. */
  lemma PairMeans(findings: seq<Finding>, i: nat) returns (n: nat)
    requires i < |Pairs(findings)|
    ensures i < |Correlated(findings).canonicals| && n + 1 < |Correlated(findings).occurrences|
    ensures var out := Correlated(findings); var c := out.canonicals[i]; var p := Pairs(findings)[i];
      && (forall m :: 0 <= m < |out.occurrences| ==> (out.occurrences[m].canonicalId == i <==> m == n || m == n + 1))
      && Copies(out.occurrences[n], p.dast, true, false) && Copies(out.occurrences[n + 1], p.sast, false, true)
      && c.timesObserved == 2
      && c.cweId == (if p.dast.cweId.None? || p.dast.cweId == Some("") then p.sast.cweId else p.dast.cweId)
  {
    hide Clusters, EmitAll, Pairs, OccurrencesOf, Copies, CanonicalOf, Start;
    PairsFirst(findings);
    ClusterKind(findings, i);
    n := PairEmitted(Clusters(findings), i, Pairs(findings)[i]);
  }

  lemma PairEmitted(cs: seq<Cluster>, i: nat, p: Pair) returns (n: nat)
    requires i < |cs| && cs[i] == Verified(p)
    ensures i < |EmitAll(cs).canonicals| && n + 1 < |EmitAll(cs).occurrences|
    ensures var out := EmitAll(cs); var c := out.canonicals[i];
      && (forall m :: 0 <= m < |out.occurrences| ==> (out.occurrences[m].canonicalId == i <==> m == n || m == n + 1))
      && Copies(out.occurrences[n], p.dast, true, false) && Copies(out.occurrences[n + 1], p.sast, false, true)
      && c.timesObserved == 2
      && c.cweId == (if p.dast.cweId.None? || p.dast.cweId == Some("") then p.sast.cweId else p.dast.cweId)
  {
    hide EmitAll, OccurrencesOf, Copies, CanonicalOf, Start;
    n := Start(cs, i);
    Emitted(cs, i);
    PairCanonical(i, p);
    assert cs[i].Members() == [p.dast, p.sast];
    MembersCopied(i, cs[i], 0);
    MembersCopied(i, cs[i], 1);
    PointsAtBlock(cs, i, n);
    PointsAtBlock(cs, i, n + 1);
    forall m | 0 <= m < |EmitAll(cs).occurrences|
      ensures EmitAll(cs).occurrences[m].canonicalId == i <==> m == n || m == n + 1
    {
      PointsAtBlock(cs, i, m);
    }
  }

  lemma PairCanonical(i: nat, p: Pair)
    ensures var c := CanonicalOf(i, Verified(p));
      && c.timesObserved == 2
      && c.cweId == (if p.dast.cweId.None? || p.dast.cweId == Some("") then p.sast.cweId else p.dast.cweId)
  {
  }

  lemma PairsFirst(findings: seq<Finding>)
    ensures |Pairs(findings)| <= |Clusters(findings)|
  {
    hide Pairs, PairIds, KeyOrder, Remaining, Group;
  }

  // ----- When findings belong together -----

  /** The same text but for the case of ASCII letters. */
  predicate SameFolded(a: string, b: string) {
    |a| == |b| && forall i | 0 <= i < |a| :: a[i] == b[i] || CasesOf(a[i], b[i]) || CasesOf(b[i], a[i])
  }

  predicate CasesOf(lower: char, upper: char) {
    'a' <= lower <= 'z' && upper as int == lower as int - 32
  }

  lemma FoldedAlike(a: string, b: string)
    ensures PyText.Lower(a) == PyText.Lower(b) <==> SameFolded(a, b)
  {
    var x, y := PyText.Lower(a), PyText.Lower(b);
    if x == y {
      forall i | 0 <= i < |a| ensures a[i] == b[i] || CasesOf(a[i], b[i]) || CasesOf(b[i], a[i]) {
        assert x[i] == y[i];
      }
    }
    if SameFolded(a, b) {
      forall i | 0 <= i < |a| ensures x[i] == y[i] {
      }
    }
  }

  /** A part of the text, at some place, reads so but for the case of ASCII letters. */
  ghost predicate Mentions(s: string, sub: string) {
    exists i :: FoldedAt(s, i, sub)
  }

  predicate FoldedAt(s: string, i: int, sub: string) {
    0 <= i <= |s| - |sub| && SameFolded(s[i..i + |sub|], sub)
  }

  lemma MentionsMeans(s: string, sub: string)
    requires PyText.Lower(sub) == sub
    ensures PyText.Contains(PyText.Lower(s), sub) <==> Mentions(s, sub)
  {
    var l := PyText.Lower(s);
    PyText.ContainsMeans(l, sub);
    hide PyText.Contains, SameFolded;
    forall i ensures PyText.PartAt(l, i, sub) <==> FoldedAt(s, i, sub) {
      if 0 <= i <= |s| - |sub| {
        FoldedAlike(s[i..i + |sub|], sub);
        assert l[i..i + |sub|] == PyText.Lower(s[i..i + |sub|]);
      }
    }
  }

  /** A finding is SAST by its engine or its check id, and DAST by these or by its tool. */
  lemma ClassesMean(f: Finding)
    ensures IsSast(f) <==> f.engine == "code_sast" || Mentions(f.checkId, "sast")
    ensures IsDast(f) <==>
      f.engine == "web_dast" || Mentions(f.checkId, "dast") || exists i :: PyText.PartAt(f.sourceTool, i, "nuclei")
  {
    assert PyText.Lower("sast") == "sast" && PyText.Lower("dast") == "dast";
    MentionsMeans(f.checkId, "sast");
    MentionsMeans(f.checkId, "dast");
    hide PyText.Contains, Mentions;
    PyText.ContainsMeans(f.sourceTool, "nuclei");
  }

  /** Two findings agree in a nonempty CWE, or in a nonempty category whatever its case. */
  lemma AgreeMeans(s: Finding, d: Finding)
    ensures Agree(s, d) <==>
      || (exists cwe :: cwe != "" && s.cweId == Some(cwe) && d.cweId == Some(cwe))
      || (s.category != "" && SameFolded(s.category, d.category))
  {
    FoldedAlike(s.category, d.category);
  }

  /** Unpaired findings without bars share a root cause exactly if they agree in all three respects. */
  lemma SharedRootCauseExactly(findings: seq<Finding>, f: Finding, g: Finding, o: Occurrence, p: Occurrence)
    requires UniqueIds(findings) && f in findings && g in findings
    requires f.id !in PairIds(Pairs(findings)) && g.id !in PairIds(Pairs(findings))
    requires o in Correlated(findings).occurrences && o.raisedBy == f.id
    requires p in Correlated(findings).occurrences && p.raisedBy == g.id
    requires '|' !in f.category && '|' !in g.category && '|' !in f.checkId && '|' !in g.checkId
    requires f.cweId.Some? ==> '|' !in f.cweId.value
    requires g.cweId.Some? ==> '|' !in g.cweId.value
    ensures o.canonicalId == p.canonicalId <==>
      && f.category == g.category
      && (if f.cweId.Some? && f.cweId.value != "" then f.cweId.value else f.checkId)
         == (if g.cweId.Some? && g.cweId.value != "" then g.cweId.value else g.checkId)
      && SameFolded(PyText.Strip(f.evidence.location), PyText.Strip(g.evidence.location))
  {
    UnpairedShareByKey(findings, f, g, o, p);
    hide Correlated, Pairs, PairIds, Key, UniqueIds, SameFolded;
    KeyPartsExactly(f, g);
    FoldedAlike(PyText.Strip(f.evidence.location), PyText.Strip(g.evidence.location));
  }
}
