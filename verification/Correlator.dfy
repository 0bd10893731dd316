/** Correlation of raw findings: greedy SAST/DAST pairing, then clustering of what is left by key. */
module Correlator {
  import opened Prelude
  import PyText

  datatype Evidence = Evidence(location: string, observed: string)

  datatype Finding = Finding(
    id: string, scanId: string, engine: string, sourceTool: string, checkId: string, category: string,
    cweId: Option<string>, evidence: Evidence, curl: Option<string>, taintTrace: Option<seq<string>>)

  datatype Correlation = SastDastVerified | MultiToolConfirmed | Uncorrelated

  /** A root cause. Ids are fresh in the source; here the position in the output serves. */
  datatype Canonical = Canonical(
    id: nat, correlation: Correlation, category: string, cweId: Option<string>, tools: set<string>,
    timesObserved: nat, hashed: Evidence)

  /** A raw observation of a root cause. `raisedBy` names the finding whose fields were copied. */
  datatype Occurrence = Occurrence(
    canonicalId: nat, raisedBy: string, scanId: string, sourceTool: string, checkId: string,
    evidence: Evidence, curl: Option<string>, taintTrace: Option<seq<string>>)

  // ----- Classification and agreement -----

  predicate IsSast(f: Finding) {
    f.engine == "code_sast" || PyText.Contains(PyText.Lower(f.checkId), "sast")
  }

  predicate IsDast(f: Finding) {
    f.engine == "web_dast" || PyText.Contains(PyText.Lower(f.checkId), "dast")
    || PyText.Contains(f.sourceTool, "nuclei")
  }

  predicate SameCwe(s: Finding, d: Finding) {
    s.cweId.Some? && d.cweId.Some? && s.cweId.value != "" && s.cweId == d.cweId
  }

  predicate SameCategory(s: Finding, d: Finding) {
    s.category != "" && d.category != "" && PyText.Lower(s.category) == PyText.Lower(d.category)
  }

  predicate Agree(s: Finding, d: Finding) {
    SameCwe(s, d) || SameCategory(s, d)
  }

  /** A list comprehension with a condition. */
  function Select(fs: seq<Finding>, p: Finding -> bool): seq<Finding> {
    if fs == [] then []
    else if p(fs[0]) then [fs[0]] + Select(fs[1..], p)
    else Select(fs[1..], p)
  }

  lemma {:induction false} Selected(fs: seq<Finding>, p: Finding -> bool, f: Finding)
    ensures f in Select(fs, p) <==> f in fs && p(f)
  {
    if fs != [] {
      Selected(fs[1..], p, f);
      assert fs == [fs[0]] + fs[1..];
    }
  }

  function Sasts(findings: seq<Finding>): seq<Finding> { Select(findings, IsSast) }

  function Dasts(findings: seq<Finding>): seq<Finding> { Select(findings, IsDast) }

  // ----- Pairing -----

  /** A DAST finding and the SAST finding it was matched with. */
  datatype Pair = Pair(dast: Finding, sast: Finding)

  function FirstMatch(d: Finding, sasts: seq<Finding>, visited: set<string>): (r: Option<Finding>)
    ensures r.Some? ==> r.value in sasts && r.value.id !in visited && Agree(r.value, d)
    ensures r.None? ==> forall s :: s in sasts && s.id !in visited ==> !Agree(s, d)
  {
    if sasts == [] then None
    else if sasts[0].id !in visited && Agree(sasts[0], d) then Some(sasts[0])
    else FirstMatch(d, sasts[1..], visited)
  }

  function Pairing(dasts: seq<Finding>, sasts: seq<Finding>, visited: set<string>): seq<Pair> {
    if dasts == [] then []
    else
      match FirstMatch(dasts[0], sasts, visited)
      case None => Pairing(dasts[1..], sasts, visited)
      case Some(s) => [Pair(dasts[0], s)] + Pairing(dasts[1..], sasts, visited + {dasts[0].id, s.id})
  }

  function Pairs(findings: seq<Finding>): seq<Pair> {
    Pairing(Dasts(findings), Sasts(findings), {})
  }

  function PairIds(pairs: seq<Pair>): (ids: set<string>)
    ensures forall p :: p in pairs ==> p.dast.id in ids && p.sast.id in ids
    ensures forall i :: i in ids ==> exists p :: p in pairs && (i == p.dast.id || i == p.sast.id)
  {
    if pairs == [] then {} else {pairs[0].dast.id, pairs[0].sast.id} + PairIds(pairs[1..])
  }

  // ----- Grouping -----

  function CweOrCheck(f: Finding): string {
    if f.cweId.Some? && f.cweId.value != "" then f.cweId.value else f.checkId
  }

  function LocationKey(f: Finding): string {
    PyText.Lower(PyText.Strip(f.evidence.location))
  }

  function Key(f: Finding): string {
    f.category + "|" + CweOrCheck(f) + "|" + LocationKey(f)
  }

  function NotIn(visited: set<string>): Finding -> bool {
    (f: Finding) => f.id !in visited
  }

  function HasKey(k: string): Finding -> bool {
    (f: Finding) => Key(f) == k
  }

  function Remaining(findings: seq<Finding>, visited: set<string>): seq<Finding> {
    Select(findings, NotIn(visited))
  }

  /** The keys in the order of their first appearance: a Python dictionary's order. */
  function KeyOrder(fs: seq<Finding>): seq<string> {
    if fs == [] then []
    else
      var ks := KeyOrder(fs[..|fs| - 1]);
      var k := Key(fs[|fs| - 1]);
      if k in ks then ks else ks + [k]
  }

  predicate Distinct<T(==)>(xs: seq<T>) {
    forall i, j | 0 <= i < j < |xs| :: xs[i] != xs[j]
  }

  lemma DistinctOneMore<T>(xs: seq<T>, x: T)
    requires Distinct(xs) && x !in xs
    ensures Distinct(xs + [x])
  {
  }

  lemma {:induction false} KeyOrderDistinct(fs: seq<Finding>)
    ensures Distinct(KeyOrder(fs))
  {
    if fs != [] {
      hide Key, Distinct;
      var init := fs[..|fs| - 1];
      KeyOrderDistinct(init);
      if Key(fs[|fs| - 1]) !in KeyOrder(init) {
        DistinctOneMore(KeyOrder(init), Key(fs[|fs| - 1]));
      }
    } else {
      assert KeyOrder(fs) == [];
    }
  }

  lemma {:induction false} KeyOrderMembers(fs: seq<Finding>, k: string)
    ensures k in KeyOrder(fs) <==> exists f :: f in fs && Key(f) == k
  {
    hide Key;
    if fs != [] {
      var init, last := fs[..|fs| - 1], fs[|fs| - 1];
      KeyOrderMembers(init, k);
      assert fs == init + [last];
      assert forall f :: f in fs <==> f in init || f == last;
    }
  }

  function Group(fs: seq<Finding>, k: string): seq<Finding> {
    Select(fs, HasKey(k))
  }

  // ----- Output -----

  /** What one canonical finding is made from. */
  datatype Cluster = Verified(pair: Pair) | Keyed(members: seq<Finding>) {
    function Members(): seq<Finding> {
      if Verified? then [pair.dast, pair.sast] else members
    }
  }

  function Tools(fs: seq<Finding>): set<string> {
    set f | f in fs :: f.sourceTool
  }

  function Clusters(findings: seq<Finding>): seq<Cluster> {
    var pairs := Pairs(findings);
    var rest := Remaining(findings, PairIds(pairs));
    PairClusters(pairs) + GroupClusters(rest, KeyOrder(rest))
  }

  function PairClusters(pairs: seq<Pair>): (cs: seq<Cluster>)
    ensures |cs| == |pairs| && forall i :: 0 <= i < |cs| ==> cs[i] == Verified(pairs[i])
  {
    seq(|pairs|, i requires 0 <= i < |pairs| => Verified(pairs[i]))
  }

  function GroupClusters(rest: seq<Finding>, keys: seq<string>): (cs: seq<Cluster>)
    ensures |cs| == |keys| && forall i :: 0 <= i < |cs| ==> cs[i] == Keyed(Group(rest, keys[i]))
  {
    seq(|keys|, i requires 0 <= i < |keys| => Keyed(Group(rest, keys[i])))
  }

  function CanonicalOf(id: nat, c: Cluster): Canonical {
    match c
    case Verified(Pair(d, s)) =>
      Canonical(id, SastDastVerified, d.category, if d.cweId.Some? && d.cweId.value != "" then d.cweId else s.cweId,
                {d.sourceTool, s.sourceTool}, 2, d.evidence)
    case Keyed(group) =>
      // no group is ever empty: see NoGroupIsEmpty
      var (category, cwe, hashed) :=
        if group == [] then ("", None, Evidence("", "")) else (group[0].category, group[0].cweId, group[0].evidence);
      Canonical(id, if |Tools(group)| > 1 then MultiToolConfirmed else Uncorrelated, category, cwe, Tools(group),
                |group|, hashed)
  }

  function OccurrenceOf(id: nat, f: Finding, keepCurl: bool, keepTaint: bool): Occurrence {
    Occurrence(id, f.id, f.scanId, f.sourceTool, f.checkId, f.evidence,
               if keepCurl then f.curl else None, if keepTaint then f.taintTrace else None)
  }

  function OccurrencesOf(id: nat, c: Cluster): (os: seq<Occurrence>)
    ensures |os| == |c.Members()|
    ensures forall i :: 0 <= i < |os| ==> os[i].canonicalId == id && os[i].raisedBy == c.Members()[i].id
  {
    match c
    case Verified(Pair(d, s)) => [OccurrenceOf(id, d, true, false), OccurrenceOf(id, s, false, true)]
    case Keyed(group) => seq(|group|, i requires 0 <= i < |group| => OccurrenceOf(id, group[i], true, true))
  }

  datatype Output = Output(canonicals: seq<Canonical>, occurrences: seq<Occurrence>)

  /** One more root cause with its occurrences. */
  function Emit(o: Output, c: Cluster): Output {
    var id := |o.canonicals|;
    Output(o.canonicals + [CanonicalOf(id, c)], o.occurrences + OccurrencesOf(id, c))
  }

  function EmitAll(cs: seq<Cluster>): (o: Output)
    ensures |o.canonicals| == |cs|
  {
    if cs == [] then Output([], []) else Emit(EmitAll(cs[..|cs| - 1]), cs[|cs| - 1])
  }

  function Correlated(findings: seq<Finding>): Output {
    EmitAll(Clusters(findings))
  }

  lemma EmitOneMore(cs: seq<Cluster>, c: Cluster)
    ensures EmitAll(cs + [c]) == Emit(EmitAll(cs), c)
  {
    assert (cs + [c])[..|cs|] == cs;
  }

  lemma NoGroupIsEmpty(fs: seq<Finding>, k: string)
    requires k in KeyOrder(fs)
    ensures Group(fs, k) != []
  {
    KeyOrderMembers(fs, k);
    var f :| f in fs && Key(f) == k;
    Selected(fs, HasKey(k), f);
  }

  // ----- The method as it runs -----

  method CorrelateFindings(findings: seq<Finding>) returns (canonicals: seq<Canonical>, occurrences: seq<Occurrence>)
    ensures Output(canonicals, occurrences) == Correlated(findings)
  {
    var visited: set<string>;
    canonicals, occurrences, visited := PairStage(findings);
    var remaining := Remaining(findings, visited);
    var order, grouped := GroupByKey(remaining);
    ghost var made := PairClusters(Pairs(findings));
    hide EmitAll, CanonicalOf, OccurrencesOf, Pairs, KeyOrder, Remaining, Group;
    GroupClustersNone(remaining, made);
    for i := 0 to |order|
      invariant Output(canonicals, occurrences) == EmitAll(made + GroupClusters(remaining, order[..i]))
    {
      var id, group := |canonicals|, grouped[order[i]];
      GroupClustersOneMore(remaining, order, i, made);
      EmitOneMore(made + GroupClusters(remaining, order[..i]), Keyed(group));
      canonicals := canonicals + [CanonicalOf(id, Keyed(group))];
      occurrences := EmitGroup(occurrences, id, group);
    }
    assert order[..|order|] == order;
  }

  lemma GroupClustersNone(fs: seq<Finding>, made: seq<Cluster>)
    ensures forall keys: seq<string> :: made + GroupClusters(fs, keys[..0]) == made
  {
  }

  lemma GroupClustersOneMore(fs: seq<Finding>, keys: seq<string>, i: nat, made: seq<Cluster>)
    requires i < |keys|
    ensures made + GroupClusters(fs, keys[..i + 1]) == made + GroupClusters(fs, keys[..i]) + [Keyed(Group(fs, keys[i]))]
  {
  }

  /** The innermost loop of the second stage. */
  method EmitGroup(occurrences: seq<Occurrence>, id: nat, group: seq<Finding>) returns (more: seq<Occurrence>)
    ensures more == occurrences + OccurrencesOf(id, Keyed(group))
  {
    more := occurrences;
    for k := 0 to |group|
      invariant more == occurrences + OccurrencesOf(id, Keyed(group))[..k]
    {
      more := more + [OccurrenceOf(id, group[k], true, true)];
    }
    assert OccurrencesOf(id, Keyed(group))[..|group|] == OccurrencesOf(id, Keyed(group));
  }

  /** The first stage: for every DAST finding the first unvisited SAST finding that agrees with it. */
  method PairStage(findings: seq<Finding>)
    returns (canonicals: seq<Canonical>, occurrences: seq<Occurrence>, visited: set<string>)
    ensures Output(canonicals, occurrences) == EmitAll(PairClusters(Pairs(findings)))
    ensures visited == PairIds(Pairs(findings))
  {
    var sasts, dasts := Sasts(findings), Dasts(findings);
    ghost var pairs: seq<Pair> := [];
    canonicals, occurrences, visited := [], [], {};
    assert dasts[0..] == dasts;
    assert [] + Pairing(dasts, sasts, {}) == Pairing(dasts, sasts, {});
    assert PairClusters([]) == [];
    assert forall v :: Pairing([], sasts, v) == [];
    hide EmitAll, CanonicalOf, OccurrencesOf, PairIds, FirstMatch, Pairing, Sasts, Dasts;
    for i := 0 to |dasts|
      invariant Pairs(findings) == pairs + Pairing(dasts[i..], sasts, visited)
      invariant visited == PairIds(pairs)
      invariant Output(canonicals, occurrences) == EmitAll(PairClusters(pairs))
    {
      var matched := FindMatch(dasts[i], sasts, visited);
      PairingStep(dasts, i, sasts, visited);
      if matched.Some? {
        var p := Pair(dasts[i], matched.value);
        Shift(pairs, p, Pairing(dasts[i + 1..], sasts, visited + {p.dast.id, p.sast.id}));
        PairIdsAppend(pairs, p);
        PairClustersOneMore(pairs, p);
        EmitOneMore(PairClusters(pairs), Verified(p));
        visited := visited + {p.dast.id, p.sast.id};
        var id := |canonicals|;
        canonicals := canonicals + [CanonicalOf(id, Verified(p))];
        occurrences := EmitPair(occurrences, id, p);
        pairs := pairs + [p];
      }
    }
    assert pairs + [] == pairs;
  }

  lemma Shift(pairs: seq<Pair>, p: Pair, rest: seq<Pair>)
    ensures pairs + ([p] + rest) == pairs + [p] + rest
  {
  }

  lemma PairClustersOneMore(pairs: seq<Pair>, p: Pair)
    ensures PairClusters(pairs + [p]) == PairClusters(pairs) + [Verified(p)]
  {
  }

  method EmitPair(occurrences: seq<Occurrence>, id: nat, p: Pair) returns (more: seq<Occurrence>)
    ensures more == occurrences + OccurrencesOf(id, Verified(p))
  {
    more := occurrences + [OccurrenceOf(id, p.dast, true, false)];
    more := more + [OccurrenceOf(id, p.sast, false, true)];
  }

  lemma PairingStep(dasts: seq<Finding>, i: nat, sasts: seq<Finding>, visited: set<string>)
    requires i < |dasts|
    ensures Pairing(dasts[i..], sasts, visited) ==
      match FirstMatch(dasts[i], sasts, visited)
      case None => Pairing(dasts[i + 1..], sasts, visited)
      case Some(s) => [Pair(dasts[i], s)] + Pairing(dasts[i + 1..], sasts, visited + {dasts[i].id, s.id})
  {
    assert dasts[i..][1..] == dasts[i + 1..];
  }

  /** The inner loop, which skips visited findings and stops at the first that agrees. */
  method FindMatch(d: Finding, sasts: seq<Finding>, visited: set<string>) returns (r: Option<Finding>)
    ensures r == FirstMatch(d, sasts, visited)
  {
    hide Agree;
    r := None;
    for i := 0 to |sasts|
      invariant FirstMatch(d, sasts, visited) == FirstMatch(d, sasts[i..], visited)
    {
      assert sasts[i..][1..] == sasts[i + 1..];
      if sasts[i].id in visited {
        continue;
      }
      if Agree(sasts[i], d) {
        r := Some(sasts[i]);
        return;
      }
    }
  }

  /** The dictionary of groups, with the order its keys were first set in. */
  method GroupByKey(fs: seq<Finding>) returns (order: seq<string>, grouped: map<string, seq<Finding>>)
    ensures order == KeyOrder(fs)
    ensures grouped.Keys == set k | k in order
    ensures forall k :: k in order ==> k in grouped && grouped[k] == Group(fs, k)
  {
    hide Key, Select;
    order, grouped := [], map[];
    for i := 0 to |fs|
      invariant order == KeyOrder(fs[..i])
      invariant grouped.Keys == set k | k in order
      invariant forall k :: k in order ==> grouped[k] == Group(fs[..i], k)
    {
      var k := Key(fs[i]);
      assert fs[..i + 1][..i] == fs[..i];
      GroupStep(fs, i);
      if k !in grouped {
        order := order + [k];
        NoGroup(fs[..i], k);
        grouped := grouped[k := []];
      }
      grouped := grouped[k := grouped[k] + [fs[i]]];
    }
    assert fs[..|fs|] == fs;
  }

  lemma GroupStep(fs: seq<Finding>, i: nat)
    requires i < |fs|
    ensures forall k {:trigger Group(fs[..i], k)} {:trigger Group(fs[..i + 1], k)} ::
      Group(fs[..i + 1], k) == if k == Key(fs[i]) then Group(fs[..i], k) + [fs[i]] else Group(fs[..i], k)
  {
    hide Key;
    assert fs[..i + 1] == fs[..i] + [fs[i]];
    forall k
      ensures Group(fs[..i + 1], k) == if k == Key(fs[i]) then Group(fs[..i], k) + [fs[i]] else Group(fs[..i], k)
    {
      SelectAppend(fs[..i], fs[i], HasKey(k));
    }
  }

  lemma NoGroup(fs: seq<Finding>, k: string)
    requires k !in KeyOrder(fs)
    ensures Group(fs, k) == []
  {
    if Group(fs, k) != [] {
      var f := Group(fs, k)[0];
      Selected(fs, HasKey(k), f);
      KeyOrderMembers(fs, k);
    }
  }

  lemma {:induction false} SelectAppend(a: seq<Finding>, f: Finding, p: Finding -> bool)
    ensures Select(a + [f], p) == if p(f) then Select(a, p) + [f] else Select(a, p)
  {
    if a == [] {
      assert a + [f] == [f];
      assert Select([f][1..], p) == [];
    } else {
      SelectAppend(a[1..], f, p);
      assert (a + [f])[1..] == a[1..] + [f];
    }
  }

  lemma {:induction false} PairIdsAppend(pairs: seq<Pair>, p: Pair)
    ensures PairIds(pairs + [p]) == PairIds(pairs) + {p.dast.id, p.sast.id}
  {
    if pairs != [] {
      PairIdsAppend(pairs[1..], p);
      assert (pairs + [p])[1..] == pairs[1..] + [p];
    }
  }
}
