/** Conservation in correlation: where each finding's one occurrence goes, and how often a root cause was seen. */
module CorrelationCounts {
  import opened Prelude
  import opened Correlator
  import opened CorrelationLaws
  import PyText

  function Ids(fs: seq<Finding>): (r: seq<string>)
    ensures |r| == |fs| && forall i :: 0 <= i < |r| ==> r[i] == fs[i].id
  {
    seq(|fs|, i requires 0 <= i < |fs| => fs[i].id)
  }

  function RaisedBy(os: seq<Occurrence>): (r: seq<string>)
    ensures |r| == |os| && forall i :: 0 <= i < |r| ==> r[i] == os[i].raisedBy
  {
    seq(|os|, i requires 0 <= i < |os| => os[i].raisedBy)
  }

  /** The members of all clusters, cluster by cluster. */
  function AllMembers(cs: seq<Cluster>): seq<Finding> {
    if cs == [] then [] else AllMembers(cs[..|cs| - 1]) + cs[|cs| - 1].Members()
  }

  lemma {:induction false} OccurrencesFollowMembers(cs: seq<Cluster>)
    ensures RaisedBy(EmitAll(cs).occurrences) == Ids(AllMembers(cs))
  {
    if cs != [] {
      hide Cluster.Members, CanonicalOf, OccurrencesOf;
      OccurrencesFollowMembers(cs[..|cs| - 1]);
    }
  }

  lemma AllMembersOneMore(cs: seq<Cluster>, c: Cluster)
    ensures AllMembers(cs + [c]) == AllMembers(cs) + c.Members()
  {
    assert (cs + [c])[..|cs|] == cs;
  }

  // ----- Nothing lost, nothing twice -----

  function In(visited: set<string>): Finding -> bool {
    (f: Finding) => f.id in visited
  }

  lemma {:induction false} Partition(fs: seq<Finding>, visited: set<string>)
    ensures multiset(fs) == multiset(Select(fs, In(visited))) + multiset(Select(fs, NotIn(visited)))
  {
    if fs != [] {
      Partition(fs[1..], visited);
      assert fs == [fs[0]] + fs[1..];
    }
  }

  lemma {:induction false} UniqueMultiset(fs: seq<Finding>, f: Finding)
    requires UniqueIds(fs)
    ensures multiset(fs)[f] == if f in fs then 1 else 0
  {
    if fs != [] {
      UniqueMultiset(fs[1..], f);
      assert fs == [fs[0]] + fs[1..];
    }
  }

  lemma {:induction false} GroupCount(fs: seq<Finding>, k: string, f: Finding)
    ensures multiset(Group(fs, k))[f] == if Key(f) == k then multiset(fs)[f] else 0
  {
    hide Key;
    if fs != [] {
      GroupCount(fs[1..], k, f);
      assert fs == [fs[0]] + fs[1..];
      assert Select(fs, HasKey(k)) == (if Key(fs[0]) == k then [fs[0]] else []) + Group(fs[1..], k);
    }
  }

  lemma {:induction false} GroupsCount(fs: seq<Finding>, keys: seq<string>, made: seq<Cluster>, f: Finding)
    requires Distinct(keys)
    ensures multiset(AllMembers(made + GroupClusters(fs, keys)))[f]
         == multiset(AllMembers(made))[f] + if Key(f) in keys then multiset(fs)[f] else 0
  {
    hide Key, Group, AllMembers;
    if keys == [] {
      assert made + GroupClusters(fs, keys) == made;
    } else {
      var n := |keys| - 1;
      GroupsCount(fs, keys[..n], made, f);
      assert keys == keys[..n] + [keys[n]];
      assert keys[..n + 1] == keys;
      GroupClustersOneMore(fs, keys, n, made);
      AllMembersOneMore(made + GroupClusters(fs, keys[..n]), Keyed(Group(fs, keys[n])));
      GroupCount(fs, keys[n], f);
    }
  }

  lemma {:induction false} PairClustersMembers(pairs: seq<Pair>)
    ensures AllMembers(PairClusters(pairs)) == PairMembers(pairs)
  {
    if pairs != [] {
      var init, last := pairs[..|pairs| - 1], pairs[|pairs| - 1];
      PairClustersMembers(init);
      assert pairs == init + [last];
      hide AllMembers, PairMembers;
      PairClustersOneMore(init, last);
      AllMembersOneMore(PairClusters(init), Verified(last));
      PairMembersAppend(init, last);
    }
  }

  lemma {:induction false} PairMembersAppend(pairs: seq<Pair>, p: Pair)
    ensures PairMembers(pairs + [p]) == PairMembers(pairs) + [p.dast, p.sast]
  {
    if pairs == [] {
      assert pairs + [p] == [p];
      assert PairMembers([p][1..]) == [];
    } else {
      PairMembersAppend(pairs[1..], p);
      assert (pairs + [p])[1..] == pairs[1..] + [p];
    }
  }

  /** The paired findings are exactly the visited ones. */
  lemma PairedCount(findings: seq<Finding>, f: Finding)
    requires UniqueIds(findings) && UniqueIds(PairMembers(Pairs(findings)))
    ensures var pairs := Pairs(findings);
      multiset(PairMembers(pairs))[f] == multiset(Select(findings, In(PairIds(pairs))))[f]
  {
    hide Pairs, PairIds, Select;
    var pairs := Pairs(findings);
    PairMembersIds(pairs);
    UniqueMultiset(PairMembers(pairs), f);
    SelectUnique(findings, In(PairIds(pairs)));
    UniqueMultiset(Select(findings, In(PairIds(pairs))), f);
    Selected(findings, In(PairIds(pairs)), f);
    PairMembersFound(findings);
    if f in findings && f.id in PairIds(pairs) {
      var g :| g in PairMembers(pairs) && g.id == f.id;
      SameId(findings, f, g);
    }
  }

  lemma PairMembersFound(findings: seq<Finding>)
    ensures forall f :: f in PairMembers(Pairs(findings)) ==> f in findings
  {
    hide Pairs;
    PairsMaximal(findings);
    forall f | f in PairMembers(Pairs(findings)) ensures f in findings {
      MemberOfPair(Pairs(findings), f);
    }
  }

  lemma {:induction false} MemberOfPair(pairs: seq<Pair>, f: Finding)
    requires f in PairMembers(pairs)
    ensures exists p :: p in pairs && (f == p.dast || f == p.sast)
  {
    if f == pairs[0].dast || f == pairs[0].sast {
      assert pairs[0] in pairs;
    } else {
      MemberOfPair(pairs[1..], f);
      var p :| p in pairs[1..] && (f == p.dast || f == p.sast);
      assert p in pairs;
    }
  }

  /** The clusters hold the findings of the input, each as often as it occurs there. */
  lemma ClustersHoldFindings(findings: seq<Finding>)
    requires UniqueIds(findings) && UniqueIds(PairMembers(Pairs(findings)))
    ensures multiset(AllMembers(Clusters(findings))) == multiset(findings)
  {
    hide Pairs, PairIds, Select, KeyOrder, Key;
    var pairs := Pairs(findings);
    var visited := PairIds(pairs);
    var rest := Remaining(findings, visited);
    Partition(findings, visited);
    PairClustersMembers(pairs);
    KeyOrderDistinct(rest);
    forall f ensures multiset(AllMembers(Clusters(findings)))[f] == multiset(findings)[f] {
      PairedCount(findings, f);
      GroupsCount(rest, KeyOrder(rest), PairClusters(pairs), f);
      if f in rest {
        KeyOrderMembers(rest, Key(f));
      }
    }
  }

  function Drop<T>(xs: seq<T>, i: nat): (r: seq<T>)
    requires i < |xs|
    ensures |r| == |xs| - 1
  {
    xs[..i] + xs[i + 1..]
  }

  lemma DropMultiset<T>(xs: seq<T>, i: nat)
    requires i < |xs|
    ensures multiset(xs) == multiset(Drop(xs, i)) + multiset{xs[i]}
  {
    ThreeParts(xs[..i], [xs[i]], xs[i + 1..]);
    assert xs == xs[..i] + [xs[i]] + xs[i + 1..];
  }

  lemma ThreeParts<T>(a: seq<T>, b: seq<T>, c: seq<T>)
    ensures multiset(a + b + c) == multiset(a + c) + multiset(b)
  {
  }

  lemma CancelOne<T>(m: multiset<T>, n: multiset<T>, x: T)
    requires m + multiset{x} == n + multiset{x}
    ensures m == n
  {
    assert m == (m + multiset{x}) - multiset{x};
    assert n == (n + multiset{x}) - multiset{x};
  }

  lemma IdsDrop(xs: seq<Finding>, i: nat)
    requires i < |xs|
    ensures multiset(Ids(xs)) == multiset(Ids(Drop(xs, i))) + multiset{xs[i].id}
  {
    DropMultiset(Ids(xs), i);
    assert Drop(Ids(xs), i) == Ids(Drop(xs, i));
  }

  lemma {:induction false} SameIds(a: seq<Finding>, b: seq<Finding>)
    requires multiset(a) == multiset(b)
    ensures multiset(Ids(a)) == multiset(Ids(b))
    decreases |a|
  {
    hide Ids, Drop;
    if a == [] {
      assert |multiset(b)| == 0;
      assert a == b;
    } else {
      assert a[0] in multiset(b);
      var i :| 0 <= i < |b| && b[i] == a[0];
      DropMultiset(a, 0);
      DropMultiset(b, i);
      CancelOne(multiset(Drop(a, 0)), multiset(Drop(b, i)), a[0]);
      SameIds(Drop(a, 0), Drop(b, i));
      IdsDrop(a, 0);
      IdsDrop(b, i);
    }
  }

  /** Every finding raised exactly one occurrence. */
  ghost predicate Conserved(findings: seq<Finding>) {
    multiset(RaisedBy(Correlated(findings).occurrences)) == multiset(Ids(findings))
  }

  lemma {:induction false} AllMembersPrefix(a: seq<Cluster>, b: seq<Cluster>)
    ensures AllMembers(a) <= AllMembers(a + b)
  {
    if b == [] {
      assert a + b == a;
    } else {
      var init := b[..|b| - 1];
      AllMembersPrefix(a, init);
      assert a + b == a + init + [b[|b| - 1]];
      AllMembersOneMore(a + init, b[|b| - 1]);
    }
  }

  lemma {:induction false} IdsOnce(fs: seq<Finding>, id: string)
    ensures multiset(Ids(fs))[id] > 1 ==> !UniqueIds(fs)
    ensures id !in Ids(fs) ==> multiset(Ids(fs))[id] == 0
  {
    if fs != [] {
      var rest := fs[1..];
      IdsOnce(rest, id);
      assert Ids(fs) == [fs[0].id] + Ids(rest);
      RestUnique(fs);
      hide Ids, UniqueIds;
      if fs[0].id == id && id in Ids(rest) {
        RepeatedId(fs, id);
      }
    }
  }

  lemma RestUnique(fs: seq<Finding>)
    requires fs != []
    ensures UniqueIds(fs) ==> UniqueIds(fs[1..])
  {
  }

  lemma RepeatedId(fs: seq<Finding>, id: string)
    requires fs != [] && fs[0].id == id && id in Ids(fs[1..])
    ensures !UniqueIds(fs)
  {
    var i :| 0 <= i < |fs[1..]| && Ids(fs[1..])[i] == id;
    assert fs[0].id == fs[i + 1].id;
  }

  lemma Twice<T>(xs: seq<T>, i: nat, j: nat)
    requires i < j < |xs| && xs[i] == xs[j]
    ensures multiset(xs)[xs[i]] > 1
  {
    assert xs == xs[..j] + [xs[j]] + xs[j + 1..];
    assert xs[..j][i] in multiset(xs[..j]);
  }

  /** Conserved means that no finding is in two pairs or twice in one. */
  lemma ConservedMatching(findings: seq<Finding>)
    requires UniqueIds(findings)
    ensures Conserved(findings) <==> UniqueIds(PairMembers(Pairs(findings)))
  {
    hide EmitAll, Pairs, PairIds, KeyOrder, PairMembers, AllMembers, Remaining;
    var ms, all := PairMembers(Pairs(findings)), AllMembers(Clusters(findings));
    OccurrencesFollowMembers(Clusters(findings));
    if UniqueIds(ms) {
      ClustersHoldFindings(findings);
      SameIds(all, findings);
    } else {
      var i, j :| 0 <= i < j < |ms| && ms[i].id == ms[j].id;
      PairClustersMembers(Pairs(findings));
      var rest := Remaining(findings, PairIds(Pairs(findings)));
      AllMembersPrefix(PairClusters(Pairs(findings)), GroupClusters(rest, KeyOrder(rest)));
      hide Clusters;
      assert all[i] == ms[i] && all[j] == ms[j];
      Twice(Ids(all), i, j);
      IdsOnce(findings, ms[i].id);
    }
  }

  /** Conservation holds exactly when the check that the pairing loop leaves out would never have failed. */
  lemma ConservedExactly(findings: seq<Finding>)
    requires UniqueIds(findings)
    ensures Conserved(findings) <==> NeverRevisits(Dasts(findings), Sasts(findings), {})
  {
    ConservedMatching(findings);
    hide Conserved, NeverRevisits, PairMembers;
    MatchingExactly(Dasts(findings), Sasts(findings), {});
  }

  /** So it holds of every input without repeated ids and without a finding that would match itself. */
  lemma Conservation(findings: seq<Finding>)
    requires Wellposed(findings)
    ensures Conserved(findings)
  {
    ConservedMatching(findings);
    PairsAreMatching(findings);
  }

  /** The same findings in another order. */
  lemma ReorderedWellposed(findings: seq<Finding>, order: seq<Finding>)
    requires multiset(order) == multiset(findings) && UniqueIds(findings)
    ensures UniqueIds(order)
    ensures Wellposed(findings) ==> Wellposed(order)
  {
    hide SelfMatching;
    SameIds(order, findings);
    forall i, j | 0 <= i < j < |order| ensures order[i].id != order[j].id {
      if order[i].id == order[j].id {
        Twice(Ids(order), i, j);
        IdsOnce(findings, order[i].id);
      }
    }
    forall f | f in order ensures f in findings {
      assert f in multiset(findings);
    }
  }

  /** A finding that matches itself and comes first is paired with itself. */
  lemma SelfMatchingFirst(f: Finding, rest: seq<Finding>)
    requires SelfMatching(f)
    ensures !NeverRevisits(Dasts([f] + rest), Sasts([f] + rest), {})
  {
    hide IsSast, IsDast, Agree;
    var all := [f] + rest;
    assert all[0] == f;
    assert Dasts(all)[0] == f && Sasts(all)[0] == f;
    assert FirstMatch(f, Sasts(all), {}) == Some(f);
  }

  /**
   * Findings are conserved in whatever order they arrive exactly when none of them matches
   * itself, which no guard in the code rules out.
   */
  lemma ConservedInEveryOrder(findings: seq<Finding>)
    requires UniqueIds(findings)
    ensures (forall order :: multiset(order) == multiset(findings) ==> Conserved(order)) <==> Wellposed(findings)
  {
    hide SelfMatching, Conserved, NeverRevisits;
    if Wellposed(findings) {
      forall order | multiset(order) == multiset(findings) ensures Conserved(order) {
        ReorderedWellposed(findings, order);
        Conservation(order);
      }
    } else {
      var i :| 0 <= i < |findings| && SelfMatching(findings[i]);
      var order := [findings[i]] + Drop(findings, i);
      DropMultiset(findings, i);
      assert multiset(order) == multiset(findings);
      ReorderedWellposed(findings, order);
      SelfMatchingFirst(findings[i], Drop(findings, i));
      ConservedExactly(order);
    }
  }

  /** In particular a finding on its own. */
  lemma ConservedAloneExactly(f: Finding)
    ensures Conserved([f]) <==> !SelfMatching(f)
  {
    hide SelfMatching, Conserved;
    ConservedInEveryOrder([f]);
    assert [f][0] == f;
    if SelfMatching(f) {
      var order :| multiset(order) == multiset([f]) && !Conserved(order);
      assert |multiset(order)| == |order| && order[0] in multiset(order);
      assert order == [f];
    }
  }

  // ----- Counts -----

  function CountFor(os: seq<Occurrence>, id: nat): nat {
    if os == [] then 0 else CountFor(os[..|os| - 1], id) + if os[|os| - 1].canonicalId == id then 1 else 0
  }

  lemma {:induction false} CountForAppend(a: seq<Occurrence>, b: seq<Occurrence>, id: nat)
    ensures CountFor(a + b, id) == CountFor(a, id) + CountFor(b, id)
  {
    if b == [] {
      assert a + b == a;
    } else {
      CountForAppend(a, b[..|b| - 1], id);
      assert (a + b)[..|a + b| - 1] == a + b[..|b| - 1];
    }
  }

  lemma {:induction false} CountForOne(os: seq<Occurrence>, made: nat, id: nat)
    requires forall o :: o in os ==> o.canonicalId == made
    ensures CountFor(os, id) == if id == made then |os| else 0
  {
    if os != [] {
      assert os[|os| - 1] in os;
      CountForOne(os[..|os| - 1], made, id);
    }
  }

  function TotalObserved(cs: seq<Canonical>): nat {
    if cs == [] then 0 else TotalObserved(cs[..|cs| - 1]) + cs[|cs| - 1].timesObserved
  }

  lemma {:induction false} EmittedCounts(cs: seq<Cluster>)
    ensures var o := EmitAll(cs);
      && (forall id: nat :: CountFor(o.occurrences, id) == if id < |cs| then o.canonicals[id].timesObserved else 0)
      && (forall i :: 0 <= i < |cs| ==> o.canonicals[i].id == i)
      && TotalObserved(o.canonicals) == |o.occurrences|
  {
    if cs != [] {
      var init, last := cs[..|cs| - 1], cs[|cs| - 1];
      EmittedCounts(init);
      var before, after := EmitAll(init), EmitAll(cs);
      var more := OccurrencesOf(|init|, last);
      forall id: nat ensures CountFor(after.occurrences, id)
          == if id < |cs| then after.canonicals[id].timesObserved else 0 {
        CountForAppend(before.occurrences, more, id);
        CountForOne(more, |init|, id);
      }
      assert after.canonicals[..|cs| - 1] == before.canonicals;
    }
  }

  lemma PairedAtLeast(findings: seq<Finding>, f: Finding)
    requires UniqueIds(findings)
    ensures var pairs := Pairs(findings);
      multiset(PairMembers(pairs))[f] >= multiset(Select(findings, In(PairIds(pairs))))[f]
  {
    hide Pairs, PairIds, Select;
    var pairs := Pairs(findings);
    PairMembersIds(pairs);
    SelectUnique(findings, In(PairIds(pairs)));
    UniqueMultiset(Select(findings, In(PairIds(pairs))), f);
    Selected(findings, In(PairIds(pairs)), f);
    PairMembersFound(findings);
    if f in findings && f.id in PairIds(pairs) {
      var g :| g in PairMembers(pairs) && g.id == f.id;
      SameId(findings, f, g);
    }
  }

  /** Nothing is ever lost: every finding is in some cluster, whatever is classified as what. */
  lemma NothingLost(findings: seq<Finding>)
    requires UniqueIds(findings)
    ensures multiset(findings) <= multiset(AllMembers(Clusters(findings)))
  {
    hide Pairs, PairIds, Select, KeyOrder, Key;
    var pairs := Pairs(findings);
    var visited := PairIds(pairs);
    var rest := Remaining(findings, visited);
    Partition(findings, visited);
    PairClustersMembers(pairs);
    KeyOrderDistinct(rest);
    forall f ensures multiset(findings)[f] <= multiset(AllMembers(Clusters(findings)))[f] {
      PairedAtLeast(findings, f);
      GroupsCount(rest, KeyOrder(rest), PairClusters(pairs), f);
      if f in rest {
        KeyOrderMembers(rest, Key(f));
      }
    }
  }

  lemma SameSizeSame<T>(m: multiset<T>, n: multiset<T>)
    requires m <= n && |m| == |n|
    ensures m == n
  {
    assert n == m + (n - m);
    assert |n - m| == 0;
  }

  /**
   * `times_observed` counts the occurrences of a root cause, and the counts add up to the
   * number of findings exactly when findings are conserved.
   */
  lemma ObservedCounts(findings: seq<Finding>)
    requires UniqueIds(findings)
    ensures var o := Correlated(findings);
      && (forall c :: c in o.canonicals ==> CountFor(o.occurrences, c.id) == c.timesObserved)
      && TotalObserved(o.canonicals) == |o.occurrences| >= |findings|
      && (TotalObserved(o.canonicals) == |findings| <==> NeverRevisits(Dasts(findings), Sasts(findings), {}))
  {
    ConservedExactly(findings);
    hide NeverRevisits, Dasts, Sasts;
    assert Conserved(findings) ==> |Correlated(findings).occurrences| == |findings| by {
      assert |multiset(RaisedBy(Correlated(findings).occurrences))| == |Correlated(findings).occurrences|;
      assert |multiset(Ids(findings))| == |findings|;
    }
    hide Clusters, EmitAll;
    EmittedCounts(Clusters(findings));
    OccurrencesFollowMembers(Clusters(findings));
    NothingLost(findings);
    var all := AllMembers(Clusters(findings));
    assert |multiset(findings)| == |findings| && |multiset(all)| == |all|;
    MultisetGrows(multiset(findings), multiset(all));
    if |all| == |findings| {
      SameSizeSame(multiset(findings), multiset(all));
      SameIds(all, findings);
    }
  }

  lemma MultisetGrows<T>(m: multiset<T>, n: multiset<T>)
    requires m <= n
    ensures |m| <= |n|
  {
    assert n == m + (n - m);
  }

  /** No root cause is made of nothing: each has been observed, and takes its fields from a finding. */
  lemma EveryRootCauseObserved(findings: seq<Finding>)
    ensures forall c :: c in Clusters(findings) ==> c.Members() != []
    ensures forall c :: c in Correlated(findings).canonicals ==> c.timesObserved > 0
  {
    hide Pairs, PairIds, KeyOrder, Key, Remaining, Group;
    var cs := Clusters(findings);
    var rest := Remaining(findings, PairIds(Pairs(findings)));
    forall c | c in cs ensures c.Members() != [] {
      if c.Keyed? {
        var i :| 0 <= i < |KeyOrder(rest)| && c == Keyed(Group(rest, KeyOrder(rest)[i]));
        NoGroupIsEmpty(rest, KeyOrder(rest)[i]);
      }
    }
    CanonicalsObserved(cs);
  }

  lemma {:induction false} CanonicalsObserved(cs: seq<Cluster>)
    requires forall c :: c in cs ==> c.Members() != []
    ensures forall c :: c in EmitAll(cs).canonicals ==> c.timesObserved > 0
  {
    if cs != [] {
      assert cs == cs[..|cs| - 1] + [cs[|cs| - 1]];
      CanonicalsObserved(cs[..|cs| - 1]);
      assert cs[|cs| - 1] in cs;
    }
  }

  // ----- Who shares a root cause -----

  lemma {:induction false} OccurrenceFrom(cs: seq<Cluster>, o: Occurrence)
    requires o in EmitAll(cs).occurrences
    ensures o.canonicalId < |cs|
    ensures exists f :: f in cs[o.canonicalId].Members() && f.id == o.raisedBy
  {
    var init, last := cs[..|cs| - 1], cs[|cs| - 1];
    var more := OccurrencesOf(|init|, last);
    if o in more {
      var i :| 0 <= i < |more| && more[i] == o;
      assert last.Members()[i] in last.Members();
    } else {
      OccurrenceFrom(init, o);
    }
  }

  /** The position of the cluster that an unpaired finding's occurrence points at. */
  lemma UnpairedCluster(findings: seq<Finding>, f: Finding, o: Occurrence)
    requires UniqueIds(findings) && f in findings && f.id !in PairIds(Pairs(findings))
    requires o in Correlated(findings).occurrences && o.raisedBy == f.id
    ensures var n := |Pairs(findings)|; var keys := KeyOrder(Remaining(findings, PairIds(Pairs(findings))));
      n <= o.canonicalId < n + |keys| && keys[o.canonicalId - n] == Key(f)
  {
    hide Pairs, PairIds, KeyOrder, Key, EmitAll, Select;
    var pairs := Pairs(findings);
    var rest := Remaining(findings, PairIds(pairs));
    var keys := KeyOrder(rest);
    OccurrenceFrom(Clusters(findings), o);
    var g :| g in Clusters(findings)[o.canonicalId].Members() && g.id == f.id;
    forall i | 0 <= i < |pairs| ensures pairs[i].dast.id in PairIds(pairs) && pairs[i].sast.id in PairIds(pairs) {
      PairIdsHold(pairs, pairs[i]);
    }
    if o.canonicalId >= |pairs| {
      var k := keys[o.canonicalId - |pairs|];
      Selected(rest, HasKey(k), g);
      Selected(findings, NotIn(PairIds(pairs)), g);
      SameId(findings, f, g);
    }
  }

  lemma PairIdsHold(pairs: seq<Pair>, p: Pair)
    requires p in pairs
    ensures p.dast.id in PairIds(pairs) && p.sast.id in PairIds(pairs)
  {
  }

  /** Findings left unpaired share a root cause exactly when their keys agree. */
  lemma UnpairedShareByKey(findings: seq<Finding>, f: Finding, g: Finding, o: Occurrence, p: Occurrence)
    requires UniqueIds(findings) && f in findings && g in findings
    requires f.id !in PairIds(Pairs(findings)) && g.id !in PairIds(Pairs(findings))
    requires o in Correlated(findings).occurrences && o.raisedBy == f.id
    requires p in Correlated(findings).occurrences && p.raisedBy == g.id
    ensures o.canonicalId == p.canonicalId <==> Key(f) == Key(g)
  {
    hide Pairs, PairIds, KeyOrder, Key, EmitAll, Select, Clusters;
    UnpairedCluster(findings, f, o);
    UnpairedCluster(findings, g, p);
    KeyOrderDistinct(Remaining(findings, PairIds(Pairs(findings))));
  }

  /** And keys agree exactly when their three parts do, if no bar stands in the first two. */
  lemma KeyPartsExactly(f: Finding, g: Finding)
    requires '|' !in f.category && '|' !in g.category && '|' !in CweOrCheck(f) && '|' !in CweOrCheck(g)
    ensures Key(f) == Key(g) <==>
      f.category == g.category && CweOrCheck(f) == CweOrCheck(g) && LocationKey(f) == LocationKey(g)
  {
    KeySplits(f);
    KeySplits(g);
    JoinSplit(LocationKey(f), '|');
    JoinSplit(LocationKey(g), '|');
    if Key(f) == Key(g) {
      var a, b := Split(Key(f), '|'), Split(Key(g), '|');
      assert a[0] == b[0] && a[1] == b[1] && a[2..] == b[2..];
    }
  }

  lemma KeySplits(f: Finding)
    requires '|' !in f.category && '|' !in CweOrCheck(f)
    ensures Split(Key(f), '|') == [f.category, CweOrCheck(f)] + Split(LocationKey(f), '|')
  {
    hide CweOrCheck, LocationKey, Split;
    var tail := CweOrCheck(f) + ['|'] + LocationKey(f);
    assert Key(f) == f.category + ['|'] + tail;
    SplitAtFirst(f.category, '|', tail);
    SplitAtFirst(CweOrCheck(f), '|', LocationKey(f));
  }

  /** With a bar inside, different categories and weaknesses run into one key. */
  lemma BarsMergeKeys(f: Finding, g: Finding, a: string, b: string, c: string)
    requires f.category == a + "|" + b && CweOrCheck(f) == c
    requires g.category == a && CweOrCheck(g) == b + "|" + c
    requires LocationKey(f) == LocationKey(g)
    ensures Key(f) == Key(g) && f.category != g.category
  {
    hide CweOrCheck, LocationKey;
    assert |f.category| > |g.category|;
    assert a + "|" + b + "|" + c == a + "|" + (b + "|" + c);
  }

  lemma SplitAtBar(s: string) returns (a: string, b: string)
    requires '|' in s
    ensures s == a + "|" + b
  {
    var i :| 0 <= i < |s| && s[i] == '|';
    a, b := s[..i], s[i + 1..];
    assert s == s[..i] + [s[i]] + s[i + 1..];
  }

  /** The part of the key in front of the location. */
  function Front(f: Finding): string {
    f.category + "|" + CweOrCheck(f)
  }

  lemma OneBar(a: string, b: string, c: string, d: string)
    requires '|' !in a && '|' !in b
    ensures a + "|" + b == c + "|" + d ==> a == c && b == d
    ensures forall x: string :: a + "|" + b != c + "|" + d + "|" + x
  {
    SplitWithout(a, '|');
    SplitWithout(b, '|');
    SplitAppend(a, '|', b);
    SplitAppend(c, '|', d);
    assert a + "|" + b == a + ['|'] + b && c + "|" + d == c + ['|'] + d;
    hide Split;
    if a + "|" + b == c + "|" + d {
      var both := Split(c, '|') + Split(d, '|');
      assert both == [a] + [b] && |Split(c, '|')| == 1 && |Split(d, '|')| == 1;
      assert both[0] == Split(c, '|')[0] && both[1] == Split(d, '|')[0];
      assert Split(c, '|') == [a] && Split(d, '|') == [b];
      JoinSplit(c, '|');
      JoinSplit(d, '|');
      JoinOne(a, '|');
      JoinOne(b, '|');
    }
    forall x: string ensures a + "|" + b != c + "|" + d + "|" + x {
      SplitAppend(c + "|" + d, '|', x);
      assert c + "|" + d + "|" + x == c + "|" + d + ['|'] + x;
      assert |Split(a + "|" + b, '|')| == 2;
      assert |Split(c + "|" + d, '|')| >= 2;
    }
  }

  /** Another finding at the same place, with another category and another check id. */
  function Renamed(f: Finding, category: string, checkId: string): Finding {
    f.(category := category, cweId := None, checkId := checkId)
  }

  /**
   * At one location a key stands for one category and one CWE or check id exactly when
   * neither of them holds a bar: with one, some other finding always gets the same key.
   */
  lemma BarsMatterExactly(f: Finding)
    ensures (forall g :: Key(g) == Key(f) && LocationKey(g) == LocationKey(f) ==>
              g.category == f.category && CweOrCheck(g) == CweOrCheck(f))
       <==> ('|' !in f.category && '|' !in CweOrCheck(f))
  {
    hide LocationKey;
    if '|' in f.category {
      var a, b := SplitAtBar(f.category);
      var g := Renamed(f, a, b + "|" + CweOrCheck(f));
      SamePlace(f, a, b + "|" + CweOrCheck(f));
      BarsMergeKeys(f, g, a, b, CweOrCheck(f));
    } else if '|' in CweOrCheck(f) {
      var a, b := SplitAtBar(CweOrCheck(f));
      var g := Renamed(f, f.category + "|" + a, b);
      SamePlace(f, f.category + "|" + a, b);
      BarsMergeKeys(g, f, f.category, a, b);
    } else {
      forall g | Key(g) == Key(f) && LocationKey(g) == LocationKey(f)
        ensures g.category == f.category && CweOrCheck(g) == CweOrCheck(f)
      {
        var tail := "|" + LocationKey(f);
        assert Key(f) == Front(f) + tail && Key(g) == Front(g) + tail;
        assert Key(f)[..|Front(f)|] == Front(f) && Key(g)[..|Front(g)|] == Front(g);
        OneBar(f.category, CweOrCheck(f), g.category, CweOrCheck(g));
      }
    }
  }

  lemma SamePlace(f: Finding, category: string, checkId: string)
    ensures LocationKey(Renamed(f, category, checkId)) == LocationKey(f)
    ensures CweOrCheck(Renamed(f, category, checkId)) == checkId
  {
  }

  /** What stands behind some bar of a location is a location key itself. */
  predicate SplitsAtBar(location: string) {
    exists i | 0 <= i < |location| :: location[i] == '|' && PyText.Trimmed(location[i + 1..])
  }

  /**
   * A key stands for all three of its parts exactly when, besides, the location cannot be cut
   * at a bar into the end of a check id and another location.
   */
  lemma KeyIdentifiesExactly(f: Finding)
    ensures (forall g :: Key(g) == Key(f) ==>
              g.category == f.category && CweOrCheck(g) == CweOrCheck(f) && LocationKey(g) == LocationKey(f))
       <==> ('|' !in f.category && '|' !in CweOrCheck(f) && !SplitsAtBar(LocationKey(f)))
  {
    BarsMatterExactly(f);
    hide PyText.Trimmed, LocationKey;
    var l := LocationKey(f);
    if SplitsAtBar(l) {
      var i :| 0 <= i < |l| && l[i] == '|' && PyText.Trimmed(l[i + 1..]);
      ShorterLocation(f, i);
    }
    if '|' !in f.category && '|' !in CweOrCheck(f) && !SplitsAtBar(l) {
      forall g | Key(g) == Key(f) ensures LocationKey(g) == l {
        SameLocation(f, g);
      }
    }
  }

  function Moved(f: Finding, category: string, checkId: string, location: string): Finding {
    f.(category := category, cweId := None, checkId := checkId, evidence := f.evidence.(location := location))
  }

  lemma MovedKey(f: Finding, category: string, checkId: string, location: string)
    ensures var g := Moved(f, category, checkId, location);
      g.evidence.location == location && Key(g) == category + "|" + checkId + "|" + LocationKey(g)
  {
    hide LocationKey;
  }

  lemma ShorterLocation(f: Finding, i: nat)
    requires i < |LocationKey(f)| && LocationKey(f)[i] == '|' && PyText.Trimmed(LocationKey(f)[i + 1..])
    ensures exists g :: Key(g) == Key(f) && LocationKey(g) != LocationKey(f)
  {
    hide LocationKey, PyText.Trimmed, CweOrCheck, Moved;
    var l, d := LocationKey(f), LocationKey(f)[i + 1..];
    var g := Moved(f, f.category, CweOrCheck(f) + "|" + l[..i], d);
    MovedKey(f, f.category, CweOrCheck(f) + "|" + l[..i], d);
    TailIsLocation(f, i, g);
    Rejoined(f.category, CweOrCheck(f), l[..i], d);
    CutAt(l, i);
    assert |d| < |l|;
    assert Key(g) == Key(f);
  }

  lemma CutAt(l: string, i: nat)
    requires i < |l| && l[i] == '|'
    ensures l == l[..i] + "|" + l[i + 1..]
  {
  }

  lemma Rejoined(a: string, b: string, c: string, d: string)
    ensures a + "|" + (b + "|" + c) + "|" + d == a + "|" + b + "|" + (c + "|" + d)
  {
    assert a + "|" + (b + "|" + c) == a + "|" + b + ("|" + c);
    assert ("|" + c) + ("|" + d) == "|" + (c + "|" + d);
  }

  lemma TailIsLocation(f: Finding, i: nat, g: Finding)
    requires i < |LocationKey(f)| && PyText.Trimmed(LocationKey(f)[i + 1..])
    requires g.evidence.location == LocationKey(f)[i + 1..]
    ensures LocationKey(g) == LocationKey(f)[i + 1..]
  {
    PyText.StripTrimmed(g.evidence.location);
    LowerAgain(PyText.Strip(f.evidence.location), i + 1);
    hide PyText.Strip, PyText.Lower, PyText.Trimmed;
  }

  lemma LowerAgain(s: string, i: nat)
    requires i <= |s|
    ensures PyText.Lower(PyText.Lower(s)[i..]) == PyText.Lower(s)[i..]
  {
    forall c ensures PyText.LowerChar(PyText.LowerChar(c)) == PyText.LowerChar(c) {
    }
    hide PyText.LowerChar;
  }

  lemma SameLocation(f: Finding, g: Finding)
    requires '|' !in f.category && '|' !in CweOrCheck(f) && !SplitsAtBar(LocationKey(f))
    requires Key(g) == Key(f)
    ensures LocationKey(g) == LocationKey(f)
  {
    LocationTrimmed(g);
    hide PyText.Trimmed, LocationKey, CweOrCheck;
    var l, m := LocationKey(f), LocationKey(g);
    assert Front(f) + "|" + l == Front(g) + "|" + m;
    if |m| < |l| {
      var i := LongerTail(Front(f), l, Front(g), m);
    } else if |m| > |l| {
      var i := LongerTail(Front(g), m, Front(f), l);
      OneBar(f.category, CweOrCheck(f), g.category, CweOrCheck(g));
    } else {
      assert (Front(f) + "|" + l)[|Front(f)| + 1..] == l && (Front(g) + "|" + m)[|Front(g)| + 1..] == m;
    }
  }

  /** Of two ways to cut a text at a bar, the longer tail ends in the shorter one. */
  lemma LongerTail(a: string, l: string, b: string, m: string) returns (i: nat)
    requires a + "|" + l == b + "|" + m && |m| < |l|
    ensures i < |l| && l[i] == '|' && l[i + 1..] == m && b == a + "|" + l[..i]
  {
    i := |l| - |m| - 1;
    var s := a + "|" + l;
    assert s == a + ("|" + l) && |s| == |a| + 1 + |l| && |b| == |a| + 1 + i;
    assert s[|a| + 1..] == l && s[|b| + 1..] == m && s[|b|] == '|';
    assert l[i] == s[|a| + 1 + i];
    assert l[i + 1..] == s[|b| + 1..];
    assert b == s[..|b|];
    assert s[..|b|] == a + "|" + l[..i];
  }

  lemma LocationTrimmed(f: Finding)
    ensures PyText.Trimmed(LocationKey(f))
  {
    var s := PyText.Strip(f.evidence.location);
    hide PyText.Strip, PyText.IsSpace;
    if s != "" {
      LowerKeepsBlank(s[0]);
      LowerKeepsBlank(s[|s| - 1]);
    }
  }

  lemma LowerKeepsBlank(c: char)
    ensures PyText.IsSpace(PyText.LowerChar(c)) <==> PyText.IsSpace(c)
  {
  }
}
