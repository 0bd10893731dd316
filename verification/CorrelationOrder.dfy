/** In which order findings are paired, grouped and reported, as positions in the input. */
module CorrelationOrder {
  import opened Correlator
  import opened CorrelationOutput

  // ----- Selections -----

  predicate Increasing(at: seq<nat>) {
    forall m, n | 0 <= m < n < |at| :: at[m] < at[n]
  }

  /** The members of a selection stand at these positions, and nowhere else is anything selected. */
  ghost predicate StandAt(fs: seq<Finding>, p: Finding -> bool, at: seq<nat>) {
    && |at| == |Select(fs, p)| && Increasing(at)
    && (forall n :: 0 <= n < |at| ==> at[n] < |fs| && Select(fs, p)[n] == fs[at[n]])
    && forall i :: 0 <= i < |fs| && p(fs[i]) ==> i in at
  }

  function Moved(at: seq<nat>): (moved: seq<nat>)
    ensures |moved| == |at| && forall n :: 0 <= n < |at| ==> moved[n] == at[n] + 1
  {
    seq(|at|, n requires 0 <= n < |at| => at[n] + 1)
  }

  lemma MovedStand(fs: seq<Finding>, p: Finding -> bool, at: seq<nat>)
    requires fs != [] && StandAt(fs[1..], p, at)
    ensures Increasing(Moved(at))
    ensures forall n :: 0 <= n < |at| ==> 0 < Moved(at)[n] < |fs| && Select(fs[1..], p)[n] == fs[Moved(at)[n]]
    ensures forall i :: 0 < i < |fs| && p(fs[i]) ==> i in Moved(at)
  {
    hide Select;
    forall i | 0 < i < |fs| && p(fs[i]) ensures i in Moved(at) {
      assert fs[1..][i - 1] == fs[i];
      var n :| 0 <= n < |at| && at[n] == i - 1;
      assert Moved(at)[n] == i;
    }
  }

  lemma {:induction false} SelectPositions(fs: seq<Finding>, p: Finding -> bool) returns (at: seq<nat>)
    ensures StandAt(fs, p, at)
  {
    hide StandAt;
    if fs == [] {
      at := [];
      NothingStands(p);
    } else {
      var later := SelectPositions(fs[1..], p);
      MovedStand(fs, p, later);
      at := if p(fs[0]) then [0] + Moved(later) else Moved(later);
      assert |later| == |Select(fs[1..], p)| by { StandSize(fs[1..], p, later); }
      FirstStands(fs, p, Moved(later));
    }
  }

  lemma NothingStands(p: Finding -> bool)
    ensures StandAt([], p, [])
  {
  }

  lemma StandSize(fs: seq<Finding>, p: Finding -> bool, at: seq<nat>)
    requires StandAt(fs, p, at)
    ensures |at| == |Select(fs, p)|
  {
  }

  lemma FirstStands(fs: seq<Finding>, p: Finding -> bool, moved: seq<nat>)
    requires fs != [] && |moved| == |Select(fs[1..], p)| && Increasing(moved)
    requires forall n :: 0 <= n < |moved| ==> 0 < moved[n] < |fs| && Select(fs[1..], p)[n] == fs[moved[n]]
    requires forall i :: 0 < i < |fs| && p(fs[i]) ==> i in moved
    ensures StandAt(fs, p, if p(fs[0]) then [0] + moved else moved)
  {
    var rest := Select(fs[1..], p);
    assert Select(fs, p) == if p(fs[0]) then [fs[0]] + rest else rest;
    hide Select;
    if p(fs[0]) {
      var at := [0] + moved;
      forall i | 0 <= i < |fs| && p(fs[i]) ensures i in at {
        assert at[0] == 0 && (i > 0 ==> i in moved);
      }
      forall n | 0 <= n < |at| ensures at[n] < |fs| && ([fs[0]] + rest)[n] == fs[at[n]] {
        assert n > 0 ==> at[n] == moved[n - 1];
      }
    }
  }

  // ----- Pairs -----

  /** A SAST finding that is still to be had and agrees with the DAST finding at `j`. */
  predicate Free(findings: seq<Finding>, j: nat, i: nat, taken: set<string>) {
    && i < |findings| && j < |findings|
    && IsSast(findings[i]) && findings[i].id !in taken && Agree(findings[i], findings[j])
  }

  predicate FirstFree(findings: seq<Finding>, j: nat, i: nat, taken: set<string>) {
    Free(findings, j, i, taken) && forall k: nat | k < i :: !Free(findings, j, k, taken)
  }

  /** Position `j` lies behind the first `n` positions and in front of the others. */
  predicate Between(at: seq<nat>, j: nat, n: nat) {
    n <= |at| && (n > 0 ==> at[n - 1] < j) && (n < |at| ==> j < at[n])
  }

  /** The DAST finding at `j` is paired with the first SAST finding that is free. */
  ghost predicate Takes(findings: seq<Finding>, j: nat, taken: set<string>, pair: Pair) {
    && j < |findings| && IsDast(findings[j]) && pair.dast == findings[j]
    && exists i: nat :: FirstFree(findings, j, i, taken) && pair.sast == findings[i]
  }

  ghost predicate NoneFree(findings: seq<Finding>, j: nat, taken: set<string>) {
    forall i: nat :: !Free(findings, j, i, taken)
  }

  /**
   * The pairs from position `k` on, where `taken` are the ids visited before: each takes the first
   * SAST finding that is free, and a DAST finding without a pair has found none free.
   */
  ghost predicate Greedy(findings: seq<Finding>, k: nat, taken: set<string>, pairs: seq<Pair>, at: seq<nat>) {
    && |at| == |pairs| && Increasing(at)
    && (forall n :: 0 <= n < |at| ==> k <= at[n] && Takes(findings, at[n], taken + PairIds(pairs[..n]), pairs[n]))
    && (forall j: nat, n: nat :: k <= j < |findings| && IsDast(findings[j]) && Between(at, j, n) ==>
          NoneFree(findings, j, taken + PairIds(pairs[..n])))
  }

  lemma {:induction false} FirstMatchAt(findings: seq<Finding>, k: nat, j: nat, taken: set<string>)
    requires k <= |findings| && j < |findings|
    requires forall i: nat :: i < k ==> !Free(findings, j, i, taken)
    ensures var r := FirstMatch(findings[j], Select(findings[k..], IsSast), taken);
      && (r.Some? ==> exists i: nat :: FirstFree(findings, j, i, taken) && r.value == findings[i])
      && (r.None? ==> NoneFree(findings, j, taken))
    decreases |findings| - k
  {
    hide IsSast, Agree;
    if k < |findings| {
      assert findings[k..][0] == findings[k] && findings[k..][1..] == findings[k + 1..];
      if Free(findings, j, k, taken) {
        assert FirstFree(findings, j, k, taken);
      } else {
        FirstMatchAt(findings, k + 1, j, taken);
      }
    }
  }

  lemma {:induction false} PairingGreedy(findings: seq<Finding>, k: nat, taken: set<string>) returns (at: seq<nat>)
    requires k <= |findings|
    ensures Greedy(findings, k, taken, Pairing(Select(findings[k..], IsDast), Sasts(findings), taken), at)
    decreases |findings| - k
  {
    hide IsSast, IsDast, Agree, Greedy, FirstMatch, NoneFree;
    if k == |findings| {
      at := [];
      NothingGreedy(findings, taken);
    } else {
      assert findings[k..][0] == findings[k] && findings[k..][1..] == findings[k + 1..];
      var d := findings[k];
      var later := Select(findings[k + 1..], IsDast);
      FirstMatchAt(findings, 0, k, taken);
      assert findings[0..] == findings;
      if !IsDast(d) {
        at := PairingGreedy(findings, k + 1, taken);
        Skipped(findings, k, taken, Pairing(later, Sasts(findings), taken), at);
      } else if FirstMatch(d, Sasts(findings), taken).None? {
        at := PairingGreedy(findings, k + 1, taken);
        assert ([d] + later)[1..] == later;
        Skipped(findings, k, taken, Pairing(later, Sasts(findings), taken), at);
      } else {
        var s := FirstMatch(d, Sasts(findings), taken).value;
        var rest := PairingGreedy(findings, k + 1, taken + {d.id, s.id});
        at := [k] + rest;
        assert ([d] + later)[1..] == later;
        OneMore(findings, k, taken, s, Pairing(later, Sasts(findings), taken + {d.id, s.id}), rest);
      }
    }
  }

  lemma NothingGreedy(findings: seq<Finding>, taken: set<string>)
    ensures Greedy(findings, |findings|, taken, [], [])
  {
  }

  /** No finding at `k` that could be paired. */
  lemma Skipped(findings: seq<Finding>, k: nat, taken: set<string>, pairs: seq<Pair>, at: seq<nat>)
    requires k < |findings| && Greedy(findings, k + 1, taken, pairs, at)
    requires IsDast(findings[k]) ==> NoneFree(findings, k, taken)
    ensures Greedy(findings, k, taken, pairs, at)
  {
    hide IsDast, NoneFree, Takes;
    forall j: nat, n: nat | k <= j < |findings| && IsDast(findings[j]) && Between(at, j, n)
      ensures NoneFree(findings, j, taken + PairIds(pairs[..n]))
    {
      if j == k {
        assert n == 0;
        NothingTaken(taken, pairs);
      }
    }
  }

  lemma TakenMore(taken: set<string>, p: Pair, pairs: seq<Pair>, n: nat)
    requires n <= |pairs|
    ensures taken + PairIds(([p] + pairs)[..n + 1]) == taken + {p.dast.id, p.sast.id} + PairIds(pairs[..n])
  {
    assert ([p] + pairs)[..n + 1] == [p] + pairs[..n];
    assert ([p] + pairs[..n])[1..] == pairs[..n];
  }

  lemma OneMore(findings: seq<Finding>, k: nat, taken: set<string>, s: Finding, pairs: seq<Pair>, at: seq<nat>)
    requires k < |findings| && IsDast(findings[k])
    requires Greedy(findings, k + 1, taken + {findings[k].id, s.id}, pairs, at)
    requires Takes(findings, k, taken, Pair(findings[k], s))
    ensures Greedy(findings, k, taken, [Pair(findings[k], s)] + pairs, [k] + at)
  {
    hide IsDast, Takes, NoneFree, PairIds;
    var p := Pair(findings[k], s);
    var all, ks := [p] + pairs, [k] + at;
    forall n | 0 <= n < |ks| ensures k <= ks[n] && Takes(findings, ks[n], taken + PairIds(all[..n]), all[n]) {
      if n == 0 {
        NothingTaken(taken, all);
      } else {
        TakenMore(taken, p, pairs, n - 1);
        assert all[n] == pairs[n - 1] && ks[n] == at[n - 1];
      }
    }
    forall j: nat, n: nat | k <= j < |findings| && IsDast(findings[j]) && Between(ks, j, n)
      ensures NoneFree(findings, j, taken + PairIds(all[..n]))
    {
      assert n > 0 && ks[n - 1] < j;
      TakenMore(taken, p, pairs, n - 1);
      assert n < |ks| ==> ks[n] == at[n - 1];
      assert n > 1 ==> ks[n - 1] == at[n - 2];
      assert Between(at, j, n - 1);
    }
  }

  lemma NothingTaken(taken: set<string>, pairs: seq<Pair>)
    ensures taken + PairIds(pairs[..0]) == taken
  {
    assert pairs[..0] == [];
  }

  /**
   * The pairs: DAST findings in the order of the input, each with the first SAST finding that
   * agrees with it and is in no pair yet; a DAST finding is left out only if there is none.
   */
  lemma PairsGreedy(findings: seq<Finding>) returns (at: seq<nat>)
    ensures Greedy(findings, 0, {}, Pairs(findings), at)
  {
    hide Greedy;
    at := PairingGreedy(findings, 0, {});
    assert findings[0..] == findings;
  }

  // ----- Groups -----

  /** The keys in the order in which they first appear. */
  lemma {:induction false} KeyPositions(fs: seq<Finding>) returns (at: seq<nat>)
    ensures FirstOfKeys(fs, at)
  {
    hide Key, FirstOfKeys;
    if fs == [] {
      at := [];
      NoKeys();
    } else {
      var init := fs[..|fs| - 1];
      at := KeyPositions(init);
      KeyOrderMembers(init, Key(fs[|fs| - 1]));
      if Key(fs[|fs| - 1]) in KeyOrder(init) {
        KnownKey(init, fs[|fs| - 1], at);
      } else {
        assert NoneHas(init, Key(fs[|fs| - 1]));
        NewKey(init, fs[|fs| - 1], at);
        at := Extended(at, |init|);
      }
      assert fs == init + [fs[|fs| - 1]];
    }
  }

  /** The `n`-th key is that of the finding at the `n`-th of these positions, and of none before. */
  ghost predicate FirstOfKeys(fs: seq<Finding>, at: seq<nat>) {
    && |at| == |KeyOrder(fs)| && Increasing(at)
    && forall n :: 0 <= n < |at| ==> IsFirst(fs, KeyOrder(fs)[n], at[n])
  }

  ghost predicate IsFirst(fs: seq<Finding>, k: string, i: nat) {
    i < |fs| && Key(fs[i]) == k && forall m :: 0 <= m < i ==> Key(fs[m]) != k
  }

  lemma NoKeys()
    ensures FirstOfKeys([], [])
  {
  }

  lemma FirstStays(fs: seq<Finding>, f: Finding, k: string, i: nat)
    requires IsFirst(fs, k, i)
    ensures IsFirst(fs + [f], k, i)
  {
    hide Key;
    var all := fs + [f];
    assert forall m :: 0 <= m <= i ==> all[m] == fs[m];
  }

  lemma KeysOneMore(fs: seq<Finding>, f: Finding)
    ensures KeyOrder(fs + [f]) == if Key(f) in KeyOrder(fs) then KeyOrder(fs) else KeyOrder(fs) + [Key(f)]
  {
    hide Key;
    var all := fs + [f];
    assert all[..|all| - 1] == fs && all[|all| - 1] == f;
  }

  lemma KnownKey(fs: seq<Finding>, f: Finding, at: seq<nat>)
    requires Key(f) in KeyOrder(fs) && FirstOfKeys(fs, at)
    ensures FirstOfKeys(fs + [f], at)
  {
    KeysOneMore(fs, f);
    hide Key, KeyOrder, IsFirst;
    forall n | 0 <= n < |at| ensures IsFirst(fs + [f], KeyOrder(fs + [f])[n], at[n]) {
      FirstStays(fs, f, KeyOrder(fs)[n], at[n]);
    }
  }

  function Extended(at: seq<nat>, n: nat): seq<nat> { at + [n] }

  ghost predicate NoneHas(fs: seq<Finding>, k: string) {
    forall m :: 0 <= m < |fs| ==> Key(fs[m]) != k
  }

  lemma NewKey(fs: seq<Finding>, f: Finding, at: seq<nat>)
    requires Key(f) !in KeyOrder(fs) && FirstOfKeys(fs, at) && NoneHas(fs, Key(f))
    ensures FirstOfKeys(fs + [f], Extended(at, |fs|))
  {
    hide Key, KeyOrder, IsFirst, NoneHas;
    KeysOneMore(fs, f);
    FirstIsLast(fs, f);
    var more := Extended(at, |fs|);
    forall n | 0 <= n < |at| ensures at[n] < |fs| {
      WithinAll(fs, KeyOrder(fs)[n], at[n]);
    }
    forall n | 0 <= n < |more| ensures IsFirst(fs + [f], KeyOrder(fs + [f])[n], more[n]) {
      if n < |at| {
        FirstStays(fs, f, KeyOrder(fs)[n], at[n]);
      }
    }
  }

  lemma WithinAll(fs: seq<Finding>, k: string, i: nat)
    requires IsFirst(fs, k, i)
    ensures i < |fs|
  {
  }

  lemma FirstIsLast(fs: seq<Finding>, f: Finding)
    requires NoneHas(fs, Key(f))
    ensures IsFirst(fs + [f], Key(f), |fs|)
  {
    hide Key;
    var all := fs + [f];
    assert forall m :: 0 <= m < |fs| ==> all[m] == fs[m];
  }

  /** Where the members of the groups come from, and that the groups stand in the order of their first members. */
  lemma GroupsStand(rest: seq<Finding>) returns (gs: seq<seq<nat>>)
    ensures |gs| == |KeyOrder(rest)|
    ensures forall i :: 0 <= i < |gs| ==> gs[i] != [] && StandAt(rest, HasKey(KeyOrder(rest)[i]), gs[i])
    ensures forall i, j :: 0 <= i < j < |gs| ==> gs[i][0] < gs[j][0]
  {
    hide Key, KeyOrder, StandAt, Select, FirstOfKeys;
    gs := GroupsUpTo(rest, |KeyOrder(rest)|);
    var at := KeyPositions(rest);
    KeysIncrease(rest, at);
    forall i | 0 <= i < |gs| ensures gs[i] != [] && gs[i][0] == at[i] {
      GroupStartsFirst(rest, at, i, gs[i]);
    }
  }

  lemma KeysIncrease(fs: seq<Finding>, at: seq<nat>)
    requires FirstOfKeys(fs, at)
    ensures Increasing(at) && |at| == |KeyOrder(fs)|
  {
    hide KeyOrder, Increasing;
  }

  lemma {:induction false} GroupsUpTo(rest: seq<Finding>, m: nat) returns (gs: seq<seq<nat>>)
    requires m <= |KeyOrder(rest)|
    ensures |gs| == m && forall i :: 0 <= i < m ==> StandAt(rest, HasKey(KeyOrder(rest)[i]), gs[i])
  {
    hide Key, KeyOrder, StandAt, Select;
    if m == 0 {
      gs := [];
    } else {
      var before := GroupsUpTo(rest, m - 1);
      var last := SelectPositions(rest, HasKey(KeyOrder(rest)[m - 1]));
      gs := before + [last];
    }
  }

  lemma GroupStartsFirst(rest: seq<Finding>, at: seq<nat>, i: nat, g: seq<nat>)
    requires FirstOfKeys(rest, at) && i < |KeyOrder(rest)| && StandAt(rest, HasKey(KeyOrder(rest)[i]), g)
    ensures g != [] && i < |at| && g[0] == at[i]
  {
    hide Key, KeyOrder, Select, StandAt, IsFirst;
    var k := KeyOrder(rest)[i];
    assert IsFirst(rest, k, at[i]);
    hide FirstOfKeys;
    FirstHasKey(rest, k, at[i]);
    LeastStands(rest, HasKey(k), g, at[i]);
  }

  lemma FirstHasKey(fs: seq<Finding>, k: string, i: nat)
    requires IsFirst(fs, k, i)
    ensures i < |fs| && HasKey(k)(fs[i]) && forall m :: 0 <= m < i ==> !HasKey(k)(fs[m])
  {
    hide Key;
  }

  lemma LeastStands(fs: seq<Finding>, p: Finding -> bool, at: seq<nat>, i: nat)
    requires StandAt(fs, p, at)
    requires i < |fs| && p(fs[i]) && forall m :: 0 <= m < i ==> !p(fs[m])
    ensures at != [] && at[0] == i
  {
    hide Select;
    assert i in at;
    var n :| 0 <= n < |at| && at[n] == i;
    Selected(fs, p, Select(fs, p)[0]);
    assert p(fs[at[0]]) && at[0] >= i;
  }

  // ----- Groups in the output -----

  /**
   * The root cause `i` is made of the unpaired findings with one key, at positions `at` of the input;
   * the occurrences from `n` on are theirs, in the same order.
   */
  ghost predicate IsGroup(findings: seq<Finding>, i: nat, n: nat, at: seq<nat>) {
    var out := Correlated(findings);
    && i < |out.canonicals| && at != [] && Increasing(at) && out.canonicals[i].timesObserved == |at|
    && n + |at| <= |out.occurrences|
    && (forall m :: 0 <= m < |out.occurrences| ==> (out.occurrences[m].canonicalId == i <==> n <= m < n + |at|))
    && (forall k :: 0 <= k < |at| ==>
          && at[k] < |findings| && findings[at[k]].id !in PairIds(Pairs(findings))
          && Key(findings[at[k]]) == Key(findings[at[0]])
          && Copies(out.occurrences[n + k], findings[at[k]], true, true))
    && (forall p :: 0 <= p < |findings| && findings[p].id !in PairIds(Pairs(findings)) ==>
          (Key(findings[p]) == Key(findings[at[0]]) ==> p in at))
  }

  ghost predicate Reported(findings: seq<Finding>, i: nat, at: seq<nat>) {
    exists n: nat :: IsGroup(findings, i, n, at)
  }

  /** Positions within a selection as positions in the whole. */
  function Through(outer: seq<nat>, inner: seq<nat>): (at: seq<nat>)
    requires forall k :: 0 <= k < |inner| ==> inner[k] < |outer|
    ensures |at| == |inner| && forall k :: 0 <= k < |at| ==> at[k] == outer[inner[k]]
  {
    seq(|inner|, k requires 0 <= k < |inner| => outer[inner[k]])
  }

  lemma ThroughIncreases(outer: seq<nat>, inner: seq<nat>)
    requires forall k :: 0 <= k < |inner| ==> inner[k] < |outer|
    requires Increasing(outer) && Increasing(inner)
    ensures Increasing(Through(outer, inner))
  {
  }

  /** The members of a group of the unpaired findings, found in the input. */
  lemma GroupInInput(findings: seq<Finding>, taken: set<string>, outer: seq<nat>, k: string, inner: seq<nat>)
    requires StandAt(findings, NotIn(taken), outer)
    requires StandAt(Remaining(findings, taken), HasKey(k), inner)
    ensures forall n :: 0 <= n < |inner| ==> inner[n] < |outer|
    ensures var at := Through(outer, inner); var group := Group(Remaining(findings, taken), k);
      && |at| == |group| && Increasing(at)
      && (forall n :: 0 <= n < |at| ==>
            at[n] < |findings| && findings[at[n]] == group[n] && findings[at[n]].id !in taken && Key(group[n]) == k)
      && (forall p :: 0 <= p < |findings| && findings[p].id !in taken && Key(findings[p]) == k ==> p in at)
  {
    hide Key, Select;
    var rest := Remaining(findings, taken);
    ThroughIncreases(outer, inner);
    var at := Through(outer, inner);
    forall n | 0 <= n < |at|
      ensures at[n] < |findings| && findings[at[n]] == Group(rest, k)[n]
      ensures findings[at[n]].id !in taken && Key(findings[at[n]]) == k
    {
      Selected(findings, NotIn(taken), rest[inner[n]]);
      Selected(rest, HasKey(k), Group(rest, k)[n]);
    }
    forall p | 0 <= p < |findings| && findings[p].id !in taken && Key(findings[p]) == k ensures p in at {
      assert p in outer;
      var m :| 0 <= m < |outer| && outer[m] == p;
      assert rest[m] == findings[p] && m in inner;
      var n :| 0 <= n < |inner| && inner[n] == m;
      assert at[n] == p;
    }
  }

  ghost function Unpaired(findings: seq<Finding>): seq<Finding> {
    Remaining(findings, PairIds(Pairs(findings)))
  }

  lemma ClusterOfGroup(findings: seq<Finding>, i: nat)
    requires i < |KeyOrder(Unpaired(findings))|
    ensures |Clusters(findings)| == |Pairs(findings)| + |KeyOrder(Unpaired(findings))|
    ensures Clusters(findings)[|Pairs(findings)| + i]
         == Keyed(Group(Unpaired(findings), KeyOrder(Unpaired(findings))[i]))
  {
    hide Pairs, PairIds, KeyOrder, Remaining, Group;
  }

  lemma ClusterCount(findings: seq<Finding>)
    ensures |Clusters(findings)| == |Pairs(findings)| + |KeyOrder(Unpaired(findings))|
    ensures |Correlated(findings).canonicals| == |Clusters(findings)|
  {
    hide Pairs, PairIds, KeyOrder, Remaining, Group, EmitAll;
  }

  /** The block of a root cause that is made of a group. */
  lemma GroupEmitted(cs: seq<Cluster>, i: nat, group: seq<Finding>)
    requires i < |cs| && cs[i] == Keyed(group)
    ensures var out, n := EmitAll(cs), Start(cs, i);
      && i < |out.canonicals| && out.canonicals[i].timesObserved == |group| && n + |group| <= |out.occurrences|
      && (forall m :: 0 <= m < |out.occurrences| ==>
            (out.occurrences[m].canonicalId == i <==> n <= m < n + |group|))
      && (forall k :: 0 <= k < |group| ==> Copies(out.occurrences[n + k], group[k], true, true))
  {
    hide EmitAll, CanonicalOf, OccurrencesOf, Copies, Start;
    Emitted(cs, i);
    GroupCounted(i, group);
    var out, n := EmitAll(cs), Start(cs, i);
    assert cs[i].Members() == group;
    forall m | 0 <= m < |out.occurrences| ensures out.occurrences[m].canonicalId == i <==> n <= m < n + |group| {
      PointsAtBlock(cs, i, m);
    }
    forall k | 0 <= k < |group| ensures Copies(out.occurrences[n + k], group[k], true, true) {
      PointsAtBlock(cs, i, n + k);
      MembersCopied(i, cs[i], k);
    }
  }

  lemma GroupCounted(i: nat, group: seq<Finding>)
    ensures CanonicalOf(i, Keyed(group)).timesObserved == |group|
  {
  }

  lemma GroupReported(findings: seq<Finding>, i: nat, outer: seq<nat>, inner: seq<nat>) returns (at: seq<nat>, n: nat)
    requires i < |KeyOrder(Unpaired(findings))| && inner != []
    requires StandAt(findings, NotIn(PairIds(Pairs(findings))), outer)
    requires StandAt(Unpaired(findings), HasKey(KeyOrder(Unpaired(findings))[i]), inner)
    ensures IsGroup(findings, |Pairs(findings)| + i, n, at) && inner[0] < |outer| && at[0] == outer[inner[0]]
  {
    hide Key, Select, StandAt, PairIds, Pairs, KeyOrder, EmitAll, Copies, Clusters;
    var taken, k := PairIds(Pairs(findings)), KeyOrder(Unpaired(findings))[i];
    GroupInInput(findings, taken, outer, k, inner);
    at := Through(outer, inner);
    ClusterOfGroup(findings, i);
    GroupEmitted(Clusters(findings), |Pairs(findings)| + i, Group(Unpaired(findings), k));
    n := Start(Clusters(findings), |Pairs(findings)| + i);
    hide Remaining, Group, Start;
  }

  /**
   * Behind the pairs the root causes are the groups of the unpaired findings in the order in which
   * their first members arrive, each with its findings in the order of the input.
   */
  lemma GroupsInOrder(findings: seq<Finding>) returns (at: seq<seq<nat>>)
    ensures |Pairs(findings)| + |at| == |Correlated(findings).canonicals|
    ensures forall i :: 0 <= i < |at| ==> at[i] != [] && Reported(findings, |Pairs(findings)| + i, at[i])
    ensures forall i, j :: 0 <= i < j < |at| ==> at[i][0] < at[j][0]
  {
    hide Key, Select, StandAt, PairIds, Pairs, KeyOrder, EmitAll, Clusters, IsGroup, Remaining, Correlated;
    ClusterCount(findings);
    var outer := SelectPositions(findings, NotIn(PairIds(Pairs(findings))));
    var gs := GroupsStand(Unpaired(findings));
    at := ReportedUpTo(findings, outer, gs, |gs|);
    forall i, j | 0 <= i < j < |at| ensures at[i][0] < at[j][0] {
      assert gs[i][0] < gs[j][0];
      StandIncrease(findings, outer, gs[i][0], gs[j][0]);
    }
  }

  lemma StandIncrease(findings: seq<Finding>, outer: seq<nat>, a: nat, b: nat)
    requires StandAt(findings, NotIn(PairIds(Pairs(findings))), outer) && a < b < |outer|
    ensures outer[a] < outer[b]
  {
    hide PairIds, Pairs, Select;
  }

  lemma {:induction false} ReportedUpTo(findings: seq<Finding>, outer: seq<nat>, gs: seq<seq<nat>>, m: nat)
    returns (at: seq<seq<nat>>)
    requires m <= |gs| == |KeyOrder(Unpaired(findings))|
    requires StandAt(findings, NotIn(PairIds(Pairs(findings))), outer)
    requires forall i :: 0 <= i < |gs| ==>
      gs[i] != [] && StandAt(Unpaired(findings), HasKey(KeyOrder(Unpaired(findings))[i]), gs[i])
    ensures |at| == m
    ensures forall i :: 0 <= i < m ==>
      && at[i] != [] && gs[i][0] < |outer| && at[i][0] == outer[gs[i][0]]
      && Reported(findings, |Pairs(findings)| + i, at[i])
  {
    hide Key, Select, StandAt, PairIds, Pairs, KeyOrder, IsGroup, Remaining;
    if m == 0 {
      at := [];
    } else {
      var before := ReportedUpTo(findings, outer, gs, m - 1);
      var last, n := GroupReported(findings, m - 1, outer, gs[m - 1]);
      at := before + [last];
      assert Reported(findings, |Pairs(findings)| + (m - 1), last);
      GroupNotEmpty(findings, |Pairs(findings)| + (m - 1), n, last);
    }
  }

  lemma GroupNotEmpty(findings: seq<Finding>, i: nat, n: nat, at: seq<nat>)
    requires IsGroup(findings, i, n, at)
    ensures at != []
  {
    hide Correlated, Pairs, PairIds, Key, Copies;
  }
}
