/** What the pairing guarantees: maximality, when it is a matching, and how it compares with the best one. */
module CorrelationLaws {
  import opened Prelude
  import opened Correlator
  import PyText

  /** No two positions hold findings with one id: ids are generated. */
  predicate UniqueIds(fs: seq<Finding>) {
    forall i, j | 0 <= i < j < |fs| :: fs[i].id != fs[j].id
  }

  /** Both a SAST and a DAST finding, and with something that it can agree with itself on. */
  predicate SelfMatching(f: Finding) {
    IsSast(f) && IsDast(f) && Agree(f, f)
  }

  predicate Wellposed(fs: seq<Finding>) {
    UniqueIds(fs) && forall f | f in fs :: !SelfMatching(f)
  }

  lemma SameId(fs: seq<Finding>, f: Finding, g: Finding)
    requires UniqueIds(fs) && f in fs && g in fs && f.id == g.id
    ensures f == g
  {
  }

  // ----- Maximality -----

  function DastsOf(pairs: seq<Pair>): set<Finding> { set p | p in pairs :: p.dast }

  function SastsOf(pairs: seq<Pair>): set<Finding> { set p | p in pairs :: p.sast }

  lemma SidesCons(p: Pair, pairs: seq<Pair>)
    ensures DastsOf([p] + pairs) == {p.dast} + DastsOf(pairs)
    ensures SastsOf([p] + pairs) == {p.sast} + SastsOf(pairs)
  {
    var all := [p] + pairs;
    assert all[0] == p;
    assert forall q :: q in all <==> q == p || q in pairs;
  }

  /**
   * Pairs only ever join findings that agree; a DAST finding is paired or finds every SAST
   * finding that it agrees with visited.
   */
  lemma {:induction false} PairingMaximal(dasts: seq<Finding>, sasts: seq<Finding>, visited: set<string>)
    ensures var pairs := Pairing(dasts, sasts, visited);
      && (forall p :: p in pairs ==> p.dast in dasts && p.sast in sasts && Agree(p.sast, p.dast))
      && forall d, s :: d in dasts && s in sasts && Agree(s, d) ==>
           d in DastsOf(pairs) || s.id in PairIds(pairs) || s.id in visited
  {
    hide Agree, PairIds, FirstMatch, DastsOf;
    if dasts != [] {
      var d0, rest := dasts[0], dasts[1..];
      assert dasts == [d0] + rest;
      var pairs := Pairing(dasts, sasts, visited);
      match FirstMatch(d0, sasts, visited)
      case None =>
        FirstMatchSpec(d0, sasts, visited);
        PairingMaximal(rest, sasts, visited);
      case Some(s0) =>
        FirstMatchSpec(d0, sasts, visited);
        var more := visited + {d0.id, s0.id};
        PairingMaximal(rest, sasts, more);
        PairIdsCons(Pair(d0, s0), Pairing(rest, sasts, more));
        SidesCons(Pair(d0, s0), Pairing(rest, sasts, more));
        assert pairs == [Pair(d0, s0)] + Pairing(rest, sasts, more);
    }
  }

  lemma PairIdsCons(p: Pair, pairs: seq<Pair>)
    ensures PairIds([p] + pairs) == {p.dast.id, p.sast.id} + PairIds(pairs)
  {
  }

  lemma FirstMatchSpec(d: Finding, sasts: seq<Finding>, visited: set<string>)
    ensures match FirstMatch(d, sasts, visited)
      case Some(s) => s in sasts && s.id !in visited && Agree(s, d)
      case None => forall s :: s in sasts && s.id !in visited ==> !Agree(s, d)
  {
  }

  /** Over the whole input: whatever could still be paired has already been paired with something else. */
  lemma PairsMaximal(findings: seq<Finding>)
    ensures forall p :: p in Pairs(findings) ==>
      p.dast in findings && IsDast(p.dast) && p.sast in findings && IsSast(p.sast) && Agree(p.sast, p.dast)
    ensures forall d, s :: d in findings && IsDast(d) && s in findings && IsSast(s) && Agree(s, d) ==>
      d in DastsOf(Pairs(findings)) || s.id in PairIds(Pairs(findings))
    ensures forall d :: d in DastsOf(Pairs(findings)) ==> d.id in PairIds(Pairs(findings))
  {
    hide Agree, IsSast, IsDast, PairIds, Pairing;
    PairingMaximal(Dasts(findings), Sasts(findings), {});
    forall f ensures f in Dasts(findings) <==> f in findings && IsDast(f) { Selected(findings, IsDast, f); }
    forall f ensures f in Sasts(findings) <==> f in findings && IsSast(f) { Selected(findings, IsSast, f); }
  }

  // ----- A matching -----

  /** Everything in some pair, pair by pair. */
  function PairMembers(pairs: seq<Pair>): seq<Finding> {
    if pairs == [] then [] else [pairs[0].dast, pairs[0].sast] + PairMembers(pairs[1..])
  }

  lemma {:induction false} PairMembersIds(pairs: seq<Pair>)
    ensures forall f :: f in PairMembers(pairs) ==> f.id in PairIds(pairs)
    ensures forall i :: i in PairIds(pairs) ==> exists f :: f in PairMembers(pairs) && f.id == i
  {
    if pairs != [] {
      PairMembersIds(pairs[1..]);
      var ms := PairMembers(pairs);
      assert pairs[0].dast in ms && pairs[0].sast in ms;
      forall i | i in PairIds(pairs) ensures exists f :: f in ms && f.id == i {
        if i != pairs[0].dast.id && i != pairs[0].sast.id {
          var f :| f in PairMembers(pairs[1..]) && f.id == i;
          assert f in ms;
        }
      }
    }
  }

  lemma {:induction false} SelectUnique(fs: seq<Finding>, p: Finding -> bool)
    requires UniqueIds(fs)
    ensures UniqueIds(Select(fs, p))
  {
    if fs != [] {
      SelectUnique(fs[1..], p);
      var rest := Select(fs[1..], p);
      forall i | 0 <= i < |rest| ensures rest[i].id != fs[0].id {
        Selected(fs[1..], p, rest[i]);
      }
    }
  }

  /**
   * Pairs made from unvisited SAST findings join distinct ones, provided no finding to
   * come as a DAST finding can be on the other side of a pair.
   */
  lemma {:induction false} PairingUnique(dasts: seq<Finding>, sasts: seq<Finding>, visited: set<string>)
    requires UniqueIds(dasts)
    requires forall d, s :: d in dasts && s in sasts && (exists e :: e in dasts && Agree(s, e)) ==> d.id != s.id
    ensures UniqueIds(PairMembers(Pairing(dasts, sasts, visited)))
    ensures forall f :: f in PairMembers(Pairing(dasts, sasts, visited)) ==>
      f in dasts || (f in sasts && f.id !in visited && exists e :: e in dasts && Agree(f, e))
  {
    hide Agree, FirstMatch;
    if dasts != [] {
      var d0, rest := dasts[0], dasts[1..];
      assert dasts == [d0] + rest;
      FirstMatchSpec(d0, sasts, visited);
      match FirstMatch(d0, sasts, visited)
      case None =>
        PairingUnique(rest, sasts, visited);
      case Some(s0) =>
        var more := visited + {d0.id, s0.id};
        PairingUnique(rest, sasts, more);
        var ms := PairMembers(Pairing(rest, sasts, more));
        forall f | f in ms ensures f.id != d0.id && f.id != s0.id {
          if f in rest {
            var i :| 0 <= i < |rest| && rest[i] == f;
            assert dasts[i + 1] == f;
          }
        }
        assert PairMembers(Pairing(dasts, sasts, visited)) == [d0, s0] + ms;
    }
  }

  /** On a well-posed input no finding is in two pairs or twice in one. */
  lemma PairsAreMatching(findings: seq<Finding>)
    requires Wellposed(findings)
    ensures UniqueIds(PairMembers(Pairs(findings)))
  {
    hide Agree, IsSast, IsDast;
    var dasts, sasts := Dasts(findings), Sasts(findings);
    SelectUnique(findings, IsDast);
    forall f ensures f in dasts <==> f in findings && IsDast(f) { Selected(findings, IsDast, f); }
    forall f ensures f in sasts <==> f in findings && IsSast(f) { Selected(findings, IsSast, f); }
    forall d, s | d in dasts && s in sasts && (exists e :: e in dasts && Agree(s, e)) ensures d.id != s.id {
      if d.id == s.id {
        SameId(findings, d, s);
        var e :| e in dasts && Agree(s, e);
        AgreeSelf(s, e);
      }
    }
    PairingUnique(dasts, sasts, {});
  }

  lemma AgreeSelf(s: Finding, d: Finding)
    requires Agree(s, d)
    ensures Agree(s, s)
  {
  }

  /**
   * What the pairing loop would have to check and does not: that a DAST finding about to be
   * paired was not visited before, as the SAST side of an earlier pair, and is not its own match.
   */
  predicate NeverRevisits(dasts: seq<Finding>, sasts: seq<Finding>, visited: set<string>) {
    dasts == [] ||
    match FirstMatch(dasts[0], sasts, visited)
    case None => NeverRevisits(dasts[1..], sasts, visited)
    case Some(s) =>
      && dasts[0].id !in visited && dasts[0].id != s.id
      && NeverRevisits(dasts[1..], sasts, visited + {dasts[0].id, s.id})
  }

  ghost predicate AvoidsIds(fs: seq<Finding>, visited: set<string>) {
    forall i | 0 <= i < |fs| :: fs[i].id !in visited
  }

  /** The pairs are a matching of unvisited findings exactly when that check would never have failed. */
  lemma {:induction false} MatchingExactly(dasts: seq<Finding>, sasts: seq<Finding>, visited: set<string>)
    ensures var ms := PairMembers(Pairing(dasts, sasts, visited));
      NeverRevisits(dasts, sasts, visited) <==> UniqueIds(ms) && AvoidsIds(ms, visited)
  {
    hide Agree, FirstMatch;
    if dasts != [] {
      var d0, rest := dasts[0], dasts[1..];
      FirstMatchSpec(d0, sasts, visited);
      match FirstMatch(d0, sasts, visited)
      case None =>
        MatchingExactly(rest, sasts, visited);
      case Some(s0) =>
        var more := visited + {d0.id, s0.id};
        MatchingExactly(rest, sasts, more);
        var ms := PairMembers(Pairing(rest, sasts, more));
        assert PairMembers(Pairing(dasts, sasts, visited)) == [d0, s0] + ms;
        TwoInFront(d0, s0, ms, visited);
    }
  }

  lemma TwoInFront(d: Finding, s: Finding, ms: seq<Finding>, visited: set<string>)
    ensures UniqueIds([d, s] + ms) && AvoidsIds([d, s] + ms, visited)
      <==> (d.id != s.id && d.id !in visited && s.id !in visited
            && UniqueIds(ms) && AvoidsIds(ms, visited + {d.id, s.id}))
  {
    var all := [d, s] + ms;
    assert all[0] == d && all[1] == s && forall i :: 0 <= i < |ms| ==> all[i + 2] == ms[i];
    if UniqueIds(all) && AvoidsIds(all, visited) {
      forall i | 0 <= i < |ms| ensures ms[i].id !in visited + {d.id, s.id} {
        assert all[i + 2].id != all[0].id && all[i + 2].id != all[1].id;
      }
      forall i, j | 0 <= i < j < |ms| ensures ms[i].id != ms[j].id {
        assert all[i + 2].id != all[j + 2].id;
      }
    }
  }

  // ----- Half of the best -----

  /** Any other way of matching SAST with DAST findings: agreeing pairs, each finding on one side of one pair. */
  ghost predicate Matching(findings: seq<Finding>, m: set<Pair>) {
    && (forall p :: p in m ==> p.dast in findings && IsDast(p.dast) && p.sast in findings && IsSast(p.sast)
                               && Agree(p.sast, p.dast))
    && (forall p, q :: p in m && q in m && p.dast == q.dast ==> p == q)
    && (forall p, q :: p in m && q in m && p.sast == q.sast ==> p == q)
  }

  lemma {:induction false} FewDasts(m: set<Pair>, ds: set<Finding>)
    requires forall p :: p in m ==> p.dast in ds
    requires forall p, q :: p in m && q in m && p.dast == q.dast ==> p == q
    ensures |m| <= |ds|
  {
    if m != {} {
      var p :| p in m;
      FewDasts(m - {p}, ds - {p.dast});
    }
  }

  lemma {:induction false} FewSasts(m: set<Pair>, ss: set<Finding>)
    requires forall p :: p in m ==> p.sast in ss
    requires forall p, q :: p in m && q in m && p.sast == q.sast ==> p == q
    ensures |m| <= |ss|
  {
    if m != {} {
      var p :| p in m;
      FewSasts(m - {p}, ss - {p.sast});
    }
  }

  lemma {:induction false} SidesSize(pairs: seq<Pair>)
    ensures |DastsOf(pairs)| <= |pairs| && |SastsOf(pairs)| <= |pairs|
  {
    if pairs != [] {
      SidesSize(pairs[1..]);
      SidesCons(pairs[0], pairs[1..]);
      assert pairs == [pairs[0]] + pairs[1..];
      hide DastsOf, SastsOf;
    }
  }

  /** A finding that was visited is on the side of a pair that it was classified for. */
  lemma VisitedSide(findings: seq<Finding>, f: Finding)
    requires Wellposed(findings) && f in findings && f.id in PairIds(Pairs(findings))
    requires Agree(f, f)
    ensures IsDast(f) ==> f in DastsOf(Pairs(findings))
    ensures IsSast(f) ==> f in SastsOf(Pairs(findings))
  {
    hide Agree, IsSast, IsDast, Pairs, PairIds;
    var pairs := Pairs(findings);
    PairsMaximal(findings);
    PairIdsFrom(pairs, f.id);
    var p :| p in pairs && (f.id == p.dast.id || f.id == p.sast.id);
    if f.id == p.dast.id {
      SameId(findings, f, p.dast);
    } else {
      SameId(findings, f, p.sast);
    }
  }

  lemma PairIdsFrom(pairs: seq<Pair>, id: string)
    requires id in PairIds(pairs)
    ensures exists p :: p in pairs && (id == p.dast.id || id == p.sast.id)
  {
  }

  lemma VisitedSomeSide(findings: seq<Finding>, f: Finding)
    requires UniqueIds(findings) && f in findings && f.id in PairIds(Pairs(findings))
    ensures f in DastsOf(Pairs(findings)) || f in SastsOf(Pairs(findings))
  {
    hide Agree, IsSast, IsDast, Pairs, PairIds;
    var pairs := Pairs(findings);
    PairsMaximal(findings);
    PairIdsFrom(pairs, f.id);
    var p :| p in pairs && (f.id == p.dast.id || f.id == p.sast.id);
    SameId(findings, f, if f.id == p.dast.id then p.dast else p.sast);
  }

  /** The greedy pairing finds at least a third as many pairs as any matching has, whatever is classified as what. */
  lemma PairsThirdOfAnyMatching(findings: seq<Finding>, m: set<Pair>)
    requires UniqueIds(findings) && Matching(findings, m)
    ensures |m| <= 3 * |Pairs(findings)|
  {
    hide Agree, IsSast, IsDast, Pairs, PairIds, DastsOf, SastsOf;
    var pairs := Pairs(findings);
    var a := set p | p in m && p.dast in DastsOf(pairs);
    var b := set p | p in m && p.sast in SastsOf(pairs);
    var c := set p | p in m && p.sast in DastsOf(pairs);
    PairsMaximal(findings);
    forall p | p in m ensures p in a || p in b + c {
      if p.dast !in DastsOf(pairs) {
        VisitedSomeSide(findings, p.sast);
      }
    }
    FewDasts(a, DastsOf(pairs));
    FewSasts(b, SastsOf(pairs));
    FewSasts(c, DastsOf(pairs));
    SidesSize(pairs);
    UnionSize(b + c, b, c);
    UnionSize(m, a, b + c);
  }

  /** At least half as many, if no finding matches itself. */
  lemma PairsHalfOfAnyMatching(findings: seq<Finding>, m: set<Pair>)
    requires Wellposed(findings) && Matching(findings, m)
    ensures |m| <= 2 * |Pairs(findings)|
  {
    hide Agree, IsSast, IsDast, Pairs, PairIds;
    var pairs := Pairs(findings);
    var a := set p | p in m && p.dast in DastsOf(pairs);
    var b := set p | p in m && p.sast in SastsOf(pairs);
    PairsMaximal(findings);
    forall p | p in m ensures p in a || p in b {
      AgreeSelf(p.sast, p.dast);
      AgreeSelfRight(p.sast, p.dast);
      if p.dast.id in PairIds(pairs) {
        VisitedSide(findings, p.dast);
      } else {
        VisitedSide(findings, p.sast);
      }
    }
    FewDasts(a, DastsOf(pairs));
    FewSasts(b, SastsOf(pairs));
    SidesSize(pairs);
    UnionSize(m, a, b);
  }

  lemma AgreeSelfRight(s: Finding, d: Finding)
    requires Agree(s, d)
    ensures Agree(d, d)
  {
  }

  lemma UnionSize<T>(m: set<T>, a: set<T>, b: set<T>)
    requires a <= m && b <= m && forall x :: x in m ==> x in a || x in b
    ensures |m| <= |a| + |b|
  {
    assert m == a + (b - a);
    assert b == (b - a) + (b * a);
  }

  // ----- Where the half is missed -----

  function Example(id: string, engine: string, tool: string, category: string, cwe: Option<string>): Finding {
    Finding(id, "", engine, tool, "", category, cwe, Evidence("", ""), None, None)
  }

  /**
   * Five findings of which one pair is made and three could be: the one that is both SAST
   * and DAST is paired as a DAST finding, and so is lost as the match of another.
   */
  lemma ThirdIsReached() returns (findings: seq<Finding>, m: set<Pair>)
    ensures UniqueIds(findings) && Matching(findings, m) && |m| == 3 && |Pairs(findings)| == 1
  {
    var s := Example("s", "code_sast", "", "e", Some("1"));
    var both := Example("b", "code_sast", "nuclei", "c", Some("1"));
    var other := Example("o", "code_sast", "", "c", None);
    var d := Example("d", "web_dast", "", "e", None);
    var last := Example("l", "web_dast", "", "z", Some("1"));
    ExampleClasses(s, both, other, d, last);
    ExampleAgreement(s, both, other, d, last);
    assert s.id == "s" && both.id == "b" && other.id == "o" && d.id == "d" && last.id == "l";
    findings := [s, both, other, d, last];
    m := {Pair(both, other), Pair(d, s), Pair(last, both)};
    hide IsSast, IsDast, Agree, Example;
    ExampleMatching(s, both, other, d, last);
    ExampleSelected(s, both, other, d, last);
    ExamplePairing(s, both, other, d, last);
  }

  lemma ExampleMatching(s: Finding, both: Finding, other: Finding, d: Finding, last: Finding)
    requires s.id == "s" && both.id == "b" && other.id == "o" && d.id == "d" && last.id == "l"
    requires IsSast(s) && IsSast(both) && IsSast(other) && IsDast(both) && IsDast(d) && IsDast(last)
    requires Agree(other, both) && Agree(s, d) && Agree(both, last)
    ensures var findings, m := [s, both, other, d, last], {Pair(both, other), Pair(d, s), Pair(last, both)};
      UniqueIds(findings) && Matching(findings, m) && |m| == 3
  {
    hide IsSast, IsDast, Agree;
    var findings, two := [s, both, other, d, last], {Pair(both, other), Pair(d, s)};
    assert both.id != d.id && both.id != last.id && d.id != last.id;
    assert {Pair(both, other), Pair(d, s), Pair(last, both)} == two + {Pair(last, both)};
    assert |two| == 2;
    assert findings[0] == s && findings[1] == both && findings[2] == other && findings[3] == d && findings[4] == last;
  }

  lemma ExampleClasses(s: Finding, both: Finding, other: Finding, d: Finding, last: Finding)
    requires s == Example("s", "code_sast", "", "e", Some("1"))
    requires both == Example("b", "code_sast", "nuclei", "c", Some("1"))
    requires other == Example("o", "code_sast", "", "c", None)
    requires d == Example("d", "web_dast", "", "e", None)
    requires last == Example("l", "web_dast", "", "z", Some("1"))
    ensures IsSast(s) && IsSast(both) && IsSast(other) && !IsSast(d) && !IsSast(last)
    ensures !IsDast(s) && IsDast(both) && !IsDast(other) && IsDast(d) && IsDast(last)
  {
    assert PyText.Lower("") == "";
  }

  lemma ExampleAgreement(s: Finding, both: Finding, other: Finding, d: Finding, last: Finding)
    requires s == Example("s", "code_sast", "", "e", Some("1"))
    requires both == Example("b", "code_sast", "nuclei", "c", Some("1"))
    requires other == Example("o", "code_sast", "", "c", None)
    requires d == Example("d", "web_dast", "", "e", None)
    requires last == Example("l", "web_dast", "", "z", Some("1"))
    ensures Agree(s, both) && Agree(other, both) && Agree(s, d) && Agree(both, last)
    ensures !Agree(other, d) && !Agree(other, last)
  {
    assert PyText.Lower("c")[0] == 'c' && PyText.Lower("e")[0] == 'e' && PyText.Lower("z")[0] == 'z';
  }

  lemma ExampleSelected(s: Finding, both: Finding, other: Finding, d: Finding, last: Finding)
    requires IsSast(s) && IsSast(both) && IsSast(other) && !IsSast(d) && !IsSast(last)
    requires !IsDast(s) && IsDast(both) && !IsDast(other) && IsDast(d) && IsDast(last)
    ensures Sasts([s, both, other, d, last]) == [s, both, other]
    ensures Dasts([s, both, other, d, last]) == [both, d, last]
  {
    hide IsSast, IsDast, Select;
    assert [s] + [both, other, d, last] == [s, both, other, d, last];
    assert [both] + [other, d, last] == [both, other, d, last] && [other] + [d, last] == [other, d, last];
    assert [d] + [last] == [d, last] && [last] + [] == [last];
    forall p: Finding -> bool
      ensures Select([s, both, other, d, last], p)
           == Kept(s, p) + (Kept(both, p) + (Kept(other, p) + (Kept(d, p) + Kept(last, p))))
    {
      SelectCons(s, [both, other, d, last], p);
      SelectCons(both, [other, d, last], p);
      SelectCons(other, [d, last], p);
      SelectCons(d, [last], p);
      SelectCons(last, [], p);
      assert Kept(last, p) + [] == Kept(last, p);
    }
  }

  function Kept(f: Finding, p: Finding -> bool): seq<Finding> {
    if p(f) then [f] else []
  }

  lemma SelectCons(f: Finding, fs: seq<Finding>, p: Finding -> bool)
    ensures Select([f] + fs, p) == Kept(f, p) + Select(fs, p)
    ensures Select([], p) == []
  {
    assert ([f] + fs)[1..] == fs;
  }

  lemma ExamplePairing(s: Finding, both: Finding, other: Finding, d: Finding, last: Finding)
    requires Agree(s, both) && !Agree(other, d) && !Agree(other, last) && other.id != s.id && other.id != both.id
    ensures Pairing([both, d, last], [s, both, other], {}) == [Pair(both, s)]
  {
    hide Agree;
    var sasts, visited := [s, both, other], {both.id, s.id};
    FirstMatchSpec(d, sasts, visited);
    FirstMatchSpec(last, sasts, visited);
    assert FirstMatch(both, sasts, {}) == Some(s);
    assert FirstMatch(d, sasts, visited) == None && FirstMatch(last, sasts, visited) == None;
    assert [both, d, last][1..] == [d, last] && [d, last][1..] == [last] && [last][1..] == [];
    assert {} + {both.id, s.id} == visited;
    assert Pairing([last], sasts, visited) == [];
    assert Pairing([d, last], sasts, visited) == [];
  }
}
