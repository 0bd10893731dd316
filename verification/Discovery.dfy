/** The bounded discovery loop: from the records of the tool to the hosts that are admitted. */
module Discovery {
  import opened Prelude
  import opened DomainScope

  const MAX_DOMAINS := 10000

  /** The `sources` entry of a record. */
  datatype Sources = Absent | Unusable | Names(names: seq<string>)

  /**
   * A line of output after parsing: empty, no JSON object, or an object. `host` is `None`
   * where the entry is not a string; a missing entry reads as the empty string.
   */
  datatype Line = Blank | Malformed | Record(host: Option<string>, sources: Sources)

  datatype Sighting = Sighting(host: string, sources: set<string>)

  function SourceSet(s: Sources): set<string> {
    match s
    case Names(names) => set n | n in names
    case _ => {"unknown"}
  }

  // ----- What becomes of one line -----

  datatype Verdict = Skipped | Rejected | Outside(sighting: Sighting) | Inside(sighting: Sighting)

  function Judge(lib: Library, apex: string, line: Line): Verdict {
    match line
    case Blank => Skipped
    case Malformed => Rejected
    case Record(host, sources) =>
      if host.None? || Normalize(lib, host.value).None? then Rejected
      else
        var sighting := Sighting(Normalize(lib, host.value).value, SourceSet(sources));
        if Classify(lib, sighting.host, apex) == InScope then Inside(sighting) else Outside(sighting)
  }

  // ----- What is to be found, without any loop -----

  function Count(vs: seq<Verdict>, v: Verdict): nat {
    if vs == [] then 0 else Count(vs[..|vs| - 1], v) + if vs[|vs| - 1] == v then 1 else 0
  }

  /** The sightings in scope, in order. */
  function Admissible(vs: seq<Verdict>): seq<Sighting> {
    if vs == [] then []
    else
      var v := vs[|vs| - 1];
      Admissible(vs[..|vs| - 1]) + if v.Inside? then [v.sighting] else []
  }

  function OutsideOf(vs: seq<Verdict>): seq<Sighting> {
    if vs == [] then []
    else
      var v := vs[|vs| - 1];
      OutsideOf(vs[..|vs| - 1]) + if v.Outside? then [v.sighting] else []
  }

  ghost predicate Sighted(ss: seq<Sighting>, host: string) {
    exists i | 0 <= i < |ss| :: ss[i].host == host
  }

  /** The first sighting of every host, in order. */
  ghost function Firsts(ss: seq<Sighting>): (r: seq<Sighting>)
    ensures |r| <= |ss|
  {
    if ss == [] then []
    else
      var init, last := ss[..|ss| - 1], ss[|ss| - 1];
      if Sighted(init, last.host) then Firsts(init) else Firsts(init) + [last]
  }

  /** Everything that was ever named as a source of a host. */
  function SourcesOf(ss: seq<Sighting>, host: string): set<string> {
    if ss == [] then {}
    else
      var last := ss[|ss| - 1];
      SourcesOf(ss[..|ss| - 1], host) + if last.host == host then last.sources else {}
  }

  ghost function Capped(ss: seq<Sighting>): seq<Sighting> {
    var firsts := Firsts(ss);
    if |firsts| <= MAX_DOMAINS then firsts else firsts[..MAX_DOMAINS]
  }

  ghost function Verdicts(lib: Library, apex: string, lines: seq<Line>): seq<Verdict> {
    seq(|lines|, i requires 0 <= i < |lines| => Judge(lib, apex, lines[i]))
  }

  /** The result of a run. */
  datatype Found = Found(
    emitted: seq<Sighting>, rejected: seq<Sighting>, sources: map<string, set<string>>,
    warnings: nat, outOfScope: nat, limitReached: bool)

  /** What the run must have kept of the sightings in scope. */
  ghost predicate Keeps(f: Found, ss: seq<Sighting>) {
    && f.emitted == Capped(ss)
    && (forall h :: h in f.sources <==> Sighted(f.emitted, h))
    && (forall h :: h in f.sources ==> f.sources[h] == SourcesOf(ss, h))
    && (f.limitReached <==> |Firsts(ss)| > MAX_DOMAINS)
  }

  /** What the run must leave behind after the lines judged so far. */
  ghost predicate Reports(f: Found, vs: seq<Verdict>) {
    && Keeps(f, Admissible(vs))
    && f.rejected == OutsideOf(vs) && f.outOfScope == |f.rejected|
    && f.warnings == Count(vs, Rejected)
  }

  // ----- One more line -----

  lemma VerdictStep(vs: seq<Verdict>, v: Verdict)
    ensures Admissible(vs + [v]) == Admissible(vs) + if v.Inside? then [v.sighting] else []
    ensures OutsideOf(vs + [v]) == OutsideOf(vs) + if v.Outside? then [v.sighting] else []
    ensures Count(vs + [v], Rejected) == Count(vs, Rejected) + if v.Rejected? then 1 else 0
    ensures Admissible(vs) + [] == Admissible(vs) && OutsideOf(vs) + [] == OutsideOf(vs)
  {
    assert (vs + [v])[..|vs|] == vs;
  }

  lemma SightingStep(ss: seq<Sighting>, s: Sighting, host: string)
    ensures Firsts(ss + [s]) == if Sighted(ss, s.host) then Firsts(ss) else Firsts(ss) + [s]
    ensures SourcesOf(ss + [s], host) == SourcesOf(ss, host) + if s.host == host then s.sources else {}
    ensures Sighted(ss + [s], host) <==> Sighted(ss, host) || s.host == host
  {
    var t := ss + [s];
    assert t[..|ss|] == ss && t[|ss|] == s;
    if Sighted(ss, host) {
      var i :| 0 <= i < |ss| && ss[i].host == host;
      assert t[i].host == host;
    }
  }

  lemma {:induction false} FirstsKeepHosts(ss: seq<Sighting>, host: string)
    ensures Sighted(Firsts(ss), host) <==> Sighted(ss, host)
    ensures !Sighted(ss, host) ==> SourcesOf(ss, host) == {}
  {
    if ss != [] {
      var init, last := ss[..|ss| - 1], ss[|ss| - 1];
      assert ss == init + [last];
      FirstsKeepHosts(init, host);
      SightingStep(init, last, host);
      SightingStep(Firsts(init), last, host);
      hide Firsts, SourcesOf, Sighted;
    }
  }

  ghost predicate Distinct(ss: seq<Sighting>) {
    forall i, j | 0 <= i < j < |ss| :: ss[i].host != ss[j].host
  }

  lemma {:induction false} FirstsDistinct(ss: seq<Sighting>)
    ensures Distinct(Firsts(ss))
  {
    if ss != [] {
      var init, last := ss[..|ss| - 1], ss[|ss| - 1];
      FirstsDistinct(init);
      FirstsKeepHosts(init, last.host);
      if !Sighted(init, last.host) {
        assert forall i :: 0 <= i < |Firsts(init)| ==> Firsts(init)[i].host != last.host;
      }
    }
  }

  ghost function Hosts(ss: seq<Sighting>): set<string> {
    set i | 0 <= i < |ss| :: ss[i].host
  }

  lemma {:induction false} DistinctCount(ss: seq<Sighting>)
    requires Distinct(ss)
    ensures |Hosts(ss)| == |ss|
  {
    if ss != [] {
      var init, last := ss[..|ss| - 1], ss[|ss| - 1];
      DistinctCount(init);
      assert last.host !in Hosts(init);
      HostsAppend(init, last);
      assert ss == init + [last];
    }
  }

  lemma HostsAppend(ss: seq<Sighting>, s: Sighting)
    ensures Hosts(ss + [s]) == Hosts(ss) + {s.host}
  {
    var t := ss + [s];
    forall h ensures h in Hosts(t) <==> h in Hosts(ss) || h == s.host {
      SightingStep(ss, s, h);
      assert h in Hosts(ss) <==> Sighted(ss, h);
      assert h in Hosts(t) <==> Sighted(t, h);
    }
  }

  lemma KeysAppend(m: map<string, set<string>>, ss: seq<Sighting>, s: Sighting)
    requires forall h :: h in m <==> Sighted(ss, h)
    ensures forall h :: h in m[s.host := s.sources] <==> Sighted(ss + [s], h)
  {
    hide Firsts, SourcesOf;
    forall h ensures h in m[s.host := s.sources] <==> Sighted(ss + [s], h) {
      SightingStep(ss, s, h);
      assert h in m <==> Sighted(ss, h);
    }
  }

  lemma SourcesCounted(f: Found, ss: seq<Sighting>)
    requires Keeps(f, ss)
    ensures |f.sources| == |f.emitted|
  {
    FirstsDistinct(ss);
    hide Firsts;
    DistinctCount(f.emitted);
    forall h ensures h in f.sources.Keys <==> h in Hosts(f.emitted) {
      assert h in f.sources <==> Sighted(f.emitted, h);
    }
    assert f.sources.Keys == Hosts(f.emitted);
  }

  lemma NothingKept()
    ensures Keeps(Found([], [], map[], 0, 0, false), [])
  {
  }

  lemma OthersUntouched(f: Found, g: Found, ss: seq<Sighting>)
    requires Keeps(f, ss)
    requires g.emitted == f.emitted && g.sources == f.sources && g.limitReached == f.limitReached
    ensures Keeps(g, ss)
  {
  }

  lemma SourcesStep(ss: seq<Sighting>, s: Sighting)
    ensures forall h :: SourcesOf(ss + [s], h) == SourcesOf(ss, h) + if s.host == h then s.sources else {}
  {
    hide SourcesOf;
    forall h ensures SourcesOf(ss + [s], h) == SourcesOf(ss, h) + if s.host == h then s.sources else {} {
      SightingStep(ss, s, h);
    }
  }

  lemma CappedAppend(ss: seq<Sighting>, s: Sighting)
    requires !Sighted(ss, s.host)
    ensures |Firsts(ss)| < MAX_DOMAINS ==> Capped(ss + [s]) == Capped(ss) + [s]
    ensures |Firsts(ss)| >= MAX_DOMAINS ==> Capped(ss + [s]) == Capped(ss)
    ensures |Firsts(ss + [s])| == |Firsts(ss)| + 1
  {
    SightingStep(ss, s, s.host);
    hide Firsts, Sighted;
  }

  /** Another sighting of a host that was emitted. */
  lemma SightedAgain(f: Found, ss: seq<Sighting>, s: Sighting)
    requires Keeps(f, ss) && s.host in f.sources
    ensures Keeps(f.(sources := f.sources[s.host := f.sources[s.host] + s.sources]), ss + [s])
  {
    hide Firsts, SourcesOf, Sighted;
    CappedSighted(ss, s.host);
    FirstsKeepHosts(ss, s.host);
    SightingStep(ss, s, s.host);
    SourcesGrow(f.sources, ss, s);
  }

  lemma SourcesGrow(m: map<string, set<string>>, ss: seq<Sighting>, s: Sighting)
    requires s.host in m && forall h :: h in m ==> m[h] == SourcesOf(ss, h)
    ensures var n := m[s.host := m[s.host] + s.sources];
      n.Keys == m.Keys && forall h :: h in n ==> n[h] == SourcesOf(ss + [s], h)
  {
    SourcesStep(ss, s);
    hide SourcesOf;
  }

  /** A sighting of a host that was not emitted, with the limit reached. */
  lemma SightedTooLate(f: Found, ss: seq<Sighting>, s: Sighting)
    requires Keeps(f, ss) && s.host !in f.sources && |f.sources| >= MAX_DOMAINS
    ensures Keeps(f.(limitReached := true), ss + [s])
  {
    hide Firsts, SourcesOf, Sighted;
    SourcesCounted(f, ss);
    CappedSighted(ss, s.host);
    FirstsKeepHosts(ss, s.host);
    SightingStep(ss, s, s.host);
    SourcesStep(ss, s);
    if !Sighted(ss, s.host) {
      CappedAppend(ss, s);
    }
  }

  /** A sighting of a new host. */
  lemma SightedFirst(f: Found, ss: seq<Sighting>, s: Sighting)
    requires Keeps(f, ss) && s.host !in f.sources && |f.sources| < MAX_DOMAINS
    ensures Keeps(f.(emitted := f.emitted + [s], sources := f.sources[s.host := s.sources]), ss + [s])
  {
    SourcesCounted(f, ss);
    assert !Sighted(f.emitted, s.host);
    CappedSighted(ss, s.host);
    FirstsKeepHosts(ss, s.host);
    KeysAppend(f.sources, f.emitted, s);
    SourcesAppend(f.sources, ss, s);
    CappedAppend(ss, s);
    hide Firsts, SourcesOf, Sighted;
  }

  lemma SourcesAppend(m: map<string, set<string>>, ss: seq<Sighting>, s: Sighting)
    requires forall h :: h in m ==> m[h] == SourcesOf(ss, h)
    requires SourcesOf(ss, s.host) == {}
    ensures forall h :: h in m[s.host := s.sources] ==> m[s.host := s.sources][h] == SourcesOf(ss + [s], h)
  {
    SourcesStep(ss, s);
    hide SourcesOf;
  }

  lemma CappedSighted(ss: seq<Sighting>, host: string)
    ensures Sighted(Capped(ss), host) ==> Sighted(Firsts(ss), host)
    ensures Sighted(Firsts(ss), host) && |Firsts(ss)| <= MAX_DOMAINS ==> Sighted(Capped(ss), host)
  {
    hide Firsts;
    if Sighted(Capped(ss), host) {
      var i :| 0 <= i < |Capped(ss)| && Capped(ss)[i].host == host;
      assert Firsts(ss)[i].host == host;
    }
  }

  // ----- The loop -----

  /** The loop over the output of the tool. */
  method Discover(lib: Library, apex: string, lines: seq<Line>) returns (f: Found)
    ensures Reports(f, Verdicts(lib, apex, lines))
  {
    hide Keeps, Admissible, OutsideOf, Count, SourceSet, Normalize, Classify;
    f := Found([], [], map[], 0, 0, false);
    ghost var vs: seq<Verdict> := [];
    NothingReported();
    for i := 0 to |lines|
      invariant vs == Verdicts(lib, apex, lines)[..i]
      invariant Reports(f, vs)
    {
      ghost var was := vs;
      ghost var before := f;
      vs := vs + [Judge(lib, apex, lines[i])];
      VerdictStep(was, Judge(lib, apex, lines[i]));
      match lines[i] {
        case Blank =>
          continue;
        case Malformed =>
          f := f.(warnings := f.warnings + 1);
          OthersUntouched(before, f, Admissible(was));
          continue;
        case Record(raw, entry) =>
          var host := if raw.Some? then Normalize(lib, raw.value) else None;
          if host.None? {
            f := f.(warnings := f.warnings + 1);
            OthersUntouched(before, f, Admissible(was));
            continue;
          }
          var sources := SourceSet(entry);
          var sighting := Sighting(host.value, sources);
          if Classify(lib, host.value, apex) != InScope {
            f := f.(outOfScope := f.outOfScope + 1, rejected := f.rejected + [sighting]);
            OthersUntouched(before, f, Admissible(was));
            continue;
          }
          if host.value in f.sources {
            SightedAgain(f, Admissible(was), sighting);
            f := f.(sources := f.sources[host.value := f.sources[host.value] + sources]);
          } else if |f.sources| >= MAX_DOMAINS {
            SightedTooLate(f, Admissible(was), sighting);
            f := f.(limitReached := true);
          } else {
            SightedFirst(f, Admissible(was), sighting);
            f := f.(emitted := f.emitted + [sighting], sources := f.sources[host.value := sources]);
          }
      }
    }
    assert Verdicts(lib, apex, lines)[..|lines|] == Verdicts(lib, apex, lines);
  }

  lemma NothingReported()
    ensures Reports(Found([], [], map[], 0, 0, false), [])
  {
    NothingKept();
  }

  // ----- What a finished run means -----

  /** Hosts are emitted in the order in which they were first sighted, each from its first sighting. */
  lemma {:induction false} FirstsAreFirst(ss: seq<Sighting>, k: nat) returns (i: nat)
    requires k < |Firsts(ss)|
    ensures i < |ss| && ss[i] == Firsts(ss)[k] && !Sighted(ss[..i], ss[i].host) && Firsts(ss[..i]) == Firsts(ss)[..k]
  {
    var n := |ss| - 1;
    var init := ss[..n];
    if k < |Firsts(init)| {
      i := FirstsAreFirst(init, k);
      assert init[..i] == ss[..i];
    } else {
      i := n;
    }
  }

  lemma {:induction false} AdmissibleFrom(vs: seq<Verdict>, s: Sighting)
    ensures s in Admissible(vs) <==> Inside(s) in vs
  {
    if vs != [] {
      var init := vs[..|vs| - 1];
      assert vs == init + [vs[|vs| - 1]];
      AdmissibleFrom(init, s);
    }
  }

  /** Every line is blank, malformed, out of scope or a sighting. */
  lemma {:induction false} LinesAccounted(vs: seq<Verdict>)
    ensures |vs| == Count(vs, Skipped) + Count(vs, Rejected) + |OutsideOf(vs)| + |Admissible(vs)|
  {
    if vs != [] {
      LinesAccounted(vs[..|vs| - 1]);
    }
  }

  /** A line shows `host` if its name normalises to it. */
  predicate Shows(lib: Library, line: Line, host: string) {
    line.Record? && line.host.Some? && Normalize(lib, line.host.value) == Some(host)
  }

  ghost predicate Shown(lib: Library, lines: seq<Line>, host: string) {
    exists i :: 0 <= i < |lines| && Shows(lib, lines[i], host)
  }

  lemma JudgeInside(lib: Library, apex: string, line: Line, host: string)
    requires Faithful(lib) && IsName(apex)
    ensures (exists s :: Judge(lib, apex, line) == Inside(s) && s.host == host)
      <==> (Shows(lib, line, host) && !IsAddress4(host) && !IsAddress4(apex) && Under(host, apex))
  {
    hide Normalize, Classify, Under, IsAddress4, IsName, SourceSet, Faithful;
    if Shows(lib, line, host) {
      NormalizedIsName(lib, line.host.value);
      ScopeOfNormalized(lib, host, apex);
      var s := Sighting(host, SourceSet(line.sources));
      if Judge(lib, apex, line).Inside? {
        assert Judge(lib, apex, line) == Inside(s) && s.host == host;
      }
    }
  }

  lemma NormalizedIsName(lib: Library, value: string)
    ensures Normalize(lib, value).Some? ==> IsName(Normalize(lib, value).value)
  {
  }

  lemma SightedLine(lib: Library, apex: string, lines: seq<Line>, host: string)
    requires Faithful(lib) && IsName(apex)
    ensures Sighted(Admissible(Verdicts(lib, apex, lines)), host)
      <==> (Shown(lib, lines, host) && !IsAddress4(host) && !IsAddress4(apex) && Under(host, apex))
  {
    hide Judge, Shows, IsAddress4, Under, Admissible;
    var vs := Verdicts(lib, apex, lines);
    var ss := Admissible(vs);
    if Sighted(ss, host) {
      var k :| 0 <= k < |ss| && ss[k].host == host;
      assert ss[k] in ss;
      AdmissibleFrom(vs, ss[k]);
      var i :| 0 <= i < |vs| && vs[i] == Inside(ss[k]);
      JudgeInside(lib, apex, lines[i], host);
    }
    if i :| 0 <= i < |lines| && Shows(lib, lines[i], host) {
      JudgeInside(lib, apex, lines[i], host);
      if !IsAddress4(host) && !IsAddress4(apex) && Under(host, apex) {
        var s :| Judge(lib, apex, lines[i]) == Inside(s) && s.host == host;
        assert vs[i] == Inside(s);
        AdmissibleFrom(vs, s);
        var k :| 0 <= k < |ss| && ss[k] == s;
      }
    }
  }

  /**
   * A run for a normalised root admits only names below it that are no addresses, each once,
   * and it admits all of these unless it reports that the limit was reached; then exactly
   * 10000. A root that is itself the text of an address admits nothing.
   */
  lemma RunMeaning(lib: Library, apex: string, lines: seq<Line>, f: Found)
    requires Faithful(lib) && IsName(apex)
    requires Reports(f, Verdicts(lib, apex, lines))
    ensures Distinct(f.emitted) && |f.emitted| <= 10000
    ensures f.limitReached ==> |f.emitted| == 10000
    ensures forall h :: Sighted(f.emitted, h) ==>
      Under(h, apex) && !IsAddress4(h) && Shown(lib, lines, h)
    ensures !f.limitReached ==> forall h ::
      Sighted(f.emitted, h) <==> (Shown(lib, lines, h) && !IsAddress4(h) && !IsAddress4(apex) && Under(h, apex))
    ensures IsAddress4(apex) ==> f.emitted == []
  {
    var ss := Admissible(Verdicts(lib, apex, lines));
    FirstsDistinct(ss);
    hide Admissible, Firsts, Shown, IsAddress4, Under, SourcesOf;
    forall h ensures Sighted(f.emitted, h) ==> Sighted(ss, h)
      ensures !f.limitReached && Sighted(ss, h) ==> Sighted(f.emitted, h)
      ensures Sighted(ss, h) <==> (Shown(lib, lines, h) && !IsAddress4(h) && !IsAddress4(apex) && Under(h, apex))
    {
      CappedSighted(ss, h);
      FirstsKeepHosts(ss, h);
      SightedLine(lib, apex, lines, h);
    }
    assert f.emitted != [] ==> Sighted(f.emitted, f.emitted[0].host);
  }

  // ----- Sources and warnings -----

  /** What a line names as a source: its names or, if it has none that can be used, one that is unknown. */
  predicate NamesSource(line: Line, source: string) {
    line.Record? && if line.sources.Names? then source in line.sources.names else source == "unknown"
  }

  lemma {:induction false} SourcesFrom(ss: seq<Sighting>, host: string, source: string)
    ensures source in SourcesOf(ss, host) <==>
      exists i :: 0 <= i < |ss| && ss[i].host == host && source in ss[i].sources
  {
    if ss != [] {
      var init, last := ss[..|ss| - 1], ss[|ss| - 1];
      SourcesFrom(init, host, source);
      if i :| 0 <= i < |ss| && ss[i].host == host && source in ss[i].sources {
        assert i < |init| ==> init[i] == ss[i];
      }
      if i :| 0 <= i < |init| && init[i].host == host && source in init[i].sources {
        assert ss[i] == init[i];
      }
    }
  }

  lemma SourceSetMeans(line: Line, source: string)
    requires line.Record?
    ensures source in SourceSet(line.sources) <==> NamesSource(line, source)
  {
  }

  /** The sources of an admitted host are all that any line which shows it names. */
  lemma SourcesExactly(lib: Library, apex: string, lines: seq<Line>, f: Found, host: string, source: string)
    requires Reports(f, Verdicts(lib, apex, lines)) && host in f.sources
    ensures source in f.sources[host] <==>
      exists i :: 0 <= i < |lines| && Shows(lib, lines[i], host) && NamesSource(lines[i], source)
  {
    var vs := Verdicts(lib, apex, lines);
    var ss := Admissible(vs);
    SourcesFrom(ss, host, source);
    assert Sighted(ss, host) by {
      CappedSighted(ss, host);
      FirstsKeepHosts(ss, host);
    }
    hide Admissible, Firsts, Normalize, Classify, SourcesOf, NamesSource, SourceSet, Judge, Shows, Capped;
    var l :| 0 <= l < |ss| && ss[l].host == host;
    var j := SightingLine(lib, apex, lines, l);
    if k :| 0 <= k < |ss| && ss[k].host == host && source in ss[k].sources {
      var i := SightingLine(lib, apex, lines, k);
      SourceSetMeans(lines[i], source);
    }
    if i :| 0 <= i < |lines| && Shows(lib, lines[i], host) && NamesSource(lines[i], source) {
      var k := LineSighting(lib, apex, lines, i, host);
      SourceSetMeans(lines[i], source);
    }
  }

  /** The line that a sighting comes from. */
  lemma SightingLine(lib: Library, apex: string, lines: seq<Line>, k: nat) returns (i: nat)
    requires k < |Admissible(Verdicts(lib, apex, lines))|
    ensures var s := Admissible(Verdicts(lib, apex, lines))[k];
      && i < |lines| && Shows(lib, lines[i], s.host) && s.sources == SourceSet(lines[i].sources)
      && Classify(lib, s.host, apex) == InScope
  {
    hide Normalize, Classify, SourceSet, Admissible;
    var vs := Verdicts(lib, apex, lines);
    var s := Admissible(vs)[k];
    assert s in Admissible(vs);
    AdmissibleFrom(vs, s);
    i :| 0 <= i < |vs| && vs[i] == Inside(s);
  }

  /** And the sighting that a line gives. */
  lemma LineSighting(lib: Library, apex: string, lines: seq<Line>, i: nat, host: string) returns (k: nat)
    requires i < |lines| && Shows(lib, lines[i], host) && Classify(lib, host, apex) == InScope
    ensures var ss := Admissible(Verdicts(lib, apex, lines));
      k < |ss| && ss[k] == Sighting(host, SourceSet(lines[i].sources))
  {
    hide Normalize, Classify, SourceSet, Admissible;
    var vs := Verdicts(lib, apex, lines);
    var s := Sighting(host, SourceSet(lines[i].sources));
    assert vs[i] == Inside(s);
    AdmissibleFrom(vs, s);
    k :| 0 <= k < |Admissible(vs)| && Admissible(vs)[k] == s;
  }

  /** Lines that are no record, or whose host has no normal form. */
  predicate Unreadable(lib: Library, line: Line) {
    line.Malformed? || (line.Record? && (line.host.None? || Normalize(lib, line.host.value).None?))
  }

  lemma {:induction false} CountIsSize(vs: seq<Verdict>, v: Verdict)
    ensures Count(vs, v) == |set i | 0 <= i < |vs| && vs[i] == v|
  {
    var s := set i | 0 <= i < |vs| && vs[i] == v;
    if vs == [] {
      assert s == {};
    } else {
      CountIsSize(vs[..|vs| - 1], v);
      hide Count;
      OneMorePlace(vs, v);
    }
  }

  lemma OneMorePlace(vs: seq<Verdict>, v: Verdict)
    requires vs != []
    ensures var n := |vs| - 1;
      |set i | 0 <= i < |vs| && vs[i] == v| == |set i | 0 <= i < n && vs[..n][i] == v| + if vs[n] == v then 1 else 0
  {
    var n := |vs| - 1;
    var r := set i | 0 <= i < n && vs[..n][i] == v;
    assert (set i | 0 <= i < |vs| && vs[i] == v) == if vs[n] == v then r + {n} else r;
  }

  /** The warnings count those lines. */
  lemma WarningsExactly(lib: Library, apex: string, lines: seq<Line>, f: Found)
    requires Reports(f, Verdicts(lib, apex, lines))
    ensures f.warnings == |set i | 0 <= i < |lines| && Unreadable(lib, lines[i])|
  {
    var vs := Verdicts(lib, apex, lines);
    CountIsSize(vs, Rejected);
    hide Normalize, Classify, Keeps, Count, OutsideOf, Admissible;
    assert (set i | 0 <= i < |vs| && vs[i] == Rejected) == set i | 0 <= i < |lines| && Unreadable(lib, lines[i]);
  }

  lemma {:induction false} OutsideFrom(vs: seq<Verdict>, s: Sighting)
    ensures s in OutsideOf(vs) <==> Outside(s) in vs
  {
    if vs != [] {
      var init := vs[..|vs| - 1];
      assert vs == init + [vs[|vs| - 1]];
      OutsideFrom(init, s);
    }
  }

  /** And the hosts reported as out of scope are those shown and not under the root, or without a scope. */
  lemma RejectedExactly(lib: Library, apex: string, lines: seq<Line>, f: Found, host: string)
    requires Faithful(lib) && IsName(apex) && Reports(f, Verdicts(lib, apex, lines))
    ensures Sighted(f.rejected, host) <==>
      Shown(lib, lines, host) && (IsAddress4(host) || IsAddress4(apex) || !Under(host, apex))
  {
    var vs := Verdicts(lib, apex, lines);
    hide OutsideOf, Normalize, Classify, Keeps, Under, IsAddress4, IsName, SourceSet, Faithful, Admissible;
    if Sighted(f.rejected, host) {
      var k :| 0 <= k < |f.rejected| && f.rejected[k].host == host;
      assert f.rejected[k] in OutsideOf(vs);
      OutsideFrom(vs, f.rejected[k]);
      var i :| 0 <= i < |vs| && vs[i] == Outside(f.rejected[k]);
      assert Shows(lib, lines[i], host);
      NormalizedIsName(lib, lines[i].host.value);
      ScopeOfNormalized(lib, host, apex);
    }
    if i :| 0 <= i < |lines| && Shows(lib, lines[i], host) {
      NormalizedIsName(lib, lines[i].host.value);
      ScopeOfNormalized(lib, host, apex);
      if IsAddress4(host) || IsAddress4(apex) || !Under(host, apex) {
        var s := Sighting(host, SourceSet(lines[i].sources));
        assert vs[i] == Outside(s);
        OutsideFrom(vs, s);
        var k :| 0 <= k < |OutsideOf(vs)| && OutsideOf(vs)[k] == s;
        assert f.rejected[k].host == host;
      }
    }
  }
}
