/** What blocks, fields and queue entries are, said of the texts themselves. */
module EventLaws {
  import opened Prelude
  import opened EventStream
  import opened EventWriter
  import Dumped

  // ----- Blocks -----

  function Glued(blocks: seq<string>): string
    requires blocks != []
  {
    if |blocks| == 1 then blocks[0] else blocks[0] + "\n\n" + Glued(blocks[1..])
  }

  predicate BlankLineAt(s: string, k: int) {
    0 <= k < |s| - 1 && s[k] == '\n' && s[k + 1] == '\n'
  }

  /** A text is its blocks with an empty line between any two, and each ends at the first empty line there is. */
  lemma {:induction false} BlocksMean(s: string)
    ensures Glued(Blocks(s)) == s
    ensures forall k :: BlankLineAt(s, k) ==> |Blocks(s)| > 1 && |Blocks(s)[0]| <= k
    ensures |Blocks(s)| > 1 ==>
      BlankLineAt(s, |Blocks(s)[0]|) && Blocks(s)[1..] == Blocks(s[|Blocks(s)[0]| + 2..])
  {
    if AtSeparator(s) {
      BlocksMean(s[2..]);
      BlocksSkip(s);
      assert Blocks(s)[1..] == Blocks(s[2..]);
      assert s == "" + "\n\n" + s[2..];
    } else if |s| >= 2 {
      BlocksMean(s[1..]);
      BlocksPush(s);
      hide Blocks, Glued;
      PushedBlocks(s, Blocks(s[1..]));
    }
  }

  lemma PushedBlocks(s: string, rest: seq<string>)
    requires |s| >= 2 && !AtSeparator(s) && rest != [] && Glued(rest) == s[1..]
    requires forall k :: BlankLineAt(s[1..], k) ==> |rest| > 1 && |rest[0]| <= k
    requires |rest| > 1 ==> BlankLineAt(s[1..], |rest[0]|) && rest[1..] == Blocks(s[1..][|rest[0]| + 2..])
    ensures var bs := Push(s[0], rest);
      && Glued(bs) == s
      && (forall k :: BlankLineAt(s, k) ==> |bs| > 1 && |bs[0]| <= k)
      && (|bs| > 1 ==> BlankLineAt(s, |bs[0]|) && bs[1..] == Blocks(s[|bs[0]| + 2..]))
  {
    hide Blocks;
    var bs := Push(s[0], rest);
    assert bs[0] == [s[0]] + rest[0] && bs[1..] == rest[1..];
    GluedPush(s[0], rest);
    assert s == [s[0]] + s[1..];
    forall k | BlankLineAt(s, k) ensures |bs| > 1 && |bs[0]| <= k {
      assert BlankLineAt(s[1..], k - 1);
    }
    if |rest| > 1 {
      assert s[1..][|rest[0]| + 2..] == s[|rest[0]| + 3..];
    }
  }

  lemma GluedPush(c: char, rest: seq<string>)
    requires rest != []
    ensures Glued(Push(c, rest)) == [c] + Glued(rest)
  {
    if |rest| > 1 {
      var tail := Glued(rest[1..]);
      assert Push(c, rest)[1..] == rest[1..];
      assert [c] + (rest[0] + "\n\n" + tail) == [c] + rest[0] + "\n\n" + tail;
    }
  }

  // ----- Fields -----

  predicate Carries(line: string) { |line| >= 5 && line[..5] == "data:" }

  predicate Names(line: string) { |line| >= 6 && line[..6] == "event:" }

  lemma Prefixes(line: string)
    ensures Carries(line) <==> "data:" <= line
    ensures Names(line) <==> "event:" <= line
  {
  }

  /** The place of the last line that names the event. */
  ghost predicate LastName(lines: seq<string>, i: int) {
    0 <= i < |lines| && Names(lines[i]) && forall j :: i < j < |lines| ==> !Names(lines[j])
  }

  lemma {:induction false} KindMeans(lines: seq<string>)
    ensures (forall i :: 0 <= i < |lines| ==> !Names(lines[i])) ==> KindOf(lines) == "message"
    ensures forall i :: LastName(lines, i) ==> |lines[i]| >= 6 && KindOf(lines) == Trim(lines[i][6..])
  {
    hide Trim;
    if lines != [] {
      var n := |lines| - 1;
      Prefixes(lines[n]);
      KindMeans(lines[..n]);
      forall i | LastName(lines, i) ensures |lines[i]| >= 6 && KindOf(lines) == Trim(lines[i][6..]) {
        if i < n {
          assert LastName(lines[..n], i);
        }
      }
    }
  }

  /** What the lines that carry data have behind the colon, in order. */
  function DataFields(lines: seq<string>): seq<string> {
    if lines == [] then []
    else (if Carries(lines[0]) then [lines[0][5..]] else []) + DataFields(lines[1..])
  }

  function Trimmings(fields: seq<string>): (ts: seq<string>)
    ensures |ts| == |fields| && forall i :: 0 <= i < |fields| ==> ts[i] == TrimStart(fields[i])
  {
    seq(|fields|, i requires 0 <= i < |fields| => TrimStart(fields[i]))
  }

  lemma {:induction false} DataMeans(lines: seq<string>)
    ensures DataOf(lines) == Trimmings(DataFields(lines))
    ensures DataOf(lines) != [] <==> exists i :: 0 <= i < |lines| && Carries(lines[i])
  {
    hide TrimStart, Carries;
    if lines != [] {
      DataMeans(lines[1..]);
      Prefixes(lines[0]);
      hide Trimmings;
      DataOfFirst(lines);
      FirstTrimmed(lines);
      if i :| 0 <= i < |lines| && Carries(lines[i]) {
        assert i > 0 ==> Carries(lines[1..][i - 1]);
      }
      if i :| 0 <= i < |lines[1..]| && Carries(lines[1..][i]) {
        assert Carries(lines[i + 1]);
      }
    }
  }

  lemma FirstTrimmed(lines: seq<string>)
    requires lines != []
    ensures Trimmings(DataFields(lines)) == DataIn(lines[0]) + Trimmings(DataFields(lines[1..]))
  {
    Prefixes(lines[0]);
    hide TrimStart;
  }

  /**
   * A block is an event exactly if some line of it carries data. Its data are what those lines
   * carry, without blanks in front, and its name that of the last line that names it.
   */
  lemma ParseMeans(raw: string)
    ensures var lines := Split(raw, '\n');
      && (ParseBlock(raw).Some? <==> exists i :: 0 <= i < |lines| && Carries(lines[i]))
      && (ParseBlock(raw).Some? ==>
            && ParseBlock(raw).value.data == Join(Trimmings(DataFields(lines)), '\n')
            && (forall i :: LastName(lines, i) ==> ParseBlock(raw).value.kind == Trim(lines[i][6..]))
            && ((forall i :: 0 <= i < |lines| ==> !Names(lines[i])) ==> ParseBlock(raw).value.kind == "message"))
  {
    hide Trim, TrimStart, Split, Join, Carries, DataFields, Trimmings;
    KindMeans(Split(raw, '\n'));
    DataMeans(Split(raw, '\n'));
  }

  /** The lines of a written event. */
  lemma WrittenLinesExactly(e: Event)
    requires '\n' !in e.kind && '\n' !in e.data
    ensures Split(WriteEvent(e), '\n') == ["event: " + e.kind, "data: " + e.data, "", ""]
  {
    var first, second := "event: " + e.kind, "data: " + e.data;
    assert WriteEvent(e) == first + ['\n'] + (second + ['\n'] + ("" + ['\n'] + ""));
    SplitAtFirst(first, '\n', second + ['\n'] + ("" + ['\n'] + ""));
    SplitAtFirst(second, '\n', "" + ['\n'] + "");
    SplitAtFirst("", '\n', "");
    SplitWithout("", '\n');
    hide Split;
  }

  // ----- The queue -----

  /** The name of the event that an entry becomes. */
  ghost function NameOf(m: Message): string {
    match m
    case Named(kind, _) => if kind.Some? then kind.value else "message"
    case Pair(name, _) => name
    case Bare(_) => "message"
  }

  /** Its body; a dictionary without one has an empty object. */
  ghost function BodyOf(m: Message): Body {
    match m
    case Named(_, data) => if data.Some? then data.value else Raw("{}")
    case Pair(_, body) => body
    case Bare(body) => body
  }

  lemma EntryMeans(m: Message)
    ensures EventOf(m).kind == NameOf(m)
    ensures BodyOf(m).Raw? ==> EventOf(m).data == BodyOf(m).text
    ensures BodyOf(m).Value? ==> EventOf(m).data == Dumped.Dump(BodyOf(m).v, SPACED)
  {
    assert Dumped.DumpMembers([], SPACED) == "";
    assert Dumped.Dump(Dumped.Members([]), SPACED) == "{}";
  }

  predicate Ends(name: string) {
    name in {"completed", "failed", "cancelled"}
  }

  /** The loop takes entries up to the first that ends the stream by its name, or all of them. */
  lemma {:induction false} QueueMeans(queue: seq<Message>)
    ensures var es := UpToTerminal(queue);
      && |es| <= |queue|
      && (forall i :: 0 <= i < |es| ==> es[i] == EventOf(queue[i]) && es[i].kind == NameOf(queue[i]))
      && (forall i :: 0 <= i < |es| - 1 ==> !Ends(NameOf(queue[i])))
      && (|es| == |queue| || (es != [] && Ends(NameOf(queue[|es| - 1]))))
  {
    hide NameOf, EventOf;
    if queue != [] {
      QueueMeans(queue[1..]);
      forall i | 0 <= i < |queue| ensures EventOf(queue[i]).kind == NameOf(queue[i]) {
        EntryMeans(queue[i]);
      }
    }
  }

  // ----- Blanks -----

  /** What `trim` removes: white space and line terminators (sections 12.2 and 12.3 of ECMA-262). */
  lemma BlanksExactly(c: char)
    ensures IsBlank(c) <==> (c as int in
      {0x09, 0x0A, 0x0B, 0x0C, 0x0D, 0x20, 0xA0, 0x1680, 0x2000, 0x2001, 0x2002, 0x2003, 0x2004, 0x2005, 0x2006,
       0x2007, 0x2008, 0x2009, 0x200A, 0x2028, 0x2029, 0x202F, 0x205F, 0x3000, 0xFEFF})
  {
    assert Runes([c])[0] == c as int;
  }

  /** Trimming takes blanks from both ends, or from the front, and nothing else, and leaves none there. */
  lemma TrimMeans(s: string) returns (a: string, b: string)
    ensures s == a + TrimStart(s) && TrimStart(s) == Trim(s) + b && Trimmed(Trim(s))
    ensures forall c :: c in a || c in b ==> IsBlank(c)
  {
    hide IsBlank, TrimStart, TrimEnd;
    var t := TrimStart(s);
    a := s[..|s| - |t|];
    b := t[|TrimEnd(t)|..];
    FrontBlank(s);
    EndBlank(t);
    Cut(s, |a|);
    Cut(t, |TrimEnd(t)|);
    assert forall c :: c in a ==> exists i :: 0 <= i < |a| && s[i] == c;
    assert forall c :: c in b ==> exists i :: |TrimEnd(t)| <= i < |t| && t[i] == c;
  }

  lemma Cut(s: string, k: nat)
    requires k <= |s|
    ensures s == s[..k] + s[k..]
  {
  }

  lemma {:induction false} FrontBlank(s: string)
    ensures forall i :: 0 <= i < |s| - |TrimStart(s)| ==> IsBlank(s[i])
  {
    hide IsBlank;
    if s != "" && IsBlank(s[0]) {
      FrontBlank(s[1..]);
      forall i | 0 <= i < |s| - |TrimStart(s)| ensures IsBlank(s[i]) {
        assert i > 0 ==> s[i] == s[1..][i - 1];
      }
    }
  }

  lemma {:induction false} EndBlank(s: string)
    ensures forall i :: |TrimEnd(s)| <= i < |s| ==> IsBlank(s[i])
  {
    hide IsBlank;
    if s != "" && IsBlank(s[|s| - 1]) {
      var init := s[..|s| - 1];
      EndBlank(init);
      forall i | |TrimEnd(s)| <= i < |s| ensures IsBlank(s[i]) {
        assert i < |s| - 1 ==> s[i] == init[i];
      }
    }
  }
}
