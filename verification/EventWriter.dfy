/** What the server writes, when the reader gets it back, and when cutting the stream can be noticed. */
module EventWriter {
  import opened Prelude
  import opened EventStream
  import Dumped
  import Json

  function WriteEvent(e: Event): string {
    "event: " + e.kind + "\ndata: " + e.data + "\n\n"
  }

  function WriteAll(es: seq<Event>): string {
    if es == [] then "" else WriteEvent(es[0]) + WriteAll(es[1..])
  }

  /** Name without newline or blanks around it, data without newline or blank in front. */
  predicate WellFormed(e: Event) {
    '\n' !in e.kind && Trimmed(e.kind) && '\n' !in e.data && (e.data == "" || !IsBlank(e.data[0]))
  }

  // ----- Blocks of written text -----

  /** A text put in front of the first of some parts. */
  function Prefixed(line: string, parts: seq<string>): (r: seq<string>)
    requires parts != []
    ensures |r| == |parts| && r[0] == line + parts[0] && r[1..] == parts[1..]
  {
    [line + parts[0]] + parts[1..]
  }

  lemma PrefixedTwice(a: string, b: string, parts: seq<string>)
    requires parts != []
    ensures Prefixed(a, Prefixed(b, parts)) == Prefixed(a + b, parts)
    ensures Prefixed("", parts) == parts
  {
    assert a + (b + parts[0]) == a + b + parts[0];
    assert "" + parts[0] == parts[0];
  }

  lemma PushIsPrefixed(c: char, parts: seq<string>)
    requires parts != []
    ensures Push(c, parts) == Prefixed([c], parts)
  {
  }

  /** A first line runs on into whatever block follows it. */
  lemma {:induction false} BlocksAfterLine(line: string, rest: string)
    requires '\n' !in line
    ensures Blocks(line + rest) == Prefixed(line, Blocks(rest))
  {
    var s := line + rest;
    if line == "" {
      assert s == rest;
      PrefixedTwice("", "", Blocks(rest));
    } else if |s| < 2 {
      assert rest == "" && s == line;
    } else {
      assert s[1..] == line[1..] + rest;
      BlocksAfterLine(line[1..], rest);
      assert line == [line[0]] + line[1..];
      hide Blocks, Prefixed;
      BlocksPush(s);
      PushIsPrefixed(s[0], Blocks(s[1..]));
      PrefixedTwice([line[0]], line[1..], Blocks(rest));
    }
  }

  lemma Reassociate(first: string, second: string, rest: string)
    ensures first + "\n" + second + rest == first + ("\n" + (second + rest))
    ensures first + "\n" + second == first + ("\n" + second)
    ensures ("\n" + (second + rest))[1..] == second + rest
  {
  }

  lemma BlocksAfterLines(first: string, second: string, rest: string)
    requires '\n' !in first && '\n' !in second && second != ""
    ensures Blocks(first + "\n" + second + rest) == Prefixed(first + "\n" + second, Blocks(rest))
  {
    hide Blocks, Prefixed;
    var tail := "\n" + (second + rest);
    Reassociate(first, second, rest);
    BlocksAfterLine(second, rest);
    assert tail[1] == second[0];
    BlocksPush(tail);
    PushIsPrefixed('\n', Blocks(second + rest));
    PrefixedTwice("\n", second, Blocks(rest));
    BlocksAfterLine(first, tail);
    PrefixedTwice(first, "\n" + second, Blocks(rest));
  }

  /** A well-formed event is one whole block, and nothing of it runs on into what follows. */
  lemma WrittenBlock(e: Event, rest: string)
    requires '\n' !in e.kind && '\n' !in e.data
    ensures Blocks(WriteEvent(e) + rest) == ["event: " + e.kind + "\n" + ("data: " + e.data)] + Blocks(rest)
  {
    var first, second := "event: " + e.kind, "data: " + e.data;
    var tail := "\n\n" + rest;
    assert tail[2..] == rest;
    assert WriteEvent(e) + rest == first + "\n" + second + tail;
    hide Blocks;
    BlocksAfterLines(first, second, tail);
    BlocksSkip(tail);
    assert first + "\n" + second + "" == first + "\n" + second;
  }

  lemma {:induction false} TrimStartStays(s: string)
    ensures TrimStart(s) == s <==> s == "" || !IsBlank(s[0])
    ensures TrimStart(" " + s) == TrimStart(s)
  {
    assert (" " + s)[1..] == s;
    SpaceIsBlank();
    hide IsBlank;
  }

  lemma TrimmedAgain(s: string)
    ensures Trim(" " + s) == Trim(s)
    ensures Trim(s) == s <==> Trimmed(s)
    ensures Trimmed(Trim(s))
  {
    TrimStartStays(s);
    hide IsBlank, TrimStart;
    var t := TrimStart(s);
    var u := TrimEnd(t);
    assert u != "" ==> u[0] == t[0];
    if Trimmed(s) {
      assert t == s;
    }
  }

  lemma SpaceIsBlank()
    ensures IsBlank(' ')
  {
  }

  /** The lines of a block that starts like a written event. */
  lemma WrittenLines(kind: string, rest: string)
    requires '\n' !in kind
    ensures Split("event: " + kind + "\n" + ("data: " + rest), '\n')
         == ["event: " + kind] + Prefixed("data: ", Split(rest, '\n'))
  {
    SplitAtFirst("event: " + kind, '\n', "data: " + rest);
    assert "event: " + kind + ['\n'] + ("data: " + rest) == "event: " + kind + "\n" + ("data: " + rest);
    SplitRunsOn("data: ", rest);
  }

  lemma {:induction false} SplitRunsOn(line: string, rest: string)
    requires '\n' !in line
    ensures Split(line + rest, '\n') == Prefixed(line, Split(rest, '\n'))
  {
    if line == "" {
      assert line + rest == rest;
      PrefixedTwice("", "", Split(rest, '\n'));
    } else {
      SplitRunsOn(line[1..], rest);
      assert (line + rest)[1..] == line[1..] + rest;
      assert line == [line[0]] + line[1..];
      PrefixedTwice([line[0]], line[1..], Split(rest, '\n'));
    }
  }

  lemma DataLine(data: string)
    ensures DataIn("data: " + data) == [TrimStart(data)]
  {
    TrimStartStays(data);
    DataAfterTag(" " + data);
    hide TrimStart, DataIn;
    assert "data: " + data == "data:" + (" " + data);
  }

  lemma DataAfterTag(rest: string)
    ensures DataIn("data:" + rest) == [TrimStart(rest)]
  {
    hide TrimStart;
    assert ("data:" + rest)[5..] == rest;
  }

  lemma DataOfCons(line: string, lines: seq<string>)
    ensures DataOf([line] + lines) == DataIn(line) + DataOf(lines)
  {
    assert ([line] + lines)[1..] == lines;
  }

  lemma DataOfWritten(kind: string, parts: seq<string>)
    requires parts != []
    ensures DataOf(["event: " + kind] + Prefixed("data: ", parts)) == [TrimStart(parts[0])] + DataOf(parts[1..])
  {
    hide DataIn, DataOf, TrimStart;
    var first, second := "event: " + kind, "data: " + parts[0];
    DataOfCons(first, Prefixed("data: ", parts));
    DataOfCons(second, parts[1..]);
    EventLineHasNoData(first);
    DataLine(parts[0]);
  }

  lemma KindOfWritten(kind: string, data: string)
    ensures KindOf(["event: " + kind, "data: " + data]) == Trim(kind)
  {
    var first, second := "event: " + kind, "data: " + data;
    assert [first, second] == [first] + [second] && [first] == [] + [first];
    assert second[0] == 'd' && first[6..] == " " + kind;
    hide Trim;
    StepLine([first], second);
    StepLine([], first);
    TrimmedAgain(kind);
  }

  /** What such a block is parsed to. */
  lemma WrittenParses(kind: string, rest: string)
    requires '\n' !in kind
    ensures var tail := Split(rest, '\n')[1..];
      && ParseBlock("event: " + kind + "\n" + ("data: " + rest)).Some?
      && var e := ParseBlock("event: " + kind + "\n" + ("data: " + rest)).value;
      && e.data == Join([TrimStart(Split(rest, '\n')[0])] + DataOf(tail), '\n')
      && (tail == [] ==> e.kind == Trim(kind))
  {
    var parts := Split(rest, '\n');
    hide Split, Trim, TrimStart, Join;
    WrittenLines(kind, rest);
    DataOfWritten(kind, parts);
    if parts[1..] == [] {
      KindOfWritten(kind, parts[0]);
      assert Prefixed("data: ", parts) == ["data: " + parts[0]];
      assert ["event: " + kind] + ["data: " + parts[0]] == ["event: " + kind, "data: " + parts[0]];
    }
  }

  lemma OneLineOfData(data: string)
    requires '\n' !in data
    ensures var parts := Split(data, '\n');
      parts[1..] == [] && Join([TrimStart(parts[0])] + DataOf(parts[1..]), '\n') == TrimStart(data)
  {
    SplitWithout(data, '\n');
    assert [TrimStart(data)] + [] == [TrimStart(data)];
    JoinOne(TrimStart(data), '\n');
  }

  lemma WellFormedParses(e: Event)
    requires WellFormed(e)
    ensures EventsIn("event: " + e.kind + "\n" + ("data: " + e.data)) == [e]
  {
    hide ParseBlock, Split, Trim, TrimStart, IsBlank, Join, DataOf, Trimmed;
    WrittenParses(e.kind, e.data);
    OneLineOfData(e.data);
    TrimmedAgain(e.kind);
    TrimStartStays(e.data);
  }

  /** Well-formed events are read back exactly, in order, and leave nothing in the buffer. */
  lemma {:induction false} WrittenEventsReadBack(es: seq<Event>)
    requires forall e :: e in es ==> WellFormed(e)
    ensures EventsOf(WriteAll(es)) == es && Remainder(WriteAll(es)) == ""
  {
    if es == [] {
      NothingWritten();
    } else {
      assert WellFormed(es[0]);
      WrittenEventsReadBack(es[1..]);
      WrittenEventFirst(es[0], WriteAll(es[1..]));
      assert es == [es[0]] + es[1..];
    }
  }

  lemma WrittenEventFirst(e: Event, rest: string)
    requires WellFormed(e)
    ensures EventsOf(WriteEvent(e) + rest) == [e] + EventsOf(rest)
    ensures Remainder(WriteEvent(e) + rest) == Remainder(rest)
  {
    hide Blocks, EventsIn, WriteEvent;
    var b := "event: " + e.kind + "\n" + ("data: " + e.data);
    WrittenBlock(e, rest);
    WellFormedParses(e);
    assert Complete(WriteEvent(e) + rest) == [b] + Complete(rest);
    assert ([b] + Complete(rest))[1..] == Complete(rest);
  }

  lemma NothingWritten()
    ensures EventsOf("") == [] && Remainder("") == ""
  {
  }

  /** The round trip as a client sees it, however the text is cut on its way. */
  lemma StreamRoundTrip(es: seq<Event>, chunks: seq<string>, closes: Event -> bool)
    requires forall e :: e in es ==> WellFormed(e)
    requires Concat(chunks) == WriteAll(es) && !Any(es, closes)
    ensures FedAll(START, chunks, closes) == State("", false, es)
  {
    WrittenEventsReadBack(es);
    ReadsTheText(chunks, closes);
  }

  // ----- No other event survives -----

  lemma {:induction false} KindIsTrimmedLine(lines: seq<string>)
    requires forall i :: 0 <= i < |lines| ==> '\n' !in lines[i]
    ensures '\n' !in KindOf(lines) && Trimmed(KindOf(lines))
  {
    hide IsBlank, Trim;
    if lines == [] {
      assert Trimmed("message") by { LettersNotBlank(); }
    } else {
      var line := lines[|lines| - 1];
      if "event:" <= line {
        TrimmedAgain(line[6..]);
        assert '\n' !in line[6..];
        TrimKeepsOut(line[6..]);
      } else {
        KindIsTrimmedLine(lines[..|lines| - 1]);
      }
    }
  }

  lemma TrimKeepsOut(s: string)
    ensures '\n' !in s ==> '\n' !in Trim(s)
  {
  }

  lemma LettersNotBlank()
    ensures !IsBlank('m') && !IsBlank('e')
  {
  }

  lemma {:induction false} DispatchedKinds(blocks: seq<string>)
    ensures forall e :: e in Events(blocks) ==> '\n' !in e.kind && Trimmed(e.kind)
  {
    if blocks != [] {
      hide Trimmed;
      DispatchedKinds(blocks[1..]);
      PartsWithout(blocks[0], '\n');
      KindIsTrimmedLine(Split(blocks[0], '\n'));
    }
  }

  /** Length of parts that are going to be joined, counting one separator for each. */
  function Weight(parts: seq<string>): nat {
    if parts == [] then 0 else |parts[0]| + 1 + Weight(parts[1..])
  }

  lemma {:induction false} JoinLength(parts: seq<string>)
    requires parts != []
    ensures |Join(parts, '\n')| == Weight(parts) - 1
  {
    if |parts| > 1 {
      JoinLength(parts[1..]);
    }
  }

  /** Every line is longer than the data it contributes. */
  lemma {:induction false} DataIsShorter(lines: seq<string>)
    ensures Weight(DataOf(lines)) + |lines| <= Weight(lines)
  {
    if lines != [] {
      DataIsShorter(lines[1..]);
      if DataIn(lines[0]) != [] {
        assert DataOf(lines) == [TrimStart(lines[0][5..])] + DataOf(lines[1..]);
      } else {
        assert DataOf(lines) == DataOf(lines[1..]);
      }
    }
  }

  /** If the data comes out of a block as long as it went in, it was one line, and starts with no blank. */
  lemma ParsedDataLength(kind: string, rest: string)
    requires '\n' !in kind
    ensures var e := ParseBlock("event: " + kind + "\n" + ("data: " + rest));
      && e.Some? && |e.value.data| <= |rest|
      && (|e.value.data| == |rest| ==> '\n' !in rest && (rest == "" || !IsBlank(rest[0])))
  {
    hide Split, ParseBlock, TrimStart, IsBlank, Join, DataOf;
    WrittenParses(kind, rest);
    JoinedDataLength(rest, Split(rest, '\n'));
  }

  lemma JoinedDataLength(rest: string, parts: seq<string>)
    requires parts == Split(rest, '\n')
    ensures var data := Join([TrimStart(parts[0])] + DataOf(parts[1..]), '\n');
      && |data| <= |rest|
      && (|data| == |rest| ==> '\n' !in rest && (rest == "" || !IsBlank(rest[0])))
  {
    var tail := parts[1..];
    var data := [TrimStart(parts[0])] + DataOf(tail);
    hide Split, TrimStart, IsBlank, DataOf, Join;
    assert data[1..] == DataOf(tail);
    JoinLength(data);
    JoinSplit(rest, '\n');
    JoinLength(parts);
    DataIsShorter(tail);
    if |Join(data, '\n')| == |rest| {
      assert tail == [] && parts == [parts[0]];
      JoinOne(parts[0], '\n');
      PartsWithout(rest, '\n');
      assert parts[0] == rest && |TrimStart(rest)| == |rest|;
      TrimStartStays(rest);
    }
  }

  lemma {:induction false} FirstBlockIsPrefix(data: string)
    ensures |Blocks(data + "\n\n")| >= 2 && Blocks(data + "\n\n")[0] <= data
  {
    var s := data + "\n\n";
    if AtSeparator(s) {
      BlocksSkip(s);
    } else {
      BlocksPush(s);
      FirstBlockIsPrefix(data[1..]);
      assert s[1..] == data[1..] + "\n\n";
      assert data == [data[0]] + data[1..];
    }
  }

  /** An event comes back as itself, and as nothing else beside it, exactly when it is well formed. */
  lemma RoundTripExactly(e: Event)
    ensures EventsOf(WriteEvent(e)) == [e] <==> WellFormed(e)
  {
    hide Blocks, ParseBlock, Trimmed, IsBlank;
    if WellFormed(e) {
      WrittenEventsReadBack([e]);
      assert WriteAll([e]) == WriteEvent(e) + "";
      assert WriteEvent(e) + "" == WriteEvent(e);
    }
    if EventsOf(WriteEvent(e)) == [e] {
      DispatchedKinds(Complete(WriteEvent(e)));
      assert e in EventsOf(WriteEvent(e));
      var rest := Blocks(e.data + "\n\n")[0];
      FirstBlockIsPrefix(e.data);
      BlocksAfterLines("event: " + e.kind, "data: ", e.data + "\n\n");
      var h := "event: " + e.kind + "\n" + "data: ";
      assert WriteEvent(e) == h + (e.data + "\n\n");
      assert Blocks(WriteEvent(e)) == Prefixed(h, Blocks(e.data + "\n\n"));
      var first := "event: " + e.kind + "\n" + ("data: " + rest);
      assert h + rest == first;
      assert Complete(WriteEvent(e))[0] == first;
      ParsedDataLength(e.kind, rest);
      assert EventsIn(first) == [ParseBlock(first).value];
      assert EventsOf(WriteEvent(e))[0] == ParseBlock(first).value;
      assert |rest| == |e.data| && rest == e.data;
    }
  }

  // ----- JSON bodies -----

  /** The same of values printed with sorted keys. */
  lemma PrintedNoControl(v: Json.Json, style: Json.Style)
    requires Json.Printable(v, style)
    ensures Dumped.NoControl(Json.Print(v, style))
  {
    Dumped.DumpsAsPrinted(v, style);
    Dumped.DumpNoControl(Dumped.InOrder(v), style);
  }

  /** Data printed as JSON is always well formed, whatever it contains and in whatever order. */
  lemma JsonDataWellFormed(kind: string, v: Dumped.Value, style: Json.Style)
    requires Dumped.Printable(v, style)
    requires '\n' !in kind && Trimmed(kind)
    ensures WellFormed(Event(kind, Dumped.Dump(v, style)))
  {
    Dumped.DumpNoControl(v, style);
    Dumped.DumpStart(v, style);
    hide Dumped.Dump, Trimmed, Dumped.Printable;
    StartsNotBlank(Dumped.Dump(v, style)[0]);
  }

  lemma StartsNotBlank(c: char)
    requires c in "\"{[ntfNI0123456789+-.eE"
    ensures !IsBlank(c)
  {
  }

  // ----- When cutting the stream can be noticed -----

  /** Every way of cutting the text delivers all of its events. */
  ghost predicate CutsUnnoticed(text: string, closes: Event -> bool) {
    forall chunks :: Concat(chunks) == text ==> FedAll(START, chunks, closes).dispatched == EventsOf(text)
  }

  /** The events before the last one. */
  function AllButLast(es: seq<Event>): seq<Event> {
    if es == [] then [] else es[..|es| - 1]
  }

  /** A text can be cut right after any of its complete blocks. */
  lemma {:induction false} CutAfterBlock(s: string, j: nat) returns (k: nat)
    requires j <= |Complete(s)|
    ensures k <= |s| && Complete(s[..k]) == Complete(s)[..j]
  {
    if j == 0 {
      k := 0;
    } else if AtSeparator(s) {
      BlocksSkip(s);
      var n := CutAfterBlock(s[2..], j - 1);
      k := n + 2;
      assert s[..k][2..] == s[2..][..n];
      BlocksSkip(s[..k]);
    } else {
      BlocksPush(s);
      var n := CutAfterBlock(s[1..], j);
      k := n + 1;
      assert s[..k][1..] == s[1..][..n];
      assert s[1..][..0] == "" && Complete("") == [];
      assert n >= 1;
      CutKeepsSeparator(s, k);
      BlocksPush(s[..k]);
    }
  }

  lemma CutKeepsSeparator(s: string, k: nat)
    requires 2 <= k <= |s|
    ensures AtSeparator(s[..k]) == AtSeparator(s)
  {
  }

  /** The first events of some blocks are all the events of the first few of them. */
  lemma {:induction false} BlocksOfEvents(blocks: seq<string>, i: nat) returns (j: nat)
    requires i <= |Events(blocks)|
    ensures j <= |blocks| && Events(blocks[..j]) == Events(blocks)[..i]
  {
    if i == 0 {
      j := 0;
    } else {
      var n := BlocksOfEvents(blocks[1..], i - |EventsIn(blocks[0])|);
      j := n + 1;
      assert blocks[..j][1..] == blocks[1..][..n];
    }
  }

  /** Under any cutting the listeners get the events of a prefix, and of the whole text unless one of them closed. */
  lemma {:induction false} DispatchedPrefix(st: State, chunks: seq<string>, closes: Event -> bool)
    requires !st.closed && Blocks(st.buffer) == [st.buffer]
    ensures var all := EventsOf(st.buffer + Concat(chunks)); var end := FedAll(st, chunks, closes);
      exists n :: 0 <= n <= |all| && end.dispatched == st.dispatched + all[..n]
        && (n == |all| || Any(all[..n], closes))
    decreases |chunks|
  {
    hide Blocks, Complete, Remainder, Events, Any;
    var all := EventsOf(st.buffer + Concat(chunks));
    if chunks == [] {
      assert st.buffer + "" == st.buffer;
      WholeHasNoEvents(st.buffer);
      assert st.dispatched == st.dispatched + all[..0];
    } else {
      var first, rest := st.buffer + chunks[0], Concat(chunks[1..]);
      var now := EventsOf(first);
      assert st.buffer + Concat(chunks) == first + rest;
      EventsOfAppend(first, rest);
      var next := Fed(st, chunks[0], closes);
      if next.closed {
        ClosedStays(next, chunks[1..], closes);
        assert all[..|now|] == now;
      } else {
        RemainderWhole(first);
        DispatchedPrefix(next, chunks[1..], closes);
        var later := EventsOf(next.buffer + rest);
        var m :| 0 <= m <= |later| && FedAll(next, chunks[1..], closes).dispatched == next.dispatched + later[..m]
          && (m == |later| || Any(later[..m], closes));
        assert all[..|now| + m] == now + later[..m];
        AnyAppend(now, later[..m], closes);
      }
    }
  }

  lemma AnyPart(es: seq<Event>, n: nat, closes: Event -> bool)
    requires n < |es| && Any(es[..n], closes)
    ensures Any(AllButLast(es), closes)
  {
    var i :| 0 <= i < n && closes(es[..n][i]);
    assert AllButLast(es)[i] == es[i];
  }

  /**
   * Cutting is unnoticed exactly when no event but the last one makes a listener close the
   * stream: events behind a closing one still arrive if they came in the same chunk.
   */
  lemma CutsUnnoticedExactly(text: string, closes: Event -> bool)
    ensures CutsUnnoticed(text, closes) <==> !Any(AllButLast(EventsOf(text)), closes)
  {
    var es := EventsOf(text);
    if !Any(AllButLast(es), closes) {
      forall chunks | Concat(chunks) == text ensures FedAll(START, chunks, closes).dispatched == es {
        assert "" + text == text;
        DispatchedPrefix(START, chunks, closes);
        var n :| 0 <= n <= |es| && FedAll(START, chunks, closes).dispatched == [] + es[..n]
          && (n == |es| || Any(es[..n], closes));
        if n < |es| {
          AnyPart(es, n, closes);
        }
        assert es[..|es|] == es;
      }
    } else {
      var i :| 0 <= i < |AllButLast(es)| && closes(AllButLast(es)[i]);
      var j := BlocksOfEvents(Complete(text), i + 1);
      var k := CutAfterBlock(text, j);
      TwoChunks(text, k, i, closes);
    }
  }

  lemma TwoChunks(text: string, k: nat, i: nat, closes: Event -> bool)
    requires k <= |text| && i + 1 < |EventsOf(text)|
    requires EventsOf(text[..k]) == EventsOf(text)[..i + 1] && closes(EventsOf(text)[i])
    ensures !CutsUnnoticed(text, closes)
  {
    var chunks := [text[..k], text[k..]];
    var es := EventsOf(text[..k]);
    assert Concat(chunks) == text by {
      assert chunks[1..] == [text[k..]] && Concat([text[k..]]) == text[k..] + "";
      assert text[..k] + text[k..] == text;
    }
    assert "" + text[..k] == text[..k];
    var st := Fed(START, chunks[0], closes);
    assert st.closed by { assert closes(es[i]); }
    ClosedStays(st, chunks[1..], closes);
    assert FedAll(START, chunks, closes).dispatched == [] + es;
  }

  // ----- The live queue -----

  datatype Body = Raw(text: string) | Value(v: Data)

  /** A queue entry: a dictionary, a pair, or anything else. */
  datatype Message = Named(kind: Option<string>, data: Option<Body>) | Pair(name: string, body: Body) | Bare(body: Body)

  const SPACED := Json.Style(true, true)

  type Data = v: Dumped.Value | Dumped.Printable(v, SPACED) witness Dumped.Null

  function BodyText(b: Body): string {
    match b case Raw(t) => t case Value(v) => Dumped.Dump(v, SPACED)
  }

  function EventOf(m: Message): Event {
    match m
    case Named(kind, data) =>
      Event(if kind.Some? then kind.value else "message",
            BodyText(if data.Some? then data.value else Value(Dumped.Members([]))))
    case Pair(name, body) => Event(name, BodyText(body))
    case Bare(body) => Event("message", BodyText(body))
  }

  predicate Terminal(e: Event) {
    e.kind == "completed" || e.kind == "failed" || e.kind == "cancelled"
  }

  /** The events of a queue up to and including the first terminal one. */
  function UpToTerminal(queue: seq<Message>): seq<Event> {
    if queue == [] then []
    else if Terminal(EventOf(queue[0])) then [EventOf(queue[0])]
    else [EventOf(queue[0])] + UpToTerminal(queue[1..])
  }

  lemma DrainStep(queue: seq<Message>)
    ensures queue == [] ==> UpToTerminal(queue) == [] && WriteAll(UpToTerminal(queue)) == ""
    ensures queue != [] && Terminal(EventOf(queue[0])) ==>
      WriteAll(UpToTerminal(queue)) == WriteEvent(EventOf(queue[0])) && |UpToTerminal(queue)| == 1
    ensures queue != [] && !Terminal(EventOf(queue[0])) ==>
      && WriteAll(UpToTerminal(queue)) == WriteEvent(EventOf(queue[0])) + WriteAll(UpToTerminal(queue[1..]))
      && |UpToTerminal(queue)| == 1 + |UpToTerminal(queue[1..])|
  {
    hide WriteEvent, EventOf, Terminal;
    if queue != [] {
      var e := EventOf(queue[0]);
      assert WriteEvent(e) + "" == WriteEvent(e);
      assert ([e] + UpToTerminal(queue[1..]))[1..] == UpToTerminal(queue[1..]);
    }
  }

  /** The draining loop, on the messages that will ever arrive. */
  method Drain(queue: seq<Message>) returns (text: string, taken: nat)
    ensures taken <= |queue|
    ensures text == WriteAll(UpToTerminal(queue)) && taken == |UpToTerminal(queue)|
  {
    hide EventOf, WriteEvent, WriteAll, UpToTerminal, Terminal;
    text, taken := "", 0;
    assert queue[0..] == queue;
    while taken < |queue|
      invariant taken <= |queue|
      invariant text + WriteAll(UpToTerminal(queue[taken..])) == WriteAll(UpToTerminal(queue))
      invariant taken + |UpToTerminal(queue[taken..])| == |UpToTerminal(queue)|
    {
      var e := EventOf(queue[taken]);
      DrainStep(queue[taken..]);
      assert queue[taken..][1..] == queue[taken + 1..];
      text := text + WriteEvent(e);
      taken := taken + 1;
      if Terminal(e) {
        return;
      }
    }
    DrainStep(queue[taken..]);
    assert text + "" == text;
  }

  /** A drained queue reaches the client as exactly its events, the last of them the first terminal one. */
  lemma DrainedReadsBack(queue: seq<Message>, chunks: seq<string>, closes: Event -> bool)
    requires forall e :: e in UpToTerminal(queue) ==> WellFormed(e)
    requires Concat(chunks) == WriteAll(UpToTerminal(queue))
    requires !Any(AllButLast(UpToTerminal(queue)), closes)
    ensures FedAll(START, chunks, closes).dispatched == UpToTerminal(queue)
    ensures forall e :: e in AllButLast(UpToTerminal(queue)) ==> !Terminal(e)
  {
    WrittenEventsReadBack(UpToTerminal(queue));
    CutsUnnoticedExactly(Concat(chunks), closes);
    OnlyLastTerminal(queue);
  }

  lemma {:induction false} OnlyLastTerminal(queue: seq<Message>)
    ensures forall e :: e in AllButLast(UpToTerminal(queue)) ==> !Terminal(e)
  {
    if queue != [] && !Terminal(EventOf(queue[0])) {
      OnlyLastTerminal(queue[1..]);
      var es, rest := UpToTerminal(queue), UpToTerminal(queue[1..]);
      if rest != [] {
        assert AllButLast(es) == [es[0]] + AllButLast(rest);
      }
    }
  }
}
