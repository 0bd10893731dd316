/** Server-sent events: the incremental reader of the browser and the text the server writes. */
module EventStream {
  import opened Prelude

  datatype Event = Event(kind: string, data: string)

  // ----- JavaScript strings -----

  /** What `trim` and `trimStart` remove. */
  predicate IsBlank(c: char) {
    var r := Runes([c])[0];
    0x09 <= r <= 0x0D || r == 0x20 || r == 0xA0 || r == 0x1680 || 0x2000 <= r <= 0x200A
    || r == 0x2028 || r == 0x2029 || r == 0x202F || r == 0x205F || r == 0x3000 || r == 0xFEFF
  }

  function TrimStart(s: string): (t: string)
    ensures |t| <= |s| && t == s[|s| - |t|..]
    ensures t == "" || !IsBlank(t[0])
  {
    if s != "" && IsBlank(s[0]) then TrimStart(s[1..]) else s
  }

  function TrimEnd(s: string): (t: string)
    ensures |t| <= |s| && t == s[..|t|]
    ensures t == "" || !IsBlank(t[|t| - 1])
  {
    if s != "" && IsBlank(s[|s| - 1]) then TrimEnd(s[..|s| - 1]) else s
  }

  function Trim(s: string): string {
    TrimEnd(TrimStart(s))
  }

  predicate Trimmed(s: string) {
    s == "" || (!IsBlank(s[0]) && !IsBlank(s[|s| - 1]))
  }

  function Push(c: char, blocks: seq<string>): (r: seq<string>)
    requires blocks != []
    ensures |r| == |blocks|
  {
    [[c] + blocks[0]] + blocks[1..]
  }

  /** `s.split("\n\n")`, greedy from the left. */
  function Blocks(s: string): (bs: seq<string>)
    ensures bs != []
  {
    if |s| < 2 then [s]
    else if s[0] == '\n' && s[1] == '\n' then [""] + Blocks(s[2..])
    else Push(s[0], Blocks(s[1..]))
  }

  function Complete(s: string): seq<string> {
    Blocks(s)[..|Blocks(s)| - 1]
  }

  function Remainder(s: string): string {
    Blocks(s)[|Blocks(s)| - 1]
  }

  // ----- Parsing one block -----

  /** The event name after some lines: the last `event:` line decides. */
  function KindOf(lines: seq<string>): string {
    if lines == [] then "message"
    else
      var line := lines[|lines| - 1];
      if "event:" <= line then Trim(line[6..]) else KindOf(lines[..|lines| - 1])
  }

  function DataIn(line: string): seq<string> {
    if "data:" <= line then [TrimStart(line[5..])] else []
  }

  function DataOf(lines: seq<string>): seq<string> {
    if lines == [] then [] else DataIn(lines[0]) + DataOf(lines[1..])
  }

  function ParseBlock(raw: string): Option<Event> {
    var lines := Split(raw, '\n');
    if DataOf(lines) == [] then None else Some(Event(KindOf(lines), Join(DataOf(lines), '\n')))
  }

  /** `parseEvent`, with its loop over the lines. */
  method ParseEvent(raw: string) returns (event: Option<Event>)
    ensures event == ParseBlock(raw)
  {
    hide Trim, TrimStart;
    var fields := Split(raw, '\n');
    var kind := "message";
    var data: seq<string> := [];
    for i := 0 to |fields|
      invariant kind == KindOf(fields[..i])
      invariant data == DataOf(fields[..i])
    {
      var line := fields[i];
      StepLine(fields[..i], line);
      assert fields[..i + 1] == fields[..i] + [line];
      if "event:" <= line {
        kind := Trim(line[6..]);
      } else if "data:" <= line {
        data := data + [TrimStart(line[5..])];
      }
    }
    assert fields[..|fields|] == fields;
    event := if data == [] then None else Some(Event(kind, Join(data, '\n')));
  }

  lemma StepLine(lines: seq<string>, line: string)
    ensures KindOf(lines + [line]) == if "event:" <= line then Trim(line[6..]) else KindOf(lines)
    ensures DataOf(lines + [line]) == DataOf(lines) + DataIn(line)
    ensures "event:" <= line ==> DataIn(line) == []
  {
    hide DataIn;
    DataOfAppend(lines, [line]);
    assert (lines + [line])[..|lines|] == lines;
    assert DataOf([line]) == DataIn(line) + DataOf([line][1..]);
    EventLineHasNoData(line);
  }

  lemma EventLineHasNoData(line: string)
    ensures "event:" <= line ==> DataIn(line) == []
  {
    if "event:" <= line {
      assert line[0] == 'e';
    }
  }

  lemma DataOfFirst(lines: seq<string>)
    requires lines != []
    ensures DataOf(lines) == DataIn(lines[0]) + DataOf(lines[1..])
  {
  }

  lemma {:induction false} DataOfAppend(a: seq<string>, b: seq<string>)
    ensures DataOf(a + b) == DataOf(a) + DataOf(b)
  {
    hide DataIn;
    if a == [] {
      assert a + b == b;
    } else {
      DataOfAppend(a[1..], b);
      DataOfFirst(a);
      DataOfFirst(a + b);
      assert (a + b)[1..] == a[1..] + b && (a + b)[0] == a[0];
      hide DataOf;
    }
  }

  /** What one block dispatches: nothing if it is empty or holds no data line. */
  function EventsIn(raw: string): seq<Event> {
    if raw == "" then []
    else match ParseBlock(raw) { case None => [] case Some(e) => [e] }
  }

  function Events(blocks: seq<string>): seq<Event> {
    if blocks == [] then [] else EventsIn(blocks[0]) + Events(blocks[1..])
  }

  lemma {:induction false} EventsAppend(a: seq<string>, b: seq<string>)
    ensures Events(a + b) == Events(a) + Events(b)
  {
    hide EventsIn;
    if a == [] {
      assert a + b == b;
    } else {
      EventsAppend(a[1..], b);
      assert (a + b)[1..] == a[1..] + b;
      assert Events(a + b) == EventsIn(a[0]) + Events(a[1..] + b);
    }
  }

  // ----- The reader -----

  /** Reader state. `dispatched` is everything the listeners have been handed. */
  datatype State = State(buffer: string, closed: bool, dispatched: seq<Event>)

  const START := State("", false, [])

  predicate Any(es: seq<Event>, p: Event -> bool) {
    exists i | 0 <= i < |es| :: p(es[i])
  }

  /** One turn of the read loop. A listener that closes the stream does so for the next turn only. */
  function Fed(st: State, chunk: string, closes: Event -> bool): State {
    if st.closed then st
    else
      var events := Events(Complete(st.buffer + chunk));
      State(Remainder(st.buffer + chunk), Any(events, closes), st.dispatched + events)
  }

  function FedAll(st: State, chunks: seq<string>, closes: Event -> bool): State
    decreases |chunks|
  {
    if chunks == [] then st else FedAll(Fed(st, chunks[0], closes), chunks[1..], closes)
  }

  class Reader {
    var buffer: string
    var closed: bool
    var readyState: int
    var dispatched: seq<Event>
    /** Which events some listener answers with `close()`. */
    const closes: Event -> bool

    ghost function Abstract(): State
      reads this
    {
      State(buffer, closed, dispatched)
    }

    constructor (closes: Event -> bool)
      ensures Abstract() == START && this.closes == closes && readyState == 1
    {
      buffer, closed, readyState, dispatched := "", false, 1, [];
      this.closes := closes;
    }

    method Dispatch(event: Event)
      modifies this
      ensures dispatched == old(dispatched) + [event] && buffer == old(buffer)
      ensures closed == (old(closed) || closes(event))
      ensures readyState == if closes(event) then 2 else old(readyState)
    {
      dispatched := dispatched + [event];
      if closes(event) {
        closed, readyState := true, 2;
      }
    }

    method DispatchBlock(raw: string)
      modifies this
      ensures dispatched == old(dispatched) + EventsIn(raw) && buffer == old(buffer)
      ensures closed == (old(closed) || Any(EventsIn(raw), closes))
    {
      hide ParseBlock;
      if raw != "" {
        var event := ParseEvent(raw);
        if event.Some? {
          Dispatch(event.value);
          assert EventsIn(raw)[0] == event.value;
        }
      }
    }

    /** The body of the read loop, and nothing once the stream is closed. */
    method Feed(chunk: string)
      modifies this
      ensures Abstract() == Fed(old(Abstract()), chunk, closes)
    {
      hide Any, EventsIn, Blocks;
      if closed {
        return;
      }
      buffer := buffer + chunk;
      var events := Blocks(buffer);
      var complete := events[..|events| - 1];
      buffer := events[|events| - 1];
      NoneYet(closes);
      for i := 0 to |complete|
        invariant buffer == events[|events| - 1]
        invariant dispatched == old(dispatched) + Events(complete[..i])
        invariant closed <==> Any(Events(complete[..i]), closes)
      {
        assert complete[..i + 1] == complete[..i] + [complete[i]];
        EventsAppend(complete[..i], [complete[i]]);
        assert Events([complete[i]]) == EventsIn(complete[i]);
        AnyAppend(Events(complete[..i]), EventsIn(complete[i]), closes);
        DispatchBlock(complete[i]);
      }
      assert complete[..|complete|] == complete;
    }

    /** The whole read loop over the chunks that arrive. */
    method Run(chunks: seq<string>)
      modifies this
      ensures Abstract() == FedAll(old(Abstract()), chunks, closes)
      ensures readyState == 2
    {
      var i := 0;
      while i < |chunks| && !closed
        invariant 0 <= i <= |chunks|
        invariant FedAll(Abstract(), chunks[i..], closes) == FedAll(old(Abstract()), chunks, closes)
      {
        Feed(chunks[i]);
        assert chunks[i..][1..] == chunks[i + 1..];
        i := i + 1;
      }
      ClosedStays(Abstract(), chunks[i..], closes);
      readyState := 2;
    }
  }

  lemma NoneYet(p: Event -> bool)
    ensures !Any([], p)
  {
  }

  lemma AnyAppend(a: seq<Event>, b: seq<Event>, p: Event -> bool)
    ensures Any(a + b, p) <==> Any(a, p) || Any(b, p)
  {
    if Any(a, p) {
      var i :| 0 <= i < |a| && p(a[i]);
      assert p((a + b)[i]);
    }
    if Any(b, p) {
      var i :| 0 <= i < |b| && p(b[i]);
      assert p((a + b)[|a| + i]);
    }
  }

  lemma {:induction false} ClosedStays(st: State, chunks: seq<string>, closes: Event -> bool)
    requires st.closed || chunks == []
    ensures FedAll(st, chunks, closes) == st
    decreases |chunks|
  {
    if chunks != [] {
      ClosedStays(Fed(st, chunks[0], closes), chunks[1..], closes);
    }
  }

  // ----- Chunk invariance -----

  predicate AtSeparator(s: string) {
    |s| >= 2 && s[0] == '\n' && s[1] == '\n'
  }

  lemma BlocksPush(s: string)
    requires |s| >= 2 && !AtSeparator(s)
    ensures Blocks(s) == Push(s[0], Blocks(s[1..]))
    ensures |Blocks(s[1..])| > 1 ==> Complete(s) == Push(s[0], Complete(s[1..])) && Remainder(s) == Remainder(s[1..])
    ensures |Blocks(s[1..])| == 1 ==> Complete(s) == [] && Remainder(s) == s
  {
    if |Blocks(s[1..])| == 1 {
      WholeBlock(s[1..]);
      assert [s[0]] + s[1..] == s;
    }
  }

  lemma PushAppend(c: char, a: seq<string>, b: seq<string>)
    requires a != []
    ensures Push(c, a + b) == Push(c, a) + b
  {
  }

  lemma BlocksSkip(s: string)
    requires AtSeparator(s)
    ensures Blocks(s) == [""] + Blocks(s[2..])
    ensures Complete(s) == [""] + Complete(s[2..]) && Remainder(s) == Remainder(s[2..])
  {
  }

  /** Splitting more text continues from the remainder of the text split so far. */
  lemma {:induction false} BlocksAppend(s: string, t: string)
    ensures Blocks(s + t) == Complete(s) + Blocks(Remainder(s) + t)
  {
    if AtSeparator(s) {
      BlocksAppend(s[2..], t);
      AppendAtSeparator(s, t);
    } else if |s| >= 2 {
      BlocksAppend(s[1..], t);
      AppendAtCharacter(s, t);
    }
  }

  lemma AppendAtSeparator(s: string, t: string)
    requires AtSeparator(s) && Blocks(s[2..] + t) == Complete(s[2..]) + Blocks(Remainder(s[2..]) + t)
    ensures Blocks(s + t) == Complete(s) + Blocks(Remainder(s) + t)
  {
    hide Blocks, Complete, Remainder;
    assert (s + t)[2..] == s[2..] + t;
    BlocksSkip(s);
    BlocksSkip(s + t);
  }

  lemma AppendAtCharacter(s: string, t: string)
    requires |s| >= 2 && !AtSeparator(s) && Blocks(s[1..] + t) == Complete(s[1..]) + Blocks(Remainder(s[1..]) + t)
    ensures Blocks(s + t) == Complete(s) + Blocks(Remainder(s) + t)
  {
    hide Blocks, Push, Complete, Remainder;
    var whole := s + t;
    assert whole[1..] == s[1..] + t && whole[0] == s[0] && whole[1] == s[1];
    BlocksPush(s);
    BlocksPush(whole);
    if |Blocks(s[1..])| > 1 {
      ManyComplete(s[1..]);
      PushAppend(s[0], Complete(s[1..]), Blocks(Remainder(s) + t));
    } else {
      assert [] + Blocks(s + t) == Blocks(s + t);
    }
  }

  lemma ManyComplete(s: string)
    requires |Blocks(s)| > 1
    ensures Complete(s) != []
  {
  }

  lemma {:induction false} WholeBlock(s: string)
    requires |Blocks(s)| == 1
    ensures Blocks(s) == [s]
  {
    if |s| >= 2 {
      WholeBlock(s[1..]);
      assert [s[0]] + s[1..] == s;
    }
  }

  function Concat(chunks: seq<string>): string {
    if chunks == [] then "" else chunks[0] + Concat(chunks[1..])
  }

  /** All events of a text, read in one go. */
  function EventsOf(text: string): seq<Event> {
    Events(Complete(text))
  }

  lemma EventsOfAppend(s: string, t: string)
    ensures EventsOf(s + t) == EventsOf(s) + EventsOf(Remainder(s) + t)
    ensures Remainder(s + t) == Remainder(Remainder(s) + t)
  {
    BlocksAppend(s, t);
    assert Complete(s + t) == Complete(s) + Complete(Remainder(s) + t);
    EventsAppend(Complete(s), Complete(Remainder(s) + t));
  }

  /** How often the stream is cut, and where, does not matter as long as no listener closes it. */
  lemma {:induction false} ChunkInvariance(st: State, chunks: seq<string>, closes: Event -> bool)
    requires !st.closed && Blocks(st.buffer) == [st.buffer]
    requires !Any(EventsOf(st.buffer + Concat(chunks)), closes)
    ensures FedAll(st, chunks, closes) ==
      State(Remainder(st.buffer + Concat(chunks)), false, st.dispatched + EventsOf(st.buffer + Concat(chunks)))
    decreases |chunks|
  {
    hide Blocks, Complete, Remainder, Events, Any;
    if chunks == [] {
      assert st.buffer + "" == st.buffer;
      WholeHasNoEvents(st.buffer);
    } else {
      var first, rest := st.buffer + chunks[0], Concat(chunks[1..]);
      assert st.buffer + Concat(chunks) == first + rest;
      EventsOfAppend(first, rest);
      var next := Fed(st, chunks[0], closes);
      AnyAppend(EventsOf(first), EventsOf(next.buffer + rest), closes);
      RemainderWhole(first);
      ChunkInvariance(next, chunks[1..], closes);
    }
  }

  lemma WholeHasNoEvents(s: string)
    requires Blocks(s) == [s]
    ensures EventsOf(s) == [] && Remainder(s) == s
  {
  }

  lemma {:induction false} RemainderWhole(s: string)
    ensures Blocks(Remainder(s)) == [Remainder(s)]
  {
    if |s| >= 2 {
      if s[0] == '\n' && s[1] == '\n' {
        RemainderWhole(s[2..]);
      } else {
        RemainderWhole(s[1..]);
        if |Blocks(s[1..])| == 1 {
          WholeBlock(s[1..]);
          WholeBlock(s);
        }
      }
    }
  }

  /** Read from the start, the chunks give the events and the remainder of the text they make up. */
  lemma ReadsTheText(chunks: seq<string>, closes: Event -> bool)
    requires !Any(EventsOf(Concat(chunks)), closes)
    ensures FedAll(START, chunks, closes) == State(Remainder(Concat(chunks)), false, EventsOf(Concat(chunks)))
  {
    assert "" + Concat(chunks) == Concat(chunks);
    ChunkInvariance(START, chunks, closes);
  }
}
