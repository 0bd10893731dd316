/** The port specification language: what it accepts, what it denotes, and the text it is printed back as. */
module Ports {
  import opened Prelude
  import opened Decimal
  import PyText

  /**
   * What a caller may hand in. The members of a list stand here as the text that `str`
   * makes of them; of any other kind of object only its truth value matters.
   */
  datatype PortInput = Items(items: seq<string>) | Words(text: string) | Other(truthy: bool)

  datatype Error =
    | InvalidValue(item: string) | OutOfRange(port: int)
    | InvalidRangeFormat(part: string) | InvalidRange(part: string) | InvalidToken(part: string)
    | Unsupported

  type Ports = Result<seq<int>, Error>

  predicate IsPort(n: int) { 1 <= n <= 65535 }

  predicate AllPorts(ps: seq<int>) {
    forall i | 0 <= i < |ps| :: IsPort(ps[i])
  }

  // ----- Numbers -----

  function Glued(parts: seq<string>): (s: string)
    requires forall p | p in parts :: AllDigits(p)
    ensures AllDigits(s)
  {
    if parts == [] then ""
    else
      var rest := Glued(parts[1..]);
      assert AllDigits(parts[0]) && AllDigits(rest);
      parts[0] + rest
  }

  const MAX_DIGITS := 4300

  /** At most 4300 digits, with single underscores allowed between them. */
  function ReadUnsigned(s: string): Option<nat> {
    var parts := Split(s, '_');
    if (forall p | p in parts :: p != "" && AllDigits(p)) && |Glued(parts)| <= MAX_DIGITS
    then Some(Value(Glued(parts)))
    else None
  }

  /** How `int` turns the decimal digits and blanks of all scripts into ASCII; ASCII text is left alone. */
  type Fold = string -> string

  ghost predicate Faithful(fold: Fold) {
    forall s | PyText.Ascii(s) :: fold(s) == s
  }

  /** `int(s)` of a stripped text. */
  function ReadInteger(fold: Fold, s: string): Option<int> {
    ReadAscii(fold(s))
  }

  function ReadAscii(s: string): Option<int> {
    var signed := s != "" && (s[0] == '-' || s[0] == '+');
    match ReadUnsigned(if signed then s[1..] else s)
    case None => None
    case Some(n) =>
      Some(if signed && s[0] == '-' then -(n as int) else n as int)
  }

  // ----- One member of a list, one part of a text -----

  function ReadItem(fold: Fold, item: string): Ports {
    match ReadInteger(fold, PyText.Strip(item))
    case None => Err(InvalidValue(item))
    case Some(n) => if IsPort(n) then Ok([n]) else Err(OutOfRange(n))
  }

  function Range(a: int, b: int): (r: seq<int>)
    requires a <= b
    ensures forall p :: p in r <==> a <= p <= b
  {
    var r := seq(b - a + 1, i => a + i);
    assert forall p | a <= p <= b :: p in r by {
      forall p | a <= p <= b ensures p in r {
        assert r[p - a] == p;
      }
    }
    r
  }

  function IndexOf(s: string, c: char): (i: nat)
    requires c in s
    ensures i < |s| && s[i] == c && c !in s[..i]
  {
    if s[0] == c then 0 else 1 + IndexOf(s[1..], c)
  }

  /** The two ends of a range, cut at its first hyphen. */
  function Ends(fold: Fold, t: string): Option<(int, int)>
    requires '-' in t
  {
    var i := IndexOf(t, '-');
    var a :- ReadInteger(fold, PyText.Strip(t[..i]));
    var b :- ReadInteger(fold, PyText.Strip(t[i + 1..]));
    Some((a, b))
  }

  function ReadPart(fold: Fold, part: string): Ports {
    var t := PyText.Strip(part);
    if t == "" then Ok([])
    else if '-' in t then
      match Ends(fold, t)
      case None => Err(InvalidRangeFormat(t))
      case Some((a, b)) => if 1 <= a <= b <= 65535 then Ok(Range(a, b)) else Err(InvalidRange(t))
    else
      match ReadInteger(fold, t)
      case None => Err(InvalidToken(t))
      case Some(n) => if IsPort(n) then Ok([n]) else Err(OutOfRange(n))
  }

  function ItemReader(fold: Fold): string -> Ports {
    (item: string) => ReadItem(fold, item)
  }

  function PartReader(fold: Fold): string -> Ports {
    (part: string) => ReadPart(fold, part)
  }

  // ----- The whole specification -----

  /** The ports of all words in order, or the error of the first bad one. */
  function Gather(words: seq<string>, read: string -> Ports): Ports {
    if words == [] then Ok([])
    else
      var first :- read(words[0]);
      var rest :- Gather(words[1..], read);
      Ok(first + rest)
  }

  predicate Ascending(ps: seq<int>) {
    forall i, j | 0 <= i < j < |ps| :: ps[i] < ps[j]
  }

  function Insert(p: int, ps: seq<int>): (r: seq<int>)
    requires Ascending(ps)
    ensures Ascending(r) && forall q :: q in r <==> q == p || q in ps
  {
    if ps == [] || p < ps[0] then [p] + ps
    else if p == ps[0] then ps
    else
      var rest := Insert(p, ps[1..]);
      Headed(ps[0], rest, ps, p);
      [ps[0]] + rest
  }

  lemma Headed(head: int, rest: seq<int>, ps: seq<int>, p: int)
    requires ps != [] && ps[0] == head && Ascending(ps) && Ascending(rest) && head < p
    requires forall q :: q in rest <==> q == p || q in ps[1..]
    ensures Ascending([head] + rest) && forall q :: q in [head] + rest <==> q == p || q in ps
  {
    forall i | 0 <= i < |rest| ensures head < rest[i] {
      assert rest[i] in rest;
    }
    assert ps == [head] + ps[1..];
  }

  /** `sorted(list(dict.fromkeys(ps)))` */
  function SortUnique(ps: seq<int>): (r: seq<int>)
    ensures Ascending(r) && forall q :: q in r <==> q in ps
  {
    if ps == [] then [] else Insert(ps[0], SortUnique(ps[1..]))
  }

  function Finished(r: Ports): Ports {
    match r
    case Ok(ps) => Ok(SortUnique(ps))
    case Err(e) => Err(e)
  }

  function Validate(fold: Fold, input: PortInput): Ports {
    match input
    case Items(items) => Finished(Gather(items, ItemReader(fold)))
    case Words(text) => if text == "" then Ok([]) else Finished(Gather(Split(text, ','), PartReader(fold)))
    case Other(truthy) => if truthy then Err(Unsupported) else Ok([])
  }

  /** `validate_port_specification`, with its loops. */
  method ValidatePortSpecification(fold: Fold, input: PortInput) returns (r: Ports)
    ensures r == Validate(fold, input)
  {
    hide ReadInteger, SortUnique, Split, IndexOf, PyText.Strip, Range;
    var ports: seq<int> := [];
    match input {
      case Items(items) =>
        NothingGathered(Gather(items, ItemReader(fold)));
        assert items[0..] == items;
        for i := 0 to |items|
          invariant Gather(items, ItemReader(fold)) == Continued(ports, Gather(items[i..], ItemReader(fold)))
        {
          GatherStep(items[i..], ItemReader(fold), ports);
          assert items[i..][1..] == items[i + 1..];
          var n := ReadInteger(fold, PyText.Strip(items[i]));
          if n.None? {
            return Err(InvalidValue(items[i]));
          }
          if !(1 <= n.value <= 65535) {
            return Err(OutOfRange(n.value));
          }
          ports := ports + [n.value];
        }
      case Words(text) =>
        if text == "" {
          return Ok([]);
        }
        var parts := Split(text, ',');
        NothingGathered(Gather(parts, PartReader(fold)));
        assert parts[0..] == parts;
        for i := 0 to |parts|
          invariant Gather(parts, PartReader(fold)) == Continued(ports, Gather(parts[i..], PartReader(fold)))
        {
          GatherStep(parts[i..], PartReader(fold), ports);
          assert parts[i..][1..] == parts[i + 1..];
          var part := PyText.Strip(parts[i]);
          if part == "" {
            continue;
          }
          if '-' in part {
            var hyphen := IndexOf(part, '-');
            var start := ReadInteger(fold, PyText.Strip(part[..hyphen]));
            var end := ReadInteger(fold, PyText.Strip(part[hyphen + 1..]));
            if start.None? || end.None? {
              return Err(InvalidRangeFormat(part));
            }
            if !(1 <= start.value <= end.value <= 65535) {
              return Err(InvalidRange(part));
            }
            ports := ports + Range(start.value, end.value);
          } else {
            var n := ReadInteger(fold, part);
            if n.None? {
              return Err(InvalidToken(part));
            }
            if !(1 <= n.value <= 65535) {
              return Err(OutOfRange(n.value));
            }
            ports := ports + [n.value];
          }
        }
      case Other(truthy) =>
        return if truthy then Err(Unsupported) else Ok([]);
    }
    assert ports + [] == ports;
    r := Ok(SortUnique(ports));
  }

  function Continued(ports: seq<int>, rest: Ports): Ports {
    match rest
    case Ok(more) => Ok(ports + more)
    case Err(e) => Err(e)
  }

  lemma NothingGathered(rest: Ports)
    ensures Continued([], rest) == rest
  {
    assert rest.Ok? ==> [] + rest.value == rest.value;
  }

  lemma GatherStep(words: seq<string>, read: string -> Ports, ports: seq<int>)
    requires words != []
    ensures Continued(ports, Gather(words, read)) == match read(words[0])
      case Err(e) => Err(e)
      case Ok(ps) => Continued(ports + ps, Gather(words[1..], read))
    ensures ports + [] == ports
  {
    if read(words[0]).Ok? && Gather(words[1..], read).Ok? {
      var ps, more := read(words[0]).value, Gather(words[1..], read).value;
      assert ports + (ps + more) == ports + ps + more;
    }
  }

  // ----- What a specification denotes -----

  /** The ports a part stands for, read off its text. */
  predicate PartDenotes(fold: Fold, part: string, p: int) {
    var t := PyText.Strip(part);
    if '-' in t then Ends(fold, t).Some? && Ends(fold, t).value.0 <= p <= Ends(fold, t).value.1
    else ReadInteger(fold, t) == Some(p)
  }

  lemma PartMeaning(fold: Fold, part: string, p: int)
    requires Faithful(fold) && ReadPart(fold, part).Ok?
    ensures p in ReadPart(fold, part).value <==> PartDenotes(fold, part, p)
    ensures p in ReadPart(fold, part).value ==> IsPort(p)
  {
    hide PyText.Strip, IndexOf, Split;
    NothingIsNoNumber(fold);
  }

  lemma NothingIsNoNumber(fold: Fold)
    requires Faithful(fold)
    ensures ReadInteger(fold, "").None?
  {
    assert "" in Split("", '_');
  }

  lemma AllArePorts(ports: seq<int>)
    requires forall p :: p in ports ==> IsPort(p)
    ensures AllPorts(ports)
  {
    forall i | 0 <= i < |ports| ensures IsPort(ports[i]) {
      assert ports[i] in ports;
    }
  }

  lemma {:induction false} GatherMeaning(words: seq<string>, read: string -> Ports)
    ensures Gather(words, read).Ok? <==> forall w :: w in words ==> read(w).Ok?
    ensures Gather(words, read).Ok? ==>
      forall p :: p in Gather(words, read).value <==> exists w :: w in words && p in read(w).value
  {
    if words != [] {
      GatherMeaning(words[1..], read);
      assert forall w :: w in words <==> w == words[0] || w in words[1..];
    }
  }

  /** The error reported is that of the first bad word. */
  lemma {:induction false} FirstBadWord(words: seq<string>, read: string -> Ports, i: nat)
    requires i < |words| && read(words[i]).Err? && forall j :: 0 <= j < i ==> read(words[j]).Ok?
    ensures Gather(words, read) == Err(read(words[i]).error)
  {
    if i > 0 {
      assert words[1..][i - 1] == words[i];
      forall j | 0 <= j < i - 1 ensures read(words[1..][j]).Ok? {
        assert words[1..][j] == words[j + 1];
      }
      FirstBadWord(words[1..], read, i - 1);
    }
  }

  /**
   * An accepted text yields a strictly increasing list of ports that holds exactly the union
   * of its numbers and ranges; it is accepted exactly when each of its parts is.
   */
  lemma TextMeaning(fold: Fold, text: string)
    requires Faithful(fold)
    ensures Validate(fold, Words(text)).Ok? <==> forall part :: part in Split(text, ',') ==> ReadPart(fold, part).Ok?
    ensures Validate(fold, Words(text)).Ok? ==>
      var ports := Validate(fold, Words(text)).value;
      && Ascending(ports) && AllPorts(ports)
      && forall p :: p in ports <==> exists part :: part in Split(text, ',') && PartDenotes(fold, part, p)
  {
    hide ReadPart, PartDenotes, SortUnique;
    var parts := Split(text, ',');
    if text == "" {
      BlankPart(fold);
      assert parts == [""];
    } else {
      hide Split;
      GatherMeaning(parts, PartReader(fold));
      if Validate(fold, Words(text)).Ok? {
        forall part, p | part in parts
          ensures p in ReadPart(fold, part).value <==> PartDenotes(fold, part, p)
          ensures p in ReadPart(fold, part).value ==> IsPort(p)
        {
          PartMeaning(fold, part, p);
        }
        AllArePorts(Validate(fold, Words(text)).value);
      }
    }
  }

  lemma BlankPart(fold: Fold)
    requires Faithful(fold)
    ensures ReadPart(fold, "") == Ok([]) && forall p :: !PartDenotes(fold, "", p)
  {
    NothingIsNoNumber(fold);
    PyText.StripNothing();
    hide PyText.Strip, ReadInteger, Ends, Range;
  }

  /** The same for a list, whose members are single numbers. */
  lemma ListMeaning(fold: Fold, items: seq<string>)
    ensures Validate(fold, Items(items)).Ok? <==>
      forall item :: item in items ==> var n := ReadInteger(fold, PyText.Strip(item)); n.Some? && IsPort(n.value)
    ensures Validate(fold, Items(items)).Ok? ==>
      var ports := Validate(fold, Items(items)).value;
      && Ascending(ports) && AllPorts(ports)
      && forall p :: p in ports <==> exists item :: item in items && ReadInteger(fold, PyText.Strip(item)) == Some(p)
  {
    hide ReadInteger, PyText.Strip, SortUnique;
    GatherMeaning(items, ItemReader(fold));
    forall item ensures var n := ReadInteger(fold, PyText.Strip(item));
        && (ReadItem(fold, item).Ok? <==> n.Some? && IsPort(n.value))
        && (ReadItem(fold, item).Ok? ==> ReadItem(fold, item).value == [n.value])
    {
    }
    hide ReadItem;
    if Validate(fold, Items(items)).Ok? {
      AllArePorts(Validate(fold, Items(items)).value);
    }
  }

  // ----- Printing and reading back -----

  function Numerals(ports: seq<int>): (r: seq<string>)
    requires AllPorts(ports)
    ensures |r| == |ports| && forall i :: 0 <= i < |ports| ==> r[i] == Numeral(ports[i])
  {
    seq(|ports|, i requires 0 <= i < |ports| => Numeral(ports[i]))
  }

  /** The argument of `-p` that the command builder prints. */
  function PortText(ports: seq<int>): string
    requires AllPorts(ports)
  {
    Join(Numerals(ports), ',')
  }

  lemma DigitsRead(fold: Fold, s: string)
    requires Faithful(fold) && s != "" && AllDigits(s) && |s| <= MAX_DIGITS
    ensures PyText.Strip(s) == s && '-' !in s && ',' !in s && ReadInteger(fold, s) == Some(Value(s))
  {
    hide PyText.Strip, PyText.Trimmed, Value, ReadUnsigned;
    DigitsPlain(s);
    PyText.StripTrimmed(s);
    UnsignedDigits(s);
  }

  lemma DigitsPlain(s: string)
    requires s != "" && AllDigits(s)
    ensures PyText.Trimmed(s) && PyText.Ascii(s) && '-' !in s && ',' !in s && s[0] != '+' && s[0] != '-'
  {
    hide PyText.IsSpace;
    DigitNoSpace(s[0]);
    DigitNoSpace(s[|s| - 1]);
  }

  lemma DigitNoSpace(c: char)
    requires IsDigit(c)
    ensures !PyText.IsSpace(c)
  {
  }

  lemma UnsignedDigits(s: string)
    requires s != "" && AllDigits(s) && |s| <= MAX_DIGITS
    ensures ReadUnsigned(s) == Some(Value(s))
  {
    hide Value, Split;
    SplitWithout(s, '_');
    assert s in [s];
    assert Glued([s]) == s by {
      assert [s][1..] == [];
      assert s + "" == s;
    }
  }

  /** A number below a power of ten has no more digits than that power has zeros. */
  lemma {:induction false} NumeralLength(n: nat, digits: nat)
    requires 1 <= digits <= 5 && n < [10, 100, 1000, 10000, 100000][digits - 1]
    ensures |Numeral(n)| <= digits
  {
    if n >= 10 {
      NumeralLength(n / 10, digits - 1);
    }
  }

  lemma PortReads(fold: Fold, p: int)
    requires Faithful(fold) && IsPort(p)
    ensures ReadPart(fold, Numeral(p)) == Ok([p]) && ',' !in Numeral(p)
  {
    hide ReadInteger, PyText.Strip;
    assert |Numeral(p)| <= 5 by { NumeralLength(p, 5); }
    DigitsRead(fold, Numeral(p));
    ValueOfNumeral(p);
  }

  lemma {:induction false} NumeralsGathered(fold: Fold, ports: seq<int>)
    requires Faithful(fold) && AllPorts(ports)
    ensures Gather(Numerals(ports), PartReader(fold)) == Ok(ports)
  {
    hide ReadPart, Numeral;
    if ports != [] {
      PortReads(fold, ports[0]);
      NumeralsGathered(fold, ports[1..]);
      assert Numerals(ports)[1..] == Numerals(ports[1..]);
      assert ports == [ports[0]] + ports[1..];
    }
  }

  lemma {:induction false} AscendingEqual(a: seq<int>, b: seq<int>)
    requires Ascending(a) && Ascending(b) && forall p :: p in a <==> p in b
    ensures a == b
  {
    assert a != [] ==> a[0] in a;
    assert b != [] ==> b[0] in b;
    if a != [] && b != [] {
      assert a[0] == b[0] by {
        assert a[0] in b && b[0] in a;
      }
      assert forall p :: p in a[1..] <==> p in a && p != a[0];
      assert forall p :: p in b[1..] <==> p in b && p != b[0];
      AscendingEqual(a[1..], b[1..]);
      assert a == [a[0]] + a[1..] && b == [b[0]] + b[1..];
    }
  }

  /** Reading the printed text gives back any strictly increasing list of ports. */
  lemma PrintedReadsBack(fold: Fold, ports: seq<int>)
    requires Faithful(fold) && AllPorts(ports)
    ensures Validate(fold, Words(PortText(ports))) == Ok(ports) <==> Ascending(ports)
  {
    if ports != [] {
      var numerals := Numerals(ports);
      forall w | w in numerals ensures ',' !in w {
        var i :| 0 <= i < |ports| && w == numerals[i];
        PortReads(fold, ports[i]);
      }
      SplitJoin(numerals, ',');
      assert Join(numerals, ',') != "" by { assert Numeral(ports[0]) != ""; }
      NumeralsGathered(fold, ports);
      hide SortUnique, Gather, Join, Split, Numerals;
      if Ascending(ports) {
        AscendingEqual(ports, SortUnique(ports));
      }
    }
  }

  /** Hence what the command builder prints means the same as what it was given, whatever that was. */
  lemma CommandKeepsPorts(fold: Fold, input: PortInput)
    requires Faithful(fold) && Validate(fold, input).Ok?
    ensures AllPorts(Validate(fold, input).value)
    ensures Validate(fold, Words(PortText(Validate(fold, input).value))) == Validate(fold, input)
  {
    hide ReadItem, ReadPart, Gather, PortText, SortUnique, Split, PartDenotes;
    match input {
      case Items(items) => ListMeaning(fold, items);
      case Words(text) => TextMeaning(fold, text);
      case Other(_) =>
    }
    PrintedReadsBack(fold, Validate(fold, input).value);
  }

  /** Two inputs are printed alike exactly when they denote the same ports. */
  lemma PrintedAlikeExactly(fold: Fold, x: PortInput, y: PortInput)
    requires Faithful(fold) && Validate(fold, x).Ok? && Validate(fold, y).Ok?
    ensures AllPorts(Validate(fold, x).value) && AllPorts(Validate(fold, y).value)
    ensures PortText(Validate(fold, x).value) == PortText(Validate(fold, y).value)
       <==> forall p :: p in Validate(fold, x).value <==> p in Validate(fold, y).value
  {
    CommandKeepsPorts(fold, x);
    CommandKeepsPorts(fold, y);
    PrintedReadsBack(fold, Validate(fold, x).value);
    PrintedReadsBack(fold, Validate(fold, y).value);
    var xs, ys := Validate(fold, x).value, Validate(fold, y).value;
    hide Validate, PortText;
    if forall p :: p in xs <==> p in ys {
      AscendingEqual(xs, ys);
    }
  }

  // ----- Which texts are numbers and ranges -----

  /** Groups of digits with single underscores between them, at most 4300 digits in all. */
  predicate DigitGroups(s: string, parts: seq<string>) {
    && parts != [] && s == Join(parts, '_') && (forall p | p in parts :: p != "" && AllDigits(p))
    && |Glued(parts)| <= 4300
  }

  /** The number that a text of digit groups stands for. */
  ghost predicate Denotes(s: string, n: nat) {
    exists parts :: DigitGroups(s, parts) && n == Value(Glued(parts))
  }

  lemma UnsignedExactly(s: string, n: nat)
    ensures ReadUnsigned(s) == Some(n) <==> Denotes(s, n)
  {
    hide Value, Join, Split, Glued;
    JoinSplit(s, '_');
    if ReadUnsigned(s) == Some(n) {
      assert DigitGroups(s, Split(s, '_'));
    }
    if parts :| DigitGroups(s, parts) && n == Value(Glued(parts)) {
      forall p | p in parts ensures '_' !in p { DigitsHaveNoBar(p); }
      SplitJoin(parts, '_');
    }
  }

  lemma DigitsHaveNoBar(s: string)
    requires AllDigits(s)
    ensures '_' !in s
  {
    assert !IsDigit('_');
  }

  /** An integer is such groups, with at most one sign in front. */
  lemma IntegerExactly(fold: Fold, s: string, n: int)
    requires Faithful(fold) && PyText.Ascii(s)
    ensures ReadInteger(fold, s) == Some(n) <==>
      || (n >= 0 && Denotes(s, n))
      || (n >= 0 && s != "" && s[0] == '+' && Denotes(s[1..], n))
      || (n <= 0 && s != "" && s[0] == '-' && Denotes(s[1..], -n))
  {
    var m := if n < 0 then -n else n;
    hide Denotes, ReadUnsigned;
    assert fold(s) == s;
    SignIsNoDigit(s, m);
    UnsignedExactly(s, m);
    if s != "" && (s[0] == '-' || s[0] == '+') {
      UnsignedExactly(s[1..], m);
    }
  }

  lemma SignIsNoDigit(s: string, n: nat)
    ensures Denotes(s, n) ==> s != "" && s[0] != '+' && s[0] != '-'
  {
    hide Value, Glued, Join;
    if parts :| DigitGroups(s, parts) && n == Value(Glued(parts)) {
      GroupsStart(s, parts);
    }
  }

  lemma GroupsStart(s: string, parts: seq<string>)
    requires DigitGroups(s, parts)
    ensures s != "" && IsDigit(s[0])
  {
    hide Glued;
    assert parts[0] in parts;
    assert s[0] == parts[0][0];
  }

  predicate FirstHyphen(t: string, i: int) {
    0 <= i < |t| && t[i] == '-' && '-' !in t[..i]
  }

  lemma FirstHyphenAt(t: string, i: int)
    requires FirstHyphen(t, i)
    ensures '-' in t && IndexOf(t, '-') == i
  {
    NoneBefore(t, i);
    NoneBefore(t, IndexOf(t, '-'));
  }

  lemma NoneBefore(t: string, i: int)
    requires 0 <= i <= |t| && '-' !in t[..i]
    ensures forall k :: 0 <= k < i ==> t[k] != '-'
  {
    forall k | 0 <= k < i ensures t[k] != '-' {
      assert t[..i][k] in t[..i];
    }
  }

  /**
   * Which parts are accepted, and the error otherwise: nothing, a port, or two integers around
   * the first hyphen that are ports in order.
   */
  lemma PartExactly(fold: Fold, part: string)
    ensures var t := PyText.Strip(part);
      && (t == "" ==> ReadPart(fold, part) == Ok([]))
      && (t != "" && '-' !in t ==>
            ReadPart(fold, part) == match ReadInteger(fold, t)
              case None => Err(InvalidToken(t))
              case Some(n) => if n < 1 || n > 65535 then Err(OutOfRange(n)) else Ok([n]))
      && (forall i :: FirstHyphen(t, i) ==>
            var a, b := ReadInteger(fold, PyText.Strip(t[..i])), ReadInteger(fold, PyText.Strip(t[i + 1..]));
            if a.None? || b.None? then ReadPart(fold, part) == Err(InvalidRangeFormat(t))
            else if 1 <= a.value && a.value <= b.value && b.value <= 65535
            then ReadPart(fold, part).Ok? && forall p :: p in ReadPart(fold, part).value <==> a.value <= p <= b.value
            else ReadPart(fold, part) == Err(InvalidRange(t)))
  {
    hide ReadInteger, PyText.Strip, IndexOf, Range;
    var t := PyText.Strip(part);
    forall i | FirstHyphen(t, i) ensures '-' in t && IndexOf(t, '-') == i {
      FirstHyphenAt(t, i);
    }
  }

  /** Nothing is asked for exactly by an empty list, by a text of blank parts, and by any other false value. */
  lemma NothingExactly(fold: Fold, input: PortInput)
    requires Faithful(fold)
    ensures Validate(fold, input) == Ok([]) <==> match input
      case Items(items) => items == []
      case Words(text) => forall part :: part in Split(text, ',') ==> PyText.Strip(part) == ""
      case Other(truthy) => !truthy
  {
    hide ReadInteger, SortUnique, Split, ReadPart, ReadItem, PyText.Strip, Gather;
    match input
    case Items(items) =>
      ItemsNotNothing(items, fold);
      NothingSorted(Gather(items, ItemReader(fold)));
    case Words(text) =>
      TextNothing(fold, text);
      NothingSorted(Gather(Split(text, ','), PartReader(fold)));
    case Other(_) =>
  }

  lemma TextNothing(fold: Fold, text: string)
    requires Faithful(fold)
    ensures (forall part :: part in Split(text, ',') ==> PyText.Strip(part) == "")
       <==> Gather(Split(text, ','), PartReader(fold)) == Ok([])
    ensures text == "" ==> Gather(Split(text, ','), PartReader(fold)) == Ok([])
  {
    hide PyText.Strip, ReadPart, Gather;
    if text == "" {
      BlankPart(fold);
      assert Split(text, ',') == [""];
    }
    hide Split;
    forall part ensures PyText.Strip(part) == "" <==> PartReader(fold)(part) == Ok([]) {
      PartNothing(fold, part);
    }
    GatherNothing(Split(text, ','), PartReader(fold));
  }

  lemma PartNothing(fold: Fold, part: string)
    ensures PyText.Strip(part) == "" <==> ReadPart(fold, part) == Ok([])
  {
    hide ReadInteger, IndexOf, Range, Ends, PyText.Strip;
    var t := PyText.Strip(part);
    if '-' in t && Ends(fold, t).Some? && 1 <= Ends(fold, t).value.0 <= Ends(fold, t).value.1 <= 65535 {
      assert Ends(fold, t).value.0 in Range(Ends(fold, t).value.0, Ends(fold, t).value.1);
    }
  }

  lemma {:induction false} GatherNothing(words: seq<string>, read: string -> Ports)
    ensures Gather(words, read) == Ok([]) <==> forall w :: w in words ==> read(w) == Ok([])
  {
    if words != [] {
      GatherNothing(words[1..], read);
      assert forall w :: w in words <==> w == words[0] || w in words[1..];
      if read(words[0]).Ok? && Gather(words[1..], read).Ok? {
        NothingJoined(read(words[0]).value, Gather(words[1..], read).value);
      }
    }
  }

  lemma NothingJoined(a: seq<int>, b: seq<int>)
    ensures a + b == [] <==> a == [] && b == []
  {
    assert |a + b| == |a| + |b|;
  }

  lemma NothingSorted(r: Ports)
    ensures Finished(r) == Ok([]) <==> r == Ok([])
  {
    if r.Ok? && r.value != [] {
      assert r.value[0] in SortUnique(r.value);
    }
  }

  lemma ItemsNotNothing(items: seq<string>, fold: Fold)
    ensures Gather(items, ItemReader(fold)) == Ok([]) <==> items == []
  {
    hide ReadInteger, PyText.Strip;
    if items != [] && Gather(items, ItemReader(fold)).Ok? {
      var first, rest := ReadItem(fold, items[0]).value, Gather(items[1..], ItemReader(fold)).value;
      assert |first + rest| == |first| + |rest|;
    }
  }

  /** The error is that of the first bad member: no number, or a number that is no port. */
  lemma ItemErrorExactly(fold: Fold, items: seq<string>, i: nat)
    requires i < |items|
    requires forall j :: 0 <= j < i ==>
      var n := ReadInteger(fold, PyText.Strip(items[j])); n.Some? && 1 <= n.value <= 65535
    requires var n := ReadInteger(fold, PyText.Strip(items[i])); n.None? || n.value < 1 || n.value > 65535
    ensures var n := ReadInteger(fold, PyText.Strip(items[i]));
      Validate(fold, Items(items)) == Err(if n.None? then InvalidValue(items[i]) else OutOfRange(n.value))
  {
    hide ReadInteger, PyText.Strip;
    FirstBadWord(items, ItemReader(fold), i);
  }

  /** Of a text it is that of the first bad part. */
  lemma TextErrorExactly(fold: Fold, text: string, i: nat)
    requires Faithful(fold) && i < |Split(text, ',')| && ReadPart(fold, Split(text, ',')[i]).Err?
    requires forall j :: 0 <= j < i ==> ReadPart(fold, Split(text, ',')[j]).Ok?
    ensures Validate(fold, Words(text)) == Err(ReadPart(fold, Split(text, ',')[i]).error)
  {
    hide ReadPart, PyText.Strip, Gather, SortUnique, Split;
    NoTextReads(fold);
    assert text != "";
    FirstBadWord(Split(text, ','), PartReader(fold), i);
  }

  lemma NoTextReads(fold: Fold)
    requires Faithful(fold)
    ensures forall i :: 0 <= i < |Split("", ',')| ==> ReadPart(fold, Split("", ',')[i]).Ok?
  {
    hide ReadPart;
    BlankPart(fold);
    assert Split("", ',') == [""];
  }
}
