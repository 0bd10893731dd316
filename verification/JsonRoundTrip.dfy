/** What reading a printed value gives: that value, with every surrogate pair in two pieces put together. */
module JsonRoundTrip {
  import opened Prelude
  import opened Json
  import opened JsonParser
  import opened Surrogates
  import Decimal
  import TextOrder

  // ----- Strings -----

  lemma HexRoundTrip(d: int)
    requires 0 <= d < 16
    ensures HexValue(HexDigit(d)) == Some(d)
  {
  }

  lemma UnitOfEscape(n: int, rest: string)
    requires 0 <= n < 0x1_0000
    ensures UnicodeUnit(UnicodeEscape(n) + rest) == Some(n)
  {
    HexRoundTrip(n / 16 / 16 / 16);
    HexRoundTrip(n / 16 / 16 % 16);
    HexRoundTrip(n / 16 % 16);
    HexRoundTrip(n % 16);
    var s := UnicodeEscape(n) + rest;
    assert s[2] == Hex4(n)[0] && s[3] == Hex4(n)[1] && s[4] == Hex4(n)[2] && s[5] == Hex4(n)[3];
  }

  lemma LowAheadOfUnit(n: Rune, rest: string)
    requires n < 0x1_0000
    ensures LowAhead(UnicodeEscape(n) + rest) <==> IsLow(n)
  {
    UnitOfEscape(n, rest);
    hide UnicodeEscape, UnicodeUnit;
  }

  /** What is printed for a rune starts with a low-surrogate escape only if the rune is one. */
  lemma LowAheadOfEscape(r: Rune, ascii: bool, rest: string)
    requires ascii || IsScalar(r)
    ensures LowAhead(EscapeRune(r, ascii) + rest) <==> IsLow(r)
  {
    var e := EscapeRune(r, ascii);
    var s := e + rest;
    EscapeShape(r, ascii);
    hide UnicodeEscape, HighHalf, LowHalf, EscapeRune, LowAhead, UnicodeUnit;
    if |e| == 6 {
      LowAheadOfUnit(r, rest);
    } else if |e| == 12 {
      LowAheadOfUnit(HighHalf(r), UnicodeEscape(LowHalf(r)) + rest);
      Regrouped(UnicodeEscape(HighHalf(r)), UnicodeEscape(LowHalf(r)), rest);
    } else {
      NoLowAhead(e, rest);
    }
  }

  lemma Regrouped(a: string, b: string, c: string)
    ensures a + b + c == a + (b + c)
  {
  }

  lemma NoLowAhead(e: string, rest: string)
    requires e != "" && (e[0] != '\\' || (|e| >= 2 && e[1] != 'u'))
    ensures !LowAhead(e + rest)
  {
    var s := e + rest;
    assert s[0] == e[0] && (|e| >= 2 ==> s[1] == e[1]);
  }

  /** A rune is printed as itself, as a letter behind a backslash, or as one or two units. */
  lemma EscapeShape(r: Rune, ascii: bool)
    requires ascii || IsScalar(r)
    ensures var e := EscapeRune(r, ascii);
      || (|e| == 1 && e[0] != '\\' && !IsLow(r))
      || (|e| == 2 && e[1] != 'u' && !IsLow(r))
      || (|e| == 6 && r < 0x1_0000 && e == UnicodeEscape(r))
      || (|e| == 12 && r >= 0x1_0000 && e == UnicodeEscape(HighHalf(r)) + UnicodeEscape(LowHalf(r)))
  {
    hide Hex4, HighHalf, LowHalf;
  }

  lemma HalvesCombine(r: Rune)
    requires r >= 0x1_0000
    ensures 0x1_0000 + (HighHalf(r) - 0xD800) * 1024 + (LowHalf(r) - 0xDC00) == r
  {
  }

  lemma ReadEscapedRune(r: Rune, ascii: bool, rest: string)
    requires ascii || IsScalar(r)
    requires IsHigh(r) ==> !LowAhead(rest)
    ensures ReadRune(EscapeRune(r, ascii) + rest) == Some((r, rest))
    ensures EscapeRune(r, ascii)[0] != '"'
  {
    EscapeShape(r, ascii);
    var e := EscapeRune(r, ascii);
    EscapeStarts(r, ascii);
    if |e| == 6 {
      hide EscapeRune, UnicodeEscape, LowAhead;
      ReadUnit(r, rest);
    } else if |e| == 12 {
      hide EscapeRune, UnicodeEscape, LowAhead, HighHalf, LowHalf;
      ReadTwoUnits(r, rest);
      Regrouped(UnicodeEscape(HighHalf(r)), UnicodeEscape(LowHalf(r)), rest);
    } else {
      ReadShort(r, ascii, rest);
    }
  }

  lemma EscapeStarts(r: Rune, ascii: bool)
    requires ascii || IsScalar(r)
    ensures EscapeRune(r, ascii)[0] != '"'
  {
    hide Hex4, HighHalf, LowHalf;
  }

  lemma ReadShort(r: Rune, ascii: bool, rest: string)
    requires (ascii || IsScalar(r)) && |EscapeRune(r, ascii)| <= 2
    ensures ReadRune(EscapeRune(r, ascii) + rest) == Some((r, rest))
  {
    hide UnicodeUnit, Hex4, HighHalf, LowHalf;
    var e := EscapeRune(r, ascii);
    var s := e + rest;
    assert s[0] == e[0] && s[|e|..] == rest;
    if |e| == 1 {
      assert Runes(s)[0] == r;
    } else {
      assert s[1] == e[1];
    }
  }

  lemma ReadUnit(n: Rune, rest: string)
    requires n < 0x1_0000 && (IsHigh(n) ==> !LowAhead(rest))
    ensures ReadRune(UnicodeEscape(n) + rest) == Some((n, rest))
  {
    UnitOfEscape(n, rest);
    var s := UnicodeEscape(n) + rest;
    hide Hex4, UnicodeUnit, LowAhead;
    assert s[0] == '\\' && s[1] == 'u' && s[6..] == rest;
  }

  lemma ReadTwoUnits(r: Rune, rest: string)
    requires r >= 0x1_0000
    ensures ReadRune(UnicodeEscape(HighHalf(r)) + (UnicodeEscape(LowHalf(r)) + rest)) == Some((r, rest))
  {
    var tail := UnicodeEscape(LowHalf(r)) + rest;
    var s := UnicodeEscape(HighHalf(r)) + tail;
    UnitOfEscape(HighHalf(r), tail);
    UnitOfEscape(LowHalf(r), rest);
    HalvesCombine(r);
    hide Hex4, UnicodeUnit, HighHalf, LowHalf, ReadRune;
    assert s[0] == '\\' && s[1] == 'u' && s[6..] == tail && tail[6..] == rest;
    ReadHalves(s, HighHalf(r), LowHalf(r));
  }

  lemma ReadHalves(s: string, high: Rune, low: Rune)
    requires |s| >= 6 && UnicodeUnit(s) == Some(high) && UnicodeUnit(s[6..]) == Some(low)
    requires s[0] == '\\' && s[1] == 'u' && IsHigh(high) && IsLow(low)
    requires 0x1_0000 + (high - 0xD800) * 1024 + (low - 0xDC00) <= 0x10_FFFF
    ensures ReadRune(s) == Some((0x1_0000 + (high - 0xD800) * 1024 + (low - 0xDC00), s[6..][6..]))
  {
    hide UnicodeUnit;
    assert s[12..] == s[6..][6..];
  }

  lemma {:induction false} LowAheadOfText(t: Text, style: Style, rest: string)
    requires PrintableText(t, style)
    ensures LowAhead(EscapeText(t, style) + "\"" + rest) <==> t != [] && IsLow(t[0])
  {
    var s := EscapeText(t, style) + "\"" + rest;
    if t == [] {
      assert s[0] == '"';
    } else {
      var more := EscapeText(t[1..], style) + "\"" + rest;
      assert s == EscapeRune(t[0], style.ascii) + more;
      LowAheadOfEscape(t[0], style.ascii, more);
    }
  }

  lemma {:induction false} ReadPairFreeText(t: Text, style: Style, rest: string)
    requires PrintableText(t, style) && PairFree(t)
    ensures ReadString(EscapeText(t, style) + "\"" + rest) == Some((t, rest))
  {
    var s := EscapeText(t, style) + "\"" + rest;
    if t == [] {
      assert s[0] == '"' && s[1..] == rest;
    } else {
      var e := EscapeRune(t[0], style.ascii);
      var more := EscapeText(t[1..], style) + "\"" + rest;
      assert s == e + more && s[0] == e[0];
      PairFreeTail(t);
      LowAheadOfText(t[1..], style, rest);
      ReadEscapedRune(t[0], style.ascii, more);
      ReadPairFreeText(t[1..], style, rest);
      assert t == [t[0]] + t[1..];
    }
  }

  lemma ReadEscapedText(t: Text, style: Style, rest: string)
    requires PrintableText(t, style)
    ensures ReadString(EscapeText(t, style) + "\"" + rest) == Some((Joined(t), rest))
  {
    hide ReadString, EscapeText, Joined;
    if style.ascii {
      JoinedPairFree(t);
      JoinedPrints(t, style);
    } else {
      ScalarPairFree(t);
      PairFreeJoined(t);
    }
    ReadPairFreeText(Joined(t), style, rest);
  }

  lemma {:induction false} ReadStringPairFree(s: string)
    requires ReadString(s).Some?
    ensures PairFree(ReadString(s).value.0)
    ensures var t := ReadString(s).value.0; t != [] && IsLow(t[0]) ==> LowAhead(s)
  {
    if s[0] != '"' {
      var t := ReadRune(s).value.1;
      ReadStringPairFree(t);
    }
  }

  // ----- Values -----

  predicate Delimited(rest: string) {
    rest == "" || !Decimal.IsDigit(rest[0])
  }

  lemma ReadDigits(m: nat, rest: string)
    requires Delimited(rest)
    ensures var t := Decimal.Numeral(m) + rest;
      var n := if StartsWith(t, '0') then 1 else Decimal.Span(t);
      n > 0 && Decimal.Value(t[..n]) == m && t[n..] == rest && t[0] != '-'
  {
    var d := Decimal.Numeral(m);
    var t := d + rest;
    assert t[0] == d[0];
    Decimal.SpanOf(d, rest);
    Decimal.ValueOfNumeral(m);
    if m > 0 {
      Decimal.NumeralNonzero(m);
    }
    assert t[..|d|] == d && t[|d|..] == rest;
  }

  lemma ReadPrintedInt(n: int, rest: string)
    requires Delimited(rest)
    ensures ReadInt(PrintInt(n) + rest) == Some((Int(n), rest))
  {
    hide Decimal.Span, Decimal.Value, Decimal.Numeral, Decimal.IsDigit, Decimal.AllDigits;
    var m: nat := if n < 0 then -n else n;
    var t := Decimal.Numeral(m) + rest;
    ReadDigits(m, rest);
    if n < 0 {
      var s := PrintInt(n) + rest;
      assert s == "-" + t;
      assert s[1..] == t;
    }
  }

  predicate StartsValue(c: char) {
    c in "\"{[ntf-0123456789"
  }

  lemma IntStart(n: int)
    ensures PrintInt(n) != "" && (PrintInt(n)[0] == '-' || Decimal.IsDigit(PrintInt(n)[0]))
  {
    var d := Decimal.Numeral(if n < 0 then -n else n);
    assert Decimal.IsDigit(d[0]);
  }

  lemma PrintedStart(v: Json, style: Style)
    requires Printable(v, style)
    ensures Print(v, style) != "" && StartsValue(Print(v, style)[0])
  {
    hide PrintInt, EscapeText, PrintItems, PrintMembers;
    if v.Int? {
      IntStart(v.n);
    }
  }

  lemma SkipNothing(s: string)
    requires s == "" || !IsBlank(s[0])
    ensures SkipBlanks(s) == s
  {
  }

  lemma SkipSeparator(style: Style, s: string)
    requires s == "" || !IsBlank(s[0])
    ensures SkipBlanks((Comma(style) + s)[1..]) == s
    ensures SkipBlanks((Colon(style) + s)[1..]) == s
  {
    if style.spaced {
      assert (Comma(style) + s)[1..] == " " + s && (Colon(style) + s)[1..] == " " + s;
      assert (" " + s)[1..] == s;
    } else {
      assert (Comma(style) + s)[1..] == s && (Colon(style) + s)[1..] == s;
    }
  }

  /** What the reader makes of the text of `v`. */
  function Reread(v: Json): Json
    decreases v, 1
  {
    match v
    case Str(t) => Str(Joined(t))
    case List(items) => List(seq(|items|, i requires 0 <= i < |items| => Reread(items[i])))
    case Obj(fields) => Obj(LastWins(RereadPairs(v, TextOrder.Sorted(fields.Keys))))
    case _ => v
  }

  function RereadPairs(v: Json, keys: seq<Text>): (ps: seq<(Text, Json)>)
    requires v.Obj? && forall k | k in keys :: k in v.fields
    ensures |ps| == |keys|
    decreases v, 0
  {
    seq(|keys|, i requires 0 <= i < |keys| => (Joined(keys[i]), Reread(v.fields[keys[i]])))
  }

  function RereadItems(items: seq<Json>): (r: seq<Json>)
    ensures |r| == |items| && forall i :: 0 <= i < |items| ==> r[i] == Reread(items[i])
  {
    Reread(List(items)).items
  }

  /** A reader that rejects duplicate keys gets through if no two keys can become one. */
  ghost predicate Legible(hook: Hook, v: Json, style: Style) {
    Printable(v, style) && (hook.RejectDuplicates? ==> Each(v, PairFree))
  }

  lemma {:induction false} ReadPrinted(hook: Hook, v: Json, style: Style, rest: string)
    requires Legible(hook, v, style) && Delimited(rest)
    ensures ReadValue(hook, Print(v, style) + rest) == Some((Reread(v), rest))
    decreases v, 1, 0
  {
    if v.List? {
      if v.items != [] {
        ReadPrintedItems(hook, v.items, style, rest);
      }
      ReadList(hook, v, style, rest);
    } else if v.Obj? {
      var keys := TextOrder.Sorted(v.fields.Keys);
      if keys != [] {
        ReadPrintedMembers(hook, v, keys, style, rest);
      }
      ReadObj(hook, v, style, rest);
    } else {
      ReadAtom(hook, v, style, rest);
    }
  }

  lemma ReadAtom(hook: Hook, v: Json, style: Style, rest: string)
    requires Printable(v, style) && Delimited(rest) && !v.List? && !v.Obj?
    ensures ReadValue(hook, Print(v, style) + rest) == Some((Reread(v), rest))
  {
    hide ReadInt, ReadString, ReadMembers, ReadItems, PrintInt, EscapeText, PrintItems, PrintMembers;
    var s := Print(v, style) + rest;
    if v.Null? {
      assert s[0] == 'n' && s[..4] == "null" && s[4..] == rest;
    } else if v.Bool? && v.b {
      assert s[0] == 't' && s[..4] == "true" && s[4..] == rest;
    } else if v.Bool? {
      assert s[0] == 'f' && s[..5] == "false" && s[5..] == rest;
    } else if v.Int? {
      IntStart(v.n);
      assert s[0] == PrintInt(v.n)[0];
      ReadPrintedInt(v.n, rest);
      NoLiteral(s);
    } else {
      assert s[0] == '"' && s[1..] == EscapeText(v.text, style) + "\"" + rest;
      ReadEscapedText(v.text, style, rest);
    }
  }

  lemma NoLiteral(s: string)
    requires s != "" && (s[0] == '-' || Decimal.IsDigit(s[0]))
    ensures !("null" <= s) && !("true" <= s) && !("false" <= s)
  {
  }

  lemma ReadList(hook: Hook, v: Json, style: Style, rest: string)
    requires v.List? && Legible(hook, v, style)
    requires forall x | x in v.items :: Printable(x, style)
    requires v.items != [] ==>
      ReadItems(hook, PrintItems(v.items, style) + "]" + rest) == Some((RereadItems(v.items), rest))
    ensures ReadValue(hook, Print(v, style) + rest) == Some((Reread(v), rest))
  {
    hide ReadValue, ReadItems, ReadMembers;
    var body := PrintItems(v.items, style) + "]" + rest;
    assert Print(v, style) + rest == "[" + body;
    if v.items == [] {
      assert body == "]" + rest && RereadItems(v.items) == [];
      ReadEmptyList(hook, rest);
    } else {
      PrintedStart(v.items[0], style);
      assert body[0] == Print(v.items[0], style)[0];
      ReadBrackets(hook, body, RereadItems(v.items), rest);
    }
  }

  lemma ReadEmptyList(hook: Hook, rest: string)
    ensures ReadValue(hook, "[" + ("]" + rest)) == Some((List([]), rest))
  {
    hide ReadItems, ReadMembers, ReadString, ReadInt;
    var body := "]" + rest;
    assert ("[" + body)[1..] == body && body[1..] == rest;
    SkipNothing(body);
  }

  lemma ReadBrackets(hook: Hook, body: string, items: seq<Json>, rest: string)
    requires body != "" && StartsValue(body[0]) && ReadItems(hook, body) == Some((items, rest))
    ensures ReadValue(hook, "[" + body) == Some((List(items), rest))
  {
    hide ReadItems, ReadMembers, ReadString, ReadInt;
    assert ("[" + body)[1..] == body;
    SkipNothing(body);
  }

  lemma ReadObj(hook: Hook, v: Json, style: Style, rest: string)
    requires v.Obj? && Legible(hook, v, style)
    requires var keys := TextOrder.Sorted(v.fields.Keys);
      keys != [] ==> ReadMembers(hook, PrintMembers(v, keys, style) + "}" + rest) == Some((RereadPairs(v, keys), rest))
    ensures ReadValue(hook, Print(v, style) + rest) == Some((Reread(v), rest))
  {
    hide ReadValue, ReadMembers, FromPairs, LastWins, PrintMembers, Each, RereadPairs;
    var keys := TextOrder.Sorted(v.fields.Keys);
    var body := PrintMembers(v, keys, style) + "}" + rest;
    assert Print(v, style) + rest == "{" + body;
    if keys == [] {
      NothingReread(v);
      NoMembers(v, style);
      assert body == "}" + rest;
      ReadEmptyObj(hook, rest);
    } else {
      MembersStart(v, keys, style);
      PairsCollected(hook, v, style);
      assert body[0] == PrintMembers(v, keys, style)[0];
      ReadBraces(hook, body, RereadPairs(v, keys), Reread(v).fields, rest);
    }
  }

  lemma NothingReread(v: Json)
    requires v.Obj? && TextOrder.Sorted(v.fields.Keys) == []
    ensures Reread(v) == Obj(map[])
  {
  }

  lemma NoMembers(v: Json, style: Style)
    requires v.Obj? && Printable(v, style)
    ensures PrintMembers(v, [], style) == ""
  {
  }

  lemma MembersStart(v: Json, keys: seq<Text>, style: Style)
    requires v.Obj? && Printable(v, style)
    requires keys != [] && forall k | k in keys :: k in v.fields
    ensures PrintMembers(v, keys, style) != "" && PrintMembers(v, keys, style)[0] == '"'
  {
    hide Print, EscapeText;
    assert keys[0] in v.fields;
  }

  lemma ReadEmptyObj(hook: Hook, rest: string)
    ensures ReadValue(hook, "{" + ("}" + rest)) == Some((Obj(map[]), rest))
  {
    hide ReadItems, ReadMembers, ReadString, ReadInt;
    var body := "}" + rest;
    assert ("{" + body)[1..] == body && body[1..] == rest;
    SkipNothing(body);
  }

  lemma ReadBraces(hook: Hook, body: string, pairs: seq<(Text, Json)>, fields: map<Text, Json>, rest: string)
    requires StartsWith(body, '"') && ReadMembers(hook, body) == Some((pairs, rest))
    requires Collect(hook, pairs) == Some(fields)
    ensures ReadValue(hook, "{" + body) == Some((Obj(fields), rest))
  {
    hide ReadItems, ReadMembers, ReadString, ReadInt;
    assert ("{" + body)[1..] == body;
    SkipNothing(body);
  }

  function RereadFields(fields: map<Text, Json>): (r: map<Text, Json>)
    ensures r.Keys == fields.Keys
  {
    map k | k in fields :: Reread(fields[k])
  }

  /** Keys without split pairs stay apart, and each keeps its own member. */
  lemma PairsRebuild(v: Json)
    requires v.Obj? && forall k | k in v.fields :: PairFree(k)
    ensures var pairs := RereadPairs(v, TextOrder.Sorted(v.fields.Keys));
      FromPairs(pairs) == Some(RereadFields(v.fields)) && LastWins(pairs) == RereadFields(v.fields)
  {
    hide Reread, Joined, LastWins, FromPairs, PairFree, TextOrder.Sorted, RereadPairs;
    var keys := TextOrder.Sorted(v.fields.Keys);
    var pairs := RereadPairs(v, keys);
    var fields := RereadFields(v.fields);
    forall i | 0 <= i < |keys| ensures pairs[i] == (keys[i], fields[keys[i]]) {
      assert keys[i] in v.fields;
      PairFreeJoined(keys[i]);
      PairAt(v, keys, i);
    }
    SortedPairs(fields, keys, pairs);
  }

  lemma PairAt(v: Json, keys: seq<Text>, i: nat)
    requires v.Obj? && (forall k | k in keys :: k in v.fields) && i < |keys|
    ensures RereadPairs(v, keys)[i] == (Joined(keys[i]), Reread(v.fields[keys[i]]))
  {
  }

  lemma SortedPairs(fields: map<Text, Json>, keys: seq<Text>, pairs: seq<(Text, Json)>)
    requires keys == TextOrder.Sorted(fields.Keys) && |pairs| == |keys|
    requires forall i :: 0 <= i < |keys| ==> pairs[i] == (keys[i], fields[keys[i]])
    ensures FromPairs(pairs) == Some(fields) && LastWins(pairs) == fields
  {
    hide LastWins, FromPairs, TextOrder.Sorted;
    FromPairsDistinct(pairs);
    FromPairsItems(pairs);
    HooksAgree(pairs);
    PairsAreItems(fields, keys, pairs);
    SameItems(FromPairs(pairs).value, fields);
  }

  lemma PairsAreItems(fields: map<Text, Json>, keys: seq<Text>, pairs: seq<(Text, Json)>)
    requires (forall k :: k in keys <==> k in fields) && |pairs| == |keys|
    requires forall i :: 0 <= i < |keys| ==> keys[i] in fields && pairs[i] == (keys[i], fields[keys[i]])
    ensures fields.Items == set p | p in pairs
  {
    forall p ensures p in fields.Items <==> p in pairs {
      if p in fields.Items {
        assert p.0 in keys;
        var i :| 0 <= i < |keys| && keys[i] == p.0;
        assert pairs[i] == p;
      }
    }
  }

  lemma {:induction false} RereadPairFree(v: Json)
    requires Each(v, PairFree)
    ensures Reread(v) == v
  {
    match v
    case Str(t) =>
      PairFreeJoined(t);
    case List(items) =>
      forall i | 0 <= i < |items| ensures Reread(items[i]) == items[i] {
        RereadPairFree(items[i]);
      }
      assert Reread(v).items == items;
    case Obj(fields) =>
      forall k | k in fields ensures Reread(fields[k]) == fields[k] {
        RereadPairFree(fields[k]);
      }
      FieldsRereadThemselves(v);
    case _ =>
  }

  lemma FieldsRereadThemselves(v: Json)
    requires v.Obj? && Each(v, PairFree)
    requires forall k | k in v.fields :: Reread(v.fields[k]) == v.fields[k]
    ensures Reread(v) == v
  {
    PairsRebuild(v);
    hide LastWins, FromPairs, RereadPairs, PairFree;
    assert RereadFields(v.fields) == v.fields;
  }

  lemma PairsCollected(hook: Hook, v: Json, style: Style)
    requires v.Obj? && Legible(hook, v, style)
    ensures Collect(hook, RereadPairs(v, TextOrder.Sorted(v.fields.Keys))) == Some(Reread(v).fields)
  {
    hide LastWins, FromPairs, RereadPairs, PairFree;
    if hook.RejectDuplicates? {
      PairsRebuild(v);
    }
  }

  lemma SameItems(m: map<Text, Json>, n: map<Text, Json>)
    requires m.Items == n.Items
    ensures m == n
  {
    forall k ensures k in m <==> k in n {
      if k in m { assert (k, m[k]) in n.Items; }
      if k in n { assert (k, n[k]) in m.Items; }
    }
    forall k | k in m ensures m[k] == n[k] {
      assert (k, m[k]) in n.Items;
    }
  }

  lemma {:induction false} ReadPrintedItems(hook: Hook, items: seq<Json>, style: Style, rest: string)
    requires items != [] && forall x :: x in items ==> Legible(hook, x, style)
    requires forall x | x in items :: Printable(x, style)
    ensures ReadItems(hook, PrintItems(items, style) + "]" + rest) == Some((RereadItems(items), rest))
    decreases items, 0, 0
  {
    hide ReadValue, ReadItems, ReadMembers, Print, PrintMembers, Each, Reread, RereadItems;
    var text := Print(items[0], style);
    RereadFirst(items);
    if |items| == 1 {
      ReadPrinted(hook, items[0], style, "]" + rest);
      LastItemStep(hook, text, Reread(items[0]), rest);
      Regrouped(text, "]", rest);
    } else {
      var more := PrintItems(items[1..], style);
      var next := more + "]" + rest;
      ReadPrinted(hook, items[0], style, Comma(style) + next);
      ItemsStart(items[1..], style, rest);
      ReadPrintedItems(hook, items[1..], style, rest);
      ItemStep(hook, text, Reread(items[0]), style, next);
      ItemParts(text, Comma(style), more, rest);
    }
  }

  lemma RereadFirst(items: seq<Json>)
    requires items != []
    ensures RereadItems(items) == [Reread(items[0])] + RereadItems(items[1..])
    ensures |items| == 1 ==> RereadItems(items) == [Reread(items[0])]
  {
  }

  lemma ItemsStart(items: seq<Json>, style: Style, rest: string)
    requires items != [] && forall x | x in items :: Printable(x, style)
    ensures var next := PrintItems(items, style) + "]" + rest; next != "" && !IsBlank(next[0])
  {
    PrintedStart(items[0], style);
    StartsNoBlank(Print(items[0], style)[0]);
    hide Print, IsBlank, Comma;
    assert (PrintItems(items, style) + "]" + rest)[0] == Print(items[0], style)[0];
  }

  lemma ItemParts(text: string, comma: string, more: string, rest: string)
    ensures text + comma + more + "]" + rest == text + (comma + (more + "]" + rest))
  {
    var tail := more + "]" + rest;
    assert text + comma + more + "]" + rest == text + comma + tail;
  }

  lemma LastItemStep(hook: Hook, text: string, x: Json, rest: string)
    requires ReadValue(hook, text + ("]" + rest)) == Some((x, "]" + rest))
    ensures ReadItems(hook, text + ("]" + rest)) == Some(([x], rest))
  {
    hide ReadValue, ReadKey;
    SkipNothing("]" + rest);
    assert ("]" + rest)[1..] == rest;
  }

  lemma ItemStep(hook: Hook, text: string, x: Json, style: Style, next: string)
    requires ReadValue(hook, text + (Comma(style) + next)) == Some((x, Comma(style) + next))
    requires next != "" && !IsBlank(next[0]) && ReadItems(hook, next).Some?
    ensures ReadItems(hook, text + (Comma(style) + next))
         == Some(([x] + ReadItems(hook, next).value.0, ReadItems(hook, next).value.1))
  {
    hide ReadValue, ReadKey;
    SkipNothing(Comma(style) + next);
    SkipSeparator(style, next);
  }

  lemma {:induction false} ReadPrintedMembers(hook: Hook, v: Json, keys: seq<Text>, style: Style, rest: string)
    requires v.Obj? && Legible(hook, v, style)
    requires keys != [] && forall k | k in keys :: k in v.fields
    ensures ReadMembers(hook, PrintMembers(v, keys, style) + "}" + rest) == Some((RereadPairs(v, keys), rest))
    decreases v, 0, |keys|
  {
    hide ReadValue, ReadItems, ReadMembers, ReadKey, Print, PrintItems, PrintString, PairFree, Reread, Joined;
    var k, x := keys[0], v.fields[keys[0]];
    assert k in v.fields;
    var key, text := PrintString(k, style) + Colon(style), Print(x, style);
    if |keys| == 1 {
      ReadPrinted(hook, x, style, "}" + rest);
      ReadPrintedKey(k, x, style, "}" + rest);
      LastMemberStep(hook, key, text, Joined(k), Reread(x), rest);
      assert PrintMembers(v, keys, style) + "}" + rest == key + (text + ("}" + rest));
      assert keys == [k] && RereadPairs(v, keys) == [(Joined(k), Reread(x))];
    } else {
      var next := PrintMembers(v, keys[1..], style) + "}" + rest;
      MembersStart(v, keys[1..], style);
      ReadPrinted(hook, x, style, Comma(style) + next);
      ReadPrintedKey(k, x, style, Comma(style) + next);
      ReadPrintedMembers(hook, v, keys[1..], style, rest);
      assert next[0] == PrintMembers(v, keys[1..], style)[0];
      MemberStep(hook, key, text, Joined(k), Reread(x), style, next);
      MembersText(v, keys, style, rest);
      assert RereadPairs(v, keys) == [(Joined(k), Reread(x))] + RereadPairs(v, keys[1..]);
    }
  }

  lemma MembersText(v: Json, keys: seq<Text>, style: Style, rest: string)
    requires v.Obj? && Printable(v, style)
    requires |keys| > 1 && forall k | k in keys :: k in v.fields
    ensures PrintMembers(v, keys, style) + "}" + rest
         == PrintString(keys[0], style) + Colon(style)
            + (Print(v.fields[keys[0]], style) + (Comma(style) + (PrintMembers(v, keys[1..], style) + "}" + rest)))
  {
    hide Print, PrintString, Comma, Colon;
    MemberParts(PrintString(keys[0], style) + Colon(style), Print(v.fields[keys[0]], style), Comma(style),
                PrintMembers(v, keys[1..], style), rest);
  }

  lemma MemberParts(key: string, text: string, comma: string, members: string, rest: string)
    ensures key + text + comma + members + "}" + rest == key + (text + (comma + (members + "}" + rest)))
  {
    var tail := members + "}" + rest;
    assert key + text + comma + members + "}" + rest == key + text + comma + tail;
    assert key + text + comma + tail == key + text + (comma + tail);
  }

  lemma ReadPrintedKey(k: Text, x: Json, style: Style, tail: string)
    requires PrintableText(k, style) && Printable(x, style)
    ensures ReadKey(PrintString(k, style) + Colon(style) + (Print(x, style) + tail))
         == Some((Joined(k), Print(x, style) + tail))
  {
    hide ReadString, EscapeText, Print, Joined;
    var value := Print(x, style) + tail;
    PrintedStart(x, style);
    assert value[0] == Print(x, style)[0];
    var colon := Colon(style) + value;
    var s := PrintString(k, style) + Colon(style) + value;
    assert s == "\"" + (EscapeText(k, style) + "\"" + colon);
    assert s[1..] == EscapeText(k, style) + "\"" + colon;
    ReadEscapedText(k, style, colon);
    SkipNothing(colon);
    SkipSeparator(style, value);
  }

  lemma LastMemberStep(hook: Hook, key: string, text: string, k: Text, x: Json, rest: string)
    requires ReadKey(key + (text + ("}" + rest))) == Some((k, text + ("}" + rest)))
    requires ReadValue(hook, text + ("}" + rest)) == Some((x, "}" + rest))
    ensures ReadMembers(hook, key + (text + ("}" + rest))) == Some(([(k, x)], rest))
  {
    hide ReadValue, ReadKey;
    SkipNothing("}" + rest);
    assert ("}" + rest)[1..] == rest;
  }

  lemma MemberStep(hook: Hook, key: string, text: string, k: Text, x: Json, style: Style, next: string)
    requires ReadKey(key + (text + (Comma(style) + next))) == Some((k, text + (Comma(style) + next)))
    requires ReadValue(hook, text + (Comma(style) + next)) == Some((x, Comma(style) + next))
    requires next != "" && !IsBlank(next[0]) && ReadMembers(hook, next).Some?
    ensures ReadMembers(hook, key + (text + (Comma(style) + next)))
         == Some(([(k, x)] + ReadMembers(hook, next).value.0, ReadMembers(hook, next).value.1))
  {
    hide ReadValue, ReadKey;
    SkipNothing(Comma(style) + next);
    SkipSeparator(style, next);
  }

  // ----- What reading can return -----

  lemma {:induction false} ReadValuePairFree(hook: Hook, s: string)
    requires ReadValue(hook, s).Some?
    ensures Each(ReadValue(hook, s).value.0, PairFree)
    decreases |s|, 0
  {
    if StartsWith(s, '"') {
      ReadStringPairFree(s[1..]);
    } else if StartsWith(s, '{') {
      var t := SkipBlanks(s[1..]);
      if !StartsWith(t, '}') {
        ReadMembersPairFree(hook, t);
        var pairs := ReadMembers(hook, t).value.0;
        HooksAgree(pairs);
        forall k | k in LastWins(pairs) ensures PairFree(k) && Each(LastWins(pairs)[k], PairFree) {
          LastWinsFrom(pairs, k);
        }
      }
    } else if StartsWith(s, '[') {
      var t := SkipBlanks(s[1..]);
      if !StartsWith(t, ']') {
        ReadItemsPairFree(hook, t);
      }
    }
  }

  lemma {:induction false} ReadItemsPairFree(hook: Hook, s: string)
    requires ReadItems(hook, s).Some?
    ensures forall x :: x in ReadItems(hook, s).value.0 ==> Each(x, PairFree)
    decreases |s|, 1
  {
    ReadValuePairFree(hook, s);
    var u := SkipBlanks(ReadValue(hook, s).value.1);
    if StartsWith(u, ',') {
      ReadItemsPairFree(hook, SkipBlanks(u[1..]));
    }
  }

  lemma {:induction false} ReadMembersPairFree(hook: Hook, s: string)
    requires ReadMembers(hook, s).Some?
    ensures forall p :: p in ReadMembers(hook, s).value.0 ==> PairFree(p.0) && Each(p.1, PairFree)
    decreases |s|, 0
  {
    ReadStringPairFree(s[1..]);
    var t := ReadKey(s).value.1;
    ReadValuePairFree(hook, t);
    var u := SkipBlanks(ReadValue(hook, t).value.1);
    if StartsWith(u, ',') {
      ReadMembersPairFree(hook, SkipBlanks(u[1..]));
    }
  }

  /** Whatever `json.loads` returns has no split surrogate pair in it. */
  lemma ParsePairFree(hook: Hook, s: string)
    requires Parse(hook, s).Some?
    ensures Each(Parse(hook, s).value, PairFree)
  {
    ReadValuePairFree(hook, SkipBlanks(s));
  }

  /** Every printed value can be read, and reads as itself exactly if it holds no split surrogate pair. */
  lemma PrintedReads(v: Json, style: Style)
    requires Printable(v, style)
    ensures Parse(KeepLast, Print(v, style)) == Some(Reread(v))
    ensures Reread(v) == v <==> Each(v, PairFree)
  {
    var s := Print(v, style);
    ParsePrinted(KeepLast, v, style);
    ParsePairFree(KeepLast, s);
    if Each(v, PairFree) {
      RereadPairFree(v);
    }
  }

  lemma ParsePrinted(hook: Hook, v: Json, style: Style)
    requires Legible(hook, v, style)
    ensures Parse(hook, Print(v, style)) == Some(Reread(v))
  {
    hide ReadValue, Print, Each, Reread;
    var s := Print(v, style);
    PrintedStart(v, style);
    StartsNoBlank(s[0]);
    SkipNothing(s);
    ReadPrinted(hook, v, style, "");
    assert s + "" == s;
  }

  lemma StartsNoBlank(c: char)
    requires StartsValue(c)
    ensures !IsBlank(c)
  {
  }

  lemma RereadIsPairFree(v: Json)
    ensures Each(Reread(v), PairFree)
  {
    PrintedReads(v, Style(true, false));
    ParsePairFree(KeepLast, Print(v, Style(true, false)));
  }

  lemma RereadObject(fields: map<Text, Json>)
    requires forall k | k in fields :: PairFree(k)
    ensures Reread(Obj(fields)) == Obj(RereadFields(fields))
  {
    PairsRebuild(Obj(fields));
  }

  /**
   * A string printed with ASCII escapes is read back with its split pairs joined, and so changed
   * if it has any, however members are collected.
   */
  lemma StringReadsJoined(hook: Hook, t: Text, style: Style)
    requires style.ascii
    ensures Parse(hook, Print(Str(t), style)) == Some(Str(Joined(t)))
    ensures Joined(t) == t <==> PairFree(t)
  {
    PrintedReads(Str(t), style);
    hide ReadValue, Print, Joined;
    var s := Print(Str(t), style);
    PrintedStart(Str(t), style);
    StartsNoBlank(s[0]);
    SkipNothing(s);
    ReadAtom(hook, Str(t), style, "");
    assert s + "" == s;
  }

  /** The exact extent of the round trip, for every printing style and either way of collecting members. */
  lemma RoundTrip(hook: Hook, v: Json, style: Style)
    requires Printable(v, style)
    ensures Parse(hook, Print(v, style)) == Some(v) <==> Each(v, PairFree)
  {
    hide Parse, Print, Reread;
    if Each(v, PairFree) {
      ParsePrinted(hook, v, style);
      RereadPairFree(v);
    }
    if Parse(hook, Print(v, style)) == Some(v) {
      ParsePairFree(hook, Print(v, style));
    }
  }

  /** One printed text comes from one value. */
  lemma PrintInjective(v: Json, w: Json, style: Style)
    requires Printable(v, style) && Printable(w, style)
    requires Each(v, PairFree) && Each(w, PairFree)
    requires Print(v, style) == Print(w, style)
    ensures v == w
  {
    RoundTrip(KeepLast, v, style);
    RoundTrip(KeepLast, w, style);
  }
}
