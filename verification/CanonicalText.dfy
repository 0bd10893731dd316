/** Which text is the canonical one: the shortest, in printable characters and lower-case escapes. */
module CanonicalText {
  import opened Prelude
  import opened Json
  import opened JsonParser
  import Decimal
  import TextOrder

  /** What may stand in a text: no control character, and with ASCII escapes nothing above the tilde. */
  predicate Plain(s: string, ascii: bool) {
    forall i | 0 <= i < |s| :: ' ' <= s[i] && (ascii ==> s[i] <= '~')
  }

  // ----- No escape is longer than it must be -----

  lemma RuneShortest(s: string, ascii: bool)
    requires Plain(s, ascii) && ReadRune(s).Some? && s[0] != '"'
    requires ascii || IsScalar(ReadRune(s).value.0)
    ensures |EscapeRune(ReadRune(s).value.0, ascii)| + |ReadRune(s).value.1| <= |s|
  {
    hide UnicodeUnit, UnicodeEscape, HighHalf, LowHalf;
    if s[0] == '\\' && s[1] == 'u' {
      UnitLength(s);
      UnitLength(s[6..]);
    }
  }

  lemma UnitLength(s: string)
    ensures UnicodeUnit(s).Some? ==> |s| >= 6
  {
  }

  lemma {:induction false} StringShortest(s: string, style: Style)
    requires Plain(s, style.ascii) && ReadString(s).Some? && PrintableText(ReadString(s).value.0, style)
    ensures |EscapeText(ReadString(s).value.0, style)| + 1 + |ReadString(s).value.1| <= |s|
    ensures Plain(ReadString(s).value.1, style.ascii)
  {
    hide EscapeRune;
    if s[0] != '"' {
      var (r, t) := ReadRune(s).value;
      var rs := ReadString(t).value.0;
      assert ([r] + rs)[0] == r && ([r] + rs)[1..] == rs;
      RuneLeavesPlain(s, style.ascii);
      StringShortest(t, style);
      RuneShortest(s, style.ascii);
    }
  }

  lemma RuneLeavesPlain(s: string, ascii: bool)
    requires Plain(s, ascii) && ReadRune(s).Some?
    ensures Plain(ReadRune(s).value.1, ascii)
  {
    hide UnicodeUnit;
    var t := ReadRune(s).value.1;
    assert t == s[1..] || t == s[2..] || t == s[6..] || t == s[12..];
  }

  // ----- No number is longer than it must be -----

  lemma {:induction false} NumeralShortest(d: string)
    requires d != "" && Decimal.AllDigits(d)
    ensures |Decimal.Numeral(Decimal.Value(d))| <= |d|
  {
    var init := d[..|d| - 1];
    if init != "" {
      NumeralShortest(init);
      var n := Decimal.Value(d);
      assert n / 10 == Decimal.Value(init);
    }
  }

  lemma IntShortest(s: string, ascii: bool)
    requires Plain(s, ascii) && ReadInt(s).Some?
    ensures |PrintInt(ReadInt(s).value.0.n)| + |ReadInt(s).value.1| <= |s|
    ensures Plain(ReadInt(s).value.1, ascii) && ReadInt(s).value.0.Int?
  {
    var t := if StartsWith(s, '-') then s[1..] else s;
    var n := if StartsWith(t, '0') then 1 else Decimal.Span(t);
    assert Decimal.AllDigits(t[..n]);
    NumeralShortest(t[..n]);
    hide Decimal.Numeral, Decimal.Value, Decimal.Span, Plain;
    PlainTail(s, |s| - |t|, ascii);
    PlainTail(t, n, ascii);
  }

  // ----- Members may be listed in any order -----

  /** The text of a member, its colon, and a comma or brace after it. */
  function MemberLength(p: (Text, Json), style: Style): nat
    requires PrintableText(p.0, style) && Printable(p.1, style)
  {
    |PrintString(p.0, style)| + |Print(p.1, style)| + 2
  }

  predicate MembersPrintable(ps: seq<(Text, Json)>, style: Style) {
    forall p | p in ps :: PrintableText(p.0, style) && Printable(p.1, style)
  }

  function MembersLength(ps: seq<(Text, Json)>, style: Style): nat
    requires MembersPrintable(ps, style)
  {
    if ps == [] then 0 else MemberLength(ps[0], style) + MembersLength(ps[1..], style)
  }

  lemma {:induction false} LengthWithout(ps: seq<(Text, Json)>, j: nat, style: Style)
    requires MembersPrintable(ps, style) && j < |ps|
    ensures MembersPrintable(ps[..j] + ps[j + 1..], style)
    ensures MembersLength(ps, style) == MemberLength(ps[j], style) + MembersLength(ps[..j] + ps[j + 1..], style)
  {
    hide MemberLength, Print, Printable, PrintableText;
    var qs := ps[..j] + ps[j + 1..];
    assert forall p :: p in qs ==> p in ps;
    if j == 0 {
      assert qs == ps[1..];
    } else {
      LengthWithout(ps[1..], j - 1, style);
      assert qs[0] == ps[0] && qs[1..] == ps[1..][..j - 1] + ps[1..][j..];
    }
  }

  lemma Without<T>(xs: seq<T>, j: nat)
    requires j < |xs|
    ensures multiset(xs) == multiset{xs[j]} + multiset(xs[..j] + xs[j + 1..])
  {
    assert xs == xs[..j] + [xs[j]] + xs[j + 1..];
  }

  lemma Cancelled<T>(x: T, a: multiset<T>, b: multiset<T>)
    requires multiset{x} + a == multiset{x} + b
    ensures a == b
  {
    assert a == multiset{x} + a - multiset{x} && b == multiset{x} + b - multiset{x};
  }

  lemma {:induction false} LengthOfAnyOrder(ps: seq<(Text, Json)>, qs: seq<(Text, Json)>, style: Style)
    requires MembersPrintable(ps, style) && MembersPrintable(qs, style) && multiset(ps) == multiset(qs)
    ensures MembersLength(ps, style) == MembersLength(qs, style)
  {
    hide MemberLength, Print, Printable, PrintableText;
    if ps == [] {
      assert |qs| == |multiset(qs)|;
    } else {
      assert ps[0] in multiset(qs);
      var j :| 0 <= j < |qs| && qs[j] == ps[0];
      var rest := qs[..j] + qs[j + 1..];
      Without(ps, 0);
      Without(qs, j);
      assert ps[..0] + ps[0 + 1..] == ps[1..];
      Cancelled(ps[0], multiset(ps[1..]), multiset(rest));
      LengthWithout(qs, j, style);
      LengthOfAnyOrder(ps[1..], rest, style);
    }
  }

  /** The members of a dictionary in the order of its keys. */
  function MembersOf(fields: map<Text, Json>, keys: seq<Text>): (ps: seq<(Text, Json)>)
    requires forall k | k in keys :: k in fields
    ensures |ps| == |keys| && forall i :: 0 <= i < |keys| ==> ps[i] == (keys[i], fields[keys[i]])
  {
    seq(|keys|, i requires 0 <= i < |keys| => (keys[i], fields[keys[i]]))
  }

  lemma {:induction false} PrintedLength(v: Json, keys: seq<Text>, style: Style)
    requires v.Obj? && Printable(v, style) && !style.spaced
    requires keys != [] && forall k | k in keys :: k in v.fields
    ensures MembersPrintable(MembersOf(v.fields, keys), style)
    ensures |PrintMembers(v, keys, style)| + 1 == MembersLength(MembersOf(v.fields, keys), style)
  {
    hide Print, PrintString;
    var ps := MembersOf(v.fields, keys);
    forall p | p in ps ensures PrintableText(p.0, style) && Printable(p.1, style) {
      assert p.0 in v.fields && p.1 == v.fields[p.0];
    }
    assert keys[0] in v.fields;
    if |keys| == 1 {
      assert ps[1..] == [];
    } else {
      PrintedLength(v, keys[1..], style);
      assert ps[1..] == MembersOf(v.fields, keys[1..]);
    }
  }

  /** Collected without duplicates, the members of a text are those of the dictionary, each once. */
  lemma CollectedMembers(pairs: seq<(Text, Json)>)
    requires FromPairs(pairs).Some?
    ensures var fields := FromPairs(pairs).value;
      multiset(MembersOf(fields, TextOrder.Sorted(fields.Keys))) == multiset(pairs)
  {
    FromPairsDistinct(pairs);
    FromPairsItems(pairs);
    hide FromPairs, TextOrder.Sorted, MembersOf;
    var fields := FromPairs(pairs).value;
    var keys := TextOrder.Sorted(fields.Keys);
    var ps := MembersOf(fields, keys);
    forall p ensures p in ps <==> p in pairs {
      if p in ps {
        assert p in fields.Items;
      }
      if p in pairs {
        assert p in fields.Items;
        assert p.0 in keys;
        var i :| 0 <= i < |keys| && keys[i] == p.0;
        assert ps[i] == p;
      }
    }
    OnceEach(ps, pairs);
  }

  lemma OnceEach<T>(a: seq<T>, b: seq<T>)
    requires forall i, j :: 0 <= i < j < |a| ==> a[i] != a[j]
    requires forall i, j :: 0 <= i < j < |b| ==> b[i] != b[j]
    requires forall x :: x in a <==> x in b
    ensures multiset(a) == multiset(b)
  {
    forall x ensures multiset(a)[x] == multiset(b)[x] {
      AtMostOnce(a, x);
      AtMostOnce(b, x);
    }
  }

  lemma {:induction false} AtMostOnce<T>(a: seq<T>, x: T)
    requires forall i, j :: 0 <= i < j < |a| ==> a[i] != a[j]
    ensures multiset(a)[x] == if x in a then 1 else 0
  {
    if a != [] {
      var init, last := a[..|a| - 1], a[|a| - 1];
      assert a == init + [last];
      AtMostOnce(init, x);
    }
  }

  // ----- No value is longer than it must be -----

  lemma SkipShortens(s: string, ascii: bool)
    requires Plain(s, ascii)
    ensures Plain(SkipBlanks(s), ascii)
    decreases |s|
  {
    if s != "" && IsBlank(s[0]) {
      SkipShortens(s[1..], ascii);
    }
  }

  lemma {:induction false} ValueShortest(s: string, style: Style)
    requires Plain(s, style.ascii) && !style.spaced && ReadValue(RejectDuplicates, s).Some?
    requires Printable(ReadValue(RejectDuplicates, s).value.0, style)
    ensures var (v, rest) := ReadValue(RejectDuplicates, s).value;
      |Print(v, style)| + |rest| <= |s| && Plain(rest, style.ascii)
    decreases |s|, 0
  {
    hide PrintInt, EscapeText, PrintItems, PrintMembers, ReadInt, FromPairs, Plain;
    if StartsWith(s, '"') {
      PlainTail(s, 1, style.ascii);
      StringShortest(s[1..], style);
    } else if StartsWith(s, '{') {
      PlainTail(s, 1, style.ascii);
      SkipShortens(s[1..], style.ascii);
      var t := SkipBlanks(s[1..]);
      if StartsWith(t, '}') {
        PlainTail(t, 1, style.ascii);
        EmptyObjLength(style);
      } else {
        var (pairs, rest) := ReadMembers(RejectDuplicates, t).value;
        PairsPrintable(pairs, style);
        MembersShortest(t, style);
        ObjLength(pairs, style);
      }
    } else if StartsWith(s, '[') {
      PlainTail(s, 1, style.ascii);
      SkipShortens(s[1..], style.ascii);
      var t := SkipBlanks(s[1..]);
      if StartsWith(t, ']') {
        PlainTail(t, 1, style.ascii);
        EmptyListLength(style);
      } else {
        ItemsShortest(t, style);
        ListLength(ReadItems(RejectDuplicates, t).value.0, style);
      }
    } else if "null" <= s || "true" <= s {
      PlainTail(s, 4, style.ascii);
    } else if "false" <= s {
      PlainTail(s, 5, style.ascii);
    } else {
      IntShortest(s, style.ascii);
    }
  }

  lemma PlainTail(s: string, n: nat, ascii: bool)
    requires Plain(s, ascii) && n <= |s|
    ensures Plain(s[n..], ascii)
  {
  }

  lemma EmptyObjLength(style: Style)
    ensures |Print(Obj(map[]), style)| == 2
  {
    var none: map<Text, Json> := map[];
    assert none.Keys == {} && TextOrder.Sorted({}) == [];
  }

  lemma EmptyListLength(style: Style)
    ensures |Print(List([]), style)| == 2
  {
  }

  lemma ListLength(items: seq<Json>, style: Style)
    requires forall x | x in items :: Printable(x, style)
    requires Printable(List(items), style)
    ensures |Print(List(items), style)| == 2 + |PrintItems(items, style)|
  {
    hide PrintItems;
  }

  lemma PairsPrintable(pairs: seq<(Text, Json)>, style: Style)
    requires FromPairs(pairs).Some? && Printable(Obj(FromPairs(pairs).value), style)
    ensures MembersPrintable(pairs, style)
  {
    FromPairsItems(pairs);
    hide FromPairs;
    var fields := FromPairs(pairs).value;
    forall p | p in pairs ensures PrintableText(p.0, style) && Printable(p.1, style) {
      assert p in fields.Items;
      assert p.0 in fields && fields[p.0] == p.1;
    }
  }

  lemma BracedLength(v: Json, style: Style)
    requires v.Obj? && Printable(v, style)
    ensures |Print(v, style)| == 2 + |PrintMembers(v, TextOrder.Sorted(v.fields.Keys), style)|
  {
    hide PrintMembers;
  }

  lemma ObjLength(pairs: seq<(Text, Json)>, style: Style)
    requires pairs != [] && !style.spaced && MembersPrintable(pairs, style)
    requires FromPairs(pairs).Some? && Printable(Obj(FromPairs(pairs).value), style)
    ensures |Print(Obj(FromPairs(pairs).value), style)| == 1 + MembersLength(pairs, style)
  {
    var v := Obj(FromPairs(pairs).value);
    var keys := TextOrder.Sorted(v.fields.Keys);
    CollectedMembers(pairs);
    assert keys != [] by {
      assert pairs[0] in multiset(pairs);
    }
    hide FromPairs, PrintMembers, MembersLength, MembersPrintable, MembersOf, TextOrder.Sorted, Printable, Each;
    PrintedLength(v, keys, style);
    LengthOfAnyOrder(MembersOf(v.fields, keys), pairs, style);
    BracedLength(v, style);
  }

  lemma {:induction false} ItemsShortest(s: string, style: Style)
    requires Plain(s, style.ascii) && !style.spaced && ReadItems(RejectDuplicates, s).Some?
    requires forall x | x in ReadItems(RejectDuplicates, s).value.0 :: Printable(x, style)
    ensures var (items, rest) := ReadItems(RejectDuplicates, s).value;
      |PrintItems(items, style)| + 1 + |rest| <= |s| && Plain(rest, style.ascii)
    decreases |s|, 1
  {
    hide Print, ReadValue, Plain, Printable;
    var (v, t) := ReadValue(RejectDuplicates, s).value;
    var u := SkipBlanks(t);
    assert ReadItems(RejectDuplicates, s).value.0[0] == v;
    ValueShortest(s, style);
    SkipShortens(t, style.ascii);
    PlainTail(u, 1, style.ascii);
    if !StartsWith(u, ']') {
      SkipShortens(u[1..], style.ascii);
      var more := ReadItems(RejectDuplicates, SkipBlanks(u[1..])).value.0;
      assert forall x :: x in more ==> x in [v] + more;
      ItemsShortest(SkipBlanks(u[1..]), style);
      assert ([v] + more)[1..] == more;
    }
  }

  lemma {:induction false} MembersShortest(s: string, style: Style)
    requires Plain(s, style.ascii) && !style.spaced && ReadMembers(RejectDuplicates, s).Some?
    requires MembersPrintable(ReadMembers(RejectDuplicates, s).value.0, style)
    ensures var (pairs, rest) := ReadMembers(RejectDuplicates, s).value;
      MembersLength(pairs, style) + |rest| <= |s| && Plain(rest, style.ascii)
    decreases |s|, 0
  {
    hide Print, ReadValue, ReadKey, Plain, Printable, PrintableText, PrintString;
    var (k, t) := ReadKey(s).value;
    var (v, u) := ReadValue(RejectDuplicates, t).value;
    var w := SkipBlanks(u);
    var pairs := ReadMembers(RejectDuplicates, s).value.0;
    assert pairs[0] == (k, v);
    assert pairs[0] in pairs;
    KeyShortest(s, style);
    ValueShortest(t, style);
    SkipShortens(u, style.ascii);
    PlainTail(w, 1, style.ascii);
    if StartsWith(w, '}') {
      assert pairs[1..] == [];
    } else {
      SkipShortens(w[1..], style.ascii);
      var more := ReadMembers(RejectDuplicates, SkipBlanks(w[1..])).value.0;
      assert pairs[1..] == more;
      assert forall p :: p in more ==> p in pairs;
      MembersShortest(SkipBlanks(w[1..]), style);
    }
  }

  lemma KeyShortest(s: string, style: Style)
    requires Plain(s, style.ascii) && ReadKey(s).Some? && PrintableText(ReadKey(s).value.0, style)
    ensures var (k, t) := ReadKey(s).value;
      |PrintString(k, style)| + 1 + |t| <= |s| && Plain(t, style.ascii)
  {
    hide ReadString, EscapeText, Plain;
    PlainTail(s, 1, style.ascii);
    StringShortest(s[1..], style);
    var u := SkipBlanks(ReadString(s[1..]).value.1);
    SkipShortens(ReadString(s[1..]).value.1, style.ascii);
    PlainTail(u, 1, style.ascii);
    SkipShortens(u[1..], style.ascii);
  }

  /** No text in those characters that is read as a value, without duplicate keys, is shorter than the compact one. */
  lemma CompactIsShortest(s: string, style: Style)
    requires Plain(s, style.ascii) && !style.spaced && Parse(RejectDuplicates, s).Some?
    requires Printable(Parse(RejectDuplicates, s).value, style)
    ensures |Print(Parse(RejectDuplicates, s).value, style)| <= |s|
  {
    hide ReadValue, Print, Printable, Plain;
    SkipShortens(s, style.ascii);
    ValueShortest(SkipBlanks(s), style);
  }

  // ----- And it is one of those texts -----

  lemma EscapePlain(r: Rune, ascii: bool)
    requires ascii || IsScalar(r)
    ensures Plain(EscapeRune(r, ascii), ascii)
    ensures |EscapeRune(r, ascii)| >= 6 ==> forall c :: c in EscapeRune(r, ascii) ==> !('A' <= c <= 'Z')
  {
    hide HighHalf, LowHalf, HexDigit;
    forall d | 0 <= d < 16 ensures var c := HexDigit(d); ' ' <= c <= '~' && !('A' <= c <= 'Z') {
      HexLower(d);
    }
  }

  lemma HexLower(d: int)
    requires 0 <= d < 16
    ensures var c := HexDigit(d); ' ' <= c <= '~' && !('A' <= c <= 'Z')
  {
  }

  lemma {:induction false} TextPlain(t: Text, style: Style)
    requires PrintableText(t, style)
    ensures Plain(EscapeText(t, style), style.ascii)
  {
    hide EscapeRune;
    if t != [] {
      EscapePlain(t[0], style.ascii);
      TextPlain(t[1..], style);
    }
  }

  lemma StringPlain(t: Text, style: Style)
    requires PrintableText(t, style)
    ensures Plain(PrintString(t, style), style.ascii)
  {
    hide EscapeText;
    TextPlain(t, style);
  }

  lemma IntPlain(n: int, ascii: bool)
    ensures Plain(PrintInt(n), ascii)
  {
    var d := Decimal.Numeral(if n < 0 then -n else n);
    forall i | 0 <= i < |d| ensures ' ' <= d[i] <= '~' {
      assert Decimal.IsDigit(d[i]);
    }
  }

  lemma Joins(a: string, b: string, ascii: bool)
    requires Plain(a, ascii) && Plain(b, ascii)
    ensures Plain(a + b, ascii)
  {
  }

  lemma PunctuationPlain(style: Style)
    ensures Plain(Comma(style), style.ascii) && Plain(Colon(style), style.ascii)
    ensures Plain("[", style.ascii) && Plain("]", style.ascii) && Plain("{", style.ascii) && Plain("}", style.ascii)
  {
  }

  lemma {:induction false} PrintedPlain(v: Json, style: Style)
    requires Printable(v, style)
    ensures Plain(Print(v, style), style.ascii)
    decreases v, 1, 0
  {
    hide PrintString, PrintInt, PrintItems, PrintMembers;
    PunctuationPlain(style);
    match v
    case Int(n) => IntPlain(n, style.ascii);
    case Str(t) => StringPlain(t, style);
    case List(items) =>
      hide Plain;
      ItemsPlain(items, style);
      Joins("[", PrintItems(items, style), style.ascii);
      Joins("[" + PrintItems(items, style), "]", style.ascii);
    case Obj(fields) =>
      hide Plain;
      var text := PrintMembers(v, TextOrder.Sorted(fields.Keys), style);
      MembersPlain(v, TextOrder.Sorted(fields.Keys), style);
      Joins("{", text, style.ascii);
      Joins("{" + text, "}", style.ascii);
    case _ =>
  }

  lemma {:induction false} ItemsPlain(items: seq<Json>, style: Style)
    requires forall x | x in items :: Printable(x, style)
    ensures Plain(PrintItems(items, style), style.ascii)
    decreases items, 0, 0
  {
    hide Print, Printable, Comma;
    PunctuationPlain(style);
    if items != [] {
      var text := Print(items[0], style);
      PrintedPlain(items[0], style);
      ItemsPlain(items[1..], style);
      hide Plain;
      Joins(text, Comma(style), style.ascii);
      Joins(text + Comma(style), PrintItems(items[1..], style), style.ascii);
    } else {
      assert PrintItems(items, style) == "";
    }
  }

  lemma {:induction false} MembersPlain(v: Json, keys: seq<Text>, style: Style)
    requires v.Obj? && Printable(v, style) && forall k | k in keys :: k in v.fields
    ensures Plain(PrintMembers(v, keys, style), style.ascii)
    decreases v, 0, |keys|
  {
    hide Print, PrintString, Comma, Colon;
    PunctuationPlain(style);
    if keys != [] {
      assert keys[0] in v.fields;
      var key, text := PrintString(keys[0], style), Print(v.fields[keys[0]], style);
      StringPlain(keys[0], style);
      PrintedPlain(v.fields[keys[0]], style);
      MembersPlain(v, keys[1..], style);
      hide Plain;
      var first := key + Colon(style) + text;
      Joins(key, Colon(style), style.ascii);
      Joins(key + Colon(style), text, style.ascii);
      Joins(first, Comma(style), style.ascii);
      Joins(first + Comma(style), PrintMembers(v, keys[1..], style), style.ascii);
    } else {
      assert PrintMembers(v, keys, style) == "";
    }
  }

  // ----- The spaced style -----

  /** One blank behind every comma and colon, and none elsewhere. */
  lemma SpacedText(key: Text, t: string)
    requires PrintString(key, Style(true, true)) == t
    ensures Print(List([Int(-5), Obj(map[key := Null])]), Style(true, true)) == "[-5, {" + t + ": null}]"
  {
    hide PrintString;
    var o, five := Obj(map[key := Null]), Int(-5);
    OneMember(key);
    assert PrintItems([o], Style(true, true)) == "{" + t + ": null}";
    assert Print(five, Style(true, true)) == "-5";
    assert [five, o][1..] == [o];
    hide Print;
    assert PrintItems([five, o], Style(true, true)) == "-5" + ", " + ("{" + t + ": null}");
    assert "[" + ("-5" + ", " + ("{" + t + ": null}")) + "]" == "[-5, {" + t + ": null}]";
  }

  lemma OneMember(key: Text)
    ensures Print(Obj(map[key := Null]), Style(true, true))
         == "{" + (PrintString(key, Style(true, true)) + ": null") + "}"
  {
    hide PrintString, TextOrder.Sorted;
    var o := Obj(map[key := Null]);
    assert o.fields.Keys == {key};
    TextOrder.SortedUnique({key}, [key]);
    assert Print(Null, Style(true, true)) == "null";
    assert PrintMembers(o, [key], Style(true, true)) == PrintString(key, Style(true, true)) + ": " + "null";
  }
}
