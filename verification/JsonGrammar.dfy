/** The texts that the JSON reader accepts, as a grammar (sections 2 to 7 of RFC 8259, with integers only). */
module JsonGrammar {
  import opened Prelude
  import opened Json
  import opened JsonParser
  import opened Surrogates
  import Decimal
  import JsonRoundTrip

  // ----- Strings -----

  /** One character of a string: itself, a letter behind a backslash, or a unit in hexadecimal. */
  datatype Glyph = Plain(c: char) | Short(c: char) | Unit(digits: string)

  predicate IsHex(c: char) {
    '0' <= c <= '9' || 'a' <= c <= 'f' || 'A' <= c <= 'F'
  }

  predicate GlyphFits(g: Glyph) {
    match g
    case Plain(c) => ' ' <= c && c != '"' && c != '\\'
    case Short(c) => c in "\"\\/bfnrt"
    case Unit(digits) => |digits| == 4 && forall i | 0 <= i < 4 :: IsHex(digits[i])
  }

  function Nibble(c: char): (d: int)
    requires IsHex(c)
    ensures 0 <= d < 16
  {
    if c <= '9' then c as int - '0' as int
    else if c >= 'a' then c as int - 'a' as int + 10
    else c as int - 'A' as int + 10
  }

  /** The code point or half of one that it stands for. */
  function GlyphRune(g: Glyph): Rune
    requires GlyphFits(g)
  {
    match g
    case Plain(c) => c as int
    case Short(c) =>
      if c == 'b' then 8 else if c == 't' then 9 else if c == 'n' then 10 else if c == 'f' then 12
      else if c == 'r' then 13 else c as int
    case Unit(d) => ((Nibble(d[0]) * 16 + Nibble(d[1])) * 16 + Nibble(d[2])) * 16 + Nibble(d[3])
  }

  function GlyphText(g: Glyph): (s: string)
    ensures s != ""
  {
    match g
    case Plain(c) => [c]
    case Short(c) => ['\\', c]
    case Unit(digits) => "\\u" + digits
  }

  predicate GlyphsFit(gs: seq<Glyph>) {
    forall i | 0 <= i < |gs| :: GlyphFits(gs[i])
  }

  function GlyphsText(gs: seq<Glyph>): string {
    if gs == [] then "" else GlyphText(gs[0]) + GlyphsText(gs[1..])
  }

  function GlyphsRunes(gs: seq<Glyph>): (t: Text)
    requires GlyphsFit(gs)
    ensures |t| == |gs| && forall i :: 0 <= i < |gs| ==> t[i] == GlyphRune(gs[i])
  {
    seq(|gs|, i requires 0 <= i < |gs| => GlyphRune(gs[i]))
  }

  /** The string: its glyphs, with halves that stand side by side put together. */
  function Spelled(gs: seq<Glyph>): Text
    requires GlyphsFit(gs)
  {
    Joined(GlyphsRunes(gs))
  }

  lemma HexIsNibble(c: char)
    ensures HexValue(c) == if IsHex(c) then Some(Nibble(c)) else None
  {
  }

  lemma UnitOfGlyph(digits: string, rest: string)
    requires GlyphFits(Unit(digits))
    ensures UnicodeUnit(GlyphText(Unit(digits)) + rest) == Some(GlyphRune(Unit(digits)))
    ensures GlyphRune(Unit(digits)) < 0x1_0000
  {
    var s := GlyphText(Unit(digits)) + rest;
    assert s[2] == digits[0] && s[3] == digits[1] && s[4] == digits[2] && s[5] == digits[3];
    HexIsNibble(digits[0]);
    HexIsNibble(digits[1]);
    HexIsNibble(digits[2]);
    HexIsNibble(digits[3]);
    hide HexValue, Nibble;
  }

  /** The text goes on with the escape of a low half exactly if the next glyph is one. */
  lemma LowAheadOfGlyphs(gs: seq<Glyph>, rest: string)
    requires GlyphsFit(gs)
    ensures LowAhead(GlyphsText(gs) + "\"" + rest) <==> gs != [] && IsLow(GlyphRune(gs[0]))
  {
    var s := GlyphsText(gs) + "\"" + rest;
    if gs == [] {
      assert s[0] == '"';
    } else {
      var more := GlyphsText(gs[1..]) + "\"" + rest;
      assert s == GlyphText(gs[0]) + more;
      if gs[0].Unit? {
        UnitOfGlyph(gs[0].digits, more);
      } else {
        NoUnit(gs[0], more);
      }
    }
  }

  lemma NoUnit(g: Glyph, more: string)
    requires GlyphFits(g) && !g.Unit?
    ensures !LowAhead(GlyphText(g) + more) && IsScalar(GlyphRune(g))
  {
    var s := GlyphText(g) + more;
    assert g.Short? ==> s[1] == g.c;
  }

  /** A glyph that is no unit reads as itself, and so does a unit that is not the first of two halves. */
  lemma ReadGlyph(g: Glyph, more: string)
    requires GlyphFits(g) && (IsHigh(GlyphRune(g)) ==> !LowAhead(more))
    ensures ReadRune(GlyphText(g) + more) == Some((GlyphRune(g), more)) && GlyphText(g)[0] != '"'
  {
    var s := GlyphText(g) + more;
    if g.Unit? {
      UnitOfGlyph(g.digits, more);
      hide UnicodeUnit, LowAhead, Nibble;
      assert s[0] == '\\' && s[1] == 'u' && s[6..] == more;
    } else if g.Short? {
      assert s[0] == '\\' && s[1] == g.c && s[2..] == more;
    } else {
      assert s[0] == g.c && s[1..] == more && Runes(s)[0] == g.c as int;
    }
  }

  lemma UnitText(digits: string, rest: string)
    requires |digits| == 4
    ensures var s := GlyphText(Unit(digits)) + rest;
      |s| >= 6 && s[0] == '\\' && s[1] == 'u' && s[6..] == rest && GlyphText(Unit(digits))[0] == '\\'
  {
  }

  lemma HalfIsUnit(g: Glyph)
    requires GlyphFits(g) && !IsScalar(GlyphRune(g))
    ensures g.Unit? && |g.digits| == 4
  {
    if !g.Unit? {
      NoUnit(g, "");
    }
  }

  lemma ReadUnits(s: string, high: Rune, low: Rune)
    requires |s| >= 6 && s[0] == '\\' && s[1] == 'u' && IsHigh(high) && IsLow(low)
    requires UnicodeUnit(s) == Some(high) && UnicodeUnit(s[6..]) == Some(low)
    ensures ReadRune(s) == Some((Combine(high, low), s[6..][6..]))
  {
    hide UnicodeUnit, ReadRune;
    JsonRoundTrip.ReadHalves(s, high, low);
  }

  lemma ReadTwoHalves(g: Glyph, l: Glyph, more: string)
    requires GlyphFits(g) && GlyphFits(l) && IsHigh(GlyphRune(g)) && IsLow(GlyphRune(l))
    ensures ReadRune(GlyphText(g) + (GlyphText(l) + more)) == Some((Combine(GlyphRune(g), GlyphRune(l)), more))
    ensures GlyphText(g)[0] != '"'
  {
    hide UnicodeUnit, ReadRune, GlyphRune, GlyphText, GlyphFits, Combine;
    HalfIsUnit(g);
    HalfIsUnit(l);
    hide IsHigh, IsLow;
    var tail := GlyphText(l) + more;
    UnitOfGlyph(g.digits, tail);
    UnitOfGlyph(l.digits, more);
    UnitText(g.digits, tail);
    UnitText(l.digits, more);
    ReadUnits(GlyphText(g) + tail, GlyphRune(g), GlyphRune(l));
  }

  lemma {:induction false} ReadGlyphs(gs: seq<Glyph>, rest: string)
    requires GlyphsFit(gs)
    ensures ReadString(GlyphsText(gs) + "\"" + rest) == Some((Spelled(gs), rest))
    decreases |gs|
  {
    hide ReadRune, GlyphText, GlyphRune, GlyphFits;
    var s := GlyphsText(gs) + "\"" + rest;
    if gs == [] {
      assert s[0] == '"' && s[1..] == rest;
    } else if |gs| >= 2 && IsHigh(GlyphRune(gs[0])) && IsLow(GlyphRune(gs[1])) {
      var more := GlyphsText(gs[2..]) + "\"" + rest;
      assert gs[1..][1..] == gs[2..];
      assert GlyphsText(gs) == GlyphText(gs[0]) + (GlyphText(gs[1]) + GlyphsText(gs[2..]));
      assert s == GlyphText(gs[0]) + (GlyphText(gs[1]) + more);
      assert GlyphsRunes(gs)[2..] == GlyphsRunes(gs[2..]);
      ReadTwoHalves(gs[0], gs[1], more);
      ReadGlyphs(gs[2..], rest);
      assert s[0] == GlyphText(gs[0])[0];
    } else {
      var more := GlyphsText(gs[1..]) + "\"" + rest;
      assert s == GlyphText(gs[0]) + more;
      assert GlyphsRunes(gs)[1..] == GlyphsRunes(gs[1..]);
      LowAheadOfGlyphs(gs[1..], rest);
      ReadGlyph(gs[0], more);
      ReadGlyphs(gs[1..], rest);
      assert s[0] == GlyphText(gs[0])[0];
    }
  }

  lemma GlyphsFew(g: Glyph, l: Glyph)
    ensures GlyphsText([g]) == GlyphText(g) && GlyphsText([g, l]) == GlyphText(g) + GlyphText(l)
  {
    hide GlyphText;
    assert [g][1..] == [] && [g, l][1..] == [l] && [l][1..] == [];
    assert GlyphText(l) + "" == GlyphText(l);
  }

  lemma ShortFits(c: char)
    requires Unescape(c).Some?
    ensures GlyphFits(Short(c))
  {
    assert c == '"' || c == '\\' || c == '/' || c == 'b' || c == 'f' || c == 'n' || c == 'r' || c == 't';
    var letters := "\"\\/bfnrt";
    assert letters[0] == '"' && letters[1] == '\\' && letters[2] == '/' && letters[3] == 'b' && letters[4] == 'f';
    assert letters[5] == 'n' && letters[6] == 'r' && letters[7] == 't';
  }

  /** Whatever is read as one rune is one glyph, or two halves. */
  lemma FindGlyph(s: string) returns (gs: seq<Glyph>)
    requires ReadRune(s).Some? && s[0] != '"'
    ensures GlyphsFit(gs) && gs != [] && s == GlyphsText(gs) + ReadRune(s).value.1
  {
    hide UnicodeUnit, Unescape, GlyphsText, GlyphFits;
    if s[0] != '\\' {
      gs := [Plain(s[0])];
      GlyphsFew(Plain(s[0]), Plain(s[0]));
      assert GlyphFits(Plain(s[0])) by { PlainFits(s[0]); }
      assert s == [s[0]] + s[1..];
    } else if |s| >= 2 && s[1] == 'u' {
      UnitFits(s);
      var g := Unit(s[2..6]);
      gs := [g];
      if ReadRune(s).value.1 != s[6..] {
        UnitFits(s[6..]);
        var l := Unit(s[6..][2..6]);
        gs := [g, l];
        GlyphsFew(g, l);
        assert s == s[..6] + s[6..][..6] + s[12..];
      } else {
        GlyphsFew(g, g);
        assert s == s[..6] + s[6..];
      }
    } else {
      var g := Short(s[1]);
      ShortFits(s[1]);
      gs := [g];
      GlyphsFew(g, g);
      assert s == ['\\', s[1]] + s[2..];
    }
  }

  lemma PlainFits(c: char)
    requires ' ' <= c && c != '"' && c != '\\'
    ensures GlyphFits(Plain(c))
  {
  }

  lemma UnitFits(s: string)
    requires UnicodeUnit(s).Some?
    ensures GlyphFits(Unit(s[2..6])) && GlyphText(Unit(s[2..6])) == s[..6]
  {
    assert s[..6] == ['\\', 'u'] + s[2..6];
    HexIsNibble(s[2]);
    HexIsNibble(s[3]);
    HexIsNibble(s[4]);
    HexIsNibble(s[5]);
    hide HexValue;
  }

  lemma {:induction false} FindGlyphs(s: string) returns (gs: seq<Glyph>)
    requires ReadString(s).Some?
    ensures GlyphsFit(gs) && s == GlyphsText(gs) + "\"" + ReadString(s).value.1
    decreases |s|
  {
    hide ReadRune, GlyphFits, GlyphText;
    if s[0] == '"' {
      gs := [];
    } else {
      var t := ReadRune(s).value.1;
      var first := FindGlyph(s);
      var more := FindGlyphs(t);
      gs := first + more;
      GlyphsAppend(first, more);
      hide ReadString, GlyphsText, GlyphsFit;
      assert s == GlyphsText(first) + t;
      Ended(GlyphsText(first), GlyphsText(more), ReadString(t).value.1);
    }
  }

  lemma Ended(a: string, b: string, rest: string)
    ensures a + (b + "\"" + rest) == a + b + "\"" + rest
  {
  }

  lemma {:induction false} GlyphsAppend(a: seq<Glyph>, b: seq<Glyph>)
    ensures GlyphsText(a + b) == GlyphsText(a) + GlyphsText(b)
  {
    hide GlyphText;
    if a == [] {
      assert a + b == b;
      assert "" + GlyphsText(b) == GlyphsText(b);
    } else {
      GlyphsAppend(a[1..], b);
      assert (a + b)[1..] == a[1..] + b && (a + b)[0] == a[0];
      Grouped(GlyphText(a[0]), GlyphsText(a[1..]), GlyphsText(b));
    }
  }

  lemma Grouped(a: string, b: string, c: string)
    ensures a + b + c == a + (b + c)
  {
  }

  // ----- How the printer spells a character -----

  /** Lower-case hexadecimal digits only. */
  predicate LowerCase(digits: string) {
    forall c | c in digits :: !('A' <= c <= 'F')
  }

  /**
   * A character is printed as itself, by its letter or by its number; with ASCII escapes one above
   * U+FFFF by the numbers of its two halves.
   */
  lemma EscapesExactly(r: Rune, ascii: bool) returns (gs: seq<Glyph>)
    requires ascii || IsScalar(r)
    ensures GlyphsFit(gs) && EscapeRune(r, ascii) == GlyphsText(gs)
    ensures r < 0x1_0000 || !ascii ==>
      && |gs| == 1 && GlyphRune(gs[0]) == r
      && (gs[0].Plain? <==> r >= 0x20 && r != 0x22 && r != 0x5C && (!ascii || r < 0x7F))
      && (gs[0].Short? <==> r in {0x08, 0x09, 0x0A, 0x0C, 0x0D, 0x22, 0x5C})
    ensures r >= 0x1_0000 && ascii ==>
      && |gs| == 2 && gs[0].Unit? && gs[1].Unit?
      && var high, low := GlyphRune(gs[0]) as int, GlyphRune(gs[1]) as int;
        0xD800 <= high < 0xDC00 <= low < 0xE000 && r as int == 0x1_0000 + (high - 0xD800) * 0x400 + (low - 0xDC00)
    ensures forall g :: g in gs && g.Unit? ==> LowerCase(g.digits)
  {
    hide UnicodeEscape, Hex4, GlyphText, GlyphsText, Unescape, LowerCase, GlyphFits, GlyphRune;
    if r in {0x08, 0x09, 0x0A, 0x0C, 0x0D, 0x22, 0x5C} {
      var g := ShortGlyph(r);
      gs := [g];
      GlyphsFew(g, g);
    } else if r >= 0x20 && (!ascii || r < 0x7F) {
      var g := PlainGlyph(r, ascii);
      gs := [g];
      GlyphsFew(g, g);
    } else if r < 0x1_0000 {
      var g := UnitGlyph(r);
      gs := [g];
      GlyphsFew(g, g);
    } else {
      var high := UnitGlyph(HighHalf(r));
      var low := UnitGlyph(LowHalf(r));
      gs := [high, low];
      GlyphsFew(high, low);
    }
  }

  lemma ShortGlyph(r: Rune) returns (g: Glyph)
    requires r in {0x08, 0x09, 0x0A, 0x0C, 0x0D, 0x22, 0x5C}
    ensures g.Short? && GlyphFits(g) && GlyphRune(g) == r
    ensures forall ascii :: EscapeRune(r, ascii) == GlyphText(g)
  {
    g := Short(EscapeRune(r, true)[1]);
    ShortFits(g.c);
    hide GlyphFits;
  }

  lemma PlainGlyph(r: Rune, ascii: bool) returns (g: Glyph)
    requires r >= 0x20 && r != 0x22 && r != 0x5C && (if ascii then r < 0x7F else IsScalar(r))
    ensures g.Plain? && GlyphFits(g) && GlyphRune(g) == r && EscapeRune(r, ascii) == GlyphText(g)
  {
    g := Plain(ToChar(r));
  }

  lemma UnitGlyph(n: int) returns (g: Glyph)
    requires 0 <= n < 0x1_0000
    ensures g.Unit? && GlyphFits(g) && GlyphRune(g) == n && LowerCase(g.digits) && UnicodeEscape(n) == GlyphText(g)
  {
    g := Unit(Hex4(n));
    HexDigitMeans(n / 16 / 16 / 16);
    HexDigitMeans(n / 16 / 16 % 16);
    HexDigitMeans(n / 16 % 16);
    HexDigitMeans(n % 16);
    hide HexDigit, Nibble, IsHex;
  }

  lemma HexDigitMeans(d: int)
    requires 0 <= d < 16
    ensures IsHex(HexDigit(d)) && Nibble(HexDigit(d)) == d && !('A' <= HexDigit(d) <= 'F')
  {
  }

  // ----- Values -----

  /** A text taken apart: words, digits, glyphs, and the blanks between everything. */
  datatype Tree =
    | Word(word: string)
    | Digits(negative: bool, digits: string)
    | Quoted(glyphs: seq<Glyph>)
    | Array(blanks: string, items: seq<Item>)
    | Object(blanks: string, members: seq<Member>)

  datatype Item = Item(before: string, value: Tree, after: string)

  datatype Member = Member(before: string, key: seq<Glyph>, beforeColon: string, afterColon: string, value: Tree,
                           after: string)

  predicate Blanks(s: string) {
    forall i | 0 <= i < |s| :: s[i] == ' ' || s[i] == '\t' || s[i] == '\n' || s[i] == '\r'
  }

  predicate DigitsFit(d: string) {
    d != "" && Decimal.AllDigits(d) && (d == "0" || d[0] != '0')
  }

  predicate Fits(t: Tree)
    decreases t, 1
  {
    match t
    case Word(w) => w in {"null", "true", "false"}
    case Digits(_, d) => DigitsFit(d)
    case Quoted(gs) => GlyphsFit(gs)
    case Array(blanks, items) => Blanks(blanks) && (items != [] ==> blanks == "") && ItemsFit(items)
    case Object(blanks, members) => Blanks(blanks) && (members != [] ==> blanks == "") && MembersFit(members)
  }

  predicate ItemsFit(items: seq<Item>)
    decreases items, 0
  {
    forall i | 0 <= i < |items| :: Blanks(items[i].before) && Blanks(items[i].after) && Fits(items[i].value)
  }

  predicate MembersFit(members: seq<Member>)
    decreases members, 0
  {
    forall i | 0 <= i < |members| ::
      var m := members[i];
      Blanks(m.before) && Blanks(m.beforeColon) && Blanks(m.afterColon) && Blanks(m.after) && GlyphsFit(m.key)
      && Fits(m.value)
  }

  function TreeText(t: Tree): string
    decreases t, 1
  {
    match t
    case Word(w) => w
    case Digits(negative, d) => if negative then "-" + d else d
    case Quoted(gs) => "\"" + GlyphsText(gs) + "\""
    case Array(blanks, items) => "[" + blanks + ItemsText(items) + "]"
    case Object(blanks, members) => "{" + blanks + MembersText(members) + "}"
  }

  function ItemsText(items: seq<Item>): string
    decreases items, 0
  {
    if items == [] then ""
    else
      var first := items[0].before + TreeText(items[0].value) + items[0].after;
      if |items| == 1 then first else first + "," + ItemsText(items[1..])
  }

  function MembersText(members: seq<Member>): string
    decreases members, 0
  {
    if members == [] then ""
    else
      var m := members[0];
      var first := m.before + ("\"" + GlyphsText(m.key) + "\"") + m.beforeColon + ":" + m.afterColon
                   + TreeText(m.value) + m.after;
      if |members| == 1 then first else first + "," + MembersText(members[1..])
  }

  /** What a text means; nothing if a key occurs twice and the reader minds. */
  function Meaning(hook: Hook, t: Tree): Option<Json>
    requires Fits(t)
    decreases t, 1
  {
    match t
    case Word(w) => Some(if w == "null" then Null else Bool(w == "true"))
    case Digits(negative, d) => Some(Int(if negative then -(Decimal.Value(d) as int) else Decimal.Value(d)))
    case Quoted(gs) => Some(Str(Spelled(gs)))
    case Array(_, items) =>
      var values :- ItemsMeaning(hook, items);
      Some(List(values))
    case Object(_, members) =>
      var pairs :- MembersMeaning(hook, members);
      var fields :- Collect(hook, pairs);
      Some(Obj(fields))
  }

  function ItemsMeaning(hook: Hook, items: seq<Item>): Option<seq<Json>>
    requires ItemsFit(items)
    decreases items, 0
  {
    if items == [] then Some([])
    else
      var first :- Meaning(hook, items[0].value);
      var rest :- ItemsMeaning(hook, items[1..]);
      Some([first] + rest)
  }

  function MembersMeaning(hook: Hook, members: seq<Member>): Option<seq<(Text, Json)>>
    requires MembersFit(members)
    decreases members, 0
  {
    if members == [] then Some([])
    else
      var first :- Meaning(hook, members[0].value);
      var rest :- MembersMeaning(hook, members[1..]);
      Some([(Spelled(members[0].key), first)] + rest)
  }

  // ----- Every such text is read so -----

  lemma SkipsBlanks(b: string, s: string)
    requires Blanks(b) && (s == "" || !IsBlank(s[0]))
    ensures SkipBlanks(b + s) == s
    decreases |b|
  {
    if b == "" {
      assert b + s == s;
    } else {
      assert (b + s)[1..] == b[1..] + s;
      SkipsBlanks(b[1..], s);
    }
  }

  /** What may stand behind a value: anything, but no digit behind a number that it would continue. */
  predicate Follows(t: Tree, rest: string) {
    t.Digits? && t.digits != "0" ==> rest == "" || !Decimal.IsDigit(rest[0])
  }

  lemma TreeStart(t: Tree)
    requires Fits(t)
    ensures TreeText(t) != "" && !IsBlank(TreeText(t)[0]) && TreeText(t)[0] != ']' && TreeText(t)[0] != '}'
    ensures TreeText(t)[0] != ','
  {
    hide ItemsText, MembersText, GlyphsText, ItemsFit, MembersFit;
    if t.Digits? {
      assert Decimal.IsDigit(t.digits[0]);
    }
  }

  lemma ReadWord(hook: Hook, w: string, rest: string)
    requires w in {"null", "true", "false"}
    ensures ReadValue(hook, w + rest) == Some((if w == "null" then Null else Bool(w == "true"), rest))
  {
    hide ReadItems, ReadMembers, ReadString, ReadInt;
    var s := w + rest;
    assert s[..|w|] == w && s[|w|..] == rest;
  }

  lemma ReadDigitsTree(hook: Hook, negative: bool, d: string, rest: string)
    requires DigitsFit(d) && Follows(Digits(negative, d), rest)
    ensures ReadValue(hook, TreeText(Digits(negative, d)) + rest)
         == Some((Int(if negative then -(Decimal.Value(d) as int) else Decimal.Value(d)), rest))
  {
    DigitsAhead(negative, d, rest);
    SignAhead(negative, d, rest);
    hide Decimal.Value, Decimal.Span, ReadItems, ReadMembers, ReadString, DigitsFit, Follows, TreeText, ReadInt;
    var t := d + rest;
    var s := if negative then "-" + t else t;
    ReadSigned(negative, s, t, |d|);
    JsonRoundTrip.NoLiteral(s);
  }

  lemma SignAhead(negative: bool, d: string, rest: string)
    ensures TreeText(Digits(negative, d)) + rest == if negative then "-" + (d + rest) else d + rest
    ensures (d + rest)[..|d|] == d && (d + rest)[|d|..] == rest
  {
    assert "-" + d + rest == "-" + (d + rest);
  }

  lemma ReadSigned(negative: bool, s: string, t: string, n: nat)
    requires t != "" && Decimal.IsDigit(t[0]) && n == (if StartsWith(t, '0') then 1 else Decimal.Span(t)) && n > 0
    requires s == if negative then "-" + t else t
    ensures n <= |t| && Decimal.AllDigits(t[..n])
    ensures ReadInt(s)
         == Some((Int(if negative then -(Decimal.Value(t[..n]) as int) else Decimal.Value(t[..n])), t[n..]))
    ensures negative <==> s[0] == '-'
  {
    hide Decimal.Value, Decimal.Span;
    assert negative ==> s[1..] == t;
  }

  lemma DigitsAhead(negative: bool, d: string, rest: string)
    requires DigitsFit(d) && Follows(Digits(negative, d), rest)
    ensures var t := d + rest;
      Decimal.IsDigit(t[0]) && (if StartsWith(t, '0') then 1 else Decimal.Span(t)) == |d|
  {
    assert Decimal.IsDigit(d[0]) && (d + rest)[0] == d[0];
    if d != "0" {
      Decimal.SpanOf(d, rest);
    }
    hide Decimal.Span;
  }

  lemma ReadQuoted(hook: Hook, gs: seq<Glyph>, rest: string)
    requires GlyphsFit(gs)
    ensures ReadValue(hook, TreeText(Quoted(gs)) + rest) == Some((Str(Spelled(gs)), rest))
  {
    hide ReadItems, ReadMembers, ReadString, ReadInt, GlyphsText, Spelled;
    var s := TreeText(Quoted(gs)) + rest;
    assert s[0] == '"' && s[1..] == GlyphsText(gs) + "\"" + rest;
    ReadGlyphs(gs, rest);
  }

  /** A reader gets from a text that fits what it means, and stands behind it, or gets nothing if it means nothing. */
  lemma {:induction false} ReadTree(hook: Hook, t: Tree, rest: string)
    requires Fits(t) && Follows(t, rest)
    ensures ReadValue(hook, TreeText(t) + rest)
         == match Meaning(hook, t) case None => None case Some(v) => Some((v, rest))
    decreases t, 1
  {
    match t
    case Word(w) => ReadWord(hook, w, rest);
    case Digits(negative, d) => ReadDigitsTree(hook, negative, d, rest);
    case Quoted(gs) => ReadQuoted(hook, gs, rest);
    case Array(blanks, items) =>
      if items == [] {
        ReadEmptyArray(hook, blanks, rest);
      } else {
        ReadItemTrees(hook, items, rest);
        ReadArray(hook, items, rest);
      }
    case Object(blanks, members) =>
      if members == [] {
        ReadEmptyObject(hook, blanks, rest);
      } else {
        ReadMemberTrees(hook, members, rest);
        ReadObject(hook, members, rest);
      }
  }

  lemma ArrayText(blanks: string, items: seq<Item>, rest: string)
    ensures TreeText(Array(blanks, items)) + rest == "[" + (blanks + (ItemsText(items) + "]" + rest))
  {
    hide ItemsText;
    Enclosed("[", blanks, ItemsText(items), "]", rest);
  }

  lemma ObjectText(blanks: string, members: seq<Member>, rest: string)
    ensures TreeText(Object(blanks, members)) + rest == "{" + (blanks + (MembersText(members) + "}" + rest))
  {
    hide MembersText;
    Enclosed("{", blanks, MembersText(members), "}", rest);
  }

  lemma Enclosed(open: string, blanks: string, body: string, close: string, rest: string)
    ensures open + blanks + body + close + rest == open + (blanks + (body + close + rest))
  {
    var tail := body + close + rest;
    assert open + blanks + body + close + rest == open + blanks + tail;
  }

  /** A list of parts: the first and what follows it. */
  lemma Continued(a: string, text: string, c: string, more: string, close: string, rest: string)
    ensures a + text + c + close + rest == a + (text + (c + (close + rest)))
    ensures a + text + c + "," + more + close + rest == a + (text + (c + ("," + (more + close + rest))))
  {
    var tail, last := "," + (more + close + rest), close + rest;
    assert a + text + c + "," + more + close + rest == a + text + c + tail;
    assert a + text + c + close + rest == a + text + c + last;
    assert a + text + c + tail == a + (text + (c + tail));
    assert a + text + c + last == a + (text + (c + last));
  }

  lemma ReadEmptyArray(hook: Hook, blanks: string, rest: string)
    requires Blanks(blanks)
    ensures ReadValue(hook, TreeText(Array(blanks, [])) + rest) == Some((List([]), rest))
  {
    hide ReadItems, ReadMembers, ReadString, ReadInt;
    var s := TreeText(Array(blanks, [])) + rest;
    ArrayText(blanks, [], rest);
    assert ItemsText([]) + "]" + rest == "]" + rest;
    hide TreeText;
    assert s[1..] == blanks + ("]" + rest);
    SkipsBlanks(blanks, "]" + rest);
    assert ("]" + rest)[1..] == rest;
  }

  lemma ReadEmptyObject(hook: Hook, blanks: string, rest: string)
    requires Blanks(blanks)
    ensures ReadValue(hook, TreeText(Object(blanks, [])) + rest) == Some((Obj(map[]), rest))
  {
    hide ReadItems, ReadMembers, ReadString, ReadInt;
    var s := TreeText(Object(blanks, [])) + rest;
    ObjectText(blanks, [], rest);
    assert MembersText([]) + "}" + rest == "}" + rest;
    hide TreeText;
    assert s[1..] == blanks + ("}" + rest);
    SkipsBlanks(blanks, "}" + rest);
    assert ("}" + rest)[1..] == rest;
  }

  /** The items without the blanks in front of the first. */
  function ItemsBody(items: seq<Item>, rest: string): string
    requires items != []
  {
    var tail := if |items| == 1 then "]" + rest else "," + (ItemsText(items[1..]) + "]" + rest);
    TreeText(items[0].value) + (items[0].after + tail)
  }

  lemma ItemsRegroup(items: seq<Item>, rest: string)
    requires items != []
    ensures ItemsText(items) + "]" + rest == items[0].before + ItemsBody(items, rest)
  {
    hide TreeText;
    var i := items[0];
    Continued(i.before, TreeText(i.value), i.after, if |items| == 1 then "" else ItemsText(items[1..]), "]", rest);
  }

  lemma ItemsSplit(items: seq<Item>, rest: string)
    requires items != [] && ItemsFit(items)
    ensures SkipBlanks(ItemsText(items) + "]" + rest) == ItemsBody(items, rest)
    ensures ItemsBody(items, rest) != "" && ItemsBody(items, rest)[0] != ']'
  {
    TreeStart(items[0].value);
    ItemsRegroup(items, rest);
    hide TreeText, Fits, ItemsText;
    SkipsBlanks(items[0].before, ItemsBody(items, rest));
  }

  /** What the reader does behind an opening bracket, and after each value. */
  lemma OpenArray(hook: Hook, s: string, body: string)
    requires s != "" && s[0] == '[' && SkipBlanks(s[1..]) == body && body != "" && body[0] != ']'
    ensures ReadValue(hook, s)
         == match ReadItems(hook, body) case None => None case Some((vs, r)) => Some((List(vs), r))
  {
    hide ReadItems, ReadMembers, ReadString, ReadInt, SkipBlanks;
  }

  lemma AfterItem(hook: Hook, s: string, r: Option<(Json, string)>, w: string, next: string)
    requires ReadValue(hook, s) == r && w != "" && (w[0] == ']' || w[0] == ',')
    requires r.Some? ==> SkipBlanks(r.value.1) == w
    requires w[0] == ',' ==> SkipBlanks(w[1..]) == next
    ensures ReadItems(hook, s) ==
      if r.None? then None
      else if w[0] == ']' then Some(([r.value.0], w[1..]))
      else match ReadItems(hook, next) case None => None case Some((vs, rest)) => Some(([r.value.0] + vs, rest))
  {
    hide ReadValue, SkipBlanks;
  }

  lemma ReadArray(hook: Hook, items: seq<Item>, rest: string)
    requires items != [] && ItemsFit(items)
    requires ReadItems(hook, ItemsBody(items, rest))
      == match ItemsMeaning(hook, items) case None => None case Some(vs) => Some((vs, rest))
    ensures ReadValue(hook, TreeText(Array("", items)) + rest)
         == match ItemsMeaning(hook, items) case None => None case Some(vs) => Some((List(vs), rest))
  {
    ItemsSplit(items, rest);
    hide ReadItems, ReadValue, ItemsText, ItemsBody, ItemsMeaning, ItemsFit, SkipBlanks;
    var s := TreeText(Array("", items)) + rest;
    ArrayText("", items, rest);
    hide TreeText;
    assert s[1..] == ItemsText(items) + "]" + rest;
    OpenArray(hook, s, ItemsBody(items, rest));
  }

  lemma ItemsMeant(hook: Hook, items: seq<Item>)
    requires items != [] && ItemsFit(items)
    ensures Fits(items[0].value) && Blanks(items[0].before) && Blanks(items[0].after) && ItemsFit(items[1..])
    ensures var first := Meaning(hook, items[0].value);
      ItemsMeaning(hook, items) ==
        if first.None? then None
        else if |items| == 1 then Some([first.value])
        else if ItemsMeaning(hook, items[1..]).None? then None
        else Some([first.value] + ItemsMeaning(hook, items[1..]).value)
  {
    hide Meaning, Fits, Blanks;
    var first, others := Meaning(hook, items[0].value), items[1..];
    forall i | 0 <= i < |others|
      ensures Blanks(others[i].before) && Blanks(others[i].after) && Fits(others[i].value)
    {
      assert others[i] == items[i + 1];
    }
    if |items| == 1 {
      assert others == [] && ItemsMeaning(hook, others) == Some([]);
      if first.Some? {
        assert [first.value] + [] == [first.value];
      }
    }
  }

  lemma {:induction false} ReadItemTrees(hook: Hook, items: seq<Item>, rest: string)
    requires items != [] && ItemsFit(items)
    ensures ReadItems(hook, ItemsBody(items, rest))
      == match ItemsMeaning(hook, items) case None => None case Some(vs) => Some((vs, rest))
    decreases items, 0
  {
    hide ReadValue, ReadItems, Meaning, TreeText, ItemsText, SkipBlanks, Fits, Blanks, ItemsMeaning, ItemsFit;
    ItemsMeant(hook, items);
    var t, after := items[0].value, items[0].after;
    var more := if |items| == 1 then "" else ItemsText(items[1..]) + "]" + rest;
    var tail := if |items| == 1 then "]" + rest else "," + more;
    assert ItemsBody(items, rest) == TreeText(t) + (after + tail);
    AfterValue(after, tail);
    ReadTree(hook, t, after + tail);
    SkipsBlanks(after, tail);
    assert tail[1..] == if |items| == 1 then rest else more;
    var next := if |items| == 1 then "" else ItemsBody(items[1..], rest);
    if |items| > 1 {
      ItemsSplit(items[1..], rest);
      ReadItemTrees(hook, items[1..], rest);
    }
    hide ItemsBody;
    AfterItem(hook, ItemsBody(items, rest), ReadValue(hook, ItemsBody(items, rest)), tail, next);
  }

  /** A number ends before a blank, a comma or a bracket. */
  lemma AfterValue(after: string, tail: string)
    requires Blanks(after) && tail != "" && !Decimal.IsDigit(tail[0])
    ensures forall t :: Follows(t, after + tail)
  {
    assert (after + tail)[0] == if after == "" then tail[0] else after[0];
  }

  /** A member behind its opening quote, without the blanks in front of it. */
  function KeyBody(m: Member): string {
    GlyphsText(m.key) + "\"" + (m.beforeColon + (":" + m.afterColon))
  }

  function ValueOn(members: seq<Member>, rest: string): string
    requires members != []
  {
    var tail := if |members| == 1 then "}" + rest else "," + (MembersText(members[1..]) + "}" + rest);
    TreeText(members[0].value) + (members[0].after + tail)
  }

  function MembersBody(members: seq<Member>, rest: string): string
    requires members != []
  {
    "\"" + (KeyBody(members[0]) + ValueOn(members, rest))
  }

  lemma MembersSplit(members: seq<Member>, rest: string)
    requires members != [] && MembersFit(members)
    ensures MembersText(members) + "}" + rest == members[0].before + MembersBody(members, rest)
    ensures SkipBlanks(MembersText(members) + "}" + rest) == MembersBody(members, rest)
    ensures MembersBody(members, rest) != "" && MembersBody(members, rest)[0] == '"'
  {
    MembersRegroup(members, rest);
    hide MembersText;
    SkipsBlanks(members[0].before, MembersBody(members, rest));
  }

  lemma MembersRegroup(members: seq<Member>, rest: string)
    requires members != []
    ensures MembersText(members) + "}" + rest == members[0].before + MembersBody(members, rest)
  {
    hide TreeText, GlyphsText;
    var m := members[0];
    var key := "\"" + GlyphsText(m.key) + "\"";
    var head := m.before + key + m.beforeColon + ":" + m.afterColon;
    Continued(head, TreeText(m.value), m.after, if |members| == 1 then "" else MembersText(members[1..]), "}", rest);
    assert MembersText(members) + "}" + rest == head + ValueOn(members, rest);
    hide MembersText, ValueOn;
    KeyText(m, ValueOn(members, rest));
  }

  lemma KeyText(m: Member, more: string)
    ensures m.before + ("\"" + GlyphsText(m.key) + "\"") + m.beforeColon + ":" + m.afterColon + more
         == m.before + ("\"" + (KeyBody(m) + more))
  {
    hide GlyphsText;
    var key := GlyphsText(m.key);
    assert "\"" + (KeyBody(m) + more) == "\"" + key + "\"" + m.beforeColon + ":" + m.afterColon + more;
  }

  lemma OpenObject(hook: Hook, s: string, body: string)
    requires s != "" && s[0] == '{' && SkipBlanks(s[1..]) == body && body != "" && body[0] != '}'
    ensures ReadMembers(hook, body).None? ==> ReadValue(hook, s) == None
    ensures ReadMembers(hook, body).Some? ==>
      var (ps, r) := ReadMembers(hook, body).value;
      ReadValue(hook, s) == if Collect(hook, ps).None? then None else Some((Obj(Collect(hook, ps).value), r))
  {
    hide ReadItems, ReadMembers, ReadString, ReadInt, SkipBlanks, Collect;
  }

  lemma AfterMember(hook: Hook, s: string, k: Text, t: string, r: Option<(Json, string)>, w: string, next: string)
    requires ReadKey(s) == Some((k, t)) && ReadValue(hook, t) == r && w != "" && (w[0] == '}' || w[0] == ',')
    requires r.Some? ==> SkipBlanks(r.value.1) == w
    requires w[0] == ',' ==> SkipBlanks(w[1..]) == next
    ensures ReadMembers(hook, s) ==
      if r.None? then None
      else if w[0] == '}' then Some(([(k, r.value.0)], w[1..]))
      else match ReadMembers(hook, next) case None => None case Some((ps, rest)) => Some(([(k, r.value.0)] + ps, rest))
  {
    hide ReadValue, ReadKey, SkipBlanks;
  }

  lemma ObjectMeaning(hook: Hook, members: seq<Member>)
    requires MembersFit(members) && Fits(Object("", members))
    ensures Meaning(hook, Object("", members)) == match MembersMeaning(hook, members)
      case None => None
      case Some(pairs) => if Collect(hook, pairs).None? then None else Some(Obj(Collect(hook, pairs).value))
  {
    hide MembersMeaning, MembersFit, Collect;
  }

  lemma ReadObject(hook: Hook, members: seq<Member>, rest: string)
    requires members != [] && MembersFit(members) && Fits(Object("", members))
    requires ReadMembers(hook, MembersBody(members, rest))
      == match MembersMeaning(hook, members) case None => None case Some(ps) => Some((ps, rest))
    ensures ReadValue(hook, TreeText(Object("", members)) + rest)
         == match Meaning(hook, Object("", members)) case None => None case Some(v) => Some((v, rest))
  {
    ObjectMeaning(hook, members);
    hide ReadMembers, ReadValue, MembersText, MembersBody, MembersMeaning, MembersFit, SkipBlanks, Collect, Meaning;
    hide Fits;
    MembersSplit(members, rest);
    var s := TreeText(Object("", members)) + rest;
    ObjectText("", members, rest);
    hide TreeText;
    assert s[1..] == MembersText(members) + "}" + rest;
    OpenObject(hook, s, MembersBody(members, rest));
  }

  lemma ReadKeyBody(m: Member, more: string)
    requires GlyphsFit(m.key) && Blanks(m.beforeColon) && Blanks(m.afterColon)
    requires more != "" && !IsBlank(more[0])
    ensures ReadKey("\"" + (KeyBody(m) + more)) == Some((Spelled(m.key), more))
  {
    var s := "\"" + (KeyBody(m) + more);
    var colon := ":" + (m.afterColon + more);
    assert s[1..] == GlyphsText(m.key) + "\"" + (m.beforeColon + colon);
    ReadGlyphs(m.key, m.beforeColon + colon);
    SkipsBlanks(m.beforeColon, colon);
    assert colon[1..] == m.afterColon + more;
    SkipsBlanks(m.afterColon, more);
    hide ReadString, GlyphsText, Spelled, SkipBlanks;
  }

  lemma MembersMeant(hook: Hook, members: seq<Member>)
    requires members != [] && MembersFit(members)
    ensures var m := members[0];
      && Fits(m.value) && Blanks(m.before) && Blanks(m.after) && Blanks(m.beforeColon) && Blanks(m.afterColon)
      && GlyphsFit(m.key) && MembersFit(members[1..])
    ensures var k, first := Spelled(members[0].key), Meaning(hook, members[0].value);
      MembersMeaning(hook, members) ==
        if first.None? then None
        else if |members| == 1 then Some([(k, first.value)])
        else if MembersMeaning(hook, members[1..]).None? then None
        else Some([(k, first.value)] + MembersMeaning(hook, members[1..]).value)
  {
    hide Meaning, Fits, Blanks, GlyphsFit, Spelled;
    var k, first, others := Spelled(members[0].key), Meaning(hook, members[0].value), members[1..];
    forall i | 0 <= i < |others|
      ensures var m := others[i];
        Blanks(m.before) && Blanks(m.beforeColon) && Blanks(m.afterColon) && Blanks(m.after) && GlyphsFit(m.key)
        && Fits(m.value)
    {
      assert others[i] == members[i + 1];
    }
    if |members| == 1 {
      assert others == [] && MembersMeaning(hook, others) == Some([]);
      if first.Some? {
        assert [(k, first.value)] + [] == [(k, first.value)];
      }
    }
  }

  lemma {:induction false} ReadMemberTrees(hook: Hook, members: seq<Member>, rest: string)
    requires members != [] && MembersFit(members)
    ensures ReadMembers(hook, MembersBody(members, rest))
      == match MembersMeaning(hook, members) case None => None case Some(ps) => Some((ps, rest))
    decreases members, 0
  {
    hide ReadValue, ReadMembers, ReadKey, KeyBody, Meaning, TreeText, MembersText, SkipBlanks, Fits, Spelled, Blanks;
    hide MembersMeaning, MembersFit, GlyphsFit;
    MembersMeant(hook, members);
    var m := members[0];
    var others := if |members| == 1 then "" else MembersText(members[1..]) + "}" + rest;
    var tail := if |members| == 1 then "}" + rest else "," + others;
    var more := ValueOn(members, rest);
    assert more == TreeText(m.value) + (m.after + tail);
    AfterValue(m.after, tail);
    TreeStart(m.value);
    assert more[0] == TreeText(m.value)[0];
    ReadKeyBody(m, more);
    ReadTree(hook, m.value, m.after + tail);
    SkipsBlanks(m.after, tail);
    assert tail[1..] == if |members| == 1 then rest else others;
    var next := if |members| == 1 then "" else MembersBody(members[1..], rest);
    if |members| > 1 {
      MembersSplit(members[1..], rest);
      ReadMemberTrees(hook, members[1..], rest);
    }
    assert MembersBody(members, rest) == "\"" + (KeyBody(m) + more);
    hide MembersBody, ValueOn;
    AfterMember(hook, MembersBody(members, rest), Spelled(m.key), more, ReadValue(hook, more), tail, next);
  }

  // ----- And every text that is read is one of them -----

  lemma FindBlanks(s: string) returns (b: string)
    ensures Blanks(b) && s == b + SkipBlanks(s)
    decreases |s|
  {
    hide Blanks;
    if s != "" && IsBlank(s[0]) {
      var c := FindBlanks(s[1..]);
      b := [s[0]] + c;
      BlankMore(s[0], c);
      assert SkipBlanks(s) == SkipBlanks(s[1..]);
      hide SkipBlanks, IsBlank;
      Headed(s);
      Grouped([s[0]], c, SkipBlanks(s));
    } else {
      b := "";
      NoBlanks();
      assert SkipBlanks(s) == s;
      hide SkipBlanks;
    }
  }

  lemma BlankMore(c: char, b: string)
    requires IsBlank(c) && Blanks(b)
    ensures Blanks([c] + b)
  {
  }

  lemma Headed(s: string)
    requires s != ""
    ensures s == [s[0]] + s[1..]
  {
  }

  lemma FindDigits(s: string) returns (t: Tree)
    requires ReadInt(s).Some?
    ensures Fits(t) && t.Digits? && Follows(t, ReadInt(s).value.1) && s == TreeText(t) + ReadInt(s).value.1
  {
    hide Decimal.Value, Decimal.Span;
    var negative := StartsWith(s, '-');
    var d := if negative then s[1..] else s;
    var n := if StartsWith(d, '0') then 1 else Decimal.Span(d);
    t := Digits(negative, d[..n]);
    DigitsOf(d, n);
    assert ReadInt(s).value.1 == d[n..];
    assert negative ==> s == "-" + d;
    hide ReadInt, DigitsFit, Decimal.AllDigits;
    assert d == d[..n] + d[n..];
    Grouped("-", d[..n], d[n..]);
  }

  lemma DigitsOf(d: string, n: nat)
    requires n == (if StartsWith(d, '0') then 1 else Decimal.Span(d)) && n > 0
    ensures n <= |d| && DigitsFit(d[..n]) && Follows(Digits(true, d[..n]), d[n..])
  {
    if StartsWith(d, '0') {
      assert d[..1] == "0";
    }
  }

  lemma FindQuoted(s: string) returns (gs: seq<Glyph>)
    requires StartsWith(s, '"') && ReadString(s[1..]).Some?
    ensures GlyphsFit(gs) && s == TreeText(Quoted(gs)) + ReadString(s[1..]).value.1
  {
    hide ReadString;
    gs := FindGlyphs(s[1..]);
    assert s == "\"" + s[1..];
  }

  /** If a value is read, its text is that of a tree; what it means follows then from the other direction. */
  lemma {:induction false} FindTree(hook: Hook, s: string) returns (t: Tree)
    requires ReadValue(hook, s).Some?
    ensures Fits(t) && Follows(t, ReadValue(hook, s).value.1) && s == TreeText(t) + ReadValue(hook, s).value.1
    decreases |s|, 2
  {
    hide ReadInt, ReadString, ReadItems, ReadMembers, TreeText, Fits, Collect, SkipBlanks, ItemsText, MembersText;
    if StartsWith(s, '"') {
      var gs := FindQuoted(s);
      t := Quoted(gs);
      assert Fits(t) by { QuotedFits(gs); }
    } else if StartsWith(s, '{') {
      t := FindObject(hook, s);
    } else if StartsWith(s, '[') {
      t := FindArray(hook, s);
    } else if "null" <= s || "true" <= s || "false" <= s {
      t := FindWord(hook, s);
    } else {
      t := FindDigits(s);
    }
  }

  lemma QuotedFits(gs: seq<Glyph>)
    requires GlyphsFit(gs)
    ensures Fits(Quoted(gs))
  {
  }

  lemma FindWord(hook: Hook, s: string) returns (t: Tree)
    requires ReadValue(hook, s).Some? && ("null" <= s || "true" <= s || "false" <= s)
    ensures Fits(t) && t.Word? && s == TreeText(t) + ReadValue(hook, s).value.1
  {
    hide ReadInt, ReadString, ReadItems, ReadMembers;
    t := Word(if "null" <= s then "null" else if "true" <= s then "true" else "false");
    assert s == t.word + s[|t.word|..];
  }

  /** What the reader must have seen behind an opening bracket. */
  lemma ReadsArray(hook: Hook, s: string)
    requires StartsWith(s, '[') && ReadValue(hook, s).Some?
    ensures var body, rest := SkipBlanks(s[1..]), ReadValue(hook, s).value.1;
      && |body| < |s|
      && if StartsWith(body, ']') then body == "]" + rest
         else ReadItems(hook, body).Some? && ReadItems(hook, body).value.1 == rest
  {
    hide ReadItems, ReadMembers, ReadString, ReadInt, SkipBlanks;
    var body := SkipBlanks(s[1..]);
    assert StartsWith(body, ']') ==> body == "]" + body[1..];
  }

  lemma {:induction false} FindArray(hook: Hook, s: string) returns (t: Tree)
    requires StartsWith(s, '[') && ReadValue(hook, s).Some?
    ensures Fits(t) && t.Array? && s == TreeText(t) + ReadValue(hook, s).value.1
    decreases |s|, 0
  {
    hide ReadValue, ReadItems, SkipBlanks, TreeText, ItemsText, Fits, ItemsFit, Blanks, ShiftedItems;
    ReadsArray(hook, s);
    var body, rest := SkipBlanks(s[1..]), ReadValue(hook, s).value.1;
    var b := FindBlanks(s[1..]);
    assert s == "[" + (b + body);
    if StartsWith(body, ']') {
      t := Array(b, []);
      EmptyFit(b);
      ArrayText(b, [], rest);
      EmptyTexts();
      assert body == "" + "]" + rest;
    } else {
      var items := FindItems(hook, body);
      t := Array("", ShiftedItems(b, items));
      ItemsShifted(b, items);
      ArrayText("", ShiftedItems(b, items), rest);
      Prefixed(b, ItemsText(items), "]", rest);
    }
  }

  lemma Prefixed(b: string, text: string, close: string, rest: string)
    ensures "" + ((b + text) + close + rest) == b + (text + close + rest)
  {
  }

  lemma EmptyTexts()
    ensures ItemsText([]) == "" && MembersText([]) == ""
  {
  }

  lemma EmptyFit(b: string)
    requires Blanks(b)
    ensures Fits(Array(b, [])) && Fits(Object(b, []))
  {
  }

  ghost predicate ItemFits(i: Item) {
    Blanks(i.before) && Blanks(i.after) && Fits(i.value)
  }

  function ItemText(i: Item): string {
    i.before + TreeText(i.value) + i.after
  }

  lemma ItemsFirst(items: seq<Item>)
    requires items != []
    ensures ItemsText(items)
         == if |items| == 1 then ItemText(items[0]) else ItemText(items[0]) + "," + ItemsText(items[1..])
  {
    hide TreeText;
  }

  lemma ItemShifted(b: string, i: Item)
    ensures ItemText(i.(before := b + i.before)) == b + ItemText(i)
  {
    hide TreeText;
    var x := TreeText(i.value) + i.after;
    assert ItemText(i) == i.before + x;
    assert ItemText(i.(before := b + i.before)) == b + i.before + x;
  }
  /** Blanks in front of the first item belong to it. */
  function ShiftedItems(b: string, items: seq<Item>): (all: seq<Item>)
    requires items != []
    ensures |all| == |items| && all[1..] == items[1..]
  {
    [items[0].(before := b + items[0].before)] + items[1..]
  }

  lemma ShiftedItemsFit(b: string, items: seq<Item>)
    requires Blanks(b) && items != [] && ItemsFit(items)
    ensures ItemsFit(ShiftedItems(b, items)) && Fits(Array("", ShiftedItems(b, items)))
  {
    hide Blanks, Fits;
    var all := ShiftedItems(b, items);
    BlanksJoin(b, items[0].before);
    forall i | 0 <= i < |all| ensures ItemFits(all[i]) {
      assert i > 0 ==> all[i] == all[1..][i - 1] == items[1..][i - 1] == items[i];
    }
    hide ItemsFit;
    ItemsAllFit(all);
  }

  lemma ItemsShifted(b: string, items: seq<Item>)
    requires Blanks(b) && items != [] && ItemsFit(items)
    ensures var all := ShiftedItems(b, items);
      ItemsText(all) == b + ItemsText(items) && ItemsFit(all) && Fits(Array("", all))
  {
    hide ItemText, TreeText, ItemsText, Blanks, ItemFits, Fits, ItemsFit;
    ShiftedItemsFit(b, items);
    var all := ShiftedItems(b, items);
    ItemsFirst(all);
    ItemsFirst(items);
    ItemShifted(b, items[0]);
    var more := if |items| == 1 then "" else "," + ItemsText(items[1..]);
    assert (b + ItemText(items[0])) + more == b + (ItemText(items[0]) + more);
    Commas(ItemText(items[0]), ItemsText(items[1..]));
    Commas(ItemText(all[0]), ItemsText(items[1..]));
  }

  lemma Commas(first: string, others: string)
    ensures first + "," + others == first + ("," + others)
  {
  }

  lemma ItemsAllFit(all: seq<Item>)
    requires all != [] && forall i :: 0 <= i < |all| ==> ItemFits(all[i])
    ensures ItemsFit(all) && Fits(Array("", all))
  {
    hide Blanks;
    NoBlanks();
    assert ItemsFit(all);
    hide ItemsFit;
  }

  /** What the reader must have seen behind a value in a list. */
  lemma ReadsItems(hook: Hook, s: string)
    requires ReadItems(hook, s).Some?
    ensures ReadValue(hook, s).Some?
    ensures var w, rest := SkipBlanks(ReadValue(hook, s).value.1), ReadItems(hook, s).value.1;
      && w != ""
      && if w[0] == ']' then w == "]" + rest
         else
           var next := SkipBlanks(w[1..]);
           w[0] == ',' && |next| < |s| && ReadItems(hook, next).Some? && ReadItems(hook, next).value.1 == rest
  {
    hide ReadValue, SkipBlanks;
    var w := SkipBlanks(ReadValue(hook, s).value.1);
    assert w[0] == ']' ==> w == "]" + w[1..];
  }

  lemma {:induction false} FindItems(hook: Hook, s: string) returns (items: seq<Item>)
    requires ReadItems(hook, s).Some?
    ensures items != [] && ItemsFit(items) && s == ItemsText(items) + "]" + ReadItems(hook, s).value.1
    decreases |s|, 3
  {
    hide ReadValue, ReadItems, SkipBlanks, TreeText, ItemsText, Fits, ItemsFit, Blanks, ShiftedItems, Follows;
    ReadsItems(hook, s);
    var u, rest := ReadValue(hook, s).value.1, ReadItems(hook, s).value.1;
    var w := SkipBlanks(u);
    var t := FindTree(hook, s);
    var after := FindBlanks(u);
    var one := Item("", t, after);
    assert s == TreeText(t) + (after + w);
    if w[0] == ']' {
      items := [one];
      LastText(one, rest);
    } else {
      var b := FindBlanks(w[1..]);
      var body := SkipBlanks(w[1..]);
      var more := FindItems(hook, body);
      ItemsShifted(b, more);
      var others := ShiftedItems(b, more);
      items := [one] + others;
      ItemsJoin(one, others, rest);
      assert w == "," + w[1..] == "," + (b + body);
      assert body == ItemsText(more) + "]" + rest;
      Prefixed(b, ItemsText(more), "]", rest);
      assert "" + (ItemsText(others) + "]" + rest) == ItemsText(others) + "]" + rest;
    }
  }

  lemma NoBlanks()
    ensures Blanks("")
  {
  }

  lemma LastText(one: Item, rest: string)
    requires one.before == "" && Blanks(one.after) && Fits(one.value)
    ensures ItemsFit([one]) && ItemsText([one]) + "]" + rest == TreeText(one.value) + (one.after + ("]" + rest))
  {
    NoBlanks();
    ItemsFirst([one]);
    assert ItemFits(one);
    hide TreeText, Fits, Blanks, ItemsText, ItemsFit, ItemFits;
    ItemsAllFit([one]);
    Continued("", TreeText(one.value), one.after, "", "]", rest);
  }

  lemma ItemsJoin(one: Item, others: seq<Item>, rest: string)
    requires one.before == "" && Blanks(one.after) && Fits(one.value) && others != [] && ItemsFit(others)
    ensures ItemsFit([one] + others)
    ensures ItemsText([one] + others) + "]" + rest
         == TreeText(one.value) + (one.after + ("," + (ItemsText(others) + "]" + rest)))
  {
    ItemsJoinFit(one, others);
    hide TreeText, Fits, Blanks, ItemsText, ItemsFit;
    var all := [one] + others;
    assert all[1..] == others && all[0] == one;
    ItemsFirst(all);
    Continued("", TreeText(one.value), one.after, ItemsText(others), "]", rest);
  }

  lemma ItemsJoinFit(one: Item, others: seq<Item>)
    requires one.before == "" && Blanks(one.after) && Fits(one.value) && ItemsFit(others)
    ensures ItemsFit([one] + others)
  {
    NoBlanks();
    var all := [one] + others;
    hide Blanks, Fits;
    forall i | 0 <= i < |all| ensures ItemFits(all[i]) {
      assert i > 0 ==> all[i] == others[i - 1];
    }
    ItemsAllFit(all);
  }

  lemma ReadsObject(hook: Hook, s: string)
    requires StartsWith(s, '{') && ReadValue(hook, s).Some?
    ensures var body, rest := SkipBlanks(s[1..]), ReadValue(hook, s).value.1;
      && |body| < |s|
      && if StartsWith(body, '}') then body == "}" + rest
         else ReadMembers(hook, body).Some? && ReadMembers(hook, body).value.1 == rest
  {
    hide ReadItems, ReadMembers, ReadString, ReadInt, SkipBlanks, Collect;
    var body := SkipBlanks(s[1..]);
    assert StartsWith(body, '}') ==> body == "}" + body[1..];
  }

  lemma {:induction false} FindObject(hook: Hook, s: string) returns (t: Tree)
    requires StartsWith(s, '{') && ReadValue(hook, s).Some?
    ensures Fits(t) && t.Object? && s == TreeText(t) + ReadValue(hook, s).value.1
    decreases |s|, 0
  {
    hide ReadValue, ReadMembers, SkipBlanks, TreeText, MembersText, Fits, MembersFit, Blanks, ShiftedMembers;
    ReadsObject(hook, s);
    var body, rest := SkipBlanks(s[1..]), ReadValue(hook, s).value.1;
    var b := FindBlanks(s[1..]);
    assert s == "{" + (b + body);
    if StartsWith(body, '}') {
      t := Object(b, []);
      EmptyFit(b);
      ObjectText(b, [], rest);
      EmptyTexts();
      assert body == "" + "}" + rest;
    } else {
      var members := FindMembers(hook, body);
      t := Object("", ShiftedMembers(b, members));
      MembersShifted(b, members);
      ObjectText("", ShiftedMembers(b, members), rest);
      Prefixed(b, MembersText(members), "}", rest);
    }
  }

  ghost predicate MemberFits(m: Member) {
    Blanks(m.before) && Blanks(m.beforeColon) && Blanks(m.afterColon) && Blanks(m.after) && GlyphsFit(m.key)
    && Fits(m.value)
  }

  function MemberText(m: Member): string {
    m.before + ("\"" + GlyphsText(m.key) + "\"") + m.beforeColon + ":" + m.afterColon + TreeText(m.value) + m.after
  }

  function ShiftedMembers(b: string, members: seq<Member>): (all: seq<Member>)
    requires members != []
    ensures |all| == |members| && all[1..] == members[1..]
  {
    [members[0].(before := b + members[0].before)] + members[1..]
  }

  lemma ShiftedMembersFit(b: string, members: seq<Member>)
    requires Blanks(b) && members != [] && MembersFit(members)
    ensures MembersFit(ShiftedMembers(b, members)) && Fits(Object("", ShiftedMembers(b, members)))
  {
    hide Blanks, Fits, GlyphsFit;
    var all := ShiftedMembers(b, members);
    BlanksJoin(b, members[0].before);
    forall i | 0 <= i < |all| ensures MemberFits(all[i]) {
      assert i > 0 ==> all[i] == all[1..][i - 1] == members[1..][i - 1] == members[i];
    }
    hide MembersFit;
    MembersAllFit(all);
  }

  lemma BlanksJoin(a: string, b: string)
    requires Blanks(a) && Blanks(b)
    ensures Blanks(a + b)
  {
  }

  lemma MembersShifted(b: string, members: seq<Member>)
    requires Blanks(b) && members != [] && MembersFit(members)
    ensures var all := ShiftedMembers(b, members);
      MembersText(all) == b + MembersText(members) && MembersFit(all) && Fits(Object("", all))
  {
    hide MemberText, TreeText, MembersText, Blanks, MemberFits, Fits, MembersFit, GlyphsFit;
    ShiftedMembersFit(b, members);
    var all := ShiftedMembers(b, members);
    FirstMemberText(all);
    FirstMemberText(members);
    ShiftedMember(b, members[0]);
    var more := if |members| == 1 then "" else "," + MembersText(members[1..]);
    assert (b + MemberText(members[0])) + more == b + (MemberText(members[0]) + more);
    Commas(MemberText(members[0]), MembersText(members[1..]));
    Commas(MemberText(all[0]), MembersText(members[1..]));
  }

  lemma FirstMemberText(members: seq<Member>)
    requires members != []
    ensures MembersText(members)
         == if |members| == 1 then MemberText(members[0]) else MemberText(members[0]) + "," + MembersText(members[1..])
  {
    hide TreeText, GlyphsText;
  }

  lemma ShiftedMember(b: string, m: Member)
    ensures MemberText(m.(before := b + m.before)) == b + MemberText(m)
  {
    hide TreeText, GlyphsText;
    var x := ("\"" + GlyphsText(m.key) + "\"") + m.beforeColon + ":" + m.afterColon + TreeText(m.value) + m.after;
    assert MemberText(m) == m.before + x;
    assert MemberText(m.(before := b + m.before)) == b + m.before + x;
  }

  lemma MembersAllFit(all: seq<Member>)
    requires all != [] && forall i :: 0 <= i < |all| ==> MemberFits(all[i])
    ensures MembersFit(all) && Fits(Object("", all))
  {
    hide Blanks, GlyphsFit;
    NoBlanks();
    assert MembersFit(all);
    hide MembersFit;
  }

  lemma FindKey(s: string) returns (m: Member)
    requires ReadKey(s).Some?
    ensures m.before == "" && Blanks(m.beforeColon) && Blanks(m.afterColon) && GlyphsFit(m.key)
    ensures s == "\"" + (KeyBody(m) + ReadKey(s).value.1)
  {
    hide ReadString, SkipBlanks, GlyphsText, GlyphsFit, Blanks;
    var t := ReadString(s[1..]).value.1;
    var gs := FindGlyphs(s[1..]);
    var b := FindBlanks(t);
    var u := SkipBlanks(t);
    var c := FindBlanks(u[1..]);
    var rest := SkipBlanks(u[1..]);
    m := Member("", gs, b, c, Word("null"), "");
    assert s == "\"" + s[1..] && u == ":" + u[1..] && ReadKey(s).value.1 == rest;
    hide ReadKey, StartsWith;
    KeyParts(GlyphsText(gs) + "\"", b, c, rest);
  }

  lemma KeyParts(key: string, b: string, c: string, rest: string)
    ensures key + (b + (":" + (c + rest))) == key + (b + (":" + c)) + rest
  {
  }

  lemma ReadsMembers(hook: Hook, s: string)
    requires ReadMembers(hook, s).Some?
    ensures ReadKey(s).Some? && ReadValue(hook, ReadKey(s).value.1).Some?
    ensures var w, rest := SkipBlanks(ReadValue(hook, ReadKey(s).value.1).value.1), ReadMembers(hook, s).value.1;
      && w != ""
      && if w[0] == '}' then w == "}" + rest
         else
           var next := SkipBlanks(w[1..]);
           w[0] == ',' && |next| < |s| && ReadMembers(hook, next).Some? && ReadMembers(hook, next).value.1 == rest
  {
    hide ReadValue, SkipBlanks, ReadKey;
    var w := SkipBlanks(ReadValue(hook, ReadKey(s).value.1).value.1);
    assert w[0] == '}' ==> w == "}" + w[1..];
  }

  lemma {:induction false} FindMembers(hook: Hook, s: string) returns (members: seq<Member>)
    requires ReadMembers(hook, s).Some?
    ensures members != [] && MembersFit(members) && s == MembersText(members) + "}" + ReadMembers(hook, s).value.1
    decreases |s|, 3
  {
    hide ReadValue, ReadMembers, ReadKey, SkipBlanks, TreeText, MembersText, Fits, MembersFit, Blanks, KeyBody;
    hide GlyphsFit, ShiftedMembers, Follows;
    ReadsMembers(hook, s);
    var t := ReadKey(s).value.1;
    var u, rest := ReadValue(hook, t).value.1, ReadMembers(hook, s).value.1;
    var w := SkipBlanks(u);
    var key := FindKey(s);
    var tree := FindTree(hook, t);
    var after := FindBlanks(u);
    var one := key.(value := tree, after := after);
    NoBlanks();
    SameKey(one, key);
    assert t == TreeText(tree) + (after + w);
    if w[0] == '}' {
      members := [one];
      NoMembersFit();
      MembersJoin(one, [], rest);
      assert [one] + [] == [one];
    } else {
      var b := FindBlanks(w[1..]);
      var body := SkipBlanks(w[1..]);
      var more := FindMembers(hook, body);
      MembersShifted(b, more);
      var others := ShiftedMembers(b, more);
      members := [one] + others;
      MembersJoin(one, others, rest);
      assert w == "," + w[1..] == "," + (b + body);
      assert body == MembersText(more) + "}" + rest;
      Prefixed(b, MembersText(more), "}", rest);
      assert "" + (MembersText(others) + "}" + rest) == MembersText(others) + "}" + rest;
    }
  }

  lemma NoMembersFit()
    ensures MembersFit([])
  {
  }

  lemma SameKey(a: Member, b: Member)
    requires a.key == b.key && a.beforeColon == b.beforeColon && a.afterColon == b.afterColon
    ensures KeyBody(a) == KeyBody(b)
  {
  }

  lemma MembersJoin(one: Member, others: seq<Member>, rest: string)
    requires one.before == "" && MemberFits(one) && MembersFit(others)
    ensures MembersFit([one] + others)
    ensures MembersText([one] + others) + "}" + rest
         == "\"" + (KeyBody(one) + (TreeText(one.value) + (one.after + if others == [] then "}" + rest
                                                                        else "," + (MembersText(others) + "}" + rest))))
  {
    var all := [one] + others;
    assert all[1..] == others;
    MembersRegroup(all, rest);
    hide TreeText, Fits, Blanks, GlyphsFit, MembersText, KeyBody;
    assert "" + MembersBody(all, rest) == MembersBody(all, rest);
    forall i | 0 <= i < |all| ensures MemberFits(all[i]) {
      assert i > 0 ==> all[i] == others[i - 1];
    }
    MembersAllFit(all);
  }

  // ----- The whole text -----

  /** Blanks, one value, blanks. */
  predicate Document(s: string, before: string, t: Tree, after: string) {
    Blanks(before) && Blanks(after) && Fits(t) && s == before + TreeText(t) + after
  }

  lemma ParseDocument(hook: Hook, s: string, before: string, t: Tree, after: string)
    requires Document(s, before, t, after)
    ensures Parse(hook, s) == Meaning(hook, t)
  {
    TreeStart(t);
    assert s == before + (TreeText(t) + after);
    hide TreeText, Meaning, ReadValue, Fits;
    SkipsBlanks(before, TreeText(t) + after);
    AfterDocument(t, after);
    ReadTree(hook, t, after);
    SkipsBlanks(after, "");
    assert after + "" == after;
  }

  lemma AfterDocument(t: Tree, after: string)
    requires Blanks(after)
    ensures Follows(t, after)
  {
    assert after != "" ==> !Decimal.IsDigit(after[0]);
  }

  /**
   * What is accepted and what is read: a text is read as a value exactly if it is blanks around a
   * tree that means this value.
   */
  lemma ParsesExactly(hook: Hook, s: string, v: Json)
    ensures Parse(hook, s) == Some(v) <==>
      exists before, t, after :: Document(s, before, t, after) && Meaning(hook, t) == Some(v)
  {
    hide TreeText, Meaning, Fits, Blanks, ReadValue;
    if Parse(hook, s) == Some(v) {
      var before, t, after := FindDocument(hook, s);
      ParseDocument(hook, s, before, t, after);
    }
    if before, t, after :| Document(s, before, t, after) && Meaning(hook, t) == Some(v) {
      ParseDocument(hook, s, before, t, after);
    }
  }

  lemma FindDocument(hook: Hook, s: string) returns (before: string, t: Tree, after: string)
    requires Parse(hook, s).Some?
    ensures Document(s, before, t, after)
  {
    hide TreeText, Fits, Blanks, ReadValue, SkipBlanks;
    before := FindBlanks(s);
    t := FindTree(hook, SkipBlanks(s));
    var rest := ReadValue(hook, SkipBlanks(s)).value.1;
    after := FindBlanks(rest);
    assert after + "" == after;
    assert before + (TreeText(t) + after) == before + TreeText(t) + after;
  }
}
