/** JSON texts whose members stand in the order in which they were set, with numbers of any kind. */
module Dumped {
  import opened Prelude
  import Decimal
  import Json
  import TextOrder

  /** What the server serialises. A float is given by its text, which `repr` or the model serialiser chooses. */
  datatype Value =
    | Null
    | Bool(b: bool)
    | Number(digits: string)
    | Str(text: Text)
    | List(items: seq<Value>)
    | Members(members: seq<(Text, Value)>)

  predicate IsNumber(s: string) {
    || (s != "" && forall c | c in s :: c in "0123456789+-.eE")
    || s == "NaN" || s == "Infinity" || s == "-Infinity"
  }

  predicate Printable(v: Value, style: Json.Style) {
    match v
    case Number(s) => IsNumber(s)
    case Str(t) => Json.PrintableText(t, style)
    case List(items) => forall x | x in items :: Printable(x, style)
    case Members(ms) => forall m | m in ms :: Json.PrintableText(m.0, style) && Printable(m.1, style)
    case _ => true
  }

  function Dump(v: Value, style: Json.Style): string
    requires Printable(v, style)
    decreases v, 1
  {
    match v
    case Null => "null"
    case Bool(b) => if b then "true" else "false"
    case Number(s) => s
    case Str(t) => Json.PrintString(t, style)
    case List(items) => "[" + DumpItems(items, style) + "]"
    case Members(ms) => "{" + DumpMembers(ms, style) + "}"
  }

  function DumpItems(items: seq<Value>, style: Json.Style): string
    requires forall x | x in items :: Printable(x, style)
    decreases items, 0
  {
    if items == [] then ""
    else if |items| == 1 then Dump(items[0], style)
    else Dump(items[0], style) + Json.Comma(style) + DumpItems(items[1..], style)
  }

  function DumpMember(m: (Text, Value), style: Json.Style): string
    requires Json.PrintableText(m.0, style) && Printable(m.1, style)
    decreases m, 0
  {
    Json.PrintString(m.0, style) + Json.Colon(style) + Dump(m.1, style)
  }

  function DumpMembers(ms: seq<(Text, Value)>, style: Json.Style): string
    requires forall m | m in ms :: Json.PrintableText(m.0, style) && Printable(m.1, style)
    decreases ms, 0
  {
    if ms == [] then ""
    else if |ms| == 1 then DumpMember(ms[0], style)
    else DumpMember(ms[0], style) + Json.Comma(style) + DumpMembers(ms[1..], style)
  }

  // ----- No control characters -----

  /** No C0 control character, and so no newline in particular. */
  predicate NoControl(s: string) {
    forall i | 0 <= i < |s| :: s[i] >= ' '
  }

  lemma Enclosed(open: string, body: string, close: string)
    requires NoControl(open) && NoControl(body) && NoControl(close)
    ensures NoControl(open + body + close)
  {
  }

  lemma RuneNoControl(r: Rune, ascii: bool)
    requires ascii || IsScalar(r)
    ensures NoControl(Json.EscapeRune(r, ascii))
  {
  }

  lemma {:induction false} EscapedNoControl(t: Text, style: Json.Style)
    requires Json.PrintableText(t, style)
    ensures NoControl(Json.EscapeText(t, style)) && NoControl(Json.PrintString(t, style))
  {
    if t != [] {
      EscapedNoControl(t[1..], style);
      RuneNoControl(t[0], style.ascii);
      hide Json.EscapeRune;
    }
    Enclosed("\"", Json.EscapeText(t, style), "\"");
  }

  lemma NumberNoControl(s: string)
    requires IsNumber(s)
    ensures NoControl(s)
  {
    forall i | 0 <= i < |s| ensures s[i] >= ' ' {
      assert s[i] in s;
    }
  }

  /** Whatever a value holds, its text has no C0 control character. */
  lemma {:induction false} DumpNoControl(v: Value, style: Json.Style)
    requires Printable(v, style)
    ensures NoControl(Dump(v, style))
    decreases v, 1
  {
    hide Json.PrintString, DumpItems, DumpMembers, IsNumber;
    match v
    case Number(s) =>
      NumberNoControl(s);
    case Str(t) =>
      EscapedNoControl(t, style);
    case List(items) =>
      ItemsNoControl(items, style);
      Enclosed("[", DumpItems(items, style), "]");
    case Members(ms) =>
      MembersNoControl(ms, style);
      Enclosed("{", DumpMembers(ms, style), "}");
    case _ =>
  }

  lemma {:induction false} ItemsNoControl(items: seq<Value>, style: Json.Style)
    requires forall x | x in items :: Printable(x, style)
    ensures NoControl(DumpItems(items, style))
    decreases items, 0
  {
    hide Dump;
    if items != [] {
      DumpNoControl(items[0], style);
      ItemsNoControl(items[1..], style);
      Enclosed(Dump(items[0], style), Json.Comma(style), DumpItems(items[1..], style));
    }
  }

  lemma {:induction false} MemberNoControl(m: (Text, Value), style: Json.Style)
    requires Json.PrintableText(m.0, style) && Printable(m.1, style)
    ensures NoControl(DumpMember(m, style))
    decreases m, 0
  {
    hide Dump, Json.PrintString;
    EscapedNoControl(m.0, style);
    DumpNoControl(m.1, style);
    Enclosed(Json.PrintString(m.0, style), Json.Colon(style), Dump(m.1, style));
  }

  lemma {:induction false} MembersNoControl(ms: seq<(Text, Value)>, style: Json.Style)
    requires forall m | m in ms :: Json.PrintableText(m.0, style) && Printable(m.1, style)
    ensures NoControl(DumpMembers(ms, style))
    decreases ms, 0
  {
    hide DumpMember;
    if ms != [] {
      MemberNoControl(ms[0], style);
      MembersNoControl(ms[1..], style);
      Enclosed(DumpMember(ms[0], style), Json.Comma(style), DumpMembers(ms[1..], style));
    }
  }

  /** What a text starts with is a quote, a bracket, a letter, a digit, or a sign or point of a number. */
  lemma DumpStart(v: Value, style: Json.Style)
    requires Printable(v, style)
    ensures Dump(v, style) != "" && Dump(v, style)[0] in "\"{[ntfNI0123456789+-.eE"
  {
    hide DumpItems, DumpMembers, Json.EscapeText;
    if v.Number? {
      NumberStart(v.digits);
    }
  }

  lemma NumberStart(s: string)
    requires IsNumber(s)
    ensures s != "" && (s[0] in "0123456789+-.eE" || s[0] == 'N' || s[0] == 'I')
  {
  }

  // ----- Sorted members are a special case -----

  /** A value with its members in the order of their keys. */
  function InOrder(v: Json.Json): Value
    decreases v, 1
  {
    match v
    case Null => Null
    case Bool(b) => Bool(b)
    case Int(n) => Number(Json.PrintInt(n))
    case Str(t) => Str(t)
    case List(items) => List(seq(|items|, i requires 0 <= i < |items| => InOrder(items[i])))
    case Obj(fields) => Members(MembersOf(v, TextOrder.Sorted(fields.Keys)))
  }

  function MembersOf(v: Json.Json, keys: seq<Text>): (ms: seq<(Text, Value)>)
    requires v.Obj? && forall k | k in keys :: k in v.fields
    ensures |ms| == |keys|
    decreases v, 0
  {
    seq(|keys|, i requires 0 <= i < |keys| => (keys[i], InOrder(v.fields[keys[i]])))
  }

  lemma IntIsNumber(n: int)
    ensures IsNumber(Json.PrintInt(n))
  {
    var d := Decimal.Numeral(if n < 0 then -n else n);
    forall c | c in d ensures c in "0123456789" {
      var i :| 0 <= i < |d| && d[i] == c;
      assert Decimal.IsDigit(d[i]);
      DigitIn(c);
    }
  }

  lemma DigitIn(c: char)
    requires Decimal.IsDigit(c)
    ensures c in "0123456789"
  {
    var s := "0123456789";
    assert s[c as int - 48] == c;
  }

  lemma {:induction false} InOrderPrintable(v: Json.Json, style: Json.Style)
    requires Json.Printable(v, style)
    ensures Printable(InOrder(v), style)
  {
    match v
    case Int(n) =>
      IntIsNumber(n);
    case List(items) =>
      forall i | 0 <= i < |items| ensures Printable(InOrder(items[i]), style) { InOrderPrintable(items[i], style); }
    case Obj(fields) =>
      forall k | k in fields ensures Json.PrintableText(k, style) && Printable(InOrder(fields[k]), style) {
        InOrderPrintable(fields[k], style);
      }
    case _ =>
  }

  /** Printing with sorted keys is printing the members in that order. */
  lemma {:induction false} DumpsAsPrinted(v: Json.Json, style: Json.Style)
    requires Json.Printable(v, style)
    ensures Printable(InOrder(v), style) && Dump(InOrder(v), style) == Json.Print(v, style)
    decreases v, 1, 0
  {
    InOrderPrintable(v, style);
    match v
    case List(items) =>
      ItemsDumpAsPrinted(items, style);
      hide Json.PrintItems, DumpItems;
    case Obj(fields) =>
      MembersDumpAsPrinted(v, TextOrder.Sorted(fields.Keys), style);
      hide Json.PrintMembers, DumpMembers, MembersOf;
    case _ =>
  }

  lemma {:induction false} ItemsDumpAsPrinted(items: seq<Json.Json>, style: Json.Style)
    requires forall x | x in items :: Json.Printable(x, style)
    ensures var vs := InOrder(Json.List(items)).items;
      (forall x | x in vs :: Printable(x, style)) && DumpItems(vs, style) == Json.PrintItems(items, style)
    decreases items, 0, 0
  {
    hide Json.Print, Dump, Printable;
    var vs := InOrder(Json.List(items)).items;
    forall i | 0 <= i < |items| ensures Printable(vs[i], style) { InOrderPrintable(items[i], style); }
    if items != [] {
      DumpsAsPrinted(items[0], style);
      ItemsDumpAsPrinted(items[1..], style);
      assert vs[1..] == InOrder(Json.List(items[1..])).items;
    }
  }

  lemma {:induction false} MembersDumpAsPrinted(v: Json.Json, keys: seq<Text>, style: Json.Style)
    requires v.Obj? && Json.Printable(v, style) && forall k | k in keys :: k in v.fields
    ensures var ms := MembersOf(v, keys);
      && (forall m | m in ms :: Json.PrintableText(m.0, style) && Printable(m.1, style))
      && DumpMembers(ms, style) == Json.PrintMembers(v, keys, style)
    decreases v, 0, |keys|
  {
    hide Json.Print, Dump, Printable, Json.PrintString;
    var ms := MembersOf(v, keys);
    forall i | 0 <= i < |keys| ensures Json.PrintableText(ms[i].0, style) && Printable(ms[i].1, style) {
      assert keys[i] in v.fields;
      InOrderPrintable(v.fields[keys[i]], style);
    }
    if keys != [] {
      assert keys[0] in v.fields;
      DumpsAsPrinted(v.fields[keys[0]], style);
      MembersDumpAsPrinted(v, keys[1..], style);
      assert ms[1..] == MembersOf(v, keys[1..]);
    }
  }
}
