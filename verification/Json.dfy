/** JSON values and the texts `json.dumps` prints for them. */
module Json {
  import opened Prelude
  import TextOrder
  import Decimal

  /** What `json.loads` can return, floats excluded. A tuple prints as, and is read back as, a list. */
  datatype Json =
    | Null
    | Bool(b: bool)
    | Int(n: int)
    | Str(text: Text)
    | List(items: seq<Json>)
    | Obj(fields: map<Text, Json>)

  /** `ensure_ascii`, and whether the separators are `(", ", ": ")` or `(",", ":")`; keys are always sorted. */
  datatype Style = Style(ascii: bool, spaced: bool)

  /** Every string and every key inside `v` satisfies `p`. */
  predicate Each(v: Json, p: Text -> bool) {
    match v
    case Str(t) => p(t)
    case List(items) => forall x | x in items :: Each(x, p)
    case Obj(fields) => forall k | k in fields :: p(k) && Each(fields[k], p)
    case _ => true
  }

  predicate AllScalar(t: Text) {
    forall i | 0 <= i < |t| :: IsScalar(t[i])
  }

  /** No high surrogate stands directly before a low one. */
  predicate PairFree(t: Text) {
    forall i | 0 <= i < |t| - 1 :: !(IsHigh(t[i]) && IsLow(t[i + 1]))
  }

  /** Without ASCII escapes, the text can be encoded as UTF-8 only if nothing is a surrogate. */
  predicate Printable(v: Json, style: Style) {
    style.ascii || Each(v, AllScalar)
  }

  predicate PrintableText(t: Text, style: Style) {
    style.ascii || AllScalar(t)
  }

  // ----- Strings -----

  function HexDigit(d: int): (c: char)
    requires 0 <= d < 16
  {
    if d < 10 then (48 + d) as char else (87 + d) as char
  }

  function Hex4(n: int): (s: string)
    requires 0 <= n < 0x1_0000
    ensures |s| == 4
  {
    [HexDigit(n / 16 / 16 / 16), HexDigit(n / 16 / 16 % 16), HexDigit(n / 16 % 16), HexDigit(n % 16)]
  }

  /** `\uXXXX`, in lower-case hexadecimal. */
  function UnicodeEscape(n: int): (s: string)
    requires 0 <= n < 0x1_0000
    ensures |s| == 6
  {
    "\\u" + Hex4(n)
  }

  function HighHalf(r: Rune): (h: Rune)
    requires r >= 0x1_0000
    ensures IsHigh(h)
  {
    0xD800 + (r as int - 0x1_0000) / 1024
  }

  function LowHalf(r: Rune): (l: Rune)
    requires r >= 0x1_0000
    ensures IsLow(l)
  {
    0xDC00 + (r as int - 0x1_0000) % 1024
  }

  function EscapeRune(r: Rune, ascii: bool): (s: string)
    requires ascii || IsScalar(r)
    ensures s != ""
  {
    if r == 0x22 then "\\\""
    else if r == 0x5C then "\\\\"
    else if r == 0x08 then "\\b"
    else if r == 0x09 then "\\t"
    else if r == 0x0A then "\\n"
    else if r == 0x0C then "\\f"
    else if r == 0x0D then "\\r"
    else if r < 0x20 then UnicodeEscape(r)
    else if r < 0x7F || !ascii then [ToChar(r)]
    else if r < 0x1_0000 then UnicodeEscape(r)
    else UnicodeEscape(HighHalf(r)) + UnicodeEscape(LowHalf(r))
  }

  function EscapeText(t: Text, style: Style): string
    requires PrintableText(t, style)
  {
    if t == [] then "" else EscapeRune(t[0], style.ascii) + EscapeText(t[1..], style)
  }

  function PrintString(t: Text, style: Style): string
    requires PrintableText(t, style)
  {
    "\"" + EscapeText(t, style) + "\""
  }

  // ----- Values -----

  function PrintInt(n: int): string {
    if n < 0 then "-" + Decimal.Numeral(-n) else Decimal.Numeral(n)
  }

  function Comma(style: Style): string { if style.spaced then ", " else "," }

  function Colon(style: Style): string { if style.spaced then ": " else ":" }

  function Print(v: Json, style: Style): string
    requires Printable(v, style)
    decreases v, 1, 0
  {
    match v
    case Null => "null"
    case Bool(b) => if b then "true" else "false"
    case Int(n) => PrintInt(n)
    case Str(t) => PrintString(t, style)
    case List(items) => "[" + PrintItems(items, style) + "]"
    case Obj(fields) => "{" + PrintMembers(v, TextOrder.Sorted(fields.Keys), style) + "}"
  }

  function PrintItems(items: seq<Json>, style: Style): string
    requires forall x | x in items :: Printable(x, style)
    decreases items, 0, 0
  {
    if items == [] then ""
    else if |items| == 1 then Print(items[0], style)
    else Print(items[0], style) + Comma(style) + PrintItems(items[1..], style)
  }

  function PrintMembers(v: Json, keys: seq<Text>, style: Style): string
    requires Printable(v, style) && v.Obj?
    requires forall k | k in keys :: k in v.fields
    decreases v, 0, |keys|
  {
    if keys == [] then ""
    else
      var first := PrintString(keys[0], style) + Colon(style) + Print(v.fields[keys[0]], style);
      if |keys| == 1 then first else first + Comma(style) + PrintMembers(v, keys[1..], style)
  }
}
