/** `json.loads`, restricted to integers for numbers. Each reader returns what it read and the unread rest. */
module JsonParser {
  import opened Prelude
  import opened Json
  import Decimal

  predicate IsBlank(c: char) { c == ' ' || c == '\t' || c == '\n' || c == '\r' }

  function SkipBlanks(s: string): (t: string)
    ensures |t| <= |s|
    ensures t == "" || !IsBlank(t[0])
  {
    if s != "" && IsBlank(s[0]) then SkipBlanks(s[1..]) else s
  }

  predicate StartsWith(s: string, c: char) { s != "" && s[0] == c }

  // ----- Strings -----

  function HexValue(c: char): (r: Option<int>)
    ensures r.Some? ==> 0 <= r.value < 16
  {
    if '0' <= c <= '9' then Some(c as int - 48)
    else if 'a' <= c <= 'f' then Some(c as int - 87)
    else if 'A' <= c <= 'F' then Some(c as int - 55)
    else None
  }

  /** The code unit of the `\uXXXX` escape that `s` starts with, if it starts with one. */
  function UnicodeUnit(s: string): (r: Option<int>)
    ensures r.Some? ==> |s| >= 6 && 0 <= r.value < 0x1_0000
  {
    if |s| < 6 || s[0] != '\\' || s[1] != 'u' then None
    else
      var a :- HexValue(s[2]);
      var b :- HexValue(s[3]);
      var c :- HexValue(s[4]);
      var d :- HexValue(s[5]);
      Some(((a * 16 + b) * 16 + c) * 16 + d)
  }

  function Unescape(c: char): Option<Rune> {
    if c == '"' then Some(0x22)
    else if c == '\\' then Some(0x5C)
    else if c == '/' then Some(0x2F)
    else if c == 'b' then Some(0x08)
    else if c == 'f' then Some(0x0C)
    else if c == 'n' then Some(0x0A)
    else if c == 'r' then Some(0x0D)
    else if c == 't' then Some(0x09)
    else None
  }

  /** The escape for a low surrogate stands at the front of `s`. */
  predicate LowAhead(s: string) {
    UnicodeUnit(s).Some? && IsLow(UnicodeUnit(s).value)
  }

  /** One character or escape; an escaped high surrogate takes an escaped low one after it along. */
  function ReadRune(s: string): (r: Option<(Rune, string)>)
    ensures r.Some? ==> |r.value.1| < |s|
    ensures r.Some? && IsLow(r.value.0) ==> LowAhead(s)
    ensures r.Some? && IsHigh(r.value.0) ==> !LowAhead(r.value.1)
  {
    if s == "" || s[0] < ' ' then None
    else if s[0] != '\\' then Some((Runes(s)[0], s[1..]))
    else if |s| >= 2 && s[1] == 'u' then
      var unit :- UnicodeUnit(s);
      if IsHigh(unit) && LowAhead(s[6..]) then
        var low := UnicodeUnit(s[6..]).value;
        Some((0x1_0000 + (unit - 0xD800) * 1024 + (low - 0xDC00), s[12..]))
      else Some((unit, s[6..]))
    else if |s| >= 2 then
      var r :- Unescape(s[1]);
      Some((r, s[2..]))
    else None
  }

  /** The string whose opening quote has just been read. */
  function ReadString(s: string): (r: Option<(Text, string)>)
    ensures r.Some? ==> |r.value.1| < |s|
  {
    if s == "" then None
    else if s[0] == '"' then Some(([], s[1..]))
    else
      var (r, t) :- ReadRune(s);
      var (rs, rest) :- ReadString(t);
      Some(([r] + rs, rest))
  }

  // ----- Values -----

  function ReadInt(s: string): (r: Option<(Json, string)>)
    ensures r.Some? ==> |r.value.1| < |s|
  {
    var t := if StartsWith(s, '-') then s[1..] else s;
    var n := if StartsWith(t, '0') then 1 else Decimal.Span(t);
    if n == 0 then None
    else
      var m: int := Decimal.Value(t[..n]);
      Some((Int(if StartsWith(s, '-') then -m else m), t[n..]))
  }

  /** The `object_pairs_hook`: the pairs as a dictionary, unless a key occurs twice. */
  function FromPairs(pairs: seq<(Text, Json)>): Option<map<Text, Json>> {
    if pairs == [] then Some(map[])
    else
      var m :- FromPairs(pairs[..|pairs| - 1]);
      var (k, v) := pairs[|pairs| - 1];
      if k in m then None else Some(m[k := v])
  }

  /** What `json.loads` does by itself: a later pair replaces an earlier one with the same key. */
  function LastWins(pairs: seq<(Text, Json)>): map<Text, Json> {
    if pairs == [] then map[]
    else
      var (k, v) := pairs[|pairs| - 1];
      LastWins(pairs[..|pairs| - 1])[k := v]
  }

  /** How the members of an object become a dictionary. */
  datatype Hook = RejectDuplicates | KeepLast

  function Collect(hook: Hook, pairs: seq<(Text, Json)>): Option<map<Text, Json>> {
    if hook.RejectDuplicates? then FromPairs(pairs) else Some(LastWins(pairs))
  }

  /** Where both apply they agree. */
  lemma {:induction false} HooksAgree(pairs: seq<(Text, Json)>)
    ensures FromPairs(pairs).Some? ==> FromPairs(pairs).value == LastWins(pairs)
  {
    if pairs != [] {
      HooksAgree(pairs[..|pairs| - 1]);
    }
  }

  lemma {:induction false} LastWinsFrom(pairs: seq<(Text, Json)>, k: Text)
    ensures k in LastWins(pairs) ==> (k, LastWins(pairs)[k]) in pairs
    ensures k in LastWins(pairs) <==> exists p :: p in pairs && p.0 == k
  {
    if pairs != [] {
      var init, last := pairs[..|pairs| - 1], pairs[|pairs| - 1];
      LastWinsFrom(init, k);
      assert pairs == init + [last];
    }
  }

  /** The hook as its loop runs. */
  method RejectDuplicatePairs(pairs: seq<(Text, Json)>) returns (result: Option<map<Text, Json>>)
    ensures result == FromPairs(pairs)
    ensures result.Some? <==> forall i, j :: 0 <= i < j < |pairs| ==> pairs[i].0 != pairs[j].0
    ensures result.Some? ==> result.value.Items == set p | p in pairs
  {
    var m: map<Text, Json> := map[];
    for i := 0 to |pairs|
      invariant FromPairs(pairs[..i]) == Some(m)
    {
      assert pairs[..i + 1][..i] == pairs[..i];
      if pairs[i].0 in m {
        assert FromPairs(pairs[..i + 1]) == None;
        FromPairsPrefix(pairs, i + 1);
        FromPairsDistinct(pairs);
        return None;
      }
      m := m[pairs[i].0 := pairs[i].1];
    }
    assert pairs[..|pairs|] == pairs;
    FromPairsDistinct(pairs);
    FromPairsItems(pairs);
    return Some(m);
  }

  lemma {:induction false} FromPairsPrefix(pairs: seq<(Text, Json)>, n: nat)
    requires n <= |pairs| && FromPairs(pairs[..n]).None?
    ensures FromPairs(pairs).None?
    decreases |pairs|
  {
    if n == |pairs| {
      assert pairs[..n] == pairs;
    } else {
      assert pairs[..|pairs| - 1][..n] == pairs[..n];
      FromPairsPrefix(pairs[..|pairs| - 1], n);
    }
  }

  lemma {:induction false} FromPairsItems(pairs: seq<(Text, Json)>)
    requires FromPairs(pairs).Some?
    ensures FromPairs(pairs).value.Items == set p | p in pairs
    ensures FromPairs(pairs).value.Keys == set p | p in pairs :: p.0
  {
    if pairs != [] {
      var n := |pairs| - 1;
      FromPairsItems(pairs[..n]);
      assert pairs == pairs[..n] + [pairs[n]];
      var m, m' := FromPairs(pairs[..n]).value, FromPairs(pairs).value;
      forall p ensures p in m'.Items <==> p in pairs {
        if p in m'.Items && p.0 != pairs[n].0 {
          assert p in m.Items;
        }
        if p in pairs && p != pairs[n] {
          assert p in m.Items;
          assert p.0 in m;
        }
      }
    }
  }

  lemma {:induction false} FromPairsDistinct(pairs: seq<(Text, Json)>)
    ensures FromPairs(pairs).Some? <==> forall i, j :: 0 <= i < j < |pairs| ==> pairs[i].0 != pairs[j].0
  {
    if pairs != [] {
      var n := |pairs| - 1;
      FromPairsDistinct(pairs[..n]);
      if FromPairs(pairs[..n]).Some? {
        FromPairsItems(pairs[..n]);
        var m := FromPairs(pairs[..n]).value;
        if pairs[n].0 in m {
          var p :| p in pairs[..n] && p.0 == pairs[n].0;
          var i :| 0 <= i < n && pairs[i] == p;
          assert pairs[i].0 == pairs[n].0;
        } else {
          forall i, j | 0 <= i < j < |pairs| ensures pairs[i].0 != pairs[j].0 {
            if j < n {
              assert pairs[..n][i].0 != pairs[..n][j].0;
            } else {
              assert pairs[i] in pairs[..n];
            }
          }
        }
      } else {
        var i, j :| 0 <= i < j < n && pairs[..n][i].0 == pairs[..n][j].0;
        assert pairs[i].0 == pairs[j].0;
      }
    }
  }

  /** A key, its colon, and the blanks up to its value. */
  function ReadKey(s: string): (r: Option<(Text, string)>)
    ensures r.Some? ==> |r.value.1| < |s|
  {
    if !StartsWith(s, '"') then None
    else
      var (k, t) :- ReadString(s[1..]);
      var u := SkipBlanks(t);
      if StartsWith(u, ':') then Some((k, SkipBlanks(u[1..]))) else None
  }

  function ReadValue(hook: Hook, s: string): (r: Option<(Json, string)>)
    ensures r.Some? ==> |r.value.1| < |s|
    decreases |s|, 0
  {
    if StartsWith(s, '"') then
      var (t, rest) :- ReadString(s[1..]);
      Some((Str(t), rest))
    else if StartsWith(s, '{') then
      var t := SkipBlanks(s[1..]);
      if StartsWith(t, '}') then Some((Obj(map[]), t[1..]))
      else
        var (pairs, rest) :- ReadMembers(hook, t);
        var fields :- Collect(hook, pairs);
        Some((Obj(fields), rest))
    else if StartsWith(s, '[') then
      var t := SkipBlanks(s[1..]);
      if StartsWith(t, ']') then Some((List([]), t[1..]))
      else
        var (items, rest) :- ReadItems(hook, t);
        Some((List(items), rest))
    else if "null" <= s then Some((Null, s[4..]))
    else if "true" <= s then Some((Bool(true), s[4..]))
    else if "false" <= s then Some((Bool(false), s[5..]))
    else ReadInt(s)
  }

  function ReadItems(hook: Hook, s: string): (r: Option<(seq<Json>, string)>)
    ensures r.Some? ==> |r.value.1| < |s|
    decreases |s|, 1
  {
    var (v, t) :- ReadValue(hook, s);
    var u := SkipBlanks(t);
    if StartsWith(u, ']') then Some(([v], u[1..]))
    else if StartsWith(u, ',') then
      var (vs, rest) :- ReadItems(hook, SkipBlanks(u[1..]));
      Some(([v] + vs, rest))
    else None
  }

  function ReadMembers(hook: Hook, s: string): (r: Option<(seq<(Text, Json)>, string)>)
    ensures r.Some? ==> |r.value.1| < |s|
    decreases |s|
  {
    var (k, t) :- ReadKey(s);
    var (v, u) :- ReadValue(hook, t);
    var w := SkipBlanks(u);
    if StartsWith(w, '}') then Some(([(k, v)], w[1..]))
    else if StartsWith(w, ',') then
      var (more, rest) :- ReadMembers(hook, SkipBlanks(w[1..]));
      Some(([(k, v)] + more, rest))
    else None
  }

  /** `json.loads`: one value, blanks around it, nothing else. */
  function Parse(hook: Hook, s: string): Option<Json> {
    var (v, rest) :- ReadValue(hook, SkipBlanks(s));
    if SkipBlanks(rest) == "" then Some(v) else None
  }
}
