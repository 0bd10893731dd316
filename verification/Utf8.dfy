/** UTF-8 as Python's strict codec reads and writes it. */
module Utf8 {
  import opened Prelude

  function EncodeChar(c: char): (bs: seq<Byte>)
    ensures 1 <= |bs| <= 4
  {
    var n := c as int;
    if n < 0x80 then [n]
    else if n < 0x800 then [0xC0 + n / 64, 0x80 + n % 64]
    else if n < 0x1_0000 then [0xE0 + n / 64 / 64, 0x80 + n / 64 % 64, 0x80 + n % 64]
    else [0xF0 + n / 64 / 64 / 64, 0x80 + n / 64 / 64 % 64, 0x80 + n / 64 % 64, 0x80 + n % 64]
  }

  function Encode(s: string): seq<Byte> {
    if s == "" then [] else EncodeChar(s[0]) + Encode(s[1..])
  }

  predicate IsContinuation(b: Byte) { 0x80 <= b < 0xC0 }

  function Low6(b: Byte): (n: int)
    requires IsContinuation(b)
    ensures 0 <= n < 64
  {
    b - 0x80
  }

  /** The first character and how many bytes it took; `None` on overlong, truncated or surrogate forms. */
  function DecodeChar(bs: seq<Byte>): (r: Option<(char, nat)>)
    requires bs != []
    ensures r.Some? ==> 1 <= r.value.1 <= |bs|
  {
    var lead: int := bs[0];
    if lead < 0x80 then Some((lead as char, 1))
    else if 0xC2 <= lead < 0xE0 && |bs| >= 2 && IsContinuation(bs[1]) then
      var n := (lead - 0xC0) * 64 + Low6(bs[1]);
      Some((n as char, 2))
    else if 0xE0 <= lead < 0xF0 && |bs| >= 3 && IsContinuation(bs[1]) && IsContinuation(bs[2]) then
      var n := ((lead - 0xE0) * 64 + Low6(bs[1])) * 64 + Low6(bs[2]);
      if n < 0x800 || 0xD800 <= n < 0xE000 then None else Some((n as char, 3))
    else if 0xF0 <= lead < 0xF5 && |bs| >= 4
            && IsContinuation(bs[1]) && IsContinuation(bs[2]) && IsContinuation(bs[3]) then
      var n := (((lead - 0xF0) * 64 + Low6(bs[1])) * 64 + Low6(bs[2])) * 64 + Low6(bs[3]);
      if n < 0x1_0000 || 0x11_0000 <= n then None else Some((n as char, 4))
    else None
  }

  function Decode(bs: seq<Byte>): Option<string> {
    if bs == [] then Some("")
    else
      match DecodeChar(bs)
      case None => None
      case Some((c, n)) =>
        match Decode(bs[n..])
        case None => None
        case Some(s) => Some([c] + s)
  }

  lemma DecodeCharOfEncode(c: char, rest: seq<Byte>)
    ensures DecodeChar(EncodeChar(c) + rest) == Some((c, |EncodeChar(c)|))
  {
    var n := c as int;
    assert n < 0xD800 || 0xE000 <= n < 0x11_0000;
    var bs := EncodeChar(c) + rest;
    assert n as char == c;
    if n < 0x80 {
      assert bs[0] == n;
    } else if n < 0x800 {
      assert bs[0] == 0xC0 + n / 64 && bs[1] == 0x80 + n % 64;
    } else if n < 0x1_0000 {
      assert bs[0] == 0xE0 + n / 64 / 64 && bs[1] == 0x80 + n / 64 % 64 && bs[2] == 0x80 + n % 64;
    } else {
      assert bs[0] == 0xF0 + n / 64 / 64 / 64 && bs[1] == 0x80 + n / 64 / 64 % 64;
      assert bs[2] == 0x80 + n / 64 % 64 && bs[3] == 0x80 + n % 64;
    }
  }

  /** Decoding undoes encoding, so encoding is injective. */
  lemma {:induction false} RoundTrip(s: string)
    ensures Decode(Encode(s)) == Some(s)
  {
    if s != "" {
      var bs := EncodeChar(s[0]) + Encode(s[1..]);
      DecodeCharOfEncode(s[0], Encode(s[1..]));
      RoundTrip(s[1..]);
      assert bs[|EncodeChar(s[0])|..] == Encode(s[1..]);
      assert Encode(s) == bs && bs != [];
      assert s == [s[0]] + s[1..];
    }
  }

  lemma EncodeCharOfDecode(bs: seq<Byte>)
    requires bs != [] && DecodeChar(bs).Some?
    ensures var (c, n) := DecodeChar(bs).value; EncodeChar(c) == bs[..n]
  {
    var (c, n) := DecodeChar(bs).value;
    var lead: int := bs[0];
    if n == 2 {
      TwoDigits(lead - 0xC0, Low6(bs[1]));
    } else if n == 3 {
      ThreeDigits(lead - 0xE0, Low6(bs[1]), Low6(bs[2]));
    } else if n == 4 {
      ThreeDigits((lead - 0xF0) * 64 + Low6(bs[1]), Low6(bs[2]), Low6(bs[3]));
      TwoDigits(lead - 0xF0, Low6(bs[1]));
    }
  }

  lemma ThreeDigits(high: int, middle: int, low: int)
    requires 0 <= middle < 64 && 0 <= low < 64
    ensures var n := (high * 64 + middle) * 64 + low;
      n / 64 / 64 == high && n / 64 % 64 == middle && n % 64 == low
  {
    TwoDigits(high * 64 + middle, low);
    TwoDigits(high, middle);
  }

  lemma TwoDigits(high: int, low: int)
    requires 0 <= low < 64
    ensures (high * 64 + low) / 64 == high && (high * 64 + low) % 64 == low
  {
  }

  /** Decoding is strict: the only bytes with a decoding are the encoding of it. */
  lemma {:induction false} DecodesExactly(bs: seq<Byte>, s: string)
    ensures Decode(bs) == Some(s) <==> bs == Encode(s)
  {
    RoundTrip(s);
    if bs != [] && Decode(bs) == Some(s) {
      var (c, n) := DecodeChar(bs).value;
      EncodeCharOfDecode(bs);
      DecodesExactly(bs[n..], s[1..]);
      assert s[0] == c && bs == bs[..n] + bs[n..];
    }
  }

  /** How many bytes a character takes, and that its number is what they carry (section 3 of RFC 3629). */
  lemma EncodesNumber(c: char)
    ensures var n: int, b: seq<int> := c as int, EncodeChar(c);
      && (n < 0x80 ==> b == [n])
      && (0x80 <= n < 0x800 ==> |b| == 2 && 0xC0 <= b[0] < 0xE0 && n == (b[0] - 0xC0) * 0x40 + (b[1] - 0x80))
      && (0x800 <= n < 0x1_0000 ==>
            |b| == 3 && 0xE0 <= b[0] < 0xF0 && n == (b[0] - 0xE0) * 0x1000 + (b[1] - 0x80) * 0x40 + (b[2] - 0x80))
      && (0x1_0000 <= n ==>
            && |b| == 4 && 0xF0 <= b[0] < 0xF8
            && n == (b[0] - 0xF0) * 0x4_0000 + (b[1] - 0x80) * 0x1000 + (b[2] - 0x80) * 0x40 + (b[3] - 0x80))
      && forall i :: 1 <= i < |b| ==> 0x80 <= b[i] < 0xC0
  {
    var n := c as int;
    assert n < 0xD800 || 0xE000 <= n < 0x11_0000;
  }
  /** ASCII characters are encoded as themselves. */
  lemma {:induction false} AsciiAsItself(s: string)
    requires forall i :: 0 <= i < |s| ==> s[i] < 128 as char
    ensures |Encode(s)| == |s| && forall i :: 0 <= i < |s| ==> Encode(s)[i] == s[i] as int
  {
    if s != "" {
      AsciiAsItself(s[1..]);
      forall i | 0 <= i < |s| ensures Encode(s)[i] == s[i] as int {
        if i > 0 {
          assert Encode(s)[i] == Encode(s[1..])[i - 1] && s[i] == s[1..][i - 1];
        }
      }
    }
  }

  lemma {:induction false} EncodeLength(s: string)
    ensures |Encode(s)| <= 4 * |s|
  {
    if s != "" {
      EncodeLength(s[1..]);
      hide EncodeChar;
    }
  }
}
