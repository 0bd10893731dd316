/** Unpadded base64url (RFC 4648, section 5), with Python's padding arithmetic around it. */
module Base64Url {
  import opened Prelude

  type Sextet = i: int | 0 <= i < 64

  predicate InAlphabet(c: char) {
    'A' <= c <= 'Z' || 'a' <= c <= 'z' || '0' <= c <= '9' || c == '-' || c == '_'
  }

  function ToChar(i: Sextet): (c: char)
    ensures InAlphabet(c)
  {
    if i < 26 then (65 + i) as char
    else if i < 52 then (97 + (i - 26)) as char
    else if i < 62 then (48 + (i - 52)) as char
    else if i == 62 then '-'
    else '_'
  }

  function FromChar(c: char): (i: Sextet)
    requires InAlphabet(c)
    ensures ToChar(i) == c
  {
    if 'A' <= c <= 'Z' then c as int - 65
    else if 'a' <= c <= 'z' then c as int - 97 + 26
    else if '0' <= c <= '9' then c as int - 48 + 52
    else if c == '-' then 62
    else 63
  }

  lemma FromToChar(i: Sextet)
    ensures FromChar(ToChar(i)) == i
  {
  }

  /** The four symbols of three bytes. */
  function Group(x: Byte, y: Byte, z: Byte): (s: string)
    ensures |s| == 4 && forall i :: 0 <= i < 4 ==> InAlphabet(s[i])
  {
    [ToChar(x / 4), ToChar(x % 4 * 16 + y / 16), ToChar(y % 16 * 4 + z / 64), ToChar(z % 64)]
  }

  /** `base64.urlsafe_b64encode`: padded with '=' to a multiple of four. */
  function EncodePadded(bs: seq<Byte>): string {
    if bs == [] then ""
    else if |bs| == 1 then [ToChar(bs[0] / 4), ToChar(bs[0] % 4 * 16), '=', '=']
    else if |bs| == 2 then
      [ToChar(bs[0] / 4), ToChar(bs[0] % 4 * 16 + bs[1] / 16), ToChar(bs[1] % 16 * 4), '=']
    else Group(bs[0], bs[1], bs[2]) + EncodePadded(bs[3..])
  }

  /**
   * `base64.b64decode(.., altchars=b"-_", validate=True)`. The bits that the last
   * symbol of a short group has to spare are dropped without being looked at.
   */
  function DecodePadded(s: string): (r: Option<seq<Byte>>)
  {
    if s == "" then Some([])
    else if |s| < 4 || !InAlphabet(s[0]) || !InAlphabet(s[1]) then None
    else
      var a: int, b: int := FromChar(s[0]), FromChar(s[1]);
      if s[2..] == "==" then Some([a * 4 + b / 16])
      else if !InAlphabet(s[2]) then None
      else
        var c: int := FromChar(s[2]);
        if s[3..] == "=" then Some([a * 4 + b / 16, b % 16 * 16 + c / 4])
        else if !InAlphabet(s[3]) then None
        else
          match DecodePadded(s[4..])
          case None => None
          case Some(rest) => Some([a * 4 + b / 16, b % 16 * 16 + c / 4, c % 4 * 64 + FromChar(s[3])] + rest)
  }

  /** Three bytes cut into four sextets and put together again. */
  lemma Regroup(x: Byte, y: Byte, z: Byte)
    ensures 0 <= x / 4 < 64 && 0 <= x % 4 * 16 + y / 16 < 64
    ensures 0 <= y % 16 * 4 + z / 64 < 64 && 0 <= z % 64 < 64
    ensures x / 4 * 4 + (x % 4 * 16 + y / 16) / 16 == x
    ensures (x % 4 * 16 + y / 16) % 16 * 16 + (y % 16 * 4 + z / 64) / 4 == y
    ensures (y % 16 * 4 + z / 64) % 4 * 64 + z % 64 == z
  {
  }

  lemma FourSymbols(i: Sextet, j: Sextet, k: Sextet, l: Sextet, rest: string)
    ensures var s := [ToChar(i), ToChar(j), ToChar(k), ToChar(l)] + rest;
      && s[0] == ToChar(i) && s[1] == ToChar(j) && s[2] == ToChar(k) && s[3] == ToChar(l)
      && s[2..] != "==" && s[3..] != "=" && s[4..] == rest
      && FromChar(ToChar(i)) == i && FromChar(ToChar(j)) == j
      && FromChar(ToChar(k)) == k && FromChar(ToChar(l)) == l
  {
    var s := [ToChar(i), ToChar(j), ToChar(k), ToChar(l)] + rest;
    FromToChar(i);
    FromToChar(j);
    FromToChar(k);
    FromToChar(l);
    assert s[2..][0] == ToChar(k) && s[3..][0] == ToChar(l);
    assert !InAlphabet('=');
  }

  lemma GroupRoundTrip(x: Byte, y: Byte, z: Byte, rest: string)
    ensures DecodePadded(rest).Some? ==>
      DecodePadded(Group(x, y, z) + rest) == Some([x, y, z] + DecodePadded(rest).value)
  {
    hide ToChar, FromChar, InAlphabet;
    Regroup(x, y, z);
    FourSymbols(x / 4, x % 4 * 16 + y / 16, y % 16 * 4 + z / 64, z % 64, rest);
  }

  lemma TailOfOne(x: Byte)
    ensures DecodePadded([ToChar(x / 4), ToChar(x % 4 * 16), '=', '=']) == Some([x])
  {
    hide ToChar, FromChar, InAlphabet;
    Regroup(x, 0, 0);
    FromToChar(x / 4);
    FromToChar(x % 4 * 16);
    assert [ToChar(x / 4), ToChar(x % 4 * 16), '=', '='][2..] == "==";
  }

  lemma TailOfTwo(x: Byte, y: Byte)
    ensures DecodePadded([ToChar(x / 4), ToChar(x % 4 * 16 + y / 16), ToChar(y % 16 * 4), '=']) == Some([x, y])
  {
    hide ToChar, FromChar, InAlphabet;
    Regroup(x, y, 0);
    FromToChar(x / 4);
    FromToChar(x % 4 * 16 + y / 16);
    FromToChar(y % 16 * 4);
    PaddingOutside(ToChar(y % 16 * 4));
    var s := [ToChar(x / 4), ToChar(x % 4 * 16 + y / 16), ToChar(y % 16 * 4), '='];
    assert s[2..][0] != '=' && s[3..] == "=";
  }

  lemma PaddingOutside(c: char)
    requires InAlphabet(c)
    ensures c != '='
  {
  }

  lemma {:induction false} PaddedRoundTrip(bs: seq<Byte>)
    ensures DecodePadded(EncodePadded(bs)) == Some(bs)
  {
    hide DecodePadded, ToChar, Group;
    if |bs| >= 3 {
      PaddedRoundTrip(bs[3..]);
      GroupRoundTrip(bs[0], bs[1], bs[2], EncodePadded(bs[3..]));
      assert bs == [bs[0], bs[1], bs[2]] + bs[3..];
    } else if |bs| == 2 {
      TailOfTwo(bs[0], bs[1]);
      assert bs == [bs[0], bs[1]];
    } else if |bs| == 1 {
      TailOfOne(bs[0]);
      assert bs == [bs[0]];
    } else {
      NothingRoundTrip();
    }
  }

  lemma NothingRoundTrip()
    ensures DecodePadded("") == Some([])
  {
  }

  /** `s.rstrip("=")` */
  function StripPadding(s: string): string {
    if s != "" && s[|s| - 1] == '=' then StripPadding(s[..|s| - 1]) else s
  }

  /** `"=" * n` */
  function Padding(n: nat): (p: string)
    ensures |p| == n && forall i :: 0 <= i < n ==> p[i] == '='
  {
    seq(n, _ => '=')
  }

  /** `(4 - n % 4) % 4` */
  function PadCount(n: nat): (k: nat)
    ensures k < 4 && (n + k) % 4 == 0
  {
    (4 - n % 4) % 4
  }

  lemma PadCountPeriod(n: nat)
    ensures PadCount(n + 4) == PadCount(n)
    ensures PadCount(0) == 0 && PadCount(2) == 2 && PadCount(3) == 1
  {
  }

  function Encode(bs: seq<Byte>): string {
    StripPadding(EncodePadded(bs))
  }

  /** The decoder puts back the missing padding characters first. */
  function Decode(s: string): Option<seq<Byte>> {
    DecodePadded(s + Padding(PadCount(|s|)))
  }

  lemma {:induction false} StripAppended(s: string, n: nat)
    requires s == "" || s[|s| - 1] != '='
    ensures StripPadding(s + Padding(n)) == s
  {
    var t := s + Padding(n);
    if n == 0 {
      assert t == s;
    } else {
      assert t[|t| - 1] == Padding(n)[n - 1];
      assert t[..|t| - 1] == s + Padding(n - 1);
      StripAppended(s, n - 1);
    }
  }

  /** Four symbols for three bytes, and as many as are needed for the rest. */
  function BodyLength(n: nat): nat { (4 * n + 2) / 3 }

  lemma LengthPeriod(n: nat)
    ensures BodyLength(0) == 0 && BodyLength(1) == 2 && BodyLength(2) == 3
    ensures n >= 3 ==> BodyLength(n) == 4 + BodyLength(n - 3)
  {
  }

  /** A padded text is a body over the alphabet followed by exactly the padding its length asks for. */
  lemma {:induction false} PaddedShape(bs: seq<Byte>) returns (body: string)
    ensures forall i :: 0 <= i < |body| ==> InAlphabet(body[i])
    ensures EncodePadded(bs) == body + Padding(PadCount(|body|))
    ensures |body| == BodyLength(|bs|)
  {
    hide ToChar, InAlphabet, PadCount, Group, BodyLength;
    PadCountPeriod(0);
    LengthPeriod(|bs|);
    if bs == [] {
      body := "";
    } else if |bs| == 1 {
      body := [ToChar(bs[0] / 4), ToChar(bs[0] % 4 * 16)];
      assert Padding(2) == "==";
    } else if |bs| == 2 {
      body := [ToChar(bs[0] / 4), ToChar(bs[0] % 4 * 16 + bs[1] / 16), ToChar(bs[1] % 16 * 4)];
      assert Padding(1) == "=";
    } else {
      var rest := PaddedShape(bs[3..]);
      var group := Group(bs[0], bs[1], bs[2]);
      body := group + rest;
      PadCountPeriod(|rest|);
      assert |bs[3..]| == |bs| - 3 && |group| == 4;
      assert EncodePadded(bs) == group + (rest + Padding(PadCount(|rest|)));
    }
  }

  /** The unpadded text uses only the alphabet and decodes to the bytes it came from. */
  lemma RoundTrip(bs: seq<Byte>)
    ensures Decode(Encode(bs)) == Some(bs)
    ensures forall i :: 0 <= i < |Encode(bs)| ==> InAlphabet(Encode(bs)[i])
    ensures |Encode(bs)| == BodyLength(|bs|)
  {
    var body := PaddedShape(bs);
    StripAppended(body, PadCount(|body|)) by {
      assert body != "" ==> InAlphabet(body[|body| - 1]);
    }
    assert Encode(bs) == body;
    PaddedRoundTrip(bs);
  }

  /** The alphabet (table 2 of RFC 4648). */
  lemma AlphabetExactly(i: Sextet)
    ensures i < 26 ==> ToChar(i) == "ABCDEFGHIJKLMNOPQRSTUVWXYZ"[i]
    ensures 26 <= i < 52 ==> ToChar(i) == "abcdefghijklmnopqrstuvwxyz"[i - 26]
    ensures 52 <= i ==> ToChar(i) == "0123456789-_"[i - 52]
  {
    if i < 26 {
      Capital(i);
    } else if i < 52 {
      Letter(i - 26);
    } else {
      assert "0123456789-_"[i - 52] == if i < 62 then (48 + (i - 52)) as char else if i == 62 then '-' else '_';
    }
  }

  lemma Capital(i: nat)
    requires i < 26
    ensures "ABCDEFGHIJKLMNOPQRSTUVWXYZ"[i] == (65 + i) as char
  {
  }

  lemma Letter(i: nat)
    requires i < 26
    ensures "abcdefghijklmnopqrstuvwxyz"[i] == (97 + i) as char
  {
  }
  /** The symbols of three bytes are the digits of their number. */
  lemma GroupMeans(x: Byte, y: Byte, z: Byte)
    ensures var s := Group(x, y, z);
      ((FromChar(s[0]) * 64 + FromChar(s[1])) * 64 + FromChar(s[2])) * 64 + FromChar(s[3])
      == (x as int * 256 + y) * 256 + z
  {
    FromToChar(x / 4);
    FromToChar(x % 4 * 16 + y / 16);
    FromToChar(y % 16 * 4 + z / 64);
    FromToChar(z % 64);
    hide ToChar, FromChar, InAlphabet;
  }

  /** Which symbols: two of the vectors of RFC 4648, section 10, and one with both symbols of section 5. */
  lemma KnownVectors()
    ensures Encode([0x66, 0x6F, 0x6F, 0x62]) == "Zm9vYg"
    ensures Encode([0x66, 0x6F, 0x6F, 0x62, 0x61]) == "Zm9vYmE"
    ensures Encode([0xFB, 0xFF, 0xFE]) == "-__-"
  {
    FourBytes();
    FiveBytes();
    HighBytes();
    hide EncodePadded;
    StripAppended("Zm9vYg", 2);
    StripAppended("Zm9vYmE", 1);
    assert "Zm9vYg" + Padding(2) == "Zm9vYg==" && "Zm9vYmE" + Padding(1) == "Zm9vYmE=";
  }

  lemma FourBytes()
    ensures EncodePadded([0x66, 0x6F, 0x6F, 0x62]) == "Zm9vYg=="
  {
    GroupThenOne(0x66, 0x6F, 0x6F, 0x62);
    hide EncodePadded, StripPadding;
    assert Group(0x66, 0x6F, 0x6F) == "Zm9v";
  }

  lemma FiveBytes()
    ensures EncodePadded([0x66, 0x6F, 0x6F, 0x62, 0x61]) == "Zm9vYmE="
  {
    GroupThenTwo(0x66, 0x6F, 0x6F, 0x62, 0x61);
    hide EncodePadded, StripPadding;
    assert Group(0x66, 0x6F, 0x6F) == "Zm9v";
  }

  lemma HighBytes()
    ensures EncodePadded([0xFB, 0xFF, 0xFE]) == "-__-"
  {
    GroupAlone(0xFB, 0xFF, 0xFE);
    hide EncodePadded;
  }

  lemma GroupThenOne(x: Byte, y: Byte, z: Byte, a: Byte)
    ensures EncodePadded([x, y, z, a]) == Group(x, y, z) + [ToChar(a / 4), ToChar(a % 4 * 16), '=', '=']
  {
    hide Group, ToChar;
    assert [x, y, z, a][3..] == [a];
  }

  lemma GroupThenTwo(x: Byte, y: Byte, z: Byte, a: Byte, b: Byte)
    ensures EncodePadded([x, y, z, a, b])
         == Group(x, y, z) + [ToChar(a / 4), ToChar(a % 4 * 16 + b / 16), ToChar(b % 16 * 4), '=']
  {
    hide Group, ToChar;
    assert [x, y, z, a, b][3..] == [a, b];
  }

  lemma GroupAlone(x: Byte, y: Byte, z: Byte)
    ensures EncodePadded([x, y, z]) == Group(x, y, z)
  {
    hide Group, ToChar;
    assert [x, y, z][3..] == [];
    assert Group(x, y, z) + "" == Group(x, y, z);
  }

  lemma {:induction false} EncodeLength(bs: seq<Byte>)
    ensures |Encode(bs)| <= |EncodePadded(bs)| <= 4 * ((|bs| + 2) / 3)
  {
    StripShortens(EncodePadded(bs));
    PaddedLength(bs);
  }

  lemma {:induction false} StripShortens(s: string)
    ensures |StripPadding(s)| <= |s|
  {
    if s != "" && s[|s| - 1] == '=' {
      StripShortens(s[..|s| - 1]);
    }
  }

  lemma {:induction false} PaddedLength(bs: seq<Byte>)
    ensures |EncodePadded(bs)| == 4 * ((|bs| + 2) / 3)
  {
    if |bs| >= 3 {
      PaddedLength(bs[3..]);
      hide Group;
      assert (|bs| + 2) / 3 == (|bs[3..]| + 2) / 3 + 1;
    }
  }
}
