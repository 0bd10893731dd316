/** The terminal execution proof `TYPE:v2:sha256:base64url(canonical JSON)`, written and strictly read. */
module ExecutionProof {
  import opened Prelude
  import opened Digest
  import opened Json
  import JsonParser
  import CanonicalText
  import JsonRoundTrip
  import KeyOrder
  import Utf8
  import Base64Url
  import Surrogates
  import TextOrder

  type Payload = map<Text, Json>

  datatype ProofType = NoExternalProcess | TerminationConfirmed {
    function Name(): string {
      if NoExternalProcess? then "NO_EXTERNAL_PROCESS" else "TERMINATION_CONFIRMED"
    }
  }

  datatype ProofError =
    | UnsupportedType
    | WrongSchemaVersion
    | WrongPayloadType
    | Oversized
    | BadGrammar
    | UnexpectedType
    | BadEncoding
    | NotAnObject
    | NotCanonical
    | BadDigest

  const MAX_LENGTH := 16384
  const SCHEMA_VERSION := Str(Runes("execution-proof-v2"))
  const SCHEMA_KEY := Runes("schema_version")
  const TYPE_KEY := Runes("proof_type")
  const COMPACT := Style(true, false)

  function TypeNamed(name: string): Option<ProofType> {
    if name == "NO_EXTERNAL_PROCESS" then Some(NoExternalProcess)
    else if name == "TERMINATION_CONFIRMED" then Some(TerminationConfirmed)
    else None
  }

  predicate Has(payload: Payload, key: Text, value: Json) {
    key in payload && payload[key] == value
  }

  function CanonicalBytes(payload: Payload): seq<Byte> {
    Utf8.Encode(Print(Obj(payload), COMPACT))
  }

  function Envelope(t: ProofType, digest: string, body: string): string {
    t.Name() + ":v2:" + digest + ":" + body
  }

  function Encode(h: Hash, name: string, payload: Payload): Result<string, ProofError> {
    match TypeNamed(name)
    case None => Err(UnsupportedType)
    case Some(t) =>
      if !Has(payload, SCHEMA_KEY, SCHEMA_VERSION) then Err(WrongSchemaVersion)
      else if !Has(payload, TYPE_KEY, Str(Runes(name))) then Err(WrongPayloadType)
      else
        var canonical := CanonicalBytes(payload);
        var proof := Envelope(t, h(canonical), Base64Url.Encode(canonical));
        if |proof| > MAX_LENGTH then Err(Oversized) else Ok(proof)
  }

  /** The regular expression: type, `:v2:`, 64 lower-case hexadecimal digits, `:`, at least one base64url symbol. */
  function MatchAs(t: ProofType, s: string): Option<(string, string)> {
    var head := t.Name() + ":v2:";
    var n := |head|;
    if head <= s && |s| > n + 65 && IsDigest(s[n..n + 64]) && s[n + 64] == ':'
       && (forall i | n + 65 <= i < |s| :: Base64Url.InAlphabet(s[i]))
    then Some((s[n..n + 64], s[n + 65..]))
    else None
  }

  function Match(s: string): Option<(ProofType, string, string)> {
    match MatchAs(NoExternalProcess, s)
    case Some((d, b)) => Some((NoExternalProcess, d, b))
    case None =>
      match MatchAs(TerminationConfirmed, s)
      case Some((d, b)) => Some((TerminationConfirmed, d, b))
      case None => None
  }

  /** Bytes and value of an encoded payload: canonical base64url, UTF-8, then JSON without duplicate keys. */
  function ReadBody(body: string): Option<(seq<Byte>, Json)> {
    var canonical :- Base64Url.Decode(body);
    if Base64Url.Encode(canonical) != body then None
    else
      var text :- Utf8.Decode(canonical);
      var v :- JsonParser.Parse(JsonParser.RejectDuplicates, text);
      Some((canonical, v))
  }

  function Decode(h: Hash, s: string, expected: Option<string>): Result<Payload, ProofError> {
    if |s| > MAX_LENGTH then Err(Oversized)
    else
      match Match(s)
      case None => Err(BadGrammar)
      case Some((t, digest, body)) =>
        if expected.Some? && expected.value != t.Name() then Err(UnexpectedType)
        else
          match ReadBody(body)
          case None => Err(BadEncoding)
          case Some((canonical, v)) =>
            if !v.Obj? then Err(NotAnObject)
            else if CanonicalBytes(v.fields) != canonical then Err(NotCanonical)
            else if h(canonical) != digest then Err(BadDigest)
            else if !Has(v.fields, SCHEMA_KEY, SCHEMA_VERSION) then Err(WrongSchemaVersion)
            else if !Has(v.fields, TYPE_KEY, Str(Runes(t.Name()))) then Err(WrongPayloadType)
            else Ok(v.fields)
  }

  // ----- The envelope -----

  lemma TypeOfName(t: ProofType)
    ensures TypeNamed(t.Name()) == Some(t)
    ensures t.Name()[0] == if t.NoExternalProcess? then 'N' else 'T'
  {
  }

  lemma MatchEnvelope(t: ProofType, digest: string, body: string)
    requires IsDigest(digest)
    requires body != "" && forall i :: 0 <= i < |body| ==> Base64Url.InAlphabet(body[i])
    ensures Match(Envelope(t, digest, body)) == Some((t, digest, body))
  {
    EnvelopeMatches(t, digest, body);
    if t.TerminationConfirmed? {
      OtherTypeFails(digest, body);
    }
    hide MatchAs, Envelope;
  }

  /** The grammar of an envelope: nothing else is taken apart. */
  lemma MatchExactly(s: string, t: ProofType, digest: string, body: string)
    ensures Match(s) == Some((t, digest, body)) <==>
      && s == (if t.NoExternalProcess? then "NO_EXTERNAL_PROCESS" else "TERMINATION_CONFIRMED")
              + ":v2:" + digest + ":" + body
      && |digest| == 64 && (forall i :: 0 <= i < 64 ==> '0' <= digest[i] <= '9' || 'a' <= digest[i] <= 'f')
      && body != ""
      && forall i :: 0 <= i < |body| ==>
           'A' <= body[i] <= 'Z' || 'a' <= body[i] <= 'z' || '0' <= body[i] <= '9' || body[i] == '-' || body[i] == '_'
  {
    if Match(s) == Some((t, digest, body)) {
      EnvelopeOnly(t, s);
    }
    if s == Envelope(t, digest, body) && IsDigest(digest) && body != ""
       && forall i :: 0 <= i < |body| ==> Base64Url.InAlphabet(body[i]) {
      MatchEnvelope(t, digest, body);
    }
    hide Match;
  }

  ghost predicate AllInAlphabet(body: string) {
    forall i :: 0 <= i < |body| ==> Base64Url.InAlphabet(body[i])
  }

  lemma EnvelopeOnly(t: ProofType, s: string)
    requires MatchAs(t, s).Some?
    ensures var digest, body := MatchAs(t, s).value.0, MatchAs(t, s).value.1;
      s == Envelope(t, digest, body) && IsDigest(digest) && body != ""
    ensures AllInAlphabet(MatchAs(t, s).value.1)
  {
    var head := t.Name() + ":v2:";
    var n := |head|;
    hide Base64Url.InAlphabet, IsDigest;
    var body := s[n + 65..];
    assert s == head + s[n..n + 64] + ":" + body;
    assert forall i :: 0 <= i < |body| ==> body[i] == s[n + 65 + i];
  }

  lemma EnvelopeMatches(t: ProofType, digest: string, body: string)
    requires IsDigest(digest)
    requires body != "" && forall i :: 0 <= i < |body| ==> Base64Url.InAlphabet(body[i])
    ensures MatchAs(t, Envelope(t, digest, body)) == Some((digest, body))
  {
    hide IsDigest, Base64Url.InAlphabet;
    var s := Envelope(t, digest, body);
    var head := t.Name() + ":v2:";
    var n := |head|;
    assert |digest| == 64 by { DigestLength(digest); }
    assert s == head + digest + ":" + body;
    assert s[n..n + 64] == digest && s[n + 64] == ':' && s[n + 65..] == body;
    forall i | n + 65 <= i < |s| ensures Base64Url.InAlphabet(s[i]) {
      assert s[i] == body[i - n - 65];
    }
  }

  lemma DigestLength(d: string)
    requires IsDigest(d)
    ensures |d| == 64
  {
  }

  lemma OtherTypeFails(digest: string, body: string)
    ensures MatchAs(NoExternalProcess, Envelope(TerminationConfirmed, digest, body)) == None
  {
    TypeOfName(NoExternalProcess);
    TypeOfName(TerminationConfirmed);
    assert Envelope(TerminationConfirmed, digest, body)[0] == TerminationConfirmed.Name()[0];
    assert (NoExternalProcess.Name() + ":v2:")[0] == NoExternalProcess.Name()[0];
  }

  lemma MatchedAs(t: ProofType, s: string)
    requires MatchAs(t, s).Some?
    ensures s == Envelope(t, MatchAs(t, s).value.0, MatchAs(t, s).value.1)
  {
    hide Base64Url.InAlphabet, IsDigest;
    var head := t.Name() + ":v2:";
    var n := |head|;
    assert s[..n] == head;
    assert s == s[..n] + s[n..n + 64] + [s[n + 64]] + s[n + 65..];
  }

  lemma MatchedEnvelope(s: string)
    requires Match(s).Some?
    ensures var (t, digest, body) := Match(s).value; s == Envelope(t, digest, body)
  {
    hide MatchAs;
    MatchedAs(Match(s).value.0, s);
  }

  // ----- The payload -----

  lemma ReadCanonicalBody(payload: Payload)
    ensures var bytes := CanonicalBytes(payload); var body := Base64Url.Encode(bytes);
      && body != "" && (forall i :: 0 <= i < |body| ==> Base64Url.InAlphabet(body[i]))
      && (Each(Obj(payload), PairFree) ==> ReadBody(body) == Some((bytes, Obj(payload))))
  {
    hide Base64Url.Encode, Base64Url.Decode, Base64Url.InAlphabet, Utf8.Encode, Utf8.Decode, JsonParser.Parse;
    var text := Print(Obj(payload), COMPACT);
    Utf8.RoundTrip(text);
    EncodeNonempty(text);
    Base64Url.RoundTrip(CanonicalBytes(payload));
    JsonRoundTrip.RoundTrip(JsonParser.RejectDuplicates, Obj(payload), COMPACT);
  }

  lemma EncodeNonempty(s: string)
    ensures s != "" ==> Utf8.Encode(s) != []
  {
  }

  /** A decoded payload holds no surrogate pair in two pieces. */
  lemma DecodedPairFree(h: Hash, s: string, expected: Option<string>)
    requires Decode(h, s, expected).Ok?
    ensures Each(Obj(Decode(h, s, expected).value), PairFree)
  {
    hide Match, Base64Url.Encode, Base64Url.Decode, Utf8.Decode, CanonicalBytes, Has, JsonParser.Parse, Each;
    var text := Utf8.Decode(Base64Url.Decode(Match(s).value.2).value).value;
    JsonRoundTrip.ParsePairFree(JsonParser.RejectDuplicates, text);
  }

  // ----- Main results -----

  /**
   * Every payload the encoder accepts comes back exactly as it went in, if and only
   * if none of its strings holds a surrogate pair split over two code points.
   */
  lemma RoundTrip(h: Hash, name: string, payload: Payload)
    requires Digests(h)
    requires Encode(h, name, payload).Ok?
    ensures Decode(h, Encode(h, name, payload).value, Some(name)) == Ok(payload)
       <==> Each(Obj(payload), PairFree)
  {
    hide Print, Utf8.Encode, Base64Url.Encode, Each;
    var proof := Encode(h, name, payload).value;
    var t := TypeNamed(name).value;
    var canonical := CanonicalBytes(payload);
    ReadCanonicalBody(payload);
    TypeOfName(t);
    assert name == t.Name();
    MatchEnvelope(t, h(canonical), Base64Url.Encode(canonical));
    if Decode(h, proof, Some(name)) == Ok(payload) {
      DecodedPairFree(h, proof, Some(name));
    }
  }

  /**
   * What happens otherwise: the proof decodes exactly if joining split pairs leaves the keys of
   * every dictionary distinct and in order, and then to the payload with those pairs put together.
   */
  lemma DecodesExactly(h: Hash, name: string, payload: Payload)
    requires Digests(h) && Encode(h, name, payload).Ok?
    ensures var r := Decode(h, Encode(h, name, payload).value, Some(name));
      && (r.Ok? <==> KeyOrder.KeysKeepOrder(Obj(payload)))
      && (r.Ok? ==> r == Ok(JsonRoundTrip.Reread(Obj(payload)).fields))
  {
    hide Print, Each, CanonicalBytes, Base64Url.Encode, Decode, Encode, JsonRoundTrip.Reread, KeyOrder.KeysKeepOrder;
    KeyOrder.RereadPrintsAlikeExactly(Obj(payload), COMPACT);
    if KeyOrder.KeysKeepOrder(Obj(payload)) {
      OrderedKeysDecode(h, name, payload);
    }
    if Decode(h, Encode(h, name, payload).value, Some(name)).Ok? {
      DecodedIsReread(h, name, payload);
    }
  }

  lemma OrderedKeysDecode(h: Hash, name: string, payload: Payload)
    requires Digests(h) && Encode(h, name, payload).Ok? && KeyOrder.KeysKeepOrder(Obj(payload))
    ensures Decode(h, Encode(h, name, payload).value, Some(name)) == Ok(JsonRoundTrip.Reread(Obj(payload)).fields)
  {
    KeyOrder.RereadCollects(Obj(payload));
    hide Print, Each, Base64Url.Encode, Decode, Has, JsonRoundTrip.Reread, KeyOrder.KeysKeepOrder, Utf8.Encode;
    var reread := JsonRoundTrip.Reread(Obj(payload)).fields;
    JsonRoundTrip.RereadIsPairFree(Obj(payload));
    KeyOrder.OrderedPrintsAlike(Obj(payload), COMPACT);
    HeadersReread(name, payload);
    RoundTrip(h, name, reread);
  }

  /** The decoder accepts only a payload with the same text, and that text is read in one way. */
  lemma DecodedIsReread(h: Hash, name: string, payload: Payload)
    requires Digests(h) && Encode(h, name, payload).Ok?
    requires Decode(h, Encode(h, name, payload).value, Some(name)).Ok?
    ensures var q := Decode(h, Encode(h, name, payload).value, Some(name)).value;
      Obj(q) == JsonRoundTrip.Reread(Obj(payload)) && Print(Obj(q), COMPACT) == Print(Obj(payload), COMPACT)
  {
    hide Print, Each, Decode, Encode, JsonRoundTrip.Reread;
    var s := Encode(h, name, payload).value;
    var q := Decode(h, s, Some(name)).value;
    DecodedEncodes(h, s, Some(name));
    DecodedPairFree(h, s, Some(name));
    RunesInjective(Match(s).value.0.Name(), name);
    SameText(h, name, payload, q);
    JsonRoundTrip.PrintedReads(Obj(payload), COMPACT);
    JsonRoundTrip.PrintedReads(Obj(q), COMPACT);
  }

  lemma SameText(h: Hash, name: string, payload: Payload, q: Payload)
    requires Digests(h) && Encode(h, name, payload).Ok? && Encode(h, name, payload) == Encode(h, name, q)
    ensures Print(Obj(payload), COMPACT) == Print(Obj(q), COMPACT)
  {
    hide Print, Base64Url.Encode, Base64Url.Decode, Utf8.Encode, Utf8.Decode, Has;
    var t := TypeNamed(name).value;
    var a, b := CanonicalBytes(payload), CanonicalBytes(q);
    ReadCanonicalBody(payload);
    ReadCanonicalBody(q);
    MatchEnvelope(t, h(a), Base64Url.Encode(a));
    MatchEnvelope(t, h(b), Base64Url.Encode(b));
    Base64Url.RoundTrip(a);
    Base64Url.RoundTrip(b);
    Utf8.RoundTrip(Print(Obj(payload), COMPACT));
    Utf8.RoundTrip(Print(Obj(q), COMPACT));
  }

  /** In particular a proof decodes if the split pairs are in strings and not in keys, and the keys then stay. */
  lemma SplitPairsJoined(h: Hash, name: string, payload: Payload)
    requires Digests(h)
    requires Encode(h, name, payload).Ok? && KeyOrder.KeysPairFree(Obj(payload))
    ensures Decode(h, Encode(h, name, payload).value, Some(name)) == Ok(JsonRoundTrip.RereadFields(payload))
  {
    hide Print, Each, CanonicalBytes, Base64Url.Encode, Decode, Encode, JsonRoundTrip.Reread, PairFree;
    KeyOrder.PairFreeKeysKeepOrder(Obj(payload));
    JsonRoundTrip.RereadObject(payload);
    DecodesExactly(h, name, payload);
  }

  lemma HeadersReread(name: string, payload: Payload)
    requires Has(payload, SCHEMA_KEY, SCHEMA_VERSION) && Has(payload, TYPE_KEY, Str(Runes(name)))
    requires KeyOrder.KeysKeepOrder(Obj(payload))
    ensures var reread := JsonRoundTrip.Reread(Obj(payload)).fields;
      Has(reread, SCHEMA_KEY, SCHEMA_VERSION) && Has(reread, TYPE_KEY, Str(Runes(name)))
  {
    HeaderRereads(payload, "schema_version", "execution-proof-v2");
    HeaderRereads(payload, "proof_type", name);
  }

  lemma HeaderRereads(payload: Payload, key: string, value: string)
    requires Has(payload, Runes(key), Str(Runes(value))) && KeyOrder.KeysKeepOrder(Obj(payload))
    ensures Has(JsonRoundTrip.Reread(Obj(payload)).fields, Runes(key), Str(Runes(value)))
  {
    Surrogates.ScalarPairFree(Runes(key));
    Surrogates.ScalarPairFree(Runes(value));
    Surrogates.PairFreeJoined(Runes(key));
    Surrogates.PairFreeJoined(Runes(value));
    KeyOrder.CollectedInOrder(Obj(payload));
    hide Runes, Surrogates.Joined, TextOrder.Sorted;
  }

  /** Such a payload: two surrogates in one string, encoded without complaint and decoded to something else. */
  lemma SplitPairLost(h: Hash, t: ProofType) returns (payload: Payload)
    requires Digests(h)
    ensures Encode(h, t.Name(), payload).Ok?
    ensures Decode(h, Encode(h, t.Name(), payload).value, Some(t.Name())).Ok?
    ensures Decode(h, Encode(h, t.Name(), payload).value, Some(t.Name())) != Ok(payload)
  {
    payload := SplitPayload(t);
    SmallPayload(payload);
    ScalarKeys(payload);
    SmallEncodes(h, t, payload);
    hide Encode, Decode, Has, Each, CanonicalBytes, Base64Url.Encode, KeyOrder.KeysPairFree, AllScalar;
    SplitPairsJoined(h, t.Name(), payload);
    RoundTrip(h, t.Name(), payload);
  }

  /** And one that is encoded and not accepted at all: joined, its first key belongs behind its second. */
  lemma SplitKeyRejected(h: Hash, t: ProofType) returns (payload: Payload)
    requires Digests(h)
    ensures Encode(h, t.Name(), payload).Ok?
    ensures Decode(h, Encode(h, t.Name(), payload).value, Some(t.Name())).Err?
  {
    payload := DisorderedPayload(t);
    SmallPayload(payload);
    SmallEncodes(h, t, payload);
    hide Encode, Decode, Has, CanonicalBytes, Base64Url.Encode, KeyOrder.KeysKeepOrder;
    DecodesExactly(h, t.Name(), payload);
  }

  lemma DisorderedPayload(t: ProofType) returns (payload: Payload)
    ensures Has(payload, SCHEMA_KEY, SCHEMA_VERSION) && Has(payload, TYPE_KEY, Str(Runes(t.Name())))
    ensures |payload| <= 4 && !KeyOrder.KeysKeepOrder(Obj(payload))
    ensures forall k :: k in payload ==> |k| <= 20 && payload[k].Str? && |payload[k].text| <= 30
  {
    var split, last := SplitKey();
    hide KeyOrder.OrderKept;
    assert |SCHEMA_KEY| == 14 && |TYPE_KEY| == 10;
    assert |SCHEMA_VERSION.text| <= 30 && |Runes(t.Name())| <= 30;
    payload := map[SCHEMA_KEY := SCHEMA_VERSION, TYPE_KEY := Str(Runes(t.Name())), split := Str([]), last := Str([])];
    assert payload.Keys == {SCHEMA_KEY, TYPE_KEY, split, last} && |payload| == |payload.Keys|;
    DisorderedKeys(payload.Keys, split, last);
  }

  lemma SplitKey() returns (split: Text, last: Text)
    ensures |split| == 2 && IsHigh(split[0]) && IsLow(split[1])
    ensures |last| == 1 && 0xDFFF < last[0] < 0x1_0000
  {
    split, last := [0xD800, 0xDC00], [0xFFFF];
  }

  lemma DisorderedKeys(keys: set<Text>, split: Text, last: Text)
    requires split in keys && last in keys
    requires |split| == 2 && IsHigh(split[0]) && IsLow(split[1])
    requires |last| == 1 && 0xDFFF < last[0] < 0x1_0000
    ensures !KeyOrder.OrderKept(keys)
  {
    assert Surrogates.Joined(split)[0] == Surrogates.Combine(split[0], split[1]);
    assert Surrogates.Joined(last)[0] == last[0];
    assert split != last && TextOrder.Leq(split, last);
    assert !TextOrder.Leq(Surrogates.Joined(split), Surrogates.Joined(last));
  }

  lemma SmallEncodes(h: Hash, t: ProofType, payload: Payload)
    requires Digests(h) && |Base64Url.Encode(CanonicalBytes(payload))| <= 14000
    requires Has(payload, SCHEMA_KEY, SCHEMA_VERSION) && Has(payload, TYPE_KEY, Str(Runes(t.Name())))
    ensures Encode(h, t.Name(), payload).Ok?
  {
    hide CanonicalBytes, Base64Url.Encode, Has, Runes;
    TypeOfName(t);
  }

  lemma SplitPayload(t: ProofType) returns (payload: Payload)
    ensures Has(payload, SCHEMA_KEY, SCHEMA_VERSION) && Has(payload, TYPE_KEY, Str(Runes(t.Name())))
    ensures !Each(Obj(payload), PairFree) && |payload| <= 3
    ensures forall k :: k in payload ==> AllScalar(k) && payload[k].Str? && |k| <= 20 && |payload[k].text| <= 30
  {
    var split: Text := [0xD800, 0xDC00];
    var note := Runes("note");
    assert |SCHEMA_KEY| == 14 && |TYPE_KEY| == 10 && |note| == 4;
    assert AllScalar(SCHEMA_KEY) && AllScalar(TYPE_KEY) && AllScalar(note);
    assert |SCHEMA_VERSION.text| <= 30 && |Runes(t.Name())| <= 30 && |split| <= 30;
    hide AllScalar;
    payload := map[SCHEMA_KEY := SCHEMA_VERSION, TYPE_KEY := Str(Runes(t.Name())), note := Str(split)];
    assert payload.Keys == {SCHEMA_KEY, TYPE_KEY, note} && |payload| == |payload.Keys|;
    assert !PairFree(split) by { assert IsHigh(split[0]) && IsLow(split[0 + 1]); }
    hide PairFree;
    assert payload[note] == Str(split);
  }

  lemma ScalarKeys(payload: Payload)
    requires forall k :: k in payload ==> AllScalar(k) && payload[k].Str?
    ensures KeyOrder.KeysPairFree(Obj(payload))
  {
    forall k | k in payload ensures PairFree(k) { Surrogates.ScalarPairFree(k); }
  }

  /** Four short members stay far below the bound. */
  lemma SmallPayload(payload: Payload)
    requires |payload| <= 4 && forall k :: k in payload ==> |k| <= 20 && payload[k].Str? && |payload[k].text| <= 30
    ensures |Base64Url.Encode(CanonicalBytes(payload))| <= 14000
  {
    var v := Obj(payload);
    var keys := TextOrder.Sorted(payload.Keys);
    TextOrder.SortedSize(payload.Keys);
    hide Print, Utf8.Encode, Base64Url.Encode, TextOrder.Sorted, PrintMembers;
    assert |payload| == |payload.Keys|;
    ShortMembers(v, keys, COMPACT);
    PrintedObject(v, COMPACT);
    Utf8.EncodeLength(Print(v, COMPACT));
    Base64Url.EncodeLength(CanonicalBytes(payload));
  }

  lemma PrintedObject(v: Json, style: Style)
    requires v.Obj? && Printable(v, style)
    ensures |Print(v, style)| == 2 + |PrintMembers(v, TextOrder.Sorted(v.fields.Keys), style)|
  {
    hide PrintMembers;
  }

  lemma {:induction false} EscapedLength(t: Text, style: Style)
    requires PrintableText(t, style)
    ensures |EscapeText(t, style)| <= 12 * |t|
  {
    if t != [] {
      EscapedLength(t[1..], style);
      JsonRoundTrip.EscapeShape(t[0], style.ascii);
      hide EscapeRune, UnicodeEscape;
    }
  }

  lemma ShortMember(k: Text, v: Json, style: Style)
    requires style.ascii && |k| <= 20 && v.Str? && |v.text| <= 30
    ensures |PrintString(k, style) + Colon(style) + Print(v, style) + Comma(style)| <= 650
  {
    hide EscapeText;
    EscapedLength(k, style);
    EscapedLength(v.text, style);
  }

  lemma {:induction false} ShortMembers(v: Json, keys: seq<Text>, style: Style)
    requires v.Obj? && style.ascii && forall k | k in keys :: k in v.fields
    requires forall k :: k in keys ==> |k| <= 20 && v.fields[k].Str? && |v.fields[k].text| <= 30
    ensures |PrintMembers(v, keys, style)| <= |keys| * 650
  {
    hide Print, PrintString, Comma, Colon;
    if keys != [] {
      assert keys[0] in keys;
      ShortMember(keys[0], v.fields[keys[0]], style);
      ShortMembers(v, keys[1..], style);
    }
  }

  /** Whatever is decoded encodes, under the type named in its envelope, to the string it came from. */
  lemma DecodedEncodes(h: Hash, s: string, expected: Option<string>)
    requires Decode(h, s, expected).Ok?
    ensures Match(s).Some? && (expected.Some? ==> expected.value == Match(s).value.0.Name())
    ensures Encode(h, Match(s).value.0.Name(), Decode(h, s, expected).value) == Ok(s)
  {
    hide Match, Print, Utf8.Encode, Base64Url.Encode;
    MatchedEnvelope(s);
    TypeOfName(Match(s).value.0);
  }

  /** A string is accepted with a payload exactly when it is the encoding of that payload. */
  lemma Canonicity(h: Hash, s: string, name: string, payload: Payload)
    requires Digests(h)
    ensures Decode(h, s, Some(name)) == Ok(payload)
       <==> Encode(h, name, payload) == Ok(s) && Each(Obj(payload), PairFree)
  {
    hide Each, Encode, Decode;
    if Encode(h, name, payload) == Ok(s) {
      RoundTrip(h, name, payload);
    }
    if Decode(h, s, Some(name)) == Ok(payload) {
      DecodedPairFree(h, s, Some(name));
      DecodedEncodes(h, s, Some(name));
    }
  }

  /** Two accepted strings with one payload are one string, whatever types were expected of them. */
  lemma OneStringPerPayload(h: Hash, s: string, t: string, es: Option<string>, et: Option<string>)
    requires Decode(h, s, es).Ok? && Decode(h, s, es) == Decode(h, t, et)
    ensures s == t
  {
    hide Decode, CanonicalBytes;
    DecodedEncodes(h, s, es);
    DecodedEncodes(h, t, et);
    RunesInjective(Match(s).value.0.Name(), Match(t).value.0.Name());
  }

  // ----- Which strings these are -----

  /**
   * The encoder accepts a payload exactly if it names a supported type, shows the schema version
   * and that type, and its text leaves the envelope within 16384 characters; and this is the envelope.
   */
  lemma EncodesExactly(h: Hash, name: string, payload: Payload)
    requires Digests(h)
    ensures var text := Print(Obj(payload), Style(true, false));
      && (Encode(h, name, payload).Ok? <==>
            && (name == "NO_EXTERNAL_PROCESS" || name == "TERMINATION_CONFIRMED")
            && Runes("schema_version") in payload
            && payload[Runes("schema_version")] == Str(Runes("execution-proof-v2"))
            && Runes("proof_type") in payload && payload[Runes("proof_type")] == Str(Runes(name))
            && |name| + 69 + (4 * |text| + 2) / 3 <= 16384)
      && (Encode(h, name, payload).Ok? ==>
            Encode(h, name, payload).value
            == name + ":v2:" + h(Utf8.Encode(text)) + ":" + Base64Url.Encode(Utf8.Encode(text)))
  {
    hide Print, Utf8.Encode, Base64Url.Encode, Runes, IsDigest;
    var text := Print(Obj(payload), COMPACT);
    CanonicalText.PrintedPlain(Obj(payload), COMPACT);
    Utf8.AsciiAsItself(text);
    Base64Url.RoundTrip(Utf8.Encode(text));
    DigestLength(h(Utf8.Encode(text)));
  }

  /** The JSON text inside an accepted string. */
  function TextOf(s: string): string
    requires Match(s).Some? && ReadBody(Match(s).value.2).Some?
  {
    Utf8.Decode(Base64Url.Decode(Match(s).value.2).value).value
  }

  /**
   * What being canonical comes to: the members stand in the order of the code points of their
   * keys, and no other text that is read as this payload is shorter.
   */
  lemma AcceptedTextIsCanonical(h: Hash, s: string, expected: Option<string>)
    returns (pairs: seq<(Text, Json)>)
    requires Decode(h, s, expected).Ok?
    ensures var payload := Decode(h, s, expected).value;
      && TextOf(s)[..1] == "{" && JsonParser.ReadMembers(JsonParser.KeepLast, TextOf(s)[1..]) == Some((pairs, ""))
      && payload.Items == (set p | p in pairs)
    ensures forall i, j :: 0 <= i < j < |pairs| ==> TextOrder.Precedes(pairs[i].0, pairs[j].0)
    ensures forall t ::
      (CanonicalText.Plain(t, true)
       && JsonParser.Parse(JsonParser.RejectDuplicates, t) == Some(Obj(Decode(h, s, expected).value)))
      ==> |TextOf(s)| <= |t|
  {
    var payload := Decode(h, s, expected).value;
    var v := Obj(payload);
    AcceptedText(h, s, expected);
    DecodedPairFree(h, s, expected);
    JsonRoundTrip.RereadPairFree(v);
    hide Decode, Print, TextOf, Each, JsonRoundTrip.Reread, JsonParser.Parse, JsonParser.ReadMembers;
    hide TextOrder.Precedes;
    var keys;
    keys, pairs := KeyOrder.MembersInOrder(v, COMPACT);
    OwnMembers(payload, keys, pairs);
    forall t | CanonicalText.Plain(t, true) && JsonParser.Parse(JsonParser.RejectDuplicates, t) == Some(v)
      ensures |TextOf(s)| <= |t|
    {
      CanonicalText.CompactIsShortest(t, COMPACT);
    }
  }

  lemma AcceptedText(h: Hash, s: string, expected: Option<string>)
    requires Decode(h, s, expected).Ok?
    ensures ReadBody(Match(s).value.2).Some?
    ensures TextOf(s) == Print(Obj(Decode(h, s, expected).value), COMPACT)
    ensures Decode(h, s, expected).value != map[]
  {
    hide Match, Print, Base64Url.Encode, Base64Url.Decode, Utf8.Encode, Utf8.Decode, JsonParser.Parse;
    var payload := Decode(h, s, expected).value;
    var bytes := Base64Url.Decode(Match(s).value.2).value;
    Utf8.RoundTrip(Print(Obj(payload), COMPACT));
  }

  /** Keys without split pairs are read as they are. */
  lemma OwnMembers(payload: Payload, keys: seq<Text>, pairs: seq<(Text, Json)>)
    requires Each(Obj(payload), PairFree) && |pairs| == |keys|
    requires forall k :: k in keys <==> k in payload
    requires forall i :: 0 <= i < |keys| ==>
      keys[i] in payload && pairs[i] == (Surrogates.Joined(keys[i]), JsonRoundTrip.Reread(payload[keys[i]]))
    ensures forall i :: 0 <= i < |keys| ==> pairs[i] == (keys[i], payload[keys[i]])
    ensures payload.Items == set p | p in pairs
  {
    hide Surrogates.Joined, JsonRoundTrip.Reread, PairFree;
    forall i | 0 <= i < |keys| ensures pairs[i] == (keys[i], payload[keys[i]]) {
      Surrogates.PairFreeJoined(keys[i]);
      JsonRoundTrip.RereadPairFree(payload[keys[i]]);
    }
    JsonRoundTrip.PairsAreItems(payload, keys, pairs);
  }
}
