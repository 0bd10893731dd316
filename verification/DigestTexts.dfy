/** The texts behind the digests: what is hashed for a map, for options and for a command. */
module DigestTexts {
  import opened Prelude
  import opened Digest
  import opened Binding
  import opened CanonicalText
  import opened JsonParser
  import opened LaunchContext
  import opened Snapshots
  import ArgumentVectors
  import ExecutionProof
  import IsoTime
  import Json
  import JsonRoundTrip
  import KeyOrder
  import PyText
  import Surrogates
  import TextOrder
  import Utf8

  /** A text that is read as a value, and no text in the same characters that is read so is shorter. */
  ghost predicate IsTextOf(t: string, j: Json.Json, ascii: bool) {
    && Plain(t, ascii) && Parse(RejectDuplicates, t) == Some(j)
    && forall u :: Plain(u, ascii) && Parse(RejectDuplicates, u) == Some(j) ==> |t| <= |u|
  }

  lemma PrintedIsText(j: Json.Json, style: Json.Style)
    requires !style.spaced && Json.Printable(j, style) && Json.Each(j, Json.PairFree)
    ensures IsTextOf(Json.Print(j, style), j, style.ascii)
  {
    hide Json.Print, Plain, Json.Each, Parse, Json.Printable;
    PrintedPlain(j, style);
    JsonRoundTrip.RoundTrip(RejectDuplicates, j, style);
    forall u | Plain(u, style.ascii) && Parse(RejectDuplicates, u) == Some(j) ensures |Json.Print(j, style)| <= |u| {
      CompactIsShortest(u, style);
    }
  }

  // ----- What can be frozen -----

  /** No value of a foreign type and no blank key anywhere inside. */
  predicate Freezable(v: Value) {
    match v
    case Foreign => false
    case List(items) => forall x | x in items :: Freezable(x)
    case Tuple(items) => forall x | x in items :: Freezable(x)
    case Dict(entries) =>
      forall k | k in entries :: (exists r :: r in k && !PyText.IsSpaceRune(r)) && Freezable(entries[k])
    case _ => true
  }

  lemma {:induction false} FreezesExactly(v: Value)
    ensures Freeze(v).Some? <==> Freezable(v)
    decreases v, 1
  {
    match v
    case List(items) =>
      ItemsFreezeExactly(items);
    case Tuple(items) =>
      ItemsFreezeExactly(items);
    case Dict(entries) =>
      FrozenMap(entries);
      hide Freeze, PyText.IsSpaceRune;
      forall k | k in entries
        ensures (!BlankKey(k) <==> exists r :: r in k && !PyText.IsSpaceRune(r))
        ensures Freeze(entries[k]).Some? <==> Freezable(entries[k])
      {
        NotBlank(k);
        FreezesExactly(entries[k]);
      }
    case _ =>
  }

  lemma NotBlank(k: Text)
    ensures !BlankKey(k) <==> exists r :: r in k && !PyText.IsSpaceRune(r)
  {
    hide PyText.IsSpaceRune;
    if !BlankKey(k) {
      var i :| 0 <= i < |k| && !PyText.IsSpaceRune(k[i]);
      assert k[i] in k;
    }
  }

  lemma {:induction false} ItemsFreezeExactly(items: seq<Value>)
    ensures FreezeItems(items).Some? <==> forall x | x in items :: Freezable(x)
    decreases items, 0
  {
    hide Freeze, Freezable;
    if items != [] {
      FreezesExactly(items[0]);
      ItemsFreezeExactly(items[1..]);
      assert forall x :: x in items <==> x == items[0] || x in items[1..];
    }
  }

  // ----- What a value looks like in JSON -----

  /** Dictionaries as objects, or as lists of pairs in the order of their keys. */
  ghost predicate Depicts(j: Json.Json, v: Value, frozen: bool)
    decreases v
  {
    match v
    case Nothing => j == Json.Null
    case Boolean(b) => j == Json.Bool(b)
    case Whole(n) => j == Json.Int(n)
    case Str(t) => j == Json.Str(t)
    case Moment(iso) => frozen && j == Json.Str(iso)
    case List(items) =>
      j.List? && |j.items| == |items| && forall i | 0 <= i < |items| :: Depicts(j.items[i], items[i], frozen)
    case Tuple(items) =>
      j.List? && |j.items| == |items| && forall i | 0 <= i < |items| :: Depicts(j.items[i], items[i], frozen)
    case Dict(entries) =>
      if frozen then
        && j.List? && |j.items| == |entries|
        && (forall i | 0 <= i < |j.items| ::
              && IsPair(j.items[i]) && KeyOf(j.items[i]) in entries
              && Depicts(j.items[i].items[1], entries[KeyOf(j.items[i])], frozen))
        && (forall i, l | 0 <= i < l < |j.items| :: TextOrder.Precedes(KeyOf(j.items[i]), KeyOf(j.items[l])))
      else
        j.Obj? && j.fields.Keys == entries.Keys && forall k | k in entries :: Depicts(j.fields[k], entries[k], frozen)
    case Foreign => false
  }

  predicate IsPair(j: Json.Json) {
    j.List? && |j.items| == 2 && j.items[0].Str?
  }

  function KeyOf(j: Json.Json): Text {
    if IsPair(j) then j.items[0].text else []
  }

  lemma {:induction false} FrozenDepicted(v: Value)
    requires Freeze(v).Some?
    ensures Frozen(Freeze(v).value) && Depicts(ToJson(Freeze(v).value), v, true)
    decreases v
  {
    FreezeFrozen(v);
    match v
    case List(items) =>
      ItemsFrozen(items);
      forall i | 0 <= i < |items| ensures Depicts(ToJson(Freeze(v).value.items[i]), items[i], true) {
        FrozenDepicted(items[i]);
      }
    case Tuple(items) =>
      ItemsFrozen(items);
      forall i | 0 <= i < |items| ensures Depicts(ToJson(Freeze(v).value.items[i]), items[i], true) {
        FrozenDepicted(items[i]);
      }
    case Dict(entries) =>
      forall k | k in entries
        ensures Freeze(entries[k]).Some? && Frozen(Freeze(entries[k]).value)
        ensures Depicts(ToJson(Freeze(entries[k]).value), entries[k], true)
      {
        EntryFreezes(entries, k);
        FrozenDepicted(entries[k]);
      }
      DictDepicted(entries);
    case _ =>
  }

  lemma DictDepicted(m: map<Text, Value>)
    requires Freeze(Dict(m)).Some? && Frozen(Freeze(Dict(m)).value)
    requires forall k :: k in m ==>
      && Freeze(m[k]).Some? && Frozen(Freeze(m[k]).value) && Depicts(ToJson(Freeze(m[k]).value), m[k], true)
    ensures Depicts(ToJson(Freeze(Dict(m)).value), Dict(m), true)
  {
    var keys := TextOrder.Sorted(m.Keys);
    var frozen := Freeze(Dict(m)).value;
    FrozenMap(m);
    SortedKeys(m);
    hide Freeze, TextOrder.Sorted, TextOrder.Precedes, BlankKey, Depicts, Entry, IsPair, KeyOf;
    var j := ToJson(frozen);
    assert j.List? && |j.items| == |keys| == |m|;
    forall i | 0 <= i < |keys|
      ensures keys[i] in m && IsPair(j.items[i]) && KeyOf(j.items[i]) == keys[i]
      ensures Depicts(j.items[i].items[1], m[keys[i]], true)
    {
      assert frozen.items[i] == Entry(keys[i], m[keys[i]]);
      EntryDepicted(keys[i], m[keys[i]]);
      assert j.items[i] == ToJson(frozen.items[i]);
    }
    PairsDepict(j, m, keys);
  }

  lemma PairsDepict(j: Json.Json, m: map<Text, Value>, keys: seq<Text>)
    requires j.List? && |j.items| == |keys| == |m|
    requires forall i :: 0 <= i < |keys| ==>
      && keys[i] in m && IsPair(j.items[i]) && KeyOf(j.items[i]) == keys[i]
      && Depicts(j.items[i].items[1], m[keys[i]], true)
    requires forall i, l :: 0 <= i < l < |keys| ==> TextOrder.Precedes(keys[i], keys[l])
    ensures Depicts(j, Dict(m), true)
  {
    hide IsPair, KeyOf, TextOrder.Precedes;
  }

  lemma EntryDepicted(k: Text, v: Value)
    requires Freeze(v).Some? && Frozen(Freeze(v).value)
    ensures Frozen(Entry(k, v))
    ensures var j := ToJson(Entry(k, v));
      IsPair(j) && KeyOf(j) == k && j.items[1] == ToJson(Freeze(v).value)
  {
    hide Freeze;
    var e := Entry(k, v);
    assert e.items[0] == Str(k) && e.items[1] == Freeze(v).value;
  }

  lemma SortedKeys(m: map<Text, Value>)
    ensures |TextOrder.Sorted(m.Keys)| == |m|
    ensures forall i, j :: 0 <= i < j < |m| ==>
      TextOrder.Precedes(TextOrder.Sorted(m.Keys)[i], TextOrder.Sorted(m.Keys)[j])
  {
    KeyOrder.SortedPrecedes(m.Keys);
    assert |m| == |m.Keys|;
  }

  // ----- The digests -----

  /** What a binding digest is the hash of: the shortest JSON text of the value, with nothing escaped in vain. */
  lemma BindingText(h: Hash, v: Value) returns (t: string, j: Json.Json)
    requires BindingDigest(h, v).Some?
    ensures BindingDigest(h, v) == Some(h(Utf8.Encode(t)))
    ensures Depicts(j, v, true) && IsTextOf(t, j, false)
  {
    FrozenDepicted(v);
    j := ToJson(Freeze(v).value);
    t := Json.Print(j, PLAIN);
    ScalarEachPairFree(j);
    hide Json.Print, Json.Each;
    PrintedIsText(j, PLAIN);
  }

  /** It exists exactly if the value can be frozen and has no surrogate in a string or key. */
  lemma BindingDigestExists(h: Hash, v: Value)
    ensures BindingDigest(h, v).Some? <==> Freezable(v) && NoSurrogate(v)
  {
    FreezesExactly(v);
    hide Freeze, Json.Each, Freezable, NoSurrogate;
    if Freeze(v).Some? {
      FreezeFrozen(v);
      ScalarsExactly(v);
    }
  }

  predicate NoSurrogate(v: Value) {
    match v
    case Str(t) => Json.AllScalar(t)
    case List(items) => forall x | x in items :: NoSurrogate(x)
    case Tuple(items) => forall x | x in items :: NoSurrogate(x)
    case Dict(entries) => forall k | k in entries :: Json.AllScalar(k) && NoSurrogate(entries[k])
    case _ => true
  }

  lemma {:induction false} ScalarsExactly(v: Value)
    requires Freeze(v).Some?
    ensures Frozen(Freeze(v).value)
    ensures Json.Each(ToJson(Freeze(v).value), Json.AllScalar) <==> NoSurrogate(v)
    decreases v
  {
    FreezeFrozen(v);
    match v
    case Moment(iso) =>
      IsoScalar(iso);
    case List(items) =>
      ItemsScalar(v, items);
      forall i | 0 <= i < |items|
        ensures Freeze(items[i]).Some? && Frozen(Freeze(items[i]).value)
        ensures Json.Each(ToJson(Freeze(items[i]).value), Json.AllScalar) <==> NoSurrogate(items[i])
      {
        ItemsFrozen(items);
        ScalarsExactly(items[i]);
      }
    case Tuple(items) =>
      ItemsScalar(v, items);
      forall i | 0 <= i < |items|
        ensures Freeze(items[i]).Some? && Frozen(Freeze(items[i]).value)
        ensures Json.Each(ToJson(Freeze(items[i]).value), Json.AllScalar) <==> NoSurrogate(items[i])
      {
        ItemsFrozen(items);
        ScalarsExactly(items[i]);
      }
    case Dict(entries) =>
      forall k | k in entries
        ensures Freeze(entries[k]).Some? && Frozen(Freeze(entries[k]).value)
        ensures Json.Each(ToJson(Freeze(entries[k]).value), Json.AllScalar) <==> NoSurrogate(entries[k])
      {
        EntryFreezes(entries, k);
        ScalarsExactly(entries[k]);
      }
      EntriesScalar(entries);
    case _ =>
  }

  lemma IsoScalar(iso: IsoTime.Iso)
    ensures Json.AllScalar(iso)
  {
    var t: Text := iso;
    assert forall i | |t| - 6 <= i < |t| :: t[i] == t[|t| - 6..][i - (|t| - 6)];
  }

  lemma ItemsScalar(v: Value, items: seq<Value>)
    requires (v == List(items) || v == Tuple(items)) && Freeze(v).Some? && Frozen(Freeze(v).value)
    ensures Json.Each(ToJson(Freeze(v).value), Json.AllScalar) <==>
      forall i :: 0 <= i < |items| ==>
        && Freeze(items[i]).Some? && Frozen(Freeze(items[i]).value)
        && Json.Each(ToJson(Freeze(items[i]).value), Json.AllScalar)
  {
    ItemsFrozen(items);
    var f := Freeze(v).value;
    assert f == Tuple(FreezeItems(items).value);
    hide Freeze, FreezeItems;
    forall i | 0 <= i < |items| ensures Frozen(f.items[i]) && ToJson(f).items[i] == ToJson(f.items[i]) {
      assert f.items[i] in f.items;
    }
  }

  lemma EntriesScalar(m: map<Text, Value>)
    requires Freeze(Dict(m)).Some? && Frozen(Freeze(Dict(m)).value)
    requires forall k :: k in m ==> Freeze(m[k]).Some? && Frozen(Freeze(m[k]).value)
    ensures Json.Each(ToJson(Freeze(Dict(m)).value), Json.AllScalar) <==>
      forall k :: k in m ==> Json.AllScalar(k) && Json.Each(ToJson(Freeze(m[k]).value), Json.AllScalar)
  {
    hide Freeze, TextOrder.Sorted, BlankKey, Json.AllScalar, Json.Each, Entry;
    var keys := TextOrder.Sorted(m.Keys);
    var frozen := Freeze(Dict(m)).value;
    FrozenMap(m);
    var j := ToJson(frozen);
    var good := set k | k in m && Json.AllScalar(k) && Json.Each(ToJson(Freeze(m[k]).value), Json.AllScalar);
    forall i | 0 <= i < |keys| ensures Json.Each(j.items[i], Json.AllScalar) <==> keys[i] in good {
      assert frozen.items[i] == Entry(keys[i], m[keys[i]]);
      EntryScalar(keys[i], m[keys[i]]);
    }
    EachGood(j, keys, good);
  }

  lemma EachGood(j: Json.Json, keys: seq<Text>, good: set<Text>)
    requires j.List? && |j.items| == |keys|
    requires forall i :: 0 <= i < |keys| ==> (Json.Each(j.items[i], Json.AllScalar) <==> keys[i] in good)
    ensures Json.Each(j, Json.AllScalar) <==> forall k :: k in keys ==> k in good
  {
    hide Json.AllScalar;
    if Json.Each(j, Json.AllScalar) {
      forall k | k in keys ensures k in good {
        var i :| 0 <= i < |keys| && keys[i] == k;
        assert j.items[i] in j.items;
      }
    }
  }

  lemma EntryScalar(k: Text, v: Value)
    requires Freeze(v).Some? && Frozen(Freeze(v).value)
    ensures Frozen(Entry(k, v))
    ensures Json.Each(ToJson(Entry(k, v)), Json.AllScalar)
       <==> Json.AllScalar(k) && Json.Each(ToJson(Freeze(v).value), Json.AllScalar)
  {
    hide Freeze, Json.AllScalar;
    var e := Entry(k, v);
    assert e.items[0] == Str(k) && e.items[1] == Freeze(v).value;
    var items := ToJson(e).items;
    assert items[0] in items && items[1] in items;
    assert forall x :: x in items ==> x == items[0] || x == items[1];
  }

  /** What the digest of operation options is the hash of: the options as an object, with ASCII escapes. */
  lemma OperationText(h: Hash, options: map<Text, Value>) returns (t: string, j: Json.Json)
    requires OperationDigest(h, options).Some?
    ensures OperationDigest(h, options) == Some(h(Utf8.Encode(t)))
    ensures Depicts(j, Dict(options), false) && Plain(t, true)
    ensures Parse(KeepLast, t) == Some(JsonRoundTrip.Reread(j))
    ensures Json.Each(j, Json.PairFree) ==> IsTextOf(t, j, true)
  {
    j := AsJson(Dict(options));
    t := Json.Print(j, ExecutionProof.COMPACT);
    AsJsonDepicts(Dict(options));
    hide Json.Print, Json.Each, Parse, JsonRoundTrip.Reread, Depicts, AsJson, Serializable, IsTextOf, Plain;
    PrintedPlain(j, ExecutionProof.COMPACT);
    JsonRoundTrip.PrintedReads(j, ExecutionProof.COMPACT);
    if Json.Each(j, Json.PairFree) {
      PrintedIsText(j, ExecutionProof.COMPACT);
    }
  }

  lemma {:induction false} AsJsonDepicts(v: Value)
    requires Serializable(v)
    ensures Depicts(AsJson(v), v, false)
  {
    match v
    case List(items) =>
      forall i | 0 <= i < |items| ensures Depicts(AsJson(v).items[i], items[i], false) {
        AsJsonDepicts(items[i]);
      }
    case Tuple(items) =>
      forall i | 0 <= i < |items| ensures Depicts(AsJson(v).items[i], items[i], false) {
        AsJsonDepicts(items[i]);
      }
    case Dict(entries) =>
      forall k | k in entries ensures Depicts(AsJson(v).fields[k], entries[k], false) {
        AsJsonDepicts(entries[k]);
      }
    case _ =>
  }

  /** It exists exactly if JSON has something for every part of the options; it has nothing for datetimes. */
  lemma OperationDigestExists(h: Hash, options: map<Text, Value>)
    ensures OperationDigest(h, options).Some? <==> exists j :: Depicts(j, Dict(options), false)
  {
    if Serializable(Dict(options)) {
      AsJsonDepicts(Dict(options));
      var j := AsJson(Dict(options));
      assert Depicts(j, Dict(options), false);
    } else if j :| Depicts(j, Dict(options), false) {
      DepictedSerializes(j, Dict(options));
    }
  }

  lemma {:induction false} DepictedSerializes(j: Json.Json, v: Value)
    requires Depicts(j, v, false)
    ensures Serializable(v)
    decreases v
  {
    match v
    case List(items) =>
      forall x | x in items ensures Serializable(x) {
        var i :| 0 <= i < |items| && items[i] == x;
        DepictedSerializes(j.items[i], x);
      }
    case Tuple(items) =>
      forall x | x in items ensures Serializable(x) {
        var i :| 0 <= i < |items| && items[i] == x;
        DepictedSerializes(j.items[i], x);
      }
    case Dict(entries) =>
      forall k | k in entries ensures Serializable(entries[k]) { DepictedSerializes(j.fields[k], entries[k]); }
    case _ =>
  }

  /** What a capability's command digest is the hash of: the list of its arguments, split pairs put together. */
  lemma CapabilityText(h: Hash, command: seq<Text>) returns (t: string)
    ensures CapabilityCommandDigest(h, command).Some? <==> command != []
    ensures command != [] ==>
      && CapabilityCommandDigest(h, command) == Some(h(Utf8.Encode(t)))
      && IsTextOf(t, ArgumentVectors.Strings(Surrogates.JoinedAll(command)), true)
  {
    var joined := Surrogates.JoinedAll(command);
    t := Json.Print(ArgumentVectors.Strings(joined), ExecutionProof.COMPACT);
    hide Json.Print, Surrogates.Joined, IsTextOf, Json.PairFree;
    forall i | 0 <= i < |joined| ensures Json.PairFree(joined[i]) && Surrogates.Joined(joined[i]) == joined[i] {
      Surrogates.JoinedPairFree(command[i]);
      Surrogates.PairFreeJoined(joined[i]);
    }
    assert Surrogates.JoinedAll(joined) == joined;
    ArgumentVectors.AsciiVectorsEqual(command, joined, ExecutionProof.COMPACT);
    PrintedIsText(ArgumentVectors.Strings(joined), ExecutionProof.COMPACT);
  }

  /** And that of a context: the list of its arguments, none of which may be empty or hold a surrogate. */
  lemma ContextText(h: Hash, command: seq<Text>) returns (t: string)
    ensures ContextCommandDigest(h, command).Some? <==>
      command != [] && forall a :: a in command ==> a != [] && forall r :: r in a ==> !IsHigh(r) && !IsLow(r)
    ensures ContextCommandDigest(h, command).Some? ==>
      && ContextCommandDigest(h, command) == Some(h(Utf8.Encode(t)))
      && IsTextOf(t, ArgumentVectors.Strings(command), false)
  {
    hide Json.Print, IsTextOf;
    forall a ensures Json.AllScalar(a) <==> forall r :: r in a ==> !IsHigh(r) && !IsLow(r) {
      ScalarsIn(a);
    }
    t := "";
    if ContextCommandDigest(h, command).Some? {
      ArgumentVectors.PlainVectorsEqual(command, command, PLAIN);
      t := Json.Print(ArgumentVectors.Strings(command), PLAIN);
      forall a | a in command ensures Json.PairFree(a) { Surrogates.ScalarPairFree(a); }
      PrintedIsText(ArgumentVectors.Strings(command), PLAIN);
    }
  }

  lemma ScalarsIn(a: Text)
    ensures Json.AllScalar(a) <==> forall r :: r in a ==> !IsHigh(r) && !IsLow(r)
  {
    if forall r :: r in a ==> !IsHigh(r) && !IsLow(r) {
      forall i | 0 <= i < |a| ensures IsScalar(a[i]) { assert a[i] in a; }
    }
  }
}
