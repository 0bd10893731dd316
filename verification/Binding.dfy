/** Freezing of authority maps, and the digests that bind a launch context to a decision. */
module Binding {
  import opened Prelude
  import opened Digest
  import opened ExecutionProof
  import opened IsoTime
  import Json
  import JsonRoundTrip
  import PyText
  import ArgumentVectors
  import Surrogates
  import TextOrder
  import Utf8

  /** What a binding map may hold. `Moment` stands for a datetime, `Foreign` for a value of any other type. */
  datatype Value =
    | Nothing
    | Boolean(b: bool)
    | Whole(n: int)
    | Str(text: Text)
    | Moment(iso: Iso)
    | List(items: seq<Value>)
    | Tuple(items: seq<Value>)
    | Dict(entries: map<Text, Value>)
    | Foreign

  predicate BlankKey(k: Text) {
    forall i | 0 <= i < |k| :: PyText.IsSpaceRune(k[i])
  }

  // ----- Freezing and digests -----

  /** `_freeze_value`; `None` where it raises. */
  function Freeze(v: Value): Option<Value>
    decreases v, 1, 0
  {
    match v
    case Moment(iso) => Some(Str(iso))
    case Dict(entries) =>
      if exists k | k in entries :: BlankKey(k) then None
      else
        var pairs :- FreezeEntries(v, TextOrder.Sorted(entries.Keys));
        Some(Tuple(pairs))
    case List(items) =>
      var frozen :- FreezeItems(items);
      Some(Tuple(frozen))
    case Tuple(items) =>
      var frozen :- FreezeItems(items);
      Some(Tuple(frozen))
    case Foreign => None
    case _ => Some(v)
  }

  function FreezeItems(items: seq<Value>): Option<seq<Value>>
    decreases items, 0, 0
  {
    if items == [] then Some([])
    else
      var first :- Freeze(items[0]);
      var rest :- FreezeItems(items[1..]);
      Some([first] + rest)
  }

  function FreezeEntries(v: Value, keys: seq<Text>): Option<seq<Value>>
    requires v.Dict? && forall k | k in keys :: k in v.entries
    decreases v, 0, |keys|
  {
    if keys == [] then Some([])
    else
      var first :- Freeze(v.entries[keys[0]]);
      var rest :- FreezeEntries(v, keys[1..]);
      Some([Tuple([Str(keys[0]), first])] + rest)
  }

  /** Nothing left to freeze. */
  predicate Frozen(v: Value) {
    match v
    case Tuple(items) => forall x | x in items :: Frozen(x)
    case Nothing => true
    case Boolean(_) => true
    case Whole(_) => true
    case Str(_) => true
    case _ => false
  }

  /** How `json.dumps` sees a frozen value. */
  function ToJson(v: Value): (j: Json.Json)
    requires Frozen(v)
  {
    match v
    case Nothing => Json.Null
    case Boolean(b) => Json.Bool(b)
    case Whole(n) => Json.Int(n)
    case Str(t) => Json.Str(t)
    case Tuple(items) => Json.List(seq(|items|, i requires 0 <= i < |items| => ToJson(items[i])))
  }

  const PLAIN := Json.Style(false, false)

  /** `canonical_binding_digest`; `None` where it raises, be it for a type, a blank key or a surrogate. */
  function BindingDigest(h: Hash, v: Value): Option<string> {
    var f :- Freeze(v);
    FreezeFrozen(v);
    if Json.Each(ToJson(f), Json.AllScalar) then Some(h(Utf8.Encode(Json.Print(ToJson(f), PLAIN)))) else None
  }

  // ----- Freezing -----

  lemma {:induction false} FreezeFrozen(v: Value)
    ensures Freeze(v).Some? ==> Frozen(Freeze(v).value)
    decreases v, 1, 0
  {
    hide FreezeItems, FreezeEntries, BlankKey, IsIso, TextOrder.Sorted;
    match v
    case Dict(entries) =>
      FreezeEntriesFrozen(v, TextOrder.Sorted(entries.Keys));
    case List(items) =>
      FreezeItemsFrozen(items);
    case Tuple(items) =>
      FreezeItemsFrozen(items);
    case _ =>
  }

  lemma {:induction false} FreezeItemsFrozen(items: seq<Value>)
    ensures FreezeItems(items).Some? ==> forall x :: x in FreezeItems(items).value ==> Frozen(x)
    decreases items, 0, 0
  {
    hide Freeze, Frozen;
    if items != [] {
      FreezeFrozen(items[0]);
      FreezeItemsFrozen(items[1..]);
    }
  }

  lemma {:induction false} FreezeEntriesFrozen(v: Value, keys: seq<Text>)
    requires v.Dict? && forall k | k in keys :: k in v.entries
    ensures FreezeEntries(v, keys).Some? ==> forall x :: x in FreezeEntries(v, keys).value ==> Frozen(x)
    decreases v, 0, |keys|
  {
    if keys != [] {
      FreezeFrozen(v.entries[keys[0]]);
      FreezeEntriesFrozen(v, keys[1..]);
    }
  }

  lemma {:induction false} FrozenStays(v: Value)
    requires Frozen(v)
    ensures Freeze(v) == Some(v)
    decreases v, 1
  {
    if v.Tuple? {
      FrozenItemsStay(v.items);
    }
  }

  lemma {:induction false} FrozenItemsStay(items: seq<Value>)
    requires forall x :: x in items ==> Frozen(x)
    ensures FreezeItems(items) == Some(items)
    decreases items, 0
  {
    if items != [] {
      FrozenStays(items[0]);
      FrozenItemsStay(items[1..]);
      assert items == [items[0]] + items[1..];
    }
  }

  /** Freezing is idempotent, and so a frozen value has the digest of the value it came from. */
  lemma FreezeIdempotent(h: Hash, v: Value)
    requires Freeze(v).Some?
    ensures Freeze(Freeze(v).value) == Freeze(v)
    ensures BindingDigest(h, Freeze(v).value) == BindingDigest(h, v)
  {
    FreezeFrozen(v);
    FrozenStays(Freeze(v).value);
  }

  // ----- What a digest identifies -----

  lemma {:induction false} ToJsonInjective(v: Value, w: Value)
    requires Frozen(v) && Frozen(w) && ToJson(v) == ToJson(w)
    ensures v == w
  {
    if v.Tuple? {
      forall i | 0 <= i < |v.items| ensures v.items[i] == w.items[i] {
        assert ToJson(v).items[i] == ToJson(w).items[i];
        ToJsonInjective(v.items[i], w.items[i]);
      }
    }
  }

  lemma {:induction false} ScalarEachPairFree(j: Json.Json)
    requires Json.Each(j, Json.AllScalar)
    ensures Json.Each(j, Json.PairFree)
  {
    match j
    case Str(t) =>
      Surrogates.ScalarPairFree(t);
    case List(items) =>
      forall x | x in items ensures Json.Each(x, Json.PairFree) { ScalarEachPairFree(x); }
    case Obj(fields) =>
      forall k | k in fields ensures Json.PairFree(k) && Json.Each(fields[k], Json.PairFree) {
        Surrogates.ScalarPairFree(k);
        ScalarEachPairFree(fields[k]);
      }
    case _ =>
  }

  /** Under an injective hash, digests agree exactly when the frozen values do. */
  lemma DigestsIdentifyFrozen(h: Hash, v: Value, w: Value)
    requires CollisionFree(h)
    requires BindingDigest(h, v).Some? && BindingDigest(h, w).Some?
    ensures BindingDigest(h, v) == BindingDigest(h, w) <==> Freeze(v) == Freeze(w)
  {
    var f, g := Freeze(v).value, Freeze(w).value;
    FreezeFrozen(v);
    FreezeFrozen(w);
    hide Freeze, Frozen, ToJson, Json.Each, Json.Print, Utf8.Encode, Utf8.Decode, Json.AllScalar, Json.PairFree;
    var a, b := ToJson(f), ToJson(g);
    if BindingDigest(h, v) == BindingDigest(h, w) {
      Utf8.RoundTrip(Json.Print(a, PLAIN));
      Utf8.RoundTrip(Json.Print(b, PLAIN));
      ScalarEachPairFree(a);
      ScalarEachPairFree(b);
      JsonRoundTrip.PrintInjective(a, b, PLAIN);
      ToJsonInjective(f, g);
    }
  }

  predicate Scalar(v: Value) {
    v.Nothing? || v.Boolean? || v.Whole? || v.Str?
  }

  lemma SamePair(k: Text, v: Value, l: Text, w: Value, pair: Value)
    requires pair == Tuple([Str(k), v]) && pair == Tuple([Str(l), w])
    ensures k == l && v == w
  {
    assert pair.items[0] == Str(k) && pair.items[1] == v;
  }

  /** Nested maps are not identified: one under a key has the digest of the tuple of its pairs there. */
  lemma NestedMapsCollide(h: Hash, k: Text, inner: map<Text, Value>)
    requires !BlankKey(k) && Freeze(Dict(inner)).Some?
    ensures var flat := Freeze(Dict(inner)).value;
      && Dict(map[k := Dict(inner)]) != Dict(map[k := flat])
      && BindingDigest(h, Dict(map[k := Dict(inner)])) == BindingDigest(h, Dict(map[k := flat]))
  {
    var flat := Freeze(Dict(inner)).value;
    FreezeIdempotent(h, Dict(inner));
    OneEntry(k, Dict(inner));
    OneEntry(k, flat);
    assert map[k := Dict(inner)][k] != map[k := flat][k];
  }

  // ----- Which maps share a digest -----

  /** Keys and frozen values of a map that can be frozen, read off its frozen form. */
  lemma {:induction false} EntriesFrozen(v: Value, keys: seq<Text>)
    requires v.Dict? && forall k | k in keys :: k in v.entries
    ensures FreezeEntries(v, keys).Some? <==> forall k :: k in keys ==> Freeze(v.entries[k]).Some?
    ensures FreezeEntries(v, keys).Some? ==>
      && |FreezeEntries(v, keys).value| == |keys|
      && forall i :: 0 <= i < |keys| ==>
           FreezeEntries(v, keys).value[i] == Tuple([Str(keys[i]), Freeze(v.entries[keys[i]]).value])
    decreases |keys|
  {
    hide Freeze;
    if keys != [] {
      EntriesFrozen(v, keys[1..]);
      assert forall k :: k in keys <==> k == keys[0] || k in keys[1..];
    }
  }

  /** Two maps freeze alike exactly when they have the same keys and, under each, values that freeze alike. */
  lemma FrozenAlikeExactly(m: map<Text, Value>, n: map<Text, Value>)
    requires Freeze(Dict(m)).Some?
    ensures Freeze(Dict(n)) == Freeze(Dict(m))
       <==> m.Keys == n.Keys && forall k :: k in m ==> Freeze(n[k]) == Freeze(m[k])
  {
    hide Freeze;
    if Freeze(Dict(n)) == Freeze(Dict(m)) {
      FrozenAlikeParts(m, n);
    }
    if m.Keys == n.Keys && forall k :: k in m ==> Freeze(n[k]) == Freeze(m[k]) {
      PartsFreezeAlike(m, n);
    }
  }

  /** The frozen form of one entry. */
  function Entry(k: Text, v: Value): Value
    requires Freeze(v).Some?
  {
    Tuple([Str(k), Freeze(v).value])
  }

  lemma EntryParts(k: Text, v: Value, l: Text, w: Value)
    requires Freeze(v).Some? && Freeze(w).Some?
    ensures Entry(k, v) == Entry(l, w) <==> k == l && Freeze(v) == Freeze(w)
  {
    hide Freeze;
    if Entry(k, v) == Entry(l, w) {
      SamePair(k, Freeze(v).value, l, Freeze(w).value, Entry(k, v));
    }
  }

  /** The frozen form of a map, which exists if no key is blank and every value can be frozen. */
  lemma FrozenMap(m: map<Text, Value>)
    ensures var ks := TextOrder.Sorted(m.Keys);
      && (Freeze(Dict(m)).Some? <==> forall k :: k in m ==> !BlankKey(k) && Freeze(m[k]).Some?)
      && (Freeze(Dict(m)).Some? ==>
            && Freeze(Dict(m)).value.Tuple? && |Freeze(Dict(m)).value.items| == |ks|
            && forall i :: 0 <= i < |ks| ==>
                 ks[i] in m && Freeze(m[ks[i]]).Some? && Freeze(Dict(m)).value.items[i] == Entry(ks[i], m[ks[i]]))
  {
    var ks := TextOrder.Sorted(m.Keys);
    EntriesFrozen(Dict(m), ks);
    MapFrozen(m);
    hide Freeze, FreezeEntries, BlankKey, TextOrder.Sorted;
    assert forall k :: k in m <==> k in ks;
    forall i | 0 <= i < |ks| ensures ks[i] in m { assert ks[i] in ks; }
  }

  lemma FrozenAlikeParts(m: map<Text, Value>, n: map<Text, Value>)
    requires Freeze(Dict(m)).Some? && Freeze(Dict(n)) == Freeze(Dict(m))
    ensures m.Keys == n.Keys && forall k :: k in m ==> Freeze(n[k]) == Freeze(m[k])
  {
    hide Freeze, BlankKey, TextOrder.Sorted, Entry;
    var ms, ns := TextOrder.Sorted(m.Keys), TextOrder.Sorted(n.Keys);
    FrozenMap(m);
    FrozenMap(n);
    forall i | 0 <= i < |ms|
      ensures ms[i] == ns[i] && ms[i] in m && ns[i] in n && Freeze(n[ns[i]]) == Freeze(m[ms[i]])
    {
      EntryParts(ms[i], m[ms[i]], ns[i], n[ns[i]]);
    }
    assert ms == ns;
    forall k | k in m ensures k in n && Freeze(n[k]) == Freeze(m[k]) {
      assert k in ms;
      var i :| 0 <= i < |ms| && ms[i] == k;
    }
    forall k | k in n ensures k in m { assert k in ns; }
  }

  lemma PartsFreezeAlike(m: map<Text, Value>, n: map<Text, Value>)
    requires Freeze(Dict(m)).Some? && m.Keys == n.Keys && forall k :: k in m ==> Freeze(n[k]) == Freeze(m[k])
    ensures Freeze(Dict(n)) == Freeze(Dict(m))
  {
    hide Freeze, BlankKey, TextOrder.Sorted, Entry;
    FrozenMap(m);
    FrozenMap(n);
    var ks := TextOrder.Sorted(m.Keys);
    forall k | k in n ensures !BlankKey(k) && Freeze(n[k]).Some? { assert k in m; }
    var ps, qs := Freeze(Dict(m)).value.items, Freeze(Dict(n)).value.items;
    forall i | 0 <= i < |ks| ensures ps[i] == qs[i] {
      EntryParts(ks[i], m[ks[i]], ks[i], n[ks[i]]);
    }
    assert ps == qs;
  }

  lemma MapFrozen(m: map<Text, Value>)
    ensures var ps := FreezeEntries(Dict(m), TextOrder.Sorted(m.Keys));
      Freeze(Dict(m)) == if ps.Some? && forall k :: k in m ==> !BlankKey(k) then Some(Tuple(ps.value)) else None
  {
    hide BlankKey, FreezeEntries;
  }

  /** Maps of scalars that freeze alike are the same map. */
  lemma FlatMapsFreezeApart(m: map<Text, Value>, n: map<Text, Value>)
    requires forall k :: k in m ==> Scalar(m[k])
    requires forall k :: k in n ==> Scalar(n[k])
    requires Freeze(Dict(m)).Some? && Freeze(Dict(m)) == Freeze(Dict(n))
    ensures m == n
  {
    FrozenAlikeExactly(m, n);
    forall k | k in m ensures n[k] == m[k] {
      assert Freeze(m[k]) == Some(m[k]) && Freeze(n[k]) == Some(n[k]);
    }
  }

  /** For maps of scalars a digest identifies the map itself. */
  lemma FlatDigestsIdentifyMaps(h: Hash, m: map<Text, Value>, n: map<Text, Value>)
    requires CollisionFree(h)
    requires forall k :: k in m ==> Scalar(m[k])
    requires forall k :: k in n ==> Scalar(n[k])
    requires BindingDigest(h, Dict(m)).Some? && BindingDigest(h, Dict(n)).Some?
    ensures BindingDigest(h, Dict(m)) == BindingDigest(h, Dict(n)) <==> m == n
  {
    DigestsIdentifyFrozen(h, Dict(m), Dict(n));
    if Freeze(Dict(m)) == Freeze(Dict(n)) {
      FlatMapsFreezeApart(m, n);
    }
  }

  /** A value that no other value freezes to: no container, no datetime, and no text of one. */
  predicate Rigid(v: Value) {
    v.Nothing? || v.Boolean? || v.Whole? || (v.Str? && !IsIso(v.text))
  }

  /** Every other value shares its frozen form: datetimes with texts, lists and dictionaries with tuples. */
  lemma Twin(v: Value) returns (w: Value)
    requires Freeze(v).Some? && !Rigid(v)
    ensures w != v && Freeze(w) == Freeze(v)
  {
    hide IsIso;
    match v {
      case Moment(t) => w := Str(t);
      case Str(t) => w := Moment(t);
      case List(items) => w := Tuple(items);
      case Tuple(items) => w := List(items);
      case Dict(entries) =>
        FreezeFrozen(v);
        w := Freeze(v).value;
        FrozenStays(w);
      case _ =>
    }
  }

  lemma RigidAlone(v: Value, w: Value)
    requires Rigid(v) && Freeze(w) == Freeze(v)
    ensures w == v
  {
    hide IsIso, FreezeItems, FreezeEntries;
  }

  /**
   * Under an injective hash the digest of a map identifies it among all maps exactly when
   * every value in it is null, a Boolean, an integer, or a string that is not the ISO text of
   * a datetime in UTC.
   */
  lemma MapIdentifiedExactly(h: Hash, m: map<Text, Value>)
    requires CollisionFree(h) && BindingDigest(h, Dict(m)).Some?
    ensures (forall n :: BindingDigest(h, Dict(n)) == BindingDigest(h, Dict(m)) ==> n == m)
       <==> forall k :: k in m ==> Rigid(m[k])
  {
    hide Freeze, Rigid, Json.Each;
    if forall k :: k in m ==> Rigid(m[k]) {
      forall n | BindingDigest(h, Dict(n)) == BindingDigest(h, Dict(m)) ensures n == m {
        DigestsIdentifyFrozen(h, Dict(n), Dict(m));
        FrozenAlikeExactly(m, n);
        forall k | k in m ensures n[k] == m[k] {
          RigidAlone(m[k], n[k]);
        }
      }
    } else {
      var k :| k in m && !Rigid(m[k]);
      EntryFreezes(m, k);
      var w := Twin(m[k]);
      var n := m[k := w];
      assert n != m by { assert n[k] != m[k]; }
      FrozenAlikeExactly(m, n);
      SameFrozenSameDigest(h, Dict(n), Dict(m));
    }
  }

  lemma EntryFreezes(m: map<Text, Value>, k: Text)
    requires Freeze(Dict(m)).Some? && k in m
    ensures Freeze(m[k]).Some?
  {
    var ks := TextOrder.Sorted(m.Keys);
    EntriesFrozen(Dict(m), ks);
    MapFrozen(m);
    hide Freeze, FreezeEntries;
    assert k in ks;
  }

  lemma SameFrozenSameDigest(h: Hash, v: Value, w: Value)
    requires Freeze(v) == Freeze(w)
    ensures BindingDigest(h, v) == BindingDigest(h, w)
  {
    hide Freeze;
  }

  lemma OneEntry(k: Text, v: Value)
    requires !BlankKey(k) && Freeze(v).Some?
    ensures Freeze(Dict(map[k := v])) == Some(Tuple([Tuple([Str(k), Freeze(v).value])]))
  {
    var d := Dict(map[k := v]);
    var ks := TextOrder.Sorted(d.entries.Keys);
    OneKey(k, ks);
    assert ks[0] == k && d.entries[k] == v && ks[1..] == [];
    assert FreezeEntries(d, ks[1..]) == Some([]);
    assert [Tuple([Str(k), Freeze(v).value])] + [] == [Tuple([Str(k), Freeze(v).value])];
    assert FreezeEntries(d, ks) == Some([Tuple([Str(k), Freeze(v).value])]);
  }

  lemma OneKey(k: Text, ks: seq<Text>)
    requires forall x :: x in ks <==> x == k
    requires forall i, j :: 0 <= i < j < |ks| ==> ks[i] != ks[j]
    ensures ks == [k]
  {
    assert k in ks;
    assert |ks| >= 2 ==> ks[0] != ks[1];
    forall i | 0 <= i < |ks| ensures ks[i] == k {
      assert ks[i] in ks;
    }
  }

  // ----- Command vectors -----

  /** `canonical_command_digest`: no empty argument, no surrogate. */
  function ContextCommandDigest(h: Hash, command: seq<Text>): Option<string> {
    if command != [] && (forall t | t in command :: t != [] && Json.AllScalar(t)) then
      ArgumentVectors.PlainVectorsEqual(command, command, PLAIN);
      Some(h(Utf8.Encode(Json.Print(ArgumentVectors.Strings(command), PLAIN))))
    else None
  }

  /** `_command_digest`: any nonempty vector, printed with ASCII escapes. */
  function CapabilityCommandDigest(h: Hash, command: seq<Text>): Option<string> {
    if command == [] then None
    else Some(h(Utf8.Encode(Json.Print(ArgumentVectors.Strings(command), COMPACT))))
  }

  /** `assert_launch` accepts the vector the context was made for and no other. */
  lemma LaunchAcceptsOneVector(h: Hash, made: seq<Text>, launched: seq<Text>)
    requires CollisionFree(h)
    requires ContextCommandDigest(h, made).Some?
    ensures ContextCommandDigest(h, launched) == ContextCommandDigest(h, made) <==> launched == made
  {
    if ContextCommandDigest(h, launched) == ContextCommandDigest(h, made) {
      ArgumentVectors.PlainVectorsEqual(made, launched, PLAIN);
      Utf8.RoundTrip(Json.Print(ArgumentVectors.Strings(made), PLAIN));
      Utf8.RoundTrip(Json.Print(ArgumentVectors.Strings(launched), PLAIN));
    }
  }

  /** `assert_valid_for_launch` accepts exactly the vectors that differ in split surrogate pairs at most. */
  lemma CapabilityAcceptsJoined(h: Hash, made: seq<Text>, launched: seq<Text>)
    requires CollisionFree(h) && made != [] && launched != []
    ensures CapabilityCommandDigest(h, launched) == CapabilityCommandDigest(h, made)
       <==> Surrogates.JoinedAll(launched) == Surrogates.JoinedAll(made)
  {
    ArgumentVectors.AsciiVectorsEqual(made, launched, COMPACT);
    Utf8.RoundTrip(Json.Print(ArgumentVectors.Strings(made), COMPACT));
    Utf8.RoundTrip(Json.Print(ArgumentVectors.Strings(launched), COMPACT));
  }

  /**
   * So it accepts its own vector only exactly if no argument holds a split surrogate pair or a
   * character outside the basic plane: any such character has a second spelling with this digest.
   */
  lemma CapabilityIdentifiesExactly(h: Hash, made: seq<Text>)
    requires CollisionFree(h) && made != []
    ensures (forall launched :: CapabilityCommandDigest(h, launched) == CapabilityCommandDigest(h, made) ==>
              launched == made)
       <==> forall t :: t in made ==> Surrogates.Unsplittable(t)
  {
    hide Surrogates.Unsplittable, Surrogates.JoinedAll;
    if forall t :: t in made ==> Surrogates.Unsplittable(t) {
      ArgumentVectors.JoinedVectorOnceExactly(made);
      forall launched | CapabilityCommandDigest(h, launched) == CapabilityCommandDigest(h, made)
        ensures launched == made
      {
        CapabilityAcceptsJoined(h, made, launched);
      }
    } else {
      var other := ArgumentVectors.OtherVector(made);
      CapabilityAcceptsJoined(h, made, other);
    }
  }

  /** So both checks together leave one vector, whatever vector the capability was issued for. */
  lemma BothChecksLeaveOneVector(h: Hash, issued: seq<Text>, a: seq<Text>, b: seq<Text>)
    requires CollisionFree(h) && issued != []
    requires ContextCommandDigest(h, a).Some? && ContextCommandDigest(h, b).Some?
    requires CapabilityCommandDigest(h, a) == CapabilityCommandDigest(h, issued)
    requires CapabilityCommandDigest(h, b) == CapabilityCommandDigest(h, issued)
    ensures a == b
  {
    CapabilityAcceptsJoined(h, issued, a);
    CapabilityAcceptsJoined(h, issued, b);
    ScalarVectorJoined(a);
    ScalarVectorJoined(b);
  }

  lemma ScalarVectorJoined(a: seq<Text>)
    requires forall t :: t in a ==> Json.AllScalar(t)
    ensures Surrogates.JoinedAll(a) == a
  {
    forall i | 0 <= i < |a| ensures Surrogates.Joined(a[i]) == a[i] {
      Surrogates.ScalarPairFree(a[i]);
      Surrogates.PairFreeJoined(a[i]);
    }
  }
}
