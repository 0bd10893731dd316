/** Python's equality, with which a run snapshot is compared, against the digests of the same maps. */
module Snapshots {
  import opened Prelude
  import opened Digest
  import opened Binding

  /** Python's `==`, for which a Boolean is the integer 0 or 1. */
  predicate PyEqual(v: Value, w: Value) {
    match v
    case Nothing => w.Nothing?
    case Boolean(b) => Number(w) == Some(if b then 1 else 0)
    case Whole(n) => Number(w) == Some(n)
    case Str(t) => w.Str? && t == w.text
    case Moment(t) => w.Moment? && t == w.iso
    case List(items) =>
      w.List? && |items| == |w.items| && forall i | 0 <= i < |items| :: PyEqual(items[i], w.items[i])
    case Tuple(items) =>
      w.Tuple? && |items| == |w.items| && forall i | 0 <= i < |items| :: PyEqual(items[i], w.items[i])
    case Dict(entries) =>
      w.Dict? && entries.Keys == w.entries.Keys && forall k | k in entries :: PyEqual(entries[k], w.entries[k])
    case Foreign => w.Foreign?
  }

  function Number(v: Value): Option<int> {
    match v
    case Boolean(b) => Some(if b then 1 else 0)
    case Whole(n) => Some(n)
    case _ => None
  }

  lemma {:induction false} PyEqualSelf(v: Value)
    ensures PyEqual(v, v)
  {
    match v
    case List(items) =>
      forall i | 0 <= i < |items| ensures PyEqual(items[i], items[i]) { PyEqualSelf(items[i]); }
    case Tuple(items) =>
      forall i | 0 <= i < |items| ensures PyEqual(items[i], items[i]) { PyEqualSelf(items[i]); }
    case Dict(entries) =>
      forall k | k in entries ensures PyEqual(entries[k], entries[k]) { PyEqualSelf(entries[k]); }
    case _ =>
  }

  // ----- What equality sees -----

  /** A value with its Booleans as the integers that they count as. */
  function Counted(v: Value): Value {
    match v
    case Boolean(b) => Whole(if b then 1 else 0)
    case List(items) => List(AllCounted(items))
    case Tuple(items) => Tuple(AllCounted(items))
    case Dict(entries) => Dict(map k | k in entries :: Counted(entries[k]))
    case _ => v
  }

  function AllCounted(items: seq<Value>): (counted: seq<Value>)
    ensures |counted| == |items| && forall i :: 0 <= i < |items| ==> counted[i] == Counted(items[i])
  {
    seq(|items|, i requires 0 <= i < |items| => Counted(items[i]))
  }

  /** Two values are equal exactly if they are the same once Booleans are counted; a tuple never equals a list. */
  lemma {:induction false} PyEqualExactly(v: Value, w: Value)
    ensures PyEqual(v, w) <==> Counted(v) == Counted(w)
  {
    match v
    case List(items) =>
      if w.List? && |items| == |w.items| {
        ItemsEqualExactly(items, w.items);
      }
    case Tuple(items) =>
      if w.Tuple? && |items| == |w.items| {
        ItemsEqualExactly(items, w.items);
      }
    case Dict(entries) =>
      if w.Dict? && entries.Keys == w.entries.Keys {
        forall k | k in entries
          ensures PyEqual(entries[k], w.entries[k]) <==> Counted(entries[k]) == Counted(w.entries[k])
        {
          PyEqualExactly(entries[k], w.entries[k]);
        }
        EntriesCounted(entries, w.entries);
      } else if w.Dict? {
        EntriesCounted(entries, w.entries);
      }
    case _ =>
  }

  lemma {:induction false} ItemsEqualExactly(xs: seq<Value>, ys: seq<Value>)
    requires |xs| == |ys|
    ensures (forall i :: 0 <= i < |xs| ==> PyEqual(xs[i], ys[i]))
       <==> AllCounted(xs) == AllCounted(ys)
    decreases xs
  {
    forall i | 0 <= i < |xs| ensures PyEqual(xs[i], ys[i]) <==> AllCounted(xs)[i] == AllCounted(ys)[i] {
      PyEqualExactly(xs[i], ys[i]);
    }
  }

  lemma EntriesCounted(m: map<Text, Value>, n: map<Text, Value>)
    ensures Counted(Dict(m)) == Counted(Dict(n)) <==>
      m.Keys == n.Keys && forall k :: k in m ==> Counted(m[k]) == Counted(n[k])
  {
    var a, b := Counted(Dict(m)).entries, Counted(Dict(n)).entries;
    assert a.Keys == m.Keys && b.Keys == n.Keys;
    if a == b {
      forall k | k in m ensures Counted(m[k]) == Counted(n[k]) {
        assert a[k] == b[k];
      }
    }
  }

  // ----- Values that equality pins down -----

  /** No Boolean and no integer 0 or 1 anywhere inside. */
  predicate Definite(v: Value) {
    match v
    case Boolean(_) => false
    case Whole(n) => n != 0 && n != 1
    case List(items) => forall x | x in items :: Definite(x)
    case Tuple(items) => forall x | x in items :: Definite(x)
    case Dict(entries) => forall k | k in entries :: Definite(entries[k])
    case _ => true
  }

  lemma {:induction false} DefiniteAlone(w: Value, v: Value)
    requires PyEqual(w, v) && Definite(v)
    ensures w == v
    decreases w
  {
    match w
    case List(items) =>
      forall i | 0 <= i < |items| ensures items[i] == v.items[i] { DefiniteAlone(items[i], v.items[i]); }
      assert items == v.items;
    case Tuple(items) =>
      forall i | 0 <= i < |items| ensures items[i] == v.items[i] { DefiniteAlone(items[i], v.items[i]); }
      assert items == v.items;
    case Dict(entries) =>
      forall k | k in entries ensures entries[k] == v.entries[k] { DefiniteAlone(entries[k], v.entries[k]); }
      assert entries == v.entries;
    case _ =>
  }

  /** Freezing a sequence is freezing each of its items. */
  lemma {:induction false} ItemsFrozen(items: seq<Value>)
    ensures FreezeItems(items).Some? <==> forall i :: 0 <= i < |items| ==> Freeze(items[i]).Some?
    ensures FreezeItems(items).Some? ==>
      && |FreezeItems(items).value| == |items|
      && forall i :: 0 <= i < |items| ==> FreezeItems(items).value[i] == Freeze(items[i]).value
    decreases |items|
  {
    hide Freeze;
    if items != [] {
      ItemsFrozen(items[1..]);
      assert forall i :: 1 <= i < |items| ==> items[i] == items[1..][i - 1];
      assert forall i :: 0 <= i < |items| - 1 ==> items[1..][i] == items[i + 1];
    }
  }

  /** One item exchanged for an equal one that freezes apart. */
  lemma ItemExchanged(items: seq<Value>, i: nat, x: Value)
    requires i < |items| && FreezeItems(items).Some?
    requires PyEqual(x, items[i]) && Freeze(x).Some? && Freeze(x) != Freeze(items[i])
    ensures var others := items[i := x];
      && FreezeItems(others).Some? && FreezeItems(others) != FreezeItems(items)
      && forall j :: 0 <= j < |items| ==> PyEqual(others[j], items[j])
  {
    hide Freeze, PyEqual, FreezeItems;
    var others := items[i := x];
    ItemsFrozen(items);
    ItemsFrozen(others);
    forall j | 0 <= j < |items| ensures PyEqual(others[j], items[j]) {
      PyEqualSelf(items[j]);
    }
    assert FreezeItems(others).value[i] == Freeze(x).value;
  }

  lemma EntryExchanged(m: map<Text, Value>, k: Text, x: Value)
    requires k in m && Freeze(Dict(m)).Some?
    requires PyEqual(x, m[k]) && Freeze(x).Some? && Freeze(x) != Freeze(m[k])
    ensures var n := m[k := x];
      && PyEqual(Dict(n), Dict(m)) && Freeze(Dict(n)).Some? && Freeze(Dict(n)) != Freeze(Dict(m))
  {
    hide Freeze, PyEqual;
    var n := m[k := x];
    assert n.Keys == m.Keys && n[k] == x;
    ExchangedFreezes(m, k, x);
    FrozenAlikeExactly(m, n);
    forall l | l in n ensures PyEqual(n[l], m[l]) {
      PyEqualSelf(m[l]);
    }
    DictsEqual(n, m);
  }

  lemma DictsEqual(n: map<Text, Value>, m: map<Text, Value>)
    requires n.Keys == m.Keys && forall l :: l in n ==> PyEqual(n[l], m[l])
    ensures PyEqual(Dict(n), Dict(m))
  {
  }

  lemma ExchangedFreezes(m: map<Text, Value>, k: Text, x: Value)
    requires k in m && Freeze(Dict(m)).Some? && Freeze(x).Some?
    ensures Freeze(Dict(m[k := x])).Some?
  {
    FrozenMap(m);
    FrozenMap(m[k := x]);
    hide Freeze, BlankKey;
  }

  /** Everything else equals some value with another frozen form. */
  lemma {:induction false} EqualButApart(v: Value) returns (w: Value)
    requires Freeze(v).Some? && !Definite(v)
    ensures PyEqual(w, v) && Freeze(w).Some? && Freeze(w) != Freeze(v)
    decreases v
  {
    match v {
      case Boolean(b) => w := Whole(if b then 1 else 0);
      case Whole(n) => w := Boolean(n == 1);
      case List(items) =>
        var i :| 0 <= i < |items| && !Definite(items[i]);
        ItemsFrozen(items);
        var x := EqualButApart(items[i]);
        ItemExchanged(items, i, x);
        w := List(items[i := x]);
      case Tuple(items) =>
        var i :| 0 <= i < |items| && !Definite(items[i]);
        ItemsFrozen(items);
        var x := EqualButApart(items[i]);
        ItemExchanged(items, i, x);
        w := Tuple(items[i := x]);
      case Dict(entries) =>
        var k :| k in entries && !Definite(entries[k]);
        EntryFreezes(entries, k);
        var x := EqualButApart(entries[k]);
        EntryExchanged(entries, k, x);
        w := Dict(entries[k := x]);
      case _ =>
    }
  }

  // ----- What a matching snapshot says about digests -----

  lemma FreezeApartDigestsApart(h: Hash, v: Value, w: Value)
    requires CollisionFree(h) && BindingDigest(h, v).Some? && Freeze(w) != Freeze(v)
    ensures BindingDigest(h, w) != BindingDigest(h, v)
  {
    hide BindingDigest, Freeze;
    if BindingDigest(h, w) == BindingDigest(h, v) {
      DigestsIdentifyFrozen(h, w, v);
    }
  }

  /**
   * Under an injective hash, a stored map that equals the approved one always has its digest if
   * and only if no Boolean and no integer 0 or 1 stands anywhere in the approved map.
   */
  lemma SnapshotDigestsExactly(h: Hash, m: map<Text, Value>)
    requires CollisionFree(h) && BindingDigest(h, Dict(m)).Some?
    ensures (forall n :: PyEqual(Dict(n), Dict(m)) ==> BindingDigest(h, Dict(n)) == BindingDigest(h, Dict(m)))
       <==> forall k :: k in m ==> Definite(m[k])
  {
    if forall k :: k in m ==> Definite(m[k]) {
      hide Freeze, BindingDigest;
      forall n | PyEqual(Dict(n), Dict(m)) ensures BindingDigest(h, Dict(n)) == BindingDigest(h, Dict(m)) {
        DefiniteAlone(Dict(n), Dict(m));
      }
    } else {
      var n := OtherSnapshot(h, m);
    }
  }

  lemma OtherSnapshot(h: Hash, m: map<Text, Value>) returns (n: map<Text, Value>)
    requires CollisionFree(h) && BindingDigest(h, Dict(m)).Some? && !Definite(Dict(m))
    ensures PyEqual(Dict(n), Dict(m)) && BindingDigest(h, Dict(n)) != BindingDigest(h, Dict(m))
  {
    var k :| k in m && !Definite(m[k]);
    EntryFreezes(m, k);
    var x := EqualButApart(m[k]);
    EntryExchanged(m, k, x);
    n := m[k := x];
    hide Freeze, PyEqual, Definite;
    FreezeApartDigestsApart(h, Dict(m), Dict(n));
  }

  /** The simplest case: a run that holds `True` for 1 passes the comparison and has another digest. */
  lemma EqualSnapshotsOtherDigest(h: Hash, k: Text)
    requires CollisionFree(h) && BindingDigest(h, Dict(map[k := Whole(1)])).Some?
    ensures PyEqual(Dict(map[k := Boolean(true)]), Dict(map[k := Whole(1)]))
    ensures BindingDigest(h, Dict(map[k := Boolean(true)])) != BindingDigest(h, Dict(map[k := Whole(1)]))
  {
    var m, n := map[k := Whole(1)], map[k := Boolean(true)];
    assert m[k] == Whole(1) && n[k] == Boolean(true) && n == m[k := Boolean(true)];
    EntryExchanged(m, k, Boolean(true));
    hide Freeze, BindingDigest;
    FreezeApartDigestsApart(h, Dict(m), Dict(n));
  }
}
