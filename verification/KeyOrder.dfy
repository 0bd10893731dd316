/** When a value and what its text is read as are printed alike: the order of the keys decides. */
module KeyOrder {
  import opened Prelude
  import opened Json
  import opened JsonParser
  import opened JsonRoundTrip
  import opened Surrogates
  import TextOrder

  /** In every dictionary inside, distinct keys stay distinct, and in their order, once their split pairs are joined. */
  predicate KeysKeepOrder(v: Json) {
    match v
    case List(items) => forall x | x in items :: KeysKeepOrder(x)
    case Obj(fields) => OrderKept(fields.Keys) && forall k | k in fields :: KeysKeepOrder(fields[k])
    case _ => true
  }

  predicate OrderKept(keys: set<Text>) {
    forall a, b | a in keys && b in keys && a != b && TextOrder.Leq(a, b) ::
      Joined(a) != Joined(b) && TextOrder.Leq(Joined(a), Joined(b))
  }

  /** No dictionary key anywhere inside holds a split surrogate pair. */
  predicate KeysPairFree(v: Json) {
    match v
    case List(items) => forall x | x in items :: KeysPairFree(x)
    case Obj(fields) => forall k | k in fields :: PairFree(k) && KeysPairFree(fields[k])
    case _ => true
  }

  lemma {:induction false} PairFreeKeysKeepOrder(v: Json)
    requires KeysPairFree(v)
    ensures KeysKeepOrder(v)
  {
    match v
    case List(items) =>
      forall x | x in items ensures KeysKeepOrder(x) {
        PairFreeKeysKeepOrder(x);
      }
    case Obj(fields) =>
      forall k | k in fields ensures Joined(k) == k && KeysKeepOrder(fields[k]) {
        PairFreeJoined(k);
        PairFreeKeysKeepOrder(fields[k]);
      }
    case _ =>
  }

  /** Keys keep their order exactly if the sorted list of them, joined key by key, is still sorted. */
  lemma OrderKeptSorted(s: set<Text>)
    ensures OrderKept(s) <==> TextOrder.Ascending(JoinedAll(TextOrder.Sorted(s)))
  {
    hide Joined, TextOrder.Leq, TextOrder.Sorted, JoinedAll;
    var ks := TextOrder.Sorted(s);
    if TextOrder.Ascending(JoinedAll(ks)) {
      forall a, b | a in s && b in s && a != b && TextOrder.Leq(a, b)
        ensures Joined(a) != Joined(b) && TextOrder.Leq(Joined(a), Joined(b))
      {
        assert a in ks && b in ks;
        var i :| 0 <= i < |ks| && ks[i] == a;
        var j :| 0 <= j < |ks| && ks[j] == b;
        if j < i {
          TextOrder.Antisymmetric(a, b);
        }
        assert JoinedAll(ks)[i] == Joined(a) && JoinedAll(ks)[j] == Joined(b);
      }
    }
    if OrderKept(s) {
      forall i, j | 0 <= i < j < |ks|
        ensures JoinedAll(ks)[i] != JoinedAll(ks)[j] && TextOrder.Leq(JoinedAll(ks)[i], JoinedAll(ks)[j])
      {
        assert ks[i] in s && ks[j] in s;
      }
    }
  }

  // ----- Keys that keep their order -----

  /** The dictionary that is read back has the joined keys, in the same places, each with its own member. */
  lemma CollectedInOrder(v: Json)
    requires v.Obj? && OrderKept(v.fields.Keys)
    ensures TextOrder.Sorted(Reread(v).fields.Keys) == JoinedAll(TextOrder.Sorted(v.fields.Keys))
    ensures forall k :: k in v.fields ==>
      Joined(k) in Reread(v).fields && Reread(v).fields[Joined(k)] == Reread(v.fields[k])
  {
    var keys := TextOrder.Sorted(v.fields.Keys);
    var pairs := RereadPairs(v, keys);
    var fields := LastWins(pairs);
    RereadCollects(v);
    OrderKeptSorted(v.fields.Keys);
    hide Joined, Reread, RereadPairs, LastWins, OrderKept, JoinedAll, TextOrder.Sorted, TextOrder.Ascending;
    PairsInPlaces(v, keys);
    OrderedPairsCollected(keys, pairs);
    MembersCollected(v, keys, pairs, fields);
    KeysCollected(keys, pairs, fields);
    TextOrder.SortedUnique(fields.Keys, JoinedAll(keys));
  }

  lemma PairsInPlaces(v: Json, keys: seq<Text>)
    requires v.Obj? && forall k | k in keys :: k in v.fields
    ensures forall i :: 0 <= i < |keys| ==>
      keys[i] in v.fields && RereadPairs(v, keys)[i] == (JoinedAll(keys)[i], Reread(v.fields[keys[i]]))
  {
    hide Joined, Reread, RereadPairs, JoinedAll;
    forall i | 0 <= i < |keys|
      ensures keys[i] in v.fields && RereadPairs(v, keys)[i] == (JoinedAll(keys)[i], Reread(v.fields[keys[i]]))
    {
      assert keys[i] in keys;
      PairAt(v, keys, i);
    }
  }

  lemma OrderedPairsCollected(keys: seq<Text>, pairs: seq<(Text, Json)>)
    requires TextOrder.Ascending(JoinedAll(keys)) && |pairs| == |keys|
    requires forall i :: 0 <= i < |keys| ==> pairs[i].0 == JoinedAll(keys)[i]
    ensures LastWins(pairs).Items == set p | p in pairs
  {
    hide JoinedAll, FromPairs, LastWins, TextOrder.Leq;
    FromPairsDistinct(pairs);
    FromPairsItems(pairs);
    HooksAgree(pairs);
  }

  lemma RereadCollects(v: Json)
    requires v.Obj?
    ensures Reread(v) == Obj(LastWins(RereadPairs(v, TextOrder.Sorted(v.fields.Keys))))
  {
  }

  lemma MembersCollected(v: Json, keys: seq<Text>, pairs: seq<(Text, Json)>, fields: map<Text, Json>)
    requires v.Obj? && (forall k :: k in keys <==> k in v.fields) && |pairs| == |keys|
    requires forall i :: 0 <= i < |keys| ==>
      keys[i] in v.fields && pairs[i] == (JoinedAll(keys)[i], Reread(v.fields[keys[i]]))
    requires fields.Items == set p | p in pairs
    ensures forall k :: k in v.fields ==> Joined(k) in fields && fields[Joined(k)] == Reread(v.fields[k])
  {
    hide Joined, Reread, JoinedAll;
    forall k | k in v.fields ensures Joined(k) in fields && fields[Joined(k)] == Reread(v.fields[k]) {
      assert k in keys;
      var i :| 0 <= i < |keys| && keys[i] == k;
      assert pairs[i] in fields.Items;
    }
  }

  lemma KeysCollected(keys: seq<Text>, pairs: seq<(Text, Json)>, fields: map<Text, Json>)
    requires |pairs| == |keys| && forall i :: 0 <= i < |keys| ==> pairs[i].0 == JoinedAll(keys)[i]
    requires fields.Items == set p | p in pairs
    ensures forall k :: k in JoinedAll(keys) <==> k in fields.Keys
  {
    hide JoinedAll;
    forall k ensures k in JoinedAll(keys) <==> k in fields.Keys {
      if k in JoinedAll(keys) {
        var i :| 0 <= i < |keys| && JoinedAll(keys)[i] == k;
        assert pairs[i] in fields.Items;
      }
      if k in fields.Keys {
        assert (k, fields[k]) in fields.Items;
        assert (k, fields[k]) in pairs;
        var i :| 0 <= i < |pairs| && pairs[i] == (k, fields[k]);
      }
    }
  }

  lemma {:induction false} ItemsPrintAlike(items: seq<Json>, others: seq<Json>, style: Style)
    requires style.ascii && |items| == |others|
    requires forall i :: 0 <= i < |items| ==> Print(items[i], style) == Print(others[i], style)
    ensures PrintItems(items, style) == PrintItems(others, style)
  {
    hide Print, Comma;
    if items != [] {
      ItemsPrintAlike(items[1..], others[1..], style);
    }
  }

  lemma {:induction false} MembersPrintAlike(v: Json, w: Json, keys: seq<Text>, style: Style)
    requires v.Obj? && w.Obj? && style.ascii
    requires forall k | k in keys :: k in v.fields && Joined(k) in w.fields
    requires forall k | k in keys :: Print(v.fields[k], style) == Print(w.fields[Joined(k)], style)
    requires forall k | k in JoinedAll(keys) :: k in w.fields
    ensures PrintMembers(w, JoinedAll(keys), style) == PrintMembers(v, keys, style)
  {
    hide Print, Joined, Comma, Colon, EscapeText;
    if keys != [] {
      var joined := JoinedAll(keys);
      assert keys[0] in keys && joined[0] == Joined(keys[0]);
      JoinedPrints(keys[0], style);
      assert joined[1..] == JoinedAll(keys[1..]);
      MembersPrintAlike(v, w, keys[1..], style);
    }
  }

  lemma {:induction false} OrderedPrintsAlike(v: Json, style: Style)
    requires style.ascii && KeysKeepOrder(v)
    ensures Print(Reread(v), style) == Print(v, style)
    decreases v
  {
    match v
    case Str(t) =>
      JoinedPrints(t, style);
    case List(items) =>
      hide PrintItems, PrintMembers;
      forall i | 0 <= i < |items| ensures Print(RereadItems(items)[i], style) == Print(items[i], style) {
        OrderedPrintsAlike(items[i], style);
      }
      ItemsPrintAlike(RereadItems(items), items, style);
    case Obj(fields) =>
      CollectedInOrder(v);
      var w := Reread(v);
      var keys := TextOrder.Sorted(fields.Keys);
      hide PrintItems, PrintMembers, Reread, Joined, OrderKept, JoinedAll, TextOrder.Sorted;
      forall k | k in keys
        ensures k in fields && Joined(k) in w.fields && Print(fields[k], style) == Print(w.fields[Joined(k)], style)
      {
        OrderedPrintsAlike(fields[k], style);
      }
      MembersPrintAlike(v, w, keys, style);
    case _ =>
  }

  // ----- One text for both -----

  /** Where one value ends in a text is the same however the text is taken apart. */
  lemma SameFront(v: Json, w: Json, style: Style, a: string, b: string)
    requires Printable(v, style) && Printable(w, style) && Delimited(a) && Delimited(b)
    requires Print(v, style) + a == Print(w, style) + b
    ensures Print(v, style) == Print(w, style) && a == b
  {
    hide ReadValue, Print, Reread;
    ReadPrinted(KeepLast, v, style, a);
    ReadPrinted(KeepLast, w, style, b);
    var s, t := Print(v, style), Print(w, style);
    assert |s| == |t|;
    assert s == (s + a)[..|s|] && t == (t + b)[..|t|];
  }

  lemma {:induction false} SameItemTexts(items: seq<Json>, others: seq<Json>, style: Style)
    requires style.ascii && |items| == |others|
    requires PrintItems(items, style) == PrintItems(others, style)
    ensures forall i :: 0 <= i < |items| ==> Print(items[i], style) == Print(others[i], style)
  {
    hide Print;
    if |items| > 1 {
      var a, b := PrintItems(items[1..], style), PrintItems(others[1..], style);
      var s, t := Print(items[0], style), Print(others[0], style);
      Regrouped(s, Comma(style), a);
      Regrouped(t, Comma(style), b);
      SameFront(items[0], others[0], style, Comma(style) + a, Comma(style) + b);
      SameTail(Comma(style), a, b);
      SameItemTexts(items[1..], others[1..], style);
      forall i | 0 <= i < |items| ensures Print(items[i], style) == Print(others[i], style) {
        if i > 0 {
          assert items[i] == items[1..][i - 1] && others[i] == others[1..][i - 1];
        }
      }
    }
  }

  lemma SameTail(front: string, a: string, b: string)
    requires front + a == front + b
    ensures a == b
  {
    assert a == (front + a)[|front|..] && b == (front + b)[|front|..];
  }

  lemma {:induction false} SameMemberTexts(v: Json, keys: seq<Text>, w: Json, others: seq<Text>, style: Style)
    requires v.Obj? && w.Obj? && style.ascii && |keys| == |others|
    requires (forall k | k in keys :: k in v.fields) && forall k | k in others :: k in w.fields
    requires forall i :: 0 <= i < |keys| ==> others[i] == Joined(keys[i])
    requires PrintMembers(v, keys, style) == PrintMembers(w, others, style)
    ensures forall i :: 0 <= i < |keys| ==>
      keys[i] in v.fields && others[i] in w.fields
      && Print(v.fields[keys[i]], style) == Print(w.fields[others[i]], style)
  {
    hide Print, Joined;
    if keys != [] {
      assert keys[0] in keys && others[0] in others;
      FirstMemberText(v, keys, w, others, style);
      if |keys| > 1 {
        SameMemberTexts(v, keys[1..], w, others[1..], style);
      }
      forall i | 0 <= i < |keys|
        ensures keys[i] in v.fields && others[i] in w.fields
        ensures Print(v.fields[keys[i]], style) == Print(w.fields[others[i]], style)
      {
        if i > 0 {
          assert keys[i] == keys[1..][i - 1] && others[i] == others[1..][i - 1];
        }
      }
    }
  }

  lemma FirstMemberText(v: Json, keys: seq<Text>, w: Json, others: seq<Text>, style: Style)
    requires v.Obj? && w.Obj? && style.ascii && |keys| == |others| > 0
    requires (forall k | k in keys :: k in v.fields) && forall k | k in others :: k in w.fields
    requires others[0] == Joined(keys[0]) && keys[0] in v.fields && others[0] in w.fields
    requires PrintMembers(v, keys, style) == PrintMembers(w, others, style)
    ensures Print(v.fields[keys[0]], style) == Print(w.fields[others[0]], style)
    ensures PrintMembers(v, keys[1..], style) == PrintMembers(w, others[1..], style)
  {
    hide Print, Joined, EscapeText, PrintString, PrintMembers;
    var x, y := v.fields[keys[0]], w.fields[others[0]];
    var key := PrintString(keys[0], style) + Colon(style);
    KeysPrintAlike(keys[0], style);
    if |keys| == 1 {
      LastMember(v, keys, style);
      LastMember(w, others, style);
      SameTail(key, Print(x, style), Print(y, style));
      assert keys[1..] == [] && others[1..] == [];
      NoMembers(v, style);
      NoMembers(w, style);
    } else {
      var a, b := PrintMembers(v, keys[1..], style), PrintMembers(w, others[1..], style);
      FirstMember(v, keys, style);
      FirstMember(w, others, style);
      SameTail(key, Print(x, style) + (Comma(style) + a), Print(y, style) + (Comma(style) + b));
      SameFront(x, y, style, Comma(style) + a, Comma(style) + b);
      SameTail(Comma(style), a, b);
    }
  }

  lemma KeysPrintAlike(k: Text, style: Style)
    requires style.ascii
    ensures PrintString(Joined(k), style) == PrintString(k, style)
  {
    hide EscapeText, Joined;
    JoinedPrints(k, style);
  }

  lemma LastMember(v: Json, keys: seq<Text>, style: Style)
    requires v.Obj? && style.ascii && |keys| == 1 && forall k | k in keys :: k in v.fields
    ensures keys[0] in v.fields
    ensures PrintMembers(v, keys, style) == PrintString(keys[0], style) + Colon(style) + Print(v.fields[keys[0]], style)
  {
    hide Print, PrintString;
    assert keys[0] in keys;
  }

  lemma FirstMember(v: Json, keys: seq<Text>, style: Style)
    requires v.Obj? && style.ascii && |keys| > 1 && forall k | k in keys :: k in v.fields
    ensures keys[0] in v.fields
    ensures PrintMembers(v, keys, style)
         == PrintString(keys[0], style) + Colon(style)
            + (Print(v.fields[keys[0]], style) + (Comma(style) + PrintMembers(v, keys[1..], style)))
  {
    hide Print, PrintString, Comma, Colon;
    assert keys[0] in keys;
    Regrouped(PrintString(keys[0], style) + Colon(style), Print(v.fields[keys[0]], style),
              Comma(style) + PrintMembers(v, keys[1..], style));
    Regrouped(PrintString(keys[0], style) + Colon(style) + Print(v.fields[keys[0]], style), Comma(style),
              PrintMembers(v, keys[1..], style));
  }

  /** Two objects with one text have the same keys in the same places, once these are joined. */
  lemma SameKeys(v: Json, w: Json, style: Style)
    requires v.Obj? && w.Obj? && style.ascii && Each(w, PairFree)
    requires Print(v, style) == Print(w, style)
    ensures TextOrder.Sorted(w.fields.Keys) == JoinedAll(TextOrder.Sorted(v.fields.Keys))
    ensures PrintMembers(v, TextOrder.Sorted(v.fields.Keys), style)
         == PrintMembers(w, TextOrder.Sorted(w.fields.Keys), style)
  {
    var keys, others := TextOrder.Sorted(v.fields.Keys), TextOrder.Sorted(w.fields.Keys);
    SameMemberList(v, w, style);
    hide Print, PrintMembers, Joined, Reread, RereadPairs, PairFree, Each, TextOrder.Sorted, JoinedAll, ReadMembers;
    if keys == [] || others == [] {
      NoMembers(v, style);
      NoMembers(w, style);
      if keys != [] { MembersStart(v, keys, style); }
      if others != [] { MembersStart(w, others, style); }
    } else {
      ReadPrintedMembers(KeepLast, v, keys, style, "");
      ReadPrintedMembers(KeepLast, w, others, style, "");
      SameJoinedKeys(v, keys, w, others);
    }
  }

  lemma SameJoinedKeys(v: Json, keys: seq<Text>, w: Json, others: seq<Text>)
    requires v.Obj? && w.Obj? && Each(w, PairFree)
    requires (forall k | k in keys :: k in v.fields) && forall k | k in others :: k in w.fields
    requires RereadPairs(v, keys) == RereadPairs(w, others)
    ensures others == JoinedAll(keys)
  {
    hide Joined, Reread, RereadPairs, PairFree, JoinedAll;
    forall i | 0 <= i < |keys| ensures others[i] == JoinedAll(keys)[i] {
      PairAt(v, keys, i);
      PairAt(w, others, i);
      assert others[i] in w.fields;
      PairFreeJoined(others[i]);
    }
  }

  lemma SameMemberList(v: Json, w: Json, style: Style)
    requires v.Obj? && w.Obj? && style.ascii && Print(v, style) == Print(w, style)
    ensures PrintMembers(v, TextOrder.Sorted(v.fields.Keys), style)
         == PrintMembers(w, TextOrder.Sorted(w.fields.Keys), style)
  {
    hide PrintMembers, TextOrder.Sorted;
    var a := PrintMembers(v, TextOrder.Sorted(v.fields.Keys), style);
    var b := PrintMembers(w, TextOrder.Sorted(w.fields.Keys), style);
    assert "{" + a + "}" == "{" + b + "}";
    assert a == ("{" + a + "}")[1..|a| + 1] && b == ("{" + b + "}")[1..|b| + 1];
    assert |"{" + a + "}"| == |a| + 2 && |"{" + b + "}"| == |b| + 2;
  }

  lemma {:induction false} AlikeKeepsOrder(v: Json, style: Style)
    requires style.ascii && Print(Reread(v), style) == Print(v, style)
    ensures KeysKeepOrder(v)
    decreases v
  {
    match v
    case List(items) =>
      ListTextsAlike(items, style);
      hide Print, PrintItems, PrintMembers, Each, Reread;
      forall x | x in items ensures KeysKeepOrder(x) {
        var i :| 0 <= i < |items| && items[i] == x;
        AlikeKeepsOrder(items[i], style);
      }
    case Obj(fields) =>
      hide Print, PrintItems, PrintMembers, Each, Reread, OrderKept;
      FieldTextsAlike(v, style);
      forall k | k in fields ensures KeysKeepOrder(fields[k]) {
        AlikeKeepsOrder(fields[k], style);
      }
    case _ =>
  }

  lemma FieldTextsAlike(v: Json, style: Style)
    requires v.Obj? && style.ascii && Print(Reread(v), style) == Print(v, style)
    ensures OrderKept(v.fields.Keys)
    ensures forall k :: k in v.fields ==> Print(Reread(v.fields[k]), style) == Print(v.fields[k], style)
  {
    var w := Reread(v);
    var keys := TextOrder.Sorted(v.fields.Keys);
    RereadIsPairFree(v);
    RereadCollects(v);
    hide Print, PrintMembers, Each, Reread, RereadPairs, LastWins, Joined, JoinedAll, OrderKept, TextOrder.Sorted;
    hide TextOrder.Ascending;
    SameKeys(v, w, style);
    assert OrderKept(v.fields.Keys) by { OrderKeptSorted(v.fields.Keys); }
    CollectedInOrder(v);
    SameFieldTexts(v, w, keys, style);
  }

  lemma SameFieldTexts(v: Json, w: Json, keys: seq<Text>, style: Style)
    requires v.Obj? && w.Obj? && style.ascii && forall k :: k in keys <==> k in v.fields
    requires forall k | k in JoinedAll(keys) :: k in w.fields
    requires PrintMembers(v, keys, style) == PrintMembers(w, JoinedAll(keys), style)
    ensures forall k :: k in v.fields ==>
      Joined(k) in w.fields && Print(w.fields[Joined(k)], style) == Print(v.fields[k], style)
  {
    hide Print, PrintMembers, Joined, JoinedAll;
    SameMemberTexts(v, keys, w, JoinedAll(keys), style);
    forall k | k in v.fields
      ensures Joined(k) in w.fields && Print(w.fields[Joined(k)], style) == Print(v.fields[k], style)
    {
      assert k in keys;
      var i :| 0 <= i < |keys| && keys[i] == k;
      assert JoinedAll(keys)[i] == Joined(k);
    }
  }

  lemma ListTextsAlike(items: seq<Json>, style: Style)
    requires style.ascii && Print(Reread(List(items)), style) == Print(List(items), style)
    ensures forall i :: 0 <= i < |items| ==> Print(Reread(items[i]), style) == Print(items[i], style)
  {
    var others := RereadItems(items);
    var a, b := PrintItems(items, style), PrintItems(others, style);
    assert Reread(List(items)) == List(others);
    hide PrintItems, PrintMembers, Reread, RereadItems;
    assert "[" + a + "]" == "[" + b + "]";
    assert a == ("[" + a + "]")[1..|a| + 1] && b == ("[" + b + "]")[1..|b| + 1];
    assert |"[" + a + "]"| == |a| + 2 && |"[" + b + "]"| == |b| + 2;
    hide Print;
    SameItemTexts(items, others, style);
  }

  /** With ASCII escapes, a value and what it is read as are printed alike exactly if all keys keep their order. */
  lemma RereadPrintsAlikeExactly(v: Json, style: Style)
    requires style.ascii
    ensures Print(Reread(v), style) == Print(v, style) <==> KeysKeepOrder(v)
  {
    hide Print, Reread, KeysKeepOrder;
    if KeysKeepOrder(v) {
      OrderedPrintsAlike(v, style);
    }
    if Print(Reread(v), style) == Print(v, style) {
      AlikeKeepsOrder(v, style);
    }
  }

  // ----- The order of the members in the text -----

  /** The members of a printed object stand in the text by the code points of their keys, each key once. */
  lemma MembersInOrder(v: Json, style: Style) returns (keys: seq<Text>, pairs: seq<(Text, Json)>)
    requires v.Obj? && v.fields != map[] && Printable(v, style)
    ensures |keys| == |v.fields| && forall k :: k in keys <==> k in v.fields
    ensures forall i, j :: 0 <= i < j < |keys| ==> TextOrder.Precedes(keys[i], keys[j])
    ensures Print(v, style)[..1] == "{" && ReadMembers(KeepLast, Print(v, style)[1..]) == Some((pairs, ""))
    ensures |pairs| == |keys|
    ensures forall i :: 0 <= i < |keys| ==>
      keys[i] in v.fields && pairs[i] == (Joined(keys[i]), Reread(v.fields[keys[i]]))
  {
    keys := TextOrder.Sorted(v.fields.Keys);
    pairs := RereadPairs(v, keys);
    SortedPrecedes(v.fields.Keys);
    assert |v.fields| == |v.fields.Keys|;
    PrintedMembersRead(v, style);
    hide Print, PrintMembers, Joined, Reread, RereadPairs, ReadMembers, TextOrder.Sorted, TextOrder.Precedes;
    forall i | 0 <= i < |keys| ensures keys[i] in v.fields && pairs[i] == (Joined(keys[i]), Reread(v.fields[keys[i]])) {
      assert keys[i] in keys;
      PairAt(v, keys, i);
    }
  }

  lemma SortedPrecedes(s: set<Text>)
    ensures |TextOrder.Sorted(s)| == |s|
    ensures forall i, j :: 0 <= i < j < |TextOrder.Sorted(s)| ==>
      TextOrder.Precedes(TextOrder.Sorted(s)[i], TextOrder.Sorted(s)[j])
  {
    TextOrder.SortedSize(s);
    hide TextOrder.Sorted, TextOrder.Leq, TextOrder.Precedes;
    var keys := TextOrder.Sorted(s);
    forall i, j | 0 <= i < j < |keys| ensures TextOrder.Precedes(keys[i], keys[j]) {
      TextOrder.LeqMeans(keys[i], keys[j]);
    }
  }

  lemma PrintedMembersRead(v: Json, style: Style)
    requires v.Obj? && v.fields != map[] && Printable(v, style)
    ensures Print(v, style)[..1] == "{"
    ensures ReadMembers(KeepLast, Print(v, style)[1..])
         == Some((RereadPairs(v, TextOrder.Sorted(v.fields.Keys)), ""))
  {
    hide PrintMembers, Joined, Reread, RereadPairs, ReadMembers, TextOrder.Sorted, Each;
    var keys := TextOrder.Sorted(v.fields.Keys);
    assert keys != [] by {
      var k :| k in v.fields;
      assert k in keys;
    }
    Unbraced(PrintMembers(v, keys, style));
    ReadPrintedMembers(KeepLast, v, keys, style, "");
  }

  lemma Unbraced(text: string)
    ensures ("{" + text + "}")[..1] == "{" && ("{" + text + "}")[1..] == text + "}" + ""
  {
  }
}
