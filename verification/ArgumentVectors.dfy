/** Printed lists of strings: which argument vectors share a text. */
module ArgumentVectors {
  import opened Prelude
  import opened Json
  import opened JsonRoundTrip
  import opened Surrogates

  function Strings(items: seq<Text>): (v: Json)
    ensures v.List? && |v.items| == |items| && forall i :: 0 <= i < |items| ==> v.items[i] == Str(items[i])
  {
    List(seq(|items|, i requires 0 <= i < |items| => Str(items[i])))
  }

  lemma {:induction false} JoinedItemsPrint(a: seq<Json>, b: seq<Json>, style: Style)
    requires style.ascii && |a| == |b|
    requires forall i :: 0 <= i < |a| ==> a[i].Str? && b[i] == Str(Joined(a[i].text))
    ensures PrintItems(a, style) == PrintItems(b, style)
  {
    if a != [] {
      JoinedPrints(a[0].text, style);
      JoinedItemsPrint(a[1..], b[1..], style);
    }
  }

  /** With ASCII escapes two vectors print alike exactly when they differ in split pairs at most. */
  lemma AsciiVectorsEqual(a: seq<Text>, b: seq<Text>, style: Style)
    requires style.ascii
    ensures Print(Strings(a), style) == Print(Strings(b), style) <==> JoinedAll(a) == JoinedAll(b)
  {
    var ja, jb := Strings(JoinedAll(a)), Strings(JoinedAll(b));
    JoinedItemsPrint(Strings(a).items, ja.items, style);
    JoinedItemsPrint(Strings(b).items, jb.items, style);
    forall t: Text ensures PairFree(Joined(t)) { JoinedPairFree(t); }
    if Print(ja, style) == Print(jb, style) {
      PrintInjective(ja, jb, style);
      StringsInjective(JoinedAll(a), JoinedAll(b));
    }
  }

  lemma StringsInjective(a: seq<Text>, b: seq<Text>)
    requires Strings(a) == Strings(b)
    ensures a == b
  {
    forall i | 0 <= i < |a| ensures a[i] == b[i] {
      assert Strings(a).items[i] == Strings(b).items[i];
    }
  }

  /** Without ASCII escapes, where surrogates cannot be printed at all, only equal vectors print alike. */
  lemma PlainVectorsEqual(a: seq<Text>, b: seq<Text>, style: Style)
    requires !style.ascii
    requires forall t :: t in a || t in b ==> AllScalar(t)
    ensures Printable(Strings(a), style) && Printable(Strings(b), style)
    ensures Print(Strings(a), style) == Print(Strings(b), style) ==> a == b
  {
    forall i | 0 <= i < |a| ensures AllScalar(a[i]) && PairFree(a[i]) { ScalarPairFree(a[i]); }
    forall i | 0 <= i < |b| ensures AllScalar(b[i]) && PairFree(b[i]) { ScalarPairFree(b[i]); }
    if Print(Strings(a), style) == Print(Strings(b), style) {
      PrintInjective(Strings(a), Strings(b), style);
      StringsInjective(a, b);
    }
  }

  /** A vector is the only one to join to what it joins to exactly if each of its arguments is. */
  lemma JoinedVectorOnceExactly(a: seq<Text>)
    ensures (forall b :: JoinedAll(b) == JoinedAll(a) ==> b == a) <==> forall t :: t in a ==> Unsplittable(t)
  {
    hide Joined, Unsplittable;
    if forall t :: t in a ==> Unsplittable(t) {
      forall b | JoinedAll(b) == JoinedAll(a) ensures b == a {
        OnlyVector(a, b);
      }
    } else {
      var b := OtherVector(a);
    }
  }

  lemma OnlyVector(a: seq<Text>, b: seq<Text>)
    requires JoinedAll(b) == JoinedAll(a) && forall t :: t in a ==> Unsplittable(t)
    ensures b == a
  {
    hide Joined, Unsplittable;
    assert |b| == |JoinedAll(b)| && |a| == |JoinedAll(a)|;
    forall i | 0 <= i < |a| ensures b[i] == a[i] {
      assert a[i] in a && JoinedAll(b)[i] == JoinedAll(a)[i];
      JoinedOnceExactly(a[i]);
      assert Joined(b[i]) == Joined(a[i]);
    }
    assert b == a;
  }

  lemma OtherVector(a: seq<Text>) returns (b: seq<Text>)
    requires exists t :: t in a && !Unsplittable(t)
    ensures b != a && |b| == |a| && JoinedAll(b) == JoinedAll(a)
  {
    hide Joined, Unsplittable;
    var i :| 0 <= i < |a| && !Unsplittable(a[i]);
    var s := OtherSpelling(a[i]);
    b := a[i := s];
    assert b[i] == s;
    assert JoinedAll(b) == JoinedAll(a);
  }
}
