/** What ASCII escapes lose: a high and a low surrogate side by side are printed like the character they spell. */
module Surrogates {
  import opened Prelude
  import opened Json

  /** Every adjacent high and low surrogate replaced by the one code point they stand for. */
  function Joined(t: Text): Text {
    if t == [] then []
    else if |t| >= 2 && IsHigh(t[0]) && IsLow(t[1]) then [Combine(t[0], t[1])] + Joined(t[2..])
    else [t[0]] + Joined(t[1..])
  }

  /** The same for each text of a list: the arguments of a command, or the keys of a dictionary. */
  function JoinedAll(ts: seq<Text>): (r: seq<Text>)
    ensures |r| == |ts| && forall i :: 0 <= i < |ts| ==> r[i] == Joined(ts[i])
  {
    seq(|ts|, i requires 0 <= i < |ts| => Joined(ts[i]))
  }

  function Combine(h: Rune, l: Rune): (r: Rune)
    requires IsHigh(h) && IsLow(l)
    ensures r >= 0x1_0000 && HighHalf(r) == h && LowHalf(r) == l
  {
    var n: int := h - 0xD800;
    0x1_0000 + n * 1024 + (l - 0xDC00)
  }

  lemma {:induction false} JoinedPairFree(t: Text)
    ensures PairFree(Joined(t))
    ensures t == [] <==> Joined(t) == []
    ensures t != [] && !IsScalar(Joined(t)[0]) ==> Joined(t)[0] == t[0]
  {
    if t != [] {
      if |t| >= 2 && IsHigh(t[0]) && IsLow(t[1]) {
        JoinedPairFree(t[2..]);
      } else {
        JoinedPairFree(t[1..]);
        var j := Joined(t[1..]);
        assert |t| >= 2 && IsHigh(t[0]) && IsLow(j[0]) ==> j[0] == t[1];
      }
    }
  }

  lemma PairFreeTail(t: Text)
    requires t != [] && PairFree(t)
    ensures PairFree(t[1..])
  {
    forall i | 0 <= i < |t| - 2 ensures !(IsHigh(t[1..][i]) && IsLow(t[1..][i + 1])) {
      assert t[1..][i] == t[i + 1] && t[1..][i + 1] == t[i + 2];
    }
  }

  lemma ScalarPairFree(t: Text)
    requires AllScalar(t)
    ensures PairFree(t)
  {
  }

  lemma {:induction false} PairFreeJoined(t: Text)
    requires PairFree(t)
    ensures Joined(t) == t
  {
    if t != [] {
      if |t| >= 2 {
        assert !(IsHigh(t[0]) && IsLow(t[0 + 1]));
      }
      PairFreeTail(t);
      PairFreeJoined(t[1..]);
    }
  }

  lemma {:induction false} JoinedPrints(t: Text, style: Style)
    requires style.ascii
    ensures EscapeText(Joined(t), style) == EscapeText(t, style)
  {
    if t != [] {
      if |t| >= 2 && IsHigh(t[0]) && IsLow(t[1]) {
        JoinedPrints(t[2..], style);
        assert t[1..][1..] == t[2..];
        assert Joined(t)[1..] == Joined(t[2..]);
        EscapeCombined(t[0], t[1], style, EscapeText(t[2..], style));
      } else {
        JoinedPrints(t[1..], style);
        assert Joined(t)[1..] == Joined(t[1..]);
      }
    }
  }

  lemma EscapeCombined(h: Rune, l: Rune, style: Style, rest: string)
    requires style.ascii && IsHigh(h) && IsLow(l)
    ensures EscapeRune(Combine(h, l), true) + rest == EscapeRune(h, true) + (EscapeRune(l, true) + rest)
  {
    hide UnicodeEscape, HighHalf, LowHalf, Combine;
    assert EscapeRune(h, true) == UnicodeEscape(h) && EscapeRune(l, true) == UnicodeEscape(l);
  }

  // ----- Texts that join to nothing else -----

  /** No split pair, and no character outside the basic plane, which a split pair could spell. */
  predicate Unsplittable(t: Text) {
    PairFree(t) && forall i | 0 <= i < |t| :: t[i] < 0x1_0000
  }

  lemma {:induction false} JoinedInPlane(s: Text)
    requires forall i :: 0 <= i < |Joined(s)| ==> Joined(s)[i] < 0x1_0000
    ensures Joined(s) == s
  {
    if s != [] {
      var j := Joined(s);
      assert j[0] < 0x1_0000;
      assert !(|s| >= 2 && IsHigh(s[0]) && IsLow(s[1]));
      assert j == [s[0]] + Joined(s[1..]);
      forall i | 0 <= i < |Joined(s[1..])| ensures Joined(s[1..])[i] < 0x1_0000 {
        assert Joined(s[1..])[i] == j[i + 1];
      }
      JoinedInPlane(s[1..]);
    }
  }

  /** A character outside the basic plane in two pieces joins to itself, wherever it stands. */
  lemma {:induction false} JoinedHalves(a: Text, r: Rune, b: Text)
    requires r >= 0x1_0000
    ensures Joined(a + [HighHalf(r), LowHalf(r)] + b) == Joined(a + [r] + b)
  {
    var s, t := a + [HighHalf(r), LowHalf(r)] + b, a + [r] + b;
    if a == [] {
      CombineHalves(r);
      hide HighHalf, LowHalf, Combine;
      assert s[2..] == b && t[1..] == b && s[0] == HighHalf(r) && s[1] == LowHalf(r) && t[0] == r;
    } else if |a| >= 2 && IsHigh(a[0]) && IsLow(a[1]) {
      JoinedHalves(a[2..], r, b);
      hide HighHalf, LowHalf, Combine;
      assert s[2..] == a[2..] + [HighHalf(r), LowHalf(r)] + b && t[2..] == a[2..] + [r] + b;
      assert s[0] == a[0] && s[1] == a[1] && t[0] == a[0] && t[1] == a[1];
    } else {
      JoinedHalves(a[1..], r, b);
      hide HighHalf, LowHalf, Combine;
      assert s[1..] == a[1..] + [HighHalf(r), LowHalf(r)] + b && t[1..] == a[1..] + [r] + b;
      assert s[0] == a[0] && t[0] == a[0];
      assert |a| >= 2 ==> s[1] == a[1] && t[1] == a[1];
      assert |a| == 1 ==> s[1] == HighHalf(r) && t[1] == r;
    }
  }

  lemma CombineHalves(r: Rune)
    requires r >= 0x1_0000
    ensures Combine(HighHalf(r), LowHalf(r)) == r
  {
  }

  /** Joining is undone by one text only exactly if there is nothing to join and nothing that was joined. */
  lemma JoinedOnceExactly(t: Text)
    ensures (forall s :: Joined(s) == Joined(t) ==> s == t) <==> Unsplittable(t)
  {
    hide Joined, HighHalf, LowHalf;
    if Unsplittable(t) {
      PairFreeJoined(t);
      forall s | Joined(s) == Joined(t) ensures s == t {
        JoinedInPlane(s);
      }
    } else {
      var s := OtherSpelling(t);
    }
  }

  lemma OtherSpelling(t: Text) returns (s: Text)
    requires !Unsplittable(t)
    ensures s != t && Joined(s) == Joined(t)
  {
    hide Joined, HighHalf, LowHalf, PairFree;
    if !PairFree(t) {
      s := Joined(t);
      JoinedPairFree(t);
      PairFreeJoined(s);
    } else {
      var i :| 0 <= i < |t| && t[i] >= 0x1_0000;
      s := t[..i] + [HighHalf(t[i]), LowHalf(t[i])] + t[i + 1..];
      JoinedHalves(t[..i], t[i], t[i + 1..]);
      assert t == t[..i] + [t[i]] + t[i + 1..];
      assert |s| == |t| + 1;
    }
  }
}
