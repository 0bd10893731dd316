/** Python's ordering of strings by code point, and `sorted()` on the keys of a dictionary. */
module TextOrder {
  import opened Prelude

  predicate Leq(a: Text, b: Text) {
    a == [] || (b != [] && (a[0] < b[0] || (a[0] == b[0] && Leq(a[1..], b[1..]))))
  }

  /** What the order is: by code point at the first difference, and a text before its continuations. */
  ghost predicate Precedes(a: Text, b: Text) {
    (a <= b && a != b) || exists i :: FirstDifference(a, b, i) && a[i] < b[i]
  }

  predicate FirstDifference(a: Text, b: Text, i: int) {
    0 <= i < |a| && i < |b| && a[..i] == b[..i] && a[i] != b[i]
  }

  lemma {:induction false} LeqMeans(a: Text, b: Text)
    ensures Leq(a, b) <==> a == b || Precedes(a, b)
  {
    if a == [] || b == [] {
      assert a == [] ==> a <= b;
    } else if a[0] != b[0] {
      assert FirstDifference(a, b, 0);
      forall i | FirstDifference(a, b, i) ensures i == 0 {
        SameStart(a, b, i);
      }
    } else {
      LeqMeans(a[1..], b[1..]);
      assert a == [a[0]] + a[1..] && b == [b[0]] + b[1..];
      assert a <= b <==> a[1..] <= b[1..];
      forall i ensures FirstDifference(a, b, i) <==> i > 0 && FirstDifference(a[1..], b[1..], i - 1) {
        if 0 < i < |a| && i < |b| {
          assert a[..i] == [a[0]] + a[1..][..i - 1] && b[..i] == [b[0]] + b[1..][..i - 1];
        }
      }
      assert forall i :: FirstDifference(a[1..], b[1..], i) ==> FirstDifference(a, b, i + 1);
    }
  }

  lemma SameStart(a: Text, b: Text, i: int)
    requires FirstDifference(a, b, i)
    ensures i > 0 ==> a[0] == b[0]
  {
    if i > 0 {
      assert a[..i][0] == a[0] && b[..i][0] == b[0];
    }
  }

  lemma {:induction false} Antisymmetric(a: Text, b: Text)
    requires Leq(a, b) && Leq(b, a)
    ensures a == b
  {
    if a != [] && b != [] {
      Antisymmetric(a[1..], b[1..]);
      assert a == [a[0]] + a[1..] && b == [b[0]] + b[1..];
    }
  }

  lemma {:induction false} Connected(a: Text, b: Text)
    ensures Leq(a, b) || Leq(b, a)
  {
    if a != [] && b != [] {
      Connected(a[1..], b[1..]);
    }
  }

  lemma {:induction false} Transitive(a: Text, b: Text, c: Text)
    requires Leq(a, b) && Leq(b, c)
    ensures Leq(a, c)
  {
    if a != [] && b != [] && c != [] && a[0] == b[0] == c[0] {
      Transitive(a[1..], b[1..], c[1..]);
    }
  }

  predicate IsLeast(k: Text, s: set<Text>) {
    k in s && forall x | x in s :: Leq(k, x)
  }

  lemma {:induction false} LeastExists(s: set<Text>) returns (k: Text)
    requires s != {}
    ensures IsLeast(k, s)
  {
    var y :| y in s;
    if s == {y} {
      Connected(y, y);
      k := y;
    } else {
      var m := LeastExists(s - {y});
      Connected(y, m);
      Connected(y, y);
      k := if Leq(y, m) then y else m;
      forall x | x in s ensures Leq(k, x) {
        if x != y && Leq(y, m) {
          Transitive(y, m, x);
        }
      }
    }
  }

  function Least(s: set<Text>): (k: Text)
    requires s != {}
    ensures IsLeast(k, s)
  {
    assert exists k :: k in s && IsLeast(k, s) by {
      var k := LeastExists(s);
    }
    assert forall a, b | a in s && IsLeast(a, s) && b in s && IsLeast(b, s) :: a == b by {
      forall a, b | a in s && IsLeast(a, s) && b in s && IsLeast(b, s) ensures a == b {
        Antisymmetric(a, b);
      }
    }
    var k :| k in s && IsLeast(k, s);
    k
  }

  /** `sorted(d)` for a dictionary with key set `s`. */
  function Sorted(s: set<Text>): (ks: seq<Text>)
    ensures forall k :: k in ks <==> k in s
    ensures forall i, j :: 0 <= i < j < |ks| ==> ks[i] != ks[j] && Leq(ks[i], ks[j])
  {
    if s == {} then []
    else
      var k := Least(s);
      [k] + Sorted(s - {k})
  }

  /** Strictly ascending: every text below all those after it. */
  predicate Ascending(ks: seq<Text>) {
    forall i, j | 0 <= i < j < |ks| :: ks[i] != ks[j] && Leq(ks[i], ks[j])
  }

  lemma {:induction false} SortedUnique(s: set<Text>, ks: seq<Text>)
    requires Ascending(ks) && forall k :: k in ks <==> k in s
    ensures Sorted(s) == ks
  {
    if ks == [] {
      assert s == {};
    } else {
      Connected(ks[0], ks[0]);
      assert ks[0] in s;
      forall x | x in s ensures Leq(ks[0], x) {
        var i :| 0 <= i < |ks| && ks[i] == x;
      }
      assert ks[0] == Least(s) by { Antisymmetric(ks[0], Least(s)); }
      var rest := ks[1..];
      forall i, j | 0 <= i < j < |rest| ensures rest[i] != rest[j] && Leq(rest[i], rest[j]) {
        assert rest[i] == ks[i + 1] && rest[j] == ks[j + 1];
      }
      forall k ensures k in rest <==> k in s - {ks[0]} {
        if k in s - {ks[0]} {
          var i :| 0 <= i < |ks| && ks[i] == k;
          assert rest[i - 1] == k;
        }
      }
      SortedUnique(s - {ks[0]}, rest);
    }
  }

  lemma {:induction false} SortedSize(s: set<Text>)
    ensures |Sorted(s)| == |s|
  {
    if s != {} {
      SortedSize(s - {Least(s)});
    }
  }
}
