/** Shared vocabulary: optional values, results, code points and text splitting. */
module Prelude {

  datatype Option<+T> = None | Some(value: T) {
    predicate IsFailure() {
      None?
    }

    function PropagateFailure<U>(): Option<U>
      requires None?
    {
      None
    }

    function Extract(): T
      requires Some?
    {
      value
    }
  }

  datatype Result<+T, +E> = Ok(value: T) | Err(error: E) {
    predicate IsFailure() {
      Err?
    }

    function PropagateFailure<U>(): Result<U, E>
      requires Err?
    {
      Err(error)
    }

    function Extract(): T
      requires Ok?
    {
      value
    }
  }

  /** A Unicode code point, surrogates included: what one element of a Python `str` can be. */
  type Rune = r: int | 0 <= r < 0x11_0000

  /** A Python `str`. Dafny's own `string` is the subset of it without surrogates. */
  type Text = seq<Rune>

  type Byte = b: int | 0 <= b < 256

  predicate IsHigh(r: Rune) { 0xD800 <= r < 0xDC00 }

  predicate IsLow(r: Rune) { 0xDC00 <= r < 0xE000 }

  predicate IsScalar(r: Rune) { !IsHigh(r) && !IsLow(r) }

  function ToChar(r: Rune): (c: char)
    requires IsScalar(r)
    ensures c as int == r
  {
    assert r < 0xD800 || 0xE000 <= r < 0x11_0000;
    r as char
  }

  /** The code points of a string. */
  function Runes(s: string): (t: Text)
    ensures |t| == |s|
    ensures forall i :: 0 <= i < |s| ==> t[i] == s[i] as int && IsScalar(t[i])
  {
    seq(|s|, i requires 0 <= i < |s| => s[i] as int)
  }

  lemma RunesInjective(a: string, b: string)
    requires Runes(a) == Runes(b)
    ensures a == b
  {
    forall i | 0 <= i < |a| ensures a[i] == b[i] {
      assert Runes(a)[i] as char == Runes(b)[i] as char;
    }
  }

  /** The string with the given code points, which must all be scalar values. */
  function Chars(t: Text): (s: string)
    requires forall i :: 0 <= i < |t| ==> IsScalar(t[i])
    ensures Runes(s) == t
  {
    var s := seq(|t|, i requires 0 <= i < |t| => ToChar(t[i]));
    assert Runes(s) == t;
    s
  }

  // ----- Splitting at a separator, and joining -----

  /** `s.split(sep)` for a one-element separator: always at least one part. */
  function Split<T(==)>(s: seq<T>, sep: T): (parts: seq<seq<T>>)
    ensures parts != []
  {
    if s == [] then [[]]
    else
      var rest := Split(s[1..], sep);
      if s[0] == sep then [[]] + rest else [[s[0]] + rest[0]] + rest[1..]
  }

  /** `sep.join(parts)` */
  function Join<T>(parts: seq<seq<T>>, sep: T): seq<T>
  {
    if parts == [] then []
    else if |parts| == 1 then parts[0]
    else parts[0] + [sep] + Join(parts[1..], sep)
  }

  lemma {:induction false} SplitWithout<T>(s: seq<T>, sep: T)
    requires sep !in s
    ensures Split(s, sep) == [s]
  {
    if s != [] {
      SplitWithout(s[1..], sep);
      assert [s[0]] + s[1..] == s;
    }
  }

  lemma {:induction false} SplitAtFirst<T>(a: seq<T>, sep: T, b: seq<T>)
    requires sep !in a
    ensures Split(a + [sep] + b, sep) == [a] + Split(b, sep)
  {
    var s := a + [sep] + b;
    if a == [] {
      assert s[1..] == b;
    } else {
      SplitAtFirst(a[1..], sep, b);
      assert s[1..] == a[1..] + [sep] + b;
      assert [a[0]] + a[1..] == a;
    }
  }

  /** Joining is undone by splitting as long as no part holds the separator. */
  lemma {:induction false} SplitJoin<T>(parts: seq<seq<T>>, sep: T)
    requires parts != [] && forall p :: p in parts ==> sep !in p
    ensures Split(Join(parts, sep), sep) == parts
  {
    if |parts| == 1 {
      SplitWithout(parts[0], sep);
    } else {
      SplitJoin(parts[1..], sep);
      SplitAtFirst(parts[0], sep, Join(parts[1..], sep));
    }
  }

  lemma {:induction false} PartsWithout<T>(s: seq<T>, sep: T)
    ensures forall i :: 0 <= i < |Split(s, sep)| ==> sep !in Split(s, sep)[i]
  {
    if s != [] {
      PartsWithout(s[1..], sep);
    }
  }

  lemma {:induction false} JoinSplit<T>(s: seq<T>, sep: T)
    ensures Join(Split(s, sep), sep) == s
  {
    if s != [] {
      hide Join;
      var rest := Split(s[1..], sep);
      JoinSplit(s[1..], sep);
      assert [s[0]] + s[1..] == s;
      if s[0] == sep {
        JoinCons([], rest, sep);
      } else if |rest| > 1 {
        JoinCons(rest[0], rest[1..], sep);
        JoinCons([s[0]] + rest[0], rest[1..], sep);
        assert [rest[0]] + rest[1..] == rest;
      } else {
        JoinOne(rest[0], sep);
        JoinOne(s, sep);
        assert rest == [rest[0]];
      }
    } else {
      JoinOne(s, sep);
    }
  }

  lemma JoinOne<T>(p: seq<T>, sep: T)
    ensures Join([p], sep) == p
  {
  }

  lemma JoinCons<T>(p: seq<T>, parts: seq<seq<T>>, sep: T)
    requires parts != []
    ensures Join([p] + parts, sep) == p + [sep] + Join(parts, sep)
  {
    assert ([p] + parts)[1..] == parts;
  }

  lemma {:induction false} SplitAppend<T>(a: seq<T>, sep: T, b: seq<T>)
    ensures Split(a + [sep] + b, sep) == Split(a, sep) + Split(b, sep)
  {
    var s := a + [sep] + b;
    if a == [] {
      assert s[1..] == b;
    } else {
      SplitAppend(a[1..], sep, b);
      assert s[1..] == a[1..] + [sep] + b;
      assert s[0] == a[0];
      SplitFirst(s, sep);
      SplitFirst(a, sep);
      hide Split;
      PlacedAppend(a[0], sep, Split(a[1..], sep), Split(b, sep));
    }
  }

  /** A character in front of some text that is split already. */
  function Placed<T(==)>(c: T, sep: T, rest: seq<seq<T>>): seq<seq<T>>
    requires rest != []
  {
    if c == sep then [[]] + rest else [[c] + rest[0]] + rest[1..]
  }

  lemma SplitFirst<T>(s: seq<T>, sep: T)
    requires s != []
    ensures Split(s, sep) == Placed(s[0], sep, Split(s[1..], sep))
  {
  }

  lemma PlacedAppend<T>(c: T, sep: T, rest: seq<seq<T>>, more: seq<seq<T>>)
    requires rest != []
    ensures Placed(c, sep, rest + more) == Placed(c, sep, rest) + more
  {
    assert (rest + more)[1..] == rest[1..] + more;
  }

  lemma {:induction false} JoinAppend<T>(xs: seq<seq<T>>, ys: seq<seq<T>>, sep: T)
    requires xs != [] && ys != []
    ensures Join(xs + ys, sep) == Join(xs, sep) + [sep] + Join(ys, sep)
  {
    hide Join;
    if |xs| == 1 {
      JoinCons(xs[0], ys, sep);
      JoinOne(xs[0], sep);
      assert [xs[0]] == xs;
    } else {
      JoinAppend(xs[1..], ys, sep);
      JoinCons(xs[0], xs[1..] + ys, sep);
      JoinCons(xs[0], xs[1..], sep);
      assert [xs[0]] + xs[1..] == xs && [xs[0]] + (xs[1..] + ys) == xs + ys;
    }
  }
}
