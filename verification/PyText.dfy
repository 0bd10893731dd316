/** The parts of Python's `str` that several components share. */
module PyText {
  import opened Prelude

  /** What `str.strip()` removes and `str.isspace()` accepts. */
  predicate IsSpaceRune(r: Rune) {
    0x09 <= r <= 0x0D || 0x1C <= r <= 0x20 || r == 0x85 || r == 0xA0 || r == 0x1680
    || 0x2000 <= r <= 0x200A || r == 0x2028 || r == 0x2029 || r == 0x202F || r == 0x205F || r == 0x3000
  }

  predicate IsSpace(c: char) { IsSpaceRune(Runes([c])[0]) }

  predicate Ascii(s: string) { forall c | c in s :: c < 128 as char }

  function StripLeft(s: string): (t: string)
    ensures t == "" || !IsSpace(t[0])
    ensures |t| <= |s| && t == s[|s| - |t|..]
    ensures forall i :: 0 <= i < |s| - |t| ==> IsSpace(s[i])
  {
    if s != "" && IsSpace(s[0]) then StripLeft(s[1..]) else s
  }

  function StripRight(s: string): (t: string)
    ensures t == "" || !IsSpace(t[|t| - 1])
    ensures |t| <= |s| && t == s[..|t|]
    ensures forall i :: |t| <= i < |s| ==> IsSpace(s[i])
  {
    if s != "" && IsSpace(s[|s| - 1]) then StripRight(s[..|s| - 1]) else s
  }

  function Strip(s: string): (t: string)
    ensures t == "" || (!IsSpace(t[0]) && !IsSpace(t[|t| - 1]))
  {
    StripRight(StripLeft(s))
  }

  /** Nothing to strip at either end. */
  predicate Trimmed(s: string) {
    s == "" || (!IsSpace(s[0]) && !IsSpace(s[|s| - 1]))
  }

  lemma StripTrimmed(s: string)
    ensures Trimmed(s) <==> Strip(s) == s
  {
    hide IsSpace;
    if Trimmed(s) {
      assert StripLeft(s) == s;
      assert StripRight(s) == s;
    }
  }

  lemma StripNothing()
    ensures Strip("") == ""
  {
    hide IsSpace;
  }

  /** Stripping takes blanks from both ends and nothing else, and leaves none there. */
  lemma StripMeans(s: string) returns (a: string, b: string)
    ensures s == a + Strip(s) + b && Trimmed(Strip(s))
    ensures forall c :: c in a || c in b ==> IsSpace(c)
  {
    hide IsSpace, StripLeft, StripRight;
    var t := StripLeft(s);
    a := s[..|s| - |t|];
    b := t[|StripRight(t)|..];
    StripRightParts(t);
    assert forall c :: c in a ==> exists i :: 0 <= i < |a| && s[i] == c;
    Regrouped(a, StripRight(t), b);
    assert s == a + t;
  }

  lemma Regrouped(a: string, b: string, c: string)
    ensures a + (b + c) == a + b + c
  {
  }

  lemma StripRightParts(t: string)
    ensures t == StripRight(t) + t[|StripRight(t)|..]
    ensures forall c :: c in t[|StripRight(t)|..] ==> IsSpace(c)
  {
    hide IsSpace;
  }

  /** The blanks are the 29 characters that `str.isspace` names. */
  lemma BlanksExactly(r: Rune)
    ensures IsSpaceRune(r) <==> (r as int in
      {0x09, 0x0A, 0x0B, 0x0C, 0x0D, 0x1C, 0x1D, 0x1E, 0x1F, 0x20, 0x85, 0xA0, 0x1680, 0x2000, 0x2001, 0x2002, 0x2003,
       0x2004, 0x2005, 0x2006, 0x2007, 0x2008, 0x2009, 0x200A, 0x2028, 0x2029, 0x202F, 0x205F, 0x3000})
  {
  }

  /** Among ASCII characters the blanks are the space and the controls 9 to 13 and 28 to 31. */
  lemma AsciiBlanks(c: char)
    requires c < 128 as char
    ensures IsSpace(c) <==> c == ' ' || 9 <= c as int <= 13 || 28 <= c as int <= 31
  {
  }

  function LowerChar(c: char): char {
    if 'A' <= c <= 'Z' then c + 32 as char else c
  }

  /** `str.lower()` on ASCII letters; other characters are left alone. */
  function Lower(s: string): (t: string)
    ensures |t| == |s| && forall i :: 0 <= i < |s| ==> t[i] == LowerChar(s[i])
  {
    seq(|s|, i requires 0 <= i < |s| => LowerChar(s[i]))
  }

  function UpperChar(c: char): char {
    if 'a' <= c <= 'z' then c - 32 as char else c
  }

  function Upper(s: string): (t: string)
    ensures |t| == |s| && forall i :: 0 <= i < |s| ==> t[i] == UpperChar(s[i])
  {
    seq(|s|, i requires 0 <= i < |s| => UpperChar(s[i]))
  }

  /** Folding leaves everything but letters alone, and no letter of the other case. */
  lemma FoldsMean(s: string)
    ensures Lower(Upper(s)) == Lower(s) && Upper(Lower(s)) == Upper(s)
    ensures forall c :: c in Lower(s) ==> !('A' <= c <= 'Z')
    ensures forall c :: c in Upper(s) ==> !('a' <= c <= 'z')
    ensures (forall c :: c in s ==> !('A' <= c <= 'Z')) ==> Lower(s) == s
    ensures (forall c :: c in s ==> !('a' <= c <= 'z')) ==> Upper(s) == s
  {
    assert forall i :: 0 <= i < |s| ==> s[i] in s;
  }

  /** `sub in s` */
  predicate Contains(s: string, sub: string) {
    sub <= s || (s != "" && Contains(s[1..], sub))
  }

  predicate PartAt(s: string, i: int, sub: string) {
    0 <= i <= |s| - |sub| && s[i..i + |sub|] == sub
  }

  lemma {:induction false} ContainsMeans(s: string, sub: string)
    ensures Contains(s, sub) <==> exists i :: PartAt(s, i, sub)
  {
    hide PartAt;
    PartAtFront(s, sub);
    if s != "" {
      ContainsMeans(s[1..], sub);
      forall i | i != 0 ensures PartAt(s, i, sub) <==> PartAt(s[1..], i - 1, sub) {
        PartBehind(s, i, sub);
      }
      if i :| PartAt(s[1..], i, sub) {
        NoPartBefore(s[1..], i, sub);
        assert PartAt(s, i + 1, sub);
      }
    }
  }

  lemma PartAtFront(s: string, sub: string)
    ensures PartAt(s, 0, sub) <==> sub <= s
    ensures s == "" ==> forall i :: PartAt(s, i, sub) ==> i == 0
  {
  }

  lemma PartBehind(s: string, i: int, sub: string)
    requires s != "" && i != 0
    ensures PartAt(s, i, sub) <==> PartAt(s[1..], i - 1, sub)
  {
    if 0 < i <= |s| - |sub| {
      assert s[1..][i - 1..i - 1 + |sub|] == s[i..i + |sub|];
    }
  }

  lemma NoPartBefore(s: string, i: int, sub: string)
    requires PartAt(s, i, sub)
    ensures i >= 0
  {
  }

  predicate EndsWith(s: string, suffix: string) {
    |suffix| <= |s| && s[|s| - |suffix|..] == suffix
  }
}
