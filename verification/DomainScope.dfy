/** Domain names: how they are normalised, and when one is in the scope of another. */
module DomainScope {
  import opened Prelude
  import Decimal
  import PyText

  // ----- What is taken from Python's libraries -----

  /**
   * `str.lower`, the `idna` codec and the IPv6 half of `ipaddress.ip_address`: parameters,
   * of which only what they do to ASCII text is fixed.
   */
  datatype Library = Library(lower: string -> string, idna: string -> Option<string>, address6: string -> bool)

  /** What the codec asks of the labels of an ASCII name. */
  predicate LabelsFit(s: string) {
    forall l | l in Split(s, '.') :: 0 < |l| < 64
  }

  ghost predicate Faithful(lib: Library) {
    && (forall s | PyText.Ascii(s) :: lib.lower(s) == PyText.Lower(s))
    && (forall s | PyText.Ascii(s) :: lib.idna(s) == Some(s) || (lib.idna(s) == None && !LabelsFit(s)))
    && (forall s | lib.address6(s) :: ':' in s)
  }

  // ----- Normalisation -----

  /** `rstrip(".")` */
  function DropDots(s: string): (t: string)
    ensures t == "" || t[|t| - 1] != '.'
    ensures t <= s
  {
    if s != "" && s[|s| - 1] == '.' then DropDots(s[..|s| - 1]) else s
  }

  predicate IsOctet(s: string) {
    && 0 < |s| <= 3 && Decimal.AllDigits(s) && (s == "0" || s[0] != '0') && Decimal.Value(s) <= 255
  }

  predicate IsAddress4(s: string) {
    |Split(s, '.')| == 4 && forall part | part in Split(s, '.') :: IsOctet(part)
  }

  predicate IsAddress(lib: Library, s: string) { IsAddress4(s) || lib.address6(s) }

  predicate IsAlnum(c: char) { 'a' <= c <= 'z' || '0' <= c <= '9' }

  /** At most 63 characters that match `[a-z0-9](?:[a-z0-9-]*[a-z0-9])?`. */
  predicate IsLabel(s: string) {
    && 0 < |s| <= 63 && IsAlnum(s[0]) && IsAlnum(s[|s| - 1])
    && forall i | 0 <= i < |s| :: IsAlnum(s[i]) || s[i] == '-'
  }

  predicate IsName(s: string) {
    s != "" && |s| <= 253 && forall l | l in Split(s, '.') :: IsLabel(l)
  }

  /** `normalize_domain` of a string */
  function Normalize(lib: Library, value: string): Option<string> {
    var v := lib.lower(DropDots(PyText.Strip(value)));
    if "*." <= v || PyText.Contains(v, "://") || '/' in v then None
    else if IsAddress(lib, v) then None
    else
      var name :- lib.idna(v);
      if IsName(name) then Some(name) else None
  }

  // ----- Normal forms -----

  predicate IsNameChar(c: char) { IsAlnum(c) || c == '-' || c == '.' }

  lemma {:induction false} CharsOfParts(s: string, i: nat)
    requires i < |s| && s[i] != '.'
    ensures exists l :: l in Split(s, '.') && s[i] in l
  {
    var rest := Split(s[1..], '.');
    if i == 0 {
      assert s[0] in Split(s, '.')[0];
    } else {
      CharsOfParts(s[1..], i - 1);
      var l :| l in rest && s[i] in l;
      if l == rest[0] {
        assert s[i] in Split(s, '.')[if s[0] == '.' then 1 else 0];
      } else {
        assert l in rest[1..];
        assert l in Split(s, '.');
      }
    }
  }

  lemma {:induction false} EndParts(s: string)
    ensures s != "" && s[0] == '.' ==> "" in Split(s, '.')
    ensures s != "" && s[|s| - 1] == '.' ==> "" in Split(s, '.')
  {
    if s != "" && s[|s| - 1] == '.' && |s| > 1 {
      EndParts(s[1..]);
      LastPartEmpty(s);
    }
  }

  lemma {:induction false} LastPartEmpty(s: string)
    requires s != "" && s[|s| - 1] == '.'
    ensures var parts := Split(s, '.'); |parts| > 1 && parts[|parts| - 1] == ""
  {
    if |s| > 1 {
      LastPartEmpty(s[1..]);
    }
  }

  lemma NameChars(s: string)
    requires IsName(s)
    ensures forall i :: 0 <= i < |s| ==> IsNameChar(s[i])
    ensures s[0] != '.' && s[|s| - 1] != '.'
    ensures LabelsFit(s)
  {
    forall i | 0 <= i < |s| ensures IsNameChar(s[i]) {
      if s[i] != '.' {
        CharsOfParts(s, i);
      }
    }
    EndParts(s);
  }

  lemma PlainChars(s: string)
    requires s != "" && forall i :: 0 <= i < |s| ==> IsNameChar(s[i])
    requires s[0] != '.' && s[|s| - 1] != '.'
    ensures PyText.Ascii(s) && PyText.Strip(s) == s && DropDots(s) == s && PyText.Lower(s) == s
    ensures '/' !in s && ':' !in s && !("*." <= s)
  {
    hide IsNameChar, PyText.IsSpace, PyText.LowerChar;
    forall c | c in s ensures c < 128 as char && c != '/' && c != ':' && PyText.LowerChar(c) == c {
      NameCharPlain(c);
    }
    assert PyText.Lower(s) == s;
    hide PyText.Lower;
    NameCharPlain(s[0]);
    NameCharPlain(s[|s| - 1]);
    PlainStripped(s);
    NoStar(s);
    hide PyText.Strip;
  }

  lemma NoStar(s: string)
    requires s != "" && s[0] != '*'
    ensures !("*." <= s)
  {
    assert "*."[0] == '*';
  }

  lemma PlainStripped(s: string)
    requires s != "" && !PyText.IsSpace(s[0]) && !PyText.IsSpace(s[|s| - 1])
    ensures PyText.Strip(s) == s
  {
    PyText.StripTrimmed(s);
  }

  lemma NameCharPlain(c: char)
    requires IsNameChar(c)
    ensures c < 128 as char && c != '/' && c != ':' && c != '*' && PyText.LowerChar(c) == c && !PyText.IsSpace(c)
  {
  }

  lemma {:induction false} ContainsNeeds(s: string, sub: string, c: char)
    requires PyText.Contains(s, sub) && c in sub
    ensures c in s
  {
    if !(sub <= s) {
      ContainsNeeds(s[1..], sub, c);
    }
  }

  /** A name that is no address is its own normal form; an address has none. */
  lemma NormalForm(lib: Library, name: string)
    requires Faithful(lib) && IsName(name)
    ensures Normalize(lib, name) == if IsAddress(lib, name) then None else Some(name)
    ensures lib.address6(name) == false
  {
    NameChars(name);
    PlainChars(name);
    hide PyText.Strip, IsName, IsAddress4, LabelsFit, DropDots, PyText.Lower;
    assert PyText.Contains(name, "://") ==> '/' in name by {
      if PyText.Contains(name, "://") {
        assert "://"[1] == '/';
        ContainsNeeds(name, "://", '/');
      }
    }
  }

  /**
   * Normalising twice does what normalising once does exactly when the first result is not
   * the text of an address. For ASCII input it never is.
   */
  lemma IdempotentExactly(lib: Library, value: string)
    requires Faithful(lib) && Normalize(lib, value).Some?
    ensures var name := Normalize(lib, value).value;
      && IsName(name)
      && (Normalize(lib, name) == Some(name) <==> !IsAddress4(name))
      && (Normalize(lib, name) == None <==> IsAddress4(name))
      && (PyText.Ascii(value) ==> !IsAddress4(name))
  {
    hide IsName, IsAddress4, LabelsFit, PyText.Contains;
    var name := Normalize(lib, value).value;
    NormalForm(lib, name);
    if PyText.Ascii(value) {
      var v := DropDots(PyText.Strip(value));
      StripWithin(value);
      assert PyText.Ascii(v) by { assert forall c :: c in v ==> c in PyText.Strip(value); }
      LowerAscii(v);
      assert lib.lower(v) == PyText.Lower(v);
    }
  }

  lemma StripWithin(s: string)
    ensures forall c :: c in PyText.Strip(s) ==> c in s
  {
    hide PyText.IsSpace;
    var t := PyText.StripLeft(s);
    var u := PyText.StripRight(t);
    assert u == t[..|u|] && t == s[|s| - |t|..];
  }

  lemma LowerAscii(s: string)
    requires PyText.Ascii(s)
    ensures PyText.Ascii(PyText.Lower(s))
  {
    var t := PyText.Lower(s);
    forall c | c in t ensures c < 128 as char {
      var i :| 0 <= i < |t| && t[i] == c;
      assert s[i] in s;
    }
  }

  const FULLWIDTH := "\U{FF11}.\U{FF11}.\U{FF11}.\U{FF11}"

  /** The codec maps fullwidth digits to plain ones, so there is a name whose normal form has none. */
  lemma AddressInDisguise(lib: Library)
    requires Faithful(lib)
    requires lib.lower(FULLWIDTH) == FULLWIDTH && lib.idna(FULLWIDTH) == Some("1.1.1.1")
    ensures Normalize(lib, FULLWIDTH) == Some("1.1.1.1") && Normalize(lib, "1.1.1.1") == None
  {
    PlainDisguise();
    OneAddress();
    hide IsName, IsAddress4, Split, DropDots, PyText.Strip, PyText.Contains;
    assert ':' !in FULLWIDTH;
    NormalForm(lib, "1.1.1.1");
  }

  lemma PlainDisguise()
    ensures PyText.Strip(FULLWIDTH) == FULLWIDTH && DropDots(FULLWIDTH) == FULLWIDTH
    ensures !("*." <= FULLWIDTH) && !PyText.Contains(FULLWIDTH, "://") && '/' !in FULLWIDTH && !IsAddress4(FULLWIDTH)
  {
    DisguiseIsNoAddress();
    hide IsAddress4;
    assert PyText.Trimmed(FULLWIDTH);
    PyText.StripTrimmed(FULLWIDTH);
    hide PyText.Strip, PyText.Contains;
    assert '/' !in FULLWIDTH && "://"[1] == '/';
    if PyText.Contains(FULLWIDTH, "://") {
      ContainsNeeds(FULLWIDTH, "://", '/');
    }
  }

  lemma DisguiseIsNoAddress()
    ensures !IsAddress4(FULLWIDTH)
  {
    SplitAtFirst("\U{FF11}", '.', "\U{FF11}.\U{FF11}.\U{FF11}");
    assert FULLWIDTH == "\U{FF11}" + ['.'] + "\U{FF11}.\U{FF11}.\U{FF11}";
    hide Split;
    assert Split(FULLWIDTH, '.')[0] in Split(FULLWIDTH, '.');
    assert !Decimal.IsDigit("\U{FF11}"[0]);
  }

  lemma OneAddress()
    ensures IsAddress4("1.1.1.1") && IsName("1.1.1.1")
  {
    OneSplit();
    OneLabel();
    hide Split, IsOctet, IsLabel;
  }

  lemma OneLabel()
    ensures IsOctet("1") && IsLabel("1") && '.' !in "1"
  {
    assert Decimal.Value("1") == 1 by { assert "1"[..0] == ""; }
  }

  lemma OneSplit()
    ensures Split("1.1.1.1", '.') == ["1", "1", "1", "1"]
  {
    hide Split;
    SplitWithout("1", '.');
    SplitAtFirst("1", '.', "1");
    SplitAtFirst("1", '.', "1.1");
    SplitAtFirst("1", '.', "1.1.1");
    assert "1" + ['.'] + "1" == "1.1" && "1" + ['.'] + "1.1" == "1.1.1" && "1" + ['.'] + "1.1.1" == "1.1.1.1";
  }

  // ----- Which texts are names and addresses -----

  lemma OctetExactly(p: string)
    ensures IsOctet(p) <==> exists n: nat :: n <= 255 && p == Decimal.Numeral(n)
  {
    hide Decimal.Numeral, Decimal.Value;
    if IsOctet(p) {
      Decimal.NumeralOfValue(p);
    }
    if n: nat :| n <= 255 && p == Decimal.Numeral(n) {
      Decimal.ValueOfNumeral(n);
      OctetLength(n);
    }
  }

  lemma OctetLength(n: nat)
    requires n <= 255
    ensures |Decimal.Numeral(n)| <= 3 && (Decimal.Numeral(n) == "0" || Decimal.Numeral(n)[0] != '0')
  {
    if n > 0 {
      Decimal.NumeralNonzero(n);
    }
    if n >= 10 {
      assert |Decimal.Numeral(n)| == |Decimal.Numeral(n / 10)| + 1;
      if n >= 100 {
        assert |Decimal.Numeral(n / 10)| == |Decimal.Numeral(n / 10 / 10)| + 1;
      }
    }
  }

  predicate IsDotted(s: string, a: nat, b: nat, c: nat, d: nat) {
    && a <= 255 && b <= 255 && c <= 255 && d <= 255
    && s == Join([Decimal.Numeral(a), Decimal.Numeral(b), Decimal.Numeral(c), Decimal.Numeral(d)], '.')
  }

  /** The text of an IPv4 address is four numbers up to 255 with dots between them. */
  lemma AddressExactly(s: string)
    ensures IsAddress4(s) <==> exists a: nat, b: nat, c: nat, d: nat :: IsDotted(s, a, b, c, d)
  {
    hide Decimal.Numeral, IsOctet, Split, Join;
    if IsAddress4(s) {
      var parts := Split(s, '.');
      forall part | part in parts ensures exists n: nat :: n <= 255 && part == Decimal.Numeral(n) {
        OctetExactly(part);
      }
      assert parts[0] in parts && parts[1] in parts && parts[2] in parts && parts[3] in parts;
      var a: nat :| a <= 255 && parts[0] == Decimal.Numeral(a);
      var b: nat :| b <= 255 && parts[1] == Decimal.Numeral(b);
      var c: nat :| c <= 255 && parts[2] == Decimal.Numeral(c);
      var d: nat :| d <= 255 && parts[3] == Decimal.Numeral(d);
      JoinSplit(s, '.');
      assert parts == [Decimal.Numeral(a), Decimal.Numeral(b), Decimal.Numeral(c), Decimal.Numeral(d)];
      assert IsDotted(s, a, b, c, d);
    }
    if a: nat, b: nat, c: nat, d: nat :| IsDotted(s, a, b, c, d) {
      var parts := [Decimal.Numeral(a), Decimal.Numeral(b), Decimal.Numeral(c), Decimal.Numeral(d)];
      forall n: nat | n <= 255 ensures IsOctet(Decimal.Numeral(n)) && '.' !in Decimal.Numeral(n) {
        OctetExactly(Decimal.Numeral(n));
        assert !Decimal.IsDigit('.');
      }
      SplitJoin(parts, '.');
    }
  }

  /** The characters of a name that has been normalised. */
  predicate Letters(l: string) {
    forall c | c in l :: 'a' <= c <= 'z' || '0' <= c <= '9' || c == '-'
  }

  /** A label has 1 to 63 letters, digits and hyphens, and no hyphen at either end. */
  lemma LabelExactly(l: string)
    ensures IsLabel(l) <==> 1 <= |l| <= 63 && Letters(l) && l[0] != '-' && l[|l| - 1] != '-'
  {
    if 1 <= |l| <= 63 && Letters(l) {
      assert l[0] in l && l[|l| - 1] in l;
      forall i | 0 <= i < |l| ensures IsAlnum(l[i]) || l[i] == '-' { assert l[i] in l; }
    }
  }

  /**
   * What becomes of an ASCII name: without blanks around it, dots behind it and capitals it must
   * be made of labels, 253 characters at most, and no address.
   */
  lemma AsciiNormalizesExactly(lib: Library, value: string)
    requires Faithful(lib) && PyText.Ascii(value)
    ensures var v := PyText.Lower(DropDots(PyText.Strip(value)));
      Normalize(lib, value) ==
        if && 0 < |v| <= 253 && !IsAddress4(v)
           && forall l | l in Split(v, '.') :: 1 <= |l| <= 63 && Letters(l) && l[0] != '-' && l[|l| - 1] != '-'
        then Some(v) else None
  {
    var w := DropDots(PyText.Strip(value));
    StripWithin(value);
    assert PyText.Ascii(w) by { assert forall c :: c in w ==> c in PyText.Strip(value); }
    LowerAscii(w);
    assert lib.lower(w) == PyText.Lower(w);
    hide PyText.Strip, PyText.Lower, DropDots, Split, IsLabel, Letters, IsAddress4, LabelsFit, PyText.Contains;
    hide Normalize;
    LowerNormalizes(lib, value, PyText.Lower(w));
    NameExactly(PyText.Lower(w));
  }

  lemma LowerNormalizes(lib: Library, value: string, v: string)
    requires Faithful(lib) && PyText.Ascii(v) && lib.lower(DropDots(PyText.Strip(value))) == v
    ensures Normalize(lib, value) == if IsName(v) && !IsAddress4(v) then Some(v) else None
  {
    hide PyText.Strip, DropDots, Split, IsLabel, IsAddress4, LabelsFit, PyText.Contains, IsName;
    if IsName(v) {
      NameChars(v);
      NamePlain(v);
    }
  }

  lemma NameExactly(v: string)
    ensures IsName(v) <==>
      0 < |v| <= 253
      && forall l | l in Split(v, '.') :: 1 <= |l| <= 63 && Letters(l) && l[0] != '-' && l[|l| - 1] != '-'
  {
    hide Split, IsLabel, Letters;
    forall l ensures IsLabel(l) <==> 1 <= |l| <= 63 && Letters(l) && l[0] != '-' && l[|l| - 1] != '-' {
      LabelExactly(l);
    }
  }

  lemma NamePlain(v: string)
    requires IsName(v)
    ensures !("*." <= v) && '/' !in v && ':' !in v && !PyText.Contains(v, "://")
  {
    NameChars(v);
    PlainChars(v);
    hide IsName, PyText.Strip;
    if PyText.Contains(v, "://") {
      assert "://"[1] == '/';
      ContainsNeeds(v, "://", '/');
    }
  }

  // ----- Scope -----

  datatype Scope = Invalid | InScope | OutOfScope

  /** `classify_scope` */
  function Classify(lib: Library, domain: string, authorizedRoot: string): Scope {
    var root, candidate := Normalize(lib, authorizedRoot), Normalize(lib, domain);
    if root.None? || candidate.None? then Invalid
    else if candidate == root || PyText.EndsWith(candidate.value, "." + root.value) then InScope
    else OutOfScope
  }

  predicate IsSuffix<T(==)>(ys: seq<T>, xs: seq<T>) {
    |ys| <= |xs| && xs[|xs| - |ys|..] == ys
  }

  /** The labels of `root` are the last labels of `name`. */
  predicate Under(name: string, root: string) {
    IsSuffix(Split(root, '.'), Split(name, '.'))
  }

  lemma DottedEnding(a: string, root: string)
    ensures Under(a + ['.'] + root, root)
  {
    SplitAppend(a, '.', root);
    hide Split;
  }

  lemma DottedFront(front: seq<string>, name: string, root: string)
    requires front != [] && Split(name, '.') == front + Split(root, '.')
    ensures PyText.EndsWith(name, "." + root)
  {
    JoinSplit(name, '.');
    JoinSplit(root, '.');
    JoinAppend(front, Split(root, '.'), '.');
    hide Split, Join;
    assert name == Join(front, '.') + ("." + root);
  }

  /** The test on the text, equality or a dotted ending, is the test on the lists of labels. */
  lemma EndingIsLabelSuffix(name: string, root: string)
    ensures name == root || PyText.EndsWith(name, "." + root) <==> Under(name, root)
  {
    if PyText.EndsWith(name, "." + root) {
      assert name == name[..|name| - |root| - 1] + ['.'] + root;
      DottedEnding(name[..|name| - |root| - 1], root);
    }
    if Under(name, root) {
      UnderEnding(name, root);
    }
  }

  lemma UnderEnding(name: string, root: string)
    requires Under(name, root)
    ensures name == root || PyText.EndsWith(name, "." + root)
  {
    var xs, ys := Split(name, '.'), Split(root, '.');
    hide Split, PyText.EndsWith;
    var front := xs[..|xs| - |ys|];
    assert xs == front + ys;
    if front != [] {
      DottedFront(front, name, root);
    } else {
      assert xs == ys;
      JoinSplit(name, '.');
      JoinSplit(root, '.');
    }
  }

  /** Whatever the two names looked like before: what counts is the labels of their normal forms. */
  lemma ScopeIsLabelSuffix(lib: Library, domain: string, root: string)
    ensures Classify(lib, domain, root) == InScope <==>
      var c, r := Normalize(lib, domain), Normalize(lib, root); c.Some? && r.Some? && Under(c.value, r.value)
  {
    hide Normalize, Under, PyText.EndsWith;
    if Normalize(lib, domain).Some? && Normalize(lib, root).Some? {
      EndingIsLabelSuffix(Normalize(lib, domain).value, Normalize(lib, root).value);
    }
  }

  /** Classifying names that have been normalised already, as the discovery loop does. */
  lemma ScopeOfNormalized(lib: Library, name: string, root: string)
    requires Faithful(lib) && IsName(name) && IsName(root)
    ensures Classify(lib, name, root) ==
      if IsAddress4(name) || IsAddress4(root) then Invalid else if Under(name, root) then InScope else OutOfScope
  {
    NormalForm(lib, name);
    NormalForm(lib, root);
    hide Normalize, Under, PyText.EndsWith, IsAddress4, IsName;
    EndingIsLabelSuffix(name, root);
  }

  lemma UnderTransitive(a: string, b: string, c: string)
    requires Under(a, b) && Under(b, c)
    ensures Under(a, c)
  {
    hide Split;
    var xs, ys, zs := Split(a, '.'), Split(b, '.'), Split(c, '.');
    assert xs[|xs| - |zs|..] == xs[|xs| - |ys|..][|ys| - |zs|..];
  }

  /** Scopes nest or are disjoint: a name in two scopes puts one root in the scope of the other. */
  lemma UnderNests(name: string, a: string, b: string)
    requires Under(name, a) && Under(name, b)
    ensures Under(a, b) || Under(b, a)
  {
    hide Split;
    var xs, ys, zs := Split(name, '.'), Split(a, '.'), Split(b, '.');
    if |ys| <= |zs| {
      assert zs[|zs| - |ys|..] == xs[|xs| - |ys|..];
    } else {
      assert ys[|ys| - |zs|..] == xs[|xs| - |zs|..];
    }
  }

  lemma UnderBoth(a: string, b: string)
    requires Under(a, b) && Under(b, a)
    ensures a == b
  {
    hide Split;
    assert Split(a, '.') == Split(b, '.');
    JoinSplit(a, '.');
    JoinSplit(b, '.');
  }

  /** Scope is closed downwards, its roots nest, and no two names are in the scope of each other. */
  lemma ScopesNest(lib: Library, x: string, y: string, z: string)
    ensures Classify(lib, x, y) == InScope && Classify(lib, y, z) == InScope ==> Classify(lib, x, z) == InScope
    ensures Classify(lib, x, y) == InScope && Classify(lib, x, z) == InScope ==>
      Classify(lib, y, z) == InScope || Classify(lib, z, y) == InScope
    ensures Classify(lib, x, y) == InScope && Classify(lib, y, x) == InScope ==>
      Normalize(lib, x) == Normalize(lib, y)
  {
    ScopeIsLabelSuffix(lib, x, y);
    ScopeIsLabelSuffix(lib, x, z);
    ScopeIsLabelSuffix(lib, y, z);
    ScopeIsLabelSuffix(lib, y, x);
    ScopeIsLabelSuffix(lib, z, y);
    hide Classify, Under, Normalize;
    var a, b, c := Normalize(lib, x), Normalize(lib, y), Normalize(lib, z);
    if Classify(lib, x, y) == InScope {
      if Classify(lib, y, z) == InScope {
        UnderTransitive(a.value, b.value, c.value);
      }
      if Classify(lib, x, z) == InScope {
        UnderNests(a.value, b.value, c.value);
      }
      if Classify(lib, y, x) == InScope {
        UnderBoth(a.value, b.value);
      }
    }
  }
}
