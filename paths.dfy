/**
 * The parts of Python's `os.path` (POSIX flavour) and `str.lower` that the
 * converter relies on: `splitext`, `join`, the base name, and lower-casing.
 */
module Paths {

  const Sep: char := '/'
  const ExtSep: char := '.'

  /** `str.rfind` for one character: the last index of `c` in `s`, or -1. */
  function LastIndexOf(s: string, c: char): (r: int)
    ensures -1 <= r < |s|
    decreases |s|
  {
    if s == [] then -1
    else if s[|s| - 1] == c then |s| - 1
    else LastIndexOf(s[..|s| - 1], c)
  }

  /** rfind finds an occurrence of `c`, and no occurrence lies after it. */
  lemma {:induction false} LastIndexOfSpec(s: string, c: char)
    ensures LastIndexOf(s, c) >= 0 ==> s[LastIndexOf(s, c)] == c
    ensures forall j :: LastIndexOf(s, c) < j < |s| ==> s[j] != c
    decreases |s|
  {
    if s != [] && s[|s| - 1] != c {
      var s' := s[..|s| - 1];
      LastIndexOfSpec(s', c);
      forall j | LastIndexOf(s, c) < j < |s|
        ensures s[j] != c
      {
        if j < |s| - 1 {
          assert s[j] == s'[j];
        }
      }
    }
  }

  /** The two facts of LastIndexOfSpec determine the index. */
  lemma LastIndexOfUnique(s: string, c: char, r: int)
    requires -1 <= r < |s|
    requires r >= 0 ==> s[r] == c
    requires forall j :: r < j < |s| ==> s[j] != c
    ensures LastIndexOf(s, c) == r
  {
    LastIndexOfSpec(s, c);
  }

  /** Every character of `s` is a dot (vacuously so for the empty string). */
  predicate AllDots(s: string)
  {
    s == [] || (s[0] == ExtSep && AllDots(s[1..]))
  }

  /**
   * `os.path.splitext`: the extension starts at the last '.', provided that
   * dot lies in the last path component and is preceded, inside that
   * component, by at least one character other than '.'; so ".xml" and
   * "a/..xml" have no extension.
   */
  function SplitExt(p: string): (string, string)
  {
    var sep := LastIndexOf(p, Sep);
    var dot := LastIndexOf(p, ExtSep);
    if dot > sep && !AllDots(p[sep + 1..dot]) then (p[..dot], p[dot..]) else (p, [])
  }

  /** `splitext` loses nothing: stem and extension put together give the path back. */
  lemma SplitExtJoins(p: string)
    ensures SplitExt(p).0 + SplitExt(p).1 == p
  {
    var sep := LastIndexOf(p, Sep);
    var dot := LastIndexOf(p, ExtSep);
    if dot > sep && !AllDots(p[sep + 1..dot]) {
      assert p[..dot] + p[dot..] == p;
    } else {
      assert p + [] == p;
    }
  }

  /**
   * A non-empty extension is one dot followed by characters that are neither
   * dots nor separators, and it follows a non-empty stem.
   */
  lemma ExtShape(p: string)
    ensures Ext(p) == [] || (Ext(p)[0] == ExtSep && |Ext(p)| < |p|)
    ensures forall i :: 1 <= i < |Ext(p)| ==> Ext(p)[i] != ExtSep && Ext(p)[i] != Sep
  {
    var sep := LastIndexOf(p, Sep);
    var dot := LastIndexOf(p, ExtSep);
    LastIndexOfSpec(p, Sep);
    LastIndexOfSpec(p, ExtSep);
    if dot > sep && !AllDots(p[sep + 1..dot]) {
      var x := p[dot..];
      assert Ext(p) == x;
      forall i | 1 <= i < |x|
        ensures x[i] != ExtSep && x[i] != Sep
      {
        assert x[i] == p[dot + i];
      }
    }
  }

  function Ext(p: string): string
  {
    SplitExt(p).1
  }

  /** The last path component (what follows the last '/'). */
  function Basename(p: string): string
  {
    p[LastIndexOf(p, Sep) + 1..]
  }

  /** `os.path.join(a, b)` for two components. */
  function Join(a: string, b: string): (r: string)
    ensures |b| > 0 && b[0] == Sep ==> r == b
  {
    if |b| > 0 && b[0] == Sep then b
    else if a == [] || a[|a| - 1] == Sep then a + b
    else a + [Sep] + b
  }

  /** `str.lower` on ASCII letters; every other character is kept. */
  function LowerChar(c: char): char
  {
    if 'A' <= c <= 'Z' then (c as int + 32) as char else c
  }

  function Lower(s: string): (r: string)
    ensures |r| == |s|
    decreases |s|
  {
    if s == [] then [] else [LowerChar(s[0])] + Lower(s[1..])
  }

  /** Lower-casing works character by character. */
  lemma {:induction false} LowerAt(s: string, i: int)
    requires 0 <= i < |s|
    ensures Lower(s)[i] == LowerChar(s[i])
    decreases |s|
  {
    if i > 0 {
      LowerAt(s[1..], i - 1);
    }
  }

  /** `os.path.splitext(p)[1].lower() == e`, the test gen_json.py writes out three times. */
  predicate HasExtension(p: string, e: string)
  {
    Lower(Ext(p)) == e
  }

  /** An extension as the program spells it: a dot followed by lower-case letters. */
  predicate ExtensionName(e: string)
  {
    |e| >= 2 && e[0] == ExtSep && forall i :: 1 <= i < |e| ==> 'a' <= e[i] <= 'z'
  }

  /**
   * A base name "carries" extension `e` when it ends in `e`, ignoring the
   * case of letters, and the part before that is not made of dots only.
   */
  predicate NamedWith(b: string, e: string)
  {
    |b| >= |e| && Lower(b[|b| - |e|..]) == e && !AllDots(b[..|b| - |e|])
  }

  /** Reference reading of the extension test, independent of rfind. */
  lemma HasExtensionIff(p: string, e: string)
    requires ExtensionName(e)
    ensures HasExtension(p, e) <==> NamedWith(Basename(p), e)
  {
    if HasExtension(p, e) {
      ExtensionIsNamed(p, e);
    }
    if NamedWith(Basename(p), e) {
      NamedHasExtension(p, e);
    }
  }

  lemma ExtensionIsNamed(p: string, e: string)
    requires ExtensionName(e) && HasExtension(p, e)
    ensures NamedWith(Basename(p), e)
  {
    var sep := LastIndexOf(p, Sep);
    var dot := LastIndexOf(p, ExtSep);
    assert dot > sep && !AllDots(p[sep + 1..dot]) && Ext(p) == p[dot..];
    NamedFromParts(p, sep + 1, dot, e);
  }

  lemma NamedFromParts(p: string, start: nat, dot: nat, e: string)
    requires start <= dot <= |p| && |e| == |p| - dot
    requires !AllDots(p[start..dot]) && Lower(p[dot..]) == e
    ensures NamedWith(p[start..], e)
  {
    var b := p[start..];
    assert b[|b| - |e|..] == p[dot..];
    assert b[..|b| - |e|] == p[start..dot];
  }

  lemma NamedHasExtension(p: string, e: string)
    requires ExtensionName(e) && NamedWith(Basename(p), e)
    ensures HasExtension(p, e)
  {
    var sep := LastIndexOf(p, Sep);
    var d := |p| - |e|;
    PartsFromNamed(p, sep + 1, e);
    DotStartsSuffix(p, d, e);
    LastIndexOfUnique(p, ExtSep, d);
    ExtAt(p, sep, d);
  }

  /** Where rfind puts both indices, and the stem is not all dots, the extension starts at the dot. */
  lemma ExtAt(p: string, sep: int, dot: int)
    requires sep == LastIndexOf(p, Sep) && dot == LastIndexOf(p, ExtSep)
    requires sep < dot && !AllDots(p[sep + 1..dot])
    ensures Ext(p) == p[dot..]
  {
  }

  lemma PartsFromNamed(p: string, start: nat, e: string)
    requires start <= |p| && NamedWith(p[start..], e)
    ensures start + |e| <= |p|
    ensures Lower(p[|p| - |e|..]) == e && !AllDots(p[start..|p| - |e|])
  {
    var b := p[start..];
    assert b[|b| - |e|..] == p[|p| - |e|..];
    assert b[..|b| - |e|] == p[start..|p| - |e|];
  }

  /** A suffix that lower-cases to an extension name starts with the only dot of that suffix. */
  lemma DotStartsSuffix(p: string, d: nat, e: string)
    requires ExtensionName(e) && d + |e| == |p| && Lower(p[d..]) == e
    ensures p[d] == ExtSep
    ensures forall j :: d < j < |p| ==> p[j] != ExtSep && p[j] != Sep
  {
    var tail := p[d..];
    LowerAt(tail, 0);
    assert LowerChar(tail[0]) == e[0];
    forall j | d < j < |p|
      ensures p[j] != ExtSep && p[j] != Sep
    {
      LowerAt(tail, j - d);
      assert LowerChar(tail[j - d]) == e[j - d];
    }
  }

  /** Joining a directory in front of a plain file name does not change its extension. */
  lemma ExtOfJoin(root: string, name: string)
    requires Sep !in name
    ensures Ext(Join(root, name)) == Ext(name)
  {
    if root == [] {
      assert |name| > 0 ==> name[0] in name;
      assert Join(root, name) == name;
    } else {
      var pre := if root[|root| - 1] == Sep then root else root + [Sep];
      assert Join(root, name) == pre + name;
      ExtAfterSeparator(pre, name);
    }
  }

  lemma ExtAfterSeparator(pre: string, name: string)
    requires |pre| > 0 && pre[|pre| - 1] == Sep && Sep !in name
    ensures Ext(pre + name) == Ext(name)
  {
    var p := pre + name;
    LastIndexOfUnique(p, Sep, |pre| - 1);
    LastIndexOfUnique(name, Sep, -1);
    var dotN := LastIndexOf(name, ExtSep);
    LastIndexOfSpec(name, ExtSep);
    if dotN >= 0 {
      LastIndexOfUnique(p, ExtSep, |pre| + dotN);
      assert p[|pre|..|pre| + dotN] == name[..dotN];
      assert p[|pre| + dotN..] == name[dotN..];
    } else {
      var dotP := LastIndexOf(p, ExtSep);
      LastIndexOfSpec(p, ExtSep);
      assert dotP < |pre| - 1;
    }
  }
}
