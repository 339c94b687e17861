/**
 * Python's `re.escape` (3.7 and later): every character of the fixed special
 * set is preceded by a backslash, every other character is kept as it is.
 */
module RegexEscape {

  const Backslash: char := '\\'

  /** The characters `re.escape` escapes since Python 3.7: ()[]{}?*+-|^$\.&~# and the six ASCII white-space characters. */
  predicate Special(c: char)
  {
    c in {'(', ')', '[', ']', '{', '}', '?', '*', '+', '-', '|', '^', '$', '\\', '.', '&', '~', '#',
          ' ', '\t', '\n', '\r', '\U{0B}', '\U{0C}'}
  }

  function EscapeChar(c: char): string
  {
    if Special(c) then [Backslash, c] else [c]
  }

  function Escape(s: string): string
    decreases |s|
  {
    if s == [] then [] else EscapeChar(s[0]) + Escape(s[1..])
  }

  /** Drops each escaping backslash and keeps the character it escapes. */
  function Unescape(t: string): string
    decreases |t|
  {
    if t == [] then []
    else if t[0] == Backslash && |t| >= 2 then [t[1]] + Unescape(t[2..])
    else [t[0]] + Unescape(t[1..])
  }

  /**
   * `t` reads, as a regular expression, as a plain literal: each backslash
   * escapes a special character after it (never a letter or digit, which
   * would make a class such as `\d`) and no special character stands alone.
   */
  predicate Literal(t: string)
    decreases |t|
  {
    if t == [] then true
    else if t[0] == Backslash then |t| >= 2 && Special(t[1]) && Literal(t[2..])
    else !Special(t[0]) && Literal(t[1..])
  }

  /** Stripping the escaping backslashes recovers the original text. */
  lemma {:induction false} UnescapeEscape(s: string)
    ensures Unescape(Escape(s)) == s
    decreases |s|
  {
    if s != [] {
      var rest := Escape(s[1..]);
      UnescapeEscape(s[1..]);
      if Special(s[0]) {
        assert Escape(s) == [Backslash, s[0]] + rest;
        assert (([Backslash, s[0]] + rest)[2..]) == rest;
      } else {
        assert Escape(s) == [s[0]] + rest;
        assert (([s[0]] + rest)[1..]) == rest;
      }
      assert s == [s[0]] + s[1..];
    }
  }

  /** Escaping leaves no special character unescaped. */
  lemma {:induction false} EscapeIsLiteral(s: string)
    ensures Literal(Escape(s))
    decreases |s|
  {
    if s != [] {
      var rest := Escape(s[1..]);
      EscapeIsLiteral(s[1..]);
      if Special(s[0]) {
        assert Escape(s) == [Backslash, s[0]] + rest;
        assert (([Backslash, s[0]] + rest)[2..]) == rest;
      } else {
        assert Escape(s) == [s[0]] + rest;
        assert (([s[0]] + rest)[1..]) == rest;
      }
    }
  }

  /** Escaping works character by character, so it distributes over concatenation. */
  lemma {:induction false} EscapeConcat(a: string, b: string)
    ensures Escape(a + b) == Escape(a) + Escape(b)
    decreases |a|
  {
    if a == [] {
      assert a + b == b;
    } else {
      assert (a + b)[0] == a[0];
      assert (a + b)[1..] == a[1..] + b;
      EscapeConcat(a[1..], b);
    }
  }

  /** Each '.' of a host name appears as "\." in its escaped form. */
  lemma DotEscaped(a: string, b: string)
    ensures Escape(a + "." + b) == Escape(a) + "\\." + Escape(b)
  {
    EscapeConcat(a + ".", b);
    EscapeConcat(a, ".");
    assert Escape(".") == "\\.";
  }

  /** Two hosts with the same escaped form are the same host. */
  lemma EscapeInjective(s: string, t: string)
    requires Escape(s) == Escape(t)
    ensures s == t
  {
    UnescapeEscape(s);
    UnescapeEscape(t);
  }
}
