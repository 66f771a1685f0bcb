/**
 * `moinname`: the directory name a page is stored under, with `/` written
 * as `(2f)` and `-` as `(2d)` (trac2moin.py, lines 113-114).
 */
module PageNames {

  /** `re.sub(c, w, s)` for a one-character pattern `c`. */
  function ReplaceChar(s: string, c: char, w: string): string
    decreases |s|
  {
    if s == [] then [] else (if s[0] == c then w else [s[0]]) + ReplaceChar(s[1..], c, w)
  }

  /** `moinname` as written: first every `/`, then every `-`. */
  function MoinName(name: string): string
  {
    ReplaceChar(ReplaceChar(name, '/', "(2f)"), '-', "(2d)")
  }

  /** The escape of one character of a page name. */
  function Escape(c: char): string
  {
    if c == '/' then "(2f)" else if c == '-' then "(2d)" else [c]
  }

  /** Reference definition: each character escaped on its own. */
  function EscapeAll(s: string): string
    decreases |s|
  {
    if s == [] then [] else Escape(s[0]) + EscapeAll(s[1..])
  }

  lemma {:induction false} ReplaceCharAppend(a: string, b: string, c: char, w: string)
    ensures ReplaceChar(a + b, c, w) == ReplaceChar(a, c, w) + ReplaceChar(b, c, w)
    decreases |a|
  {
    if a != [] {
      assert (a + b)[1..] == a[1..] + b;
      ReplaceCharAppend(a[1..], b, c, w);
    } else {
      assert a + b == b;
    }
  }

  /** A text without the character is left as it is. */
  lemma {:induction false} ReplaceCharKeeps(s: string, c: char, w: string)
    requires c !in s
    ensures ReplaceChar(s, c, w) == s
    decreases |s|
  {
    if s != [] {
      ReplaceCharKeeps(s[1..], c, w);
      assert [s[0]] + s[1..] == s;
    }
  }

  /**
   * The two passes amount to escaping each character on its own: the
   * `(2f)` written by the first pass holds no `-` for the second to touch.
   */
  lemma {:induction false} MoinNameEscapesEachChar(name: string)
    ensures MoinName(name) == EscapeAll(name)
    decreases |name|
  {
    if name != [] {
      var head := if name[0] == '/' then "(2f)" else [name[0]];
      var rest := ReplaceChar(name[1..], '/', "(2f)");
      assert ReplaceChar(name, '/', "(2f)") == head + rest;
      ReplaceCharAppend(head, rest, '-', "(2d)");
      assert ReplaceChar(head, '-', "(2d)") == Escape(name[0]) by {
        if name[0] == '/' {
          assert ReplaceChar("(2f)", '-', "(2d)") == "(2f)" by {
            assert ReplaceChar("", '-', "(2d)") == "";
            assert ReplaceChar(")", '-', "(2d)") == ")";
            assert ReplaceChar("f)", '-', "(2d)") == "f)";
            assert ReplaceChar("2f)", '-', "(2d)") == "2f)";
          }
        } else {
          assert ReplaceChar([name[0]][1..], '-', "(2d)") == [];
        }
      }
      MoinNameEscapesEachChar(name[1..]);
    }
  }

  /** A directory name never holds a `/` or a `-`. */
  lemma {:induction false} MoinNameIsSafe(name: string)
    ensures '/' !in MoinName(name) && '-' !in MoinName(name)
    decreases |name|
  {
    MoinNameEscapesEachChar(name);
    if name != [] {
      MoinNameIsSafe(name[1..]);
      MoinNameEscapesEachChar(name[1..]);
      assert EscapeAll(name) == Escape(name[0]) + EscapeAll(name[1..]);
    }
  }

  /** Every other character is kept, in place: a name without `/` or `-` is its own directory name. */
  lemma {:induction false} MoinNameKeepsPlainNames(name: string)
    requires '/' !in name && '-' !in name
    ensures MoinName(name) == name
    decreases |name|
  {
    MoinNameEscapesEachChar(name);
    if name != [] {
      MoinNameKeepsPlainNames(name[1..]);
      MoinNameEscapesEachChar(name[1..]);
    }
  }

  lemma MoinNameExample()
    ensures MoinName("a/b-c") == "a(2f)b(2d)c"
  {
    MoinNameEscapesEachChar("a/b-c");
    ExampleEscaped();
  }

  lemma ExampleEscaped()
    ensures EscapeAll("a/b-c") == "a(2f)b(2d)c"
  {
    assert EscapeAll("c") == "c";
    assert EscapeAll("-c") == "(2d)c";
    assert EscapeAll("b-c") == "b(2d)c";
    assert EscapeAll("/b-c") == "(2f)b(2d)c";
  }

  /** Reads a directory name back into a page name. */
  function Unescape(t: string): string
    decreases |t|
  {
    if t == [] then []
    else if |t| >= 4 && t[..4] == "(2f)" then "/" + Unescape(t[4..])
    else if |t| >= 4 && t[..4] == "(2d)" then "-" + Unescape(t[4..])
    else [t[0]] + Unescape(t[1..])
  }

  /** A page name without `(` is recovered from its directory name. */
  lemma {:induction false} UnescapeMoinName(name: string)
    requires '(' !in name
    ensures Unescape(MoinName(name)) == name
    decreases |name|
  {
    MoinNameEscapesEachChar(name);
    if name != [] {
      var t := EscapeAll(name);
      var rest := EscapeAll(name[1..]);
      assert t == Escape(name[0]) + rest;
      if name[0] == '/' || name[0] == '-' {
        assert t[..4] == Escape(name[0]) && t[4..] == rest;
      } else {
        assert t[0] == name[0] && t[1..] == rest;
      }
      UnescapeMoinName(name[1..]);
      MoinNameEscapesEachChar(name[1..]);
    }
  }

  /** Page names without `(` get distinct directories. */
  lemma MoinNameInjective(a: string, b: string)
    requires '(' !in a && '(' !in b
    requires MoinName(a) == MoinName(b)
    ensures a == b
  {
    UnescapeMoinName(a);
    UnescapeMoinName(b);
  }

  /**
   * The escape leaves `(` alone, so a name that already spells an escape
   * shares a directory with the name it spells.
   */
  lemma MoinNameCollision()
    ensures MoinName("a/") == "a(2f)" && MoinName("a(2f)") == "a(2f)"
  {
    SlashEscaped();
    MoinNameKeepsPlainNames("a(2f)");
  }

  lemma SlashEscaped()
    ensures MoinName("a/") == "a(2f)"
  {
    MoinNameEscapesEachChar("a/");
    assert EscapeAll("/") == "(2f)";
  }
}
