/**
 * `re.sub(pattern, replacement, text)` for one rewrite rule: the text is
 * scanned from left to right; where the rule matches, the match is
 * replaced and scanning resumes after it, so matches never overlap and a
 * replacement is never scanned again; elsewhere one character is copied.
 */
module Substitution {

  import opened Basics
  import opened Text
  import opened Patterns

  /** Every rule's substitution over the whole text. */
  function Sub(r: Rule, t: string): (s: string)
    decreases |t|
  {
    if t == [] then []
    else
      match MatchPrefix(r, t)
      case Some(h) => h.out + Sub(r, t[h.len..])
      case None => [t[0]] + Sub(r, t[1..])
  }

  /** No match starts anywhere in `t`. */
  ghost predicate NoMatchIn(r: Rule, t: string)
  {
    forall i :: 0 <= i < |t| ==> MatchPrefix(r, t[i..]).None?
  }

  /** No match starts within the first `n` characters of `t`. */
  ghost predicate NoMatchBefore(r: Rule, t: string, n: nat)
  {
    forall i :: 0 <= i < n && i < |t| ==> MatchPrefix(r, t[i..]).None?
  }

  /** Where the rule matches nowhere, the text is left as it is. */
  lemma {:induction false} SubNoMatch(r: Rule, t: string)
    requires NoMatchIn(r, t)
    ensures Sub(r, t) == t
    decreases |t|
  {
    if t != [] {
      assert MatchPrefix(r, t[0..]).None? && t[0..] == t;
      assert NoMatchIn(r, t[1..]) by {
        forall i | 0 <= i < |t[1..]|
          ensures MatchPrefix(r, t[1..][i..]).None?
        {
          assert t[1..][i..] == t[i + 1..];
        }
      }
      SubNoMatch(r, t[1..]);
    }
  }

  /**
   * A stretch `u` in which no match starts is copied unchanged, and
   * scanning carries on with what follows it.
   */
  lemma {:induction false} SubSkip(r: Rule, u: string, v: string)
    requires NoMatchBefore(r, u + v, |u|)
    ensures Sub(r, u + v) == u + Sub(r, v)
    decreases |u|
  {
    if u != [] {
      var t := u + v;
      assert t[0..] == t;
      assert t[1..] == u[1..] + v;
      assert NoMatchBefore(r, u[1..] + v, |u[1..]|) by {
        forall i | 0 <= i < |u[1..]|
          ensures MatchPrefix(r, (u[1..] + v)[i..]).None?
        {
          assert (u[1..] + v)[i..] == t[i + 1..];
        }
      }
      SubSkip(r, u[1..], v);
      assert MatchPrefix(r, t).None?;
      ConsTail(u, Sub(r, v));
    } else {
      assert u + v == v;
    }
  }

  lemma ConsTail(u: string, x: string)
    requires u != []
    ensures [u[0]] + (u[1..] + x) == u + x
  {
    assert [u[0]] + u[1..] == u;
  }

  /** A match at the start is replaced, and scanning resumes right after it. */
  lemma SubAtMatch(r: Rule, m: string, rest: string, out: string)
    requires MatchPrefix(r, m + rest) == Some(Hit(|m|, out))
    ensures Sub(r, m + rest) == out + Sub(r, rest)
  {
    assert (m + rest)[|m|..] == rest;
  }

  /** A match that takes the whole text is all that is left of it. */
  lemma SubWhole(r: Rule, t: string, out: string)
    requires MatchPrefix(r, t) == Some(Hit(|t|, out))
    ensures Sub(r, t) == out
  {
    assert t[|t|..] == [];
    assert out + [] == out;
  }

  /**
   * The first match in the text: everything before it is copied, it is
   * replaced, and the rest of the text is scanned afresh.
   */
  lemma SubFirstMatch(r: Rule, u: string, m: string, rest: string, out: string)
    requires NoMatchBefore(r, u + m + rest, |u|)
    requires MatchPrefix(r, m + rest) == Some(Hit(|m|, out))
    ensures Sub(r, u + m + rest) == u + out + Sub(r, rest)
  {
    var w := m + rest;
    assert u + m + rest == u + w;
    SubSkip(r, u, w);
    SubAtMatch(r, m, rest, out);
    assert u + (out + Sub(r, rest)) == u + out + Sub(r, rest);
  }

  // ---------------------------------------------------------------------
  // Where a rule cannot fire

  /** `w` appears somewhere in `t`. */
  ghost predicate Occurs(t: string, w: string)
  {
    exists i: nat :: LitAt(t, i, w)
  }

  /** A piece of text that every match of the rule holds. */
  function Key(r: Rule): string
  {
    match r
    case WikiLink => "[wiki:"
    case WikiBareLink => "[wiki:"
    case UrlLink => "[http"
    case AnchorLink => "[#"
    case NameLink(name, _) => "[[" + name + "]]"
    case NameLabelLink(name, _) => "[[" + name + "|"
    case NameAnchorLink(name, _) => "[[" + name + "#"
    case NameAnchorLabelLink(name, _) => "[[" + name + "#"
    case AutoLink(name, _) => name
    case PrettyLink(target, _) => target
    case IncludeMacro(name, _) => "(" + name + ")]"
    case ImageMacro => "[[Image("
    case OutlineMacro => "[[PageOutline]]"
    case OutlineRangeMacro => "[[PageOutline("
    case OutlineLevelMacro => "[[PageOutline("
    case BreakMacro => "[[BR]]"
    case NavMacro => "[[TracNav("
  }

  /** A literal holds each of its parts. */
  lemma LitInside(t: string, i: nat, a: string, w: string, b: string)
    requires LitAt(t, i, a + w + b)
    ensures LitAt(t, i + |a|, w)
  {
    var v := a + w + b;
    forall k | 0 <= k < |w|
      ensures t[i + |a| + k] == w[k]
    {
      assert t[i + |a| + k] == t[i..i + |v|][|a| + k] == v[|a| + k];
    }
  }

  lemma Regroup(x: string, y: string, z: string, u: string)
    ensures x + y + z + u == x + (y + z + u) + ""
  {
  }

  /** Every match holds the rule's key. */
  lemma MatchKey(r: Rule, t: string)
    requires MatchPrefix(r, t).Some?
    ensures Occurs(t, Key(r))
  {
    match r
    case UrlLink =>
      UrlKey(t);
    case AutoLink(name, _) =>
      assert LitAt(t, 1, name);
    case PrettyLink(target, _) =>
      assert LitAt(t, 1, target);
    case IncludeMacro(name, target) =>
      IncludeKey(t, name, target);
    case ImageMacro => MacroKey(r, t);
    case OutlineMacro => MacroKey(r, t);
    case OutlineRangeMacro => MacroKey(r, t);
    case OutlineLevelMacro => MacroKey(r, t);
    case BreakMacro => MacroKey(r, t);
    case NavMacro => MacroKey(r, t);
    case _ =>
      assert LitAt(t, 0, Key(r));
  }

  lemma UrlKey(t: string)
    requires MatchPrefix(UrlLink, t).Some?
    ensures LitAt(t, 0, "[http")
  {
    if LitAt(t, 0, "[https://") {
      LitInside(t, 0, "", "[http", "s://");
    } else {
      LitInside(t, 0, "", "[http", "://");
    }
  }

  lemma MacroKey(r: Rule, t: string)
    requires r.ImageMacro? || r.OutlineMacro? || r.OutlineRangeMacro? || r.OutlineLevelMacro? || r.BreakMacro? || r.NavMacro?
    requires MatchPrefix(r, t).Some?
    ensures LitAt(t, 0, Key(r))
  {
  }

  lemma IncludeKey(t: string, name: string, target: string)
    requires MatchPrefix(IncludeMacro(name, target), t).Some?
    ensures Occurs(t, "(" + name + ")]")
  {
    IncludeMacroOnly(t, name, target);
    var h := MatchPrefix(IncludeMacro(name, target), t).value;
    var macro :| IsIncludingMacro(macro) && t[..h.len] == "[" + macro + "(" + name + ")]";
    Regroup("[" + macro, "(", name, ")]");
    LitInside(t, 0, "[" + macro, "(" + name + ")]", "");
  }

  /** `w` is a beginning of `key`. */
  predicate IsPrefix(w: string, key: string)
  {
    |w| <= |key| && key[..|w|] == w
  }

  /** A match holds every beginning of the rule's key. */
  lemma KeyFound(r: Rule, s: string, w: string)
    requires IsPrefix(w, Key(r))
    ensures MatchPrefix(r, s).Some? ==> Occurs(s, w)
  {
    if MatchPrefix(r, s).Some? {
      MatchKey(r, s);
      PrefixOccurs(s, Key(r), w);
    }
  }

  /** Where a word appears, so does each of its beginnings. */
  lemma PrefixOccurs(s: string, key: string, w: string)
    requires IsPrefix(w, key) && Occurs(s, key)
    ensures Occurs(s, w)
  {
    var j: nat :| LitAt(s, j, key);
    assert key == "" + w + key[|w|..];
    LitInside(s, j, "", w, key[|w|..]);
  }

  /** What appears in a suffix of `t` appears in `t`. */
  lemma OccursInSuffix(t: string, i: nat, w: string)
    requires i <= |t|
    ensures Occurs(t[i..], w) ==> Occurs(t, w)
  {
    if Occurs(t[i..], w) {
      var j: nat :| LitAt(t[i..], j, w);
      assert t[i + j..i + j + |w|] == t[i..][j..j + |w|];
      assert LitAt(t, i + j, w);
    }
  }

  /**
   * A rule leaves alone any text in which its key, or even just the
   * beginning of its key, appears nowhere.
   */
  lemma SubIdle(r: Rule, t: string, w: string)
    requires IsPrefix(w, Key(r)) && !Occurs(t, w)
    ensures Sub(r, t) == t
  {
    forall i | 0 <= i < |t|
      ensures MatchPrefix(r, t[i..]).None?
    {
      KeyFound(r, t[i..], w);
      OccursInSuffix(t, i, w);
    }
    SubNoMatch(r, t);
  }

  /** A rule leaves alone any text in which its key appears nowhere. */
  lemma KeyIdle(r: Rule, t: string)
    requires !Occurs(t, Key(r))
    ensures Sub(r, t) == t
  {
    assert Key(r)[..|Key(r)|] == Key(r);
    SubIdle(r, t, Key(r));
  }

  // ---------------------------------------------------------------------
  // Absence read off the characters of a text

  /** A word whose first character is not in `t` appears nowhere in it. */
  lemma AbsentChar(t: string, w: string)
    requires w != [] && w[0] !in t
    ensures !Occurs(t, w)
  {
    forall i: nat
      ensures !LitAt(t, i, w)
    {
      if i + |w| <= |t| {
        assert t[i..i + |w|][0] == t[i];
      }
    }
  }

  /**
   * The bare-name rule cannot fire within the first `n` characters of `t`
   * when the name's first character stands at none of the positions 1 to
   * `n`, where the name would have to begin.
   */
  lemma AutoLinkQuiet(t: string, name: string, target: string, n: nat)
    requires name != []
    requires forall i :: 1 <= i <= n && i < |t| ==> t[i] != name[0]
    ensures NoMatchBefore(AutoLink(name, target), t, n)
  {
    forall i | 0 <= i < n && i < |t|
      ensures MatchPrefix(AutoLink(name, target), t[i..]).None?
    {
      var s := t[i..];
      if |name| + 1 < |s| {
        assert s[1..|name| + 1][0] == s[1];
        assert t[i + 1] == s[1];
      }
    }
  }

  /**
   * A word appears nowhere when its first two characters stand together
   * only at `i0`, and the text differs from the word somewhere there.
   */
  lemma AbsentPairBut(t: string, w: string, a: char, b: char, i0: nat, k: nat)
    requires |w| >= 2 && w[0] == a && w[1] == b
    requires k < |w| && i0 + k < |t| && t[i0 + k] != w[k]
    requires forall i :: 0 <= i < |t| - 1 && i != i0 ==> !(t[i] == a && t[i + 1] == b)
    ensures !Occurs(t, w)
  {
    forall i: nat
      ensures !LitAt(t, i, w)
    {
      if i + |w| <= |t| {
        if i == i0 {
          assert t[i..i + |w|][k] == t[i + k];
        } else {
          assert t[i..i + |w|][0] == t[i] && t[i..i + |w|][1] == t[i + 1];
        }
      }
    }
  }

  /**
   * A rule is idle on a text where the first two characters of its key
   * stand together only at `i0`, and the text differs from the key there.
   */
  lemma IdleBut(r: Rule, t: string, a: char, b: char, i0: nat, k: nat)
    requires |Key(r)| >= 2 && Key(r)[0] == a && Key(r)[1] == b
    requires k < |Key(r)| && i0 + k < |t| && t[i0 + k] != Key(r)[k]
    requires forall i :: 0 <= i < |t| - 1 && i != i0 ==> !(t[i] == a && t[i + 1] == b)
    ensures Sub(r, t) == t
  {
    AbsentPairBut(t, Key(r), a, b, i0, k);
    KeyIdle(r, t);
  }
}
