/**
 * `fixupsyntax`: the Trac markup of a page is rewritten into MoinMoin
 * markup by an ordered pipeline of substitutions. First the four link
 * forms are normalised, then every entry of the name map rewrites the
 * links, bare names and include macros that mention the old name, and
 * last the fixed macros are translated.
 */
module Fixup {

  import opened Basics
  import opened Text
  import PageNames
  import opened Patterns
  import opened Substitution

  /**
   * The prefix as `%s` spells it in a replacement: the text of the prefix,
   * or `None` when no prefix was given.
   */
  function PrefixText(prefix: Option<string>): (p: string)
    ensures prefix.None? ==> p == "None"
    ensures prefix.Some? ==> p == prefix.value
  {
    match prefix
    case None => "None"
    case Some(s) => s
  }

  // ---------------------------------------------------------------------
  // Link normalisation

  /** The four link rewrites, in the order they run. */
  function NormaliseLinks(t: string): string
  {
    Sub(AnchorLink, Sub(UrlLink, Sub(WikiBareLink, Sub(WikiLink, t))))
  }

  // ---------------------------------------------------------------------
  // When a bare name is worth rewriting

  /** `[a-z]*[A-Z]` matches at the start of `s`. */
  predicate UpperAfterLowers(s: string)
    decreases |s|
  {
    s != [] && (IsUpper(s[0]) || (IsLower(s[0]) && UpperAfterLowers(s[1..])))
  }

  /** `re.match("^[A-Z][a-z]+[A-Z]", s)`: the name is CamelCase. */
  predicate StartsCamel(s: string)
  {
    |s| >= 2 && IsUpper(s[0]) && IsLower(s[1]) && UpperAfterLowers(s[2..])
  }

  lemma {:induction false} UpperAfterLowersMeaning(s: string)
    ensures UpperAfterLowers(s) <==>
              exists j :: 0 <= j < |s| && IsUpper(s[j]) && forall k :: 0 <= k < j ==> IsLower(s[k])
    decreases |s|
  {
    if s != [] {
      UpperAfterLowersMeaning(s[1..]);
      if UpperAfterLowers(s) && !IsUpper(s[0]) {
        var j :| 0 <= j < |s[1..]| && IsUpper(s[1..][j]) && forall k :: 0 <= k < j ==> IsLower(s[1..][k]);
        assert IsUpper(s[j + 1]) && forall k :: 0 <= k < j + 1 ==> IsLower(s[k]);
      }
      if exists j :: 0 <= j < |s| && IsUpper(s[j]) && forall k :: 0 <= k < j ==> IsLower(s[k]) {
        var j :| 0 <= j < |s| && IsUpper(s[j]) && forall k :: 0 <= k < j ==> IsLower(s[k]);
        if j > 0 {
          assert IsUpper(s[1..][j - 1]) && forall k :: 0 <= k < j - 1 ==> IsLower(s[1..][k]);
        }
      }
    }
  }

  /**
   * A CamelCase name is one capital, at least one lower-case letter, and
   * then a capital.
   */
  lemma StartsCamelMeaning(s: string)
    ensures StartsCamel(s) <==>
              exists j :: 2 <= j < |s| && IsUpper(s[0]) && IsUpper(s[j]) && forall k :: 1 <= k < j ==> IsLower(s[k])
  {
    if |s| >= 2 {
      UpperAfterLowersMeaning(s[2..]);
      if StartsCamel(s) {
        var j :| 0 <= j < |s[2..]| && IsUpper(s[2..][j]) && forall k :: 0 <= k < j ==> IsLower(s[2..][k]);
        assert IsUpper(s[j + 2]) && forall k :: 1 <= k < j + 2 ==> IsLower(s[k]);
      }
      if exists j :: 2 <= j < |s| && IsUpper(s[0]) && IsUpper(s[j]) && forall k :: 1 <= k < j ==> IsLower(s[k]) {
        var j :| 2 <= j < |s| && IsUpper(s[0]) && IsUpper(s[j]) && forall k :: 1 <= k < j ==> IsLower(s[k]);
        assert IsLower(s[1]);
        assert IsUpper(s[2..][j - 2]) && forall k :: 0 <= k < j - 2 ==> IsLower(s[2..][k]);
      }
    }
  }

  // ---------------------------------------------------------------------
  // The pretty label of a renamed page

  /** `re.sub("([A-Z])", " \\1", s)`: a space before every capital. */
  function SpaceCapitals(s: string): string
    decreases |s|
  {
    if s == [] then []
    else (if IsUpper(s[0]) then [' ', s[0]] else [s[0]]) + SpaceCapitals(s[1..])
  }

  /** `re.sub("^ ", "", s)`: one leading space is dropped. */
  function DropLeadingSpace(s: string): (r: string)
    ensures s != [] && s[0] == ' ' ==> s == [' '] + r
    ensures s == [] || s[0] != ' ' ==> r == s
  {
    if s != [] && s[0] == ' ' then s[1..] else s
  }

  /** What `/` becomes in a pretty label. */
  const Arrow: string := " \U{2192} "

  /** The label of a link to a renamed page: `OldPage` reads `Old Page`. */
  function Pretty(oldName: string): string
  {
    DropLeadingSpace(SpaceCapitals(PageNames.ReplaceChar(oldName, '/', Arrow)))
  }

  /** Removes each space that stands right before a capital. */
  function DropSpacesBeforeCapitals(s: string): string
    decreases |s|
  {
    if s == [] then []
    else if |s| >= 2 && s[0] == ' ' && IsUpper(s[1]) then [s[1]] + DropSpacesBeforeCapitals(s[2..])
    else [s[0]] + DropSpacesBeforeCapitals(s[1..])
  }

  /** A spaced text never begins with a capital: the capital has its space before it. */
  lemma SpaceCapitalsHead(s: string)
    requires s != []
    ensures SpaceCapitals(s) != [] && !IsUpper(SpaceCapitals(s)[0])
  {
  }

  /** The spaces put before the capitals are exactly the ones that can be taken out again. */
  lemma {:induction false} SpaceCapitalsUndone(s: string)
    ensures DropSpacesBeforeCapitals(SpaceCapitals(s)) == s
    decreases |s|
  {
    if s != [] {
      var rest := SpaceCapitals(s[1..]);
      SpaceCapitalsUndone(s[1..]);
      if IsUpper(s[0]) {
        assert SpaceCapitals(s) == [' ', s[0]] + rest;
        assert SpaceCapitals(s)[2..] == rest;
      } else {
        assert SpaceCapitals(s) == [s[0]] + rest;
        if rest != [] {
          SpaceCapitalsHead(s[1..]);
        }
        assert SpaceCapitals(s)[1..] == rest;
      }
      assert [s[0]] + s[1..] == s;
    }
  }

  /** A name that starts with a capital keeps its first letter and loses only the space put before it. */
  lemma PrettyOfCapitalised(oldName: string)
    requires oldName != [] && IsUpper(oldName[0])
    ensures Pretty(oldName) == [oldName[0]] + SpaceCapitals(PageNames.ReplaceChar(oldName[1..], '/', Arrow))
  {
    assert PageNames.ReplaceChar(oldName, '/', Arrow) == [oldName[0]] + PageNames.ReplaceChar(oldName[1..], '/', Arrow);
    var r := [oldName[0]] + PageNames.ReplaceChar(oldName[1..], '/', Arrow);
    assert r[0] == oldName[0] && r[1..] == PageNames.ReplaceChar(oldName[1..], '/', Arrow);
  }

  lemma {:induction false} SpaceCapitalsAppend(a: string, b: string)
    ensures SpaceCapitals(a + b) == SpaceCapitals(a) + SpaceCapitals(b)
    decreases |a|
  {
    if a != [] {
      assert (a + b)[0] == a[0] && (a + b)[1..] == a[1..] + b;
      SpaceCapitalsAppend(a[1..], b);
    } else {
      assert a + b == b;
    }
  }

  /** Letters that are all lower case. */
  predicate AllLower(s: string)
  {
    forall i :: 0 <= i < |s| ==> IsLower(s[i])
  }

  lemma {:induction false} SpaceCapitalsKeepsLower(s: string)
    requires AllLower(s)
    ensures SpaceCapitals(s) == s
    decreases |s|
  {
    if s != [] {
      SpaceCapitalsKeepsLower(s[1..]);
      assert [s[0]] + s[1..] == s;
    }
  }

  /**
   * A two-word CamelCase name is spelled out with a space between its
   * words: `OldPage` reads `Old Page`.
   */
  lemma PrettyTwoWords(x: char, a: string, y: char, b: string)
    requires IsUpper(x) && IsUpper(y) && AllLower(a) && AllLower(b)
    ensures Pretty([x] + a + [y] + b) == [x] + a + [' ', y] + b
  {
    var s := [x] + a + [y] + b;
    assert '/' !in s by {
      forall i | 0 <= i < |s|
        ensures s[i] != '/'
      {
        if 0 < i <= |a| {
          assert s[i] == a[i - 1];
        } else if i > |a| + 1 {
          assert s[i] == b[i - |a| - 2];
        }
      }
    }
    PageNames.ReplaceCharKeeps(s, '/', Arrow);
    SpaceCapitalsAppend([x] + a + [y], b);
    SpaceCapitalsAppend([x] + a, [y]);
    SpaceCapitalsAppend([x], a);
    SpaceCapitalsKeepsLower(a);
    SpaceCapitalsKeepsLower(b);
    assert SpaceCapitals([x]) == [' ', x];
    assert SpaceCapitals([y]) == [' ', y];
    SpacedTwoWords(x, a, y, b);
  }

  lemma SpacedTwoWords(x: char, a: string, y: char, b: string)
    ensures [' ', x] + a + [' ', y] + b == [' '] + ([x] + a + [' ', y] + b)
  {
  }

  /**
   * In a slashed name the slash becomes an arrow, and the space put
   * before the capital that follows doubles the space after the arrow:
   * `Foo/Bar` reads `Foo →  Bar`.
   */
  lemma PrettySlashed(x: char, a: string, y: char, b: string)
    requires IsUpper(x) && IsUpper(y) && AllLower(a) && AllLower(b)
    ensures Pretty([x] + a + "/" + [y] + b) == [x] + a + Arrow + [' ', y] + b
  {
    PageNames.ReplaceCharAppend([x] + a, "/" + [y] + b, '/', Arrow);
    PageNames.ReplaceCharAppend("/", [y] + b, '/', Arrow);
    assert ([x] + a) + ("/" + [y] + b) == [x] + a + "/" + [y] + b;
    AllLowerNoSlash([x] + a, a, x);
    AllLowerNoSlash([y] + b, b, y);
    PageNames.ReplaceCharKeeps([x] + a, '/', Arrow);
    PageNames.ReplaceCharKeeps([y] + b, '/', Arrow);
    assert PageNames.ReplaceChar("/", '/', Arrow) == Arrow;
    SpaceCapitalsAppend([x] + a, Arrow + ([y] + b));
    SpaceCapitalsAppend(Arrow, [y] + b);
    SpaceCapitalsAppend([x], a);
    SpaceCapitalsAppend([y], b);
    SpaceCapitalsKeepsLower(a);
    SpaceCapitalsKeepsLower(b);
    assert SpaceCapitals([x]) == [' ', x];
    assert SpaceCapitals([y]) == [' ', y];
    assert SpaceCapitals(Arrow) == Arrow;
    SpacedSlashed(x, a, y, b);
  }

  lemma AllLowerNoSlash(s: string, a: string, x: char)
    requires IsUpper(x) && AllLower(a) && s == [x] + a
    ensures '/' !in s
  {
    forall i | 0 <= i < |s|
      ensures s[i] != '/'
    {
      if i > 0 {
        assert s[i] == a[i - 1];
      }
    }
  }

  lemma SpacedSlashed(x: char, a: string, y: char, b: string)
    ensures [' ', x] + a + (Arrow + ([' ', y] + b)) == [' '] + ([x] + a + Arrow + [' ', y] + b)
  {
  }

  // ---------------------------------------------------------------------
  // Renaming one map entry, and all of them

  /** The four link forms that name the old page, in the order they are rewritten. */
  function NameLinks(t: string, oldName: string, target: string): string
  {
    Sub(NameAnchorLabelLink(oldName, target), Sub(NameAnchorLink(oldName, target),
      Sub(NameLabelLink(oldName, target), Sub(NameLink(oldName, target), t))))
  }

  /** Bare mentions of the old name, rewritten only for a slashed or CamelCase name. */
  function BareNames(t: string, oldName: string, target: string): string
  {
    if '/' in oldName || StartsCamel(oldName) then Sub(AutoLink(oldName, target), t) else t
  }

  /** Bare mentions of a slashed new target get the pretty label of the old name. */
  function PrettyLabels(t: string, oldName: string, newName: string, target: string): string
  {
    if '/' in newName then Sub(PrettyLink(target, Pretty(oldName)), t) else t
  }

  /** The rewrites one entry `(oldName, newName)` of the map makes, with the prefix spelled `p`. */
  function RenameOne(t: string, oldName: string, newName: string, p: string): string
  {
    var target := p + newName;
    Sub(IncludeMacro(oldName, target),
      PrettyLabels(BareNames(NameLinks(t, oldName, target), oldName, target), oldName, newName, target))
  }

  /** The entries of the map, in the order the loop visits them. */
  function RenameAll(t: string, entries: seq<(string, string)>, p: string): string
    decreases |entries|
  {
    if entries == [] then t
    else RenameAll(RenameOne(t, entries[0].0, entries[0].1, p), entries[1..], p)
  }

  /** Visiting the entries in two stretches is visiting them all. */
  lemma {:induction false} RenameAllAppend(t: string, a: seq<(string, string)>, b: seq<(string, string)>, p: string)
    ensures RenameAll(t, a + b, p) == RenameAll(RenameAll(t, a, p), b, p)
    decreases |a|
  {
    if a != [] {
      assert (a + b)[0] == a[0] && (a + b)[1..] == a[1..] + b;
      RenameAllAppend(RenameOne(t, a[0].0, a[0].1, p), a[1..], b, p);
    } else {
      assert a + b == b;
    }
  }

  // ---------------------------------------------------------------------
  // The fixed macros, and the whole pipeline

  /** The six macro translations, in the order they run. */
  function FixMacros(t: string): string
  {
    Sub(NavMacro, Sub(BreakMacro, Sub(OutlineLevelMacro, Sub(OutlineRangeMacro, Sub(OutlineMacro, Sub(ImageMacro, t))))))
  }

  /** `fixupsyntax(content)` with the map's entries in visiting order and the configured prefix. */
  function FixupSyntax(content: string, entries: seq<(string, string)>, prefix: Option<string>): string
  {
    FixMacros(RenameAll(NormaliseLinks(content), entries, PrefixText(prefix)))
  }

  // ---------------------------------------------------------------------
  // Text the pipeline leaves alone

  /** The rules that rewrite bracketed markup: all but the bare-name, pretty-label and include rules. */
  predicate IsBracketRule(r: Rule)
  {
    !(r.AutoLink? || r.PrettyLink? || r.IncludeMacro?)
  }

  /** A rule for bracketed markup leaves bracket-free text alone. */
  lemma BracketRuleIdle(r: Rule, t: string)
    requires IsBracketRule(r)
    requires '[' !in t
    ensures Sub(r, t) == t
  {
    assert IsPrefix("[", Key(r)) by {
      match r
      case NameLink(name, _) =>
        assert Key(r)[..1] == "[";
      case NameLabelLink(name, _) =>
        assert Key(r)[..1] == "[";
      case NameAnchorLink(name, _) =>
        assert Key(r)[..1] == "[";
      case NameAnchorLabelLink(name, _) =>
        assert Key(r)[..1] == "[";
      case _ =>
    }
    AbsentChar(t, "[");
    SubIdle(r, t, "[");
  }

  /** Without a bracket there is no link to normalise. */
  lemma NormaliseLinksIdle(t: string)
    requires '[' !in t
    ensures NormaliseLinks(t) == t
  {
    BracketRuleIdle(WikiLink, t);
    BracketRuleIdle(WikiBareLink, t);
    BracketRuleIdle(UrlLink, t);
    BracketRuleIdle(AnchorLink, t);
  }

  /** Without a bracket there is no macro to translate. */
  lemma FixMacrosIdle(t: string)
    requires '[' !in t
    ensures FixMacros(t) == t
  {
    BracketRuleIdle(ImageMacro, t);
    BracketRuleIdle(OutlineMacro, t);
    BracketRuleIdle(OutlineRangeMacro, t);
    BracketRuleIdle(OutlineLevelMacro, t);
    BracketRuleIdle(BreakMacro, t);
    BracketRuleIdle(NavMacro, t);
  }

  /**
   * An entry changes nothing in bracket-free text that mentions neither
   * the old name nor the new target.
   */
  lemma RenameOneIdle(t: string, oldName: string, newName: string, p: string)
    requires '[' !in t
    requires !Occurs(t, oldName) && !Occurs(t, p + newName)
    ensures RenameOne(t, oldName, newName, p) == t
  {
    var target := p + newName;
    NameLinksIdle(t, oldName, target);
    BareNamesIdle(t, oldName, target);
    PrettyLabelsIdle(t, oldName, newName, target);
    IncludeIdle(t, oldName, target);
  }

  lemma BareNamesIdle(t: string, oldName: string, target: string)
    requires !Occurs(t, oldName)
    ensures BareNames(t, oldName, target) == t
  {
    KeyIdle(AutoLink(oldName, target), t);
  }

  lemma PrettyLabelsIdle(t: string, oldName: string, newName: string, target: string)
    requires !Occurs(t, target)
    ensures PrettyLabels(t, oldName, newName, target) == t
  {
    KeyIdle(PrettyLink(target, Pretty(oldName)), t);
  }

  lemma NameLinksIdle(t: string, oldName: string, target: string)
    requires '[' !in t
    ensures NameLinks(t, oldName, target) == t
  {
    BracketRuleIdle(NameLink(oldName, target), t);
    BracketRuleIdle(NameLabelLink(oldName, target), t);
    BracketRuleIdle(NameAnchorLink(oldName, target), t);
    BracketRuleIdle(NameAnchorLabelLink(oldName, target), t);
  }

  lemma IncludeIdle(t: string, oldName: string, target: string)
    requires !Occurs(t, oldName)
    ensures Sub(IncludeMacro(oldName, target), t) == t
  {
    var key := "(" + oldName + ")]";
    if Occurs(t, key) {
      var i: nat :| LitAt(t, i, key);
      LitInside(t, i, "(", oldName, ")]");
    }
    KeyIdle(IncludeMacro(oldName, target), t);
  }

  lemma {:induction false} RenameAllIdle(t: string, entries: seq<(string, string)>, p: string)
    requires '[' !in t
    requires forall e :: e in entries ==> !Occurs(t, e.0) && !Occurs(t, p + e.1)
    ensures RenameAll(t, entries, p) == t
    decreases |entries|
  {
    if entries != [] {
      RenameOneIdle(t, entries[0].0, entries[0].1, p);
      RenameAllIdle(t, entries[1..], p);
    }
  }

  /**
   * Plain text, with no bracket and no mention of any old name or new
   * target of the map, comes out of the pipeline as it went in.
   */
  lemma FixupKeepsPlainText(content: string, entries: seq<(string, string)>, prefix: Option<string>)
    requires '[' !in content
    requires forall e :: e in entries ==> !Occurs(content, e.0) && !Occurs(content, PrefixText(prefix) + e.1)
    ensures FixupSyntax(content, entries, prefix) == content
  {
    NormaliseLinksIdle(content);
    RenameAllIdle(content, entries, PrefixText(prefix));
    FixMacrosIdle(content);
  }

  // ---------------------------------------------------------------------
  // Worked examples

  /**
   * A range outline macro on its own comes out of the macro translations
   * as a table of contents of the depth written after the dash:
   * `[[PageOutline(2-5)]]` becomes `<<TableOfContents(5)>>`.
   */
  lemma OutlineRangeRewrite(first: string, last: string, tail: string)
    requires IsNumber(first) && IsNumber(last) && IsOutlineTail(tail) && '[' !in tail
    ensures FixMacros("[[PageOutline(" + first + "-" + last + tail + ")]]") == "<<TableOfContents(" + last + ")>>"
  {
    OutlineRangeWorked("[[PageOutline(" + first + "-" + last + tail + ")]]", first, last, tail);
  }

  lemma OutlineRangeWorked(t: string, first: string, last: string, tail: string)
    requires IsNumber(first) && IsNumber(last) && IsOutlineTail(tail) && '[' !in tail
    requires t == "[[PageOutline(" + first + "-" + last + tail + ")]]"
    ensures FixMacros(t) == "<<TableOfContents(" + last + ")>>"
  {
    var out := "<<TableOfContents(" + last + ")>>";
    OutlineRangeChars(t, first, last, tail);
    OutlineRangeOthersIdle(t);
    OutlineRangeStep(t, first, last, tail, out);
    NumberOutput(out, last);
    FixMacrosTail(out);
  }

  lemma OutlineRangeOthersIdle(t: string)
    requires |t| > 13 && t[2] == 'P' && t[13] == '('
    requires forall i :: 0 <= i < |t| - 1 && i != 0 ==> !(t[i] == '[' && t[i + 1] == '[')
    ensures Sub(OutlineMacro, Sub(ImageMacro, t)) == t
  {
    MacroKeyChars();
    IdleBut(ImageMacro, t, '[', '[', 0, 2);
    IdleBut(OutlineMacro, t, '[', '[', 0, 13);
  }

  lemma MacroKeyChars()
    ensures |Key(ImageMacro)| == 8 && Key(ImageMacro)[0] == '[' && Key(ImageMacro)[1] == '[' && Key(ImageMacro)[2] == 'I'
    ensures |Key(OutlineMacro)| == 15 && Key(OutlineMacro)[0] == '[' && Key(OutlineMacro)[1] == '[' && Key(OutlineMacro)[13] == ']'
  {
  }

  lemma OutlineRangeStep(t: string, first: string, last: string, tail: string, out: string)
    requires IsNumber(first) && IsNumber(last) && IsOutlineTail(tail)
    requires t == "[[PageOutline(" + first + "-" + last + tail + ")]]"
    requires out == "<<TableOfContents(" + last + ")>>"
    ensures Sub(OutlineRangeMacro, t) == out
  {
    assert t + "" == t;
    assert |t| == |first| + |last| + |tail| + 18;
    OutlineRangeFound(t, first, last, tail, "");
    SubWhole(OutlineRangeMacro, t, out);
  }

  lemma OutlineRangeChars(t: string, first: string, last: string, tail: string)
    requires IsNumber(first) && IsNumber(last) && '[' !in tail
    requires t == "[[PageOutline(" + first + "-" + last + tail + ")]]"
    ensures forall i :: 0 <= i < |t| - 1 && i != 0 ==> !(t[i] == '[' && t[i + 1] == '[')
    ensures |t| > 13 && t[2] == 'P' && t[13] == '('
  {
    forall i | 1 < i < |t|
      ensures t[i] != '['
    {
      var a := 14 + |first|;
      var b := a + 1 + |last|;
      if 14 <= i < a {
        assert t[i] == first[i - 14];
      } else if a < i < b {
        assert t[i] == last[i - a - 1];
      } else if b <= i < b + |tail| {
        assert t[i] == tail[i - b];
      }
    }
  }

  lemma NumberOutput(out: string, n: string)
    requires IsNumber(n)
    requires out == "<<TableOfContents(" + n + ")>>"
    ensures '[' !in out
  {
    forall i | 0 <= i < |out|
      ensures out[i] != '['
    {
      if 18 <= i < 18 + |n| {
        assert out[i] == n[i - 18];
      }
    }
  }

  lemma FixMacrosTail(t: string)
    requires '[' !in t
    ensures Sub(NavMacro, Sub(BreakMacro, Sub(OutlineLevelMacro, t))) == t
  {
    BracketRuleIdle(OutlineLevelMacro, t);
    BracketRuleIdle(BreakMacro, t);
    BracketRuleIdle(NavMacro, t);
  }

  /** Characters a page name or link target must not hold for the worked rename below. */
  predicate PlainName(s: string)
  {
    '[' !in s && ']' !in s && '|' !in s && '(' !in s
  }

  /** Every character is one of `[A-Za-z0-9/]`, as in an ordinary page name. */
  predicate NameCharsOnly(s: string)
  {
    forall i :: 0 <= i < |s| ==> IsNameChar(s[i])
  }

  /**
   * The old name cannot be found again inside the target: either its first
   * character is absent from the target, or the target is an ordinary page
   * name other than the old name.
   */
  predicate LeadsApart(oldName: string, target: string)
    requires oldName != []
  {
    oldName[0] !in target || (NameCharsOnly(target) && oldName != target)
  }

  /**
   * For a slashed or CamelCase name the bare-name rewrite also reaches the
   * label `|old]` that the plain-link rewrite has just written, so a plain
   * link to a renamed page shows the new target as its label too:
   * `[[OldPage]]` with prefix `Wiki/` and new name `NewPage` ends as
   * `[[Wiki/NewPage|Wiki/NewPage]]`, not `[[Wiki/NewPage|OldPage]]`. A new
   * name holding `/` is left out: the pretty-label rewrite then wraps the
   * new label once more.
   */
  lemma RenameOneRelabelsLink(oldName: string, newName: string, p: string)
    requires '/' in oldName || StartsCamel(oldName)
    requires newName != [] && '/' !in newName
    requires oldName != [] && PlainName(oldName) && PlainName(p + newName)
    requires oldName[0] !in p + newName || (NameCharsOnly(p + newName) && oldName != p + newName)
    ensures var target := p + newName;
            RenameOne("[[" + oldName + "]]", oldName, newName, p) == "[[" + target + "|" + target + "]]"
  {
    RelabelWorked("[[" + oldName + "]]", oldName, newName, p, p + newName);
  }

  /**
   * A rename that keeps the old name's initial: `[[FooBar]]` with prefix
   * `Wiki/` and new name `FooBaz` ends as `[[Wiki/FooBaz|Wiki/FooBaz]]`.
   */
  lemma RenameOneRelabelsExample(oldName: string, newName: string, p: string)
    requires oldName == "FooBar" && newName == "FooBaz" && p == "Wiki/"
    ensures RenameOne("[[" + oldName + "]]", oldName, newName, p) == "[[" + p + newName + "|" + p + newName + "]]"
  {
    ExampleNames(oldName, newName, p);
    RenameOneRelabelsLink(oldName, newName, p);
  }

  lemma ExampleNames(oldName: string, newName: string, p: string)
    requires oldName == "FooBar" && newName == "FooBaz" && p == "Wiki/"
    ensures StartsCamel(oldName) && newName != [] && '/' !in newName && oldName != []
    ensures PlainName(oldName) && PlainName(p + newName)
    ensures oldName[0] in p + newName && NameCharsOnly(p + newName) && oldName != p + newName
  {
    var t := p + newName;
    assert t == "Wiki/FooBaz";
    assert oldName[2..] == "oBar" && oldName[2..][1..] == "Bar";
    assert oldName != t by { assert oldName[0] != t[0]; }
    assert t[5] == oldName[0];
  }

  lemma RelabelWorked(t: string, oldName: string, newName: string, p: string, target: string)
    requires '/' in oldName || StartsCamel(oldName)
    requires '/' !in newName
    requires oldName != [] && PlainName(oldName) && PlainName(target) && target != []
    requires LeadsApart(oldName, target)
    requires t == "[[" + oldName + "]]" && target == p + newName
    ensures RenameOne(t, oldName, newName, p) == "[[" + target + "|" + target + "]]"
  {
    var t1 := "[[" + target + "|" + oldName + "]]";
    var t5 := "[[" + target + "|" + target + "]]";
    NameLinksOnPlainLink(oldName, target);
    BareNamesOnLabel(t1, oldName, target);
    IncludeAbsent(t5, oldName, target);
  }

  lemma NameLinksOnPlainLink(oldName: string, target: string)
    requires oldName != [] && target != [] && LeadsApart(oldName, target)
    requires '[' !in oldName && '|' !in oldName && '[' !in target
    ensures NameLinks("[[" + oldName + "]]", oldName, target) == "[[" + target + "|" + oldName + "]]"
  {
    var t1 := "[[" + target + "|" + oldName + "]]";
    PlainLinkStep("[[" + oldName + "]]", oldName, target);
    if oldName[0] !in target {
      LabelledLinksIdle(t1, oldName, target);
    } else {
      LabelledLinksIdleNamed(t1, oldName, target);
    }
  }

  lemma BareNamesOnLabel(t: string, oldName: string, target: string)
    requires '/' in oldName || StartsCamel(oldName)
    requires oldName != [] && PlainName(oldName) && PlainName(target)
    requires LeadsApart(oldName, target)
    requires t == "[[" + target + "|" + oldName + "]]"
    ensures BareNames(t, oldName, target) == "[[" + target + "|" + target + "]]"
  {
    RelabelStep(t, oldName, target);
  }

  lemma IncludeAbsent(t: string, oldName: string, target: string)
    requires t == "[[" + target + "|" + target + "]]" && '(' !in target
    ensures Sub(IncludeMacro(oldName, target), t) == t
  {
    assert '(' !in t;
    assert Key(IncludeMacro(oldName, target))[0] == '(';
    AbsentChar(t, Key(IncludeMacro(oldName, target)));
    KeyIdle(IncludeMacro(oldName, target), t);
  }

  lemma PlainLinkStep(t: string, oldName: string, target: string)
    requires t == "[[" + oldName + "]]"
    ensures Sub(NameLink(oldName, target), t) == "[[" + target + "|" + oldName + "]]"
  {
    assert t + "" == t;
    NameLinkMatches(oldName, target, "");
    SubWhole(NameLink(oldName, target), t, "[[" + target + "|" + oldName + "]]");
  }

  lemma NameKeyChars(oldName: string, target: string)
    requires oldName != []
    ensures var k := Key(NameLabelLink(oldName, target)); |k| > 2 && k[0] == '[' && k[1] == '[' && k[2] == oldName[0]
    ensures var k := Key(NameAnchorLink(oldName, target)); |k| > 2 && k[0] == '[' && k[1] == '[' && k[2] == oldName[0]
    ensures var k := Key(NameAnchorLabelLink(oldName, target)); |k| > 2 && k[0] == '[' && k[1] == '[' && k[2] == oldName[0]
  {
  }

  /** The labelled and anchored forms do not fire on the link the plain-link rewrite wrote. */
  lemma LabelledLinksIdle(t: string, oldName: string, target: string)
    requires oldName != [] && target != [] && target[0] != oldName[0]
    requires '[' !in oldName && '[' !in target
    requires t == "[[" + target + "|" + oldName + "]]"
    ensures Sub(NameAnchorLabelLink(oldName, target), Sub(NameAnchorLink(oldName, target),
              Sub(NameLabelLink(oldName, target), t))) == t
  {
    BracketsAtStart(t, target, oldName);
    NameKeyChars(oldName, target);
    IdleBut(NameLabelLink(oldName, target), t, '[', '[', 0, 2);
    IdleBut(NameAnchorLink(oldName, target), t, '[', '[', 0, 2);
    IdleBut(NameAnchorLabelLink(oldName, target), t, '[', '[', 0, 2);
  }

  /** The same for a target of name characters other than the old name. */
  lemma LabelledLinksIdleNamed(t: string, oldName: string, target: string)
    requires oldName != [] && target != [] && NameCharsOnly(target) && oldName != target
    requires '[' !in oldName && '|' !in oldName && '[' !in target
    requires t == "[[" + target + "|" + oldName + "]]"
    ensures Sub(NameAnchorLabelLink(oldName, target), Sub(NameAnchorLink(oldName, target),
              Sub(NameLabelLink(oldName, target), t))) == t
  {
    BracketsAtStart(t, target, oldName);
    var k := Differ(t, oldName, target);
    KeyDiffers(t, Key(NameLabelLink(oldName, target)), oldName, '|', k);
    KeyDiffers(t, Key(NameAnchorLink(oldName, target)), oldName, '#', k);
    KeyDiffers(t, Key(NameAnchorLabelLink(oldName, target)), oldName, '#', k);
    NameKeyChars(oldName, target);
    IdleBut(NameLabelLink(oldName, target), t, '[', '[', 0, k);
    IdleBut(NameAnchorLink(oldName, target), t, '[', '[', 0, k);
    IdleBut(NameAnchorLabelLink(oldName, target), t, '[', '[', 0, k);
  }

  lemma KeyDiffers(t: string, w: string, oldName: string, c: char, k: nat)
    requires w == "[[" + oldName + [c] && (c == '|' || c == '#')
    requires 2 <= k <= 2 + |oldName| && k < |t|
    requires k < 2 + |oldName| ==> t[k] != oldName[k - 2]
    requires k == 2 + |oldName| ==> t[k] != '|' && t[k] != '#'
    ensures k < |w| && t[k] != w[k]
  {
    if k < 2 + |oldName| {
      assert w[k] == oldName[k - 2];
    } else {
      assert w[k] == c;
    }
  }

  /**
   * Where `[[target|old]]` departs from `[[old|` and from `[[old#`: the text
   * after `[[` cannot be the old name followed by `|` or `#`.
   */
  lemma Differ(t: string, oldName: string, target: string) returns (k: nat)
    requires oldName != [] && target != [] && NameCharsOnly(target) && oldName != target
    requires '|' !in oldName
    requires t == "[[" + target + "|" + oldName + "]]"
    ensures 2 <= k <= 2 + |oldName| && k < |t|
    ensures k < 2 + |oldName| ==> t[k] != oldName[k - 2]
    ensures k == 2 + |oldName| ==> t[k] != '|' && t[k] != '#'
  {
    if |oldName| < |target| {
      if target[..|oldName|] == oldName {
        k := 2 + |oldName|;
        assert t[k] == target[|oldName|];
        assert IsNameChar(target[|oldName|]);
      } else {
        var j :| 0 <= j < |oldName| && target[j] != oldName[j];
        k := 2 + j;
        assert t[k] == target[j];
      }
    } else if |oldName| == |target| {
      var j :| 0 <= j < |oldName| && target[j] != oldName[j];
      k := 2 + j;
      assert t[k] == target[j];
    } else {
      if target == oldName[..|target|] {
        k := 2 + |target|;
        assert t[k] == '|';
        assert oldName[k - 2] in oldName;
      } else {
        var j :| 0 <= j < |target| && target[j] != oldName[j];
        k := 2 + j;
        assert t[k] == target[j];
      }
    }
  }

  lemma BracketsAtStart(t: string, a: string, b: string)
    requires '[' !in a && '[' !in b && a != []
    requires t == "[[" + a + "|" + b + "]]"
    ensures forall i :: 0 <= i < |t| - 1 && i != 0 ==> !(t[i] == '[' && t[i + 1] == '[')
    ensures |t| > 2 && t[2] == a[0]
  {
    forall i | 1 < i < |t|
      ensures t[i] != '['
    {
      if i < 2 + |a| {
        assert t[i] == a[i - 2];
      } else if 2 + |a| < i < 3 + |a| + |b| {
        assert t[i] == b[i - 3 - |a|];
      }
    }
  }

  /** The bare-name rewrite finds the old name as the label, between `|` and `]`. */
  lemma RelabelStep(t: string, oldName: string, target: string)
    requires oldName != [] && PlainName(oldName) && PlainName(target)
    requires LeadsApart(oldName, target)
    requires t == "[[" + target + "|" + oldName + "]]"
    ensures Sub(AutoLink(oldName, target), t) == "[[" + target + "|" + target + "]]"
  {
    var u := "[[" + target;
    var out := ['|'] + target + [']'];
    if oldName[0] !in target {
      RelabelQuiet(t, oldName, target);
    } else {
      RelabelQuietNamed(t, oldName, target);
    }
    RelabelFirst(t, oldName, target, u, ['|'] + oldName + [']'], out, "]");
    RelabelledText(target);
  }

  lemma RelabelledText(target: string)
    ensures ("[[" + target) + (['|'] + target + [']']) + "]" == "[[" + target + "|" + target + "]]"
  {
  }

  lemma RelabelFirst(t: string, oldName: string, target: string, u: string, m: string, out: string, rest: string)
    requires oldName != [] && oldName[0] != ']'
    requires u == "[[" + target && m == ['|'] + oldName + [']'] && out == ['|'] + target + [']'] && rest == "]"
    requires t == "[[" + target + "|" + oldName + "]]"
    requires NoMatchBefore(AutoLink(oldName, target), t, |target| + 2)
    ensures Sub(AutoLink(oldName, target), t) == u + out + rest
  {
    var r := AutoLink(oldName, target);
    assert t == u + m + rest;
    AutoLinkMatches(oldName, target, '|', ']', rest);
    SubFirstMatch(r, u, m, rest, out);
    AbsentChar(rest, oldName);
    KeyIdle(r, rest);
  }

  lemma RelabelQuiet(t: string, oldName: string, target: string)
    requires oldName != [] && oldName[0] != '[' && oldName[0] != '|' && oldName[0] !in target
    requires t == "[[" + target + "|" + oldName + "]]"
    ensures NoMatchBefore(AutoLink(oldName, target), t, |target| + 2)
  {
    forall i | 1 <= i <= |target| + 2 && i < |t|
      ensures t[i] != oldName[0]
    {
      if 2 <= i < |target| + 2 {
        assert t[i] == target[i - 2];
      }
    }
    AutoLinkQuiet(t, oldName, target, |target| + 2);
  }

  /** Before the label, no flanked old name is found in a target of name characters. */
  lemma RelabelQuietNamed(t: string, oldName: string, target: string)
    requires oldName != [] && PlainName(oldName) && NameCharsOnly(target) && oldName != target
    requires t == "[[" + target + "|" + oldName + "]]"
    ensures NoMatchBefore(AutoLink(oldName, target), t, |target| + 2)
  {
    forall i | 0 <= i < |target| + 2 && i < |t|
      ensures MatchPrefix(AutoLink(oldName, target), t[i..]).None?
    {
      var s := t[i..];
      var k := |oldName| + 1;
      if i == 0 {
        assert s[1..k][0] == '[' != oldName[0];
      } else if i == 1 {
        if |oldName| < |target| {
          assert s[k] == target[|oldName|];
          assert IsNameChar(s[k]);
        } else if |oldName| == |target| {
          assert s[1..k] == t[2..2 + |target|] == target;
        } else {
          assert s[1..k][|target|] == t[2 + |target|] == '|';
          assert oldName[|target|] in oldName;
        }
      } else {
        assert s[0] == target[i - 2];
      }
    }
  }
}
