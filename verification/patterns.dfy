/**
 * One matcher per `re.sub` pattern of `fixupsyntax` (trac2moin.py, lines
 * 135-170). A matcher looks at the text from the current scan position on
 * and, when the pattern matches there, says how many characters the match
 * consumes and what replaces them. Page names and the prefix are spliced
 * into the patterns as literal text.
 *
 * Every pattern is a chain of literals and greedy character-class runs
 * whose classes exclude the character that follows them, so the regular
 * expression engine never has to give characters back: the first greedy
 * attempt is the only one that can succeed, and a matcher makes just that
 * attempt. The one real alternative, the optional `s` of `https?`, and the
 * `TracNav|TracInclude|Include` choice are tried in the engine's order.
 *
 * For each rule two lemmas pin the matcher to the pattern it stands for:
 * `...Matches` says that every text of the pattern's shape, followed by
 * anything at all, is matched with the stated replacement; `...Only` says
 * that whatever is matched has that shape.
 */
module Patterns {

  import opened Basics
  import opened Text

  /** A match: the number of characters consumed and their replacement. */
  datatype Hit = Hit(len: nat, out: string)

  /** The rewrite rules, in the order `fixupsyntax` applies them. */
  datatype Rule =
    | WikiLink                                          // line 137
    | WikiBareLink                                      // line 138
    | UrlLink                                           // line 139
    | AnchorLink                                        // line 140
    | NameLink(name: string, target: string)            // line 144
    | NameLabelLink(name: string, target: string)       // line 145
    | NameAnchorLink(name: string, target: string)      // line 148
    | NameAnchorLabelLink(name: string, target: string) // line 149
    | AutoLink(name: string, target: string)            // line 153
    | PrettyLink(target: string, pretty: string)        // line 158
    | IncludeMacro(name: string, target: string)        // line 161
    | ImageMacro                                        // line 164
    | OutlineMacro                                      // line 165
    | OutlineRangeMacro                                 // line 166
    | OutlineLevelMacro                                 // line 167
    | BreakMacro                                        // line 168
    | NavMacro                                          // line 169

  /** The match of rule `r` at the start of `t`, if any. */
  function MatchPrefix(r: Rule, t: string): (h: Option<Hit>)
    ensures h.Some? ==> 0 < h.value.len <= |t|
  {
    match r
    case WikiLink => LabelledLink(t, "[wiki:", 6)
    case WikiBareLink => MatchWikiBareLink(t)
    case UrlLink => MatchUrlLink(t)
    case AnchorLink => LabelledLink(t, "[#", 1)
    case NameLink(name, target) => MatchNameLink(t, name, target)
    case NameLabelLink(name, target) => MatchNameLabelLink(t, name, target)
    case NameAnchorLink(name, target) => MatchNameAnchorLink(t, name, target)
    case NameAnchorLabelLink(name, target) => MatchNameAnchorLabelLink(t, name, target)
    case AutoLink(name, target) => MatchAutoLink(t, name, target)
    case PrettyLink(target, pretty) => MatchPrettyLink(t, target, pretty)
    case IncludeMacro(name, target) => MatchIncludeMacro(t, name, target)
    case ImageMacro => MatchImageMacro(t)
    case OutlineMacro => MatchLiteral(t, "[[PageOutline]]", "<<TableOfContents>>")
    case OutlineRangeMacro => MatchOutlineRangeMacro(t)
    case OutlineLevelMacro => MatchOutlineLevelMacro(t)
    case BreakMacro => MatchLiteral(t, "[[BR]]", "<<BR>>")
    case NavMacro => MatchNavMacro(t)
  }

  /** Cutting a prefix of `t` in two. */
  lemma Cut(t: string, i: nat, j: nat)
    requires i <= j <= |t|
    ensures t[..j] == t[..i] + t[i..j]
  {
  }

  /** Cutting the last character off a prefix of `t`. */
  lemma CutChar(t: string, i: nat)
    requires i < |t|
    ensures t[..i + 1] == t[..i] + [t[i]]
  {
  }

  /** A literal is not at `i` once one of its characters differs. */
  lemma Mismatch(t: string, i: nat, w: string, k: nat)
    requires k < |w| && i + k < |t| && t[i + k] != w[k]
    ensures !LitAt(t, i, w)
  {
  }

  /** A target: `[^\] ]+`. */
  ghost predicate IsTarget(s: string) { s != [] && All(s, TargetChar) }

  /** A caption: `[^\]]+`. */
  ghost predicate IsLabel(s: string) { s != [] && All(s, LabelChar) }

  // ---------------------------------------------------------------------
  // Link normalisation, lines 137-140

  /**
   * `OPENER([^\] ]+) ([^\]]+)\]`, written out as `[[g1|g2]]` where group
   * one starts `keep` characters into the opener: lines 137, 139 and 140.
   */
  function LabelledLink(t: string, opener: string, keep: nat): (h: Option<Hit>)
    requires keep <= |opener|
    ensures h.Some? ==> |opener| < h.value.len <= |t|
  {
    var k := |opener|;
    var b := RunEnd(t, k, TargetChar);
    var e := RunEnd(t, b + 1, LabelChar);
    if LitAt(t, 0, opener) && k < b && CharAt(t, b, ' ') && b + 1 < e && CharAt(t, e, ']') then
      Some(Hit(e + 1, "[[" + opener[keep..] + t[k..b] + "|" + t[b + 1..e] + "]]"))
    else None
  }

  /** A labelled link of the shape `OPENER g1 g2]`, in positions. */
  lemma LabelledLinkAt(t: string, opener: string, keep: nat, b: nat, e: nat)
    requires keep <= |opener| < b < e < |t|
    requires LitAt(t, 0, opener) && IsTarget(t[|opener|..b]) && t[b] == ' '
    requires IsLabel(t[b + 1..e]) && t[e] == ']'
    ensures LabelledLink(t, opener, keep) ==
              Some(Hit(e + 1, "[[" + opener[keep..] + t[|opener|..b] + "|" + t[b + 1..e] + "]]"))
  {
    RunEndAt(t, |opener|, b, TargetChar);
    RunEndAt(t, b + 1, e, LabelChar);
  }

  lemma LabelledLinkMatches(opener: string, keep: nat, g1: string, g2: string, rest: string)
    requires keep <= |opener|
    requires IsTarget(g1) && IsLabel(g2)
    ensures LabelledLink(opener + g1 + " " + g2 + "]" + rest, opener, keep) ==
              Some(Hit(|opener| + |g1| + |g2| + 2, "[[" + opener[keep..] + g1 + "|" + g2 + "]]"))
  {
    var t := opener + g1 + " " + g2 + "]" + rest;
    var b := |opener| + |g1|;
    var e := b + 1 + |g2|;
    assert t[..|opener|] == opener;
    assert t[|opener|..b] == g1;
    assert t[b] == ' ';
    assert t[b + 1..e] == g2;
    assert t[e] == ']';
    LabelledLinkAt(t, opener, keep, b, e);
  }

  lemma LabelledLinkOnly(t: string, opener: string, keep: nat)
    requires keep <= |opener|
    requires LabelledLink(t, opener, keep).Some?
    ensures var h := LabelledLink(t, opener, keep).value;
            exists g1, g2 :: IsTarget(g1) && IsLabel(g2) &&
              t[..h.len] == opener + g1 + " " + g2 + "]" &&
              h.out == "[[" + opener[keep..] + g1 + "|" + g2 + "]]"
  {
    var k := |opener|;
    var b := RunEnd(t, k, TargetChar);
    var e := RunEnd(t, b + 1, LabelChar);
    RunEndFacts(t, k, TargetChar);
    RunEndFacts(t, b + 1, LabelChar);
    LabelledLinkSplit(t, opener, b, e);
    assert LabelledLink(t, opener, keep).value == Hit(e + 1, "[[" + opener[keep..] + t[k..b] + "|" + t[b + 1..e] + "]]");
    assert IsTarget(t[k..b]) && IsLabel(t[b + 1..e]);
  }

  /** The matched text of a labelled link, cut at the space and at the closing bracket. */
  lemma LabelledLinkSplit(t: string, opener: string, b: nat, e: nat)
    requires |opener| <= b < e < |t|
    requires LitAt(t, 0, opener) && t[b] == ' ' && t[e] == ']'
    ensures t[..e + 1] == opener + t[|opener|..b] + " " + t[b + 1..e] + "]"
  {
    var k := |opener|;
    CutChar(t, e);
    Cut(t, b + 1, e);
    CutChar(t, b);
    Cut(t, k, b);
    assert [t[b]] == " " && [t[e]] == "]";
    assert t[..k] == opener;
  }

  /** A labelled link whose target runs into `]` has no label and does not match. */
  lemma LabelledLinkStops(t: string, opener: string, keep: nat, b: nat)
    requires keep <= |opener| <= b < |t|
    requires All(t[|opener|..b], TargetChar) && t[b] == ']'
    ensures LabelledLink(t, opener, keep).None?
  {
    RunEndAt(t, |opener|, b, TargetChar);
  }


  /** `[wiki:T L]` becomes `[[T|L]]`. */
  lemma WikiLinkMatches(target: string, caption: string, rest: string)
    requires IsTarget(target) && IsLabel(caption)
    ensures MatchPrefix(WikiLink, "[wiki:" + target + " " + caption + "]" + rest) ==
              Some(Hit(|target| + |caption| + 8, "[[" + target + "|" + caption + "]]"))
  {
    LabelledLinkMatches("[wiki:", 6, target, caption, rest);
    assert "[[" + "[wiki:"[6..] == "[[";
  }

  lemma WikiLinkOnly(t: string)
    requires MatchPrefix(WikiLink, t).Some?
    ensures var h := MatchPrefix(WikiLink, t).value;
            exists target, caption :: IsTarget(target) && IsLabel(caption) &&
              t[..h.len] == "[wiki:" + target + " " + caption + "]" &&
              h.out == "[[" + target + "|" + caption + "]]"
  {
    LabelledLinkOnly(t, "[wiki:", 6);
    assert forall g: string :: "[wiki:"[6..] + g == g;
  }

  /** `\[wiki:([^\] ]+)\]` → `[[\1]]` */
  function MatchWikiBareLink(t: string): (h: Option<Hit>)
    ensures h.Some? ==> 0 < h.value.len <= |t|
  {
    var e := RunEnd(t, 6, TargetChar);
    if LitAt(t, 0, "[wiki:") && 6 < e && CharAt(t, e, ']') then Some(Hit(e + 1, "[[" + t[6..e] + "]]"))
    else None
  }

  /** `[wiki:T]` becomes `[[T]]`. */
  lemma WikiBareLinkMatches(target: string, rest: string)
    requires IsTarget(target)
    ensures MatchPrefix(WikiBareLink, "[wiki:" + target + "]" + rest) ==
              Some(Hit(|target| + 7, "[[" + target + "]]"))
  {
    var t := "[wiki:" + target + "]" + rest;
    var e := 6 + |target|;
    assert t[..6] == "[wiki:";
    assert t[6..e] == target;
    assert t[e] == ']';
    RunEndAt(t, 6, e, TargetChar);
  }

  lemma WikiBareLinkOnly(t: string)
    requires MatchPrefix(WikiBareLink, t).Some?
    ensures var h := MatchPrefix(WikiBareLink, t).value;
            exists target :: IsTarget(target) &&
              t[..h.len] == "[wiki:" + target + "]" && h.out == "[[" + target + "]]"
  {
    var e := RunEnd(t, 6, TargetChar);
    RunEndFacts(t, 6, TargetChar);
    CutChar(t, e);
    Cut(t, 6, e);
    assert [t[e]] == "]";
  }

  /** `\[(https?://[^\] ]+) ([^\]]+)\]` → `[[\1|\2]]`: `https` is tried before `http`. */
  function MatchUrlLink(t: string): (h: Option<Hit>)
    ensures h.Some? ==> 0 < h.value.len <= |t|
  {
    match LabelledLink(t, "[https://", 1)
    case Some(h) => Some(h)
    case None => LabelledLink(t, "[http://", 1)
  }

  ghost predicate IsScheme(scheme: string) { scheme == "http://" || scheme == "https://" }

  /** `[http://U L]` and `[https://U L]` become `[[http://U|L]]` and `[[https://U|L]]`. */
  lemma UrlLinkMatches(scheme: string, url: string, caption: string, rest: string)
    requires IsScheme(scheme) && IsTarget(url) && IsLabel(caption)
    ensures MatchPrefix(UrlLink, "[" + scheme + url + " " + caption + "]" + rest) ==
              Some(Hit(|scheme| + |url| + |caption| + 3, "[[" + scheme + url + "|" + caption + "]]"))
  {
    UrlFound("[" + scheme + url + " " + caption + "]" + rest, scheme, url, caption, rest);
  }

  lemma UrlFound(t: string, scheme: string, url: string, caption: string, rest: string)
    requires IsScheme(scheme) && IsTarget(url) && IsLabel(caption)
    requires t == "[" + scheme + url + " " + caption + "]" + rest
    ensures MatchUrlLink(t) == Some(Hit(|scheme| + |url| + |caption| + 3, "[[" + scheme + url + "|" + caption + "]]"))
  {
    var h := Hit(|scheme| + |url| + |caption| + 3, "[[" + scheme + url + "|" + caption + "]]");
    LabelledLinkMatches("[" + scheme, 1, url, caption, rest);
    assert ("[" + scheme)[1..] == scheme;
    assert LabelledLink(t, "[" + scheme, 1) == Some(h);
    if scheme == "http://" {
      assert t[5] == ':';
      Mismatch(t, 0, "[https://", 5);
    }
    UrlAt(t, "[" + scheme, h);
  }

  /** The `https` alternative is tried first; `http` is reached only when it fails. */
  lemma UrlAt(t: string, opener: string, h: Hit)
    requires opener == "[https://" || opener == "[http://"
    requires LabelledLink(t, opener, 1) == Some(h)
    requires opener == "[http://" ==> !LitAt(t, 0, "[https://")
    ensures MatchUrlLink(t) == Some(h)
  {
  }


  lemma UrlLinkOnly(t: string)
    requires MatchPrefix(UrlLink, t).Some?
    ensures var h := MatchPrefix(UrlLink, t).value;
            exists scheme, url, caption :: IsScheme(scheme) && IsTarget(url) && IsLabel(caption) &&
              t[..h.len] == "[" + scheme + url + " " + caption + "]" &&
              h.out == "[[" + scheme + url + "|" + caption + "]]"
  {
    if LabelledLink(t, "[https://", 1).Some? {
      LabelledLinkOnly(t, "[https://", 1);
      assert "[https://" == "[" + "https://" && "[https://"[1..] == "https://";
    } else {
      LabelledLinkOnly(t, "[http://", 1);
      assert "[http://" == "[" + "http://" && "[http://"[1..] == "http://";
    }
  }

  /** A bracketed URL with no caption is left alone by this rule. */
  lemma UrlWithoutCaptionKept(scheme: string, url: string, rest: string)
    requires IsScheme(scheme) && IsTarget(url)
    ensures MatchPrefix(UrlLink, "[" + scheme + url + "]" + rest).None?
  {
    UrlNoCaption("[" + scheme + url + "]" + rest, scheme, url, rest);
  }

  lemma UrlNoCaption(t: string, scheme: string, url: string, rest: string)
    requires IsScheme(scheme) && IsTarget(url) && t == "[" + scheme + url + "]" + rest
    ensures MatchUrlLink(t).None?
  {
    var k := |scheme| + 1;
    var b := k + |url|;
    assert t[k..b] == url;
    assert t[b] == ']';
    if scheme == "http://" {
      assert t[5] == ':';
      Mismatch(t, 0, "[https://", 5);
      LabelledLinkStops(t, "[http://", 1, b);
    } else {
      assert t[5] == 's';
      LabelledLinkStops(t, "[https://", 1, b);
      Mismatch(t, 0, "[http://", 5);
    }
  }


  /** `[#A L]` becomes `[[#A|L]]`. */
  lemma AnchorLinkMatches(anchor: string, caption: string, rest: string)
    requires IsTarget(anchor) && IsLabel(caption)
    ensures MatchPrefix(AnchorLink, "[#" + anchor + " " + caption + "]" + rest) ==
              Some(Hit(|anchor| + |caption| + 4, "[[#" + anchor + "|" + caption + "]]"))
  {
    LabelledLinkMatches("[#", 1, anchor, caption, rest);
    assert "[[" + "[#"[1..] + anchor == "[[#" + anchor;
  }

  lemma AnchorLinkOnly(t: string)
    requires MatchPrefix(AnchorLink, t).Some?
    ensures var h := MatchPrefix(AnchorLink, t).value;
            exists anchor, caption :: IsTarget(anchor) && IsLabel(caption) &&
              t[..h.len] == "[#" + anchor + " " + caption + "]" &&
              h.out == "[[#" + anchor + "|" + caption + "]]"
  {
    LabelledLinkOnly(t, "[#", 1);
    assert forall g: string :: "[[" + "[#"[1..] + g == "[[#" + g;
  }

  // ---------------------------------------------------------------------
  // Per-name rewrites, lines 144-161

  /** `\[\[OLD\]\]` → `[[TARGET|OLD]]` */
  function MatchNameLink(t: string, name: string, target: string): (h: Option<Hit>)
    ensures h.Some? ==> 0 < h.value.len <= |t|
  {
    if LitAt(t, 0, "[[" + name + "]]") then Some(Hit(|name| + 4, "[[" + target + "|" + name + "]]"))
    else None
  }

  /** `[[old]]` becomes `[[target|old]]`. */
  lemma NameLinkMatches(name: string, target: string, rest: string)
    ensures MatchPrefix(NameLink(name, target), "[[" + name + "]]" + rest) ==
              Some(Hit(|name| + 4, "[[" + target + "|" + name + "]]"))
  {
    var o := "[[" + name + "]]";
    assert (o + rest)[..|o|] == o;
  }

  lemma NameLinkOnly(t: string, name: string, target: string)
    requires MatchPrefix(NameLink(name, target), t).Some?
    ensures var h := MatchPrefix(NameLink(name, target), t).value;
            t[..h.len] == "[[" + name + "]]" && h.out == "[[" + target + "|" + name + "]]"
  {
  }

  /** `\[\[OLD\|([^\]]+)\]\]` → `[[TARGET|\1]]` */
  function MatchNameLabelLink(t: string, name: string, target: string): (h: Option<Hit>)
    ensures h.Some? ==> 0 < h.value.len <= |t|
  {
    var k := |name| + 3;
    var e := RunEnd(t, k, LabelChar);
    if LitAt(t, 0, "[[" + name + "|") && k < e && LitAt(t, e, "]]") then
      Some(Hit(e + 2, "[[" + target + "|" + t[k..e] + "]]"))
    else None
  }

  /** `[[old|L]]` becomes `[[target|L]]`. */
  lemma NameLabelLinkMatches(name: string, target: string, caption: string, rest: string)
    requires IsLabel(caption)
    ensures MatchPrefix(NameLabelLink(name, target), "[[" + name + "|" + caption + "]]" + rest) ==
              Some(Hit(|name| + |caption| + 5, "[[" + target + "|" + caption + "]]"))
  {
    var o := "[[" + name + "|";
    var t := o + caption + "]]" + rest;
    var e := |o| + |caption|;
    assert t[..|o|] == o;
    assert t[|o|..e] == caption;
    assert t[e..e + 2] == "]]";
    RunEndAt(t, |o|, e, LabelChar);
  }

  lemma NameLabelLinkOnly(t: string, name: string, target: string)
    requires MatchPrefix(NameLabelLink(name, target), t).Some?
    ensures var h := MatchPrefix(NameLabelLink(name, target), t).value;
            exists caption :: IsLabel(caption) &&
              t[..h.len] == "[[" + name + "|" + caption + "]]" &&
              h.out == "[[" + target + "|" + caption + "]]"
  {
    var k := |name| + 3;
    var e := RunEnd(t, k, LabelChar);
    RunEndFacts(t, k, LabelChar);
    Cut(t, e, e + 2);
    Cut(t, k, e);
  }

  /** An anchor name: `[A-Za-z0-9_]+`. */
  ghost predicate IsAnchorName(s: string) { s != [] && All(s, Word) }

  /** `\[\[OLD(#[A-Za-z0-9_]+)\]\]` → `[[TARGET\1|OLD]]` */
  function MatchNameAnchorLink(t: string, name: string, target: string): (h: Option<Hit>)
    ensures h.Some? ==> 0 < h.value.len <= |t|
  {
    var k := |name| + 3;
    var e := RunEnd(t, k, Word);
    if LitAt(t, 0, "[[" + name + "#") && k < e && LitAt(t, e, "]]") then
      Some(Hit(e + 2, "[[" + target + "#" + t[k..e] + "|" + name + "]]"))
    else None
  }

  /** `[[old#A]]` becomes `[[target#A|old]]`. */
  lemma NameAnchorLinkMatches(name: string, target: string, anchor: string, rest: string)
    requires IsAnchorName(anchor)
    ensures MatchPrefix(NameAnchorLink(name, target), "[[" + name + "#" + anchor + "]]" + rest) ==
              Some(Hit(|name| + |anchor| + 5, "[[" + target + "#" + anchor + "|" + name + "]]"))
  {
    var o := "[[" + name + "#";
    var t := o + anchor + "]]" + rest;
    var e := |o| + |anchor|;
    assert t[..|o|] == o;
    assert t[|o|..e] == anchor;
    assert t[e..e + 2] == "]]";
    RunEndAt(t, |o|, e, Word);
  }

  lemma NameAnchorLinkOnly(t: string, name: string, target: string)
    requires MatchPrefix(NameAnchorLink(name, target), t).Some?
    ensures var h := MatchPrefix(NameAnchorLink(name, target), t).value;
            exists anchor :: IsAnchorName(anchor) &&
              t[..h.len] == "[[" + name + "#" + anchor + "]]" &&
              h.out == "[[" + target + "#" + anchor + "|" + name + "]]"
  {
    var k := |name| + 3;
    var e := RunEnd(t, k, Word);
    RunEndFacts(t, k, Word);
    Cut(t, e, e + 2);
    Cut(t, k, e);
  }

  /** `\[\[OLD(#[A-Za-z0-9_]+)\|([^\]]+)\]\]` → `[[TARGET\1|\2]]` */
  function MatchNameAnchorLabelLink(t: string, name: string, target: string): (h: Option<Hit>)
    ensures h.Some? ==> 0 < h.value.len <= |t|
  {
    var k := |name| + 3;
    var e := RunEnd(t, k, Word);
    var f := RunEnd(t, e + 1, LabelChar);
    if LitAt(t, 0, "[[" + name + "#") && k < e && CharAt(t, e, '|') && e + 1 < f && LitAt(t, f, "]]") then
      Some(Hit(f + 2, "[[" + target + "#" + t[k..e] + "|" + t[e + 1..f] + "]]"))
    else None
  }

  /** `[[old#A|L]]` becomes `[[target#A|L]]`. */
  lemma NameAnchorLabelLinkMatches(name: string, target: string, anchor: string, caption: string, rest: string)
    requires IsAnchorName(anchor) && IsLabel(caption)
    ensures MatchPrefix(NameAnchorLabelLink(name, target),
                        "[[" + name + "#" + anchor + "|" + caption + "]]" + rest) ==
              Some(Hit(|name| + |anchor| + |caption| + 6,
                       "[[" + target + "#" + anchor + "|" + caption + "]]"))
  {
    NameAnchorLabelFound("[[" + name + "#" + anchor + "|" + caption + "]]" + rest, name, target, anchor, caption, rest);
  }

  lemma NameAnchorLabelFound(t: string, name: string, target: string, anchor: string, caption: string, rest: string)
    requires IsAnchorName(anchor) && IsLabel(caption)
    requires t == "[[" + name + "#" + anchor + "|" + caption + "]]" + rest
    ensures MatchNameAnchorLabelLink(t, name, target) ==
              Some(Hit(|name| + |anchor| + |caption| + 6, "[[" + target + "#" + anchor + "|" + caption + "]]"))
  {
    var e := |name| + 3 + |anchor|;
    var f := e + 1 + |caption|;
    NameAnchorLabelShape(name, anchor, caption, rest);
    NameAnchorLabelAt(t, name, target, e, f, anchor, caption, |name| + |anchor| + |caption| + 6);
  }

  lemma NameAnchorLabelShape(name: string, anchor: string, caption: string, rest: string)
    ensures var t := "[[" + name + "#" + anchor + "|" + caption + "]]" + rest;
            var e := |name| + 3 + |anchor|;
            var f := e + 1 + |caption|;
            LitAt(t, 0, "[[" + name + "#") && t[|name| + 3..e] == anchor && CharAt(t, e, '|') &&
            t[e + 1..f] == caption && LitAt(t, f, "]]")
  {
    var o := "[[" + name + "#";
    var t := o + anchor + "|" + caption + "]]" + rest;
    var e := |o| + |anchor|;
    var f := e + 1 + |caption|;
    assert t[..|o|] == o;
    assert t[|o|..e] == anchor;
    assert t[e] == '|';
    assert t[e + 1..f] == caption;
    assert t[f..f + 2] == "]]";
  }

  /** A named anchor link with caption in positions: the anchor ends at `e`, the caption at `f`. */
  lemma NameAnchorLabelAt(t: string, name: string, target: string, e: nat, f: nat,
                          anchor: string, caption: string, n: nat)
    requires |name| + 3 <= e < f && n == f + 2 <= |t|
    requires LitAt(t, 0, "[[" + name + "#") && t[|name| + 3..e] == anchor && IsAnchorName(anchor)
    requires CharAt(t, e, '|') && t[e + 1..f] == caption && IsLabel(caption) && LitAt(t, f, "]]")
    ensures MatchNameAnchorLabelLink(t, name, target) ==
              Some(Hit(n, "[[" + target + "#" + anchor + "|" + caption + "]]"))
  {
    RunEndAt(t, |name| + 3, e, Word);
    RunEndAt(t, e + 1, f, LabelChar);
  }


  lemma NameAnchorLabelLinkOnly(t: string, name: string, target: string)
    requires MatchPrefix(NameAnchorLabelLink(name, target), t).Some?
    ensures var h := MatchPrefix(NameAnchorLabelLink(name, target), t).value;
            exists anchor, caption :: IsAnchorName(anchor) && IsLabel(caption) &&
              t[..h.len] == "[[" + name + "#" + anchor + "|" + caption + "]]" &&
              h.out == "[[" + target + "#" + anchor + "|" + caption + "]]"
  {
    var k := |name| + 3;
    var e := RunEnd(t, k, Word);
    var f := RunEnd(t, e + 1, LabelChar);
    NameAnchorLabelGuard(t, name, target, e, f);
    RunEndFacts(t, k, Word);
    RunEndFacts(t, e + 1, LabelChar);
    NameAnchorLabelSplit(t, name, e, f);
    assert IsAnchorName(t[k..e]) && IsLabel(t[e + 1..f]);
  }

  /** What a named anchor link match tells about its positions. */
  lemma NameAnchorLabelGuard(t: string, name: string, target: string, e: nat, f: nat)
    requires MatchPrefix(NameAnchorLabelLink(name, target), t).Some?
    requires e == RunEnd(t, |name| + 3, Word) && f == RunEnd(t, e + 1, LabelChar)
    ensures |name| + 3 < e < f && f + 2 <= |t|
    ensures LitAt(t, 0, "[[" + name + "#") && CharAt(t, e, '|') && LitAt(t, f, "]]")
    ensures MatchPrefix(NameAnchorLabelLink(name, target), t).value ==
              Hit(f + 2, "[[" + target + "#" + t[|name| + 3..e] + "|" + t[e + 1..f] + "]]")
  {
  }

  /** The matched text of a named anchor link with caption, cut at the `|` and at the `]]`. */
  lemma NameAnchorLabelSplit(t: string, name: string, e: nat, f: nat)
    requires |name| + 3 <= e < f && f + 2 <= |t|
    requires LitAt(t, 0, "[[" + name + "#") && CharAt(t, e, '|') && LitAt(t, f, "]]")
    ensures t[..f + 2] == "[[" + name + "#" + t[|name| + 3..e] + "|" + t[e + 1..f] + "]]"
  {
    var k := |name| + 3;
    Cut(t, f, f + 2);
    Cut(t, e + 1, f);
    CutChar(t, e);
    Cut(t, k, e);
    assert [t[e]] == "|";
    assert t[..k] == "[[" + name + "#";
  }


  /** `([^A-Za-z0-9/])OLD([^A-Za-z0-9/])` → `\1TARGET\2`: both flanking characters are consumed. */
  function MatchAutoLink(t: string, name: string, target: string): (h: Option<Hit>)
    ensures h.Some? ==> 0 < h.value.len <= |t|
  {
    var k := |name| + 1;
    if k < |t| && !IsNameChar(t[0]) && t[1..k] == name && !IsNameChar(t[k]) then
      Some(Hit(k + 1, [t[0]] + target + [t[k]]))
    else None
  }

  /** A bare `old` between two characters outside `[A-Za-z0-9/]` becomes `target`, flanks kept. */
  lemma AutoLinkMatches(name: string, target: string, before: char, after: char, rest: string)
    requires !IsNameChar(before) && !IsNameChar(after)
    ensures MatchPrefix(AutoLink(name, target), [before] + name + [after] + rest) ==
              Some(Hit(|name| + 2, [before] + target + [after]))
  {
    var t := [before] + name + [after] + rest;
    assert t[1..|name| + 1] == name;
  }

  lemma AutoLinkOnly(t: string, name: string, target: string)
    requires MatchPrefix(AutoLink(name, target), t).Some?
    ensures var h := MatchPrefix(AutoLink(name, target), t).value;
            exists before, after :: !IsNameChar(before) && !IsNameChar(after) &&
              t[..h.len] == [before] + name + [after] &&
              h.out == [before] + target + [after]
  {
    var k := |name| + 1;
    assert t[..k + 1] == [t[0]] + name + [t[k]];
  }

  /** `([^\[])TARGET([^A-Za-z0-9/])` → `\1[[TARGET|PRETTY]]\2` */
  function MatchPrettyLink(t: string, target: string, pretty: string): (h: Option<Hit>)
    ensures h.Some? ==> 0 < h.value.len <= |t|
  {
    var k := |target| + 1;
    if k < |t| && t[0] != '[' && t[1..k] == target && !IsNameChar(t[k]) then
      Some(Hit(k + 1, [t[0]] + "[[" + target + "|" + pretty + "]]" + [t[k]]))
    else None
  }

  /** A bare `target` not after `[` and before a character outside `[A-Za-z0-9/]` is wrapped into a link. */
  lemma PrettyLinkMatches(target: string, pretty: string, before: char, after: char, rest: string)
    requires before != '[' && !IsNameChar(after)
    ensures MatchPrefix(PrettyLink(target, pretty), [before] + target + [after] + rest) ==
              Some(Hit(|target| + 2, [before] + "[[" + target + "|" + pretty + "]]" + [after]))
  {
    var t := [before] + target + [after] + rest;
    assert t[1..|target| + 1] == target;
  }

  lemma PrettyLinkOnly(t: string, target: string, pretty: string)
    requires MatchPrefix(PrettyLink(target, pretty), t).Some?
    ensures var h := MatchPrefix(PrettyLink(target, pretty), t).value;
            exists before, after :: before != '[' && !IsNameChar(after) &&
              t[..h.len] == [before] + target + [after] &&
              h.out == [before] + "[[" + target + "|" + pretty + "]]" + [after]
  {
    var k := |target| + 1;
    assert t[..k + 1] == [t[0]] + target + [t[k]];
  }

  /** The macros whose argument names a page to include. */
  ghost predicate IsIncludingMacro(m: string) { m == "TracNav" || m == "TracInclude" || m == "Include" }

  /** `\[MACRO\(OLD\)\]` → `[MACRO(TARGET)]` for one macro name. */
  function MatchIncludeWith(t: string, macro: string, name: string, target: string): (h: Option<Hit>)
    ensures h.Some? ==> 0 < h.value.len <= |t|
  {
    if LitAt(t, 0, "[" + macro + "(" + name + ")]") then
      Some(Hit(|macro| + |name| + 4, "[" + macro + "(" + target + ")]"))
    else None
  }

  /** `(\[(TracNav|TracInclude|Include)\()OLD\)\]` → `\1TARGET)]`, alternatives in order. */
  function MatchIncludeMacro(t: string, name: string, target: string): (h: Option<Hit>)
    ensures h.Some? ==> 0 < h.value.len <= |t|
  {
    match MatchIncludeWith(t, "TracNav", name, target)
    case Some(h) => Some(h)
    case None =>
      match MatchIncludeWith(t, "TracInclude", name, target)
      case Some(h) => Some(h)
      case None => MatchIncludeWith(t, "Include", name, target)
  }

  /** `[TracNav(old)]`, `[TracInclude(old)]` and `[Include(old)]` get `target` as their argument. */
  lemma IncludeMacroMatches(macro: string, name: string, target: string, rest: string)
    requires IsIncludingMacro(macro)
    ensures MatchPrefix(IncludeMacro(name, target), "[" + macro + "(" + name + ")]" + rest) ==
              Some(Hit(|macro| + |name| + 4, "[" + macro + "(" + target + ")]"))
  {
    IncludeFound("[" + macro + "(" + name + ")]" + rest, macro, name, target, rest);
  }

  lemma IncludeFound(t: string, macro: string, name: string, target: string, rest: string)
    requires IsIncludingMacro(macro) && t == "[" + macro + "(" + name + ")]" + rest
    ensures MatchIncludeMacro(t, name, target) == Some(Hit(|macro| + |name| + 4, "[" + macro + "(" + target + ")]"))
  {
    var o := "[" + macro + "(" + name + ")]";
    assert t[..|o|] == o;
    if macro != "TracNav" {
      assert t[5] != ("[TracNav(" + name + ")]")[5];
      Mismatch(t, 0, "[TracNav(" + name + ")]", 5);
    }
    if macro == "Include" {
      assert t[1] != ("[TracInclude(" + name + ")]")[1];
      Mismatch(t, 0, "[TracInclude(" + name + ")]", 1);
    }
    IncludeAt(t, macro, name, target);
  }

  /** The first of the three macro names whose call is at the start of `t` is the one rewritten. */
  lemma IncludeAt(t: string, macro: string, name: string, target: string)
    requires IsIncludingMacro(macro) && LitAt(t, 0, "[" + macro + "(" + name + ")]")
    requires macro != "TracNav" ==> !LitAt(t, 0, "[TracNav(" + name + ")]")
    requires macro == "Include" ==> !LitAt(t, 0, "[TracInclude(" + name + ")]")
    ensures MatchIncludeMacro(t, name, target) == Some(Hit(|macro| + |name| + 4, "[" + macro + "(" + target + ")]"))
  {
  }



  lemma IncludeMacroOnly(t: string, name: string, target: string)
    requires MatchPrefix(IncludeMacro(name, target), t).Some?
    ensures var h := MatchPrefix(IncludeMacro(name, target), t).value;
            exists macro :: IsIncludingMacro(macro) &&
              t[..h.len] == "[" + macro + "(" + name + ")]" &&
              h.out == "[" + macro + "(" + target + ")]"
  {
  }

  // ---------------------------------------------------------------------
  // Fixed macro translations, lines 164-169

  /** A literal pattern with a literal replacement. */
  function MatchLiteral(t: string, pattern: string, replacement: string): (h: Option<Hit>)
    requires pattern != []
    ensures h.Some? ==> 0 < h.value.len <= |t|
  {
    if LitAt(t, 0, pattern) then Some(Hit(|pattern|, replacement)) else None
  }

  /** `[[PageOutline]]` becomes `<<TableOfContents>>`. */
  lemma OutlineMacroMatches(rest: string)
    ensures MatchPrefix(OutlineMacro, "[[PageOutline]]" + rest) == Some(Hit(15, "<<TableOfContents>>"))
  {
    assert ("[[PageOutline]]" + rest)[..15] == "[[PageOutline]]";
  }

  lemma OutlineMacroOnly(t: string)
    requires MatchPrefix(OutlineMacro, t).Some?
    ensures MatchPrefix(OutlineMacro, t).value == Hit(15, "<<TableOfContents>>") && t[..15] == "[[PageOutline]]"
  {
  }

  /** `[[BR]]` becomes `<<BR>>`. */
  lemma BreakMacroMatches(rest: string)
    ensures MatchPrefix(BreakMacro, "[[BR]]" + rest) == Some(Hit(6, "<<BR>>"))
  {
    assert ("[[BR]]" + rest)[..6] == "[[BR]]";
  }

  lemma BreakMacroOnly(t: string)
    requires MatchPrefix(BreakMacro, t).Some?
    ensures MatchPrefix(BreakMacro, t).value == Hit(6, "<<BR>>") && t[..6] == "[[BR]]"
  {
  }

  /** An image file name: `[^\\)]+`. */
  ghost predicate IsImageName(s: string) { s != [] && All(s, ImageChar) }

  /** `\[\[Image\(([^\\)]+)\)\]\]` → `{{attachment:\1}}` */
  function MatchImageMacro(t: string): (h: Option<Hit>)
    ensures h.Some? ==> 0 < h.value.len <= |t|
  {
    var e := RunEnd(t, 8, ImageChar);
    if LitAt(t, 0, "[[Image(") && 8 < e && LitAt(t, e, ")]]") then
      Some(Hit(e + 3, "{{attachment:" + t[8..e] + "}}"))
    else None
  }

  /** `[[Image(x)]]` becomes `{{attachment:x}}`. */
  lemma ImageMacroMatches(file: string, rest: string)
    requires IsImageName(file)
    ensures MatchPrefix(ImageMacro, "[[Image(" + file + ")]]" + rest) ==
              Some(Hit(|file| + 11, "{{attachment:" + file + "}}"))
  {
    var t := "[[Image(" + file + ")]]" + rest;
    var e := 8 + |file|;
    assert t[..8] == "[[Image(";
    assert t[8..e] == file;
    assert t[e..e + 3] == ")]]";
    RunEndAt(t, 8, e, ImageChar);
  }

  lemma ImageMacroOnly(t: string)
    requires MatchPrefix(ImageMacro, t).Some?
    ensures var h := MatchPrefix(ImageMacro, t).value;
            exists file :: IsImageName(file) &&
              t[..h.len] == "[[Image(" + file + ")]]" && h.out == "{{attachment:" + file + "}}"
  {
    var e := RunEnd(t, 8, ImageChar);
    RunEndFacts(t, 8, ImageChar);
    Cut(t, e, e + 3);
    Cut(t, 8, e);
  }

  /** A run of decimal digits: `[0-9]+`. */
  ghost predicate IsNumber(s: string) { s != [] && All(s, Digit) }

  /** What `[^\)]*` may take after a greedy `[0-9]+`: no `)` and no leading digit. */
  ghost predicate IsOutlineTail(s: string) { All(s, ArgChar) && (s == [] || !IsDigit(s[0])) }

  /** `\[\[PageOutline\([0-9]+-([0-9]+)[^\)]*\)\]\]` → `<<TableOfContents(\1)>>` */
  function MatchOutlineRangeMacro(t: string): (h: Option<Hit>)
    ensures h.Some? ==> 0 < h.value.len <= |t|
  {
    var p := RunEnd(t, 14, Digit);
    var q := RunEnd(t, p + 1, Digit);
    var e := RunEnd(t, q, ArgChar);
    if LitAt(t, 0, "[[PageOutline(") && 14 < p && CharAt(t, p, '-') && p + 1 < q && LitAt(t, e, ")]]") then
      Some(Hit(e + 3, "<<TableOfContents(" + t[p + 1..q] + ")>>"))
    else None
  }

  /** Where the pieces of `[[PageOutline(a-b...)]]` lie. */
  lemma OutlineRangeShape(first: string, last: string, tail: string, rest: string)
    ensures var t := "[[PageOutline(" + first + "-" + last + tail + ")]]" + rest;
            var p := 14 + |first|;
            var q := p + 1 + |last|;
            var e := q + |tail|;
            LitAt(t, 0, "[[PageOutline(") && t[14..p] == first && CharAt(t, p, '-') &&
            t[p + 1..q] == last && t[q..e] == tail && LitAt(t, e, ")]]")
  {
    var t := "[[PageOutline(" + first + "-" + last + tail + ")]]" + rest;
    var p := 14 + |first|;
    var q := p + 1 + |last|;
    var e := q + |tail|;
    assert t[..14] == "[[PageOutline(";
    assert t[14..p] == first;
    assert t[p] == '-';
    assert t[p + 1..q] == last;
    assert t[q..e] == tail;
    assert t[e..e + 3] == ")]]";
  }

  /** A range outline in positions: digits to `p`, a dash, digits to `q`, a tail to `e`. */
  lemma OutlineRangeMacroAt(t: string, p: nat, q: nat, e: nat, last: string, n: nat)
    requires 14 < p < q <= e && n == e + 3 <= |t| && t[p + 1..q] == last
    requires LitAt(t, 0, "[[PageOutline(") && IsNumber(t[14..p]) && CharAt(t, p, '-')
    requires IsNumber(last) && IsOutlineTail(t[q..e]) && LitAt(t, e, ")]]")
    ensures MatchPrefix(OutlineRangeMacro, t) == Some(Hit(n, "<<TableOfContents(" + last + ")>>"))
  {
    RunEndAt(t, 14, p, Digit);
    RunEndAt(t, p + 1, q, Digit);
    RunEndAt(t, q, e, ArgChar);
  }

  /** `[[PageOutline(a-b...)]]` becomes `<<TableOfContents(b)>>`: the number after the dash is kept. */
  lemma OutlineRangeMacroMatches(first: string, last: string, tail: string, rest: string)
    requires IsNumber(first) && IsNumber(last) && IsOutlineTail(tail)
    ensures MatchPrefix(OutlineRangeMacro, "[[PageOutline(" + first + "-" + last + tail + ")]]" + rest) ==
              Some(Hit(|first| + |last| + |tail| + 18, "<<TableOfContents(" + last + ")>>"))
  {
    OutlineRangeFound("[[PageOutline(" + first + "-" + last + tail + ")]]" + rest, first, last, tail, rest);
  }

  lemma OutlineRangeFound(t: string, first: string, last: string, tail: string, rest: string)
    requires IsNumber(first) && IsNumber(last) && IsOutlineTail(tail)
    requires t == "[[PageOutline(" + first + "-" + last + tail + ")]]" + rest
    ensures MatchPrefix(OutlineRangeMacro, t) == Some(Hit(|first| + |last| + |tail| + 18, "<<TableOfContents(" + last + ")>>"))
  {
    var p := 14 + |first|;
    var q := p + 1 + |last|;
    var e := q + |tail|;
    OutlineRangeShape(first, last, tail, rest);
    OutlineRangeMacroAt(t, p, q, e, last, |first| + |last| + |tail| + 18);
  }

  lemma OutlineRangeMacroOnly(t: string)
    requires MatchPrefix(OutlineRangeMacro, t).Some?
    ensures var h := MatchPrefix(OutlineRangeMacro, t).value;
            exists first, last, tail :: IsNumber(first) && IsNumber(last) && IsOutlineTail(tail) &&
              t[..h.len] == "[[PageOutline(" + first + "-" + last + tail + ")]]" &&
              h.out == "<<TableOfContents(" + last + ")>>"
  {
    var p := RunEnd(t, 14, Digit);
    var q := RunEnd(t, p + 1, Digit);
    var e := RunEnd(t, q, ArgChar);
    OutlineRangeGuard(t, p, q, e);
    RunEndFacts(t, 14, Digit);
    RunEndFacts(t, p + 1, Digit);
    RunEndFacts(t, q, ArgChar);
    OutlineRangeSplit(t, p, q, e);
    assert IsNumber(t[14..p]) && IsNumber(t[p + 1..q]) && IsOutlineTail(t[q..e]);
  }

  /** What a range outline match tells about its positions. */
  lemma OutlineRangeGuard(t: string, p: nat, q: nat, e: nat)
    requires MatchPrefix(OutlineRangeMacro, t).Some?
    requires p == RunEnd(t, 14, Digit) && q == RunEnd(t, p + 1, Digit) && e == RunEnd(t, q, ArgChar)
    ensures 14 < p < q <= e && e + 3 <= |t|
    ensures LitAt(t, 0, "[[PageOutline(") && CharAt(t, p, '-') && LitAt(t, e, ")]]")
    ensures MatchPrefix(OutlineRangeMacro, t).value == Hit(e + 3, "<<TableOfContents(" + t[p + 1..q] + ")>>")
  {
  }

  /** The matched text of a range outline, cut at its dash and at the end of its second number. */
  lemma OutlineRangeSplit(t: string, p: nat, q: nat, e: nat)
    requires 14 < p < q <= e && e + 3 <= |t|
    requires LitAt(t, 0, "[[PageOutline(") && CharAt(t, p, '-') && LitAt(t, e, ")]]")
    ensures t[..e + 3] == "[[PageOutline(" + t[14..p] + "-" + t[p + 1..q] + t[q..e] + ")]]"
  {
    Cut(t, e, e + 3);
    Cut(t, q, e);
    Cut(t, p + 1, q);
    CutChar(t, p);
    Cut(t, 14, p);
    assert [t[p]] == "-";
    assert t[..14] == "[[PageOutline(";
  }

  /** `\[\[PageOutline\(([0-9]+)[^\)]*\)\]\]` → `<<TableOfContents(\1)>>` */
  function MatchOutlineLevelMacro(t: string): (h: Option<Hit>)
    ensures h.Some? ==> 0 < h.value.len <= |t|
  {
    var p := RunEnd(t, 14, Digit);
    var e := RunEnd(t, p, ArgChar);
    if LitAt(t, 0, "[[PageOutline(") && 14 < p && LitAt(t, e, ")]]") then
      Some(Hit(e + 3, "<<TableOfContents(" + t[14..p] + ")>>"))
    else None
  }

  /** `[[PageOutline(n...)]]` becomes `<<TableOfContents(n)>>`. */
  lemma OutlineLevelMacroMatches(level: string, tail: string, rest: string)
    requires IsNumber(level) && IsOutlineTail(tail)
    ensures MatchPrefix(OutlineLevelMacro, "[[PageOutline(" + level + tail + ")]]" + rest) ==
              Some(Hit(|level| + |tail| + 17, "<<TableOfContents(" + level + ")>>"))
  {
    var t := "[[PageOutline(" + level + tail + ")]]" + rest;
    var p := 14 + |level|;
    var e := p + |tail|;
    assert t[..14] == "[[PageOutline(";
    assert t[14..p] == level;
    assert t[p..e] == tail;
    assert t[e..e + 3] == ")]]";
    RunEndAt(t, 14, p, Digit);
    RunEndAt(t, p, e, ArgChar);
  }

  lemma OutlineLevelMacroOnly(t: string)
    requires MatchPrefix(OutlineLevelMacro, t).Some?
    ensures var h := MatchPrefix(OutlineLevelMacro, t).value;
            exists level, tail :: IsNumber(level) && IsOutlineTail(tail) &&
              t[..h.len] == "[[PageOutline(" + level + tail + ")]]" &&
              h.out == "<<TableOfContents(" + level + ")>>"
  {
    var p := RunEnd(t, 14, Digit);
    var e := RunEnd(t, p, ArgChar);
    RunEndFacts(t, 14, Digit);
    RunEndFacts(t, p, ArgChar);
    OutlineLevelSplit(t, p, e);
    assert MatchPrefix(OutlineLevelMacro, t).value == Hit(e + 3, "<<TableOfContents(" + t[14..p] + ")>>");
    assert p < |t| ==> !IsDigit(t[p]);
    assert IsNumber(t[14..p]) && IsOutlineTail(t[p..e]);
  }

  /** The matched text of a level outline, cut after its number. */
  lemma OutlineLevelSplit(t: string, p: nat, e: nat)
    requires 14 <= p <= e && e + 3 <= |t|
    requires LitAt(t, 0, "[[PageOutline(") && LitAt(t, e, ")]]")
    ensures t[..e + 3] == "[[PageOutline(" + t[14..p] + t[p..e] + ")]]"
  {
    Cut(t, e, e + 3);
    Cut(t, p, e);
    Cut(t, 14, p);
    assert t[..14] == "[[PageOutline(";
  }

  /** An included page name: `[^\)]+`. */
  ghost predicate IsMacroArgument(s: string) { s != [] && All(s, ArgChar) }

  /** `\[\[TracNav\(([^\)]+)\)\]\]` → `<<Include(\1)>>` */
  function MatchNavMacro(t: string): (h: Option<Hit>)
    ensures h.Some? ==> 0 < h.value.len <= |t|
  {
    var e := RunEnd(t, 10, ArgChar);
    if LitAt(t, 0, "[[TracNav(") && 10 < e && LitAt(t, e, ")]]") then
      Some(Hit(e + 3, "<<Include(" + t[10..e] + ")>>"))
    else None
  }

  /** `[[TracNav(x)]]` becomes `<<Include(x)>>`. */
  lemma NavMacroMatches(page: string, rest: string)
    requires IsMacroArgument(page)
    ensures MatchPrefix(NavMacro, "[[TracNav(" + page + ")]]" + rest) ==
              Some(Hit(|page| + 13, "<<Include(" + page + ")>>"))
  {
    var t := "[[TracNav(" + page + ")]]" + rest;
    var e := 10 + |page|;
    assert t[..10] == "[[TracNav(";
    assert t[10..e] == page;
    assert t[e..e + 3] == ")]]";
    RunEndAt(t, 10, e, ArgChar);
  }

  lemma NavMacroOnly(t: string)
    requires MatchPrefix(NavMacro, t).Some?
    ensures var h := MatchPrefix(NavMacro, t).value;
            exists page :: IsMacroArgument(page) &&
              t[..h.len] == "[[TracNav(" + page + ")]]" && h.out == "<<Include(" + page + ")>>"
  {
    var e := RunEnd(t, 10, ArgChar);
    RunEndFacts(t, 10, ArgChar);
    Cut(t, e, e + 3);
    Cut(t, 10, e);
  }
}
