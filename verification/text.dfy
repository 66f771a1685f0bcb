/**
 * Character classes and small string functions with the meaning Python 2
 * gives them on a `str`: regular-expression classes such as `[A-Za-z0-9/]`,
 * `str.strip()`, `str.split(sep, maxsplit)`, and the `%d` / `%08d` formats.
 */
module Text {

  import opened Basics

  predicate IsUpper(c: char) { 'A' <= c <= 'Z' }
  predicate IsLower(c: char) { 'a' <= c <= 'z' }
  predicate IsDigit(c: char) { '0' <= c <= '9' }

  /** The class `[A-Za-z0-9_]` of an anchor name. */
  predicate IsWordChar(c: char) { IsUpper(c) || IsLower(c) || IsDigit(c) || c == '_' }

  /** The class `[A-Za-z0-9/]` that may not flank an automatic link. */
  predicate IsNameChar(c: char) { IsUpper(c) || IsLower(c) || IsDigit(c) || c == '/' }

  /** The characters Python 2's `str.strip()` removes. */
  predicate IsSpace(c: char) {
    c == ' ' || c == '\t' || c == '\n' || c == '\r' || c == '\U{0B}' || c == '\U{0C}'
  }

  /** The character classes of the patterns this model needs. */
  datatype Class =
    | Space        // what `str.strip()` removes
    | Digit        // `[0-9]`
    | Word         // `[A-Za-z0-9_]`
    | TargetChar   // `[^\] ]`: anything but a closing bracket or a space
    | LabelChar    // `[^\]]`: anything but a closing bracket
    | ArgChar      // `[^\)]`: anything but a closing parenthesis
    | ImageChar    // `[^\\)]`: anything but a backslash or a closing parenthesis

  predicate In(c: char, p: Class) {
    match p
    case Space => IsSpace(c)
    case Digit => IsDigit(c)
    case Word => IsWordChar(c)
    case TargetChar => c != ']' && c != ' '
    case LabelChar => c != ']'
    case ArgChar => c != ')'
    case ImageChar => c != '\\' && c != ')'
  }

  /** Every character of `s` lies in the class `p`. */
  ghost predicate All(s: string, p: Class) {
    forall k :: 0 <= k < |s| ==> In(s[k], p)
  }

  /** The literal `w` occurs in `t` at position `i`. */
  predicate LitAt(t: string, i: nat, w: string) {
    i + |w| <= |t| && t[i..i + |w|] == w
  }

  /** The character `c` occurs in `t` at position `i`. */
  predicate CharAt(t: string, i: nat, c: char) {
    i < |t| && t[i] == c
  }

  /**
   * Length of the longest prefix of `t` whose characters all lie in `p`:
   * what a greedy `[...]*` consumes.
   */
  function Span(t: string, p: Class): (n: nat)
    ensures n <= |t|
    decreases |t|
  {
    if t != [] && In(t[0], p) then 1 + Span(t[1..], p) else 0
  }

  /** The run is all of class `p` and stops at the first character outside it. */
  lemma {:induction false} SpanFacts(t: string, p: Class)
    ensures All(t[..Span(t, p)], p)
    ensures Span(t, p) < |t| ==> !In(t[Span(t, p)], p)
    decreases |t|
  {
    if t != [] && In(t[0], p) {
      SpanFacts(t[1..], p);
      assert t[..Span(t, p)] == [t[0]] + t[1..][..Span(t[1..], p)];
    }
  }

  /** A greedy run stops exactly where the class is first left. */
  lemma {:induction false} SpanOf(u: string, rest: string, p: Class)
    requires All(u, p)
    requires rest == [] || !In(rest[0], p)
    ensures Span(u + rest, p) == |u|
    decreases |u|
  {
    if u != [] {
      assert (u + rest)[1..] == u[1..] + rest;
      SpanOf(u[1..], rest, p);
    }
  }

  /**
   * Where a greedy run of `p` that starts at position `i` of `t` ends
   * (`i` itself when there is none, or when `i` lies beyond `t`).
   */
  function RunEnd(t: string, i: nat, p: Class): (j: nat)
    ensures i <= j
    ensures i <= |t| ==> j <= |t|
  {
    if i <= |t| then i + Span(t[i..], p) else i
  }

  /** The run is all of class `p` and cannot be extended. */
  lemma RunEndFacts(t: string, i: nat, p: Class)
    requires i <= |t|
    ensures All(t[i..RunEnd(t, i, p)], p)
    ensures RunEnd(t, i, p) < |t| ==> !In(t[RunEnd(t, i, p)], p)
  {
    var n := Span(t[i..], p);
    SpanFacts(t[i..], p);
    assert t[i..i + n] == t[i..][..n];
  }

  /** A run of `p` from `i` to `j` that cannot be extended is the one `RunEnd` finds. */
  lemma RunEndAt(t: string, i: nat, j: nat, p: Class)
    requires i <= j <= |t|
    requires All(t[i..j], p)
    requires j == |t| || !In(t[j], p)
    ensures RunEnd(t, i, p) == j
  {
    assert t[i..] == t[i..j] + t[j..];
    SpanOf(t[i..j], t[j..], p);
  }

  // ---------------------------------------------------------------------
  // str.strip()

  function LeadingSpace(s: string): (n: nat)
    ensures n <= |s|
    ensures forall k :: 0 <= k < n ==> IsSpace(s[k])
    ensures n < |s| ==> !IsSpace(s[n])
  {
    SpanFacts(s, Space);
    Span(s, Space)
  }

  function TrailingSpace(s: string): (n: nat)
    ensures n <= |s|
    ensures forall k :: |s| - n <= k < |s| ==> IsSpace(s[k])
    ensures n < |s| ==> !IsSpace(s[|s| - 1 - n])
    decreases |s|
  {
    if s != [] && IsSpace(s[|s| - 1]) then 1 + TrailingSpace(s[..|s| - 1]) else 0
  }

  /**
   * Python's `str.strip()`: the slice of `s` left after removing
   * whitespace from both ends.
   */
  function Strip(s: string): (r: string)
    ensures r == [] || (!IsSpace(r[0]) && !IsSpace(r[|r| - 1]))
    ensures exists a, b :: 0 <= a <= b <= |s| && r == s[a..b] &&
              All(s[..a], Space) && All(s[b..], Space)
  {
    var a := LeadingSpace(s);
    if a == |s| then
      assert s[..a] == s && s[a..] == [];
      s[a..a]
    else
      var b := |s| - TrailingSpace(s);
      s[a..b]
  }

  /** `s` holds no whitespace at all exactly when `Strip` leaves nothing. */
  lemma StripEmpty(s: string)
    ensures Strip(s) == [] <==> All(s, Space)
  {
  
  }

  // ---------------------------------------------------------------------
  // str.split(sep, maxsplit)

  /** Index of the first `c` in `s`, or `|s|` when there is none. */
  function IndexOf(s: string, c: char): (i: nat)
    ensures i <= |s|
    ensures forall k :: 0 <= k < i ==> s[k] != c
    ensures i < |s| ==> s[i] == c
    decreases |s|
  {
    if s == [] || s[0] == c then 0 else 1 + IndexOf(s[1..], c)
  }

  /**
   * Python's `s.split(c, max)`: at most `max` splits, from the left; the
   * last field keeps any further separators.
   */
  function SplitN(s: string, c: char, max: nat): (parts: seq<string>)
    ensures |parts| >= 1
    decreases max
  {
    var i := IndexOf(s, c);
    if max == 0 || i == |s| then [s]
    else [s[..i]] + SplitN(s[i + 1..], c, max - 1)
  }

  /** Number of occurrences of `c` in `s`. */
  function Count(s: string, c: char): nat
  {
    multiset(s)[c]
  }

  lemma CountNone(s: string, c: char)
    requires forall k :: 0 <= k < |s| ==> s[k] != c
    ensures Count(s, c) == 0
  {
  }

  lemma CountAround(s: string, i: nat, c: char)
    requires i < |s| && s[i] == c
    ensures Count(s, c) == Count(s[..i], c) + 1 + Count(s[i + 1..], c)
  {
    assert s == s[..i] + [c] + s[i + 1..];
    assert multiset(s) == multiset(s[..i]) + multiset([c]) + multiset(s[i + 1..]);
  }

  /**
   * `s.split(c, 2)` yields exactly two fields precisely when `c` occurs
   * exactly once, and then the two fields are the text around it.
   */
  lemma SplitTwoFields(s: string, c: char)
    ensures |SplitN(s, c, 2)| == 2 <==> Count(s, c) == 1
    ensures |SplitN(s, c, 2)| == 2 ==>
              c !in SplitN(s, c, 2)[0] && c !in SplitN(s, c, 2)[1] &&
              s == SplitN(s, c, 2)[0] + [c] + SplitN(s, c, 2)[1]
  {
    var i := IndexOf(s, c);
    if i == |s| {
      CountNone(s, c);
    } else if IndexOf(s[i + 1..], c) == |s[i + 1..]| {
      SplitAtOnly(s, c, i);
    } else {
      SplitAtFirstTwo(s, c, i, IndexOf(s[i + 1..], c));
      CountTwo(s, c, i, IndexOf(s[i + 1..], c));
    }
  }

  /** With one separator, splitting at most twice gives the text before it and the text after it. */
  lemma SplitAtOnly(s: string, c: char, i: nat)
    requires i == IndexOf(s, c) < |s| && IndexOf(s[i + 1..], c) == |s[i + 1..]|
    ensures SplitN(s, c, 2) == [s[..i], s[i + 1..]] && Count(s, c) == 1
    ensures c !in s[..i] && c !in s[i + 1..] && s == s[..i] + [c] + s[i + 1..]
  {
    var rest := s[i + 1..];
    CountAround(s, i, c);
    CountNone(s[..i], c);
    CountNone(rest, c);
    assert SplitN(s, c, 2) == [s[..i]] + SplitN(rest, c, 1);
    assert SplitN(rest, c, 1) == [rest];
  }

  /** With two separators or more, splitting at most twice gives three parts. */
  lemma SplitAtFirstTwo(s: string, c: char, i: nat, j: nat)
    requires i == IndexOf(s, c) < |s| && j == IndexOf(s[i + 1..], c) < |s[i + 1..]|
    ensures |SplitN(s, c, 2)| == 3
  {
    var rest := s[i + 1..];
    assert SplitN(s, c, 2) == [s[..i]] + SplitN(rest, c, 1);
    assert SplitN(rest, c, 1) == [rest[..j]] + SplitN(rest[j + 1..], c, 0);
  }

  /** A separator at `i` and another after it make at least two. */
  lemma CountTwo(s: string, c: char, i: nat, j: nat)
    requires i < |s| && s[i] == c && j < |s[i + 1..]| && s[i + 1..][j] == c
    ensures Count(s, c) >= 2
  {
    CountAround(s, i, c);
    assert s[i + 1..][j] in multiset(s[i + 1..]);
  }



  // ---------------------------------------------------------------------
  // Decimal formatting: %d and %08d

  function DigitChar(d: nat): (c: char)
    requires d < 10
    ensures IsDigit(c)
  {
    (48 + d) as char
  }

  function DigitValue(c: char): (d: nat)
    requires IsDigit(c)
    ensures d < 10 && DigitChar(d) == c
  {
    (c as int - 48) as nat
  }

  /** The decimal digits of `n`, without leading zeros (`%d` of a natural). */
  function Digits(n: nat): (s: string)
    ensures 1 <= |s| && All(s, Digit)
    decreases n
  {
    if n < 10 then [DigitChar(n)] else Digits(n / 10) + [DigitChar(n % 10)]
  }

  /** The value of a string of decimal digits. */
  function Value(s: string): nat
    requires All(s, Digit)
    decreases |s|
  {
    if s == [] then 0 else Value(s[..|s| - 1]) * 10 + DigitValue(s[|s| - 1])
  }

  /** Python's `"%d" % n`. */
  function Decimal(n: int): string
  {
    if n < 0 then "-" + Digits(-n) else Digits(n)
  }

  function Zeros(k: nat): (s: string)
    ensures |s| == k && All(s, Digit)
    ensures forall j :: 0 <= j < k ==> s[j] == '0'
  {
    seq(k, _ => '0')
  }

  /** Python's `"%08d" % n` for a natural `n`: at least eight digits. */
  function ZeroPad8(n: nat): (s: string)
    ensures All(s, Digit)
    ensures |s| == if |Digits(n)| >= 8 then |Digits(n)| else 8
  {
    var d := Digits(n);
    if |d| >= 8 then d else Zeros(8 - |d|) + d
  }

  lemma {:induction false} ValueOfDigits(n: nat)
    ensures Value(Digits(n)) == n
    decreases n
  {
    if n >= 10 {
      var s := Digits(n);
      assert s[..|s| - 1] == Digits(n / 10);
      ValueOfDigits(n / 10);
    }
  }

  lemma {:induction false} ValueOfZeroPrefix(k: nat, s: string)
    requires All(s, Digit)
    ensures All(Zeros(k) + s, Digit)
    ensures Value(Zeros(k) + s) == Value(s)
    decreases |s|
  {
    if s == [] {
      ValueOfZeros(k);
      assert Zeros(k) + s == Zeros(k);
    } else {
      var t := Zeros(k) + s;
      assert t[..|t| - 1] == Zeros(k) + s[..|s| - 1];
      ValueOfZeroPrefix(k, s[..|s| - 1]);
    }
  }

  lemma {:induction false} ValueOfZeros(k: nat)
    ensures Value(Zeros(k)) == 0
  {
    if k > 0 {
      assert Zeros(k)[..k - 1] == Zeros(k - 1);
      ValueOfZeros(k - 1);
    }
  }

  /** Reading back a `%08d` field gives the number written. */
  lemma ZeroPad8RoundTrip(n: nat)
    ensures Value(ZeroPad8(n)) == n
  {
    ValueOfDigits(n);
    if |Digits(n)| < 8 {
      ValueOfZeroPrefix(8 - |Digits(n)|, Digits(n));
    }
  }

  /** Distinct revision numbers get distinct `%08d` names. */
  lemma ZeroPad8Injective(m: nat, n: nat)
    requires ZeroPad8(m) == ZeroPad8(n)
    ensures m == n
  {
    ZeroPad8RoundTrip(m);
    ZeroPad8RoundTrip(n);
  }
}
