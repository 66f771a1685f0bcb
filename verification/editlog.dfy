/**
 * `writelog`: a page's `edit-log` is a list of text lines; writing an
 * entry reads the lines already there, adds one line and stores the list
 * sorted as Python sorts strings.
 */
module EditLog {

  import opened Text

  /** The log file inside a page directory. */
  const EditLogName: string := "edit-log"

  /**
   * The fields of the line `writelog` writes. Because `filename` is
   * overwritten with the log's own path before the `is None` branch, the line is
   * always of the `ATTNEW` form, and its last field is the path of the
   * `edit-log` file itself.
   */
  function LogFields(timestamp: int, rev: nat, pagename: string, ipnr: string, author: string,
                     comment: string, logPath: string): (f: seq<string>)
    ensures |f| == 8 && f[2] == "ATTNEW" && f[7] == logPath
  {
    [Decimal(timestamp) + "000000", ZeroPad8(rev), "ATTNEW", pagename, ipnr, author, comment, logPath]
  }

  /** `c.join(fields)`. */
  function Join(fields: seq<string>, c: char): (s: string)
    requires |fields| >= 1
    ensures |s| >= |fields| - 1
    decreases |fields|
  {
    if |fields| == 1 then fields[0] else fields[0] + [c] + Join(fields[1..], c)
  }

  /** The line itself: the fields joined by tabs, ended by a newline. */
  function LogLine(timestamp: int, rev: nat, pagename: string, ipnr: string, author: string,
                   comment: string, logPath: string): (line: string)
    ensures |line| > 0 && line[|line| - 1] == '\n'
    ensures line[..|line| - 1] == Join(LogFields(timestamp, rev, pagename, ipnr, author, comment, logPath), '\t')
  {
    var line := Join(LogFields(timestamp, rev, pagename, ipnr, author, comment, logPath), '\t') + "\n";
    assert line[..|line| - 1] == Join(LogFields(timestamp, rev, pagename, ipnr, author, comment, logPath), '\t');
    line
  }

  // ---------------------------------------------------------------------
  // Reading the fields back

  /** Splitting at the first separator gives the text before it, then the rest split again. */
  lemma SplitFirst(a: string, b: string, c: char, max: nat)
    requires c !in a && max >= 1
    ensures SplitN(a + [c] + b, c, max) == [a] + SplitN(b, c, max - 1)
  {
    var s := a + [c] + b;
    assert s[|a|] == c;
    assert forall k :: 0 <= k < |a| ==> s[k] == a[k];
    assert IndexOf(s, c) == |a|;
    assert s[..|a|] == a && s[|a| + 1..] == b;
  }

  /**
   * Splitting joined fields at as many separators as were put in gives the
   * fields back, provided none but the last holds the separator.
   */
  lemma {:induction false} SplitJoin(fields: seq<string>, c: char)
    requires |fields| >= 1
    requires forall k :: 0 <= k < |fields| - 1 ==> c !in fields[k]
    ensures SplitN(Join(fields, c), c, |fields| - 1) == fields
    decreases |fields|
  {
    if |fields| > 1 {
      var rest := fields[1..];
      assert forall k :: 0 <= k < |rest| - 1 ==> rest[k] == fields[k + 1];
      SplitJoin(rest, c);
      SplitJoinStep(fields, c);
    }
  }

  lemma SplitJoinStep(fields: seq<string>, c: char)
    requires |fields| > 1 && c !in fields[0]
    requires SplitN(Join(fields[1..], c), c, |fields| - 2) == fields[1..]
    ensures SplitN(Join(fields, c), c, |fields| - 1) == fields
  {
    JoinCons(fields, c);
    SplitFirst(fields[0], Join(fields[1..], c), c, |fields| - 1);
    HeadAndTail(fields);
  }

  lemma JoinCons(fields: seq<string>, c: char)
    requires |fields| > 1
    ensures Join(fields, c) == fields[0] + [c] + Join(fields[1..], c)
  {
  }

  lemma HeadAndTail(s: seq<string>)
    requires s != []
    ensures [s[0]] + s[1..] == s
  {
  }

  /** Decimal numbers hold no tab. */
  lemma NumbersHoldNoTab(timestamp: int, rev: nat)
    ensures '\t' !in Decimal(timestamp) + "000000" && '\t' !in ZeroPad8(rev)
  {
    var d := if timestamp < 0 then Digits(-timestamp) else Digits(timestamp);
    assert forall k :: 0 <= k < |d| ==> In(d[k], Digit);
    var s := Decimal(timestamp) + "000000";
    forall k | 0 <= k < |s|
      ensures s[k] != '\t'
    {
      if timestamp < 0 && 0 < k <= |d| {
        assert s[k] == d[k - 1];
      } else if timestamp >= 0 && k < |d| {
        assert s[k] == d[k];
      }
    }
    var z := ZeroPad8(rev);
    assert forall k :: 0 <= k < |z| ==> In(z[k], Digit);
  }

  lemma KindHoldsNoTab()
    ensures '\t' !in "ATTNEW"
  {
  }

  /**
   * A log line read back: splitting it at its first seven tabs gives its
   * fields, the path last (a path may hold tabs), and the revision is read
   * back from its zero-padded field.
   */
  lemma LogLineFields(timestamp: int, rev: nat, pagename: string, ipnr: string, author: string,
                      comment: string, logPath: string)
    requires '\t' !in pagename && '\t' !in ipnr && '\t' !in author && '\t' !in comment
    ensures var line := LogLine(timestamp, rev, pagename, ipnr, author, comment, logPath);
            var fields := SplitN(line[..|line| - 1], '\t', 7);
            fields == LogFields(timestamp, rev, pagename, ipnr, author, comment, logPath) &&
            Value(fields[1]) == rev
  {
    var fields := LogFields(timestamp, rev, pagename, ipnr, author, comment, logPath);
    NumbersHoldNoTab(timestamp, rev);
    KindHoldsNoTab();
    assert forall k :: 0 <= k < 7 ==> '\t' !in fields[k];
    SplitJoin(fields, '\t');
    ZeroPad8RoundTrip(rev);
  }

  // ---------------------------------------------------------------------
  // The order Python gives strings

  /** `a <= b` for Python strings: by character code, a prefix before its extensions. */
  predicate LexLe(a: string, b: string)
    decreases |a|
  {
    a == [] || (b != [] && (a[0] < b[0] || (a[0] == b[0] && LexLe(a[1..], b[1..]))))
  }

  lemma {:induction false} LexLeTotal(a: string, b: string)
    ensures LexLe(a, b) || LexLe(b, a)
    decreases |a|
  {
    if a != [] && b != [] && a[0] == b[0] {
      LexLeTotal(a[1..], b[1..]);
    }
  }

  lemma {:induction false} LexLeTrans(a: string, b: string, c: string)
    requires LexLe(a, b) && LexLe(b, c)
    ensures LexLe(a, c)
    decreases |a|
  {
    if a != [] && a[0] == b[0] && b[0] == c[0] {
      LexLeTrans(a[1..], b[1..], c[1..]);
    }
  }

  lemma {:induction false} LexLeAntisym(a: string, b: string)
    requires LexLe(a, b) && LexLe(b, a)
    ensures a == b
    decreases |a|
  {
    if a != [] {
      LexLeAntisym(a[1..], b[1..]);
      assert a == [a[0]] + a[1..];
      assert b == [b[0]] + b[1..];
    }
  }

  lemma {:induction false} LexLeRefl(a: string)
    ensures LexLe(a, a)
    decreases |a|
  {
    if a != [] {
      LexLeRefl(a[1..]);
    }
  }

  ghost predicate IsSorted(s: seq<string>)
  {
    forall i, j :: 0 <= i < j < |s| ==> LexLe(s[i], s[j])
  }

  // ---------------------------------------------------------------------
  // `lines.sort()`

  /** Puts a line before the first line it does not sort after. */
  function Insert(line: string, s: seq<string>): seq<string>
    decreases |s|
  {
    if s == [] then [line]
    else if LexLe(line, s[0]) then [line] + s
    else [s[0]] + Insert(line, s[1..])
  }

  /** Inserting adds exactly the one line. */
  lemma {:induction false} InsertCounts(line: string, s: seq<string>)
    ensures multiset(Insert(line, s)) == multiset(s) + multiset{line}
    decreases |s|
  {
    if s != [] && !LexLe(line, s[0]) {
      InsertCounts(line, s[1..]);
      assert s == [s[0]] + s[1..];
    }
  }

  /** Inserting into a sorted list keeps it sorted. */
  lemma {:induction false} InsertSorted(line: string, s: seq<string>)
    requires IsSorted(s)
    ensures IsSorted(Insert(line, s))
    decreases |s|
  {
    if s == [] {
    } else if LexLe(line, s[0]) {
      forall j | 0 < j < |s|
        ensures LexLe(line, s[j])
      {
        LexLeTrans(line, s[0], s[j]);
      }
    } else {
      SortedTail(s);
      InsertSorted(line, s[1..]);
      InsertCounts(line, s[1..]);
      LexLeTotal(line, s[0]);
      var tail := Insert(line, s[1..]);
      forall j | 0 <= j < |tail|
        ensures LexLe(s[0], tail[j])
      {
        assert tail[j] in multiset(tail);
        if tail[j] != line {
          assert tail[j] in multiset(s[1..]);
          var k :| 0 <= k < |s[1..]| && s[1..][k] == tail[j];
          assert s[k + 1] == tail[j];
        }
      }
    }
  }

  /** `list.sort()` on the lines, by insertion. */
  function SortLines(s: seq<string>): seq<string>
    decreases |s|
  {
    if s == [] then [] else Insert(s[|s| - 1], SortLines(s[..|s| - 1]))
  }

  /** The sorted lines are in order, and they are the same lines. */
  lemma {:induction false} SortLinesSorts(s: seq<string>)
    ensures IsSorted(SortLines(s)) && multiset(SortLines(s)) == multiset(s)
    decreases |s|
  {
    if s != [] {
      SortLinesSorts(s[..|s| - 1]);
      InsertSorted(s[|s| - 1], SortLines(s[..|s| - 1]));
      InsertCounts(s[|s| - 1], SortLines(s[..|s| - 1]));
      assert s == s[..|s| - 1] + [s[|s| - 1]];
    }
  }

  /**
   * A sorted list is fixed by the lines it holds, so any sort of the same
   * lines gives the same file.
   */
  lemma {:induction false} SortedUnique(a: seq<string>, b: seq<string>)
    requires IsSorted(a) && IsSorted(b) && multiset(a) == multiset(b)
    ensures a == b
    decreases |a|
  {
    if a != [] {
      SameHead(a, b);
      MultisetTail(a);
      MultisetTail(b);
      SortedTail(a);
      SortedTail(b);
      SortedUnique(a[1..], b[1..]);
      assert a == [a[0]] + a[1..];
      assert b == [b[0]] + b[1..];
    }
  }

  /** Two sorted lists of the same lines start with the same line. */
  lemma SameHead(a: seq<string>, b: seq<string>)
    requires IsSorted(a) && IsSorted(b) && multiset(a) == multiset(b) && a != []
    ensures b != [] && a[0] == b[0]
  {
    assert |b| == |multiset(b)| == |a|;
    var i := Position(a, b[0]);
    var j := Position(b, a[0]);
    SortedHead(a, i);
    SortedHead(b, j);
    LexLeAntisym(a[0], b[0]);
  }

  /** Where a line the list holds sits in it. */
  lemma Position(a: seq<string>, x: string) returns (i: nat)
    requires x in multiset(a)
    ensures i < |a| && a[i] == x
  {
    i :| 0 <= i < |a| && a[i] == x;
  }

  lemma MultisetTail(a: seq<string>)
    requires a != []
    ensures multiset(a[1..]) == multiset(a) - multiset{a[0]}
  {
    assert a == [a[0]] + a[1..];
  }

  lemma SortedHead(a: seq<string>, i: nat)
    requires IsSorted(a) && i < |a|
    ensures LexLe(a[0], a[i])
  {
    LexLeRefl(a[0]);
  }

  lemma SortedTail(a: seq<string>)
    requires IsSorted(a) && a != []
    ensures IsSorted(a[1..])
  {
    forall i, j | 0 <= i < j < |a| - 1
      ensures LexLe(a[1..][i], a[1..][j])
    {
      assert a[1..][i] == a[i + 1] && a[1..][j] == a[j + 1];
    }
  }

  /** The log after `writelog`: the lines already there and the new one, sorted. */
  function AppendLine(log: seq<string>, line: string): seq<string>
  {
    SortLines(log + [line])
  }

  /**
   * After `writelog` the log is sorted, holds one line more, the new line
   * and every line it held before.
   */
  lemma AppendLineAdds(log: seq<string>, line: string)
    ensures var r := AppendLine(log, line);
            IsSorted(r) && multiset(r) == multiset(log) + multiset{line} &&
            |r| == |log| + 1 && line in r && forall l :: l in log ==> l in r
  {
    var r := AppendLine(log, line);
    SortLinesSorts(log + [line]);
    assert multiset(log + [line]) == multiset(log) + multiset{line};
    assert |r| == |multiset(r)|;
    assert line in multiset(r);
    assert forall l :: l in log ==> l in multiset(r);
  }

  /** On a sorted log the new line is simply put in its place. */
  lemma AppendToSorted(log: seq<string>, line: string)
    requires IsSorted(log)
    ensures AppendLine(log, line) == Insert(line, log)
  {
    AppendLineAdds(log, line);
    InsertSorted(line, log);
    InsertCounts(line, log);
    SortedUnique(AppendLine(log, line), Insert(line, log));
  }
}
