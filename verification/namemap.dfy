/**
 * The two identifier tables (page names and user names), loaded from
 * `OLD|NEW` text lines, and the lookups made against them
 * (trac2moin.py, lines 64-111).
 */
module NameMap {

  import opened Basics
  import opened Text

  /** Why a map file was refused; `line` is the 0-based index of the line. */
  datatype MapError =
    | FieldCount(line: nat, fields: nat)   // `(old,new) = line.split("|", 2)` failed to unpack
    | EmptyNewName(line: nat)              // `new[0]` on an empty new name

  /** What one line of a map file contributes. */
  datatype LineKind =
    | Blank                                // nothing left after stripping
    | Skipped                              // new name starts with `-`
    | Entry(oldName: string, newName: string)
    | BadFieldCount(fields: nat)
    | EmptyNew
  {
    predicate Malformed() { BadFieldCount? || EmptyNew? }
  }

  /** The treatment of one line by the loading loop. */
  function ClassifyLine(line: string): LineKind
  {
    var s := Strip(line);
    if s == [] then Blank
    else
      var parts := SplitN(s, '|', 2);
      if |parts| != 2 then BadFieldCount(|parts|)
      else if parts[1] == [] then EmptyNew
      else if parts[1][0] == '-' then Skipped
      else Entry(parts[0], parts[1])
  }

  /**
   * A line is blank when it holds only whitespace; otherwise it must hold
   * exactly one `|` with a non-empty new name after it, and it is skipped
   * when that new name starts with `-`.
   */
  lemma ClassifyLineMeaning(line: string)
    ensures ClassifyLine(line).Blank? <==> All(line, Space)
    ensures ClassifyLine(line).BadFieldCount? <==> Strip(line) != [] && Count(Strip(line), '|') != 1
    ensures ClassifyLine(line).Entry? ==>
              var k := ClassifyLine(line);
              Strip(line) == k.oldName + "|" + k.newName && '|' !in k.oldName && '|' !in k.newName &&
              k.newName != [] && k.newName[0] != '-'
    ensures ClassifyLine(line).Skipped? ==>
              exists o, n :: Strip(line) == o + "|" + n && '|' !in o && '|' !in n &&
                n != [] && n[0] == '-'
    ensures ClassifyLine(line).EmptyNew? ==>
              Count(Strip(line), '|') == 1 && Strip(line)[|Strip(line)| - 1] == '|'
  {
    StripEmpty(line);
    var s := Strip(line);
    SplitTwoFields(s, '|');
    if s != [] && |SplitN(s, '|', 2)| == 2 {
      var parts := SplitN(s, '|', 2);
      assert s == parts[0] + "|" + parts[1];
    }
  }

  /** The classification of each line of a map file, in file order. */
  function Classify(lines: seq<string>): (kinds: seq<LineKind>)
    ensures |kinds| == |lines|
    ensures forall i :: 0 <= i < |lines| ==> kinds[i] == ClassifyLine(lines[i])
  {
    seq(|lines|, i requires 0 <= i < |lines| => ClassifyLine(lines[i]))
  }

  /**
   * The table built from classified lines: read in order, blank and
   * skip-marked lines ignored, a later entry for the same old name
   * overwriting an earlier one; the first malformed line aborts the load.
   */
  function Build(kinds: seq<LineKind>): Result<map<string, string>, MapError>
    decreases |kinds|
  {
    if kinds == [] then Success(map[])
    else
      match Build(kinds[..|kinds| - 1])
      case Failure(e) => Failure(e)
      case Success(m) => AddLine(m, kinds[|kinds| - 1], |kinds| - 1)
  }

  function AddLine(m: map<string, string>, k: LineKind, index: nat): Result<map<string, string>, MapError>
  {
    match k
    case Blank => Success(m)
    case Skipped => Success(m)
    case Entry(o, n) => Success(m[o := n])
    case BadFieldCount(n) => Failure(FieldCount(index, n))
    case EmptyNew => Failure(EmptyNewName(index))
  }

  /** The table a map file holds, or the error that aborts reading it. */
  function ParseMap(lines: seq<string>): Result<map<string, string>, MapError>
  {
    Build(Classify(lines))
  }

  /** Once a prefix of the file fails to load, the whole file fails the same way. */
  lemma {:induction false} BuildFailureSticks(kinds: seq<LineKind>, n: nat)
    requires n <= |kinds| && Build(kinds[..n]).Failure?
    ensures Build(kinds) == Build(kinds[..n])
    decreases |kinds| - n
  {
    if n < |kinds| {
      assert kinds[..n + 1][..n] == kinds[..n];
      BuildFailureSticks(kinds, n + 1);
    } else {
      assert kinds[..n] == kinds;
    }
  }

  /** Reads the lines of one map file into a table, as the loading loop does. */
  method LoadMap(lines: seq<string>) returns (r: Result<map<string, string>, MapError>)
    ensures r == ParseMap(lines)
  {
    ghost var kinds := Classify(lines);
    var m: map<string, string> := map[];
    var i := 0;
    while i < |lines|
      invariant 0 <= i <= |lines|
      invariant Build(kinds[..i]) == Success(m)
    {
      ghost var next := Build(kinds[..i + 1]);
      assert kinds[..i + 1][..i] == kinds[..i];
      assert next == AddLine(m, ClassifyLine(lines[i]), i);
      var line := Strip(lines[i]);
      if line != [] {
        var parts := SplitN(line, '|', 2);
        if |parts| != 2 {
          BuildFailureSticks(kinds, i + 1);
          return Failure(FieldCount(i, |parts|));
        }
        var oldName, newName := parts[0], parts[1];
        if newName == [] {
          BuildFailureSticks(kinds, i + 1);
          return Failure(EmptyNewName(i));
        }
        if newName[0] != '-' {
          m := m[oldName := newName];
        }
      }
      i := i + 1;
    }
    assert kinds[..i] == kinds;
    r := Success(m);
  }

  predicate IsEntryFor(k: LineKind, name: string) { k.Entry? && k.oldName == name }

  /**
   * A table built from classified lines holds `name` exactly when some line
   * is a (non-skipped) entry for it, and then maps it to the new name of the
   * last such line.
   */
  lemma {:induction false} BuildLookup(kinds: seq<LineKind>, m: map<string, string>, name: string)
    requires Build(kinds) == Success(m)
    ensures name in m <==> exists i :: 0 <= i < |kinds| && IsEntryFor(kinds[i], name)
    ensures name in m ==>
              exists i :: 0 <= i < |kinds| && kinds[i] == Entry(name, m[name]) &&
                forall j :: i < j < |kinds| ==> !IsEntryFor(kinds[j], name)
    decreases |kinds|
  {
    if kinds != [] {
      var n := |kinds| - 1;
      var init := kinds[..n];
      assert forall i :: 0 <= i < n ==> init[i] == kinds[i];
      var m0 :| Build(init) == Success(m0);
      BuildLookup(init, m0, name);
      if IsEntryFor(kinds[n], name) {
        assert m == m0[name := kinds[n].newName];
      } else {
        assert name in m <==> name in m0;
        if name in m {
          var i :| 0 <= i < n && init[i] == Entry(name, m0[name]) &&
            forall j :: i < j < n ==> !IsEntryFor(init[j], name);
          assert kinds[i] == Entry(name, m[name]);
        }
      }
    }
  }

  /**
   * Building fails exactly when some line is malformed, and the error
   * names the first such line.
   */
  lemma {:induction false} BuildFailure(kinds: seq<LineKind>)
    ensures Build(kinds).Failure? <==> exists i :: 0 <= i < |kinds| && kinds[i].Malformed()
    ensures Build(kinds).Failure? ==>
              var e := Build(kinds).error;
              e.line < |kinds| && kinds[e.line].Malformed() &&
              forall j :: 0 <= j < e.line ==> !kinds[j].Malformed()
    decreases |kinds|
  {
    if kinds != [] {
      var n := |kinds| - 1;
      var init := kinds[..n];
      assert forall i :: 0 <= i < n ==> init[i] == kinds[i];
      BuildFailure(init);
    }
  }

  /**
   * A loaded table holds `name` exactly when some line of the file is an
   * entry for it (not skip-marked), and then maps it to the new name of the
   * last such line: later lines overwrite, a skip-marked line never removes.
   */
  lemma ParseMapLookup(lines: seq<string>, m: map<string, string>, name: string)
    requires ParseMap(lines) == Success(m)
    ensures name in m <==> exists i :: 0 <= i < |lines| && IsEntryFor(ClassifyLine(lines[i]), name)
    ensures name in m ==>
              exists i :: 0 <= i < |lines| && ClassifyLine(lines[i]) == Entry(name, m[name]) &&
                forall j :: i < j < |lines| ==> !IsEntryFor(ClassifyLine(lines[j]), name)
  {
    BuildLookup(Classify(lines), m, name);
  }

  /**
   * Loading a map file fails exactly when one of its lines is malformed,
   * and the error names the first such line.
   */
  lemma ParseMapFailure(lines: seq<string>)
    ensures ParseMap(lines).Failure? <==> exists i :: 0 <= i < |lines| && ClassifyLine(lines[i]).Malformed()
    ensures ParseMap(lines).Failure? ==>
              var e := ParseMap(lines).error;
              e.line < |lines| && ClassifyLine(lines[e.line]).Malformed() &&
              forall j :: 0 <= j < e.line ==> !ClassifyLine(lines[j]).Malformed()
  {
    BuildFailure(Classify(lines));
  }

  /**
   * `lookupname`: `None` for a name missing from the table, otherwise the
   * new name, behind the prefix when one is given and non-empty.
   */
  function LookupName(name: string, m: map<string, string>, prefix: Option<string>): (r: Option<string>)
    ensures r.None? <==> name !in m
    ensures r.Some? && prefix.Some? && prefix.value != [] ==> r.value == prefix.value + m[name]
    ensures r.Some? && (prefix.None? || prefix.value == []) ==> r.value == m[name]
  {
    if name !in m then None
    else if prefix.Some? && prefix.value != [] then Some(prefix.value + m[name])
    else Some(m[name])
  }

  /** `translateuser`: the mapped user name, or the name itself when unmapped. */
  function TranslateUser(user: string, m: map<string, string>): (r: string)
    ensures user !in m ==> r == user
    ensures user in m ==> r == m[user]
  {
    if user in m then m[user] else user
  }

  /**
   * Looking a page name up in a table loaded from `lines`: a result exactly
   * when the file has an entry line for it, and the result ends with the
   * new name of its last entry line.
   */
  lemma LookupLoadedName(lines: seq<string>, m: map<string, string>, name: string, prefix: Option<string>)
    requires ParseMap(lines) == Success(m)
    ensures LookupName(name, m, prefix).Some? <==>
              exists i :: 0 <= i < |lines| && IsEntryFor(ClassifyLine(lines[i]), name)
    ensures LookupName(name, m, prefix).Some? ==>
              exists i, p :: 0 <= i < |lines| && ClassifyLine(lines[i]).Entry? &&
                ClassifyLine(lines[i]).oldName == name &&
                LookupName(name, m, prefix).value == p + ClassifyLine(lines[i]).newName &&
                forall j :: i < j < |lines| ==> !IsEntryFor(ClassifyLine(lines[j]), name)
  {
    ParseMapLookup(lines, m, name);
    if name in m {
      var p := if prefix.Some? && prefix.value != [] then prefix.value else [];
      assert LookupName(name, m, prefix) == Some(p + m[name]) by {
        if p == [] {
          assert p + m[name] == m[name];
        }
      }
    }
  }

  /** A user with no entry line in the user map file keeps their own name. */
  lemma UnlistedUserKept(lines: seq<string>, m: map<string, string>, user: string)
    requires ParseMap(lines) == Success(m)
    requires forall i :: 0 <= i < |lines| ==> !IsEntryFor(ClassifyLine(lines[i]), user)
    ensures TranslateUser(user, m) == user
  {
    ParseMapLookup(lines, m, user);
  }
}
