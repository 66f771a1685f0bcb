/**
 * The export loops of `ConvertWiki.__init__`: every wiki page the name map
 * covers becomes a MoinMoin page directory holding numbered revision files,
 * a `current` file and an `edit-log`; every attachment of such a page is
 * copied next to it and logged. The output directory tree is the `Store`.
 */
module Export {

  import opened Basics
  import opened Text
  import NameMap
  import PageNames
  import Fixup
  import EditLog
  import Substitution

  /** A row of the version query: `version, text, time, author, ipnr, comment`. */
  datatype Version = Version(version: int, text: string, time: int, author: string, ipnr: string, comment: string)

  /**
   * A page the name query yields, its versions in ascending order, and the
   * clock reading taken when its fix-up revision is logged.
   */
  datatype PageRow = PageRow(name: string, versions: seq<Version>, fixTime: int)

  /** A row of the attachment query: `id, filename, time, author, ipnr`. */
  datatype AttachmentRow = AttachmentRow(id: string, filename: string, time: int, author: string, ipnr: string)

  /**
   * The converter's settings once the maps are loaded. `entries` is the
   * order in which `namemap.items()` enumerates the name map.
   */
  datatype Settings = Settings(nameMap: map<string, string>, entries: seq<(string, string)>,
                               userMap: map<string, string>, prefix: Option<string>, inline: bool)

  /**
   * `entries` enumerates the table `m`: each old name once, with its new
   * name, and every entry of the table appears.
   */
  ghost predicate ListsMap(entries: seq<(string, string)>, m: map<string, string>) {
    (forall i, j :: 0 <= i < j < |entries| ==> entries[i].0 != entries[j].0) &&
    (forall o, n :: (o, n) in entries ==> o in m && m[o] == n) &&
    (forall k :: k in m ==> (k, m[k]) in entries)
  }

  /** The log entry the fix-up revision gets. */
  const FixAddress: string := "127.0.0.1"
  const FixAuthor: string := "coling"
  const FixComment: string := "Fix wiki syntax after Trac import"

  /** The revision every attachment entry is logged with. */
  const AttachmentRevision: nat := 99999999

  /** `output`, or `./moin/` when none was given. */
  function OutputDir(output: Option<string>): (dir: string)
    ensures output.None? ==> dir == "./moin/"
    ensures output.Some? ==> dir == output.value
  {
    match output
    case None => "./moin/"
    case Some(d) => d
  }

  /** `os.path.join(a, b)` on POSIX paths. */
  function PathJoin(a: string, b: string): (r: string)
    ensures b != [] && b[0] == '/' ==> r == b
    ensures (b == [] || b[0] != '/') ==> |a| + |b| <= |r| <= |a| + 1 + |b|
  {
    if b != [] && b[0] == '/' then b
    else if a == [] || a[|a| - 1] == '/' then a + b
    else a + "/" + b
  }

  /**
   * The joined path ends with `b`; a relative `b` is appended to `a`, with
   * a `/` separator only when `a` is non-empty and does not already end in one.
   */
  lemma PathJoinJoins(a: string, b: string)
    ensures var r := PathJoin(a, b);
            |r| >= |b| && r[|r| - |b|..] == b &&
            ((b == [] || b[0] != '/') ==>
               r[..|a|] == a && (|r| == |a| + 1 + |b| <==> a != [] && a[|a| - 1] != '/') &&
               (|r| == |a| + 1 + |b| ==> r[|a|] == '/'))
  {
  }

  /** The path `writelog` computes for the edit log of the page directory `page`. */
  function LogPath(root: string, page: string): string
  {
    PathJoin(PathJoin(root, page), EditLog.EditLogName)
  }

  /** `re.match("^[0-9]+$", id)`: `$` also matches before a final newline. */
  predicate DigitsOnly(s: string)
  {
    s != [] && forall k | 0 <= k < |s| :: IsDigit(s[k])
  }

  predicate NumericId(id: string)
  {
    DigitsOnly(id) || (|id| >= 2 && id[|id| - 1] == '\n' && DigitsOnly(id[..|id| - 1]))
  }

  // ---------------------------------------------------------------------
  // What a page export writes

  /** The text one version's revision file holds. */
  function Rendered(text: string, s: Settings): (r: string)
    ensures s.inline ==> r == Fixup.FixupSyntax(text, s.entries, s.prefix)
    ensures !s.inline ==> r == text
  {
    if s.inline then Fixup.FixupSyntax(text, s.entries, s.prefix) else text
  }

  /** The contents of the revisions a page's versions give, in version order. */
  function VersionContents(vs: seq<Version>, s: Settings): (r: seq<string>)
    ensures |r| == |vs|
    decreases |vs|
  {
    if vs == [] then [] else VersionContents(vs[..|vs| - 1], s) + [Rendered(vs[|vs| - 1].text, s)]
  }

  /** Every revision of the page, the fix-up revision last when there is one. */
  function PageContents(vs: seq<Version>, s: Settings): seq<string>
  {
    VersionContents(vs, s) +
    if !s.inline && vs != [] then [Fixup.FixupSyntax(vs[|vs| - 1].text, s.entries, s.prefix)] else []
  }

  /** Revision files numbered from 1, each ending in a newline. */
  function RevisionFiles(contents: seq<string>): (files: map<nat, string>)
    ensures forall k :: k in files <==> 1 <= k <= |contents|
    ensures forall k :: 1 <= k <= |contents| ==> files[k] == contents[k - 1] + "\n"
    decreases |contents|
  {
    if contents == [] then map[]
    else RevisionFiles(contents[..|contents| - 1])[|contents| := contents[|contents| - 1] + "\n"]
  }

  /** The edit-log line of version `vs[k]`, logged as revision `k + 1`. */
  function VersionLine(v: Version, rev: nat, page: string, logPath: string, s: Settings): string
  {
    EditLog.LogLine(v.time, rev, page, v.ipnr, NameMap.TranslateUser(v.author, s.userMap), v.comment, logPath)
  }

  function VersionLines(vs: seq<Version>, page: string, logPath: string, s: Settings): (r: seq<string>)
    ensures |r| == |vs|
    decreases |vs|
  {
    if vs == [] then []
    else VersionLines(vs[..|vs| - 1], page, logPath, s) + [VersionLine(vs[|vs| - 1], |vs|, page, logPath, s)]
  }

  /** The lines a page export adds to the page's edit log, in the order written. */
  function PageLines(row: PageRow, page: string, logPath: string, s: Settings): seq<string>
  {
    var vs := row.versions;
    VersionLines(vs, page, logPath, s) +
    if !s.inline && vs != [] then [EditLog.LogLine(row.fixTime, |vs| + 1, page, FixAddress, FixAuthor, FixComment, logPath)]
    else []
  }

  // ---------------------------------------------------------------------
  // The output tree

  /** The directories and files under the output directory `root`. */
  class Store {
    const root: string
    var revisionDirs: set<string>
    var attachmentDirs: set<string>
    var current: map<string, string>
    var revisions: map<string, map<nat, string>>
    var logs: map<string, seq<string>>
    var attachments: map<string, set<string>>

    constructor(root: string)
      ensures this.root == root
      ensures revisionDirs == {} && attachmentDirs == {} && current == map[]
      ensures revisions == map[] && logs == map[] && attachments == map[]
    {
      this.root := root;
      revisionDirs := {};
      attachmentDirs := {};
      current := map[];
      revisions := map[];
      logs := map[];
      attachments := map[];
    }

    /** Creates the page's `revisions` directory unless it exists. */
    method MakeRevisionsDir(page: string)
      modifies this`revisionDirs
      ensures revisionDirs == old(revisionDirs) + {page}
    {
      if page !in revisionDirs {
        revisionDirs := revisionDirs + {page};
      }
    }

    /** Creates the page's `attachments` directory unless it exists. */
    method MakeAttachmentsDir(page: string)
      modifies this`attachmentDirs
      ensures attachmentDirs == old(attachmentDirs) + {page}
    {
      if page !in attachmentDirs {
        attachmentDirs := attachmentDirs + {page};
      }
    }

    /** Writes `"%08d\n" % i` to the page's `current` file. */
    method WriteCurrent(page: string, i: nat)
      modifies this`current
      ensures current == old(current)[page := ZeroPad8(i) + "\n"]
    {
      current := current[page := ZeroPad8(i) + "\n"];
    }

    /** Writes the content and a newline to revision file `i` of the page. */
    method WriteRevision(page: string, i: nat, content: string)
      modifies this`revisions
      ensures revisions == old(revisions)[page := RevisionsIn(old(revisions), page)[i := content + "\n"]]
    {
      revisions := revisions[page := RevisionsIn(revisions, page)[i := content + "\n"]];
    }

    /**
     * `writelog`: reads the page's log, adds the entry's line and writes the
     * lines back sorted.
     */
    method WriteLog(page: string, timestamp: int, rev: nat, pagename: string, ipnr: string,
                    author: string, comment: string)
      modifies this`logs
      ensures logs == old(logs)[page := EditLog.AppendLine(LinesIn(old(logs), page),
                EditLog.LogLine(timestamp, rev, pagename, ipnr, author, comment, LogPath(root, page)))]
    {
      var filename := LogPath(root, page);
      var lines := LinesIn(logs, page);
      lines := EditLog.AppendLine(lines, EditLog.LogLine(timestamp, rev, pagename, ipnr, author, comment, filename));
      logs := logs[page := lines];
    }

    /** `shutil.copy` of an attachment into the page's attachment directory. */
    method CopyAttachment(page: string, filename: string)
      modifies this`attachments
      ensures attachments == old(attachments)[page := AttachmentsIn(old(attachments), page) + {filename}]
    {
      attachments := attachments[page := AttachmentsIn(attachments, page) + {filename}];
    }
  }

  // ---------------------------------------------------------------------
  // A page's files relative to where its export started

  function RevisionsIn(revisions: map<string, map<nat, string>>, page: string): map<nat, string>
  {
    if page in revisions then revisions[page] else map[]
  }

  function LinesIn(logs: map<string, seq<string>>, page: string): seq<string>
  {
    if page in logs then logs[page] else []
  }

  function AttachmentsIn(attachments: map<string, set<string>>, page: string): set<string>
  {
    if page in attachments then attachments[page] else {}
  }

  /**
   * The store holds what the starting maps held, except that the page has
   * the revision files `contents` over its earlier ones, `current` names the
   * last of them, and its log holds its earlier lines and `lines`, sorted.
   */
  ghost predicate Exported(revisions: map<string, map<nat, string>>, current: map<string, string>,
                           logs: map<string, seq<string>>,
                           revisions0: map<string, map<nat, string>>, current0: map<string, string>,
                           logs0: map<string, seq<string>>, page: string, contents: seq<string>, lines: seq<string>)
  {
    revisions == RevisionsAfter(revisions0, page, contents) &&
    current == CurrentAfter(current0, page, |contents|) &&
    logs == LogsAfter(logs0, page, lines)
  }

  function RevisionsAfter(revisions0: map<string, map<nat, string>>, page: string, contents: seq<string>): map<string, map<nat, string>>
  {
    if contents == [] then revisions0 else revisions0[page := RevisionsIn(revisions0, page) + RevisionFiles(contents)]
  }

  function CurrentAfter(current0: map<string, string>, page: string, n: nat): map<string, string>
  {
    if n == 0 then current0 else current0[page := ZeroPad8(n) + "\n"]
  }

  function LogsAfter(logs0: map<string, seq<string>>, page: string, lines: seq<string>): map<string, seq<string>>
  {
    if lines == [] then logs0 else logs0[page := EditLog.SortLines(LinesIn(logs0, page) + lines)]
  }

  lemma FilesExtend(m: map<nat, string>, contents: seq<string>, x: string)
    ensures m + RevisionFiles(contents + [x]) == (m + RevisionFiles(contents))[|contents| + 1 := x + "\n"]
  {
    var c := contents + [x];
    assert c[..|c| - 1] == contents;
    assert RevisionFiles(c) == RevisionFiles(contents)[|contents| + 1 := x + "\n"];
    MergeUpdate(m, RevisionFiles(contents), |contents| + 1, x + "\n");
  }

  lemma MergeUpdate<K, V>(m: map<K, V>, n: map<K, V>, k: K, v: V)
    ensures m + n[k := v] == (m + n)[k := v]
  {
  }

  /** Appending to a sorted log is sorting the lines with the new one. */
  lemma AppendToSortLines(lines: seq<string>, line: string)
    ensures EditLog.AppendLine(EditLog.SortLines(lines), line) == EditLog.SortLines(lines + [line])
  {
    EditLog.SortLinesSorts(lines);
    EditLog.AppendToSorted(EditLog.SortLines(lines), line);
    assert (lines + [line])[..|lines|] == lines;
  }

  lemma RevisionsStep(revisions0: map<string, map<nat, string>>, revisions1: map<string, map<nat, string>>,
                      page: string, contents: seq<string>, content: string)
    requires revisions1 == RevisionsAfter(revisions0, page, contents)
    ensures revisions1[page := RevisionsIn(revisions1, page)[|contents| + 1 := content + "\n"]] ==
            RevisionsAfter(revisions0, page, contents + [content])
  {
    if contents == [] {
      FirstRevision(revisions0, page, content);
      assert contents + [content] == [content];
    } else {
      LaterRevision(revisions0, page, contents, content);
    }
  }

  lemma FirstRevision(revisions0: map<string, map<nat, string>>, page: string, content: string)
    ensures revisions0[page := RevisionsIn(revisions0, page)[1 := content + "\n"]] ==
            RevisionsAfter(revisions0, page, [content])
  {
    var before := RevisionsIn(revisions0, page);
    FilesExtend(before, [], content);
    assert [] + [content] == [content];
    assert before + RevisionFiles([]) == before;
  }

  lemma LaterRevision(revisions0: map<string, map<nat, string>>, page: string, contents: seq<string>, content: string)
    requires contents != []
    ensures var revisions1 := RevisionsAfter(revisions0, page, contents);
            revisions1[page := RevisionsIn(revisions1, page)[|contents| + 1 := content + "\n"]] ==
            RevisionsAfter(revisions0, page, contents + [content])
  {
    var before := RevisionsIn(revisions0, page);
    var x := before + RevisionFiles(contents);
    assert RevisionsIn(revisions0[page := x], page) == x;
    FilesExtend(before, contents, content);
    SetTwice(revisions0, page, x, before + RevisionFiles(contents + [content]));
  }

  lemma CurrentStep(current0: map<string, string>, current1: map<string, string>, page: string, n: nat)
    requires current1 == CurrentAfter(current0, page, n)
    ensures current1[page := ZeroPad8(n + 1) + "\n"] == CurrentAfter(current0, page, n + 1)
  {
    if n > 0 {
      SetTwice(current0, page, ZeroPad8(n) + "\n", ZeroPad8(n + 1) + "\n");
    }
  }

  lemma LogsStep(logs0: map<string, seq<string>>, logs1: map<string, seq<string>>, page: string,
                 lines: seq<string>, line: string)
    requires logs1 == LogsAfter(logs0, page, lines)
    ensures logs1[page := EditLog.AppendLine(LinesIn(logs1, page), line)] == LogsAfter(logs0, page, lines + [line])
  {
    if lines == [] {
      FirstLine(logs0, page, line);
      assert lines + [line] == [line];
    } else {
      LaterLine(logs0, page, lines, line);
    }
  }

  lemma FirstLine(logs0: map<string, seq<string>>, page: string, line: string)
    ensures logs0[page := EditLog.AppendLine(LinesIn(logs0, page), line)] == LogsAfter(logs0, page, [line])
  {
  }

  lemma LaterLine(logs0: map<string, seq<string>>, page: string, lines: seq<string>, line: string)
    requires lines != []
    ensures var logs1 := LogsAfter(logs0, page, lines);
            logs1[page := EditLog.AppendLine(LinesIn(logs1, page), line)] == LogsAfter(logs0, page, lines + [line])
  {
    var before := LinesIn(logs0, page);
    var x := EditLog.SortLines(before + lines);
    assert LinesIn(logs0[page := x], page) == x;
    AppendToSorted(before, lines, line);
    SetTwice(logs0, page, x, EditLog.SortLines(before + (lines + [line])));
  }

  lemma AppendToSorted(before: seq<string>, lines: seq<string>, line: string)
    ensures EditLog.AppendLine(EditLog.SortLines(before + lines), line) == EditLog.SortLines(before + (lines + [line]))
  {
    AppendToSortLines(before + lines, line);
    assert before + lines + [line] == before + (lines + [line]);
  }

  lemma SetTwice<K, V>(m: map<K, V>, k: K, v: V, w: V)
    ensures m[k := v][k := w] == m[k := w]
  {
  }

  /**
   * Writes the next revision of the page: its number into `current`, its
   * content into its revision file, and its line into the edit log.
   */
  method SaveRevision(store: Store, page: string, i: nat, content: string, timestamp: int, ipnr: string,
                      author: string, comment: string,
                      ghost revisions0: map<string, map<nat, string>>, ghost current0: map<string, string>,
                      ghost logs0: map<string, seq<string>>, ghost contents: seq<string>, ghost lines: seq<string>)
    requires Exported(store.revisions, store.current, store.logs, revisions0, current0, logs0, page, contents, lines)
    requires |lines| == |contents| && i == |contents| + 1
    modifies store`current, store`revisions, store`logs
    ensures Exported(store.revisions, store.current, store.logs, revisions0, current0, logs0, page, contents + [content],
                     lines + [EditLog.LogLine(timestamp, i, page, ipnr, author, comment, LogPath(store.root, page))])
  {
    SaveCurrent(store, page, i, current0, |contents|);
    SaveContent(store, page, i, content, revisions0, contents);
    SaveLogLine(store, page, i, timestamp, ipnr, author, comment, logs0, lines);
  }

  method SaveCurrent(store: Store, page: string, i: nat, ghost current0: map<string, string>, ghost n: nat)
    requires store.current == CurrentAfter(current0, page, n) && i == n + 1
    modifies store`current
    ensures store.current == CurrentAfter(current0, page, i)
  {
    CurrentStep(current0, store.current, page, n);
    store.WriteCurrent(page, i);
  }

  method SaveContent(store: Store, page: string, i: nat, content: string,
                     ghost revisions0: map<string, map<nat, string>>, ghost contents: seq<string>)
    requires store.revisions == RevisionsAfter(revisions0, page, contents) && i == |contents| + 1
    modifies store`revisions
    ensures store.revisions == RevisionsAfter(revisions0, page, contents + [content])
  {
    RevisionsStep(revisions0, store.revisions, page, contents, content);
    store.WriteRevision(page, i, content);
  }

  method SaveLogLine(store: Store, page: string, i: nat, timestamp: int, ipnr: string, author: string, comment: string,
                     ghost logs0: map<string, seq<string>>, ghost lines: seq<string>)
    requires store.logs == LogsAfter(logs0, page, lines)
    modifies store`logs
    ensures store.logs == LogsAfter(logs0, page, lines + [EditLog.LogLine(timestamp, i, page, ipnr, author, comment,
                                                                          LogPath(store.root, page))])
  {
    LogsStep(logs0, store.logs, page, lines, EditLog.LogLine(timestamp, i, page, ipnr, author, comment, LogPath(store.root, page)));
    store.WriteLog(page, timestamp, i, page, ipnr, author, comment);
  }

  // ---------------------------------------------------------------------
  // The page loop

  lemma ContentsExtend(vs: seq<Version>, i: nat, s: Settings)
    requires i < |vs|
    ensures VersionContents(vs[..i + 1], s) == VersionContents(vs[..i], s) + [Rendered(vs[i].text, s)]
  {
    assert vs[..i + 1][..i] == vs[..i];
  }

  lemma LinesExtend(vs: seq<Version>, i: nat, page: string, logPath: string, s: Settings)
    requires i < |vs|
    ensures VersionLines(vs[..i + 1], page, logPath, s) ==
            VersionLines(vs[..i], page, logPath, s) + [VersionLine(vs[i], i + 1, page, logPath, s)]
  {
    assert vs[..i + 1][..i] == vs[..i];
  }

  lemma WithFixRevision(row: PageRow, page: string, logPath: string, s: Settings)
    requires !s.inline && row.versions != []
    ensures var vs := row.versions;
            PageContents(vs, s) == VersionContents(vs, s) + [Fixup.FixupSyntax(vs[|vs| - 1].text, s.entries, s.prefix)] &&
            PageLines(row, page, logPath, s) ==
              VersionLines(vs, page, logPath, s) + [EditLog.LogLine(row.fixTime, |vs| + 1, page, FixAddress, FixAuthor, FixComment, logPath)]
  {
  }

  lemma WithoutFixRevision(row: PageRow, page: string, logPath: string, s: Settings)
    requires s.inline || row.versions == []
    ensures PageContents(row.versions, s) == VersionContents(row.versions, s)
    ensures PageLines(row, page, logPath, s) == VersionLines(row.versions, page, logPath, s)
  {
    assert VersionContents(row.versions, s) + [] == VersionContents(row.versions, s);
    assert VersionLines(row.versions, page, logPath, s) + [] == VersionLines(row.versions, page, logPath, s);
  }

  /** One pass of the version loop: revision `i + 1` holds version `vs[i]`. */
  method ExportVersion(store: Store, page: string, vs: seq<Version>, i: nat, s: Settings,
                       ghost revisions0: map<string, map<nat, string>>, ghost current0: map<string, string>,
                       ghost logs0: map<string, seq<string>>) returns (content: string)
    requires i < |vs|
    requires Exported(store.revisions, store.current, store.logs, revisions0, current0, logs0, page,
                      VersionContents(vs[..i], s), VersionLines(vs[..i], page, LogPath(store.root, page), s))
    modifies store`current, store`revisions, store`logs
    ensures content == Rendered(vs[i].text, s)
    ensures Exported(store.revisions, store.current, store.logs, revisions0, current0, logs0, page,
                     VersionContents(vs[..i + 1], s), VersionLines(vs[..i + 1], page, LogPath(store.root, page), s))
  {
    var v := vs[i];
    content := v.text;
    if s.inline {
      content := Fixup.FixupSyntax(content, s.entries, s.prefix);
    }
    var logPath := LogPath(store.root, page);
    SaveRevision(store, page, i + 1, content, v.time, v.ipnr, NameMap.TranslateUser(v.author, s.userMap), v.comment,
                 revisions0, current0, logs0, VersionContents(vs[..i], s), VersionLines(vs[..i], page, logPath, s));
    ContentsExtend(vs, i, s);
    LinesExtend(vs, i, page, logPath, s);
  }

  /**
   * Exports one page to the directory `page`: revision `i` for the `i`-th
   * version (the fixed-up text with inline fix-ups), then without inline
   * fix-ups one more revision holding the fixed-up text of the last version;
   * `current` names the last revision, and each revision is logged.
   */
  method ExportPage(store: Store, row: PageRow, page: string, s: Settings)
    modifies store`revisionDirs, store`current, store`revisions, store`logs
    ensures store.revisionDirs == old(store.revisionDirs) + {page}
    ensures Exported(store.revisions, store.current, store.logs, old(store.revisions), old(store.current), old(store.logs), page,
                     PageContents(row.versions, s), PageLines(row, page, LogPath(store.root, page), s))
  {
    store.MakeRevisionsDir(page);
    var vs := row.versions;
    ghost var revisions0, current0, logs0 := store.revisions, store.current, store.logs;
    var content := ExportVersions(store, page, vs, s);
    if !s.inline && vs != [] {
      SaveFixRevision(store, row, page, content, s, revisions0, current0, logs0);
    } else {
      WithoutFixRevision(row, page, LogPath(store.root, page), s);
    }
  }

  /**
   * Without inline fix-ups, one more revision holding the fixed-up text of
   * the last version, logged as the fixing edit.
   */
  method SaveFixRevision(store: Store, row: PageRow, page: string, content: string, s: Settings,
                         ghost revisions0: map<string, map<nat, string>>, ghost current0: map<string, string>,
                         ghost logs0: map<string, seq<string>>)
    requires !s.inline && row.versions != []
    requires content == Rendered(row.versions[|row.versions| - 1].text, s)
    requires Exported(store.revisions, store.current, store.logs, revisions0, current0, logs0, page, VersionContents(row.versions, s),
                      VersionLines(row.versions, page, LogPath(store.root, page), s))
    modifies store`current, store`revisions, store`logs
    ensures Exported(store.revisions, store.current, store.logs, revisions0, current0, logs0, page, PageContents(row.versions, s),
                     PageLines(row, page, LogPath(store.root, page), s))
  {
    var vs := row.versions;
    var fixed := Fixup.FixupSyntax(content, s.entries, s.prefix);
    var logPath := LogPath(store.root, page);
    SaveRevision(store, page, |vs| + 1, fixed, row.fixTime, FixAddress, FixAuthor, FixComment,
                 revisions0, current0, logs0, VersionContents(vs, s), VersionLines(vs, page, logPath, s));
    WithFixRevision(row, page, logPath, s);
  }

  /** The version loop: revision `i + 1` for each version `vs[i]`, in order. */
  method ExportVersions(store: Store, page: string, vs: seq<Version>, s: Settings) returns (content: string)
    modifies store`current, store`revisions, store`logs
    ensures vs != [] ==> content == Rendered(vs[|vs| - 1].text, s)
    ensures Exported(store.revisions, store.current, store.logs, old(store.revisions), old(store.current), old(store.logs), page,
                     VersionContents(vs, s), VersionLines(vs, page, LogPath(store.root, page), s))
  {
    var logPath := LogPath(store.root, page);
    ghost var revisions0, current0, logs0 := store.revisions, store.current, store.logs;
    var i := 0;
    content := "";
    while i < |vs|
      invariant i <= |vs|
      invariant i > 0 ==> content == Rendered(vs[i - 1].text, s)
      invariant Exported(store.revisions, store.current, store.logs, revisions0, current0, logs0, page,
                         VersionContents(vs[..i], s), VersionLines(vs[..i], page, logPath, s))
    {
      content := ExportVersion(store, page, vs, i, s, revisions0, current0, logs0);
      i := i + 1;
    }
    assert vs[..i] == vs;
  }

  // ---------------------------------------------------------------------
  // What one page export amounts to

  /** Revision `k + 1` holds version `k` as rendered. */
  lemma {:induction false} VersionContentsAt(vs: seq<Version>, s: Settings)
    ensures forall k :: 0 <= k < |vs| ==> VersionContents(vs, s)[k] == Rendered(vs[k].text, s)
    decreases |vs|
  {
    if vs != [] {
      var init := vs[..|vs| - 1];
      VersionContentsAt(init, s);
      var r := VersionContents(vs, s);
      assert r == VersionContents(init, s) + [Rendered(vs[|vs| - 1].text, s)];
      forall k | 0 <= k < |vs|
        ensures r[k] == Rendered(vs[k].text, s)
      {
        if k < |init| {
          assert init[k] == vs[k];
          assert r[k] == VersionContents(init, s)[k];
        }
      }
    }
  }

  /** Log line `k` is version `k`'s entry, logged as revision `k + 1`. */
  lemma {:induction false} VersionLinesAt(vs: seq<Version>, page: string, logPath: string, s: Settings)
    ensures forall k :: 0 <= k < |vs| ==> VersionLines(vs, page, logPath, s)[k] == VersionLine(vs[k], k + 1, page, logPath, s)
    decreases |vs|
  {
    if vs != [] {
      var init := vs[..|vs| - 1];
      VersionLinesAt(init, page, logPath, s);
      var r := VersionLines(vs, page, logPath, s);
      assert r == VersionLines(init, page, logPath, s) + [VersionLine(vs[|vs| - 1], |vs|, page, logPath, s)];
      forall k | 0 <= k < |vs|
        ensures r[k] == VersionLine(vs[k], k + 1, page, logPath, s)
      {
        if k < |init| {
          assert init[k] == vs[k];
          assert r[k] == VersionLines(init, page, logPath, s)[k];
        } else {
          assert k + 1 == |vs|;
        }
      }
    }
  }

  /**
   * A page with `n` versions gets `n` revisions, one more without inline
   * fix-ups when `n > 0`. Revision `k + 1` is version `k`'s text, fixed up
   * when fix-ups are inline; the extra revision is the fixed-up text of
   * the last version.
   */
  lemma PageRevisions(vs: seq<Version>, s: Settings)
    ensures var r := PageContents(vs, s);
            |r| == (if !s.inline && vs != [] then |vs| + 1 else |vs|) &&
            (forall k :: 0 <= k < |vs| ==> r[k] == Rendered(vs[k].text, s)) &&
            (s.inline ==> forall k :: 0 <= k < |vs| ==> r[k] == Fixup.FixupSyntax(vs[k].text, s.entries, s.prefix)) &&
            (!s.inline ==> forall k :: 0 <= k < |vs| ==> r[k] == vs[k].text) &&
            (!s.inline && vs != [] ==> r[|vs|] == Fixup.FixupSyntax(vs[|vs| - 1].text, s.entries, s.prefix))
  {
    VersionContentsAt(vs, s);
  }

  /**
   * The page's log gets one line per revision: version `k`'s time, address,
   * translated author and comment as revision `k + 1`, and for the extra
   * revision the fixing edit's clock reading, address, author and comment.
   */
  lemma PageLog(row: PageRow, page: string, logPath: string, s: Settings)
    ensures var vs := row.versions;
            var lines := PageLines(row, page, logPath, s);
            |lines| == |PageContents(vs, s)| &&
            (forall k :: 0 <= k < |vs| ==> lines[k] == EditLog.LogLine(vs[k].time, k + 1, page, vs[k].ipnr,
                                                                          NameMap.TranslateUser(vs[k].author, s.userMap),
                                                                          vs[k].comment, logPath)) &&
            (!s.inline && vs != [] ==>
               lines[|vs|] == EditLog.LogLine(row.fixTime, |vs| + 1, page, FixAddress, FixAuthor, FixComment, logPath))
  {
    VersionLinesAt(row.versions, page, logPath, s);
  }

  /**
   * When the last version holds no link, no bracket and no name of the map,
   * the fix-up revision repeats the last revision.
   */
  lemma PlainPageFixRepeats(vs: seq<Version>, s: Settings)
    requires !s.inline && vs != []
    requires '[' !in vs[|vs| - 1].text
    requires forall e :: e in s.entries ==>
               !Substitution.Occurs(vs[|vs| - 1].text, e.0) &&
               !Substitution.Occurs(vs[|vs| - 1].text, Fixup.PrefixText(s.prefix) + e.1)
    ensures PageContents(vs, s)[|vs|] == PageContents(vs, s)[|vs| - 1] == vs[|vs| - 1].text
  {
    PageRevisions(vs, s);
    Fixup.FixupKeepsPlainText(vs[|vs| - 1].text, s.entries, s.prefix);
  }

  /** Revision `k` of the page holds `contents[k - 1]` and a newline; other revisions stay. */
  lemma ExportedRevisions(revisions: map<string, map<nat, string>>, revisions0: map<string, map<nat, string>>,
                          page: string, contents: seq<string>)
    requires revisions == RevisionsAfter(revisions0, page, contents) && contents != []
    ensures page in revisions
    ensures forall k :: 1 <= k <= |contents| ==> k in revisions[page] && revisions[page][k] == contents[k - 1] + "\n"
    ensures forall k :: k in RevisionsIn(revisions0, page) && !(1 <= k <= |contents|) ==>
              k in revisions[page] && revisions[page][k] == revisions0[page][k]
    ensures forall k :: k in revisions[page] ==> k in RevisionsIn(revisions0, page) || 1 <= k <= |contents|
    ensures forall p :: p != page ==> (p in revisions <==> p in revisions0) && (p in revisions ==> revisions[p] == revisions0[p])
  {
  }

  /** The page's `current` file names its last revision, `%08d` and a newline. */
  lemma ExportedCurrent(current: map<string, string>, current0: map<string, string>, page: string, n: nat)
    requires current == CurrentAfter(current0, page, n) && n > 0
    ensures page in current && |current[page]| >= 9 && current[page][|current[page]| - 1] == '\n'
    ensures var number := current[page][..|current[page]| - 1]; All(number, Digit) && Value(number) == n
    ensures forall p :: p != page ==> (p in current <==> p in current0) && (p in current ==> current[p] == current0[p])
  {
    var number := ZeroPad8(n);
    assert current[page][..|current[page]| - 1] == number;
    ZeroPad8RoundTrip(n);
  }

  /** The page's log is sorted and holds its earlier lines and the new ones. */
  lemma ExportedLog(logs: map<string, seq<string>>, logs0: map<string, seq<string>>, page: string, lines: seq<string>)
    requires logs == LogsAfter(logs0, page, lines) && lines != []
    ensures page in logs && EditLog.IsSorted(logs[page])
    ensures multiset(logs[page]) == multiset(LinesIn(logs0, page)) + multiset(lines)
    ensures forall p :: p != page ==> (p in logs <==> p in logs0) && (p in logs ==> logs[p] == logs0[p])
  {
    EditLog.SortLinesSorts(LinesIn(logs0, page) + lines);
  }

  // ---------------------------------------------------------------------
  // The loop over the wiki's pages

  /** The page files of the output tree: revision files, `current` files and edit logs. */
  datatype Files = Files(revisions: map<string, map<nat, string>>, current: map<string, string>,
                         logs: map<string, seq<string>>)

  /** The page directory `lookupname` and `moinname` give a Trac page name, if any. */
  function Target(name: string, s: Settings): (t: Option<string>)
    ensures t.None? <==> name !in s.nameMap
  {
    match NameMap.LookupName(name, s.nameMap, s.prefix)
    case None => None
    case Some(newName) => Some(PageNames.MoinName(newName))
  }

  /** The page files after `row` is exported to `page`. */
  function PageExport(f: Files, row: PageRow, page: string, s: Settings, root: string): Files
  {
    var contents := PageContents(row.versions, s);
    Files(RevisionsAfter(f.revisions, page, contents), CurrentAfter(f.current, page, |contents|),
          LogsAfter(f.logs, page, PageLines(row, page, LogPath(root, page), s)))
  }

  /** The page files after the loop has visited `rows`, in order. */
  function PagesExport(f: Files, rows: seq<PageRow>, s: Settings, root: string): Files
    decreases |rows|
  {
    if rows == [] then f
    else
      var f1 := PagesExport(f, rows[..|rows| - 1], s, root);
      match Target(rows[|rows| - 1].name, s)
      case None => f1
      case Some(page) => PageExport(f1, rows[|rows| - 1], page, s, root)
  }

  /** The page directories the loop creates for `rows`. */
  function Targets(rows: seq<PageRow>, s: Settings): set<string>
    decreases |rows|
  {
    if rows == [] then {}
    else
      var init := Targets(rows[..|rows| - 1], s);
      match Target(rows[|rows| - 1].name, s)
      case None => init
      case Some(page) => init + {page}
  }

  /** The directories the page loop creates are those of the entries it takes. */
  lemma {:induction false} TargetsMeaning(rows: seq<PageRow>, s: Settings)
    ensures forall page :: page in Targets(rows, s) <==> exists k :: 0 <= k < |rows| && Target(rows[k].name, s) == Some(page)
    decreases |rows|
  {
    if rows != [] {
      var init := rows[..|rows| - 1];
      TargetsMeaning(init, s);
      assert forall k :: 0 <= k < |init| ==> init[k] == rows[k];
    }
  }

  /** One pass of the page loop: the `i`-th row is exported when the map names it. */
  method ConvertPage(store: Store, rows: seq<PageRow>, i: nat, s: Settings, ghost f0: Files, ghost dirs0: set<string>)
    requires i < |rows|
    requires store.revisionDirs == dirs0 + Targets(rows[..i], s)
    requires Files(store.revisions, store.current, store.logs) == PagesExport(f0, rows[..i], s, store.root)
    modifies store`revisionDirs, store`current, store`revisions, store`logs
    ensures store.revisionDirs == dirs0 + Targets(rows[..i + 1], s)
    ensures Files(store.revisions, store.current, store.logs) == PagesExport(f0, rows[..i + 1], s, store.root)
  {
    var row := rows[i];
    assert rows[..i + 1][..i] == rows[..i];
    var newName := NameMap.LookupName(row.name, s.nameMap, s.prefix);
    if newName.Some? {
      var page := PageNames.MoinName(newName.value);
      ExportPage(store, row, page, s);
    }
  }

  /**
   * The page loop: every row whose name the map holds is exported, in
   * order, to the directory its new name gives.
   */
  method ConvertPages(store: Store, rows: seq<PageRow>, s: Settings)
    requires ListsMap(s.entries, s.nameMap)
    modifies store`revisionDirs, store`current, store`revisions, store`logs
    ensures store.revisionDirs == old(store.revisionDirs) + Targets(rows, s)
    ensures Files(store.revisions, store.current, store.logs) ==
            PagesExport(Files(old(store.revisions), old(store.current), old(store.logs)), rows, s, store.root)
  {
    ghost var f0 := Files(store.revisions, store.current, store.logs);
    ghost var dirs0 := store.revisionDirs;
    var i := 0;
    while i < |rows|
      invariant i <= |rows|
      invariant store.revisionDirs == dirs0 + Targets(rows[..i], s)
      invariant Files(store.revisions, store.current, store.logs) == PagesExport(f0, rows[..i], s, store.root)
    {
      ConvertPage(store, rows, i, s, f0, dirs0);
      i := i + 1;
    }
    assert rows[..i] == rows;
  }

  /** The two trees hold the same files for `page`. */
  predicate SameAt(f: Files, g: Files, page: string)
  {
    (page in f.revisions <==> page in g.revisions) && (page in f.revisions ==> f.revisions[page] == g.revisions[page]) &&
    (page in f.current <==> page in g.current) && (page in f.current ==> f.current[page] == g.current[page]) &&
    (page in f.logs <==> page in g.logs) && (page in f.logs ==> f.logs[page] == g.logs[page])
  }

  /** Exporting to one page leaves every other page's files alone. */
  lemma ExportElsewhere(f: Files, row: PageRow, target: string, s: Settings, root: string, page: string)
    requires target != page
    ensures SameAt(PageExport(f, row, target, s, root), f, page)
  {
  }

  /** What an export writes to a page depends only on the page's earlier files. */
  lemma ExportSameAt(f: Files, g: Files, row: PageRow, page: string, s: Settings, root: string)
    requires SameAt(f, g, page)
    ensures SameAt(PageExport(f, row, page, s, root), PageExport(g, row, page, s, root), page)
  {
    var contents := PageContents(row.versions, s);
    RevisionsSameAt(f.revisions, g.revisions, page, contents);
    CurrentSameAt(f.current, g.current, page, |contents|);
    LogsSameAt(f.logs, g.logs, page, PageLines(row, page, LogPath(root, page), s));
  }

  lemma RevisionsSameAt(m: map<string, map<nat, string>>, n: map<string, map<nat, string>>, page: string, contents: seq<string>)
    requires (page in m <==> page in n) && (page in m ==> m[page] == n[page])
    ensures var m1, n1 := RevisionsAfter(m, page, contents), RevisionsAfter(n, page, contents);
            (page in m1 <==> page in n1) && (page in m1 ==> m1[page] == n1[page])
  {
    assert RevisionsIn(m, page) == RevisionsIn(n, page);
  }

  lemma CurrentSameAt(m: map<string, string>, n: map<string, string>, page: string, count: nat)
    requires (page in m <==> page in n) && (page in m ==> m[page] == n[page])
    ensures var m1, n1 := CurrentAfter(m, page, count), CurrentAfter(n, page, count);
            (page in m1 <==> page in n1) && (page in m1 ==> m1[page] == n1[page])
  {
  }

  lemma LogsSameAt(m: map<string, seq<string>>, n: map<string, seq<string>>, page: string, lines: seq<string>)
    requires (page in m <==> page in n) && (page in m ==> m[page] == n[page])
    ensures var m1, n1 := LogsAfter(m, page, lines), LogsAfter(n, page, lines);
            (page in m1 <==> page in n1) && (page in m1 ==> m1[page] == n1[page])
  {
    assert LinesIn(m, page) == LinesIn(n, page);
  }

  /** A page no row is sent to keeps its files through the loop. */
  lemma {:induction false} Untouched(f: Files, rows: seq<PageRow>, s: Settings, root: string, page: string)
    requires forall k :: 0 <= k < |rows| ==> Target(rows[k].name, s) != Some(page)
    ensures SameAt(PagesExport(f, rows, s, root), f, page)
    decreases |rows|
  {
    if rows != [] {
      var init := rows[..|rows| - 1];
      assert forall k :: 0 <= k < |init| ==> init[k] == rows[k];
      Untouched(f, init, s, root, page);
      match Target(rows[|rows| - 1].name, s)
      case None =>
      case Some(target) =>
        ExportElsewhere(PagesExport(f, init, s, root), rows[|rows| - 1], target, s, root, page);
    }
  }

  /**
   * A page exactly one row is sent to ends up with the files that row's
   * export writes over the page's files from before the loop.
   */
  lemma {:induction false} OnlyRow(f: Files, rows: seq<PageRow>, s: Settings, root: string, j: nat, page: string)
    requires j < |rows| && Target(rows[j].name, s) == Some(page)
    requires forall k :: 0 <= k < |rows| && k != j ==> Target(rows[k].name, s) != Some(page)
    ensures SameAt(PagesExport(f, rows, s, root), PageExport(f, rows[j], page, s, root), page)
    decreases |rows|
  {
    if j == |rows| - 1 {
      OnlyRowLast(f, rows, s, root, page);
    } else {
      var init := rows[..|rows| - 1];
      assert forall k :: 0 <= k < |init| ==> init[k] == rows[k];
      OnlyRow(f, init, s, root, j, page);
      match Target(rows[|rows| - 1].name, s)
      case None =>
      case Some(target) =>
        ExportElsewhere(PagesExport(f, init, s, root), rows[|rows| - 1], target, s, root, page);
    }
  }

  lemma OnlyRowLast(f: Files, rows: seq<PageRow>, s: Settings, root: string, page: string)
    requires rows != [] && Target(rows[|rows| - 1].name, s) == Some(page)
    requires forall k :: 0 <= k < |rows| - 1 ==> Target(rows[k].name, s) != Some(page)
    ensures SameAt(PagesExport(f, rows, s, root), PageExport(f, rows[|rows| - 1], page, s, root), page)
  {
    var init := rows[..|rows| - 1];
    assert forall k :: 0 <= k < |init| ==> init[k] == rows[k];
    Untouched(f, init, s, root, page);
    ExportSameAt(PagesExport(f, init, s, root), f, rows[|rows| - 1], page, s, root);
  }

  /** With an empty name map no page is converted and no directory is made. */
  lemma {:induction false} EmptyMapConvertsNothing(f: Files, rows: seq<PageRow>, s: Settings, root: string)
    requires s.nameMap == map[]
    ensures PagesExport(f, rows, s, root) == f && Targets(rows, s) == {}
    decreases |rows|
  {
    if rows != [] {
      EmptyMapConvertsNothing(f, rows[..|rows| - 1], s, root);
    }
  }

  // ---------------------------------------------------------------------
  // The loop over the wiki's attachments

  /**
   * The page directory an attachment is copied to: none for an id of digits
   * only (which `re.match("^[0-9]+$", id)` takes for a ticket) or for a page
   * the map lacks.
   */
  function AttachmentTarget(a: AttachmentRow, s: Settings): (t: Option<string>)
    ensures NumericId(a.id) ==> t.None?
    ensures !NumericId(a.id) ==> t == Target(a.id, s)
  {
    if NumericId(a.id) then None else Target(a.id, s)
  }

  /** The edit-log line an attachment gets: revision 99999999, no comment. */
  function AttachmentLine(a: AttachmentRow, page: string, s: Settings, root: string): string
  {
    EditLog.LogLine(a.time, AttachmentRevision, page, a.ipnr, NameMap.TranslateUser(a.author, s.userMap), "",
                    LogPath(root, page))
  }

  /** The attachment files and edit logs of the output tree. */
  datatype Attached = Attached(attachments: map<string, set<string>>, logs: map<string, seq<string>>)

  /** The files an attachment adds to `page`: the copy, and its line in the edit log. */
  function Attach(f: Attached, a: AttachmentRow, page: string, s: Settings, root: string): Attached
  {
    Attached(f.attachments[page := AttachmentsIn(f.attachments, page) + {a.filename}],
             f.logs[page := EditLog.AppendLine(LinesIn(f.logs, page), AttachmentLine(a, page, s, root))])
  }

  /** Attachment files and logs after the loop has visited `atts`, in order. */
  function AttachmentsExport(f: Attached, atts: seq<AttachmentRow>, s: Settings, root: string): Attached
    decreases |atts|
  {
    if atts == [] then f
    else
      var f1 := AttachmentsExport(f, atts[..|atts| - 1], s, root);
      var a := atts[|atts| - 1];
      match AttachmentTarget(a, s)
      case None => f1
      case Some(page) => Attach(f1, a, page, s, root)
  }

  /** The page directories the attachment loop creates for `atts`. */
  function AttachmentTargets(atts: seq<AttachmentRow>, s: Settings): set<string>
    decreases |atts|
  {
    if atts == [] then {}
    else
      var init := AttachmentTargets(atts[..|atts| - 1], s);
      match AttachmentTarget(atts[|atts| - 1], s)
      case None => init
      case Some(page) => init + {page}
  }

  /** The directories the attachment loop creates are those of the entries it takes. */
  lemma {:induction false} AttachmentTargetsMeaning(atts: seq<AttachmentRow>, s: Settings)
    ensures forall page :: page in AttachmentTargets(atts, s) <==> exists k :: 0 <= k < |atts| && AttachmentTarget(atts[k], s) == Some(page)
    decreases |atts|
  {
    if atts != [] {
      var init := atts[..|atts| - 1];
      AttachmentTargetsMeaning(init, s);
      assert forall k :: 0 <= k < |init| ==> init[k] == atts[k];
    }
  }

  /** An attachment the loop skips changes nothing. */
  lemma AttachmentSkipped(f0: Attached, atts: seq<AttachmentRow>, i: nat, s: Settings, root: string)
    requires i < |atts| && AttachmentTarget(atts[i], s).None?
    ensures AttachmentsExport(f0, atts[..i + 1], s, root) == AttachmentsExport(f0, atts[..i], s, root)
    ensures AttachmentTargets(atts[..i + 1], s) == AttachmentTargets(atts[..i], s)
  {
    assert atts[..i + 1][..i] == atts[..i];
  }

  /** An attachment the loop takes adds its copy and its log line to its page. */
  lemma AttachmentTaken(f0: Attached, atts: seq<AttachmentRow>, i: nat, s: Settings, root: string, page: string)
    requires i < |atts| && AttachmentTarget(atts[i], s) == Some(page)
    ensures AttachmentsExport(f0, atts[..i + 1], s, root) == Attach(AttachmentsExport(f0, atts[..i], s, root), atts[i], page, s, root)
    ensures AttachmentTargets(atts[..i + 1], s) == AttachmentTargets(atts[..i], s) + {page}
  {
    assert atts[..i + 1][..i] == atts[..i];
  }

  /** The edit-log lines the attachment loop adds to `page`, in the order written. */
  function AttachmentLines(atts: seq<AttachmentRow>, page: string, s: Settings, root: string): seq<string>
    decreases |atts|
  {
    if atts == [] then []
    else
      var init := AttachmentLines(atts[..|atts| - 1], page, s, root);
      var a := atts[|atts| - 1];
      if AttachmentTarget(a, s) == Some(page) then init + [AttachmentLine(a, page, s, root)] else init
  }

  /** The files of the attachment rows whose page maps to `page`. */
  ghost function FilesFor(atts: seq<AttachmentRow>, page: string, s: Settings): set<string>
  {
    set k | 0 <= k < |atts| && AttachmentTarget(atts[k], s) == Some(page) :: atts[k].filename
  }

  lemma FilesForStep(atts: seq<AttachmentRow>, page: string, s: Settings)
    requires atts != []
    ensures var a := atts[|atts| - 1];
            FilesFor(atts, page, s) ==
            FilesFor(atts[..|atts| - 1], page, s) + if AttachmentTarget(a, s) == Some(page) then {a.filename} else {}
  {
    var init, a := atts[..|atts| - 1], atts[|atts| - 1];
    var extra: set<string> := if AttachmentTarget(a, s) == Some(page) then {a.filename} else {};
    forall x | x in FilesFor(atts, page, s)
      ensures x in FilesFor(init, page, s) + extra
    {
      var k :| 0 <= k < |atts| && AttachmentTarget(atts[k], s) == Some(page) && atts[k].filename == x;
      if k < |init| {
        assert init[k] == atts[k];
      }
    }
    forall x | x in FilesFor(init, page, s)
      ensures x in FilesFor(atts, page, s)
    {
      var k :| 0 <= k < |init| && AttachmentTarget(init[k], s) == Some(page) && init[k].filename == x;
      assert atts[k] == init[k];
    }
  }

  /**
   * After the attachment loop, the attachments directory of `page` holds
   * what it held before and the file of every attachment row whose page
   * maps to `page`.
   */
  lemma {:induction false} AttachmentsCopied(f: Attached, atts: seq<AttachmentRow>, s: Settings, root: string, page: string)
    ensures AttachmentsIn(AttachmentsExport(f, atts, s, root).attachments, page) ==
            AttachmentsIn(f.attachments, page) + FilesFor(atts, page, s)
    decreases |atts|
  {
    if atts != [] {
      AttachmentsCopied(f, atts[..|atts| - 1], s, root, page);
      FilesForStep(atts, page, s);
    }
  }

  /**
   * After the attachment loop, the edit log of `page` holds its earlier
   * lines and one line per attachment of the page.
   */
  lemma {:induction false} AttachmentsLogged(f: Attached, atts: seq<AttachmentRow>, s: Settings, root: string, page: string)
    ensures multiset(LinesIn(AttachmentsExport(f, atts, s, root).logs, page)) ==
            multiset(LinesIn(f.logs, page)) + multiset(AttachmentLines(atts, page, s, root))
    decreases |atts|
  {
    if atts != [] {
      var init, a := atts[..|atts| - 1], atts[|atts| - 1];
      AttachmentsLogged(f, init, s, root, page);
      var f1 := AttachmentsExport(f, init, s, root);
      if AttachmentTarget(a, s) == Some(page) {
        assert AttachmentLines(atts, page, s, root) == AttachmentLines(init, page, s, root) + [AttachmentLine(a, page, s, root)];
        AttachLogs(f1, a, page, s, root);
      } else {
        assert AttachmentLines(atts, page, s, root) == AttachmentLines(init, page, s, root);
        assert LinesIn(AttachmentsExport(f, atts, s, root).logs, page) == LinesIn(f1.logs, page);
      }
    }
  }

  /** The log of `page` is sorted once the attachment loop has written to it. */
  lemma {:induction false} AttachmentsLogSorted(f: Attached, atts: seq<AttachmentRow>, s: Settings, root: string, page: string)
    requires AttachmentLines(atts, page, s, root) != []
    ensures EditLog.IsSorted(LinesIn(AttachmentsExport(f, atts, s, root).logs, page))
    decreases |atts|
  {
    var init, a := atts[..|atts| - 1], atts[|atts| - 1];
    if AttachmentTarget(a, s) == Some(page) {
      AttachLogs(AttachmentsExport(f, init, s, root), a, page, s, root);
    } else {
      AttachmentsLogSorted(f, init, s, root, page);
    }
  }

  /** What one attachment does to its page's log. */
  lemma AttachLogs(f: Attached, a: AttachmentRow, page: string, s: Settings, root: string)
    ensures var log := LinesIn(Attach(f, a, page, s, root).logs, page);
            EditLog.IsSorted(log) &&
            multiset(log) == multiset(LinesIn(f.logs, page)) + multiset{AttachmentLine(a, page, s, root)}
  {
    EditLog.AppendLineAdds(LinesIn(f.logs, page), AttachmentLine(a, page, s, root));
  }

  /** Pages the attachment loop does not write to keep their files and logs. */
  lemma {:induction false} AttachmentsElsewhere(f: Attached, atts: seq<AttachmentRow>, s: Settings, root: string, page: string)
    requires page !in AttachmentTargets(atts, s)
    ensures AttachmentsIn(AttachmentsExport(f, atts, s, root).attachments, page) == AttachmentsIn(f.attachments, page)
    ensures LinesIn(AttachmentsExport(f, atts, s, root).logs, page) == LinesIn(f.logs, page)
    decreases |atts|
  {
    if atts != [] {
      AttachmentsElsewhere(f, atts[..|atts| - 1], s, root, page);
    }
  }

  /** One pass of the attachment loop. */
  method ConvertAttachment(store: Store, atts: seq<AttachmentRow>, i: nat, s: Settings,
                           ghost f0: Attached, ghost dirs0: set<string>, ghost attachmentDirs0: set<string>)
    requires i < |atts|
    requires store.revisionDirs == dirs0 + AttachmentTargets(atts[..i], s)
    requires store.attachmentDirs == attachmentDirs0 + AttachmentTargets(atts[..i], s)
    requires Attached(store.attachments, store.logs) == AttachmentsExport(f0, atts[..i], s, store.root)
    modifies store`revisionDirs, store`attachmentDirs, store`attachments, store`logs
    ensures store.revisionDirs == dirs0 + AttachmentTargets(atts[..i + 1], s)
    ensures store.attachmentDirs == attachmentDirs0 + AttachmentTargets(atts[..i + 1], s)
    ensures Attached(store.attachments, store.logs) == AttachmentsExport(f0, atts[..i + 1], s, store.root)
  {
    var a := atts[i];
    match AttachmentTarget(a, s)
    case None =>
      AttachmentSkipped(f0, atts, i, s, store.root);
    case Some(page) =>
      AttachmentTaken(f0, atts, i, s, store.root, page);
      AttachPage(store, a, page, s);
  }

  /** Copies the attachment into `page`'s directory and logs it there. */
  method AttachPage(store: Store, a: AttachmentRow, page: string, s: Settings)
    modifies store`revisionDirs, store`attachmentDirs, store`attachments, store`logs
    ensures store.revisionDirs == old(store.revisionDirs) + {page}
    ensures store.attachmentDirs == old(store.attachmentDirs) + {page}
    ensures Attached(store.attachments, store.logs) ==
            Attach(Attached(old(store.attachments), old(store.logs)), a, page, s, store.root)
  {
    store.MakeRevisionsDir(page);
    store.MakeAttachmentsDir(page);
    store.CopyAttachment(page, a.filename);
    store.WriteLog(page, a.time, AttachmentRevision, page, a.ipnr, NameMap.TranslateUser(a.author, s.userMap), "");
  }

  /**
   * The attachment loop: every attachment of a page the map holds is copied
   * into the page's `attachments` directory and logged in its edit log.
   */
  method ConvertAttachments(store: Store, atts: seq<AttachmentRow>, s: Settings)
    modifies store`revisionDirs, store`attachmentDirs, store`attachments, store`logs
    ensures store.revisionDirs == old(store.revisionDirs) + AttachmentTargets(atts, s)
    ensures store.attachmentDirs == old(store.attachmentDirs) + AttachmentTargets(atts, s)
    ensures Attached(store.attachments, store.logs) ==
            AttachmentsExport(Attached(old(store.attachments), old(store.logs)), atts, s, store.root)
  {
    ghost var f0 := Attached(store.attachments, store.logs);
    ghost var dirs0, attachmentDirs0 := store.revisionDirs, store.attachmentDirs;
    var i := 0;
    while i < |atts|
      invariant i <= |atts|
      invariant store.revisionDirs == dirs0 + AttachmentTargets(atts[..i], s)
      invariant store.attachmentDirs == attachmentDirs0 + AttachmentTargets(atts[..i], s)
      invariant Attached(store.attachments, store.logs) == AttachmentsExport(f0, atts[..i], s, store.root)
    {
      ConvertAttachment(store, atts, i, s, f0, dirs0, attachmentDirs0);
      i := i + 1;
    }
    assert atts[..i] == atts;
  }

  // ---------------------------------------------------------------------
  // The whole run

  /**
   * `ConvertWiki.__init__` once the maps are loaded: the page loop, then the
   * attachment loop, both writing into the output directory.
   */
  method Convert(output: Option<string>, rows: seq<PageRow>, atts: seq<AttachmentRow>, s: Settings)
    returns (store: Store)
    requires ListsMap(s.entries, s.nameMap)
    ensures fresh(store) && store.root == OutputDir(output)
    ensures store.revisionDirs == Targets(rows, s) + AttachmentTargets(atts, s)
    ensures store.attachmentDirs == AttachmentTargets(atts, s)
    ensures var pages := PagesExport(Files(map[], map[], map[]), rows, s, store.root);
            store.revisions == pages.revisions && store.current == pages.current &&
            Attached(store.attachments, store.logs) == AttachmentsExport(Attached(map[], pages.logs), atts, s, store.root)
  {
    store := new Store(OutputDir(output));
    ConvertPages(store, rows, s);
    ConvertAttachments(store, atts, s);
  }
}
