# trac2moin in Dafny

This project models `trac2moin.py`, the converter that exports a Trac wiki
into a MoinMoin page tree. Once the converter has read the wiki's rows it does
the following:

- **Name tables.** It loads two `OLD|NEW` tables from text files: one for page
  names and one for user names. Blank lines and lines whose new name starts
  with `-` are ignored. A later line overrides an earlier one. A line that does
  not split into exactly two fields, or whose new name is empty, aborts the
  load.
- **Page loop.** It visits every wiki page the page table maps. The page is
  stored under its new name (after the optional prefix), with `/` escaped as
  `(2f)` and `-` as `(2d)`. Version `i` becomes revision file `%08d` of `i`.
  `current` names the last revision. The page's `edit-log` gets one line per
  revision. The wiki text is rewritten from Trac to MoinMoin markup
  (`fixupsyntax`) in one of two ways:
  - inline, in every version;
  - or once, in an extra revision after the last version, logged as the
    fixing edit.
- **Attachment loop.** It copies the attachments of mapped pages next to them,
  skipping ticket attachments (all-digit ids). Each copy gets a line in the
  page's edit log with revision `99999999`.

Modules and files:

- `basics.dfy`: `Option` and `Result`.
- `text.dfy`: the Python 2 string behaviour the code relies on:
  - regular-expression character classes;
  - `str.strip()` and `str.split(sep, max)`;
  - `%d` and `%08d`, and reading those digits back.
- `namemap.dfy`: loading the two tables (`LoadMap`, specified by `ParseMap`),
  plus `lookupname` and `translateuser`.
- `pagenames.dfy`: `moinname` and a reading back of its escapes.
- `patterns.dfy`: one matcher per regular expression of `fixupsyntax`. Each
  matcher comes with lemmas pinning it to its pattern in both directions:
  - `...Matches`: every text of the pattern's shape is matched, with the
    stated replacement;
  - `...Only`: whatever is matched has that shape.
- `substitution.dfy`: `re.sub` as a left-to-right scan that never rescans a
  replacement, and the lemmas that reason about it.
- `fixup.dfy`: the `fixupsyntax` pipeline in the code's order:
  1. link normalisation;
  2. the per-entry renames;
  3. the macro translations.
- `editlog.dfy`: the line `writelog` writes, reading it back, and the sort on
  every write.
- `export.dfy`: the output tree as a `Store` object whose maps the export
  methods update. It holds the page loop and the attachment loop, each
  specified by a function of the rows (`PagesExport`, `AttachmentsExport`),
  with lemmas about those functions. `Convert` runs both loops.

The model follows the code, including these behaviours a reader may not
expect:

- **`writelog` always writes the attachment form.** It overwrites its
  `filename` parameter with the edit log's own path before testing it. So
  every line is of the `ATTNEW` kind, and its last field is the path of the
  `edit-log` file, not an attachment name (`EditLog.LogFields`).
- **`[[PageOutline(2-5)]]` becomes `<<TableOfContents(5)>>`.** The group
  captures the number after the dash (`Fixup.OutlineRangeRewrite`).
- **`moinname` is not injective.** It leaves `(` alone, so `a/` and `a(2f)`
  share a directory (`PageNames.MoinNameCollision`). Injectivity holds only
  for names without `(` (`PageNames.MoinNameInjective`).
- **A page with no versions would still get a directory.** The page's
  `revisions` directory is created before the version loop. In the program
  this does not arise: the version query (lines 187-190) has no author
  filter, so every page name the loop reaches has at least one version. The
  model takes the versions as a parameter and covers the empty case too.
- **A plain link to a renamed page gets the new target as its label.** For a
  slashed or CamelCase old name, the bare-name rewrite of the same entry also
  reaches the `|OldPage]` that the plain-link rewrite has just written. So
  `[[OldPage]]` ends as `[[Wiki/NewPage|Wiki/NewPage]]`
  (`Fixup.RenameOneRelabelsLink`, for a new name without `/` and a target
  in which the old name does not recur). When the new name holds `/`, the
  pretty-label rewrite of line 158 wraps that label once more; the model
  states no lemma for that case.
- **The edit log is sorted as strings, not by time.** Timestamps of different
  lengths therefore do not sort by value.
- **Prefixes are spelled inconsistently.**
  - `lookupname` adds the prefix only when it is truthy.
  - `fixupsyntax` splices it in with `%s`, so a missing prefix reads `None`
    there (`Fixup.PrefixText`).
- **A slashed pretty label has two spaces after the arrow.** `Foo/Bar` reads
  `Foo →  Bar`, because a space also goes before the capital that follows the
  arrow (`Fixup.PrettySlashed`).
- **An id with a final newline is still numeric.** `re.match("^[0-9]+$", id)`
  also accepts digits followed by one final newline (`Export.NumericId`).
- **A tab in a logged field shifts the fields after it.** The page name,
  address, author and comment are written into the edit log with a plain
  `%s`, so a tab in any of them (a Trac comment may hold one) adds a field,
  and the line no longer reads back into its eight fields
  (`EditLog.LogLineFields` holds only for fields without a tab).

## Model

| member | source | states |
|---|---|---|
| Text.Strip | trac2moin.py:68 | `str.strip()` gives a slice of the line with whitespace only around it, and no whitespace at either end |
| Text.StripEmpty | trac2moin.py:68-70 | a line is skipped as empty exactly when it holds nothing but whitespace |
| Text.SplitTwoFields | trac2moin.py:71 | `line.split("\|", 2)` unpacks into two fields exactly when the line holds one `\|`, and then the fields are the text around it |
| Text.ZeroPad8RoundTrip | trac2moin.py:208-212 | reading back a `%08d` revision name or `current` file gives the number written |
| Text.ZeroPad8Injective | trac2moin.py:212 | distinct revision numbers get distinct revision file names |
| NameMap.ClassifyLineMeaning | trac2moin.py:67-74 | how the loading loop treats one line: blank, skipped for a leading `-`, an entry (the text around the single `\|`), or one of the two errors |
| NameMap.Classify | trac2moin.py:67 | the lines are treated one by one, in file order |
| NameMap.LoadMap | trac2moin.py:64-88 | the loading loop builds the table the file describes, or fails as described |
| NameMap.BuildFailureSticks | trac2moin.py:71-73 | once a line aborts the load, the lines after it change nothing |
| NameMap.BuildLookup | trac2moin.py:67-74 | a table from classified lines holds a name exactly when some line is an entry for it, and maps it to the new name of the last such line |
| NameMap.BuildFailure | trac2moin.py:71-73 | building fails exactly when some line is malformed, and the error names the first one |
| NameMap.ParseMapLookup | trac2moin.py:64-88 | a loaded table holds a name exactly when the file has an entry line for it, and maps it to the last such line's new name |
| NameMap.ParseMapFailure | trac2moin.py:64-88 | a load fails exactly when a line is malformed, and names the first such line |
| NameMap.LookupName | trac2moin.py:90-106 | `None` exactly for a name missing from the table; otherwise the new name, behind the prefix when the prefix is non-empty |
| NameMap.LookupLoadedName | trac2moin.py:90-106 | looking up in a loaded table finds a name exactly when the file lists it, and the result ends with the last entry's new name |
| NameMap.TranslateUser | trac2moin.py:108-111 | a mapped user gets the mapped name, any other user keeps their own |
| NameMap.UnlistedUserKept | trac2moin.py:78-88 | a user with no entry line in the user file keeps their name |
| PageNames.ReplaceCharKeeps | trac2moin.py:114 | `re.sub` of a character that does not occur leaves the name alone |
| PageNames.MoinNameEscapesEachChar | trac2moin.py:113-114 | the two `re.sub` passes escape each character on its own: the `(2f)` written first holds no `-` for the second pass |
| PageNames.MoinNameIsSafe | trac2moin.py:113-114 | a directory name holds no `/` and no `-` |
| PageNames.MoinNameKeepsPlainNames | trac2moin.py:113-114 | a name without `/` and `-` is its own directory name |
| PageNames.MoinNameExample | trac2moin.py:114 | `a/b-c` is stored as `a(2f)b(2d)c` |
| PageNames.UnescapeMoinName | trac2moin.py:113-114 | a name without `(` is read back from its directory name |
| PageNames.MoinNameInjective | trac2moin.py:113-114 | names without `(` get distinct directories |
| PageNames.MoinNameCollision | trac2moin.py:113-114 | `a/` and `a(2f)` share a directory |
| Patterns.MatchPrefix | trac2moin.py:137-169 | a match consumes at least one character of the text and no more than the text |
| Patterns.WikiLinkMatches | trac2moin.py:137 | `[wiki:T L]` becomes `[[T\|L]]` |
| Patterns.WikiLinkOnly | trac2moin.py:137 | whatever the rule matches is `[wiki:T L]`, replaced by `[[T\|L]]` |
| Patterns.LabelledLinkStops | trac2moin.py:137 | a link whose target runs into `]` has no caption and is not matched |
| Patterns.WikiBareLinkMatches | trac2moin.py:138 | `[wiki:T]` becomes `[[T]]` |
| Patterns.WikiBareLinkOnly | trac2moin.py:138 | whatever the rule matches is `[wiki:T]`, replaced by `[[T]]` |
| Patterns.UrlLinkMatches | trac2moin.py:139 | `[http://U L]` and `[https://U L]` become `[[http://U\|L]]` and `[[https://U\|L]]` |
| Patterns.UrlAt | trac2moin.py:139 | the `https` alternative is tried before `http` |
| Patterns.UrlLinkOnly | trac2moin.py:139 | whatever the rule matches is a captioned http or https link |
| Patterns.UrlWithoutCaptionKept | trac2moin.py:139 | a bracketed URL without a caption is not matched |
| Patterns.AnchorLinkMatches | trac2moin.py:140 | `[#A L]` becomes `[[#A\|L]]` |
| Patterns.AnchorLinkOnly | trac2moin.py:140 | whatever the rule matches is `[#A L]` |
| Patterns.NameLinkMatches | trac2moin.py:144 | `[[old]]` becomes `[[target\|old]]` |
| Patterns.NameLinkOnly | trac2moin.py:144 | the rule matches only `[[old]]` |
| Patterns.NameLabelLinkMatches | trac2moin.py:145 | `[[old\|L]]` becomes `[[target\|L]]` |
| Patterns.NameLabelLinkOnly | trac2moin.py:145 | the rule matches only `[[old\|L]]` |
| Patterns.NameAnchorLinkMatches | trac2moin.py:148 | `[[old#A]]` becomes `[[target#A\|old]]` |
| Patterns.NameAnchorLinkOnly | trac2moin.py:148 | the rule matches only `[[old#A]]` with an anchor of `[A-Za-z0-9_]+` |
| Patterns.NameAnchorLabelLinkMatches | trac2moin.py:149 | `[[old#A\|L]]` becomes `[[target#A\|L]]` |
| Patterns.NameAnchorLabelLinkOnly | trac2moin.py:149 | the rule matches only `[[old#A\|L]]` |
| Patterns.AutoLinkMatches | trac2moin.py:153 | a bare old name between two characters outside `[A-Za-z0-9/]` becomes the target, the flanks kept |
| Patterns.AutoLinkOnly | trac2moin.py:153 | the rule matches only the old name between two such flanks |
| Patterns.PrettyLinkMatches | trac2moin.py:158 | a bare target not after `[` and before a character outside `[A-Za-z0-9/]` is wrapped into a link with the pretty label |
| Patterns.PrettyLinkOnly | trac2moin.py:158 | the rule matches only such a bare target |
| Patterns.IncludeMacroMatches | trac2moin.py:161 | `[TracNav(old)]`, `[TracInclude(old)]` and `[Include(old)]` get the target as argument |
| Patterns.IncludeAt | trac2moin.py:161 | the alternatives are tried in the order `TracNav`, `TracInclude`, `Include` |
| Patterns.IncludeMacroOnly | trac2moin.py:161 | the rule matches only one of the three macros around the old name |
| Patterns.ImageMacroMatches | trac2moin.py:164 | `[[Image(x)]]` becomes `{{attachment:x}}` |
| Patterns.ImageMacroOnly | trac2moin.py:164 | the rule matches only `[[Image(x)]]` with `x` free of `\` and `)` |
| Patterns.OutlineMacroMatches | trac2moin.py:165 | `[[PageOutline]]` becomes `<<TableOfContents>>` |
| Patterns.OutlineMacroOnly | trac2moin.py:165 | the rule matches only `[[PageOutline]]` |
| Patterns.OutlineRangeMacroMatches | trac2moin.py:166 | `[[PageOutline(a-b...)]]` becomes `<<TableOfContents(b)>>` |
| Patterns.OutlineRangeMacroOnly | trac2moin.py:166 | the rule matches only a range outline, and keeps the number after the dash |
| Patterns.OutlineLevelMacroMatches | trac2moin.py:167 | `[[PageOutline(n...)]]` becomes `<<TableOfContents(n)>>` |
| Patterns.OutlineLevelMacroOnly | trac2moin.py:167 | the rule matches only a level outline |
| Patterns.BreakMacroMatches | trac2moin.py:168 | `[[BR]]` becomes `<<BR>>` |
| Patterns.BreakMacroOnly | trac2moin.py:168 | the rule matches only `[[BR]]` |
| Patterns.NavMacroMatches | trac2moin.py:169 | `[[TracNav(x)]]` becomes `<<Include(x)>>` |
| Patterns.NavMacroOnly | trac2moin.py:169 | the rule matches only `[[TracNav(x)]]` |
| Substitution.SubNoMatch | trac2moin.py:137-169 | `re.sub` leaves a text in which the pattern matches nowhere unchanged |
| Substitution.SubSkip | trac2moin.py:137-169 | a stretch with no match is copied and the scan carries on after it |
| Substitution.SubAtMatch | trac2moin.py:137-169 | a match is replaced and the scan resumes right after it, never inside the replacement |
| Substitution.SubFirstMatch | trac2moin.py:137-169 | the text before the first match is copied, the match replaced, and the rest scanned afresh |
| Substitution.MatchKey | trac2moin.py:137-169 | every match holds its rule's fixed piece of text |
| Substitution.KeyIdle | trac2moin.py:137-169 | a rule leaves alone any text in which its fixed piece does not appear |
| Substitution.AutoLinkQuiet | trac2moin.py:153 | the bare-name rule cannot fire where the name's first character does not stand |
| Fixup.PrefixText | trac2moin.py:144-161 | the prefix as `%s` spells it: its text, or `None` when absent |
| Fixup.StartsCamelMeaning | trac2moin.py:152 | a CamelCase name is a capital, at least one lower-case letter, then a capital |
| Fixup.SpaceCapitalsUndone | trac2moin.py:156 | the spaces put before capitals are exactly those that can be taken out again |
| Fixup.PrettyOfCapitalised | trac2moin.py:156 | a name starting with a capital keeps its first letter and loses only the space put before it |
| Fixup.PrettyTwoWords | trac2moin.py:156 | `OldPage` reads `Old Page` |
| Fixup.PrettySlashed | trac2moin.py:156 | `Foo/Bar` reads `Foo →  Bar`, with two spaces after the arrow |
| Fixup.RenameAllAppend | trac2moin.py:142-161 | visiting the map's entries in two stretches is visiting them all |
| Fixup.NormaliseLinksIdle | trac2moin.py:137-140 | text without a bracket holds no link to normalise |
| Fixup.FixMacrosIdle | trac2moin.py:164-169 | text without a bracket holds no macro to translate |
| Fixup.RenameOneIdle | trac2moin.py:144-161 | an entry changes nothing in bracket-free text that mentions neither its old name nor its target |
| Fixup.RenameAllIdle | trac2moin.py:142-161 | no entry changes such text |
| Fixup.FixupKeepsPlainText | trac2moin.py:135-170 | text with no bracket and no old name or new target of the map comes out of `fixupsyntax` unchanged |
| Fixup.OutlineRangeRewrite | trac2moin.py:164-169 | `[[PageOutline(a-b...)]]`, with a tail after `b` free of `[` and `)` and not starting with a digit, comes out of the macro translations as `<<TableOfContents(b)>>` |
| Fixup.RenameOneRelabelsLink | trac2moin.py:144-161 | for a slashed or CamelCase old name, a new name without `/`, names free of `[`, `]`, `\|` and `(`, and an old name that cannot recur inside the target (its first character is absent from the target, or the target is made of `[A-Za-z0-9/]` only and differs from the old name), `[[old]]` ends as `[[target\|target]]` |
| Fixup.RenameOneRelabelsExample | trac2moin.py:144-161 | `[[FooBar]]` renamed to `FooBaz` under prefix `Wiki/` ends as `[[Wiki/FooBaz\|Wiki/FooBaz]]` |
| EditLog.LogFields | trac2moin.py:119-128 | a log line has eight fields, of kind `ATTNEW`, the last being the edit log's own path |
| EditLog.LogLine | trac2moin.py:128 | the line is the fields joined by tabs and ended by a newline |
| EditLog.SplitJoin | trac2moin.py:128 | splitting joined fields at as many tabs as were put in gives the fields back |
| EditLog.LogLineFields | trac2moin.py:117-128 | for a page name, address, author and comment without a tab, a log line read back gives its fields, and its revision field reads back as the revision |
| EditLog.LexLeTotal | trac2moin.py:129 | any two lines are ordered one way or the other |
| EditLog.LexLeTrans | trac2moin.py:129 | the order of lines is transitive |
| EditLog.LexLeAntisym | trac2moin.py:129 | lines ordered both ways are equal |
| EditLog.InsertCounts | trac2moin.py:129 | inserting adds exactly the one line |
| EditLog.InsertSorted | trac2moin.py:129 | inserting into a sorted list keeps it sorted |
| EditLog.SortLinesSorts | trac2moin.py:129 | `lines.sort()` gives a sorted permutation of the lines |
| EditLog.SortedUnique | trac2moin.py:129 | sorted lists of the same lines are equal, so the log file is fixed by the lines it holds |
| EditLog.AppendLineAdds | trac2moin.py:117-132 | after `writelog` the log is sorted and holds its earlier lines plus exactly the new line |
| EditLog.AppendToSorted | trac2moin.py:128-129 | on a sorted log the new line is put in its place |
| Export.OutputDir | trac2moin.py:61-62 | the output directory is `./moin/` unless one is given |
| Export.PathJoinJoins | trac2moin.py:119 | `os.path.join` ends with its second part, and appends a relative part after a single `/` separator, inserted only when the first part is non-empty and does not end in one |
| Export.Store.WriteLog | trac2moin.py:117-132 | the page's log becomes its earlier lines plus the new line, sorted |
| Export.Store.CopyAttachment | trac2moin.py:262 | the attachment is added to the page's attachments directory |
| Export.ExportVersions | trac2moin.py:198-217 | the version loop writes revision `i` for the `i`-th version over the page's earlier files, and keeps the last content |
| Export.SaveFixRevision | trac2moin.py:219-234 | without inline fix-ups, one more revision holds the fixed-up last content, logged as the fixing edit |
| Export.ExportPage | trac2moin.py:192-234 | one page export: the `revisions` directory, then every revision, `current` and log line the page's rows give; its `modifies` frame leaves the attachment files and directories as they were |
| Export.VersionContentsAt | trac2moin.py:200-215 | revision `k + 1` holds version `k` as rendered |
| Export.VersionLinesAt | trac2moin.py:217 | log line `k` is version `k`'s entry, logged as revision `k + 1` |
| Export.PageRevisions | trac2moin.py:198-234 | `n` versions give `n` revisions, one more without inline fix-ups; each holds its version's text, fixed up when inline; the extra one holds the fixed-up last text |
| Export.PageLog | trac2moin.py:217-234 | one log line per revision, with the version's time, address, translated author and comment, and the fixing edit's entry for the extra revision |
| Export.PlainPageFixRepeats | trac2moin.py:219-232 | when the last version holds no bracket and no mapped name, the fix-up revision repeats it |
| Export.ExportedRevisions | trac2moin.py:212-215 | after a page export, revision `k` holds the `k`-th content and a newline, other revisions and pages keep theirs |
| Export.ExportedCurrent | trac2moin.py:208-210 | `current` holds the last revision number as eight digits and a newline, other pages keep theirs |
| Export.ExportedLog | trac2moin.py:217-234 | the page's log is sorted and holds its earlier lines and one per revision, other logs are unchanged |
| Export.Target | trac2moin.py:180-192 | a page row gets a directory exactly when the name map holds its name |
| Export.TargetsMeaning | trac2moin.py:180-194 | the page loop creates a directory for exactly the pages some row maps to |
| Export.ConvertPages | trac2moin.py:180-236 | given `entries` that list the name map, the page loop exports the rows in order, as `PagesExport` describes |
| Export.ExportElsewhere | trac2moin.py:180-236 | exporting to one page leaves every other page's files alone |
| Export.ExportSameAt | trac2moin.py:198-234 | what an export writes to a page depends only on that page's earlier files |
| Export.Untouched | trac2moin.py:180-236 | a page no row maps to keeps its files through the loop |
| Export.OnlyRow | trac2moin.py:180-236 | a page exactly one row maps to ends up with what that row's export writes over its earlier files |
| Export.EmptyMapConvertsNothing | trac2moin.py:183-184 | with an empty name map no page is converted and no directory is made |
| Export.AttachmentTarget | trac2moin.py:246-254 | an all-digit id is skipped; any other id goes where the page lookup sends it |
| Export.AttachmentTargetsMeaning | trac2moin.py:247-257 | the attachment loop creates directories for exactly the pages its taken rows map to |
| Export.AttachmentsCopied | trac2moin.py:247-262 | after the loop, a page's attachments are its earlier ones plus the file of every row mapped to it |
| Export.AttachmentsLogged | trac2moin.py:247-263 | after the loop, a page's log holds its earlier lines and one line per attachment mapped to it |
| Export.AttachmentsLogSorted | trac2moin.py:263 | a log the attachment loop wrote to is sorted |
| Export.AttachmentsElsewhere | trac2moin.py:247-263 | pages no attachment maps to keep their files and logs |
| Export.AttachPage | trac2moin.py:254-263 | one taken attachment: both directories exist, the file is copied, and its line is logged with revision 99999999 |
| Export.ConvertAttachments | trac2moin.py:240-263 | the attachment loop handles the rows in order, as `AttachmentsExport` describes |
| Export.Convert | trac2moin.py:59-263 | given `entries` that list the name map, a run writes into the output directory the page loop's files, then the attachment loop's, into a fresh tree |

## Left out

- The Trac environment and its SQL queries are not modelled. The rows they
  yield are parameters: page names, their versions in ascending order, and
  attachment rows in upload order. Only the page-name query (line 177) and
  the attachment query (line 243) carry an `author != 'trac'` filter; those
  filters are not modelled.
- Command-line parsing and the `PYTHON_EGG_CACHE` setting are not modelled.
- The progress messages `print`s are not modelled.
- The UTF-8 encoding of page text is not modelled. Text is a sequence of
  characters.
- The file system is an in-memory tree. Existence checks, `os.makedirs`,
  reading the edit log back with `readlines()`, and the attachment bytes that
  `shutil.copy` moves are not modelled. A copy is recorded by its file name.
  A log field holding a newline would be split into several lines by
  `readlines()`, and that re-splitting is not modelled.
- `time.time()` is a float clock reading. It becomes the integer parameter
  `fixTime` of each page row, and its `%d` formatting is not modelled.
- The order in which `namemap.items()` enumerates the table is unspecified in
  Python 2. It is the parameter `entries`; `Export.Convert` and
  `Export.ConvertPages` require (`Export.ListsMap`) that it lists each entry
  of the name map exactly once. That the maps came from `loadmap` is not
  part of those requirements.
- Old names, new names and the prefix are spliced unescaped into the
  patterns (lines 144-161, including `prefix + new` in the pattern at line
  158) and into the replacement templates. The model treats all of them as
  literal text: regular-expression metacharacters in a name, backslashes in a
  new name or prefix, and digits that follow `\1` in a template (read as a
  longer group reference or an octal escape, lines 153 and 161) are not
  modelled. `Patterns.MatchAutoLink` and `Patterns.MatchIncludeMacro` insert
  the names literally.
- Export.PathJoinJoins: covers POSIX paths only.
- Export.Convert: starts from an empty output tree. The program writes into
  whatever the output directory already holds, and `writelog` reads an
  existing edit log back in before adding its line. `Export.ConvertPages`
  and `Export.ConvertAttachments` are stated for any starting tree, so that
  case is covered by calling them on an existing `Store`.
