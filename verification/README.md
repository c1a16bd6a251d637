# Manim-MDP changelog tooling, in Dafny

This project models the audit-log tooling of the Manim-MDP repository.
The tooling has four parts:

- `changelog.py`: keeps `CHANGELOG.log`, a JSON-lines file whose first line is a meta header, and renders it as HTML.
- `logs/log_change.py`: appends one entry to the log.
- `logs/generate_changelog_html.py`: renders the log as a changelog page.
- `logs/generate_status_html.py`: renders a two-column status page, with `BACKLOG.md` on one side and the log on the other.

The model covers the logic behind these files:

- repairing the log header and appending entries;
- the `env.yaml` reader;
- the three badge tables;
- the `Project:` lookup in `CONTEXT.md`;
- reading entries back;
- sorting and date grouping;
- the card meta lines;
- the backlog parser;
- the status page's backlog partition and changelog column.

Modules, one per file:

- `Basics`: `Option` and `Result`.
- `Text`: Python's `strip`, `lower`, `splitlines` and universal newlines, as used by the tools.
- `EnvFile`: `_read_env_yaml`.
- `ProjectName`: `_read_project_name` and `read_project_name`, with the `Project:` regex written out as a scanner.
- `LogStore`: the meta header, `ensure_log`, `_rewrite_with_append`, `append_entry`, and the append-mode write of `log_change.py`. A `LogFile` class holds the file state.
- `Badges`: `crud_badge`, `crud_label`, `http_view` and `html.escape`.
- `Json`: `json.dumps` of strings, lists of strings and objects of those, with `ensure_ascii` as a parameter.
- `Entries`: the three JSON-lines readers.
- `Record`: the entry dictionaries both writers build, their `json.dumps` line, and the `files_changed` split.
- `Ordering`: Python's stable `list.sort`, as insertion sort under a total preorder.
- `Timeline`: newest-first sorting and date grouping on the two changelog pages.
- `Cards`: the meta line of a changelog card.
- `Scan`: the `[YYYY-MM-DD HH:MM]`, `[Pn]` and `[X]`/`[TRASH]` patterns, written as scanners.
- `Backlog`: `parse_backlog` and its `flush`.
- `Status`: the status page's backlog partition, sorts, `display_order`, entry limit and date headers.

Some inputs are parameters of the model:

- JSON decoding is `parse: string -> Parsed`, which gives `NotJson`, `NonObject` or `Object(fields)`.
- `datetime.fromisoformat` with its renderings is `stamp: string -> Option<Stamp>`.
- The clock, the user name and the host name are values passed in.
- A file is a flag saying whether it exists, plus its text.

## Model

| member | source | states |
|---|---|---|
| EnvFile.ParseEnvLine | logs/log_change.py:18-24 | a line contributes nothing exactly when it is blank, a comment, or lacks ':' once stripped; otherwise it contributes its stripped text split at the first ':', both halves stripped |
| EnvFile.ParseStripped | logs/log_change.py:19-24 | a stripped line contributes nothing exactly when it is empty, a comment, or lacks ':'; otherwise the line split at its first ':', both halves stripped |
| EnvFile.KeyValueLine | logs/log_change.py:18-24 | a line `key:value` whose key holds no ':' and strips to a non-blank, non-comment text sets the stripped key to the stripped value, later colons staying in the value |
| EnvFile.ColonAfterKey | logs/log_change.py:21-24 | a stripped line made of a colon-free key, ':' and a value splits into the stripped key and the stripped value |
| EnvFile.BuildKeys | logs/log_change.py:16-25 | a key is in the map exactly when some line sets it |
| EnvFile.BuildLastWins | logs/log_change.py:23-24 | a key's value is the value of the last line that sets it |
| EnvFile.ReadEnvYaml | logs/log_change.py:12-25 | a missing file gives the empty map; otherwise the map built from the lines in order, the same reader as changelog.py:44-57 |
| Badges.CrudBadgeOf | changelog.py:177-196 | a result of "error" gives ERROR/error whatever the action; the delete, create and update sets give "… OK"/ok; anything else gives INFO/info |
| Badges.CrudLabel | logs/generate_status_html.py:33-44 | error wins; the class is ok exactly for the crud actions |
| Badges.CrudLabelMatchesCrudBadge | logs/generate_status_html.py:33-44 | crud_label returns the label and class crud_badge gives, for every input |
| Badges.HttpView | logs/generate_changelog_html.py:47-74 | error gives ("ERROR","500 ERROR","error"); the class is ok exactly for the crud actions and info otherwise, with method INFO |
| Badges.Escape | changelog.py:40-41 | html.escape leaves a string without special characters unchanged and otherwise introduces '&' |
| Badges.NormOfEscape | logs/generate_changelog_html.py:131-132 | escaping before normalising changes nothing for plain strings and keeps special strings non-plain |
| Badges.KeywordsArePlain | logs/generate_changelog_html.py:52-69 | no keyword of the tables holds a character that html.escape replaces |
| Badges.KeywordsSurviveEscape | logs/generate_changelog_html.py:131-138 | whether a value normalises to "error" or to a crud action does not depend on escaping it |
| Badges.HttpViewCssMatchesCrudBadge | logs/generate_changelog_html.py:131-138 | http_view on the escaped values gives the class crud_badge gives the raw values |
| Text.SpaceRunEnd | changelog.py:160 | `\s*` stops at the first non-space character and may cross lines |
| ProjectName.LineEnd | changelog.py:160 | multi-line `$` matches at the next "\n" or at the end of the text |
| ProjectName.MatchAt | changelog.py:160 | a match's group is non-empty and lies within one line |
| ProjectName.GroupFrom | changelog.py:160 | the lazy group `(.+?)\s*$` begun at a non-space character is non-empty and stays within its line |
| ProjectName.GroupOfLine | changelog.py:160 | on a line that holds a right-stripped name up to its newline, the group is exactly that name |
| ProjectName.NameFromGroup | changelog.py:163-167 | exactly one of name and warning; the placeholder warning exactly when the stripped group is empty or lowers to a placeholder; otherwise the name is the stripped group, one line and not a placeholder |
| ProjectName.Search | changelog.py:160 | re.search's group is non-empty and lies within one line |
| ProjectName.ReadProjectName | changelog.py:155-168 | exactly one of name and warning; the not-found warning for a missing file, the missing-line warning when the pattern finds nothing, otherwise what the found group gives; a name is stripped, one line and not a placeholder |
| ProjectName.ProjectLineRoundTrip | logs/generate_changelog_html.py:30-44 | a text starting with `Project: <name>` yields (name, None) |
| ProjectName.PlaceholderLineWarns | changelog.py:163-166 | a text starting with `Project: <placeholder>` yields (None, the placeholder warning) |
| ProjectName.TbdWarns | changelog.py:165-166 | `Project: TBD` yields the placeholder warning whatever follows |
| ProjectName.SearchNeedsKeyword | logs/generate_changelog_html.py:36-38 | a text without `Project` in any case yields the missing-line warning |
| LogStore.MetaLineShape | changelog.py:18-37 | the serialised META_HEADER is one line, `{…}`, without carriage returns |
| LogStore.RepairCase | changelog.py:72-95 | a new or empty log is created; the log is kept, with the header prepended or replaced, exactly when its first line is a JSON object, and replaced exactly when that object is a meta record |
| LogStore.Repaired | changelog.py:69-97 | the repaired log starts with the header line unless the first line is JSON but not an object (then it is unchanged); a prepended header is followed by the whole old text |
| LogStore.RepairedLines | changelog.py:69-97 | line by line: a new or corrupt log is the header alone; a non-meta first record gets the header prepended with every line kept; a meta first record is replaced and the rest kept |
| LogStore.RepairIdempotent | changelog.py:92-94 | repairing a repaired log takes the replace-header branch and changes nothing |
| LogStore.RepairedHasNoCR | changelog.py:74-94 | a repair introduces no carriage return |
| LogStore.WithAppendedShape | changelog.py:60-66 | the old text, plus "\n" if it was non-empty and unterminated, then the line and "\n" |
| LogStore.LogFile.EnsureLog | changelog.py:69-97 | branch by the first line; the new content is the repaired text; the `.bak` receives the old text exactly in the corrupt case; a non-object first line leaves everything unchanged |
| LogStore.ReplaceFirstLine | changelog.py:93-95 | overwriting `lines[0]` with the header and joining gives the header followed by the text after the first line break |
| LogStore.LogFile.RewriteWithAppend | changelog.py:60-66 | the file exists and holds the old text with the line appended |
| LogStore.LogFile.AppendEntry | changelog.py:113-135 | ensure_log runs first; when it succeeds the file exists and the entry is appended to the repaired text; the backup is the old text exactly after a corrupt first line; when it raises nothing changes |
| LogStore.LogFile.AppendRaw | logs/log_change.py:65-67 | append mode: the old content plus the line and "\n", nothing else |
| LogStore.EnsureLogTwice | changelog.py:69-97 | two calls leave the log and its backup as one call does |
| Entries.LineOutcomeOf | changelog.py:144-151 | a blank line adds nothing; a kept line is the stripped line's object and never a meta record; a line raises exactly when it is not blank and does not decode to an object |
| Entries.EntriesOf | changelog.py:143-152 | a failed read reports the error of the first line that raises |
| Entries.CollectOkIff | changelog.py:143-151 | a read succeeds exactly when no line raises |
| Entries.EntriesOkIff | logs/generate_changelog_html.py:19-26 | reading lines succeeds exactly when no line is invalid JSON or a non-object |
| Entries.EntriesOfShape | changelog.py:143-152 | a read returns at most one entry per line and never a meta record |
| Entries.EntriesAppend | changelog.py:143-152 | reading a+b is reading a then b, the first error winning |
| Entries.ScanLines | changelog.py:143-151 | the reader loop computes the specification of the read |
| Entries.ReadJsonlEntries | changelog.py:138-152 | a missing file reads as []; otherwise the entries of its lines (also logs/generate_status_html.py:17-30) |
| Entries.ReadJsonl | logs/generate_changelog_html.py:17-27 | no existence check: a missing file is an error; otherwise the entries of its lines |
| Entries.EntryLineReads | changelog.py:147-151 | a line holding a non-meta object reads as that entry |
| Entries.BlankLineReads | changelog.py:144-146 | a blank line reads as nothing |
| Entries.HeaderLineSkipped | changelog.py:148-149 | the meta header line adds nothing to a read |
| Entries.MetaObjectLineReads | changelog.py:145-150 | a stripped line holding a meta object reads as no entry |
| Entries.HeaderTextSkipped | changelog.py:143-149 | a text starting with the header line reads as the text after it |
| Entries.ReadBackAfterRewrite | changelog.py:60-66 | after `_rewrite_with_append` of a line that holds no line break and decodes to a non-meta object, the log reads as before followed by that entry; Record.DumpedEntryLine says when a dumped entry is such a line |
| Entries.RepairedEntries | changelog.py:69-97 | after ensure_log: no entries for a new or corrupt log, all of them when the header is prepended, all but line 0 when it is replaced |
| Entries.AppendEntryReadBack | changelog.py:134-135 | after append_entry of such a one-line object, the log reads as the repaired log followed by the new entry |
| Entries.RawAppendReadBack | logs/log_change.py:65-67 | appending such a one-line object to a terminated log adds exactly the new entry |
| Entries.RawAppendLines | logs/log_change.py:66-67 | appending a line and "\n" to a terminated log appends the line's own `splitlines` pieces to the log's |
| Entries.CutLineFailsRead | changelog.py:143-151 | a line holding a line break, appended to a terminated log, is read in pieces; when json.loads rejects every cut-off prefix of it, the whole read raises |
| Text.BrokenLineSplits | changelog.py:143 | a line with a line break inside, followed by "\n", is more than one line to `splitlines` |
| Text.FirstPiece | changelog.py:143 | the first `splitlines` piece of such a line is a non-empty proper prefix of it |
| Record.FilesChanged | changelog.py:426 | the pieces are stripped, non-empty and free of commas |
| Record.FilesChangedRoundTrip | logs/log_change.py:62 | splitting a comma-joined list of clean names gives the names back, in order |
| Record.FilesChangedIdempotent | changelog.py:426 | re-joining the split and splitting again changes nothing |
| Record.ChangelogEntry | changelog.py:113-132 | ts, fecha and hora all come from the same clock reading, whatever env.yaml says |
| Record.LogChangeEntry | logs/log_change.py:49-63 | fecha and hora come from env when the key is present, else from the clock; ts always from the clock |
| Record.EntriesAgreeIff | logs/log_change.py:50-52 | the two writers build the same entry exactly when env.yaml's fecha and hora are absent or agree with the clock |
| Record.FieldsOf | changelog.py:116-132 | the string fields of the written object; no `type` key, and ts, fecha, action, result and notes carried over from the entry |
| Record.FieldsNotMeta | changelog.py:116-132 | the object an entry serialises to is never skipped as the meta header |
| Json.EscapeChar | changelog.py:135 | an escaped character holds no line break exactly when ensure_ascii is set or it is not U+0085, U+2028 or U+2029 ("\n" and "\r" become `\n` and `\r`); it never holds "\r" |
| Json.EscapeOneLine | changelog.py:135 | an escaped string holds no line break exactly when ensure_ascii is set or the string holds none of U+0085, U+2028, U+2029 |
| Json.QuoteOneLine | changelog.py:135 | the same for the quoted string |
| Json.PlainEscape | changelog.py:135 | a printable ASCII key without '"' or '\\' is written unchanged, so a member is the quoted key, ": " and the value |
| Json.StringListOneLine | logs/log_change.py:62-67 | a dumped list of strings holds no line break exactly when ensure_ascii is set or no element holds a raw break |
| Json.ObjectOneLine | changelog.py:135 | an object is one line exactly when each member is; it starts with '{', ends with '}' and has no white space at either end |
| Json.ObjectWithListOneLine | changelog.py:135 | an object of string members and a final list member is one line exactly when ensure_ascii is set or no value or list element holds a raw break, and never holds "\r" |
| Record.KeysPlain | changelog.py:116-131 | every key of the entry is plain, so the encoder writes it unchanged |
| Record.DumpsOneLine | changelog.py:135 | `json.dumps(entry)` is one line exactly when ensure_ascii is set or no field holds U+0085, U+2028 or U+2029; it never holds "\r" (also logs/log_change.py:67) |
| Record.DumpsShape | changelog.py:135 | the dumped entry is `{…}`, with no white space at either end |
| Record.DumpedEntryLine | changelog.py:135 | when ensure_ascii is set or no field holds a raw break, the dumped entry is a line the readers take as the entry's object |
| Record.RawBreakSplitsLine | changelog.py:135 | as written (ensure_ascii=False): an entry with a raw break in a field dumps to text that `splitlines` cuts into two or more lines |
| Record.NotesLineSeparatorBreaksLog | logs/log_change.py:67 | as written: `--notes` holding U+2028 appends a line that reads as several, and the log no longer reads |
| Record.ChangelogEntryReadsBack | changelog.py:113-135 | append_entry's dumped object reads back as the log's last entry, with the clock's ts and fecha and the given action, result and notes, when ensure_ascii is set or no field holds U+0085, U+2028 or U+2029; with ensure_ascii set, for every entry |
| Record.LogChangeEntryReadsBack | logs/log_change.py:49-67 | log_change's dumped object reads back as the last entry, with env.yaml's fecha when set and the clock's date otherwise, and the given action, result and notes; under the same condition on ensure_ascii and the fields |
| Ordering.Sort | changelog.py:211 | the sort is a permutation of its input |
| Ordering.SortSorted | changelog.py:211 | under a total preorder, the sort is sorted |
| Ordering.SortStable | changelog.py:211 | elements that compare equal keep their relative order |
| Ordering.StrDescTotalPreorder | changelog.py:228 | `sorted(..., reverse=True)` on strings is a total preorder |
| Timeline.NewestFirstTotalPreorder | changelog.py:204-211 | newest-first by parse_ts is a total preorder |
| Timeline.SortNewestFirst | changelog.py:204-211 | same entries, timestamps non-increasing, unparsable ones at 0.0 |
| Timeline.SortNewestFirstStable | changelog.py:211 | entries with equal timestamps keep their log order |
| Timeline.ParseTs | changelog.py:204-209 | a missing ts (read as "") never parses; a parsed ts is what fromisoformat gives |
| Timeline.TsValue | changelog.py:204-209 | the sort key is the parsed timestamp, and 0.0 when ts is missing or does not parse |
| Timeline.StoredDate | logs/generate_changelog_html.py:104-112 | a stored fecha always wins; without one, the ts date when ts parses and "(sin fecha)" when it does not; the key is empty only when there is no fecha and the ts parses to an empty date; when ts does not parse it is the same key as changelog.py's |
| Timeline.DisplayDate | changelog.py:214-225 | the ts date when ts parses to a non-empty date; the stored fecha when ts does not parse and fecha is set; otherwise "(sin fecha)"; never empty |
| Timeline.DateKeysAgreeIff | logs/generate_changelog_html.py:104-112 | when a parsed ts renders a non-empty date, the two pages' keys agree exactly when the ts does not parse, the stored fecha is empty, or the stored fecha equals the ts date |
| Timeline.MembersSound | changelog.py:213-225 | a group holds only entries of its date, drawn from the list |
| Timeline.MembersComplete | changelog.py:213-225 | every entry is in the group of its own date, as often as in the list |
| Timeline.DatesOfIff | changelog.py:213-225 | a date has a group exactly when some entry has that date |
| Timeline.GroupByDate | changelog.py:213-225 | the loop's map has one list per date, holding that date's entries in order, and remembers each date once |
| Timeline.AddTo | changelog.py:225 | `by_fecha[fecha].append(e)` leaves the old dates and adds the entry's date |
| Timeline.GroupedStep | changelog.py:214-225 | one loop step keeps the invariant: one list per date seen, holding that date's entries in order |
| Timeline.Render | changelog.py:228-230 | one section per date, in the given order, with that date's group |
| Timeline.Sections | changelog.py:211-230 | sections in strictly descending date order, each with its date's entries in sorted order, one for every entry's date; every section's date is some entry's date and no section is empty |
| Timeline.DescendingDates | changelog.py:228 | sorting distinct dates in reverse gives strictly descending dates |
| Cards.Hora | logs/generate_status_html.py:178-186 | the ts time when ts parses to a non-empty time; the stored hora when ts does not parse or renders an empty time (also logs/generate_changelog_html.py:118-126) |
| Cards.MetaLineEmptyIff | changelog.py:259 | the meta line is empty exactly when every part is |
| Cards.MetaLineAllSet | changelog.py:259 | with every part set, the meta line is the parts joined with " · " |
| Cards.Who | changelog.py:259 | `user@host` is left out exactly when both user and host are empty |
| Cards.StripChar | logs/generate_status_html.py:187 | `.strip("@")`: the result neither starts nor ends with '@' |
| Cards.WhoAgreement | logs/generate_status_html.py:187 | for a user not starting with '@' and a host not ending with '@', the status page's `user@host` matches the changelog pages' when both are set or both empty, and differs when exactly one is set |
| Cards.ChangelogMeta | changelog.py:259 | the changelog pages' meta line is empty exactly when the entry has no time, no user, no host and no actor (also logs/generate_changelog_html.py:146) |
| Cards.StatusMeta | logs/generate_status_html.py:187 | the status page's meta line is empty exactly when the time, the '@'-stripped `user@host` and the actor are all empty; with no user and no host, exactly when time and actor are empty |
| Cards.MetaAgrees | logs/generate_changelog_html.py:146 | with user and host set, the user not starting with '@' and the host not ending with '@', all three pages show the same meta line |
| Cards.MetaDiffersWithoutHost | logs/generate_status_html.py:187 | with a user, no host, no hora and no actor, the status page's meta line differs from the changelog pages' |
| Cards.OnlyPart | changelog.py:259 | a single set part is the whole meta line |
| Scan.FirstStamp | logs/generate_status_html.py:57-59 | empty exactly when the body has no `[YYYY-MM-DD HH:MM]`; otherwise the 16 characters inside the leftmost stamp, the one re.search finds |
| Scan.FirstPriority | logs/generate_status_html.py:61-63 | None exactly when no `[Pn]` occurs; otherwise the value of the digits of the leftmost one, the one re.search finds |
| Scan.TrashMarkInContext | logs/generate_status_html.py:64 | a `[X]`/`[TRASH]` mark in the title or the body is found in title+body |
| Scan.NoBracketNoMarks | logs/generate_status_html.py:57-64 | a text without '[' has no stamp, no priority and no trash mark |
| Backlog.MakeItem | logs/generate_status_html.py:55-65 | an item's title and text carry no white space at either end; its timestamp is empty or 16 characters (`YYYY-MM-DD HH:MM`) |
| Backlog.LineKindOf | logs/generate_status_html.py:67-78 | a line opens an item exactly when its rstrip starts with `## `; it is ignored exactly when it is otherwise a `# ` heading or blank; a body line is not blank and contributes its text cut as line 78 writes it |
| Backlog.ItemMarks | logs/generate_status_html.py:52-65 | the item's title and text; ts present iff the text has a stamp, and then the leftmost stamp's text; a priority iff the title or the text has one, the title winning; trash iff title+text has a mark |
| Backlog.Flush | logs/generate_status_html.py:53-54 | flush adds nothing when there is no title and no buffer, and one section otherwise |
| Backlog.Kinds | logs/generate_status_html.py:67-78 | each line is classified by the loop's rules, a bullet being cut as line 78 writes it |
| Backlog.Keep | logs/generate_status_html.py:81 | the kept items have a title or a text and come from the list |
| Backlog.FlushInto | logs/generate_status_html.py:52-65 | the item list grows by the flushed sections' items |
| Backlog.KeepShown | logs/generate_status_html.py:81 | the final comprehension computes Keep |
| Backlog.ParseBacklog | logs/generate_status_html.py:47-81 | the loop with its buffer and title returns the items of the file's sections |
| Backlog.RunSections | logs/generate_status_html.py:67-80 | the loop closes the lead section, then one section per `## ` header with the body lines up to the next header |
| Backlog.LineKindWellFormed | logs/generate_status_html.py:67-78 | titles and body lines are never empty and never start with white space, with the bullet cut as line 78 writes it |
| Backlog.ParsedSections | logs/generate_status_html.py:47-81 | parse_backlog returns the lead item and one item per header; the final filter drops none |
| Backlog.BodyTextIgnoresIndent | logs/generate_status_html.py:78 | corrected: the body text of an indented line is that of the line without its indent |
| Backlog.PlainBullet | logs/generate_status_html.py:78 | `- item` contributes `item`, as written and corrected |
| Backlog.IndentedBulletAsWritten | logs/generate_status_html.py:78 | as written: `  - item` contributes `- item` |
| Backlog.IndentedBullet | logs/generate_status_html.py:78 | corrected: `  - item` contributes `item` |
| Backlog.IndentedBulletKind | logs/generate_status_html.py:67-78 | the parser as written classifies `  - item` as the body line `- item` |
| Backlog.BodyKind | logs/generate_status_html.py:67-78 | a line that neither starts with '#' nor ends in white space is a body line, cut as line 78 does |
| Backlog.HeadingIgnored | logs/generate_status_html.py:74-75 | a `# ` line is ignored |
| Backlog.BulletBody | logs/generate_status_html.py:78 | a `- item` line is a body line `item` |
| Backlog.HeadingAndBullet | logs/generate_status_html.py:47-81 | `# heading` then `- item` gives one untitled item with text `item` and no marks |
| Backlog.MissingBacklog | logs/generate_status_html.py:94 | a missing BACKLOG.md gives the single item "(no existe)" |
| Status.Where | logs/generate_status_html.py:121-123 | a comprehension keeps only matching items, drawn from the list |
| Status.GroupsExclusive | logs/generate_status_html.py:121-123 | every item is in exactly one of prioritized, normal and trash |
| Status.Partition | logs/generate_status_html.py:121-123 | the three groups together are the backlog items, counted with multiplicity |
| Status.ByPriority | logs/generate_status_html.py:125 | a lower priority number sorts first; at equal priority, newer (by ts_value) sorts first |
| Status.ByPriorityTotalPreorder | logs/generate_status_html.py:125 | the key (priority, newer first) is a total preorder |
| Status.ByNewestTotalPreorder | logs/generate_status_html.py:126-127 | newest-first by ts_value is a total preorder |
| Status.Number | logs/generate_status_html.py:129-130 | the prioritized items in order, numbered 1..n |
| Status.BacklogColumn | logs/generate_status_html.py:121-130 | the three groups partition the items; each is sorted by its key (stable); prioritized numbered 1..n |
| Status.SortKeeps | logs/generate_status_html.py:125-127 | a property of every item survives sorting |
| Status.BacklogMetaShape | logs/generate_status_html.py:135-136 | a backlog card's meta is `ts · BACKLOG`, or `BACKLOG` without a ts |
| Status.Limit | logs/generate_status_html.py:112 | the first max(limit, 0) entries, or all of them when fewer |
| Status.RowsFor | logs/generate_status_html.py:172-199 | an entry gives its card, preceded by at most one date header, which carries the entry's own non-empty fecha |
| Status.Rows | logs/generate_status_html.py:169-199 | between one and two rows per entry, the last row being the last entry's card |
| Status.ChangelogRows | logs/generate_status_html.py:169-175 | the loop with `last_fecha` emits the rows of the specification |
| Status.RowsKeepEntries | logs/generate_status_html.py:169-175 | every entry appears once, in order; headers add no entry |
| Status.LastHeaderIsLastFecha | logs/generate_status_html.py:170-175 | `last_fecha` is always the date of the last header shown |
| Status.UnderItsDate | logs/generate_status_html.py:171-175 | an entry with a fecha sits under the header of that date |
| Status.ChangelogColumn | logs/generate_status_html.py:102-112 | the rows of the newest max(limit, 0) entries, holding exactly those entries |
| Status.ShownAreNewest | logs/generate_status_html.py:111-112 | no entry cut by the limit is newer than one shown |

## Left out

- HTML markup, CSS, the drag-and-drop script and card rendering are left out. The model stops at which badges, rows and parts are chosen.
- Argument parsing, printing, `mkdir`, the backlog file's modification time and writing the HTML output are I/O plumbing and are not modelled.
- `archMDP-ASIS.py` (an animation scene) and `getENV.py` (a clock-to-file writer) are not part of this model.
- JSON is abstract:
  - `json.loads` is the `parse` parameter;
  - `json.dumps` is modelled for the entry's strings and list of strings (`Json`, `Record.Dumps`); the read-back lemmas assume that `parse` decodes the dumped line to the entry's object, and `Record.NotesLineSeparatorBreaksLog` that it rejects every cut-off prefix of it;
  - `Json.Member` writes its key unescaped, which the encoder does for the plain keys the tools use (`Json.PlainEscape`);
  - field values are strings, so non-string values (lists, `None`, numbers) and their `str()` renderings are not modelled.
- Time is abstract. `fromisoformat`, `timestamp()` and `strftime` are the `stamp` parameter, and its real-valued seconds stand in for the float keys.
- Newline translation on write (Windows "\r\n") is not modelled. Reads apply universal newlines.
- `lower()` is ASCII plus the one non-ASCII case fold the trash pattern needs. `\d` matches ASCII digits only. Unicode case folding and digits are not modelled.
- The branch `if not lines` at changelog.py:75-77 cannot be reached, because a file of positive size has at least one line. The model does not give it a case.
- The readers are proved to skip the log's header only for a `parse` that decodes the header line this model writes to a meta object (`LogStore.ReadsMetaHeader`). `json.loads` does so, but the model keeps JSON decoding abstract. The header-skipping lemmas and LogStore.EnsureLogTwice assume it.
- Record.FieldsOf: leaves out `files_changed`, whose value is a list; Record.FilesChanged models that list on its own.
- changelog.py reads env.yaml in `append_entry` and ignores it. The model keeps only the entry it builds.
- A first log line that is JSON but not an object makes `ensure_log` raise on `.get`. The model returns the `FirstLineNotObject` outcome and leaves the file unchanged.
- The readers call `.get` before their `isinstance(obj, dict)` test, so a non-object line raises. The model follows the code.

## Findings

| source | as written | input that shows it | evidently intended | confidence | as-written member | corrected member |
|---|---|---|---|---|---|---|
| changelog.py:135 | `append_entry` writes `json.dumps(entry, ensure_ascii=False)`, which leaves U+0085, U+2028 and U+2029 raw, and the readers' `splitlines` breaks lines at them | an entry whose notes are `"a\u2028b"` is dumped to text that `splitlines` cuts into two lines | every entry is written on one line, as with ensure_ascii=True | high, not executed | Record.RawBreakSplitsLine | Record.ChangelogEntryReadsBack |
| logs/log_change.py:67 | the entry is appended as `json.dumps(entry, ensure_ascii=False)`, leaving U+0085, U+2028 and U+2029 raw | `log_change.py --notes "a\u2028b"` appends a line read as two pieces; json.loads raises on the first, so the log no longer reads | every entry is appended as one line, as with ensure_ascii=True | high, not executed | Record.NotesLineSeparatorBreaksLog | Record.LogChangeEntryReadsBack |
| logs/generate_status_html.py:78 | an indented bullet is detected on `line.lstrip()` but cut with `line[2:]` on the line before left-stripping | the backlog line `"  - fix"` is stored as `"- fix"` | the bullet is removed wherever it is indented, giving `"fix"` | medium, not executed | Backlog.IndentedBulletAsWritten | Backlog.BodyTextIgnoresIndent |
