/**
 * Building one log entry: the files_changed split shared by `cmd_log` in
 * changelog.py and `main` in logs/log_change.py, and the entry dictionary
 * each tool writes. The clock, the user name and the host name are inputs.
 */
module Record {
  import opened Basics
  import opened Text
  import opened LogStore
  import opened Entries
  import opened Json

  /** Each piece stripped. */
  function Stripped(pieces: seq<string>): (r: seq<string>)
    ensures |r| == |pieces|
    ensures forall i :: 0 <= i < |pieces| ==> r[i] == Strip(pieces[i])
  {
    seq(|pieces|, i requires 0 <= i < |pieces| => Strip(pieces[i]))
  }

  /** The non-empty strings, in order. */
  function NonEmpty(xs: seq<string>): (r: seq<string>)
    ensures |r| <= |xs|
    ensures forall i :: 0 <= i < |r| ==> r[i] != [] && r[i] in xs
  {
    if xs == [] then []
    else (if xs[0] != [] then [xs[0]] else []) + NonEmpty(xs[1..])
  }

  /** `[f.strip() for f in s.split(",") if f.strip()]`: stripped, non-empty names without commas. */
  function FilesChanged(s: string): (r: seq<string>)
    ensures forall i :: 0 <= i < |r| ==> r[i] != [] && Strip(r[i]) == r[i] && ',' !in r[i]
  {
    var pieces := SplitOn(s, ',');
    var r := NonEmpty(Stripped(pieces));
    forall i | 0 <= i < |r| ensures Strip(r[i]) == r[i] && ',' !in r[i] {
      var j :| 0 <= j < |pieces| && r[i] == Strip(pieces[j]);
      StripIdempotent(pieces[j]);
      StripAddsNothing(pieces[j], ',');
    }
    r
  }

  /** Splitting a comma-joined list of comma-free names gives the names back. */
  lemma {:induction false} SplitOnJoin(parts: seq<string>)
    requires |parts| >= 1
    requires forall i :: 0 <= i < |parts| ==> ',' !in parts[i]
    ensures SplitOn(JoinWith(parts, ","), ',') == parts
  {
    if |parts| > 1 {
      var s := JoinWith(parts, ",");
      var p := parts[0];
      var rest := JoinWith(parts[1..], ",");
      assert s == p + "," + rest;
      assert s[..|p|] == p;
      assert s[|p| + 1..] == rest;
      assert s[|p|] == ',';
      IndexOfFirst(s, p);
      SplitOnJoin(parts[1..]);
    }
  }

  /** In a text that starts with a comma-free `p` and then a comma, the first comma follows `p`. */
  lemma IndexOfFirst(s: string, p: string)
    requires |p| < |s| && s[..|p|] == p && s[|p|] == ',' && ',' !in p
    ensures IndexOf(s, ',') == Some(|p|)
  {
  }

  /** Filtering a list without empty strings keeps it whole. */
  lemma {:induction false} NonEmptyKeeps(xs: seq<string>)
    requires forall i :: 0 <= i < |xs| ==> xs[i] != []
    ensures NonEmpty(xs) == xs
  {
    if xs != [] {
      NonEmptyKeeps(xs[1..]);
    }
  }

  /**
   * Writing a list of names as `--files-changed a,b,c` gives the list back,
   * provided each name is non-empty, already stripped and free of commas.
   */
  lemma FilesChangedRoundTrip(names: seq<string>)
    requires forall i :: 0 <= i < |names| ==> names[i] != [] && Strip(names[i]) == names[i] && ',' !in names[i]
    ensures FilesChanged(JoinWith(names, ",")) == names
  {
    if names == [] {
      FilesChangedEmpty();
    } else {
      SplitOnJoin(names);
      StrippedKeeps(names);
      NonEmptyKeeps(names);
    }
  }

  /** An empty argument names no file. */
  lemma FilesChangedEmpty()
    ensures FilesChanged([]) == []
  {
    assert SplitOn([], ',') == [[]];
    assert Stripped([[]]) == [[]];
  }

  /** Stripping stripped names changes nothing. */
  lemma StrippedKeeps(xs: seq<string>)
    requires forall i :: 0 <= i < |xs| ==> Strip(xs[i]) == xs[i]
    ensures Stripped(xs) == xs
  {
  }

  /** The split is idempotent: joining its result and splitting again changes nothing. */
  lemma FilesChangedIdempotent(s: string)
    ensures FilesChanged(JoinWith(FilesChanged(s), ",")) == FilesChanged(s)
  {
    FilesChangedRoundTrip(FilesChanged(s));
  }

  /**
   * One reading of the local clock, as the tools format it:
   * `now.isoformat(timespec="seconds")`, `now.strftime("%Y-%m-%d")` and
   * `now.strftime("%H:%M:%S")`.
   */
  datatype Clock = Clock(iso: string, date: string, time: string)

  /** The command-line arguments both tools take for an entry (`files` unsplit). */
  datatype Args = Args(actor: string, action: string, versionFile: string, versionLabel: string,
                       command: string, result: string, notes: string, files: string)

  /** The entry dictionary, in the order the tools write its keys. */
  datatype Entry = Entry(ts: string, fecha: string, hora: string, actor: string, user: string,
                         host: string, action: string, versionFile: string, versionLabel: string,
                         command: string, result: string, notes: string, filesChanged: seq<string>)

  /** `env.get(key, default)` */
  function EnvGet(env: map<string, string>, key: string, default: string): string {
    if key in env then env[key] else default
  }

  /**
   * changelog.py: the entry `cmd_log` hands to `append_entry`. Date and
   * time come from the same clock reading as `ts`, whatever env.yaml says.
   */
  function ChangelogEntry(now: Clock, user: string, host: string, a: Args): (e: Entry)
    ensures e.ts == now.iso && e.fecha == now.date && e.hora == now.time
    ensures e.filesChanged == FilesChanged(a.files)
  {
    Entry(now.iso, now.date, now.time, a.actor, user, host, a.action, a.versionFile,
          a.versionLabel, a.command, a.result, a.notes, FilesChanged(a.files))
  }

  /**
   * logs/log_change.py: `fecha` and `hora` come from env.yaml when it has
   * the key, and from the clock otherwise; `ts` always comes from the clock.
   */
  function LogChangeEntry(env: map<string, string>, now: Clock, user: string, host: string, a: Args): (e: Entry)
    ensures e.ts == now.iso
    ensures "fecha" in env ==> e.fecha == env["fecha"]
    ensures "fecha" !in env ==> e.fecha == now.date
    ensures "hora" in env ==> e.hora == env["hora"]
    ensures "hora" !in env ==> e.hora == now.time
  {
    Entry(now.iso, EnvGet(env, "fecha", now.date), EnvGet(env, "hora", now.time), a.actor, user, host,
          a.action, a.versionFile, a.versionLabel, a.command, a.result, a.notes, FilesChanged(a.files))
  }

  /**
   * The two tools write the same entry for the same inputs exactly when
   * env.yaml does not contradict the clock: each of `fecha` and `hora` is
   * absent or equal to the clock's value.
   */
  lemma EntriesAgreeIff(env: map<string, string>, now: Clock, user: string, host: string, a: Args)
    ensures LogChangeEntry(env, now, user, host, a) == ChangelogEntry(now, user, host, a)
      <==> EnvGet(env, "fecha", now.date) == now.date && EnvGet(env, "hora", now.time) == now.time
  {
  }

  /** The string fields of an entry, as a reader sees the decoded object. */
  function FieldsOf(e: Entry): (m: map<string, string>)
    ensures "type" !in m
    ensures "ts" in m && "fecha" in m && "action" in m && "result" in m
    ensures m["fecha"] == e.fecha && m["ts"] == e.ts && m["action"] == e.action && m["result"] == e.result
    ensures "notes" in m && m["notes"] == e.notes
  {
    map["ts" := e.ts, "fecha" := e.fecha, "hora" := e.hora, "actor" := e.actor, "user" := e.user,
        "host" := e.host, "action" := e.action, "version_file" := e.versionFile,
        "version_label" := e.versionLabel, "command" := e.command, "result" := e.result,
        "notes" := e.notes]
  }

  /** An entry's object is never taken for the meta header. */
  lemma FieldsNotMeta(e: Entry)
    ensures !IsMetaObject(FieldsOf(e))
  {
  }

  /** The keys of the entry's string fields, in the order the tools write them. */
  const StringKeys: seq<string> := ["ts", "fecha", "hora", "actor", "user", "host", "action",
                                    "version_file", "version_label", "command", "result", "notes"]

  /** The entry's string fields, in the order of `StringKeys`. */
  function StringValues(e: Entry): (vs: seq<string>)
    ensures |vs| == |StringKeys|
  {
    [e.ts, e.fecha, e.hora, e.actor, e.user, e.host, e.action, e.versionFile, e.versionLabel,
     e.command, e.result, e.notes]
  }

  /** `json.dumps(entry, ensure_ascii=ensureAscii)`: the string fields, then `files_changed`. Both tools pass False. */
  function Dumps(e: Entry, ensureAscii: bool): string {
    ObjectText(StringMembers(StringKeys, StringValues(e), ensureAscii)
      + [Member("files_changed", StringList(e.filesChanged, ensureAscii))])
  }

  /** No field of the entry holds U+0085, U+2028 or U+2029. */
  predicate NoRawBreakIn(e: Entry) {
    AllNoRawBreak(StringValues(e)) && AllNoRawBreak(e.filesChanged)
  }

  /** The keys are plain text. */
  lemma KeysPlain()
    ensures AllPlain(StringKeys) && PlainKey("files_changed")
  {
  }

  /**
   * The dumped entry is one line exactly when ensure_ascii is set or no
   * field holds a break the encoder leaves raw. It never holds "\r".
   */
  lemma DumpsOneLine(e: Entry, ensureAscii: bool)
    ensures NoLineBreak(Dumps(e, ensureAscii)) <==> ensureAscii || NoRawBreakIn(e)
    ensures '\r' !in Dumps(e, ensureAscii)
  {
    KeysPlain();
    ObjectWithListOneLine(StringKeys, StringValues(e), "files_changed", e.filesChanged, ensureAscii);
  }

  /** The dumped entry starts with '{', ends with '}', and so has no white space at either end. */
  lemma DumpsShape(e: Entry, ensureAscii: bool)
    ensures var d := Dumps(e, ensureAscii);
      && |d| >= 2 && d[0] == '{' && d[|d| - 1] == '}'
      && NoOuterSpace(d) && Strip(d) == d && !IsLineBreak(d[|d| - 1])
  {
    ObjectOneLine(StringMembers(StringKeys, StringValues(e), ensureAscii)
      + [Member("files_changed", StringList(e.filesChanged, ensureAscii))]);
  }

  /**
   * As written, with ensure_ascii=False: an entry with U+0085, U+2028 or
   * U+2029 in a field is written raw, and the log then holds it as more
   * than one line.
   */
  lemma RawBreakSplitsLine(e: Entry)
    requires !NoRawBreakIn(e)
    ensures !NoLineBreak(Dumps(e, false))
    ensures |SplitLines(Dumps(e, false) + "\n")| >= 2
  {
    var d := Dumps(e, false);
    DumpsOneLine(e, false);
    DumpsShape(e, false);
    assert !NoLineBreak(d) && !IsLineBreak(d[|d| - 1]);
    BrokenLineSplits(d);
  }

  /**
   * As written: `log_change.py --notes` with a line separator in the note
   * appends a line that the readers split in two. Its first piece is a
   * cut-off object, on which json.loads raises, so the log no longer reads.
   */
  lemma NotesLineSeparatorBreaksLog(content: string, env: map<string, string>, now: Clock, user: string, host: string, a: Args, parse: string -> Parsed)
    requires content == [] || content[|content| - 1] == '\n'
    requires a.notes == "a\U{2028}b"
    requires RejectsCutOff(Dumps(LogChangeEntry(env, now, user, host, a), false), parse)
    ensures var line := Dumps(LogChangeEntry(env, now, user, host, a), false);
      && |SplitLines(line + "\n")| >= 2
      && EntriesOf(SplitLines(Universal(content + line + "\n")), parse).Err?
  {
    var e := LogChangeEntry(env, now, user, host, a);
    var line := Dumps(e, false);
    assert StringValues(e)[11] == e.notes && RawBreak(e.notes[1]);
    RawBreakSplitsLine(e);
    DumpsOneLine(e, false);
    DumpsShape(e, false);
    CutLineFailsRead(content, line, parse);
  }

  /**
   * The dumped entry, once it is one line (ensure_ascii set, or no raw break
   * in its fields), is a line the readers take as the entry's object,
   * given a `parse` that decodes it to the entry's fields.
   */
  lemma DumpedEntryLine(e: Entry, ensureAscii: bool, parse: string -> Parsed)
    requires ensureAscii || NoRawBreakIn(e)
    requires parse(Dumps(e, ensureAscii)) == Object(FieldsOf(e))
    ensures EntryLine(Dumps(e, ensureAscii), FieldsOf(e), parse)
  {
    var d := Dumps(e, ensureAscii);
    DumpsOneLine(e, ensureAscii);
    assert NoLineBreak(d);
    DumpsShape(e, ensureAscii);
    assert Strip(d) == d && d != [];
    FieldsNotMeta(e);
  }

  /**
   * changelog.py: the entry `cmd_log` builds, written by `append_entry` as
   * `json.dumps(entry, ensure_ascii=...)`, reads back as the last entry of
   * the log with the clock's ts and fecha and the given action, result and
   * notes. With the source's ensure_ascii=False this needs every field free
   * of U+0085, U+2028 and U+2029; with ensure_ascii=True it holds for every
   * entry. `parse` is json.loads, assumed to decode the dumped line to the
   * entry's fields.
   */
  lemma ChangelogEntryReadsBack(content: string, now: Clock, user: string, host: string, a: Args, ensureAscii: bool, parse: string -> Parsed)
    requires ensureAscii || NoRawBreakIn(ChangelogEntry(now, user, host, a))
    requires parse(Dumps(ChangelogEntry(now, user, host, a), ensureAscii)) == Object(FieldsOf(ChangelogEntry(now, user, host, a)))
    ensures var f := FieldsOf(ChangelogEntry(now, user, host, a));
      var line := Dumps(ChangelogEntry(now, user, host, a), ensureAscii);
      var repaired := Repaired(Universal(content), parse);
      && EntriesOf(SplitLines(Universal(WithAppended(Universal(repaired), line))), parse)
         == Chain(EntriesOf(SplitLines(repaired), parse), Ok([f]))
      && f["ts"] == now.iso && f["fecha"] == now.date && f["action"] == a.action && f["result"] == a.result
      && f["notes"] == a.notes
  {
    var e := ChangelogEntry(now, user, host, a);
    DumpedEntryLine(e, ensureAscii, parse);
    AppendEntryReadBack(content, Dumps(e, ensureAscii), FieldsOf(e), parse);
  }

  /**
   * logs/log_change.py: the entry `main` builds, appended as
   * `json.dumps(entry, ensure_ascii=...)` to a log that ends in a line end,
   * reads back as the last entry, with env.yaml's fecha when it sets one and
   * the clock's date otherwise; under the same condition on the fields.
   */
  lemma LogChangeEntryReadsBack(content: string, env: map<string, string>, now: Clock, user: string, host: string, a: Args, ensureAscii: bool, parse: string -> Parsed)
    requires content == [] || content[|content| - 1] == '\n'
    requires ensureAscii || NoRawBreakIn(LogChangeEntry(env, now, user, host, a))
    requires parse(Dumps(LogChangeEntry(env, now, user, host, a), ensureAscii)) == Object(FieldsOf(LogChangeEntry(env, now, user, host, a)))
    ensures var f := FieldsOf(LogChangeEntry(env, now, user, host, a));
      var line := Dumps(LogChangeEntry(env, now, user, host, a), ensureAscii);
      && EntriesOf(SplitLines(Universal(content + line + "\n")), parse)
         == Chain(EntriesOf(SplitLines(Universal(content)), parse), Ok([f]))
      && f["ts"] == now.iso && f["fecha"] == EnvGet(env, "fecha", now.date)
      && f["action"] == a.action && f["result"] == a.result && f["notes"] == a.notes
  {
    var e := LogChangeEntry(env, now, user, host, a);
    DumpedEntryLine(e, ensureAscii, parse);
    RawAppendReadBack(content, Dumps(e, ensureAscii), FieldsOf(e), parse);
  }
}
