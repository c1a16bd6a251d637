/**
 * The JSONL changelog file of changelog.py: the meta header that must be
 * its first line, the repair `ensure_log` performs, and the two ways a
 * line is appended (changelog.py rewrites the whole file, log_change.py
 * opens it in append mode).
 *
 * The file is a class whose fields the operations update in place. What
 * json.loads makes of a line is a parameter `parse`.
 */
module LogStore {
  import opened Basics
  import opened Text

  /**
   * What json.loads returns for one line: an error, a JSON value that is
   * not an object, or an object. An object's fields are given as the
   * text a reader obtains for them (a missing field reads as "").
   */
  datatype Parsed = NotJson | NonObject | Object(fields: map<string, string>)

  /** `obj.get(key) or ""` for an object's field. */
  function Field(fields: map<string, string>, key: string): string {
    if key in fields then fields[key] else ""
  }

  /** `obj.get("type") == "meta"` for a parsed object. */
  predicate IsMetaObject(fields: map<string, string>) {
    "type" in fields && fields["type"] == "meta"
  }

  const SchemaVersion: nat := 2

  /**
   * json.dumps(META_HEADER, ensure_ascii=False): the current meta header
   * line (schema version 2 and the thirteen entry fields), written in
   * pieces short enough for the verifier to inspect one at a time.
   */
  const MetaLine: string := M0 + M1 + M2 + M3 + M4 + M5 + M6 + M7 + M8 + M9 + M10 + M11

  const M0: string := "{\"type\": \"meta\", "
  const M1: string := "\"format\": \"jsonl\", "
  const M2: string := "\"schema_version\": 2, "
  const M3: string := "\"fields\": [\"ts\", "
  const M4: string := "\"fecha\", \"hora\", "
  const M5: string := "\"actor\", \"user\", "
  const M6: string := "\"host\", \"action\", "
  const M7: string := "\"version_file\", "
  const M8: string := "\"version_label\", "
  const M9: string := "\"command\", \"result\", "
  const M10: string := "\"notes\", "
  const M11: string := "\"files_changed\"]}"

  /** The parser recognises the header this module writes as a meta record. */
  predicate ReadsMetaHeader(parse: string -> Parsed) {
    && parse(MetaLine + "\n").Object? && IsMetaObject(parse(MetaLine + "\n").fields)
    && parse(MetaLine).Object? && IsMetaObject(parse(MetaLine).fields)
  }

  /** Printable ASCII only: no line break, no carriage return. */
  predicate Printable(s: string) {
    forall i :: 0 <= i < |s| ==> ' ' <= s[i] <= '~'
  }

  /** Two printable strings concatenate to a printable one. */
  lemma PrintableJoin(a: string, b: string)
    requires Printable(a) && Printable(b)
    ensures Printable(a + b)
  {
  }

  /** Each piece of the header is printable. */
  lemma PrintableM0() ensures Printable(M0) {}
  lemma PrintableM1() ensures Printable(M1) {}
  lemma PrintableM2() ensures Printable(M2) {}
  lemma PrintableM3() ensures Printable(M3) {}
  lemma PrintableM4() ensures Printable(M4) {}
  lemma PrintableM5() ensures Printable(M5) {}
  lemma PrintableM6() ensures Printable(M6) {}
  lemma PrintableM7() ensures Printable(M7) {}
  lemma PrintableM8() ensures Printable(M8) {}
  lemma PrintableM9() ensures Printable(M9) {}
  lemma PrintableM10() ensures Printable(M10) {}
  lemma PrintableM11() ensures Printable(M11) {}

  /** The whole header line is printable. */
  lemma PrintableMetaLine()
    ensures Printable(MetaLine)
  {
    PrintableM0(); PrintableM1(); PrintableM2(); PrintableM3(); PrintableM4(); PrintableM5();
    PrintableM6(); PrintableM7(); PrintableM8(); PrintableM9(); PrintableM10(); PrintableM11();
    PrintableJoin(M0, M1);
    PrintableJoin(M0 + M1, M2);
    PrintableJoin(M0 + M1 + M2, M3);
    PrintableJoin(M0 + M1 + M2 + M3, M4);
    PrintableJoin(M0 + M1 + M2 + M3 + M4, M5);
    PrintableJoin(M0 + M1 + M2 + M3 + M4 + M5, M6);
    PrintableJoin(M0 + M1 + M2 + M3 + M4 + M5 + M6, M7);
    PrintableJoin(M0 + M1 + M2 + M3 + M4 + M5 + M6 + M7, M8);
    PrintableJoin(M0 + M1 + M2 + M3 + M4 + M5 + M6 + M7 + M8, M9);
    PrintableJoin(M0 + M1 + M2 + M3 + M4 + M5 + M6 + M7 + M8 + M9, M10);
    PrintableJoin(M0 + M1 + M2 + M3 + M4 + M5 + M6 + M7 + M8 + M9 + M10, M11);
  }

  /** The header is one line: no line break, no carriage return, braces at both ends. */
  lemma MetaLineShape()
    ensures NoLineBreak(MetaLine) && '\r' !in MetaLine
    ensures MetaLine != [] && MetaLine[0] == '{' && MetaLine[|MetaLine| - 1] == '}'
  {
    PrintableMetaLine();
    assert MetaLine[0] == M0[0];
    assert MetaLine[|MetaLine| - 1] == M11[|M11| - 1];
  }

  /** Which branch `ensure_log` takes for the text it read ("" for a missing or empty file). */
  datatype Outcome = Created | ResetAfterBackup | HeaderPrepended | HeaderReplaced | FirstLineNotObject

  /** The first line of a non-empty text, with its line end, as splitlines(True)[0]. */
  function FirstLine(text: string): string
    requires text != []
  {
    text[..BreakEnd(text)]
  }

  /** The branch ensure_log takes for the text it read. */
  function RepairCase(text: string, parse: string -> Parsed): (r: Outcome)
    ensures r == Created <==> text == []
    ensures r == HeaderPrepended || r == HeaderReplaced <==> text != [] && parse(FirstLine(text)).Object?
    ensures r == HeaderReplaced <==> text != [] && parse(FirstLine(text)).Object? && IsMetaObject(parse(FirstLine(text)).fields)
  {
    if text == [] then Created
    else match parse(FirstLine(text))
      case NotJson => ResetAfterBackup
      case NonObject => FirstLineNotObject
      case Object(f) => if IsMetaObject(f) then HeaderReplaced else HeaderPrepended
  }

  /** The text `ensure_log` leaves in the log, given the text it read. */
  function Repaired(text: string, parse: string -> Parsed): (r: string)
    ensures RepairCase(text, parse) != FirstLineNotObject ==> StartsWith(r, MetaLine + "\n")
    ensures RepairCase(text, parse) == FirstLineNotObject ==> r == text
    ensures RepairCase(text, parse) == HeaderPrepended ==> r[|MetaLine| + 1..] == text
  {
    StartsWithJoin(MetaLine + "\n", if text == [] then [] else text[BreakEnd(text)..]);
    StartsWithJoin(MetaLine + "\n", text);
    match RepairCase(text, parse)
    case Created => MetaLine + "\n"
    case ResetAfterBackup => MetaLine + "\n"
    case FirstLineNotObject => text
    case HeaderPrepended => MetaLine + "\n" + text
    case HeaderReplaced => MetaLine + "\n" + text[BreakEnd(text)..]
  }

  /** The header line, followed by anything, splits into the header line and the rest. */
  lemma HeaderSplits(rest: string)
    ensures SplitKeep(MetaLine + "\n" + rest) == [MetaLine + "\n"] + SplitKeep(rest)
  {
    MetaLineShape();
    SplitKeepOneLine(MetaLine);
    SplitKeepAppend(MetaLine + "\n", rest);
  }

  /**
   * After a successful repair the first line of the log is the current
   * meta header; a new or corrupt log holds that line only; a log whose
   * first record is not meta keeps every line after the header; a log
   * that had a meta record keeps every line but the first.
   */
  lemma RepairedLines(text: string, parse: string -> Parsed)
    ensures var lines := SplitKeep(Repaired(text, parse));
      match RepairCase(text, parse)
      case Created => lines == [MetaLine + "\n"]
      case ResetAfterBackup => lines == [MetaLine + "\n"]
      case FirstLineNotObject => lines == SplitKeep(text)
      case HeaderPrepended => lines == [MetaLine + "\n"] + SplitKeep(text)
      case HeaderReplaced => lines == [MetaLine + "\n"] + SplitKeep(text)[1..]
  {
    var r := Repaired(text, parse);
    match RepairCase(text, parse)
    case Created =>
      assert r == MetaLine + "\n" + [];
      HeaderSplits([]);
    case ResetAfterBackup =>
      assert r == MetaLine + "\n" + [];
      HeaderSplits([]);
    case FirstLineNotObject =>
    case HeaderPrepended =>
      HeaderSplits(text);
    case HeaderReplaced =>
      assert SplitKeep(text)[1..] == SplitKeep(text[BreakEnd(text)..]);
      HeaderSplits(text[BreakEnd(text)..]);
  }

  /** In a text that starts with the header line, the first line is the header line. */
  lemma HeaderFirst(rest: string)
    ensures var t := MetaLine + "\n" + rest;
      BreakEnd(t) == |MetaLine| + 1 && FirstLine(t) == MetaLine + "\n" && t[BreakEnd(t)..] == rest
  {
    MetaLineShape();
    SplitKeepOneLine(MetaLine);
    assert BreakEnd(MetaLine + "\n") == |MetaLine| + 1;
    BreakEndPrefix(MetaLine + "\n", rest);
  }

  /** Repairing twice gives the same text as repairing once. */
  lemma RepairIdempotent(text: string, parse: string -> Parsed)
    requires ReadsMetaHeader(parse)
    ensures RepairCase(text, parse) != FirstLineNotObject ==>
      RepairCase(Repaired(text, parse), parse) == HeaderReplaced
    ensures Repaired(Repaired(text, parse), parse) == Repaired(text, parse)
  {
    var r := Repaired(text, parse);
    if RepairCase(text, parse) != FirstLineNotObject {
      var rest := r[|MetaLine| + 1..];
      assert r == MetaLine + "\n" + rest;
      HeaderFirst(rest);
      assert RepairCase(r, parse) == HeaderReplaced;
    }
  }

  /** A repair introduces no carriage return, so the repaired text reads back as written. */
  lemma RepairedHasNoCR(text: string, parse: string -> Parsed)
    requires '\r' !in text
    ensures '\r' !in Repaired(text, parse)
  {
    MetaLineShape();
    if RepairCase(text, parse) == HeaderReplaced {
      var k := BreakEnd(text);
      assert forall i :: 0 <= i < |text| - k ==> text[k..][i] == text[k + i];
    }
  }

  /** Replacing the first kept line by the header line and joining gives the header line followed by the rest of the text. */
  lemma ReplaceFirstLine(text: string)
    requires text != []
    ensures SplitKeep(text) != [] && SplitKeep(text)[0] == FirstLine(text)
    ensures Concat(SplitKeep(text)[0 := MetaLine + "\n"]) == MetaLine + "\n" + text[BreakEnd(text)..]
  {
    var rest := text[BreakEnd(text)..];
    var lines := [MetaLine + "\n"] + SplitKeep(rest);
    SplitKeepUnfold(text);
    assert SplitKeep(text)[0 := MetaLine + "\n"] == lines;
    ConcatSplitKeep(rest);
    assert lines[1..] == SplitKeep(rest);
  }

  /** The text written by `_rewrite_with_append`, from the text it read. */
  function WithAppended(existing: string, line: string): string {
    if existing != [] && !EndsWith(existing, "\n") then existing + "\n" + line + "\n"
    else existing + line + "\n"
  }

  /**
   * The old text (given a final "\n" when it lacked one) is kept as a prefix,
   * and the new text ends with the appended line and "\n".
   */
  lemma WithAppendedShape(existing: string, line: string)
    ensures var sep := if existing != [] && !EndsWith(existing, "\n") then "\n" else "";
      WithAppended(existing, line) == existing + sep + line + "\n"
    ensures EndsWith(WithAppended(existing, line), line + "\n")
  {
    var r := WithAppended(existing, line);
    assert r[|r| - |line + "\n"|..] == line + "\n";
  }

  /** A log file: whether it exists, its stored text, and its ".bak" sibling. */
  class LogFile {
    var present: bool
    var content: string
    var backup: Option<string>

    /** A file that does not exist has no content. */
    ghost predicate Valid()
      reads this
    {
      !present ==> content == []
    }

    constructor (present: bool, content: string, backup: Option<string>)
      requires !present ==> content == []
      ensures Valid()
      ensures this.present == present && this.content == content && this.backup == backup
    {
      this.present := present;
      this.content := content;
      this.backup := backup;
    }

    /** What Path.read_text returns for this file ("" when it does not exist). */
    function ReadText(): string
      reads this
    {
      Universal(content)
    }

    /**
     * ensure_log: make the first line of the log the current meta header.
     * A corrupt first line sends the read text to the backup and resets the
     * log; a first line that is JSON but not an object makes `.get` raise,
     * which leaves the file alone and is reported as FirstLineNotObject.
     */
    method EnsureLog(parse: string -> Parsed) returns (outcome: Outcome)
      requires Valid()
      modifies this
      ensures Valid()
      ensures outcome == RepairCase(old(ReadText()), parse)
      ensures present == (old(present) || outcome == Created)
      ensures outcome != FirstLineNotObject ==> present
      ensures content == if outcome == FirstLineNotObject then old(content) else Repaired(old(ReadText()), parse)
      ensures backup == if outcome == ResetAfterBackup then Some(old(ReadText())) else old(backup)
    {
      if present && |content| > 0 {
        var text := Universal(content);
        var lines := SplitKeep(text);
        ConcatSplitKeep(text);
        ReplaceFirstLine(text);
        var first := parse(lines[0]);
        match first
        case NotJson =>
          backup := Some(Concat(lines));
          content := MetaLine + "\n";
          outcome := ResetAfterBackup;
        case NonObject =>
          outcome := FirstLineNotObject;
        case Object(fields) =>
          if !IsMetaObject(fields) {
            content := MetaLine + "\n" + Concat(lines);
            outcome := HeaderPrepended;
          } else {
            lines := lines[0 := MetaLine + "\n"];
            content := Concat(lines);
            outcome := HeaderReplaced;
          }
      } else {
        assert ReadText() == [];
        content := MetaLine + "\n";
        present := true;
        outcome := Created;
      }
    }

    /** _rewrite_with_append: read the file, add a missing final "\n", write it back with the line. */
    method RewriteWithAppend(line: string)
      requires Valid()
      modifies this
      ensures Valid() && present && backup == old(backup)
      ensures content == WithAppended(old(ReadText()), line)
    {
      var existing := "";
      if present {
        existing := Universal(content);
        if existing != [] && !EndsWith(existing, "\n") {
          existing := existing + "\n";
        }
      }
      content := existing + line + "\n";
      present := true;
    }

    /**
     * append_entry: ensure_log first, then append the serialised entry.
     * When ensure_log raises, nothing is appended.
     */
    method AppendEntry(parse: string -> Parsed, entryLine: string) returns (outcome: Outcome)
      requires Valid()
      modifies this
      ensures Valid()
      ensures outcome == RepairCase(old(ReadText()), parse)
      ensures present == (old(present) || outcome != FirstLineNotObject)
      ensures outcome != FirstLineNotObject ==> present
      ensures content == if outcome == FirstLineNotObject then old(content)
        else WithAppended(Universal(Repaired(old(ReadText()), parse)), entryLine)
      ensures backup == if outcome == ResetAfterBackup then Some(old(ReadText())) else old(backup)
    {
      outcome := EnsureLog(parse);
      if outcome != FirstLineNotObject {
        RewriteWithAppend(entryLine);
      }
    }

    /** log_change.py: open the log in append mode and write the line and "\n"; nothing else. */
    method AppendRaw(line: string)
      requires Valid()
      modifies this
      ensures Valid() && present && backup == old(backup)
      ensures content == old(content) + line + "\n"
    {
      content := content + line + "\n";
      present := true;
    }
  }

  /**
   * Calling ensure_log twice leaves the log and its backup exactly as one
   * call does: the second call finds the header it wrote and rewrites it
   * with itself.
   */
  method EnsureLogTwice(log: LogFile, parse: string -> Parsed)
    requires log.Valid() && ReadsMetaHeader(parse)
    modifies log
    ensures log.Valid()
    ensures var once := RepairCase(old(log.ReadText()), parse);
      && log.content == (if once == FirstLineNotObject then old(log.content) else Repaired(old(log.ReadText()), parse))
      && log.backup == (if once == ResetAfterBackup then Some(old(log.ReadText())) else old(log.backup))
  {
    var first := log.EnsureLog(parse);
    if first != FirstLineNotObject {
      RepairedHasNoCR(Universal(old(log.content)), parse);
      UniversalIdentityIff(log.content);
      RepairIdempotent(Universal(old(log.content)), parse);
    }
    var second := log.EnsureLog(parse);
  }
}
