/**
 * Reading the log back: `_read_jsonl_entries` in changelog.py and
 * `read_jsonl` in logs/generate_status_html.py (which return [] for a
 * missing file) and `read_jsonl` in logs/generate_changelog_html.py
 * (which has no existence check, so a missing file raises).
 *
 * Each non-blank stripped line goes through json.loads; a line that is
 * not JSON raises, a JSON value that is not an object raises on `.get`,
 * a meta object is skipped, and every other object is kept in order.
 */
module Entries {
  import opened Basics
  import opened Text
  import opened LogStore

  type Fields = map<string, string>

  /** The exception a reader lets escape: FileNotFoundError, JSONDecodeError, AttributeError. */
  datatype ReadError = FileMissing | InvalidJson | NoGetMethod

  /** What one line of the log contributes to the list a reader builds. */
  datatype LineOutcome = Skip | Keep(fields: Fields) | Fail(error: ReadError)

  /** What the loop does with one line: skip it, keep its object, or raise. */
  function LineOutcomeOf(raw: string, parse: string -> Parsed): (r: LineOutcome)
    ensures AllSpace(raw) ==> r == Skip
    ensures r.Keep? ==> !IsMetaObject(r.fields) && parse(Strip(raw)) == Object(r.fields)
    ensures r.Fail? <==> !AllSpace(raw) && !parse(Strip(raw)).Object?
  {
    StripEmptyIff(raw);
    var line := Strip(raw);
    if line == [] then Skip
    else match parse(line)
      case NotJson => Fail(InvalidJson)
      case NonObject => Fail(NoGetMethod)
      case Object(f) => if IsMetaObject(f) then Skip else Keep(f)
  }

  /** `kept` followed by the entries of a successful read; an error passes through. */
  function Then(kept: seq<Fields>, r: Result<seq<Fields>, ReadError>): Result<seq<Fields>, ReadError> {
    match r
    case Ok(es) => Ok(kept + es)
    case Err(e) => Err(e)
  }

  /** Reading `a` and then `b`: the first error wins, otherwise the entries are concatenated. */
  function Chain(ra: Result<seq<Fields>, ReadError>, rb: Result<seq<Fields>, ReadError>): Result<seq<Fields>, ReadError> {
    match ra
    case Ok(es) => Then(es, rb)
    case Err(e) => Err(e)
  }

  /** The outcome of every line, in file order. */
  function Outcomes(lines: seq<string>, parse: string -> Parsed): (os: seq<LineOutcome>)
    ensures |os| == |lines|
    ensures forall i :: 0 <= i < |lines| ==> os[i] == LineOutcomeOf(lines[i], parse)
  {
    MapSeq(lines, OutcomeOf(parse))
  }

  /** LineOutcomeOf as a function of the line alone. */
  function OutcomeOf(parse: string -> Parsed): (f: string -> LineOutcome)
    ensures forall raw :: f(raw) == LineOutcomeOf(raw, parse)
  {
    raw => LineOutcomeOf(raw, parse)
  }

  /** The kept objects in order, or the error of the first outcome that raises. */
  function Collect(os: seq<LineOutcome>): Result<seq<Fields>, ReadError> {
    if os == [] then Ok([])
    else
      var rest := Collect(os[1..]);
      match os[0]
      case Skip => rest
      case Keep(f) => Then([f], rest)
      case Fail(e) => Err(e)
  }

  /** The result of reading the given lines. */
  function EntriesOf(lines: seq<string>, parse: string -> Parsed): (r: Result<seq<Fields>, ReadError>)
    ensures r.Err? ==> exists i :: 0 <= i < |lines| && FirstFailAt(lines, parse, i) && LineOutcomeOf(lines[i], parse) == Fail(r.error)
  {
    CollectErr(Outcomes(lines, parse));
    Collect(Outcomes(lines, parse))
  }

  /** Line `i` raises and no earlier line does. */
  predicate FirstFailAt(lines: seq<string>, parse: string -> Parsed, i: nat)
    requires i < |lines|
  {
    LineOutcomeOf(lines[i], parse).Fail? && forall j :: 0 <= j < i ==> !LineOutcomeOf(lines[j], parse).Fail?
  }

  /** A failed collection reports the error of the first outcome that raises. */
  lemma {:induction false} CollectErr(os: seq<LineOutcome>)
    ensures Collect(os).Err? ==>
      exists i :: 0 <= i < |os| && os[i] == Fail(Collect(os).error) && (forall j :: 0 <= j < i ==> !os[j].Fail?)
  {
    if os != [] && Collect(os).Err? && !os[0].Fail? {
      CollectErr(os[1..]);
      var i :| 0 <= i < |os[1..]| && os[1..][i] == Fail(Collect(os[1..]).error) && (forall j :: 0 <= j < i ==> !os[1..][j].Fail?);
      assert os[i + 1] == os[1..][i];
      assert forall j :: 1 <= j < i + 1 ==> os[j] == os[1..][j - 1];
    }
  }

  /** Collecting succeeds exactly when no outcome raises. */
  lemma {:induction false} CollectOkIff(os: seq<LineOutcome>)
    ensures Collect(os).Ok? <==> forall i :: 0 <= i < |os| ==> !os[i].Fail?
  {
    if os != [] {
      CollectOkIff(os[1..]);
      assert forall i :: 1 <= i < |os| ==> os[i] == os[1..][i - 1];
    }
  }

  /** A read succeeds exactly when no line raises. */
  lemma EntriesOkIff(lines: seq<string>, parse: string -> Parsed)
    ensures EntriesOf(lines, parse).Ok? <==> forall i :: 0 <= i < |lines| ==> !LineOutcomeOf(lines[i], parse).Fail?
  {
    CollectOkIff(Outcomes(lines, parse));
  }

  /** A successful collection keeps no meta object and at most one entry per outcome. */
  lemma {:induction false} CollectShape(os: seq<LineOutcome>)
    requires Collect(os).Ok?
    requires forall i :: 0 <= i < |os| ==> os[i].Keep? ==> !IsMetaObject(os[i].fields)
    ensures |Collect(os).value| <= |os|
    ensures forall i :: 0 <= i < |Collect(os).value| ==> !IsMetaObject(Collect(os).value[i])
  {
    if os != [] {
      assert forall i :: 1 <= i < |os| ==> os[i] == os[1..][i - 1];
      CollectShape(os[1..]);
    }
  }

  /** A successful read keeps no meta object and at most one entry per line. */
  lemma EntriesOfShape(lines: seq<string>, parse: string -> Parsed)
    requires EntriesOf(lines, parse).Ok?
    ensures |EntriesOf(lines, parse).value| <= |lines|
    ensures forall i :: 0 <= i < |EntriesOf(lines, parse).value| ==> !IsMetaObject(EntriesOf(lines, parse).value[i])
  {
    var os := Outcomes(lines, parse);
    forall i | 0 <= i < |os| ensures os[i].Keep? ==> !IsMetaObject(os[i].fields) {
      KeptNotMeta(lines[i], parse);
    }
    CollectShape(os);
  }

  /** A line is kept only when its object is not a meta record. */
  lemma KeptNotMeta(raw: string, parse: string -> Parsed)
    ensures LineOutcomeOf(raw, parse).Keep? ==> !IsMetaObject(LineOutcomeOf(raw, parse).fields)
  {
  }

  /** Prefixing kept entries twice is prefixing their concatenation. */
  lemma ThenThen(a: seq<Fields>, b: seq<Fields>, r: Result<seq<Fields>, ReadError>)
    ensures Then(a, Then(b, r)) == Then(a + b, r)
  {
    if r.Ok? {
      assert a + (b + r.value) == (a + b) + r.value;
    }
  }

  /** Collecting `a + b` is collecting `a` and then `b`. */
  lemma {:induction false} CollectAppend(a: seq<LineOutcome>, b: seq<LineOutcome>)
    ensures Collect(a + b) == Chain(Collect(a), Collect(b))
  {
    if a == [] {
      assert a + b == b;
      if Collect(b).Ok? {
        assert [] + Collect(b).value == Collect(b).value;
      }
    } else {
      assert (a + b)[0] == a[0];
      assert (a + b)[1..] == a[1..] + b;
      CollectAppend(a[1..], b);
      if a[0].Keep? && Collect(a[1..]).Ok? {
        ThenThen([a[0].fields], Collect(a[1..]).value, Collect(b));
      }
    }
  }

  /** Reading the lines of `a + b` is reading `a` and then `b`. */
  lemma EntriesAppend(a: seq<string>, b: seq<string>, parse: string -> Parsed)
    ensures EntriesOf(a + b, parse) == Chain(EntriesOf(a, parse), EntriesOf(b, parse))
  {
    OutcomesAppend(a, b, parse);
    CollectAppend(Outcomes(a, parse), Outcomes(b, parse));
  }

  /** The outcomes of `a + b` are those of `a` followed by those of `b`. */
  lemma OutcomesAppend(a: seq<string>, b: seq<string>, parse: string -> Parsed)
    ensures Outcomes(a + b, parse) == Outcomes(a, parse) + Outcomes(b, parse)
  {
    MapSeqAppend(a, b, OutcomeOf(parse));
  }

  /** The loop shared by the three readers, over the lines of the text they read. */
  method ScanLines(lines: seq<string>, parse: string -> Parsed) returns (r: Result<seq<Fields>, ReadError>)
    ensures r == EntriesOf(lines, parse)
  {
    ghost var os := Outcomes(lines, parse);
    var items: seq<Fields> := [];
    var i := 0;
    assert os[0..] == os;
    if EntriesOf(lines, parse).Ok? {
      assert [] + EntriesOf(lines, parse).value == EntriesOf(lines, parse).value;
    }
    while i < |lines|
      invariant 0 <= i <= |lines|
      invariant EntriesOf(lines, parse) == Then(items, Collect(os[i..]))
    {
      assert os[i..][0] == os[i] && os[i..][1..] == os[i + 1..];
      var line := Strip(lines[i]);
      if line != [] {
        match parse(line) {
          case NotJson =>
            return Err(InvalidJson);
          case NonObject =>
            return Err(NoGetMethod);
          case Object(f) =>
            if !IsMetaObject(f) {
              ThenThen(items, [f], Collect(os[i + 1..]));
              items := items + [f];
            }
        }
      }
      i := i + 1;
    }
    assert os[i..] == [];
    assert items + [] == items;
    r := Ok(items);
  }

  /** `_read_jsonl_entries` (changelog.py) and `read_jsonl` (logs/generate_status_html.py). */
  method ReadJsonlEntries(present: bool, content: string, parse: string -> Parsed) returns (r: Result<seq<Fields>, ReadError>)
    ensures !present ==> r == Ok([])
    ensures present ==> r == EntriesOf(SplitLines(Universal(content)), parse)
  {
    if !present {
      return Ok([]);
    }
    r := ScanLines(SplitLines(Universal(content)), parse);
  }

  /** `read_jsonl` (logs/generate_changelog_html.py): a missing file is an error. */
  method ReadJsonl(present: bool, content: string, parse: string -> Parsed) returns (r: Result<seq<Fields>, ReadError>)
    ensures !present ==> r == Err(FileMissing)
    ensures present ==> r == EntriesOf(SplitLines(Universal(content)), parse)
  {
    if !present {
      return Err(FileMissing);
    }
    r := ScanLines(SplitLines(Universal(content)), parse);
  }

  /** Reading nothing more changes nothing. */
  lemma ChainNothing(r: Result<seq<Fields>, ReadError>)
    ensures Chain(r, Ok([])) == r
  {
    if r.Ok? {
      assert r.value + [] == r.value;
    }
  }

  /** A serialised entry: one line that json.loads reads as a non-meta object. */
  predicate EntryLine(line: string, f: Fields, parse: string -> Parsed) {
    NoLineBreak(line) && Strip(line) != [] && parse(Strip(line)) == Object(f) && !IsMetaObject(f)
  }

  /** Reading the appended line alone yields its object. */
  lemma EntryLineReads(line: string, f: Fields, parse: string -> Parsed)
    requires EntryLine(line, f, parse)
    ensures EntriesOf([line], parse) == Ok([f])
  {
    assert Outcomes([line], parse) == [Keep(f)];
    assert Collect([Keep(f)][1..]) == Ok([]);
    assert [f] + [] == [f];
  }

  /** A blank line is skipped. */
  lemma BlankLineReads(parse: string -> Parsed)
    ensures EntriesOf([[]], parse) == Ok([])
  {
    assert Outcomes([[]], parse) == [Skip];
    assert Collect([Skip][1..]) == Ok([]);
  }

  /**
   * `_rewrite_with_append` followed by a read: the entries read before,
   * then the appended one. This holds whether or not the old text ended in
   * a line end, since the repaired line end is either absorbed into the last
   * line or produces a blank line that readers skip.
   */
  lemma ReadBackAfterRewrite(existing: string, line: string, f: Fields, parse: string -> Parsed)
    requires '\r' !in existing
    requires EntryLine(line, f, parse)
    ensures EntriesOf(SplitLines(Universal(WithAppended(existing, line))), parse)
      == Chain(EntriesOf(SplitLines(existing), parse), Ok([f]))
  {
    var w := WithAppended(existing, line);
    assert '\r' !in line by {
      assert forall i :: 0 <= i < |line| ==> !IsLineBreak(line[i]);
    }
    assert '\r' !in w;
    UniversalIdentityIff(w);
    if existing == [] || EndsWith(existing, "\n") {
      ReadBackClosed(existing, line, f, parse);
    } else {
      ReadBackUnclosed(existing, line, f, parse);
    }
  }

  /** The old text is empty or ends in "\n": the line is added as is. */
  lemma ReadBackClosed(existing: string, line: string, f: Fields, parse: string -> Parsed)
    requires existing == [] || EndsWith(existing, "\n")
    requires EntryLine(line, f, parse)
    ensures EntriesOf(SplitLines(WithAppended(existing, line)), parse)
      == Chain(EntriesOf(SplitLines(existing), parse), Ok([f]))
  {
    SplitLinesOneLine(line);
    EntryLineReads(line, f, parse);
    assert existing + line + "\n" == existing + (line + "\n");
    assert WithAppended(existing, line) == existing + line + "\n";
    assert existing == [] || existing[|existing| - 1] == '\n';
    SplitLinesAppend(existing, line + "\n");
    EntriesAppend(SplitLines(existing), [line], parse);
  }

  /** The old text lacks a final "\n": `_rewrite_with_append` adds one first. */
  lemma ReadBackUnclosed(existing: string, line: string, f: Fields, parse: string -> Parsed)
    requires existing != [] && !EndsWith(existing, "\n") && '\r' !in existing
    requires EntryLine(line, f, parse)
    ensures EntriesOf(SplitLines(WithAppended(existing, line)), parse)
      == Chain(EntriesOf(SplitLines(existing), parse), Ok([f]))
  {
    SplitLinesOneLine(line);
    EntryLineReads(line, f, parse);
    var last := existing[|existing| - 1];
    assert last != '\n';
    assert last != '\r' by {
      assert last in existing;
    }
    AppendAssoc(existing + "\n", line, "\n");
    SplitLinesAppend(existing + "\n", line + "\n");
    EntriesAppend(SplitLines(existing + "\n"), [line], parse);
    SplitLinesClose(existing);
    if IsLineBreak(last) {
      EntriesAppend(SplitLines(existing), [[]], parse);
      BlankLineReads(parse);
      ChainNothing(EntriesOf(SplitLines(existing), parse));
    }
  }

  /** The header line is skipped by every reader. */
  lemma HeaderLineSkipped(rest: seq<string>, parse: string -> Parsed)
    requires ReadsMetaHeader(parse)
    ensures EntriesOf([MetaLine] + rest, parse) == EntriesOf(rest, parse)
  {
    MetaLineReads(parse);
    EntriesAppend([MetaLine], rest, parse);
    if EntriesOf(rest, parse).Ok? {
      assert [] + EntriesOf(rest, parse).value == EntriesOf(rest, parse).value;
    }
  }

  /** The header line alone reads as no entry. */
  lemma MetaLineReads(parse: string -> Parsed)
    requires ReadsMetaHeader(parse)
    ensures EntriesOf([MetaLine], parse) == Ok([])
  {
    MetaLineShape();
    StripUnchanged(MetaLine);
    MetaObjectLineReads(MetaLine, parse);
  }

  /** A stripped line holding a meta object reads as no entry. */
  lemma MetaObjectLineReads(h: string, parse: string -> Parsed)
    requires h != [] && Strip(h) == h
    requires parse(h).Object? && IsMetaObject(parse(h).fields)
    ensures EntriesOf([h], parse) == Ok([])
  {
    assert LineOutcomeOf(h, parse) == Skip;
    assert Outcomes([h], parse) == [Skip];
    assert Collect([Skip][1..]) == Ok([]);
  }

  /** The header line followed by some text reads as that text alone. */
  lemma HeaderTextSkipped(rest: string, parse: string -> Parsed)
    requires ReadsMetaHeader(parse)
    ensures EntriesOf(SplitLines(MetaLine + "\n" + rest), parse) == EntriesOf(SplitLines(rest), parse)
  {
    MetaLineShape();
    SplitLinesOneLine(MetaLine);
    SplitLinesAppend(MetaLine + "\n", rest);
    HeaderLineSkipped(SplitLines(rest), parse);
  }

  /** A log holding only the header line reads as no entry. */
  lemma HeaderOnlyReads(parse: string -> Parsed)
    requires ReadsMetaHeader(parse)
    ensures EntriesOf(SplitLines(MetaLine + "\n"), parse) == Ok([])
  {
    HeaderTextSkipped([], parse);
    assert MetaLine + "\n" + [] == MetaLine + "\n";
    assert EntriesOf(SplitLines([]), parse) == Ok([]);
  }

  /**
   * What a reader finds in the log `ensure_log` leaves: nothing after
   * creating or resetting it, the old entries after prepending the header,
   * and the entries of the lines after the first when the header is
   * replaced.
   */
  lemma RepairedEntries(text: string, parse: string -> Parsed)
    requires ReadsMetaHeader(parse)
    ensures var after := EntriesOf(SplitLines(Repaired(text, parse)), parse);
      match RepairCase(text, parse)
      case Created => after == Ok([])
      case ResetAfterBackup => after == Ok([])
      case HeaderPrepended => after == EntriesOf(SplitLines(text), parse)
      case HeaderReplaced => after == EntriesOf(SplitLines(text)[1..], parse)
      case FirstLineNotObject => after == EntriesOf(SplitLines(text), parse)
  {
    match RepairCase(text, parse)
    case Created =>
      HeaderOnlyReads(parse);
    case ResetAfterBackup =>
      HeaderOnlyReads(parse);
    case HeaderPrepended =>
      HeaderTextSkipped(text, parse);
    case HeaderReplaced =>
      HeaderTextSkipped(text[BreakEnd(text)..], parse);
      SplitLinesTail(text);
    case FirstLineNotObject =>
  }

  /**
   * append_entry read back: whenever ensure_log succeeds, the log then
   * reads as what the repaired log held followed by the new entry.
   */
  lemma AppendEntryReadBack(content: string, line: string, f: Fields, parse: string -> Parsed)
    requires EntryLine(line, f, parse)
    ensures var repaired := Repaired(Universal(content), parse);
      EntriesOf(SplitLines(Universal(WithAppended(Universal(repaired), line))), parse)
        == Chain(EntriesOf(SplitLines(repaired), parse), Ok([f]))
  {
    var repaired := Repaired(Universal(content), parse);
    RepairedHasNoCR(Universal(content), parse);
    UniversalIdentityIff(repaired);
    ReadBackAfterRewrite(repaired, line, f, parse);
  }

  /** Appending a line without "\r" to a log that ends in a line end appends its lines to the log's. */
  lemma RawAppendLines(content: string, line: string)
    requires content == [] || content[|content| - 1] == '\n'
    requires '\r' !in line
    ensures SplitLines(Universal(content + line + "\n")) == SplitLines(Universal(content)) + SplitLines(line + "\n")
  {
    UniversalIdentityIff(line + "\n");
    assert content + line + "\n" == content + (line + "\n");
    UniversalAppend(content, line + "\n");
    if content != [] {
      UniversalEndsNewline(content);
    }
    SplitLinesAppend(Universal(content), line + "\n");
  }

  /**
   * logs/log_change.py read back: appending one line to a log that ends in
   * a line end (or is empty or missing) adds exactly that entry.
   */
  lemma RawAppendReadBack(content: string, line: string, f: Fields, parse: string -> Parsed)
    requires content == [] || content[|content| - 1] == '\n'
    requires EntryLine(line, f, parse)
    ensures EntriesOf(SplitLines(Universal(content + line + "\n")), parse)
      == Chain(EntriesOf(SplitLines(Universal(content)), parse), Ok([f]))
  {
    assert '\r' !in line by {
      assert forall i :: 0 <= i < |line| ==> !IsLineBreak(line[i]);
    }
    RawAppendLines(content, line);
    SplitLinesOneLine(line);
    EntriesAppend(SplitLines(Universal(content)), [line], parse);
    EntryLineReads(line, f, parse);
  }

  /** `parse` decodes no proper prefix of `line` to an object, as json.loads does for a dumped object. */
  predicate RejectsCutOff(line: string, parse: string -> Parsed) {
    forall k :: 0 < k < |line| ==> !parse(Strip(line[..k])).Object?
  }

  /**
   * A line that holds a line break, appended to a log that ends in a line
   * end, is read as more than one line. When no proper prefix of it decodes
   * to an object (json.loads raises on a cut-off object), the read fails,
   * and so does every later read of the log.
   */
  lemma CutLineFailsRead(content: string, line: string, parse: string -> Parsed)
    requires content == [] || content[|content| - 1] == '\n'
    requires '\r' !in line && !NoLineBreak(line) && line != [] && !IsSpace(line[0])
    requires RejectsCutOff(line, parse)
    ensures EntriesOf(SplitLines(Universal(content + line + "\n")), parse).Err?
  {
    RawAppendLines(content, line);
    var b := SplitLines(line + "\n");
    var k := FirstPiece(line);
    var piece := line[..k];
    assert piece[0] == line[0];
    assert LineOutcomeOf(piece, parse).Fail?;
    var os := Outcomes(b, parse);
    assert os[0].Fail?;
    assert EntriesOf(b, parse) == Collect(os);
    EntriesAppend(SplitLines(Universal(content)), b, parse);
  }
}
