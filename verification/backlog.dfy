/**
 * `parse_backlog` in logs/generate_status_html.py: BACKLOG.md read as a
 * list of items. A `## ` line opens an item titled by the rest of the
 * line; a `# ` line and a blank line are ignored; any other line adds a
 * body line to the item being built, cut after its first two characters
 * when its left-stripped form starts with `- `. Lines
 * before the first `## ` form an untitled item of their own.
 */
module Backlog {
  import opened Basics
  import opened Text
  import opened Scan

  /** One backlog item, as the dictionary `flush` appends. */
  datatype Item = Item(title: string, text: string, ts: string, priority: Option<nat>, trash: bool)

  /** What one line of the backlog is, once right-stripped. */
  datatype LineKind = Header(title: string) | Ignored | Body(text: string)

  /**
   * The text a body line contributes, as the code is written: a line whose
   * left-stripped form starts with "- " loses its first two characters,
   * counted on the line before left-stripping.
   */
  function BodyTextAsWritten(line: string): string {
    if StartsWith(LStrip(line), "- ") then Strip(line[2..]) else Strip(line)
  }

  /** The text a body line contributes: without its "- " bullet, however far the bullet is indented. */
  function BodyText(line: string): string {
    var l := LStrip(line);
    if StartsWith(l, "- ") then Strip(l[2..]) else Strip(line)
  }

  /** How the loop of parse_backlog treats one raw line. */
  function LineKindOf(raw: string): (k: LineKind)
    ensures k.Header? <==> StartsWith(RStrip(raw), "## ")
    ensures k.Ignored? <==> !StartsWith(RStrip(raw), "## ") && (StartsWith(RStrip(raw), "# ") || AllSpace(raw))
    ensures k.Body? ==> !AllSpace(raw) && k.text == BodyTextAsWritten(RStrip(raw))
  {
    StripEmptyIff(RStrip(raw));
    RStripBlankIff(raw);
    var line := RStrip(raw);
    if StartsWith(line, "## ") then Header(Strip(line[3..]))
    else if StartsWith(line, "# ") then Ignored
    else if Strip(line) == [] then Ignored
    else Body(BodyTextAsWritten(line))
  }

  /** The kind of every line, in order. */
  function Kinds(lines: seq<string>): (ks: seq<LineKind>)
    ensures |ks| == |lines|
    ensures forall i :: 0 <= i < |lines| ==> ks[i] == LineKindOf(lines[i])
  {
    seq(|lines|, i requires 0 <= i < |lines| => LineKindOf(lines[i]))
  }

  /**
   * The item `flush` appends for a title (None before the first header)
   * and the body lines collected under it: the text is the body lines
   * joined and stripped; the timestamp is the first `[YYYY-MM-DD HH:MM]`
   * in the text; the priority is the first `[P<n>]` of the title, or else
   * of the text; the item is trash when `[X]` or `[TRASH]` occurs in the
   * title followed directly by the text.
   */
  function MakeItem(title: Option<string>, buf: seq<string>): (it: Item)
    ensures NoOuterSpace(it.title) && NoOuterSpace(it.text)
    ensures it.ts == [] || |it.ts| == 16
  {
    StrippedNoOuterSpace(title.GetOr(""));
    StrippedNoOuterSpace(JoinWith(buf, "\n"));
    var t := title.GetOr("");
    var body := Strip(JoinWith(buf, "\n"));
    var prio := FirstPriority(t);
    Item(Strip(t), body, FirstStamp(body), if prio.Some? then prio else FirstPriority(body), HasTrashMark(t + body))
  }

  /**
   * The marks of an item: it has a timestamp exactly when its text holds
   * one; it has a priority exactly when its title or its text holds one,
   * and a mark in the title takes precedence; it is trash exactly when the
   * title followed by the text holds a trash mark.
   */
  lemma ItemMarks(title: Option<string>, buf: seq<string>)
    ensures var it := MakeItem(title, buf); var t := title.GetOr("");
      && it.title == Strip(t)
      && it.text == Strip(JoinWith(buf, "\n"))
      && (it.ts == [] <==> !HasStamp(it.text))
      && (it.ts != [] ==> exists k :: 0 <= k < |it.text| && FirstStampAt(it.text, k) && it.ts == it.text[k + 1..k + 17])
      && (it.priority.None? <==> !HasPriority(t) && !HasPriority(it.text))
      && (HasPriority(t) ==> it.priority == FirstPriority(t))
      && (!HasPriority(t) ==> it.priority == FirstPriority(it.text))
      && (it.trash <==> HasTrashMark(t + it.text))
  {
  }

  /** A title (None before the first header) and the body lines collected under it. */
  datatype Section = Section(title: Option<string>, lines: seq<string>)

  /** What `flush()` contributes: nothing when there is neither a title nor a body line, otherwise one section. */
  function Flush(title: Option<string>, buf: seq<string>): (r: seq<Section>)
    ensures |r| == (if title.None? && buf == [] then 0 else 1)
  {
    if title.None? && buf == [] then [] else [Section(title, buf)]
  }

  /** The sections the loop and the final `flush()` close, from the remaining lines, given the current title and buffer. */
  function Run(ks: seq<LineKind>, title: Option<string>, buf: seq<string>): seq<Section>
    decreases |ks|
  {
    if ks == [] then Flush(title, buf)
    else match ks[0]
      case Header(t) => Flush(title, buf) + Run(ks[1..], Some(t), [])
      case Ignored => Run(ks[1..], title, buf)
      case Body(b) => Run(ks[1..], title, buf + [b])
  }

  /** The item of each section. */
  function Items(ss: seq<Section>): (r: seq<Item>)
    ensures |r| == |ss|
    ensures forall i :: 0 <= i < |ss| ==> r[i] == MakeItem(ss[i].title, ss[i].lines)
  {
    MapSeq(ss, SectionItem)
  }

  /** The item of one section. */
  function SectionItem(s: Section): Item {
    MakeItem(s.title, s.lines)
  }

  /** `it.get("title") or it.get("text")` */
  predicate Shown(it: Item) {
    it.title != [] || it.text != []
  }

  /** The final list comprehension: the items with a title or a text. */
  function Keep(items: seq<Item>): (r: seq<Item>)
    ensures forall i :: 0 <= i < |r| ==> Shown(r[i]) && r[i] in items
  {
    if items == [] then []
    else (if Shown(items[0]) then [items[0]] else []) + Keep(items[1..])
  }

  /** parse_backlog(md) */
  function ItemsOf(md: string): seq<Item> {
    Keep(Items(Run(Kinds(SplitLines(md)), None, [])))
  }

  /** What main hands to parse_backlog: the file's text, or a stand-in when BACKLOG.md does not exist. */
  function BacklogText(present: bool, content: string): string {
    if present then Universal(content) else "# BACKLOG\n- (no existe)"
  }

  /** One step of the loop of parse_backlog leaves the sections still to come unchanged. */
  lemma RunStep(ks: seq<LineKind>, i: nat, title: Option<string>, buf: seq<string>)
    requires i < |ks|
    ensures Run(ks[i..], title, buf) == match ks[i]
      case Header(t) => Flush(title, buf) + Run(ks[i + 1..], Some(t), [])
      case Ignored => Run(ks[i + 1..], title, buf)
      case Body(b) => Run(ks[i + 1..], title, buf + [b])
  {
    assert ks[i..][1..] == ks[i + 1..];
  }

  /** The items of two runs of sections are the items of each, in order. */
  lemma ItemsAppend(a: seq<Section>, b: seq<Section>)
    ensures Items(a + b) == Items(a) + Items(b)
  {
    MapSeqAppend(a, b, SectionItem);
  }

  /** The items a flush contributes: none, or the item of its section. */
  lemma ItemsFlush(title: Option<string>, buf: seq<string>)
    ensures Items(Flush(title, buf)) == if title.None? && buf == [] then [] else [MakeItem(title, buf)]
  {
  }

  /** The filter keeps item `i` or not and goes on with the rest. */
  lemma KeepStep(items: seq<Item>, i: nat)
    requires i < |items|
    ensures Keep(items[i..]) == (if Shown(items[i]) then [items[i]] else []) + Keep(items[i + 1..])
  {
    assert items[i..][1..] == items[i + 1..];
  }

  /** `flush()` as the source writes it: the guard, then the item appended. */
  method FlushInto(all: seq<Item>, title: Option<string>, buf: seq<string>, ghost done: seq<Section>)
    returns (all': seq<Item>)
    requires all == Items(done)
    ensures all' == Items(done + Flush(title, buf))
  {
    ItemsAppend(done, Flush(title, buf));
    ItemsFlush(title, buf);
    all' := all;
    if title.None? && buf == [] {
      assert done + [] == done;
      return;
    }
    all' := all + [MakeItem(title, buf)];
  }

  /** The filter at the end of parse_backlog. */
  method KeepShown(all: seq<Item>) returns (items: seq<Item>)
    ensures items == Keep(all)
  {
    items := [];
    assert all[0..] == all;
    for i := 0 to |all|
      invariant items + Keep(all[i..]) == Keep(all)
    {
      KeepStep(all, i);
      if Shown(all[i]) {
        AppendAssoc(items, [all[i]], Keep(all[i + 1..]));
        items := items + [all[i]];
      } else {
        assert [] + Keep(all[i + 1..]) == Keep(all[i + 1..]);
      }
    }
  }

  /** parse_backlog, step by step as the source runs it. */
  method ParseBacklog(md: string) returns (items: seq<Item>)
    ensures items == ItemsOf(md)
  {
    var lines := SplitLines(md);
    ghost var ks := Kinds(lines);
    ghost var done: seq<Section> := [];
    var all: seq<Item> := [];
    var title: Option<string> := None;
    var buf: seq<string> := [];
    for i := 0 to |lines|
      invariant all == Items(done)
      invariant done + Run(ks[i..], title, buf) == Run(ks, None, [])
    {
      RunStep(ks, i, title, buf);
      var line := RStrip(lines[i]);
      if StartsWith(line, "## ") {
        assert ks[i] == Header(Strip(line[3..]));
        AppendAssoc(done, Flush(title, buf), Run(ks[i + 1..], Some(Strip(line[3..])), []));
        all := FlushInto(all, title, buf, done);
        done := done + Flush(title, buf);
        title := Some(Strip(line[3..]));
        buf := [];
        continue;
      }
      if StartsWith(line, "# ") {
        assert ks[i] == Ignored;
        continue;
      }
      if Strip(line) == [] {
        assert ks[i] == Ignored;
        continue;
      }
      assert ks[i] == Body(BodyTextAsWritten(line));
      buf := buf + [BodyTextAsWritten(line)];
    }
    all := FlushInto(all, title, buf, done);
    items := KeepShown(all);
  }

  /** The body lines before the first header. */
  function Lead(ks: seq<LineKind>): seq<string>
    decreases |ks|
  {
    if ks == [] then []
    else match ks[0]
      case Header(_) => []
      case Ignored => Lead(ks[1..])
      case Body(b) => [b] + Lead(ks[1..])
  }

  /** The lines from the first header on. */
  function FromHeader(ks: seq<LineKind>): (r: seq<LineKind>)
    ensures |r| <= |ks| && r == ks[|ks| - |r|..]
    ensures r != [] ==> r[0].Header?
    decreases |ks|
  {
    if ks == [] then []
    else if ks[0].Header? then ks
    else FromHeader(ks[1..])
  }

  /** One section per header, holding the body lines up to the next header. */
  function HeaderSections(ks: seq<LineKind>): seq<Section>
    requires ks == [] || ks[0].Header?
    decreases |ks|
  {
    if ks == [] then []
    else [Section(Some(ks[0].title), Lead(ks[1..]))] + HeaderSections(FromHeader(ks[1..]))
  }

  /**
   * The loop closes the sections of the file: the pending section (title
   * and body lines so far) extended with the body lines before the first
   * header, then one section per header.
   */
  lemma {:induction false} RunSections(ks: seq<LineKind>, title: Option<string>, buf: seq<string>)
    ensures Run(ks, title, buf) == Flush(title, buf + Lead(ks)) + HeaderSections(FromHeader(ks))
    decreases |ks|
  {
    if ks == [] {
      AppendEmpty(buf);
    } else if ks[0].Header? {
      RunSections(ks[1..], Some(ks[0].title), []);
      HeaderUnfold(ks, title, buf);
      EmptyAppend(Lead(ks[1..]));
      AppendEmpty(buf);
    } else if ks[0].Ignored? {
      RunSections(ks[1..], title, buf);
      IgnoredUnfold(ks, title, buf);
    } else {
      RunSections(ks[1..], title, buf + [ks[0].text]);
      BodyUnfold(ks, title, buf);
      AppendAssoc(buf, [ks[0].text], Lead(ks[1..]));
    }
  }

  /** A header line closes the pending section and opens its own. */
  lemma HeaderUnfold(ks: seq<LineKind>, title: Option<string>, buf: seq<string>)
    requires ks != [] && ks[0].Header?
    ensures Lead(ks) == []
    ensures FromHeader(ks) == ks
    ensures HeaderSections(ks) == Flush(Some(ks[0].title), Lead(ks[1..])) + HeaderSections(FromHeader(ks[1..]))
    ensures Run(ks, title, buf) == Flush(title, buf) + Run(ks[1..], Some(ks[0].title), [])
  {
  }

  /** An ignored line changes nothing. */
  lemma IgnoredUnfold(ks: seq<LineKind>, title: Option<string>, buf: seq<string>)
    requires ks != [] && ks[0].Ignored?
    ensures Lead(ks) == Lead(ks[1..])
    ensures FromHeader(ks) == FromHeader(ks[1..])
    ensures Run(ks, title, buf) == Run(ks[1..], title, buf)
  {
  }

  /** A body line joins the pending section. */
  lemma BodyUnfold(ks: seq<LineKind>, title: Option<string>, buf: seq<string>)
    requires ks != [] && ks[0].Body?
    ensures Lead(ks) == [ks[0].text] + Lead(ks[1..])
    ensures FromHeader(ks) == FromHeader(ks[1..])
    ensures Run(ks, title, buf) == Run(ks[1..], title, buf + [ks[0].text])
  {
  }

  /** Line kinds as LineKindOf yields them: titles and body lines are stripped and non-empty. */
  predicate WellFormed(ks: seq<LineKind>) {
    forall i :: 0 <= i < |ks| ==> WellFormedKind(ks[i])
  }

  /** A title or body line is non-empty and does not start with white space. */
  predicate WellFormedKind(k: LineKind) {
    match k
    case Header(t) => t != [] && Strip(t) == t
    case Ignored => true
    case Body(b) => b != [] && !IsSpace(b[0])
  }

  /** Dropping lines keeps the rest well formed. */
  lemma WellFormedSuffix(ks: seq<LineKind>, j: nat)
    requires WellFormed(ks) && j <= |ks|
    ensures WellFormed(ks[j..])
  {
    forall i | 0 <= i < |ks| - j ensures WellFormedKind(ks[j..][i]) {
      assert ks[j..][i] == ks[j + i];
    }
  }

  /** A right-stripped line that starts with `p` ending in a space goes on past `p`. */
  lemma PastPrefix(line: string, p: string)
    requires line == RStrip(line) && StartsWith(line, p) && p != [] && IsSpace(p[|p| - 1])
    ensures Strip(line[|p|..]) != []
  {
    var j := |line| - 1;
    assert IsSpace(line[|p| - 1]) by {
      assert line[..|p|][|p| - 1] == line[|p| - 1];
    }
    assert !IsSpace(line[j]) by {
      var r := RStrip(line);
      assert r == line && r != [];
    }
    assert j >= |p|;
    var rest := line[|p|..];
    assert rest[j - |p|] == line[j];
    assert !AllSpace(rest);
    StripEmptyIff(rest);
  }

  /** A stripped string that is not empty starts with a character that is not white space. */
  lemma StrippedStart(s: string)
    requires Strip(s) != []
    ensures !IsSpace(Strip(s)[0])
  {
    var l := LStrip(s);
    assert RStrip(l)[0] == l[0];
  }

  /** Right-stripping twice is right-stripping once. */
  lemma RStripIdempotent(s: string)
    ensures RStrip(RStrip(s)) == RStrip(s)
  {
  }

  /** Every line kind LineKindOf yields is well formed. */
  lemma LineKindWellFormed(raw: string)
    ensures WellFormedKind(LineKindOf(raw))
  {
    var line := RStrip(raw);
    RStripIdempotent(raw);
    if StartsWith(line, "## ") {
      PastPrefix(line, "## ");
      StripIdempotent(line[3..]);
    } else if StartsWith(line, "# ") {
    } else if Strip(line) != [] {
      BodyWellFormed(line);
    }
  }

  /** The text of a right-stripped line that is not blank is non-empty and starts with a non-space. */
  lemma BodyWellFormed(line: string)
    requires RStrip(line) == line && Strip(line) != []
    ensures BodyTextAsWritten(line) != [] && !IsSpace(BodyTextAsWritten(line)[0])
  {
    var l := LStrip(line);
    if StartsWith(l, "- ") {
      BulletWellFormed(line, l);
    } else {
      StrippedStart(line);
    }
  }

  /**
   * A right-stripped line whose left-stripped form starts with "- " still
   * holds text after its first two characters: its last character is not
   * white space and comes after the bullet's space.
   */
  lemma BulletWellFormed(line: string, l: string)
    requires RStrip(line) == line && l == LStrip(line) && StartsWith(l, "- ")
    ensures Strip(line[2..]) != [] && !IsSpace(Strip(line[2..])[0])
  {
    assert l == line[|line| - |l|..];
    var j := |line| - 1;
    assert l[|l| - 1] == line[j];
    assert !IsSpace(line[j]);
    assert IsSpace(l[1]);
    assert line[2..][j - 2] == line[j];
    StripEmptyIff(line[2..]);
    StrippedStart(line[2..]);
  }

  /** Every line of a backlog is classified well-formed. */
  lemma KindsWellFormed(lines: seq<string>)
    ensures WellFormed(Kinds(lines))
  {
    forall i | 0 <= i < |lines| ensures WellFormedKind(LineKindOf(lines[i])) {
      LineKindWellFormed(lines[i]);
    }
  }

  /** The filter lets every item through. */
  lemma {:induction false} KeepAll(items: seq<Item>)
    requires forall i :: 0 <= i < |items| ==> Shown(items[i])
    ensures Keep(items) == items
  {
    if items != [] {
      KeepAll(items[1..]);
    }
  }

  /** sep.join(parts) starts with the first character of the first part. */
  lemma JoinWithStart(parts: seq<string>, sep: string)
    requires parts != [] && parts[0] != []
    ensures JoinWith(parts, sep) != [] && JoinWith(parts, sep)[0] == parts[0][0]
  {
  }

  /** The body lines before the first header are well formed. */
  lemma {:induction false} LeadWellFormed(ks: seq<LineKind>)
    requires WellFormed(ks)
    ensures forall i :: 0 <= i < |Lead(ks)| ==> Lead(ks)[i] != [] && !IsSpace(Lead(ks)[i][0])
    decreases |ks|
  {
    if ks != [] {
      assert WellFormedKind(ks[0]);
      WellFormedSuffix(ks, 1);
      LeadWellFormed(ks[1..]);
    }
  }

  /** A section with a title, or with a first body line that is not blank. */
  predicate Titled(s: Section) {
    if s.title.Some? then s.title.value != [] && Strip(s.title.value) == s.title.value
    else s.lines != [] && s.lines[0] != [] && !IsSpace(s.lines[0][0])
  }

  /** The item of such a section has a title or a text. */
  lemma TitledShown(s: Section)
    requires Titled(s)
    ensures Shown(MakeItem(s.title, s.lines))
  {
    if s.title.None? {
      var joined := JoinWith(s.lines, "\n");
      JoinWithStart(s.lines, "\n");
      StripEmptyIff(joined);
    }
  }

  /** Every header section has its header's title. */
  lemma {:induction false} HeaderSectionsTitled(ks: seq<LineKind>)
    requires ks == [] || ks[0].Header?
    requires WellFormed(ks)
    ensures forall i :: 0 <= i < |HeaderSections(ks)| ==> Titled(HeaderSections(ks)[i])
    decreases |ks|
  {
    if ks != [] {
      assert WellFormedKind(ks[0]);
      var rest := FromHeader(ks[1..]);
      WellFormedSuffix(ks, 1);
      WellFormedSuffix(ks[1..], |ks[1..]| - |rest|);
      HeaderSectionsTitled(rest);
      var head := Section(Some(ks[0].title), Lead(ks[1..]));
      assert Titled(head);
      var ss := HeaderSections(ks);
      assert ss == [head] + HeaderSections(rest);
      forall i | 0 <= i < |ss| ensures Titled(ss[i]) {
        if i > 0 {
          assert ss[i] == HeaderSections(rest)[i - 1];
        }
      }
    }
  }

  /**
   * parse_backlog returns the sections of the file: an untitled item for
   * the body lines before the first `## ` header, when there are any, then
   * one item per header with the body lines up to the next header. The
   * final filter removes none of them.
   */
  lemma ParsedSections(md: string)
    ensures var ks := Kinds(SplitLines(md));
      && ItemsOf(md) == Items(Run(ks, None, []))
      && ItemsOf(md) == Items(Flush(None, Lead(ks)) + HeaderSections(FromHeader(ks)))
  {
    var ks := Kinds(SplitLines(md));
    RunFromStart(ks);
    KindsWellFormed(SplitLines(md));
    SectionsTitled(ks);
    ItemsShown(Run(ks, None, []));
    KeepAll(Items(Run(ks, None, [])));
  }

  /** From well-formed lines, every section the loop closes is titled or starts with a non-blank body line. */
  lemma SectionsTitled(ks: seq<LineKind>)
    requires WellFormed(ks)
    ensures forall i :: 0 <= i < |Run(ks, None, [])| ==> Titled(Run(ks, None, [])[i])
  {
    RunFromStart(ks);
    var lead := Flush(None, Lead(ks));
    LeadTitled(ks);
    WellFormedSuffix(ks, |ks| - |FromHeader(ks)|);
    HeaderSectionsTitled(FromHeader(ks));
    TitledAppend(lead, HeaderSections(FromHeader(ks)));
  }

  /** From the start of the file, the pending section is empty. */
  lemma RunFromStart(ks: seq<LineKind>)
    ensures Run(ks, None, []) == Flush(None, Lead(ks)) + HeaderSections(FromHeader(ks))
  {
    var lead := Lead(ks);
    assert [] + lead == lead;
    RunSections(ks, None, []);
    assert Run(ks, None, []) == Flush(None, lead) + HeaderSections(FromHeader(ks));
  }

  /** The untitled section before the first header, if any, starts with a non-blank body line. */
  lemma LeadTitled(ks: seq<LineKind>)
    requires WellFormed(ks)
    ensures forall i :: 0 <= i < |Flush(None, Lead(ks))| ==> Titled(Flush(None, Lead(ks))[i])
  {
    LeadWellFormed(ks);
  }

  /** Two runs of titled sections make one. */
  lemma TitledAppend(a: seq<Section>, b: seq<Section>)
    requires forall i :: 0 <= i < |a| ==> Titled(a[i])
    requires forall i :: 0 <= i < |b| ==> Titled(b[i])
    ensures forall i :: 0 <= i < |a + b| ==> Titled((a + b)[i])
  {
    forall i | 0 <= i < |a + b| ensures Titled((a + b)[i]) {
      if i >= |a| {
        assert (a + b)[i] == b[i - |a|];
      }
    }
  }

  /** Titled sections give items the final filter keeps. */
  lemma ItemsShown(ss: seq<Section>)
    requires forall i :: 0 <= i < |ss| ==> Titled(ss[i])
    ensures forall i :: 0 <= i < |Items(ss)| ==> Shown(Items(ss)[i])
  {
    forall i | 0 <= i < |ss| ensures Shown(Items(ss)[i]) {
      TitledShown(ss[i]);
    }
  }

  /** Indenting a line does not change the text it contributes: a bullet loses its "- " at any depth. */
  lemma BodyTextIgnoresIndent(ws: string, line: string)
    requires AllSpace(ws)
    ensures BodyText(ws + line) == BodyText(line)
  {
    LStripSpacePrefix(ws, line);
  }

  /** A piece of text with no white space at either end. */
  predicate Trimmed(item: string) {
    item != [] && !IsSpace(item[0]) && !IsSpace(item[|item| - 1])
  }

  /** The text a "- " bullet line contributes when it is not indented: the item after the bullet. */
  lemma PlainBullet(item: string)
    requires Trimmed(item)
    ensures BodyTextAsWritten("- " + item) == item
    ensures BodyText("- " + item) == item
  {
    var line := "- " + item;
    LStripUnchanged(line);
    assert StartsWith(line, "- ");
    assert line[2..] == item;
    StripUnchanged(item);
  }

  /** A bullet indented by two spaces: lstrip reaches the bullet, and the first two characters are the indentation. */
  lemma IndentedLine(item: string)
    requires Trimmed(item)
    ensures LStrip("  - " + item) == "- " + item
    ensures ("  - " + item)[2..] == "- " + item
  {
    assert "  - " == "  " + "- ";
    AppendAssoc("  ", "- ", item);
    LStripSpacePrefix("  ", "- " + item);
    LStripUnchanged("- " + item);
  }

  /**
   * The source as written keeps the bullet of a line indented by two
   * spaces: "  - fix" contributes "- fix", where "- fix" contributes "fix".
   */
  lemma IndentedBulletAsWritten(item: string)
    requires Trimmed(item)
    ensures BodyTextAsWritten("- " + item) == item
    ensures BodyTextAsWritten("  - " + item) == "- " + item
  {
    PlainBullet(item);
    var line, bullet := "  - " + item, "- " + item;
    IndentedLine(item);
    StartsWithJoin("- ", item);
    assert bullet[|bullet| - 1] == item[|item| - 1];
    StripUnchanged(bullet);
    assert BodyTextAsWritten(line) == Strip(line[2..]);
  }

  /** With the bullet taken off the left-stripped line, the indented bullet reads as the plain one. */
  lemma IndentedBullet(item: string)
    requires Trimmed(item)
    ensures BodyText("  - " + item) == BodyText("- " + item) == item
  {
    assert "  - " + item == "  " + ("- " + item);
    BodyTextIgnoresIndent("  ", "- " + item);
    PlainBullet(item);
  }

  /** A marker followed by a line without line breaks has no line break. */
  lemma MarkedLine(marker: string, rest: string)
    requires NoLineBreak(marker) && NoLineBreak(rest)
    ensures NoLineBreak(marker + rest)
  {
  }

  /** A heading line and a bullet line split into those two lines. */
  lemma HeadingAndBulletSplit(heading: string, item: string)
    requires NoLineBreak(heading) && item != [] && NoLineBreak(item)
    ensures SplitLines("# " + heading + "\n" + "- " + item) == ["# " + heading, "- " + item]
  {
    var first, second := "# " + heading, "- " + item;
    assert "# " + heading + "\n" + "- " + item == first + "\n" + second;
    MarkedLine("# ", heading);
    MarkedLine("- ", item);
    SplitLinesOneLine(first);
    SplitLinesUnclosed(second);
    SplitLinesAppend(first + "\n", second);
  }

  /** A "# " heading line is ignored. */
  lemma HeadingIgnored(heading: string)
    requires Trimmed(heading)
    ensures LineKindOf("# " + heading) == Ignored
  {
    var line := "# " + heading;
    assert RStrip(line) == line;
    assert StartsWith(line, "# ") && !StartsWith(line, "## ");
  }

  /** A "- " bullet line not indented is a body line holding the item. */
  lemma BulletBody(item: string)
    requires Trimmed(item)
    ensures LineKindOf("- " + item) == Body(item)
  {
    var line := "- " + item;
    assert RStrip(line) == line;
    assert !StartsWith(line, "# ") && !StartsWith(line, "## ");
    PlainBullet(item);
    StripUnchanged(line);
  }

  /** The parser keeps the bullet of a line indented by two spaces: "  - fix" is the body line "- fix". */
  lemma IndentedBulletKind(item: string)
    requires Trimmed(item)
    ensures LineKindOf("  - " + item) == Body("- " + item)
  {
    var line := "  - " + item;
    assert line[0] == ' ' && line[|line| - 1] == item[|item| - 1];
    BodyKind(line);
    IndentedBulletAsWritten(item);
  }

  /** A line that neither starts with '#' nor ends in white space is a body line. */
  lemma BodyKind(line: string)
    requires line != [] && line[0] != '#' && !IsSpace(line[|line| - 1])
    ensures LineKindOf(line) == Body(BodyTextAsWritten(line))
  {
    RStripUnchanged(line);
    assert !StartsWith(line, "## ") && !StartsWith(line, "# ") by {
      assert line[0] != "#"[0];
    }
    StripEmptyIff(line);
  }

  /** A heading line and one bullet line: the heading is ignored and the bullet is the only body line. */
  lemma HeadingAndBulletLines(heading: string, item: string)
    requires Trimmed(heading) && NoLineBreak(heading)
    requires Trimmed(item) && NoLineBreak(item)
    ensures Kinds(SplitLines("# " + heading + "\n" + "- " + item)) == [Ignored, Body(item)]
  {
    HeadingAndBulletSplit(heading, item);
    HeadingIgnored(heading);
    BulletBody(item);
  }

  /** The item of a single body line with no bracket in it: no timestamp, no priority, not trash. */
  lemma UnmarkedItem(item: string)
    requires Trimmed(item) && '[' !in item
    ensures MakeItem(None, [item]) == Item("", item, "", None, false)
  {
    assert JoinWith([item], "\n") == item;
    StripUnchanged(item);
    assert "" + item == item;
    NoBracketNoMarks(item);
    NoBracketNoMarks("");
  }

  /** An ignored line and one body line close a single untitled section. */
  lemma OneBodyRun(item: string)
    ensures Run([Ignored, Body(item)], None, []) == [Section(None, [item])]
  {
    var ks := [Ignored, Body(item)];
    IgnoredUnfold(ks, None, []);
    BodyUnfold(ks[1..], None, []);
    assert ks[1..][1..] == [] && [] + [item] == [item];
  }

  /** A heading followed by one unmarked bullet parses as a single untitled item. */
  lemma HeadingAndBullet(heading: string, item: string)
    requires Trimmed(heading) && NoLineBreak(heading)
    requires Trimmed(item) && NoLineBreak(item) && '[' !in item
    ensures ItemsOf("# " + heading + "\n" + "- " + item) == [Item("", item, "", None, false)]
  {
    var md := "# " + heading + "\n" + "- " + item;
    HeadingAndBulletLines(heading, item);
    OneBodyRun(item);
    UnmarkedItem(item);
    ParsedSections(md);
  }

  /**
   * Without BACKLOG.md, main parses a stand-in text that yields one
   * untitled item reading "(no existe)", without marks.
   */
  lemma MissingBacklog(content: string)
    ensures ItemsOf(BacklogText(false, content)) == [Item("", "(no existe)", "", None, false)]
  {
    assert BacklogText(false, content) == "# " + "BACKLOG" + "\n" + "- " + "(no existe)";
    HeadingAndBullet("BACKLOG", "(no existe)");
  }
}
