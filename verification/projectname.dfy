/**
 * `_read_project_name` in changelog.py and `read_project_name` in
 * logs/generate_changelog_html.py (the two are identical): the project
 * title is taken from the first CONTEXT.md line that the multi-line,
 * case-insensitive pattern `^\s*Project\s*:\s*(.+?)\s*$` matches.
 *
 * The pattern is modelled by an explicit scanner. Because `Project` and
 * `:` are not white space, each `\s*` before them must take the whole run
 * of white space; after the colon the greedy `\s*` takes the whole run
 * too, and the lazy group then ends where the rest of the line is white
 * space. Only when the colon is followed by nothing but white space up to
 * the end of the text does the engine back off, and then the group is a
 * single white-space character (so the name is empty).
 */
module ProjectName {
  import opened Basics
  import opened Text

  /** Where `$` (multi-line) next matches at or after `j`: the next "\n", or the end of the text. */
  function LineEnd(t: string, j: nat): (e: nat)
    requires j <= |t|
    ensures j <= e <= |t|
    ensures forall k :: j <= k < e ==> t[k] != '\n'
    ensures e == |t| || t[e] == '\n'
    decreases |t| - j
  {
    if j == |t| || t[j] == '\n' then j else LineEnd(t, j + 1)
  }

  /** `Project`, matched without regard to ASCII case, at position `i`. */
  predicate KeywordAt(t: string, i: nat) {
    i + 7 <= |t| && Lower(t[i..i + 7]) == "project"
  }

  /** The last position in `[lo, |t|)` that does not hold "\n", if any. */
  function LastNonNewline(t: string, lo: nat): (r: Option<nat>)
    requires lo <= |t|
    ensures r.Some? ==> lo <= r.value < |t| && t[r.value] != '\n'
    ensures r.Some? ==> forall k :: r.value < k < |t| ==> t[k] == '\n'
    ensures r.None? ==> forall k :: lo <= k < |t| ==> t[k] == '\n'
    decreases |t| - lo
  {
    if lo == |t| then None
    else match LastNonNewline(t, lo + 1)
      case Some(k) => Some(k)
      case None => if t[lo] != '\n' then Some(lo) else None
  }

  /**
   * The lazy group starting at a character that is not white space: the
   * rest of the line, without the white space the final `\s*` takes.
   */
  function GroupFrom(t: string, j: nat): (g: string)
    requires j < |t| && !IsSpace(t[j])
    ensures g != [] && '\n' !in g
  {
    var e := LineEnd(t, j);
    var g := RStrip(t[j..e]);
    assert forall m :: 0 <= m < |g| ==> g[m] == t[j + m];
    assert g != [] by {
      assert t[j..e] != [] && t[j..e][0] == t[j];
    }
    g
  }

  /** A line holding a name with no white space at its end gives that name as the group. */
  lemma GroupOfLine(t: string, j: nat, name: string)
    requires j + |name| < |t| && t[j..j + |name|] == name && t[j + |name|] == '\n'
    requires name != [] && !IsSpace(name[0]) && '\n' !in name && RStrip(name) == name
    ensures GroupFrom(t, j) == name
  {
    forall k | j <= k < j + |name| ensures t[k] != '\n' {
      assert t[k] == name[k - j];
    }
    LineEndStops(t, j, j + |name|);
  }

  /** Group 1 of a match that starts at `p`, or None when the pattern does not match there. */
  function MatchAt(t: string, p: nat): (g: Option<string>)
    requires p <= |t|
    ensures g.Some? ==> g.value != [] && '\n' !in g.value
  {
    var i1 := SpaceRunEnd(t, p);
    if !KeywordAt(t, i1) then None
    else
      var i2 := SpaceRunEnd(t, i1 + 7);
      if i2 == |t| || t[i2] != ':' then None
      else
        var j := SpaceRunEnd(t, i2 + 1);
        if j < |t| then Some(GroupFrom(t, j))
        else
          match LastNonNewline(t, i2 + 1)
          case Some(k) => Some(t[k..k + 1])
          case None => None
  }

  /** Position `p` is one where multi-line `^` matches. */
  predicate LineStart(t: string, p: nat) {
    p == 0 || (0 < p <= |t| && t[p - 1] == '\n')
  }

  /** re.search: the group of the match at the first line start, from `p` on, where the pattern matches. */
  function Search(t: string, p: nat): (g: Option<string>)
    requires p <= |t|
    ensures g.Some? ==> g.value != [] && '\n' !in g.value
    decreases |t| - p
  {
    if LineStart(t, p) && MatchAt(t, p).Some? then MatchAt(t, p)
    else if p == |t| then None
    else Search(t, p + 1)
  }

  /** `name.lower() in {"tbd", "todo", "pending", "<required>", "required"}` */
  predicate IsPlaceholder(lowered: string) {
    lowered == "tbd" || lowered == "todo" || lowered == "pending" || lowered == "<required>" || lowered == "required"
  }

  /** The warning for a CONTEXT.md that does not exist. */
  function NotFoundWarning(path: string): string {
    "No existe " + path + ". Agrega una línea 'Project: <nombre>' en CONTEXT.md."
  }

  const MissingWarning: string := "Falta 'Project: <nombre>' en CONTEXT.md (requerido para el título)."
  const PlaceholderWarning: string := "Project está vacío/placeholder en CONTEXT.md. Define un nombre real."

  /**
   * (project_name, warning_message): exactly one of the two is present; a
   * name is stripped, one line long, and not a placeholder.
   * `path` is `context_path.as_posix()` and `present` its existence.
   */
  function ReadProjectName(present: bool, path: string, text: string): (r: (Option<string>, Option<string>))
    ensures r.0.Some? != r.1.Some?
    ensures !present ==> r.1 == Some(NotFoundWarning(path))
    ensures present ==> r.1.Some? ==> r.1.value == MissingWarning || r.1.value == PlaceholderWarning
    ensures present && Search(Universal(text), 0).None? ==> r.1 == Some(MissingWarning)
    ensures present && Search(Universal(text), 0).Some? ==> r == NameFromGroup(Search(Universal(text), 0).value)
    ensures r.0.Some? ==> var name := r.0.value;
      name != [] && Strip(name) == name && '\n' !in name && !IsPlaceholder(Lower(name))
  {
    if !present then (None, Some(NotFoundWarning(path)))
    else match Search(Universal(text), 0)
      case None => (None, Some(MissingWarning))
      case Some(g) => NameFromGroup(g)
  }

  /** The name a matched group gives once stripped, or the placeholder warning when it is empty or a placeholder. */
  function NameFromGroup(g: string): (r: (Option<string>, Option<string>))
    requires '\n' !in g
    ensures r.0.Some? != r.1.Some?
    ensures r.1.Some? ==> r.1.value == PlaceholderWarning
    ensures r.1.Some? <==> Strip(g) == [] || IsPlaceholder(Lower(Strip(g)))
    ensures r.0.Some? ==> r.0.value == Strip(g)
    ensures r.0.Some? ==> var name := r.0.value;
      name != [] && Strip(name) == name && '\n' !in name && !IsPlaceholder(Lower(name))
  {
    var name := Strip(g);
    if name == [] || IsPlaceholder(Lower(name)) then (None, Some(PlaceholderWarning))
    else
      StripAddsNothing(g, '\n');
      StripIdempotent(g);
      (Some(name), None)
  }

  /** A CONTEXT.md that starts with the line `Project: <name>` yields that name and no warning. */
  lemma ProjectLineRoundTrip(path: string, name: string, rest: string)
    requires name != [] && Strip(name) == name && '\n' !in name
    requires !IsPlaceholder(Lower(name))
    requires '\r' !in name + rest
    ensures ReadProjectName(true, path, "Project: " + name + "\n" + rest) == (Some(name), None)
  {
    var t := "Project: " + name + "\n" + rest;
    ProjectLineHasNoCR(name, rest);
    UniversalIdentityIff(t);
    MatchProjectLine(t, name, rest);
    SearchFirst(t, name);
  }

  /** A CONTEXT.md that starts with `Project: <placeholder>` yields the placeholder warning and no name. */
  lemma PlaceholderLineWarns(path: string, name: string, rest: string)
    requires name != [] && Strip(name) == name && '\n' !in name
    requires IsPlaceholder(Lower(name))
    requires '\r' !in name + rest
    ensures ReadProjectName(true, path, "Project: " + name + "\n" + rest) == (None, Some(PlaceholderWarning))
  {
    var t := "Project: " + name + "\n" + rest;
    ProjectLineHasNoCR(name, rest);
    UniversalIdentityIff(t);
    MatchProjectLine(t, name, rest);
    SearchFirst(t, name);
  }

  /** `Project: TBD` is a placeholder, whatever follows it. */
  lemma TbdWarns(path: string, rest: string)
    requires '\r' !in rest
    ensures ReadProjectName(true, path, "Project: " + "TBD" + "\n" + rest) == (None, Some(PlaceholderWarning))
  {
    TbdIsPlaceholder();
    NoCRAppend("TBD", rest);
    PlaceholderLineWarns(path, "TBD", rest);
  }

  /** "TBD" is a stripped one-line name that lowers to a placeholder. */
  lemma TbdIsPlaceholder()
    ensures "TBD" != [] && Strip("TBD") == "TBD" && '\n' !in "TBD" && '\r' !in "TBD"
    ensures IsPlaceholder(Lower("TBD"))
  {
    StripUnchanged("TBD");
    assert Lower("TBD") == "tbd";
  }

  /** Two texts without a carriage return join into one without. */
  lemma NoCRAppend(a: string, b: string)
    requires '\r' !in a && '\r' !in b
    ensures '\r' !in a + b
  {
  }

  /** A match at the start of the text is the one re.search finds. */
  lemma SearchFirst(t: string, name: string)
    requires MatchAt(t, 0) == Some(name)
    ensures Search(t, 0) == Some(name)
  {
  }

  /** A `Project:` line and a rest without carriage returns make a text without one. */
  lemma ProjectLineHasNoCR(name: string, rest: string)
    requires '\r' !in name + rest
    ensures '\r' !in "Project: " + name + "\n" + rest
  {
    var t := "Project: " + name + "\n" + rest;
    assert forall i :: 0 <= i < |t| && i >= 9 + |name| + 1 ==> t[i] == (name + rest)[i - 10];
    assert forall i :: 0 <= i < |t| && 9 <= i < 9 + |name| ==> t[i] == (name + rest)[i - 9];
  }

  /** The pattern matches `Project: <name>` at the start of the text with `<name>` as its group. */
  lemma MatchProjectLine(t: string, name: string, rest: string)
    requires name != [] && Strip(name) == name && '\n' !in name
    requires t == "Project: " + name + "\n" + rest
    ensures MatchAt(t, 0) == Some(name)
  {
    assert SpaceRunEnd(t, 0) == 0;
    assert t[0..7] == "Project";
    assert KeywordAt(t, 0);
    assert SpaceRunEnd(t, 7) == 7;
    assert t[8] == ' ' && t[9] == name[0];
    assert SpaceRunEnd(t, 9) == 9;
    assert SpaceRunEnd(t, 8) == 9;
    assert t[9..9 + |name|] == name && t[9 + |name|] == '\n';
    StrippedEnds(name);
    GroupOfLine(t, 9, name);
  }

  /** LineEnd stops at the first "\n". */
  lemma {:induction false} LineEndStops(t: string, j: nat, e: nat)
    requires j <= e < |t| && t[e] == '\n'
    requires forall k :: j <= k < e ==> t[k] != '\n'
    ensures LineEnd(t, j) == e
    decreases e - j
  {
    if j < e {
      LineEndStops(t, j + 1, e);
    }
  }

  /** A text in which `Project` never occurs, in any case, yields the missing-line warning. */
  lemma {:induction false} SearchNeedsKeyword(t: string, p: nat)
    requires p <= |t|
    requires forall i :: p <= i <= |t| ==> !KeywordAt(t, i)
    ensures Search(t, p).None?
    decreases |t| - p
  {
    assert MatchAt(t, p).None? by {
      assert !KeywordAt(t, SpaceRunEnd(t, p));
    }
    if p < |t| {
      SearchNeedsKeyword(t, p + 1);
    }
  }
}
