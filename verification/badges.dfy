/**
 * The three tables that turn an entry's (action, result) into a badge:
 * crud_badge in changelog.py, crud_label in logs/generate_status_html.py
 * and http_view in logs/generate_changelog_html.py. All three normalise
 * both inputs with `(x or "").strip().lower()` and let an "error" result
 * win over any action.
 */
module Badges {
  import opened Text

  /** `(x or "").strip().lower()` */
  function Norm(s: string): string {
    Lower(Strip(s))
  }

  /** `a in {"delete", "remove", "cleanup"}` */
  predicate IsDelete(a: string) {
    a == "delete" || a == "remove" || a == "cleanup"
  }

  /** `a in {"create", "add", "copy", "render", "generate"}` */
  predicate IsCreate(a: string) {
    a == "create" || a == "add" || a == "copy" || a == "render" || a == "generate"
  }

  /** `a in {"edit", "update", "rename"}` */
  predicate IsUpdate(a: string) {
    a == "edit" || a == "update" || a == "rename"
  }

  /** `IsInfo(a)` */
  predicate IsInfo(a: string) {
    a == "info" || a == "policy" || a == "schema" || a == "meta"
  }

  /** The actions that earn an "ok" badge in crud_badge and crud_label. */
  predicate IsCrudAction(a: string) {
    IsDelete(a) || IsCreate(a) || IsUpdate(a)
  }

  datatype CrudBadge = CrudBadge(caption: string, css: string)

  /** changelog.py crud_badge */
  function CrudBadgeOf(action: string, result: string): (b: CrudBadge)
    ensures b.css == "error" <==> Norm(result) == "error"
    ensures b.css == "ok" <==> Norm(result) != "error" && IsCrudAction(Norm(action))
    ensures b.css == "info" <==> Norm(result) != "error" && !IsCrudAction(Norm(action))
    ensures b.css == "error" ==> b.caption == "ERROR"
    ensures b.css == "info" ==> b.caption == "INFO"
    ensures Norm(result) != "error" && IsDelete(Norm(action)) ==> b.caption == "DELETE OK"
    ensures Norm(result) != "error" && IsCreate(Norm(action)) ==> b.caption == "CREATE OK"
    ensures Norm(result) != "error" && IsUpdate(Norm(action)) ==> b.caption == "UPDATE OK"
  {
    var a := Norm(action);
    var r := Norm(result);
    if r == "error" then CrudBadge("ERROR", "error")
    else if IsDelete(a) then CrudBadge("DELETE OK", "ok")
    else if IsCreate(a) then CrudBadge("CREATE OK", "ok")
    else if IsUpdate(a) then CrudBadge("UPDATE OK", "ok")
    else if IsInfo(a) then CrudBadge("INFO", "info")
    else CrudBadge("INFO", "info")
  }

  /** logs/generate_status_html.py crud_label: (label, css), with the update set tested before the create set. */
  function CrudLabel(action: string, result: string): (r: (string, string))
    ensures r.1 == "error" <==> Norm(result) == "error"
    ensures r.1 == "ok" <==> Norm(result) != "error" && IsCrudAction(Norm(action))
  {
    var a := Norm(action);
    var res := Norm(result);
    if res == "error" then ("ERROR", "error")
    else if IsDelete(a) then ("DELETE OK", "ok")
    else if IsUpdate(a) then ("UPDATE OK", "ok")
    else if IsCreate(a) then ("CREATE OK", "ok")
    else ("INFO", "info")
  }

  /** The two badge tables give the same label and class for every input. */
  lemma CrudLabelMatchesCrudBadge(action: string, result: string)
    ensures CrudLabel(action, result) == (CrudBadgeOf(action, result).caption, CrudBadgeOf(action, result).css)
  {
  }

  /** logs/generate_changelog_html.py http_view: (method, status, css). */
  function HttpView(action: string, result: string): (v: (string, string, string))
    ensures v.2 == "error" <==> Norm(result) == "error"
    ensures v.2 == "error" ==> v == ("ERROR", "500 ERROR", "error")
    ensures v.2 == "ok" <==> Norm(result) != "error" && IsCrudAction(Norm(action))
    ensures v.2 == "info" <==> Norm(result) != "error" && !IsCrudAction(Norm(action))
    ensures v.2 == "info" ==> v.0 == "INFO"
  {
    var a := Norm(action);
    var r := Norm(result);
    if r == "error" then ("ERROR", "500 ERROR", "error")
    else if IsUpdate(a) then ("UPDATE", "200 OK", "ok")
    else if a == "create" || a == "add" || a == "copy" then ("CREATE", "201 CREATED", "ok")
    else if a == "delete" || a == "remove" then ("DELETE", "204 NO CONTENT", "ok")
    else if a == "render" || a == "generate" then ("GENERATE", "201 CREATED", "ok")
    else if a == "cleanup" then ("DELETE", "200 OK", "ok")
    else if IsInfo(a) then ("INFO", "200 INFO", "info")
    else ("INFO", "200 OK", "info")
  }

  /** The characters html.escape replaces. */
  predicate Special(c: char) {
    c == '&' || c == '<' || c == '>' || c == '"' || c == '\''
  }

  /** No character of `s` is one html.escape replaces. */
  predicate Plain(s: string) {
    forall i :: 0 <= i < |s| ==> !Special(s[i])
  }

  /** What html.escape writes for one character. */
  function EscapeChar(c: char): string {
    if c == '&' then "&amp;"
    else if c == '<' then "&lt;"
    else if c == '>' then "&gt;"
    else if c == '"' then "&quot;"
    else if c == '\'' then "&#x27;"
    else [c]
  }

  /** html.escape(s) (quote=True) */
  function Escape(s: string): (r: string)
    ensures Plain(s) ==> r == s
    ensures !Plain(s) ==> '&' in r
  {
    if s == [] then []
    else
      var rest := Escape(s[1..]);
      assert !Plain(s) && !Special(s[0]) ==> !Plain(s[1..]) by {
        if !Plain(s) && !Special(s[0]) {
          var i :| 0 <= i < |s| && Special(s[i]);
          assert s[1..][i - 1] == s[i];
        }
      }
      assert Special(s[0]) ==> EscapeChar(s[0])[0] == '&';
      EscapeChar(s[0]) + rest
  }

  /** A string holding a character outside the plain alphabet keeps it after normalising. */
  lemma NormKeepsSpecial(s: string, c: char)
    requires c in s && Special(c)
    ensures !Plain(Norm(s))
  {
    var i :| 0 <= i < |s| && s[i] == c;
    StripKeepsNonSpace(s, i);
    LowerKeeps(Strip(s), c);
    var n := Norm(s);
    var j :| 0 <= j < |n| && n[j] == c;
  }

  /**
   * Escaping before normalising changes nothing a plain keyword can see:
   * a plain input is left alone, and an input with a special character
   * normalises to a non-plain string both with and without escaping.
   */
  lemma NormOfEscape(s: string)
    ensures Plain(s) ==> Norm(Escape(s)) == Norm(s)
    ensures !Plain(s) ==> !Plain(Norm(Escape(s))) && !Plain(Norm(s))
  {
    if !Plain(s) {
      var i :| 0 <= i < |s| && Special(s[i]);
      NormKeepsSpecial(s, s[i]);
      NormKeepsSpecial(Escape(s), '&');
    }
  }

  /** No keyword of the tables holds a character html.escape replaces. */
  lemma KeywordsArePlain(x: string)
    requires !Plain(x)
    ensures x != "error" && !IsCrudAction(x)
  {
    if x == "error" || IsCrudAction(x) {
      var i :| 0 <= i < |x| && Special(x[i]);
      assert false;
    }
  }

  /** Whether a value normalises to "error" or to an ok-action does not depend on escaping it first. */
  lemma KeywordsSurviveEscape(s: string)
    ensures (Norm(Escape(s)) == "error") == (Norm(s) == "error")
    ensures IsCrudAction(Norm(Escape(s))) == IsCrudAction(Norm(s))
  {
    NormOfEscape(s);
    if !Plain(s) {
      KeywordsArePlain(Norm(Escape(s)));
      KeywordsArePlain(Norm(s));
    }
  }

  /**
   * generate_changelog_html.py escapes action and result before calling
   * http_view; the badge class it shows is still the class crud_badge
   * gives the raw values, for every input.
   */
  lemma HttpViewCssMatchesCrudBadge(action: string, result: string)
    ensures HttpView(Escape(action), Escape(result)).2 == CrudBadgeOf(action, result).css
  {
    KeywordsSurviveEscape(action);
    KeywordsSurviveEscape(result);
  }
}
