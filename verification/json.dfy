/**
 * `json.dumps` for the values a log entry holds: strings and lists of
 * strings, written with the default separators ", " and ": ". The flag
 * `ensureAscii` is the `ensure_ascii` argument; both tools pass False.
 * What is proved is how the written text splits into lines, which decides
 * whether one entry stays one line of the JSONL log.
 */
module Json {
  import opened Basics
  import opened Text

  /** Line breaks for str.splitlines that `json.dumps(..., ensure_ascii=False)` writes unescaped. */
  predicate RawBreak(c: char) {
    c == '\U{85}' || c == '\U{2028}' || c == '\U{2029}'
  }

  /** No character of `s` is such a line break. */
  predicate NoRawBreak(s: string) {
    forall i :: 0 <= i < |s| ==> !RawBreak(s[i])
  }

  /** No string of the list holds such a line break. */
  predicate AllNoRawBreak(xs: seq<string>) {
    forall i :: 0 <= i < |xs| ==> NoRawBreak(xs[i])
  }

  /** A lower-case hexadecimal digit. */
  function HexDigit(d: nat): (c: char)
    requires d < 16
    ensures '0' <= c <= 'f'
  {
    "0123456789abcdef"[d]
  }

  /** `'{0:04x}'.format(n)` */
  function Hex4(n: nat): (r: string)
    requires n < 0x1_0000
    ensures |r| == 4 && NoLineBreak(r) && '\r' !in r
  {
    [HexDigit(n / 0x1000), HexDigit(n / 0x100 % 16), HexDigit(n / 0x10 % 16), HexDigit(n % 16)]
  }

  /**
   * One character as the json encoder writes it inside a string: the short
   * escapes, `\u00XX` for the other control characters, and with
   * `ensureAscii` a `\uXXXX` escape (a surrogate pair above U+FFFF) for
   * everything outside ' '..'~'.
   */
  function EscapeChar(c: char, ensureAscii: bool): (r: string)
    ensures NoLineBreak(r) <==> ensureAscii || !RawBreak(c)
    ensures '\r' !in r
  {
    OneCharLine(c);
    if c == '"' then "\\\""
    else if c == '\\' then "\\\\"
    else if c == '\n' then "\\n"
    else if c == '\r' then "\\r"
    else if c == '\t' then "\\t"
    else if c == '\U{08}' then "\\b"
    else if c == '\U{0c}' then "\\f"
    else if c < ' ' then "\\u" + Hex4(c as nat)
    else if !ensureAscii || c <= '~' then [c]
    else if (c as int) < 0x1_0000 then "\\u" + Hex4(c as nat)
    else
      var v := c as int - 0x1_0000;
      "\\u" + Hex4(0xD800 + v / 0x400) + "\\u" + Hex4(0xDC00 + v % 0x400)
  }

  /** The characters of `s` as the encoder writes them, without the quotes. */
  function Escape(s: string, ensureAscii: bool): string {
    if s == [] then [] else EscapeChar(s[0], ensureAscii) + Escape(s[1..], ensureAscii)
  }

  /** `json.dumps(s)` for a string `s`. */
  function Quote(s: string, ensureAscii: bool): string {
    "\"" + Escape(s, ensureAscii) + "\""
  }

  /** `json.dumps(xs)` for a list of strings. */
  function StringList(xs: seq<string>, ensureAscii: bool): string {
    "[" + JoinWith(MapSeq(xs, s => Quote(s, ensureAscii)), ", ") + "]"
  }

  /** Printable ASCII without '"' or '\\': a key the encoder writes unchanged (`PlainEscape`). */
  predicate PlainKey(key: string) {
    forall i :: 0 <= i < |key| ==> ' ' <= key[i] <= '~' && key[i] != '"' && key[i] != '\\'
  }

  /** Every key of the list is plain. */
  predicate AllPlain(keys: seq<string>) {
    forall i :: 0 <= i < |keys| ==> PlainKey(keys[i])
  }

  /** One `"key": value` member of an object, for a plain key. */
  function Member(key: string, value: string): string {
    "\"" + key + "\": " + value
  }

  /** The members `"key": "value"` of string-valued keys, in order. */
  function StringMembers(keys: seq<string>, values: seq<string>, ensureAscii: bool): (ms: seq<string>)
    requires |keys| == |values|
    ensures |ms| == |keys|
    ensures forall i :: 0 <= i < |keys| ==> ms[i] == Member(keys[i], Quote(values[i], ensureAscii))
  {
    if keys == [] then []
    else [Member(keys[0], Quote(values[0], ensureAscii))] + StringMembers(keys[1..], values[1..], ensureAscii)
  }

  /** An object from its members, in order. */
  function ObjectText(members: seq<string>): string {
    "{" + JoinWith(members, ", ") + "}"
  }

  /** A single character is one line iff it is no line break. */
  lemma OneCharLine(c: char)
    ensures NoLineBreak([c]) <==> !IsLineBreak(c)
  {
    assert [c][0] == c;
  }

  /** A concatenation has no line break iff neither part has one. */
  lemma NoLineBreakAppend(a: string, b: string)
    ensures NoLineBreak(a + b) <==> NoLineBreak(a) && NoLineBreak(b)
  {
    if NoLineBreak(a) && NoLineBreak(b) {
      forall i | 0 <= i < |a + b| ensures !IsLineBreak((a + b)[i]) {
        if i >= |a| {
          assert (a + b)[i] == b[i - |a|];
        }
      }
    }
    if NoLineBreak(a + b) {
      forall i | 0 <= i < |a| ensures !IsLineBreak(a[i]) {
        assert (a + b)[i] == a[i];
      }
      forall i | 0 <= i < |b| ensures !IsLineBreak(b[i]) {
        assert (a + b)[|a| + i] == b[i];
      }
    }
  }

  /** The escaped text of `s` stays on one line iff escaping removes every break `s` holds. */
  lemma {:induction false} EscapeOneLine(s: string, ensureAscii: bool)
    ensures NoLineBreak(Escape(s, ensureAscii)) <==> ensureAscii || NoRawBreak(s)
    ensures '\r' !in Escape(s, ensureAscii)
  {
    if s != [] {
      EscapeOneLine(s[1..], ensureAscii);
      NoLineBreakAppend(EscapeChar(s[0], ensureAscii), Escape(s[1..], ensureAscii));
      if !ensureAscii && NoRawBreak(s[1..]) && !RawBreak(s[0]) {
        forall i | 0 <= i < |s| ensures !RawBreak(s[i]) {
          if i > 0 {
            assert s[i] == s[1..][i - 1];
          }
        }
      }
    }
  }

  /** A string literal stays on one line iff escaping removes every break the string holds. */
  lemma QuoteOneLine(s: string, ensureAscii: bool)
    ensures NoLineBreak(Quote(s, ensureAscii)) <==> ensureAscii || NoRawBreak(s)
    ensures '\r' !in Quote(s, ensureAscii)
  {
    EscapeOneLine(s, ensureAscii);
    NoLineBreakAppend("\"", Escape(s, ensureAscii));
    NoLineBreakAppend("\"" + Escape(s, ensureAscii), "\"");
  }

  /** Every string of the list is one line. */
  predicate AllOneLine(parts: seq<string>) {
    forall i :: 0 <= i < |parts| ==> NoLineBreak(parts[i])
  }

  /** No string of the list holds "\r". */
  predicate AllNoCR(parts: seq<string>) {
    forall i :: 0 <= i < |parts| ==> '\r' !in parts[i]
  }

  /** Joining with a separator without breaks has no break iff no part has one. */
  lemma {:induction false} JoinOneLine(parts: seq<string>, sep: string)
    requires NoLineBreak(sep) && '\r' !in sep
    ensures NoLineBreak(JoinWith(parts, sep)) <==> AllOneLine(parts)
    ensures AllNoCR(parts) ==> '\r' !in JoinWith(parts, sep)
  {
    if |parts| > 1 {
      JoinOneLine(parts[1..], sep);
      NoLineBreakAppend(parts[0], sep);
      NoLineBreakAppend(parts[0] + sep, JoinWith(parts[1..], sep));
      assert forall i :: 1 <= i < |parts| ==> parts[i] == parts[1..][i - 1];
    }
  }

  /** A list of strings stays on one line iff escaping removes every break its strings hold. */
  lemma StringListOneLine(xs: seq<string>, ensureAscii: bool)
    ensures NoLineBreak(StringList(xs, ensureAscii)) <==> ensureAscii || AllNoRawBreak(xs)
    ensures '\r' !in StringList(xs, ensureAscii)
  {
    var qs := MapSeq(xs, s => Quote(s, ensureAscii));
    forall i | 0 <= i < |xs| ensures (NoLineBreak(qs[i]) <==> ensureAscii || NoRawBreak(xs[i])) && '\r' !in qs[i] {
      QuoteOneLine(xs[i], ensureAscii);
    }
    JoinOneLine(qs, ", ");
    NoLineBreakAppend("[", JoinWith(qs, ", "));
    NoLineBreakAppend("[" + JoinWith(qs, ", "), "]");
  }

  /** A plain key is written unchanged, so a member is the key's JSON string, ": " and the value. */
  lemma {:induction false} PlainEscape(key: string, ensureAscii: bool)
    requires PlainKey(key)
    ensures Escape(key, ensureAscii) == key
    ensures forall value :: Member(key, value) == Quote(key, ensureAscii) + ": " + value
  {
    if key != [] {
      PlainEscape(key[1..], ensureAscii);
      assert key == [key[0]] + key[1..];
    }
  }

  /** A member stays on one line iff its value does; its key is plain text. */
  lemma MemberOneLine(key: string, value: string)
    requires PlainKey(key)
    ensures NoLineBreak(Member(key, value)) <==> NoLineBreak(value)
    ensures '\r' !in value ==> '\r' !in Member(key, value)
  {
    assert NoLineBreak(key) && '\r' !in key;
    NoLineBreakAppend("\"" + key, "\": ");
    NoLineBreakAppend("\"" + key + "\": ", value);
  }

  /** An object stays on one line iff each member does; it begins with '{' and ends with '}'. */
  lemma ObjectOneLine(members: seq<string>)
    ensures NoLineBreak(ObjectText(members)) <==> AllOneLine(members)
    ensures AllNoCR(members) ==> '\r' !in ObjectText(members)
    ensures var t := ObjectText(members);
      && |t| >= 2 && t[0] == '{' && t[|t| - 1] == '}'
      && NoOuterSpace(t) && Strip(t) == t && !IsLineBreak(t[|t| - 1])
  {
    var t := ObjectText(members);
    assert t[0] == '{' && t[|t| - 1] == '}';
    StripUnchanged(t);
    JoinOneLine(members, ", ");
    NoLineBreakAppend("{", JoinWith(members, ", "));
    NoLineBreakAppend("{" + JoinWith(members, ", "), "}");
  }

  /** String members are one line each iff ensure_ascii is set or no value holds a raw break. */
  lemma StringMembersOneLine(keys: seq<string>, values: seq<string>, ensureAscii: bool)
    requires |keys| == |values| && AllPlain(keys)
    ensures var ms := StringMembers(keys, values, ensureAscii);
      (AllOneLine(ms) <==> ensureAscii || AllNoRawBreak(values)) && AllNoCR(ms)
  {
    var ms := StringMembers(keys, values, ensureAscii);
    forall i | 0 <= i < |ms|
      ensures (NoLineBreak(ms[i]) <==> ensureAscii || NoRawBreak(values[i])) && '\r' !in ms[i]
    {
      QuoteOneLine(values[i], ensureAscii);
      MemberOneLine(keys[i], Quote(values[i], ensureAscii));
    }
    if !ensureAscii && AllOneLine(ms) {
      forall i | 0 <= i < |values| ensures NoRawBreak(values[i]) {
        assert NoLineBreak(ms[i]);
      }
    }
  }

  /** Appending one string to a list. */
  lemma AllSnoc(ms: seq<string>, m: string)
    ensures AllOneLine(ms + [m]) <==> AllOneLine(ms) && NoLineBreak(m)
    ensures AllNoCR(ms + [m]) <==> AllNoCR(ms) && '\r' !in m
  {
    assert forall i :: 0 <= i < |ms| ==> (ms + [m])[i] == ms[i];
    assert (ms + [m])[|ms|] == m;
  }

  /**
   * An object of string members followed by one list member is one line
   * iff ensure_ascii is set or no string in it holds a raw break; it never
   * holds "\r", and it has no white space or line break at its ends.
   */
  lemma ObjectWithListOneLine(keys: seq<string>, values: seq<string>, listKey: string, list: seq<string>, ensureAscii: bool)
    requires |keys| == |values|
    requires AllPlain(keys)
    requires PlainKey(listKey)
    ensures var t := ObjectText(StringMembers(keys, values, ensureAscii) + [Member(listKey, StringList(list, ensureAscii))]);
      && (NoLineBreak(t) <==> ensureAscii || (AllNoRawBreak(values) && AllNoRawBreak(list)))
      && '\r' !in t
  {
    var sm := StringMembers(keys, values, ensureAscii);
    var lm := Member(listKey, StringList(list, ensureAscii));
    StringMembersOneLine(keys, values, ensureAscii);
    StringListOneLine(list, ensureAscii);
    MemberOneLine(listKey, StringList(list, ensureAscii));
    AllSnoc(sm, lm);
    ObjectOneLine(sm + [lm]);
  }
}
