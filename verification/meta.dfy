/**
 * The meta line of a changelog card: the time of day, `user@host` and the
 * actor, the empty ones left out, joined with " · ". The two changelog
 * pages (changelog.py and logs/generate_changelog_html.py) write
 * `user@host` only when one of the two is set; the status page
 * (logs/generate_status_html.py) always writes it and strips '@' from
 * both ends.
 */
module Cards {
  import opened Basics
  import opened Text
  import opened LogStore
  import opened Entries
  import opened Record
  import opened Timeline

  /** hora_val: the `%H:%M:%S` of `ts` when it parses (and renders non-empty), else the stored `hora`. */
  function Hora(stamp: string -> Option<Stamp>, e: Fields): (h: string)
    ensures var p := ParseTs(stamp, Field(e, "ts"));
      && (p.Some? && p.value.time != [] ==> h == p.value.time)
      && (p.None? || p.value.time == [] ==> h == Field(e, "hora"))
  {
    var fromTs := match ParseTs(stamp, Field(e, "ts")) case Some(st) => st.time case None => "";
    if fromTs != [] then fromTs else Field(e, "hora")
  }

  /** `" · ".join(filter(None, parts))` */
  function MetaLine(parts: seq<string>): string {
    JoinWith(NonEmpty(parts), " · ")
  }

  /** The meta line is empty exactly when every part is. */
  lemma {:induction false} MetaLineEmptyIff(parts: seq<string>)
    ensures MetaLine(parts) == [] <==> forall i :: 0 <= i < |parts| ==> parts[i] == []
  {
    NonEmptyIsEmptyIff(parts);
    var kept := NonEmpty(parts);
    if kept != [] {
      assert kept[0] != [];
      JoinWithStarts(kept, " · ");
    }
  }

  /** A meta line of three parts is empty exactly when all three are. */
  lemma ThreePartsEmptyIff(a: string, b: string, c: string)
    ensures MetaLine([a, b, c]) == [] <==> a == [] && b == [] && c == []
  {
    var parts := [a, b, c];
    MetaLineEmptyIff(parts);
    assert parts[0] == a && parts[1] == b && parts[2] == c;
  }

  /** filter(None, parts) is empty exactly when every part is empty. */
  lemma {:induction false} NonEmptyIsEmptyIff(parts: seq<string>)
    ensures NonEmpty(parts) == [] <==> forall i :: 0 <= i < |parts| ==> parts[i] == []
  {
    if parts != [] {
      NonEmptyIsEmptyIff(parts[1..]);
      if NonEmpty(parts) == [] {
        forall i | 0 <= i < |parts| ensures parts[i] == [] {
          if i > 0 {
            assert parts[i] == parts[1..][i - 1];
          }
        }
      }
    }
  }

  /** A join whose first part is not empty is not empty. */
  lemma JoinWithStarts(parts: seq<string>, sep: string)
    requires parts != [] && parts[0] != []
    ensures JoinWith(parts, sep) != []
  {
  }

  /** A meta line from parts none of which is empty is all of them joined. */
  lemma {:induction false} MetaLineAllSet(parts: seq<string>)
    requires forall i :: 0 <= i < |parts| ==> parts[i] != []
    ensures MetaLine(parts) == JoinWith(parts, " · ")
  {
    NonEmptyKeeps(parts);
  }

  /** The changelog pages: `f"{user}@{host}" if user or host else ""`. */
  function Who(user: string, host: string): (w: string)
    ensures w == [] <==> user == [] && host == []
  {
    if user != [] || host != [] then user + "@" + host else []
  }

  /** str.strip(c) for one character `c`. */
  function StripChar(s: string, c: char): (r: string)
    ensures r == [] || (r[0] != c && r[|r| - 1] != c)
    ensures |r| <= |s|
    decreases |s|
  {
    if s == [] then []
    else if s[0] == c then StripChar(s[1..], c)
    else if s[|s| - 1] == c then StripChar(s[..|s| - 1], c)
    else s
  }

  /** The status page: `f"{user}@{host}".strip("@")`. */
  function StatusWho(user: string, host: string): string {
    StripChar(user + "@" + host, '@')
  }

  /** Nothing to strip from a string that neither starts nor ends with `c`. */
  lemma StripCharUnchanged(s: string, c: char)
    requires s != [] && s[0] != c && s[|s| - 1] != c
    ensures StripChar(s, c) == s
  {
  }

  /**
   * The two ways of writing `user@host` agree when both are empty and when
   * both are set (without an '@' at the outer ends), and disagree when
   * exactly one is set: the changelog pages write "@host" or "user@",
   * the status page strips the '@'.
   */
  lemma WhoAgreement(user: string, host: string)
    ensures user == [] && host == [] ==> StatusWho(user, host) == Who(user, host) == []
    ensures user != [] && host != [] && user[0] != '@' && host[|host| - 1] != '@' ==> StatusWho(user, host) == Who(user, host)
    ensures (user == []) != (host == []) ==> StatusWho(user, host) != Who(user, host)
  {
    var s := user + "@" + host;
    if user == [] && host == [] {
      assert s == "@";
      assert StripChar(s, '@') == StripChar(s[1..], '@');
      assert s[1..] == [];
    } else if user != [] && host != [] && user[0] != '@' && host[|host| - 1] != '@' {
      assert s[0] == user[0] && s[|s| - 1] == host[|host| - 1];
      StripCharUnchanged(s, '@');
    } else if user == [] && host != [] {
      assert Who(user, host)[0] == '@';
    } else if user != [] && host == [] {
      var w := Who(user, host);
      assert w[|w| - 1] == '@';
    }
  }

  /** The meta line of a card on the changelog pages. */
  function ChangelogMeta(stamp: string -> Option<Stamp>, e: Fields): (r: string)
    ensures r == [] <==> Hora(stamp, e) == [] && Field(e, "user") == [] && Field(e, "host") == [] && Field(e, "actor") == []
  {
    ThreePartsEmptyIff(Hora(stamp, e), Who(Field(e, "user"), Field(e, "host")), Field(e, "actor"));
    MetaLine([Hora(stamp, e), Who(Field(e, "user"), Field(e, "host")), Field(e, "actor")])
  }

  /** The meta line of a changelog card on the status page. */
  function StatusMeta(stamp: string -> Option<Stamp>, e: Fields): (r: string)
    ensures r == [] <==> Hora(stamp, e) == [] && StatusWho(Field(e, "user"), Field(e, "host")) == [] && Field(e, "actor") == []
    ensures Field(e, "user") == [] && Field(e, "host") == [] ==> (r == [] <==> Hora(stamp, e) == [] && Field(e, "actor") == [])
  {
    WhoAgreement(Field(e, "user"), Field(e, "host"));
    ThreePartsEmptyIff(Hora(stamp, e), StatusWho(Field(e, "user"), Field(e, "host")), Field(e, "actor"));
    MetaLine([Hora(stamp, e), StatusWho(Field(e, "user"), Field(e, "host")), Field(e, "actor")])
  }

  /** An entry that names both its user and its host gets the same meta line on all three pages. */
  lemma MetaAgrees(stamp: string -> Option<Stamp>, e: Fields)
    requires Field(e, "user") != [] && Field(e, "host") != []
    requires Field(e, "user")[0] != '@' && Field(e, "host")[|Field(e, "host")| - 1] != '@'
    ensures StatusMeta(stamp, e) == ChangelogMeta(stamp, e)
  {
    WhoAgreement(Field(e, "user"), Field(e, "host"));
  }

  /** An entry with a user and no host loses the '@' on the status page only. */
  lemma MetaDiffersWithoutHost(stamp: string -> Option<Stamp>, e: Fields)
    requires Field(e, "user") != [] && Field(e, "host") == []
    requires Hora(stamp, e) == [] && Field(e, "actor") == []
    ensures StatusMeta(stamp, e) != ChangelogMeta(stamp, e)
  {
    var who, status := Who(Field(e, "user"), Field(e, "host")), StatusWho(Field(e, "user"), Field(e, "host"));
    WhoAgreement(Field(e, "user"), Field(e, "host"));
    OnlyPart(who);
    OnlyPart(status);
  }

  /** A meta line with a single non-empty part in the middle is that part. */
  lemma OnlyPart(p: string)
    ensures MetaLine(["", p, ""]) == p
  {
    var parts := ["", p, ""];
    assert parts[1..] == [p, ""] && parts[1..][1..] == [""] && parts[1..][1..][1..] == [];
    assert NonEmpty(parts[1..][1..]) == [];
    assert NonEmpty(parts[1..]) == (if p != [] then [p] else []) + [];
    assert NonEmpty(parts) == [] + NonEmpty(parts[1..]);
  }
}
