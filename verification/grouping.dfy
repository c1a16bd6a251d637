/**
 * The changelog page: the entries sorted newest first and grouped under
 * one date header per day, the days in descending order, as
 * `generate_html` in changelog.py and `main` in
 * logs/generate_changelog_html.py build it.
 *
 * datetime.fromisoformat is an input: `stamp(ts)` is None when it raises,
 * and otherwise gives the POSIX timestamp and the `%Y-%m-%d` and
 * `%H:%M:%S` renderings of the parsed time.
 */
module Timeline {
  import opened Basics
  import opened Text
  import opened LogStore
  import opened Entries
  import opened Ordering
  import opened Record

  datatype Stamp = Stamp(seconds: real, date: string, time: string)

  /** fromisoformat, which always rejects "" (the tools read a missing ts as ""). */
  function ParseTs(stamp: string -> Option<Stamp>, ts: string): (r: Option<Stamp>)
    ensures ts == [] ==> r.None?
    ensures r.Some? ==> stamp(ts) == r
  {
    if ts == [] then None else stamp(ts)
  }

  /** parse_ts / ts_key: the entry's timestamp, 0.0 when `ts` does not parse. */
  function TsValue(stamp: string -> Option<Stamp>, e: Fields): (v: real)
    ensures Field(e, "ts") == [] ==> v == 0.0
    ensures ParseTs(stamp, Field(e, "ts")).Some? ==> v == stamp(Field(e, "ts")).value.seconds
    ensures ParseTs(stamp, Field(e, "ts")).None? ==> v == 0.0
  {
    match ParseTs(stamp, Field(e, "ts"))
    case Some(st) => st.seconds
    case None => 0.0
  }

  /** `sort(key=parse_ts, reverse=True)`: an entry may come first when it is not older. */
  function NewestFirst(stamp: string -> Option<Stamp>): (Fields, Fields) -> bool {
    (a: Fields, b: Fields) => TsValue(stamp, b) <= TsValue(stamp, a)
  }

  /** Newest first is a total preorder, so the sort is well defined. */
  lemma NewestFirstTotalPreorder(stamp: string -> Option<Stamp>)
    ensures TotalPreorder(NewestFirst(stamp))
  {
  }

  /**
   * The entries as both pages list them: the same entries, newest first,
   * entries with equal timestamps (in particular all those without a
   * parsable one, at 0.0) in file order.
   */
  function SortNewestFirst(stamp: string -> Option<Stamp>, entries: seq<Fields>): (r: seq<Fields>)
    ensures multiset(r) == multiset(entries)
    ensures forall i, j :: 0 <= i < j < |r| ==> TsValue(stamp, r[j]) <= TsValue(stamp, r[i])
  {
    NewestFirstTotalPreorder(stamp);
    SortSorted(entries, NewestFirst(stamp));
    Sort(entries, NewestFirst(stamp))
  }

  /** Entries with the same timestamp keep their order in the log. */
  lemma SortNewestFirstStable(stamp: string -> Option<Stamp>, entries: seq<Fields>, pivot: Fields)
    ensures TiedWith(SortNewestFirst(stamp, entries), NewestFirst(stamp), pivot)
      == TiedWith(entries, NewestFirst(stamp), pivot)
  {
    NewestFirstTotalPreorder(stamp);
    SortStable(entries, NewestFirst(stamp), pivot);
  }

  const NoDate: string := "(sin fecha)"

  /** changelog.py: the date of `ts` when it parses, else the stored `fecha`, else "(sin fecha)". */
  function DisplayDate(stamp: string -> Option<Stamp>, e: Fields): (d: string)
    ensures d != []
    ensures var p := ParseTs(stamp, Field(e, "ts"));
      && (p.Some? && p.value.date != [] ==> d == p.value.date)
      && (p.None? && Field(e, "fecha") != [] ==> d == Field(e, "fecha"))
      && ((p.Some? && p.value.date == []) || (p.None? && Field(e, "fecha") == []) ==> d == NoDate)
  {
    var fecha := match ParseTs(stamp, Field(e, "ts")) case Some(st) => st.date case None => Field(e, "fecha");
    if fecha == [] then NoDate else fecha
  }

  /** logs/generate_changelog_html.py: the stored `fecha`, else the date of `ts`, else "(sin fecha)". */
  function StoredDate(stamp: string -> Option<Stamp>, e: Fields): (d: string)
    ensures Field(e, "fecha") != [] ==> d == Field(e, "fecha")
    ensures d == [] ==> Field(e, "fecha") == [] && ParseTs(stamp, Field(e, "ts")).Some?
    ensures ParseTs(stamp, Field(e, "ts")).None? ==> d == DisplayDate(stamp, e)
    ensures var p := ParseTs(stamp, Field(e, "ts"));
      && (Field(e, "fecha") == [] && p.Some? ==> d == p.value.date)
      && (Field(e, "fecha") == [] && p.None? ==> d == NoDate)
  {
    var fecha := Field(e, "fecha");
    if fecha != [] then fecha
    else match ParseTs(stamp, Field(e, "ts"))
      case Some(st) => st.date
      case None => NoDate
  }

  /**
   * The two pages put an entry under the same day exactly when its `ts`
   * does not parse, or it has no stored `fecha`, or the stored `fecha` is
   * the date of its `ts` (both read an empty parsed date as no date).
   */
  lemma DateKeysAgreeIff(stamp: string -> Option<Stamp>, e: Fields)
    requires ParseTs(stamp, Field(e, "ts")).Some? ==> ParseTs(stamp, Field(e, "ts")).value.date != []
    ensures DisplayDate(stamp, e) == StoredDate(stamp, e)
      <==> ParseTs(stamp, Field(e, "ts")).None? || Field(e, "fecha") == []
           || Field(e, "fecha") == ParseTs(stamp, Field(e, "ts")).value.date
  {
  }

  /** The entries of `s` whose date is `k`, in order. */
  function Members(s: seq<Fields>, dateOf: Fields -> string, k: string): seq<Fields> {
    if s == [] then []
    else
      var last := s[|s| - 1];
      Members(s[..|s| - 1], dateOf, k) + (if dateOf(last) == k then [last] else [])
  }

  /** A group holds only entries of its date, taken from the list. */
  lemma {:induction false} MembersSound(s: seq<Fields>, dateOf: Fields -> string, k: string)
    ensures forall i :: 0 <= i < |Members(s, dateOf, k)| ==> dateOf(Members(s, dateOf, k)[i]) == k
    ensures multiset(Members(s, dateOf, k)) <= multiset(s)
  {
    if s != [] {
      var init := s[..|s| - 1];
      MembersSound(init, dateOf, k);
      assert s == init + [s[|s| - 1]];
    }
  }

  /** Every entry is in the group of its own date as often as it is in the list. */
  lemma {:induction false} MembersComplete(s: seq<Fields>, dateOf: Fields -> string, x: Fields)
    ensures multiset(Members(s, dateOf, dateOf(x)))[x] == multiset(s)[x]
  {
    if s != [] {
      var init := s[..|s| - 1];
      MembersComplete(init, dateOf, x);
      assert s == init + [s[|s| - 1]];
    }
  }

  /** Taking one more entry adds it to the group of its date only. */
  lemma MembersStep(entries: seq<Fields>, i: nat, dateOf: Fields -> string)
    requires i < |entries|
    ensures forall k :: (Members(entries[..i + 1], dateOf, k)
      == Members(entries[..i], dateOf, k) + (if dateOf(entries[i]) == k then [entries[i]] else []))
  {
    assert entries[..i + 1][..i] == entries[..i];
  }

  /** Taking one more entry adds its date. */
  lemma DatesStep(entries: seq<Fields>, i: nat, dateOf: Fields -> string)
    requires i < |entries|
    ensures DatesOf(entries[..i + 1], dateOf) == DatesOf(entries[..i], dateOf) + {dateOf(entries[i])}
  {
    assert entries[..i + 1][..i] == entries[..i];
  }

  /** A date no entry has has an empty group. */
  lemma {:induction false} MembersAbsent(s: seq<Fields>, dateOf: Fields -> string, k: string)
    requires k !in DatesOf(s, dateOf)
    ensures Members(s, dateOf, k) == []
  {
    if s != [] {
      MembersAbsent(s[..|s| - 1], dateOf, k);
    }
  }

  /** `groups` holds, for each date of `s`, the entries of `s` with that date. */
  predicate Grouped(groups: map<string, seq<Fields>>, s: seq<Fields>, dateOf: Fields -> string) {
    && groups.Keys == DatesOf(s, dateOf)
    && forall k :: k in groups ==> groups[k] == Members(s, dateOf, k)
  }

  /** `by_fecha.setdefault(k, []).append(e)` */
  function AddTo(groups: map<string, seq<Fields>>, k: string, e: Fields): (g: map<string, seq<Fields>>)
    ensures g.Keys == groups.Keys + {k}
  {
    if k in groups then groups[k := groups[k] + [e]] else groups[k := [e]]
  }

  /** Adding entry `i` to the groups of the entries before it gives the groups of the entries up to it. */
  lemma GroupedStep(groups: map<string, seq<Fields>>, entries: seq<Fields>, i: nat, dateOf: Fields -> string)
    requires i < |entries| && Grouped(groups, entries[..i], dateOf)
    ensures Grouped(AddTo(groups, dateOf(entries[i]), entries[i]), entries[..i + 1], dateOf)
  {
    var k := dateOf(entries[i]);
    var g := AddTo(groups, k, entries[i]);
    MembersStep(entries, i, dateOf);
    DatesStep(entries, i, dateOf);
    if k !in groups {
      MembersAbsent(entries[..i], dateOf, k);
    }
    forall k' | k' in g ensures g[k'] == Members(entries[..i + 1], dateOf, k') {
      if k' != k {
        assert g[k'] == groups[k'];
      }
    }
  }

  /**
   * The `by_fecha` loop: one list per date, holding the entries of that
   * date in the order they come; `order` lists the dates as they are first
   * met (the key order of the dictionary).
   */
  method GroupByDate(entries: seq<Fields>, dateOf: Fields -> string)
    returns (groups: map<string, seq<Fields>>, order: seq<string>)
    ensures groups.Keys == DatesOf(entries, dateOf)
    ensures forall k :: k in groups ==> groups[k] == Members(entries, dateOf, k)
    ensures forall k :: k in groups <==> k in order
    ensures forall i, j :: 0 <= i < j < |order| ==> order[i] != order[j]
  {
    groups := map[];
    order := [];
    var i := 0;
    while i < |entries|
      invariant 0 <= i <= |entries|
      invariant Grouped(groups, entries[..i], dateOf)
      invariant forall k :: k in groups <==> k in order
      invariant forall a, b :: 0 <= a < b < |order| ==> order[a] != order[b]
    {
      var e := entries[i];
      var k := dateOf(e);
      GroupedStep(groups, entries, i, dateOf);
      if k !in groups {
        order := order + [k];
      }
      groups := AddTo(groups, k, e);
      i := i + 1;
    }
    assert entries[..i] == entries;
  }

  /** The dates of the entries of `s`. */
  function DatesOf(s: seq<Fields>, dateOf: Fields -> string): set<string> {
    if s == [] then {} else DatesOf(s[..|s| - 1], dateOf) + {dateOf(s[|s| - 1])}
  }

  /** A date is among the dates exactly when some entry has it. */
  lemma {:induction false} DatesOfIff(s: seq<Fields>, dateOf: Fields -> string, k: string)
    ensures k in DatesOf(s, dateOf) <==> exists j :: 0 <= j < |s| && dateOf(s[j]) == k
  {
    if s != [] {
      var init := s[..|s| - 1];
      DatesOfIff(init, dateOf, k);
      assert forall j :: 0 <= j < |init| ==> init[j] == s[j];
    }
  }

  /** One date header and the entries under it. */
  datatype Section = Section(date: string, entries: seq<Fields>)

  /**
   * The page body: the dates in descending string order, each with its
   * entries in the order of the sorted list.
   */
  method Sections(stamp: string -> Option<Stamp>, entries: seq<Fields>, dateOf: Fields -> string)
    returns (sections: seq<Section>)
    ensures var sorted := SortNewestFirst(stamp, entries);
      forall i :: 0 <= i < |sections| ==> sections[i].entries == Members(sorted, dateOf, sections[i].date)
    ensures forall i, j :: 0 <= i < j < |sections| ==> StrLe(sections[j].date, sections[i].date) && sections[i].date != sections[j].date
    ensures forall x :: x in entries ==> exists i :: 0 <= i < |sections| && sections[i].date == dateOf(x)
    ensures forall i :: 0 <= i < |sections| ==> IsEntryDate(entries, dateOf, sections[i].date)
    ensures forall i :: 0 <= i < |sections| ==> sections[i].entries != []
  {
    var sorted := SortNewestFirst(stamp, entries);
    var groups, order := GroupByDate(sorted, dateOf);
    var dates := Sort(order, StrDesc());
    DatesGrouped(order, dates, groups);
    sections := Render(dates, groups);
    SectionsHold(sections, dates, groups, sorted, dateOf);
    DescendingDates(order, dates);
    DatesCover(entries, sorted, order, dates, dateOf);
    SectionsCover(sections, dates, entries, dateOf);
    SectionsSound(sections, dates, entries, sorted, order, dateOf);
    SectionsNonEmpty(sections, entries, sorted, dateOf);
  }

  /** Every date of the sorted list has a group. */
  lemma DatesGrouped(order: seq<string>, dates: seq<string>, groups: map<string, seq<Fields>>)
    requires multiset(dates) == multiset(order)
    requires forall k :: k in groups <==> k in order
    ensures forall d :: d in dates ==> d in groups
  {
    forall d | d in dates ensures d in groups {
      assert d in multiset(order);
    }
  }

  /** Each rendered section carries its date and the group of that date. */
  lemma SectionsHold(sections: seq<Section>, dates: seq<string>, groups: map<string, seq<Fields>>,
                     sorted: seq<Fields>, dateOf: Fields -> string)
    requires |sections| == |dates|
    requires forall j :: 0 <= j < |dates| ==> dates[j] in groups && sections[j] == Section(dates[j], groups[dates[j]])
    requires forall k :: k in groups ==> groups[k] == Members(sorted, dateOf, k)
    ensures forall i :: 0 <= i < |sections| ==> sections[i].date == dates[i]
    ensures forall i :: 0 <= i < |sections| ==> sections[i].entries == Members(sorted, dateOf, sections[i].date)
  {
  }

  /** Every entry's date, being among the dates, heads a section. */
  lemma SectionsCover(sections: seq<Section>, dates: seq<string>, entries: seq<Fields>, dateOf: Fields -> string)
    requires |sections| == |dates|
    requires forall i :: 0 <= i < |sections| ==> sections[i].date == dates[i]
    requires forall x :: x in entries ==> dateOf(x) in dates
    ensures forall x :: x in entries ==> exists i :: 0 <= i < |sections| && sections[i].date == dateOf(x)
  {
    forall x | x in entries ensures exists i :: 0 <= i < |sections| && sections[i].date == dateOf(x) {
      var i :| 0 <= i < |dates| && dates[i] == dateOf(x);
      assert sections[i].date == dateOf(x);
    }
  }

  /** The loop over the sorted dates: one section per date, in that order. */
  method Render(dates: seq<string>, groups: map<string, seq<Fields>>) returns (sections: seq<Section>)
    requires forall d :: d in dates ==> d in groups
    ensures |sections| == |dates|
    ensures forall j :: 0 <= j < |dates| ==> sections[j] == Section(dates[j], groups[dates[j]])
  {
    sections := [];
    var i := 0;
    while i < |dates|
      invariant 0 <= i <= |dates|
      invariant |sections| == i
      invariant forall j :: 0 <= j < i ==> sections[j] == Section(dates[j], groups[dates[j]])
    {
      sections := sections + [Section(dates[i], groups[dates[i]])];
      i := i + 1;
    }
  }

  /** Sorting dates without repeats in descending order gives strictly descending dates. */
  lemma DescendingDates(order: seq<string>, dates: seq<string>)
    requires forall i, j :: 0 <= i < j < |order| ==> order[i] != order[j]
    requires dates == Sort(order, StrDesc())
    ensures forall a, b :: 0 <= a < b < |dates| ==> StrLe(dates[b], dates[a]) && dates[a] != dates[b]
  {
    StrDescTotalPreorder();
    SortSorted(order, StrDesc());
    forall a, b | 0 <= a < b < |dates| ensures StrLe(dates[b], dates[a]) && dates[a] != dates[b] {
      assert StrDesc()(dates[a], dates[b]);
      if dates[a] == dates[b] {
        CountTwo(dates, a, b);
        DistinctCount(order, dates[a]);
      }
    }
  }

  /** Every entry's date is among the sorted dates. */
  lemma DatesCover(entries: seq<Fields>, sorted: seq<Fields>, order: seq<string>, dates: seq<string>, dateOf: Fields -> string)
    requires multiset(sorted) == multiset(entries)
    requires forall k :: k in DatesOf(sorted, dateOf) <==> k in order
    requires multiset(dates) == multiset(order)
    ensures forall x :: x in entries ==> dateOf(x) in dates
  {
    forall x | x in entries ensures dateOf(x) in dates {
      assert x in multiset(sorted);
      var j :| 0 <= j < |sorted| && sorted[j] == x;
      DatesOfIff(sorted, dateOf, dateOf(x));
      assert dateOf(x) in multiset(dates);
    }
  }

  /** Some entry has date `d`. */
  predicate IsEntryDate(entries: seq<Fields>, dateOf: Fields -> string, d: string) {
    exists x :: x in entries && dateOf(x) == d
  }

  /** Every section heads the date of some entry. */
  lemma SectionsSound(sections: seq<Section>, dates: seq<string>, entries: seq<Fields>,
                      sorted: seq<Fields>, order: seq<string>, dateOf: Fields -> string)
    requires |sections| == |dates|
    requires forall i :: 0 <= i < |sections| ==> sections[i].date == dates[i]
    requires multiset(sorted) == multiset(entries)
    requires forall k :: k in DatesOf(sorted, dateOf) <==> k in order
    requires multiset(dates) == multiset(order)
    ensures forall i :: 0 <= i < |sections| ==> IsEntryDate(entries, dateOf, sections[i].date)
  {
    DatesSound(entries, sorted, order, dates, dateOf);
    forall i | 0 <= i < |sections| ensures IsEntryDate(entries, dateOf, sections[i].date) {
      assert dates[i] in dates;
      var x :| x in entries && dateOf(x) == dates[i];
      assert dateOf(x) == sections[i].date;
    }
  }

  /** A section whose date is some entry's date holds at least that entry. */
  lemma SectionsNonEmpty(sections: seq<Section>, entries: seq<Fields>, sorted: seq<Fields>, dateOf: Fields -> string)
    requires multiset(sorted) == multiset(entries)
    requires forall i :: 0 <= i < |sections| ==> sections[i].entries == Members(sorted, dateOf, sections[i].date)
    requires forall i :: 0 <= i < |sections| ==> IsEntryDate(entries, dateOf, sections[i].date)
    ensures forall i :: 0 <= i < |sections| ==> sections[i].entries != []
  {
    forall i | 0 <= i < |sections| ensures sections[i].entries != [] {
      var x :| x in entries && dateOf(x) == sections[i].date;
      MembersComplete(sorted, dateOf, x);
      assert x in multiset(entries);
    }
  }

  /** Every sorted date is the date of some entry. */
  lemma DatesSound(entries: seq<Fields>, sorted: seq<Fields>, order: seq<string>, dates: seq<string>, dateOf: Fields -> string)
    requires multiset(sorted) == multiset(entries)
    requires forall k :: k in DatesOf(sorted, dateOf) <==> k in order
    requires multiset(dates) == multiset(order)
    ensures forall d :: d in dates ==> IsEntryDate(entries, dateOf, d)
  {
    forall d | d in dates ensures IsEntryDate(entries, dateOf, d) {
      assert d in multiset(order);
      DatesOfIff(sorted, dateOf, d);
      var j :| 0 <= j < |sorted| && dateOf(sorted[j]) == d;
      assert sorted[j] in multiset(entries);
    }
  }

  /** A list without repeats holds each value at most once. */
  lemma {:induction false} DistinctCount(s: seq<string>, k: string)
    requires forall i, j :: 0 <= i < j < |s| ==> s[i] != s[j]
    ensures multiset(s)[k] <= 1
  {
    if s != [] {
      DistinctCount(s[1..], k);
      assert s == [s[0]] + s[1..];
      if s[0] == k {
        assert k !in s[1..];
      }
    }
  }

  /** A value at two positions is counted at least twice. */
  lemma CountTwo(s: seq<string>, a: nat, b: nat)
    requires a < b < |s| && s[a] == s[b]
    ensures multiset(s)[s[a]] >= 2
  {
    assert s == s[..b] + s[b..];
    assert s[a] in s[..b];
    assert s[b..][0] == s[b];
    assert multiset(s) == multiset(s[..b]) + multiset(s[b..]);
  }
}
