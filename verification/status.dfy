/**
 * The status page (`main` in logs/generate_status_html.py) apart from its
 * markup: the backlog split into prioritized, unprioritized and trash
 * items, each group sorted and the prioritized ones numbered; the log
 * entries newest first, cut to `--limit`, with a date header before each
 * entry whose date differs from the last one shown.
 */
module Status {
  import opened Basics
  import opened Text
  import opened Ordering
  import opened LogStore
  import opened Entries
  import opened Timeline
  import opened Cards
  import opened Record
  import B = Backlog

  /** `it.get("priority") is not None and not it.get("trash")` */
  predicate Prioritized(it: B.Item) {
    it.priority.Some? && !it.trash
  }

  /** `it.get("priority") is None and not it.get("trash")` */
  predicate Unprioritized(it: B.Item) {
    it.priority.None? && !it.trash
  }

  /** `it.get("trash")` */
  predicate Trashed(it: B.Item) {
    it.trash
  }

  /** `[it for it in items if keep(it)]` */
  function Where(items: seq<B.Item>, keep: B.Item -> bool): (r: seq<B.Item>)
    ensures forall i :: 0 <= i < |r| ==> keep(r[i]) && r[i] in items
  {
    if items == [] then []
    else (if keep(items[0]) then [items[0]] else []) + Where(items[1..], keep)
  }

  /** Every item lands in exactly one of the three groups. */
  lemma GroupsExclusive(it: B.Item)
    ensures (if Prioritized(it) then 1 else 0) + (if Unprioritized(it) then 1 else 0) + (if Trashed(it) then 1 else 0) == 1
  {
  }

  /** The three groups together hold every backlog item, as often as the backlog does. */
  lemma {:induction false} Partition(items: seq<B.Item>)
    ensures multiset(Where(items, Prioritized)) + multiset(Where(items, Unprioritized)) + multiset(Where(items, Trashed))
      == multiset(items)
  {
    if items != [] {
      Partition(items[1..]);
      GroupsExclusive(items[0]);
      MultisetCons(items);
    }
  }

  /** ts_value: the timestamp of a backlog item, 0.0 when it does not parse. */
  function StampValue(stamp: string -> Option<Stamp>, ts: string): real {
    match ParseTs(stamp, ts)
    case Some(st) => st.seconds
    case None => 0.0
  }

  /** `it.get("priority", 9999)` */
  function PriorityKey(it: B.Item): int {
    match it.priority
    case Some(p) => p
    case None => 9999
  }

  /** The key `(priority, -ts_value(ts))`: lower priority number first, then newer first. */
  function ByPriority(stamp: string -> Option<Stamp>): (before: (B.Item, B.Item) -> bool)
    ensures forall a, b :: PriorityKey(a) < PriorityKey(b) ==> before(a, b) && !before(b, a)
    ensures forall a, b :: PriorityKey(a) == PriorityKey(b) ==> (before(a, b) <==> StampValue(stamp, b.ts) <= StampValue(stamp, a.ts))
  {
    (a: B.Item, b: B.Item) =>
      PriorityKey(a) < PriorityKey(b)
      || (PriorityKey(a) == PriorityKey(b) && StampValue(stamp, b.ts) <= StampValue(stamp, a.ts))
  }

  /** The key `-ts_value(ts)`: newer first. */
  function ByNewest(stamp: string -> Option<Stamp>): (B.Item, B.Item) -> bool {
    (a: B.Item, b: B.Item) => StampValue(stamp, b.ts) <= StampValue(stamp, a.ts)
  }

  /** The prioritized key is a total preorder, so the sort is well defined. */
  lemma ByPriorityTotalPreorder(stamp: string -> Option<Stamp>)
    ensures TotalPreorder(ByPriority(stamp))
  {
  }

  /** Newest first is a total preorder, so the sort is well defined. */
  lemma ByNewestTotalPreorder(stamp: string -> Option<Stamp>)
    ensures TotalPreorder(ByNewest(stamp))
  {
  }

  /** A backlog card; `order` is the `display_order` main gives the prioritized items. */
  datatype Card = Card(item: B.Item, order: Option<nat>)

  /** The items on the cards, in order. */
  function CardItems(cards: seq<Card>): (r: seq<B.Item>)
    ensures |r| == |cards|
    ensures forall i :: 0 <= i < |cards| ==> r[i] == cards[i].item
  {
    seq(|cards|, i requires 0 <= i < |cards| => cards[i].item)
  }

  /** `for idx, it in enumerate(prioritized, 1): it["display_order"] = idx` */
  method Number(prioritized: seq<B.Item>) returns (cards: seq<Card>)
    ensures CardItems(cards) == prioritized
    ensures forall i :: 0 <= i < |cards| ==> cards[i].order == Some(i + 1)
  {
    cards := [];
    for idx := 0 to |prioritized|
      invariant |cards| == idx
      invariant forall i :: 0 <= i < idx ==> cards[i] == Card(prioritized[i], Some(i + 1))
    {
      cards := cards + [Card(prioritized[idx], Some(idx + 1))];
    }
  }

  /**
   * The backlog column: the three groups, each sorted (stably) by its key,
   * the prioritized items numbered 1, 2, ... in their sorted order.
   */
  method BacklogColumn(stamp: string -> Option<Stamp>, items: seq<B.Item>)
    returns (prioritized: seq<Card>, normal: seq<B.Item>, trash: seq<B.Item>)
    ensures CardItems(prioritized) == Sort(Where(items, Prioritized), ByPriority(stamp))
    ensures normal == Sort(Where(items, Unprioritized), ByNewest(stamp))
    ensures trash == Sort(Where(items, Trashed), ByNewest(stamp))
    ensures multiset(CardItems(prioritized)) + multiset(normal) + multiset(trash) == multiset(items)
    ensures forall i :: 0 <= i < |prioritized| ==> Prioritized(prioritized[i].item) && prioritized[i].order == Some(i + 1)
    ensures forall i :: 0 <= i < |normal| ==> Unprioritized(normal[i])
    ensures forall i :: 0 <= i < |trash| ==> Trashed(trash[i])
    ensures Sorted(CardItems(prioritized), ByPriority(stamp))
    ensures Sorted(normal, ByNewest(stamp)) && Sorted(trash, ByNewest(stamp))
  {
    var p := Where(items, Prioritized);
    normal := Where(items, Unprioritized);
    trash := Where(items, Trashed);
    Partition(items);
    ByPriorityTotalPreorder(stamp);
    ByNewestTotalPreorder(stamp);
    SortSorted(p, ByPriority(stamp));
    SortSorted(normal, ByNewest(stamp));
    SortSorted(trash, ByNewest(stamp));
    SortKeeps(p, ByPriority(stamp), Prioritized);
    SortKeeps(normal, ByNewest(stamp), Unprioritized);
    SortKeeps(trash, ByNewest(stamp), Trashed);
    p := Sort(p, ByPriority(stamp));
    normal := Sort(normal, ByNewest(stamp));
    trash := Sort(trash, ByNewest(stamp));
    prioritized := Number(p);
  }

  /** Sorting keeps every element, so a property all elements have survives it. */
  lemma SortKeeps(s: seq<B.Item>, le: (B.Item, B.Item) -> bool, keep: B.Item -> bool)
    requires forall i :: 0 <= i < |s| ==> keep(s[i])
    ensures forall i :: 0 <= i < |Sort(s, le)| ==> keep(Sort(s, le)[i])
  {
    var r := Sort(s, le);
    forall i | 0 <= i < |r| ensures keep(r[i]) {
      assert r[i] in multiset(r);
      assert r[i] in multiset(s);
    }
  }

  /** The meta line of a backlog card: `" · ".join(filter(None, [ts, "BACKLOG"]))`. */
  function BacklogMeta(it: B.Item): string {
    Cards.MetaLine([it.ts, "BACKLOG"])
  }

  /** Two parts of which the second is set: the first, when set, then the separator. */
  lemma TwoParts(a: string, b: string)
    requires b != []
    ensures Cards.MetaLine([a, b]) == if a == [] then b else a + " · " + b
  {
    var parts := [a, b];
    assert parts[1..] == [b] && parts[1..][1..] == [];
    assert NonEmpty(parts[1..]) == [b] + [];
    assert NonEmpty(parts) == (if a != [] then [a] else []) + [b];
    if a != [] {
      assert [a, b][1..] == [b];
      assert JoinWith([a, b], " · ") == a + " · " + JoinWith([b], " · ");
    }
  }

  /** A backlog card shows its timestamp before "BACKLOG" when it has one, "BACKLOG" alone otherwise. */
  lemma BacklogMetaShape(it: B.Item)
    ensures BacklogMeta(it) == if it.ts == [] then "BACKLOG" else it.ts + " · " + "BACKLOG"
  {
    TwoParts(it.ts, "BACKLOG");
  }

  /** `entries[: max(limit, 0)]` */
  function Limit(entries: seq<Fields>, limit: int): (r: seq<Fields>)
    ensures |r| == if limit <= 0 then 0 else if limit < |entries| then limit else |entries|
    ensures r == entries[..|r|]
  {
    entries[..if limit <= 0 then 0 else if limit < |entries| then limit else |entries|]
  }

  /** `str(e.get("fecha") or "")` */
  function Fecha(e: Fields): string {
    Field(e, "fecha")
  }

  /** What `last_fecha` holds after the entries: the last non-empty date among them, None if there is none. */
  function LastFecha(es: seq<Fields>): Option<string>
    decreases |es|
  {
    if es == [] then None
    else if Fecha(es[|es| - 1]) != [] then Some(Fecha(es[|es| - 1]))
    else LastFecha(es[..|es| - 1])
  }

  /** A row of the changelog column. */
  datatype Row = DateHeader(date: string) | EntryRow(entry: Fields)

  /** The rows for entry `i`: a header first when its date is set and differs from the last date shown. */
  function RowsFor(es: seq<Fields>, i: nat): (r: seq<Row>)
    requires i < |es|
    ensures 1 <= |r| <= 2 && r[|r| - 1] == EntryRow(es[i])
    ensures |r| == 2 ==> r[0] == DateHeader(Fecha(es[i])) && Fecha(es[i]) != []
  {
    var f := Fecha(es[i]);
    (if f != [] && Some(f) != LastFecha(es[..i]) then [DateHeader(f)] else []) + [EntryRow(es[i])]
  }

  /** The changelog column for the entries, in order. */
  function Rows(es: seq<Fields>): (r: seq<Row>)
    ensures |es| <= |r| <= 2 * |es|
    ensures es != [] ==> r[|r| - 1] == EntryRow(es[|es| - 1])
    decreases |es|
  {
    if es == [] then [] else Rows(es[..|es| - 1]) + RowsFor(es, |es| - 1)
  }

  /** One more entry adds its rows and may move the last date. */
  lemma RowsStep(es: seq<Fields>, i: nat)
    requires i < |es|
    ensures Rows(es[..i + 1]) == Rows(es[..i]) + RowsFor(es, i)
    ensures LastFecha(es[..i + 1]) == if Fecha(es[i]) != [] then Some(Fecha(es[i])) else LastFecha(es[..i])
  {
    var pre := es[..i + 1];
    assert pre[..|pre| - 1] == es[..i];
    assert RowsFor(pre, i) == RowsFor(es, i);
  }

  /** The rows of entry `i`, case by case. */
  lemma RowsForCases(es: seq<Fields>, i: nat)
    requires i < |es|
    ensures Fecha(es[i]) != [] && Some(Fecha(es[i])) != LastFecha(es[..i]) ==> RowsFor(es, i) == [DateHeader(Fecha(es[i]))] + [EntryRow(es[i])]
    ensures !(Fecha(es[i]) != [] && Some(Fecha(es[i])) != LastFecha(es[..i])) ==> RowsFor(es, i) == [EntryRow(es[i])]
  {
    EmptyAppend([EntryRow(es[i])]);
  }

  /** The loop of main over the entries, with `last_fecha`. */
  method ChangelogRows(entries: seq<Fields>) returns (rows: seq<Row>)
    ensures rows == Rows(entries)
  {
    rows := [];
    var last: Option<string> := None;
    for i := 0 to |entries|
      invariant rows == Rows(entries[..i])
      invariant last == LastFecha(entries[..i])
    {
      RowsStep(entries, i);
      RowsForCases(entries, i);
      ghost var before := rows;
      var fecha := Fecha(entries[i]);
      if fecha != [] && Some(fecha) != last {
        rows := rows + [DateHeader(fecha)];
        last := Some(fecha);
      }
      rows := rows + [EntryRow(entries[i])];
      AppendAssoc(before, [DateHeader(fecha)], [EntryRow(entries[i])]);
    }
    assert entries[..|entries|] == entries;
  }

  /** The entries of the rows, in order. */
  function RowEntries(rows: seq<Row>): seq<Fields>
    decreases |rows|
  {
    if rows == [] then []
    else RowEntries(rows[..|rows| - 1]) + (if rows[|rows| - 1].EntryRow? then [rows[|rows| - 1].entry] else [])
  }

  /** The date of the last header among the rows. */
  function LastHeader(rows: seq<Row>): Option<string>
    decreases |rows|
  {
    if rows == [] then None
    else if rows[|rows| - 1].DateHeader? then Some(rows[|rows| - 1].date)
    else LastHeader(rows[..|rows| - 1])
  }

  /** The entries of two runs of rows are the entries of each, in order. */
  lemma {:induction false} RowEntriesAppend(a: seq<Row>, b: seq<Row>)
    ensures RowEntries(a + b) == RowEntries(a) + RowEntries(b)
    decreases |b|
  {
    if b == [] {
      assert a + b == a;
    } else {
      var last := b[|b| - 1];
      assert (a + b)[..|a + b| - 1] == a + b[..|b| - 1];
      RowEntriesAppend(a, b[..|b| - 1]);
    }
  }

  /** An entry row does not change the last header. */
  lemma LastHeaderAppendEntry(rows: seq<Row>, e: Fields)
    ensures LastHeader(rows + [EntryRow(e)]) == LastHeader(rows)
  {
    assert (rows + [EntryRow(e)])[..|rows|] == rows;
  }

  /** A header row becomes the last header. */
  lemma LastHeaderAppendHeader(rows: seq<Row>, d: string)
    ensures LastHeader(rows + [DateHeader(d)]) == Some(d)
  {
  }

  /** Every entry appears once among the rows, in order; the headers add no entry. */
  lemma {:induction false} RowsKeepEntries(es: seq<Fields>)
    ensures RowEntries(Rows(es)) == es
    decreases |es|
  {
    if es != [] {
      var init := es[..|es| - 1];
      RowsKeepEntries(init);
      RowEntriesAppend(Rows(init), RowsFor(es, |es| - 1));
      RowsForEntries(es, |es| - 1);
      SnocSplit(es);
    }
  }

  /** The rows for one entry hold that entry and no other. */
  lemma RowsForEntries(es: seq<Fields>, i: nat)
    requires i < |es|
    ensures RowEntries(RowsFor(es, i)) == [es[i]]
  {
    var hs: seq<Row> := if Fecha(es[i]) != [] && Some(Fecha(es[i])) != LastFecha(es[..i]) then [DateHeader(Fecha(es[i]))] else [];
    assert RowsFor(es, i) == hs + [EntryRow(es[i])];
    RowEntriesAppend(hs, [EntryRow(es[i])]);
    assert RowEntries([EntryRow(es[i])]) == [es[i]] by {
      assert [EntryRow(es[i])][..0] == [];
    }
    if hs != [] {
      assert RowEntries(hs) == [] by {
        assert hs[..0] == [];
      }
    }
  }

  /** The last header shown carries the last date seen: `last_fecha` always names the header in force. */
  lemma {:induction false} LastHeaderIsLastFecha(es: seq<Fields>)
    ensures LastHeader(Rows(es)) == LastFecha(es)
    decreases |es|
  {
    if es != [] {
      var init := es[..|es| - 1];
      var i := |es| - 1;
      LastHeaderIsLastFecha(init);
      RowsStep(es, i);
      assert es[..i + 1] == es && es[..i] == init;
      RowsForCases(es, i);
      var f := Fecha(es[i]);
      if f != [] && Some(f) != LastFecha(init) {
        AppendAssoc(Rows(init), [DateHeader(f)], [EntryRow(es[i])]);
        LastHeaderAppendEntry(Rows(init) + [DateHeader(f)], es[i]);
        LastHeaderAppendHeader(Rows(init), f);
      } else {
        LastHeaderAppendEntry(Rows(init), es[i]);
      }
    }
  }

  /**
   * An entry with a date is shown under the header of that date: the
   * last header before its row (inclusive of one emitted for it) is its
   * date, whether or not a new header was needed.
   */
  lemma UnderItsDate(es: seq<Fields>, i: nat)
    requires i < |es| && Fecha(es[i]) != []
    ensures LastHeader(Rows(es[..i + 1])) == Some(Fecha(es[i]))
    ensures Rows(es[..i + 1])[|Rows(es[..i + 1])| - 1] == EntryRow(es[i])
  {
    LastHeaderIsLastFecha(es[..i + 1]);
    RowsStep(es, i);
  }

  /** The changelog column: entries newest first, cut to the limit, with their date headers. */
  method ChangelogColumn(stamp: string -> Option<Stamp>, entries: seq<Fields>, limit: int) returns (rows: seq<Row>)
    ensures rows == Rows(Limit(SortNewestFirst(stamp, entries), limit))
    ensures RowEntries(rows) == Limit(SortNewestFirst(stamp, entries), limit)
  {
    var sorted := SortNewestFirst(stamp, entries);
    var shown := Limit(sorted, limit);
    rows := ChangelogRows(shown);
    RowsKeepEntries(shown);
  }

  /** The entries the changelog column shows are the newest ones: none left out is newer than one shown. */
  lemma ShownAreNewest(stamp: string -> Option<Stamp>, entries: seq<Fields>, limit: int, x: Fields, y: Fields)
    requires x in Limit(SortNewestFirst(stamp, entries), limit)
    requires y in multiset(entries) - multiset(Limit(SortNewestFirst(stamp, entries), limit))
    ensures TsValue(stamp, y) <= TsValue(stamp, x)
  {
    var sorted := SortNewestFirst(stamp, entries);
    var shown := Limit(sorted, limit);
    var n := |shown|;
    InDropped(sorted, n, y);
    var j :| n <= j < |sorted| && sorted[j] == y;
    var i :| 0 <= i < n && shown[i] == x;
    assert sorted[i] == x;
  }
}
