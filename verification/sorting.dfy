/**
 * Python's list.sort(key=..., reverse=...) as the tools use it: a stable
 * sort. It is modelled as insertion sort under a total preorder `le`
 * ("may come before"); every stable sort under the same preorder yields the
 * same list, so the model fixes the order the tools produce.
 */
module Ordering {
  /** `le` is total and transitive: a preorder every pair of elements is comparable under. */
  ghost predicate TotalPreorder<T(!new)>(le: (T, T) -> bool) {
    && (forall a, b :: le(a, b) || le(b, a))
    && (forall a, b, c :: le(a, b) && le(b, c) ==> le(a, c))
  }

  /** Each element may come before every later one. */
  predicate Sorted<T>(s: seq<T>, le: (T, T) -> bool) {
    forall i, j :: 0 <= i < j < |s| ==> le(s[i], s[j])
  }

  /** Insert `x` before the first element it may precede. */
  function Insert<T>(x: T, s: seq<T>, le: (T, T) -> bool): (r: seq<T>)
    ensures multiset(r) == multiset(s) + multiset{x}
    ensures |r| == |s| + 1
  {
    if s == [] || le(x, s[0]) then [x] + s
    else
      var rest := Insert(x, s[1..], le);
      assert s == [s[0]] + s[1..];
      [s[0]] + rest
  }

  /** The stable sort of `s` under `le`. */
  function Sort<T>(s: seq<T>, le: (T, T) -> bool): (r: seq<T>)
    ensures multiset(r) == multiset(s)
    ensures |r| == |s|
  {
    if s == [] then []
    else
      assert s == [s[0]] + s[1..];
      Insert(s[0], Sort(s[1..], le), le)
  }

  /** Inserting into a sorted list keeps it sorted. */
  lemma {:induction false} InsertSorted<T(!new)>(x: T, s: seq<T>, le: (T, T) -> bool)
    requires TotalPreorder(le) && Sorted(s, le)
    ensures Sorted(Insert(x, s, le), le)
    ensures s != [] && !le(x, s[0]) ==> Insert(x, s, le)[0] == s[0]
  {
    if s != [] && !le(x, s[0]) {
      InsertSorted(x, s[1..], le);
      var r := Insert(x, s, le);
      var rest := Insert(x, s[1..], le);
      assert r == [s[0]] + rest;
      forall j | 0 < j < |r| ensures le(s[0], r[j]) {
        assert r[j] in multiset(rest);
        assert r[j] == x || r[j] in multiset(s[1..]);
        if r[j] != x {
          var k :| 0 <= k < |s[1..]| && s[1..][k] == r[j];
          assert s[k + 1] == r[j];
        }
      }
    }
  }

  /** The sort is sorted. */
  lemma {:induction false} SortSorted<T(!new)>(s: seq<T>, le: (T, T) -> bool)
    requires TotalPreorder(le)
    ensures Sorted(Sort(s, le), le)
  {
    if s != [] {
      SortSorted(s[1..], le);
      InsertSorted(s[0], Sort(s[1..], le), le);
    }
  }

  /** `a` and `b` compare equal: each may come before the other. */
  predicate Tied<T>(le: (T, T) -> bool, a: T, b: T) {
    le(a, b) && le(b, a)
  }

  /** The elements of `s` tied with `pivot`, in their order in `s`. */
  function TiedWith<T>(s: seq<T>, le: (T, T) -> bool, pivot: T): seq<T> {
    if s == [] then []
    else (if Tied(le, s[0], pivot) then [s[0]] else []) + TiedWith(s[1..], le, pivot)
  }

  /**
   * An inserted element lands before every element tied with it, so the
   * tied elements of the result are `x` (when tied with the pivot) followed
   * by those of `s`.
   */
  lemma {:induction false} InsertTied<T(!new)>(x: T, s: seq<T>, le: (T, T) -> bool, pivot: T)
    requires TotalPreorder(le)
    ensures TiedWith(Insert(x, s, le), le, pivot)
      == (if Tied(le, x, pivot) then [x] else []) + TiedWith(s, le, pivot)
  {
    if s == [] || le(x, s[0]) {
      assert Insert(x, s, le) == [x] + s;
      TiedWithCons(x, s, le, pivot);
    } else {
      InsertTied(x, s[1..], le, pivot);
      if Tied(le, x, pivot) {
        TiedExclusive(le, x, s[0], pivot);
      }
      InsertTiedStep(x, s, le, pivot);
    }
  }

  /** InsertTied for `x` passing over the head of `s`, given it for the tail. */
  lemma InsertTiedStep<T>(x: T, s: seq<T>, le: (T, T) -> bool, pivot: T)
    requires s != [] && !le(x, s[0])
    requires Tied(le, x, pivot) ==> !Tied(le, s[0], pivot)
    requires TiedWith(Insert(x, s[1..], le), le, pivot)
      == (if Tied(le, x, pivot) then [x] else []) + TiedWith(s[1..], le, pivot)
    ensures TiedWith(Insert(x, s, le), le, pivot)
      == (if Tied(le, x, pivot) then [x] else []) + TiedWith(s, le, pivot)
  {
    var rest := Insert(x, s[1..], le);
    var front := if Tied(le, x, pivot) then [x] else [];
    var head := if Tied(le, s[0], pivot) then [s[0]] else [];
    var t := TiedWith(s[1..], le, pivot);
    InsertSkip(x, s, le);
    TiedWithCons(s[0], rest, le, pivot);
    assert TiedWith(Insert(x, s, le), le, pivot) == head + (front + t);
    assert TiedWith(s, le, pivot) == head + t;
    SwapEmpty(head, front, t);
  }

  /** An element that may not precede the head of `s` is inserted into its tail. */
  lemma InsertSkip<T>(x: T, s: seq<T>, le: (T, T) -> bool)
    requires s != [] && !le(x, s[0])
    ensures Insert(x, s, le) == [s[0]] + Insert(x, s[1..], le)
  {
  }

  /** Two lists of which one is empty can be put in front of a third in either order. */
  lemma SwapEmpty<T>(a: seq<T>, b: seq<T>, t: seq<T>)
    requires a == [] || b == []
    ensures a + (b + t) == b + (a + t)
  {
    if a == [] {
      assert a + (b + t) == b + t == b + (a + t);
    } else {
      assert a + (b + t) == a + t == b + (a + t);
    }
  }

  /** The tied elements of a list with one more element in front. */
  lemma TiedWithCons<T>(y: T, s: seq<T>, le: (T, T) -> bool, pivot: T)
    ensures TiedWith([y] + s, le, pivot) == (if Tied(le, y, pivot) then [y] else []) + TiedWith(s, le, pivot)
  {
    assert ([y] + s)[1..] == s;
  }

  /** An element that may not come before `y` is not tied with what `y` is tied with. */
  lemma TiedExclusive<T(!new)>(le: (T, T) -> bool, x: T, y: T, pivot: T)
    requires TotalPreorder(le) && !le(x, y) && Tied(le, x, pivot)
    ensures !Tied(le, y, pivot)
  {
    assert le(x, pivot);
  }

  /** Stability: elements that compare equal keep their relative order. */
  lemma {:induction false} SortStable<T(!new)>(s: seq<T>, le: (T, T) -> bool, pivot: T)
    requires TotalPreorder(le)
    ensures TiedWith(Sort(s, le), le, pivot) == TiedWith(s, le, pivot)
  {
    if s != [] {
      SortStable(s[1..], le, pivot);
      InsertTied(s[0], Sort(s[1..], le), le, pivot);
    }
  }

  /** Python's `<=` on str: code point by code point, a prefix first. */
  predicate StrLe(a: string, b: string)
    decreases |a|
  {
    a == [] || (b != [] && (a[0] < b[0] || (a[0] == b[0] && StrLe(a[1..], b[1..]))))
  }

  /** Any two strings are comparable. */
  lemma {:induction false} StrLeTotal(a: string, b: string)
    ensures StrLe(a, b) || StrLe(b, a)
    decreases |a|
  {
    if a != [] && b != [] && a[0] == b[0] {
      StrLeTotal(a[1..], b[1..]);
    }
  }

  /** String order is transitive. */
  lemma {:induction false} StrLeTrans(a: string, b: string, c: string)
    requires StrLe(a, b) && StrLe(b, c)
    ensures StrLe(a, c)
    decreases |a|
  {
    if a != [] && b != [] && c != [] && a[0] == b[0] == c[0] {
      StrLeTrans(a[1..], b[1..], c[1..]);
    }
  }

  /** Two strings each `<=` the other are equal. */
  lemma {:induction false} StrLeAntisym(a: string, b: string)
    requires StrLe(a, b) && StrLe(b, a)
    ensures a == b
    decreases |a|
  {
    if a != [] {
      StrLeAntisym(a[1..], b[1..]);
      assert a == [a[0]] + a[1..] && b == [b[0]] + b[1..];
    }
  }

  /** `sorted(keys, reverse=True)` compares with "may come before" meaning "is not smaller". */
  function StrDesc(): (string, string) -> bool {
    (a: string, b: string) => StrLe(b, a)
  }

  /** Descending string order is a total preorder. */
  lemma StrDescTotalPreorder()
    ensures TotalPreorder(StrDesc())
  {
    forall a: string, b: string ensures StrDesc()(a, b) || StrDesc()(b, a) {
      StrLeTotal(a, b);
    }
    forall a: string, b: string, c: string | StrDesc()(a, b) && StrDesc()(b, c) ensures StrDesc()(a, c) {
      StrLeTrans(c, b, a);
    }
  }
}
