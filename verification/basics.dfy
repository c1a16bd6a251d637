/** Small value wrappers shared by the changelog model. */
module Basics {

  datatype Option<+T> = None | Some(value: T) {
    function GetOr(default: T): T {
      match this
      case Some(v) => v
      case None => default
    }
  }

  datatype Result<+T, +E> = Ok(value: T) | Err(error: E)

  /** A non-empty sequence holds its head and the elements of its tail. */
  lemma MultisetCons<T>(s: seq<T>)
    requires s != []
    ensures multiset(s) == multiset{s[0]} + multiset(s[1..])
  {
    assert s == [s[0]] + s[1..];
  }

  /** A non-empty sequence is its front followed by its last element. */
  lemma SnocSplit<T>(s: seq<T>)
    requires s != []
    ensures s == s[..|s| - 1] + [s[|s| - 1]]
  {
  }

  /** Sequence concatenation is associative. */
  lemma AppendAssoc<T>(a: seq<T>, b: seq<T>, c: seq<T>)
    ensures a + b + c == a + (b + c)
  {
  }

  /** Position `i` of `a + b` is in `a` or, shifted, in `b`. */
  lemma IndexAppend<T>(a: seq<T>, b: seq<T>, i: nat)
    requires i < |a| + |b|
    ensures (a + b)[i] == if i < |a| then a[i] else b[i - |a|]
  {
  }

  /** `f` applied to every element, in order. */
  function MapSeq<A, B>(s: seq<A>, f: A -> B): (r: seq<B>)
    ensures |r| == |s|
    ensures forall i :: 0 <= i < |s| ==> r[i] == f(s[i])
  {
    seq(|s|, i requires 0 <= i < |s| => f(s[i]))
  }

  /** Mapping over `a + b` maps over `a` and then over `b`. */
  lemma MapSeqAppend<A, B>(a: seq<A>, b: seq<A>, f: A -> B)
    ensures MapSeq(a + b, f) == MapSeq(a, f) + MapSeq(b, f)
  {
    forall i | 0 <= i < |a| + |b| ensures MapSeq(a + b, f)[i] == (MapSeq(a, f) + MapSeq(b, f))[i] {
      IndexAppend(a, b, i);
      IndexAppend(MapSeq(a, f), MapSeq(b, f), i);
    }
  }

  /** Two first occurrences of the same element are at the same position. */
  lemma FirstIndexUnique<T>(s: seq<T>, c: T, j: nat, k: nat)
    requires j < |s| && s[j] == c && c !in s[..j]
    requires k < |s| && s[k] == c && c !in s[..k]
    ensures j == k
  {
  }

  /** Moving the parentheses of a concatenation of six pieces. */
  lemma Regroup<T>(p: seq<T>, k: seq<T>, sep: seq<T>, a: seq<T>, b: seq<T>, c: seq<T>)
    ensures (p + k) + sep + (a + b + c) == p + (k + sep + a + b) + c
  {
  }

  lemma Regroup3<T>(a: seq<T>, b: seq<T>, c: seq<T>, d: seq<T>)
    ensures (a + b) + c + d == a + (b + c) + d
  {
  }

  lemma NotInSuffix<T>(a: seq<T>, b: seq<T>, c: T)
    requires c !in a + b
    ensures c !in b
  {
  }

  /** An element counted in `s` but not in its first `n` elements sits at or after `n`. */
  lemma InDropped<T>(s: seq<T>, n: nat, y: T)
    requires n <= |s| && y in multiset(s) - multiset(s[..n])
    ensures exists j :: n <= j < |s| && s[j] == y
  {
    SplitAt(s, n);
    assert multiset(s) == multiset(s[..n]) + multiset(s[n..]);
    var j :| 0 <= j < |s[n..]| && s[n..][j] == y;
    assert s[n + j] == y;
  }

  lemma FirstOfAppend<T>(a: seq<T>, b: seq<T>)
    requires a != []
    ensures (a + b)[0] == a[0]
  {
  }

  lemma LastOfAppend<T>(a: seq<T>, b: seq<T>)
    requires b != []
    ensures (a + b)[|a + b| - 1] == b[|b| - 1]
  {
  }

  lemma AppendEmpty<T>(a: seq<T>)
    ensures a + [] == a
  {
  }

  lemma EmptyAppend<T>(a: seq<T>)
    ensures [] + a == a
  {
  }

  lemma SplitAt<T>(s: seq<T>, k: nat)
    requires k <= |s|
    ensures s == s[..k] + s[k..]
  {
  }
}
