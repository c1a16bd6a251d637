/**
 * The three bracketed marks `parse_backlog` in logs/generate_status_html.py
 * looks for with re.search, written as scanners: the first position where
 * the pattern matches, from the left, as re.search finds it.
 *
 *   `\[(\d{4}-\d{2}-\d{2} \d{2}:\d{2})\]`   a timestamp such as [2024-05-01 09:30]
 *   `\[P(\d+)\]`                            a priority such as [P2]
 *   `\[(?:X|TRASH)\]`, ignoring case        a trash mark such as [x] or [Trash]
 */
module Scan {
  import opened Basics
  import opened Text

  /** The first position in [i, n) satisfying `p`, if any. */
  function FirstFrom(p: nat -> bool, i: nat, n: nat): (r: Option<nat>)
    ensures r.Some? ==> i <= r.value < n && p(r.value) && forall k :: i <= k < r.value ==> !p(k)
    ensures r.None? ==> forall k :: i <= k < n ==> !p(k)
    decreases n - i
  {
    if i >= n then None
    else if p(i) then Some(i)
    else FirstFrom(p, i + 1, n)
  }

  /** `\d`, for ASCII digits. */
  predicate IsDigit(c: char) {
    '0' <= c <= '9'
  }

  /** Every character is a digit. */
  predicate AllDigits(s: string) {
    forall i :: 0 <= i < |s| ==> IsDigit(s[i])
  }

  /** int(s) for a run of decimal digits. */
  function DigitsValue(s: string): nat
    requires AllDigits(s)
  {
    if s == [] then 0
    else DigitsValue(s[..|s| - 1]) * 10 + (s[|s| - 1] as int - '0' as int)
  }

  /** `[YYYY-MM-DD HH:MM]` starts at `k`. */
  predicate StampAt(s: string, k: nat) {
    && k + 18 <= |s|
    && s[k] == '[' && s[k + 17] == ']'
    && AllDigits(s[k + 1..k + 5]) && s[k + 5] == '-'
    && AllDigits(s[k + 6..k + 8]) && s[k + 8] == '-'
    && AllDigits(s[k + 9..k + 11]) && s[k + 11] == ' '
    && AllDigits(s[k + 12..k + 14]) && s[k + 14] == ':'
    && AllDigits(s[k + 15..k + 17])
  }

  /** Some timestamp mark occurs in `s`. */
  predicate HasStamp(s: string) {
    exists k :: 0 <= k < |s| && StampAt(s, k)
  }

  /** A timestamp mark starts at `k` and at no position before it: where re.search finds it. */
  predicate FirstStampAt(s: string, k: nat) {
    StampAt(s, k) && forall j :: 0 <= j < k ==> !StampAt(s, j)
  }

  /** The text of the first timestamp mark, without its brackets, or "" when there is none. */
  function FirstStamp(s: string): (ts: string)
    ensures ts == [] <==> forall k :: 0 <= k < |s| ==> !StampAt(s, k)
    ensures ts != [] ==> |ts| == 16 && exists k :: 0 <= k < |s| && FirstStampAt(s, k) && ts == s[k + 1..k + 17]
  {
    var p := (k: nat) => StampAt(s, k);
    match FirstFrom(p, 0, |s|)
    case None =>
      assert forall k :: 0 <= k < |s| ==> !StampAt(s, k) by {
        forall k | 0 <= k < |s| ensures !StampAt(s, k) {
          assert !p(k);
        }
      }
      []
    case Some(k) =>
      assert FirstStampAt(s, k) by {
        forall j | 0 <= j < k ensures !StampAt(s, j) {
          assert !p(j);
        }
      }
      s[k + 1..k + 17]
  }

  /** End of the run of digits starting at `i`. */
  function DigitRun(s: string, i: nat): (j: nat)
    requires i <= |s|
    ensures i <= j <= |s| && AllDigits(s[i..j]) && (j == |s| || !IsDigit(s[j]))
    decreases |s| - i
  {
    if i < |s| && IsDigit(s[i]) then
      var j := DigitRun(s, i + 1);
      assert s[i..j] == [s[i]] + s[i + 1..j];
      j
    else i
  }

  /** `[P<digits>]` starts at `k` (a capital P: this pattern is case-sensitive). */
  predicate PriorityAt(s: string, k: nat) {
    && k + 2 <= |s| && s[k] == '[' && s[k + 1] == 'P'
    && var j := DigitRun(s, k + 2);
       j > k + 2 && j < |s| && s[j] == ']'
  }

  /** Some priority mark occurs in `s`. */
  predicate HasPriority(s: string) {
    exists k :: 0 <= k < |s| && PriorityAt(s, k)
  }

  /** A priority mark starts at `k` and at no position before it: where re.search finds it. */
  predicate FirstPriorityAt(s: string, k: nat) {
    PriorityAt(s, k) && forall j :: 0 <= j < k ==> !PriorityAt(s, j)
  }

  /** The number of the first priority mark, if any. */
  function FirstPriority(s: string): (p: Option<nat>)
    ensures p.None? <==> forall k :: 0 <= k < |s| ==> !PriorityAt(s, k)
    ensures p.Some? ==> exists k :: 0 <= k < |s| && FirstPriorityAt(s, k) && p.value == DigitsValue(s[k + 2..DigitRun(s, k + 2)])
  {
    var p := (k: nat) => PriorityAt(s, k);
    match FirstFrom(p, 0, |s|)
    case None =>
      assert forall k :: 0 <= k < |s| ==> !PriorityAt(s, k) by {
        forall k | 0 <= k < |s| ensures !PriorityAt(s, k) {
          assert !p(k);
        }
      }
      None
    case Some(k) =>
      assert FirstPriorityAt(s, k) by {
        forall j | 0 <= j < k ensures !PriorityAt(s, j) {
          assert !p(j);
        }
      }
      Some(DigitsValue(s[k + 2..DigitRun(s, k + 2)]))
  }

  /**
   * `c` matches the lower-case letter `l` under re.IGNORECASE: an ASCII
   * letter in either case, and for `s` also U+017F LATIN SMALL LETTER LONG S,
   * which Python's case-insensitive matching treats as an `s`.
   */
  predicate FoldsTo(c: char, l: char) {
    LowerChar(c) == l || (l == 's' && c == 'ſ')
  }

  /** `[X]` or `[TRASH]`, in any case, starts at `k`. */
  predicate TrashAt(s: string, k: nat) {
    && k + 3 <= |s| && s[k] == '['
    && ((FoldsTo(s[k + 1], 'x') && s[k + 2] == ']')
        || (k + 7 <= |s| && FoldsTo(s[k + 1], 't') && FoldsTo(s[k + 2], 'r') && FoldsTo(s[k + 3], 'a')
            && FoldsTo(s[k + 4], 's') && FoldsTo(s[k + 5], 'h') && s[k + 6] == ']'))
  }

  /** Some trash mark occurs in `s`. */
  predicate HasTrashMark(s: string) {
    exists k :: 0 <= k < |s| && TrashAt(s, k)
  }

  /** Every mark starts with '[': a text without one holds no mark. */
  lemma NoBracketNoMarks(s: string)
    requires '[' !in s
    ensures FirstStamp(s) == [] && FirstPriority(s).None? && !HasTrashMark(s)
  {
    forall k | 0 <= k < |s| ensures !StampAt(s, k) && !PriorityAt(s, k) && !TrashAt(s, k) {
      assert s[k] in s;
    }
  }

  /** A mark found in a piece is found in any text that contains the piece. */
  lemma {:induction false} TrashMarkInContext(a: string, b: string, c: string)
    requires HasTrashMark(b)
    ensures HasTrashMark(a + b + c)
  {
    var k :| 0 <= k < |b| && TrashAt(b, k);
    var t := a + b + c;
    assert t[|a| + k..|a| + k + 3] == b[k..k + 3];
    if !(FoldsTo(b[k + 1], 'x') && b[k + 2] == ']') {
      assert t[|a| + k..|a| + k + 7] == b[k..k + 7];
    }
    assert TrashAt(t, |a| + k);
  }
}
