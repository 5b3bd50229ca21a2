/** The "past records" views. The calendar overview lists, in the store's
    own key order (`Object.entries`), each date whose list is non-empty with
    its task count. The "all past todos" view sorts the entries newest date
    first and shows those with a non-empty list, each with its full list.

    A Dafny map has no key order, so the order `Object.entries` yields is a
    parameter: any sequence listing each date of the store once. The source
    sorts by `new Date(key)`; the model sorts by the keys' string order,
    which `DateKeyOrderIsCalendarOrder` shows to be (year, month, day) order
    on every "YYYY-MM-DD" key. On keys that name a real calendar day, that
    is the order of the `Date` values. */
module PastRecords {
  import opened Tasks
  import opened TaskStore

  /** `order` lists every date of `s` exactly once. */
  predicate Enumerates(order: seq<string>, s: Store) {
    && (forall i :: 0 <= i < |order| ==> order[i] in s)
    && (forall d :: d in s ==> d in order)
    && (forall i, j :: 0 <= i < j < |order| ==> order[i] != order[j])
  }

  // ---------------------------------------------------------------------
  // The calendar overview

  /** The dates of a list of (date, count) pairs. */
  function DatesOf(r: seq<(string, nat)>): seq<string> {
    if r == [] then [] else [r[0].0] + DatesOf(r[1..])
  }

  /** `Object.entries(allTodos).map(([date, list]) => list.length > 0 ? … : null)`:
      the dates with a non-empty list, in enumeration order, each with its
      number of tasks. */
  function Overview(s: Store, order: seq<string>): (r: seq<(string, nat)>)
    requires forall i :: 0 <= i < |order| ==> order[i] in s
    ensures IsSubsequence(DatesOf(r), order)
    ensures forall p :: p in r <==> p.0 in order && s[p.0] != [] && p.1 == |s[p.0]|
  {
    if order == [] then []
    else
      var d := order[0];
      var rest := Overview(s, order[1..]);
      assert forall x :: x in order <==> x == d || x in order[1..];
      if s[d] != [] then
        assert DatesOf([(d, |s[d]|)] + rest) == [d] + DatesOf(rest);
        [(d, |s[d]|)] + rest
      else
        rest
  }

  /** With an enumeration of the store, the overview names every date whose
      list is non-empty, and no other. */
  lemma OverviewCoversNonEmptyDates(s: Store, order: seq<string>)
    requires Enumerates(order, s)
    ensures forall d :: d in s && s[d] != [] ==> (d, |s[d]|) in Overview(s, order)
    ensures forall p :: p in Overview(s, order) ==> p.0 in s && s[p.0] != []
  {
  }

  // ---------------------------------------------------------------------
  // String order on date-keys

  /** Lexicographic order on strings, by character code. */
  predicate Before(a: string, b: string) {
    if a == [] then b != []
    else if b == [] then false
    else a[0] < b[0] || (a[0] == b[0] && Before(a[1..], b[1..]))
  }

  lemma {:induction false} BeforeIrreflexive(a: string)
    ensures !Before(a, a)
  {
    if a != [] {
      BeforeIrreflexive(a[1..]);
    }
  }

  lemma {:induction false} BeforeTransitive(a: string, b: string, c: string)
    requires Before(a, b) && Before(b, c)
    ensures Before(a, c)
  {
    if a != [] && b != [] && c != [] && a[0] == b[0] == c[0] {
      BeforeTransitive(a[1..], b[1..], c[1..]);
    }
  }

  lemma {:induction false} BeforeTotal(a: string, b: string)
    ensures a == b || Before(a, b) || Before(b, a)
    ensures !(Before(a, b) && Before(b, a))
  {
    if a != [] && b != [] {
      BeforeTotal(a[1..], b[1..]);
      if a[0] == b[0] && a[1..] == b[1..] {
        assert a == [a[0]] + a[1..] && b == [b[0]] + b[1..];
      }
    }
  }

  /** "Not before" is transitive, so it can order a sort. */
  lemma NotBeforeTransitive(a: string, b: string, c: string)
    requires !Before(a, b) && !Before(b, c)
    ensures !Before(a, c)
  {
    BeforeTotal(a, b);
    BeforeTotal(b, c);
    BeforeTotal(a, c);
    if a != b && b != c {
      BeforeTransitive(c, b, a);
    }
  }

  // ---------------------------------------------------------------------
  // Sorting newest first

  type Entry = (string, seq<Task>)

  /** Each entry's date is not before any later entry's date. */
  ghost predicate NewestFirst(r: seq<Entry>) {
    forall i, j :: 0 <= i < j < |r| ==> !Before(r[i].0, r[j].0)
  }

  /** Inserts `e` into a newest-first list, ahead of the first entry whose
      date is not after `e`'s. */
  function Insert(e: Entry, r: seq<Entry>): (q: seq<Entry>)
    ensures multiset(q) == multiset(r) + multiset{e}
  {
    if r == [] then [e]
    else if !Before(e.0, r[0].0) then [e] + r
    else
      assert r == [r[0]] + r[1..];
      [r[0]] + Insert(e, r[1..])
  }

  lemma {:induction false} InsertNewestFirst(e: Entry, r: seq<Entry>)
    requires NewestFirst(r)
    ensures NewestFirst(Insert(e, r))
  {
    if r != [] {
      if !Before(e.0, r[0].0) {
        forall k | 0 <= k < |r| ensures !Before(e.0, r[k].0) {
          if k > 0 {
            NotBeforeTransitive(e.0, r[0].0, r[k].0);
          }
        }
        var q := [e] + r;
        forall i, j | 0 <= i < j < |q| ensures !Before(q[i].0, q[j].0) {
          assert q[j] == r[j - 1];
          if i > 0 {
            assert q[i] == r[i - 1];
          }
        }
      } else {
        var tail := r[1..];
        assert NewestFirst(tail) by {
          forall i, j | 0 <= i < j < |tail| ensures !Before(tail[i].0, tail[j].0) {
            assert tail[i] == r[i + 1] && tail[j] == r[j + 1];
          }
        }
        InsertNewestFirst(e, tail);
        var rest := Insert(e, tail);
        BeforeTotal(e.0, r[0].0);
        forall x | x in rest ensures !Before(r[0].0, x.0) {
          assert x in multiset(rest);
          if x != e {
            assert x in multiset(tail);
            var k :| 0 <= k < |tail| && tail[k] == x;
            assert r[k + 1] == x;
          }
        }
        var q := [r[0]] + rest;
        forall i, j | 0 <= i < j < |q| ensures !Before(q[i].0, q[j].0) {
          assert q[j] == rest[j - 1] && rest[j - 1] in rest;
          if i > 0 {
            assert q[i] == rest[i - 1];
          }
        }
      }
    }
  }

  /** `.sort((a, b) => new Date(b[0]) - new Date(a[0]))`: the same entries,
      newest date first. */
  function SortNewestFirst(es: seq<Entry>): (r: seq<Entry>)
    ensures multiset(r) == multiset(es)
    ensures NewestFirst(r)
  {
    if es == [] then []
    else
      assert es == [es[0]] + es[1..];
      var sorted := SortNewestFirst(es[1..]);
      InsertNewestFirst(es[0], sorted);
      Insert(es[0], sorted)
  }

  /** `Object.entries(allTodos)` in the enumeration order. */
  function Entries(s: Store, order: seq<string>): (r: seq<Entry>)
    requires forall i :: 0 <= i < |order| ==> order[i] in s
    ensures |r| == |order|
    ensures forall i :: 0 <= i < |r| ==> r[i] == (order[i], s[order[i]])
    ensures forall e :: e in r <==> e.0 in order && e.1 == s[e.0]
  {
    if order == [] then []
    else
      assert forall d :: d in order <==> d == order[0] || d in order[1..];
      [(order[0], s[order[0]])] + Entries(s, order[1..])
  }

  /** The entries whose list is non-empty, in their order. */
  function NonEmpty(es: seq<Entry>): (r: seq<Entry>)
    ensures IsSubsequence(r, es)
    ensures forall e :: e in r <==> e in es && e.1 != []
    ensures forall e :: multiset(r)[e] == if e.1 != [] then multiset(es)[e] else 0
  {
    if es == [] then []
    else
      assert es == [es[0]] + es[1..];
      if es[0].1 != [] then [es[0]] + NonEmpty(es[1..])
      else NonEmpty(es[1..])
  }

  /** No two entries share a date. */
  predicate DistinctDates(r: seq<Entry>) {
    forall i, j :: 0 <= i < j < |r| ==> r[i].0 != r[j].0
  }

  /** In a list without repeated dates, no entry occurs twice. */
  lemma {:induction false} DistinctDatesOccurOnce(r: seq<Entry>, e: Entry)
    requires DistinctDates(r)
    ensures multiset(r)[e] <= 1
  {
    if r != [] {
      var tail := r[1..];
      assert DistinctDates(tail) by {
        forall i, j | 0 <= i < j < |tail| ensures tail[i].0 != tail[j].0 {
          assert tail[i] == r[i + 1] && tail[j] == r[j + 1];
        }
      }
      DistinctDatesOccurOnce(tail, e);
      assert r == [r[0]] + tail;
    }
  }

  /** A list that holds each entry at most as often as a list without
      repeated dates has no repeated dates either. */
  lemma FewerCopiesKeepDistinctDates(a: seq<Entry>, b: seq<Entry>)
    requires DistinctDates(b)
    requires forall e :: multiset(a)[e] <= multiset(b)[e]
    ensures DistinctDates(a)
  {
    forall i, j | 0 <= i < j < |a| ensures a[i].0 != a[j].0 {
      assert a[i] in multiset(b) && a[j] in multiset(b);
      var k :| 0 <= k < |b| && b[k] == a[i];
      var l :| 0 <= l < |b| && b[l] == a[j];
      if a[i].0 == a[j].0 {
        assert k == l;
        assert a == a[..j] + a[j..];
        assert a[i] in a[..j] && a[j] in a[j..];
        assert multiset(a)[a[i]] >= 2;
        DistinctDatesOccurOnce(b, a[i]);
      }
    }
  }

  /** A subsequence of a newest-first list is newest-first. */
  lemma {:induction false} SubsequenceNewestFirst(a: seq<Entry>, b: seq<Entry>)
    requires IsSubsequence(a, b) && NewestFirst(b)
    ensures NewestFirst(a)
    decreases |b|
  {
    if a != [] {
      var tb := b[1..];
      assert NewestFirst(tb) by {
        forall i, j | 0 <= i < j < |tb| ensures !Before(tb[i].0, tb[j].0) {
          assert tb[i] == b[i + 1] && tb[j] == b[j + 1];
        }
      }
      if a[0] == b[0] && IsSubsequence(a[1..], tb) {
        SubsequenceNewestFirst(a[1..], tb);
        SubsequenceElements(a[1..], tb);
        forall i, j | 0 <= i < j < |a| ensures !Before(a[i].0, a[j].0) {
          assert a[j] == a[1..][j - 1] && a[j] in a[1..];
          if i == 0 {
            var k :| 0 <= k < |tb| && tb[k] == a[j];
            assert b[k + 1] == a[j];
          } else {
            assert a[i] == a[1..][i - 1];
          }
        }
      } else {
        SubsequenceNewestFirst(a, tb);
      }
    }
  }

  /** The "all past todos" view: exactly the dates with a non-empty list,
      each paired with its whole list, newest date first. */
  function PastTodos(s: Store, order: seq<string>): (r: seq<Entry>)
    requires Enumerates(order, s)
    ensures NewestFirst(r)
    ensures forall e :: e in r <==> e.0 in s && e.1 == s[e.0] && e.1 != []
    ensures forall i, j :: 0 <= i < j < |r| ==> r[i].0 != r[j].0
  {
    var es := Entries(s, order);
    var sorted := SortNewestFirst(es);
    var r := NonEmpty(sorted);
    SubsequenceNewestFirst(r, sorted);
    assert forall e :: e in sorted <==> e in multiset(sorted);
    assert forall e :: e in es <==> e in multiset(es);
    assert DistinctDates(es);
    FewerCopiesKeepDistinctDates(sorted, es);
    FewerCopiesKeepDistinctDates(r, sorted);
    r
  }

  // ---------------------------------------------------------------------
  // String order agrees with calendar order on "YYYY-MM-DD" keys

  predicate IsDigit(c: char) {
    '0' <= c <= '9'
  }

  predicate AllDigits(s: string) {
    forall i :: 0 <= i < |s| ==> IsDigit(s[i])
  }

  /** A key as the date input and `toISOString().split('T')[0]` write it. */
  predicate IsDateKey(s: string) {
    && |s| == 10 && s[4] == '-' && s[7] == '-'
    && AllDigits(s[..4]) && AllDigits(s[5..7]) && AllDigits(s[8..])
  }

  function Pow10(n: nat): (p: nat)
    ensures p >= 1
  {
    if n == 0 then 1 else 10 * Pow10(n - 1)
  }

  /** The decimal number a string of digits spells. */
  function DigitsValue(s: string): (v: nat)
    requires AllDigits(s)
    ensures v < Pow10(|s|)
  {
    if s == [] then 0
    else
      var d := s[0] as int - '0' as int;
      var rest := DigitsValue(s[1..]);
      assert d * Pow10(|s| - 1) + rest < (d + 1) * Pow10(|s| - 1);
      assert (d + 1) * Pow10(|s| - 1) <= 10 * Pow10(|s| - 1);
      d * Pow10(|s| - 1) + rest
  }

  function Year(s: string): nat requires IsDateKey(s) { DigitsValue(s[..4]) }
  function Month(s: string): nat requires IsDateKey(s) { DigitsValue(s[5..7]) }
  function Day(s: string): nat requires IsDateKey(s) { DigitsValue(s[8..]) }

  /** Date `a` is an earlier calendar day than date `b`. */
  predicate EarlierDay(a: string, b: string)
    requires IsDateKey(a) && IsDateKey(b)
  {
    || Year(a) < Year(b)
    || (Year(a) == Year(b) && Month(a) < Month(b))
    || (Year(a) == Year(b) && Month(a) == Month(b) && Day(a) < Day(b))
  }

  /** A leading digit outweighs every digit string after it. */
  lemma HeadDominates(dp: int, dq: int, rp: int, rq: int, n: int)
    requires 0 <= dp < dq && 0 <= rp < n && 0 <= rq < n
    ensures dp * n + rp < dq * n + rq
    decreases dq - dp
  {
    assert (dp + 1) * n == dp * n + n;
    if dp + 1 < dq {
      HeadDominates(dp + 1, dq, rp, rq, n);
    }
  }

  /** On digit strings of one length, string order is numeric order, and
      equal numbers are equal strings. */
  lemma {:induction false} DigitsOrder(p: string, q: string)
    requires AllDigits(p) && AllDigits(q) && |p| == |q|
    ensures Before(p, q) <==> DigitsValue(p) < DigitsValue(q)
    ensures p == q <==> DigitsValue(p) == DigitsValue(q)
  {
    if p != [] {
      var p1, q1 := p[1..], q[1..];
      assert AllDigits(p1) && AllDigits(q1) by {
        assert forall i :: 0 <= i < |p1| ==> p1[i] == p[i + 1] && q1[i] == q[i + 1];
      }
      DigitsOrder(p1, q1);
      var n := Pow10(|p| - 1);
      var dp, dq := p[0] as int - '0' as int, q[0] as int - '0' as int;
      var rp, rq := DigitsValue(p1), DigitsValue(q1);
      assert DigitsValue(p) == dp * n + rp && DigitsValue(q) == dq * n + rq;
      if dp < dq {
        HeadDominates(dp, dq, rp, rq, n);
      } else if dq < dp {
        HeadDominates(dq, dp, rq, rp, n);
      } else {
        assert p[0] == q[0];
        if p1 == q1 {
          assert p == [p[0]] + p1 && q == [q[0]] + q1;
        }
      }
    }
  }

  /** Comparing two strings that start with parts of one length compares
      the first parts, then the rest. */
  lemma {:induction false} BeforeConcat(p: string, q: string, p': string, q': string)
    requires |p| == |p'|
    ensures Before(p + q, p' + q') <==> Before(p, p') || (p == p' && Before(q, q'))
  {
    if p != [] {
      assert (p + q)[1..] == p[1..] + q && (p' + q')[1..] == p'[1..] + q';
      BeforeConcat(p[1..], q, p'[1..], q');
      if p[0] == p'[0] && p[1..] == p'[1..] {
        assert p == [p[0]] + p[1..] && p' == [p'[0]] + p'[1..];
      }
      BeforeIrreflexive(p);
    } else {
      assert p + q == q && p' + q' == q';
    }
  }

  /** On "YYYY-MM-DD" keys, one key comes before another in string order
      exactly when its (year, month, day) triple is smaller. For keys naming
      real calendar days, sorting by `new Date(key)` and by the key string
      therefore give the same order. */
  lemma DateKeyOrderIsCalendarOrder(a: string, b: string)
    requires IsDateKey(a) && IsDateKey(b)
    ensures Before(a, b) <==> EarlierDay(a, b)
  {
    DigitsOrder(a[..4], b[..4]);
    DigitsOrder(a[5..7], b[5..7]);
    DigitsOrder(a[8..], b[8..]);
    assert a == a[..4] + a[4..] && b == b[..4] + b[4..];
    BeforeConcat(a[..4], a[4..], b[..4], b[4..]);
    assert a[4..][1..] == a[5..] && b[4..][1..] == b[5..];
    assert Before(a[4..], b[4..]) <==> Before(a[5..], b[5..]);
    assert a[5..] == a[5..7] + a[7..] && b[5..] == b[5..7] + b[7..];
    BeforeConcat(a[5..7], a[7..], b[5..7], b[7..]);
    assert a[7..][1..] == a[8..] && b[7..][1..] == b[8..];
    assert Before(a[7..], b[7..]) <==> Before(a[8..], b[8..]);
  }
}
