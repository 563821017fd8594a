/**
 * The result records and their ranking: the comparator handed to
 * `Array.prototype.sort` (count descending, then key ascending) and a
 * sort that meets it.
 */
module Ranking {

  /** One line of the result list: the key, its display label and the
      number of users who entered it. */
  datatype MatchResult = MatchResult(value: string, original: string, count: nat)

  /** `a.localeCompare(b) < 0` for keys over `[a-z0-9]`: in the default
      collation digits come before letters and letters in alphabetical
      order, which is ordinal order on these characters; a proper prefix
      comes first. */
  predicate LexLess(a: string, b: string)
    decreases |a|
  {
    if a == [] then b != []
    else b != [] && (a[0] < b[0] || (a[0] == b[0] && LexLess(a[1..], b[1..])))
  }

  /** `a.localeCompare(b)` as -1, 0 or 1. */
  function LocaleCompare(a: string, b: string): (r: int)
    ensures r == 0 <==> a == b
  {
    LexLessIrreflexive(a);
    LexLessTotal(a, b);
    if LexLess(a, b) then -1 else if a == b then 0 else 1
  }

  lemma {:induction false} LexLessIrreflexive(a: string)
    ensures !LexLess(a, a)
    decreases |a|
  {
    if a != [] {
      LexLessIrreflexive(a[1..]);
    }
  }

  lemma {:induction false} LexLessTotal(a: string, b: string)
    ensures a == b || LexLess(a, b) || LexLess(b, a)
    decreases |a|
  {
    if a != [] && b != [] && a[0] == b[0] {
      LexLessTotal(a[1..], b[1..]);
      if a[1..] == b[1..] {
        assert a == [a[0]] + a[1..] && b == [b[0]] + b[1..];
      }
    }
  }

  lemma {:induction false} LexLessAsymmetric(a: string, b: string)
    ensures !(LexLess(a, b) && LexLess(b, a))
    decreases |a|
  {
    if a != [] && b != [] && a[0] == b[0] {
      LexLessAsymmetric(a[1..], b[1..]);
    }
  }

  lemma {:induction false} LexLessTransitive(a: string, b: string, c: string)
    requires LexLess(a, b) && LexLess(b, c)
    ensures LexLess(a, c)
    decreases |a|
  {
    if a != [] && a[0] == b[0] && b[0] == c[0] {
      LexLessTransitive(a[1..], b[1..], c[1..]);
    }
  }

  /** The comparator of the sort: negative when `a` goes before `b`. */
  function Compare(a: MatchResult, b: MatchResult): (r: int)
    ensures r == 0 <==> a.count == b.count && a.value == b.value
  {
    if b.count != a.count then b.count - a.count
    else LocaleCompare(a.value, b.value)
  }

  /** `a` goes strictly before `b`. */
  predicate Before(a: MatchResult, b: MatchResult) {
    Compare(a, b) < 0
  }

  /** On records with different keys the comparator is a strict total
      order, so the sorted order does not depend on the sort used. */
  lemma BeforeStrictTotal(a: MatchResult, b: MatchResult, c: MatchResult)
    ensures !Before(a, a)
    ensures a.value != b.value ==> Before(a, b) || Before(b, a)
    ensures !(Before(a, b) && Before(b, a))
    ensures Before(a, b) && Before(b, c) ==> Before(a, c)
  {
    LexLessTotal(a.value, b.value);
    LexLessAsymmetric(a.value, b.value);
    if Before(a, b) && Before(b, c) && a.count == b.count == c.count {
      LexLessTransitive(a.value, b.value, c.value);
    }
  }

  /** Strictly ordered: count descending, then key ascending, no key twice. */
  predicate Sorted(rs: seq<MatchResult>) {
    forall i, j :: 0 <= i < j < |rs| ==> Before(rs[i], rs[j])
  }

  /** In a sorted list a record never has a smaller count than a later
      one, and of two records with the same count the earlier has the
      smaller key. */
  lemma SortedMeaning(rs: seq<MatchResult>, i: nat, j: nat)
    requires Sorted(rs) && i < j < |rs|
    ensures rs[i].count >= rs[j].count
    ensures rs[i].count == rs[j].count ==> LexLess(rs[i].value, rs[j].value)
  {
  }

  predicate DistinctValues(rs: seq<MatchResult>) {
    forall i, j :: 0 <= i < j < |rs| ==> rs[i].value != rs[j].value
  }

  function Insert(r: MatchResult, rs: seq<MatchResult>): (s: seq<MatchResult>)
    requires Sorted(rs)
    requires forall i :: 0 <= i < |rs| ==> rs[i].value != r.value
    ensures Sorted(s)
    ensures multiset(s) == multiset(rs) + multiset{r}
    decreases |rs|
  {
    if rs == [] then [r]
    else if Before(r, rs[0]) then
      InsertFront(r, rs);
      [r] + rs
    else
      var tail := Insert(r, rs[1..]);
      InsertBehind(r, rs, tail);
      [rs[0]] + tail
  }

  /** A record that goes before the first one goes before all of them. */
  lemma InsertFront(r: MatchResult, rs: seq<MatchResult>)
    requires Sorted(rs) && rs != [] && Before(r, rs[0])
    ensures Sorted([r] + rs)
  {
    forall j | 0 < j < |rs| ensures Before(r, rs[j]) {
      BeforeStrictTotal(r, rs[0], rs[j]);
    }
  }

  /** A record that does not go before the first one is inserted in the
      rest, behind the first one. */
  lemma InsertBehind(r: MatchResult, rs: seq<MatchResult>, tail: seq<MatchResult>)
    requires Sorted(rs) && rs != [] && !Before(r, rs[0]) && r.value != rs[0].value
    requires Sorted(tail) && multiset(tail) == multiset(rs[1..]) + multiset{r}
    ensures Sorted([rs[0]] + tail)
    ensures multiset([rs[0]] + tail) == multiset(rs) + multiset{r}
  {
    BeforeStrictTotal(r, rs[0], r);
    assert rs == [rs[0]] + rs[1..];
    forall j | 0 <= j < |tail| ensures Before(rs[0], tail[j]) {
      assert tail[j] in multiset(tail);
      if tail[j] != r {
        assert tail[j] in multiset(rs[1..]);
        var k :| 1 <= k < |rs| && rs[k] == tail[j];
      }
    }
  }

  /** The ranking sort, as an insertion sort: the result is in the
      comparator's order and holds exactly the given records. */
  function SortResults(rs: seq<MatchResult>): (s: seq<MatchResult>)
    requires DistinctValues(rs)
    ensures Sorted(s)
    ensures multiset(s) == multiset(rs)
    decreases |rs|
  {
    if rs == [] then []
    else
      var init := rs[..|rs| - 1];
      var last := rs[|rs| - 1];
      var sorted := SortResults(init);
      assert forall i :: 0 <= i < |sorted| ==> sorted[i].value != last.value by {
        forall i | 0 <= i < |sorted| ensures sorted[i].value != last.value {
          assert sorted[i] in multiset(init);
          var k :| 0 <= k < |init| && init[k] == sorted[i];
        }
      }
      assert rs == init + [last];
      Insert(last, sorted)
  }

  /** Two sequences in the comparator's order that hold the same records
      are equal: a sorted result is determined by its set of records. */
  lemma {:induction false} SortedUnique(a: seq<MatchResult>, b: seq<MatchResult>)
    requires Sorted(a) && Sorted(b)
    requires forall x :: x in a <==> x in b
    ensures a == b
    decreases |a|
  {
    if b != [] {
      assert b[0] in a;
    }
    if a != [] {
      assert a[0] in b;
      if a[0] != b[0] {
        var i :| 0 <= i < |a| && a[i] == b[0];
        var j :| 0 <= j < |b| && b[j] == a[0];
        BeforeStrictTotal(a[0], b[0], a[0]);
        assert false;
      }
      forall x ensures x in a[1..] <==> x in b[1..] {
        if x in a[1..] {
          var i :| 1 <= i < |a| && a[i] == x;
          BeforeStrictTotal(a[0], x, a[0]);
          assert x in b;
        }
        if x in b[1..] {
          var j :| 1 <= j < |b| && b[j] == x;
          BeforeStrictTotal(b[0], x, b[0]);
          assert x in a;
        }
      }
      SortedUnique(a[1..], b[1..]);
      assert a == [a[0]] + a[1..] && b == [b[0]] + b[1..];
    }
  }

  /** Three keys entered by 1, 3 and 3 users: any ranking of them puts
      the two shared ones first, tied on count and so in key order, then
      the single one. */
  lemma RankingOrderExample(s: seq<MatchResult>)
    requires Sorted(s)
    requires multiset(s) == multiset([MatchResult("a", "A", 1), MatchResult("b", "B", 3), MatchResult("c", "C", 3)])
    ensures s == [MatchResult("b", "B", 3), MatchResult("c", "C", 3), MatchResult("a", "A", 1)]
  {
    var a, b, c := MatchResult("a", "A", 1), MatchResult("b", "B", 3), MatchResult("c", "C", 3);
    ExampleOrder(a, b, c);
    SortedUnique(s, [b, c, a]);
  }

  lemma ExampleOrder(a: MatchResult, b: MatchResult, c: MatchResult)
    requires a == MatchResult("a", "A", 1) && b == MatchResult("b", "B", 3) && c == MatchResult("c", "C", 3)
    ensures Sorted([b, c, a])
    ensures multiset([b, c, a]) == multiset([a, b, c])
  {
    assert LexLess(b.value, c.value);
    assert Before(b, c) && Before(b, a) && Before(c, a);
  }
}
