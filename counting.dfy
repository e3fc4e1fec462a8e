/**
 * `Series.value_counts()` and what is done with it: a tally of the distinct
 * values in the order they first appear (like the hash table behind it),
 * sorted by descending count, or by ascending key for `sort_index()`, and cut
 * to its first n entries by `head(n)`.
 */
module Counting {
  import opened Seqs

  /** No key has two entries. */
  ghost predicate DistinctKeys<K>(e: seq<(K, nat)>) {
    forall i, j :: 0 <= i < j < |e| ==> e[i].0 != e[j].0
  }

  /** Some entry has key `k`. */
  ghost predicate HasKey<K>(e: seq<(K, nat)>, k: K) {
    exists i :: 0 <= i < |e| && e[i].0 == k
  }

  /** The total of the counts. */
  function Sum<K>(e: seq<(K, nat)>): nat
    decreases |e|
  {
    if |e| == 0 then 0 else e[0].1 + Sum(e[1..])
  }

  predicate NonIncreasing<K>(e: seq<(K, nat)>) {
    forall i, j :: 0 <= i < j < |e| ==> e[i].1 >= e[j].1
  }

  predicate StrictlyAscending(e: seq<(int, nat)>) {
    forall i, j :: 0 <= i < j < |e| ==> e[i].0 < e[j].0
  }

  lemma DistinctKeysTail<K>(e: seq<(K, nat)>)
    requires |e| > 0 && DistinctKeys(e)
    ensures DistinctKeys(e[1..]) && !HasKey(e[1..], e[0].0)
  {
  }

  lemma HasKeyTail<K>(e: seq<(K, nat)>, k: K)
    requires |e| > 0 && e[0].0 != k
    ensures HasKey(e, k) <==> HasKey(e[1..], k)
  {
    if HasKey(e, k) {
      var j :| 0 <= j < |e| && e[j].0 == k;
      assert e[1..][j - 1].0 == k;
    }
    if HasKey(e[1..], k) {
      var j :| 0 <= j < |e| - 1 && e[1..][j].0 == k;
      assert e[j + 1].0 == k;
    }
  }

  /** Counting one more occurrence of `x`: its entry goes up by one, or a new entry `(x, 1)` is appended. */
  function Bump<K(==)>(e: seq<(K, nat)>, x: K): (r: seq<(K, nat)>)
    requires DistinctKeys(e)
    ensures |r| == if HasKey(e, x) then |e| else |e| + 1
    ensures forall i :: 0 <= i < |e| ==> r[i].0 == e[i].0 && r[i].1 == e[i].1 + (if e[i].0 == x then 1 else 0)
    ensures !HasKey(e, x) ==> r[|e|] == (x, 1)
    ensures Sum(r) == Sum(e) + 1
    decreases |e|
  {
    if |e| == 0 then [(x, 1)]
    else if e[0].0 == x then
      var r := [(x, e[0].1 + 1)] + e[1..];
      assert r[1..] == e[1..];
      assert HasKey(e, x) by { assert e[0].0 == x; }
      DistinctKeysTail(e);
      r
    else
      DistinctKeysTail(e);
      HasKeyTail(e, x);
      var rest := Bump(e[1..], x);
      var r := [e[0]] + rest;
      assert r[1..] == rest;
      r
  }

  /** After one more occurrence of `x` is counted, the tally of `xs` is a tally of `xs + [x]`. */
  lemma BumpTallies<K>(e: seq<(K, nat)>, xs: seq<K>, x: K)
    requires DistinctKeys(e)
    requires forall i :: 0 <= i < |xs| ==> HasKey(e, xs[i])
    requires forall i :: 0 <= i < |e| ==> e[i].0 in xs && e[i].1 == multiset(xs)[e[i].0]
    ensures var r := Bump(e, x);
      && DistinctKeys(r)
      && (forall i :: 0 <= i < |xs + [x]| ==> HasKey(r, (xs + [x])[i]))
      && (forall i :: 0 <= i < |r| ==> r[i].0 in xs + [x] && r[i].1 == multiset(xs + [x])[r[i].0])
  {
    var r, ys := Bump(e, x), xs + [x];
    forall i | 0 <= i < |r|
      ensures r[i].0 in ys && r[i].1 == multiset(ys)[r[i].0]
    {
      if i == |e| {
        assert x !in xs;
      }
    }
    forall i | 0 <= i < |ys|
      ensures HasKey(r, ys[i])
    {
      if i < |xs| {
        assert HasKey(e, xs[i]);
        var j :| 0 <= j < |e| && e[j].0 == xs[i];
        assert r[j].0 == ys[i];
      } else if HasKey(e, x) {
        var j :| 0 <= j < |e| && e[j].0 == x;
        assert r[j].0 == ys[i];
      } else {
        assert r[|e|].0 == ys[i];
      }
    }
    forall i, j | 0 <= i < j < |r|
      ensures r[i].0 != r[j].0
    {
      if j == |e| {
        assert e[i].0 != x;
      }
    }
  }

  /**
   * The distinct values of `xs` in order of first appearance, each with its
   * number of occurrences; the counts add up to the length of `xs`.
   */
  function Tally<K(==)>(xs: seq<K>): (r: seq<(K, nat)>)
    ensures DistinctKeys(r)
    ensures forall i :: 0 <= i < |xs| ==> HasKey(r, xs[i])
    ensures forall i :: 0 <= i < |r| ==> r[i].0 in xs && r[i].1 == multiset(xs)[r[i].0]
    ensures Sum(r) == |xs|
    decreases |xs|
  {
    if |xs| == 0 then []
    else
      var init, x := xs[..|xs| - 1], xs[|xs| - 1];
      assert xs == init + [x];
      BumpTallies(Tally(init), init, x);
      Bump(Tally(init), x)
  }

  /** Insertion of `p` before the first entry whose count is not larger: a stable step of a descending sort. */
  function InsertByCount<K>(p: (K, nat), s: seq<(K, nat)>): (r: seq<(K, nat)>)
    ensures |r| == |s| + 1
    ensures multiset(r) == multiset(s) + multiset{p}
    ensures forall i :: 0 <= i < |r| ==> r[i] == p || r[i] in s
    decreases |s|
  {
    if |s| == 0 then [p]
    else if p.1 >= s[0].1 then [p] + s
    else
      assert s == [s[0]] + s[1..];
      [s[0]] + InsertByCount(p, s[1..])
  }

  /** Inserting an entry no larger than `b` into entries no larger than `b` gives entries no larger than `b`. */
  lemma InsertByCountBounded<K>(p: (K, nat), s: seq<(K, nat)>, b: nat)
    requires p.1 <= b && forall i :: 0 <= i < |s| ==> s[i].1 <= b
    ensures forall i :: 0 <= i < |s| + 1 ==> InsertByCount(p, s)[i].1 <= b
  {
    var r := InsertByCount(p, s);
    forall i | 0 <= i < |r|
      ensures r[i].1 <= b
    {
      if r[i] != p {
        var k :| 0 <= k < |s| && s[k] == r[i];
      }
    }
  }

  lemma {:induction false} InsertByCountOrdered<K>(p: (K, nat), s: seq<(K, nat)>)
    requires NonIncreasing(s)
    ensures NonIncreasing(InsertByCount(p, s))
    decreases |s|
  {
    if |s| > 0 && p.1 < s[0].1 {
      var rest := InsertByCount(p, s[1..]);
      InsertByCountOrdered(p, s[1..]);
      InsertByCountBounded(p, s[1..], s[0].1);
      assert InsertByCount(p, s) == [s[0]] + rest;
    }
  }

  /** An entry whose key is new to a list of distinct keys can go in front. */
  lemma ConsDistinct<K>(x: (K, nat), s: seq<(K, nat)>)
    requires DistinctKeys(s) && !HasKey(s, x.0)
    ensures DistinctKeys([x] + s)
  {
    var r := [x] + s;
    forall i, j | 0 <= i < j < |r|
      ensures r[i].0 != r[j].0
    {
      assert r[j] == s[j - 1];
      if i > 0 {
        assert r[i] == s[i - 1];
      }
    }
  }

  /** Inserting an entry whose key is not `k` into a list without `k` gives a list without `k`. */
  lemma InsertByCountAvoids<K>(p: (K, nat), s: seq<(K, nat)>, k: K)
    requires p.0 != k && !HasKey(s, k)
    ensures !HasKey(InsertByCount(p, s), k)
  {
    var r := InsertByCount(p, s);
    forall i | 0 <= i < |r|
      ensures r[i].0 != k
    {
      if r[i] != p {
        var m :| 0 <= m < |s| && s[m] == r[i];
      }
    }
  }

  lemma {:induction false} InsertByCountDistinct<K>(p: (K, nat), s: seq<(K, nat)>)
    requires DistinctKeys(s) && !HasKey(s, p.0)
    ensures DistinctKeys(InsertByCount(p, s))
    decreases |s|
  {
    if |s| == 0 {
      ConsDistinct(p, s);
    } else if p.1 >= s[0].1 {
      ConsDistinct(p, s);
    } else {
      DistinctKeysTail(s);
      HasKeyTail(s, p.0);
      var rest := InsertByCount(p, s[1..]);
      InsertByCountDistinct(p, s[1..]);
      InsertByCountAvoids(p, s[1..], s[0].0);
      ConsDistinct(s[0], rest);
      assert InsertByCount(p, s) == [s[0]] + rest;
    }
  }

  /** A stable sort by descending count; it permutes the entries and never separates a key from its count. */
  function SortByCount<K>(e: seq<(K, nat)>): (r: seq<(K, nat)>)
    ensures |r| == |e|
    ensures multiset(r) == multiset(e)
    ensures forall i :: 0 <= i < |r| ==> r[i] in e
    decreases |e|
  {
    if |e| == 0 then []
    else
      assert e == [e[0]] + e[1..];
      InsertByCount(e[0], SortByCount(e[1..]))
  }

  lemma {:induction false} SortByCountOrdered<K>(e: seq<(K, nat)>)
    ensures NonIncreasing(SortByCount(e))
    ensures DistinctKeys(e) ==> DistinctKeys(SortByCount(e))
    decreases |e|
  {
    if |e| > 0 {
      var rest := SortByCount(e[1..]);
      SortByCountOrdered(e[1..]);
      InsertByCountOrdered(e[0], rest);
      if DistinctKeys(e) {
        DistinctKeysTail(e);
        assert !HasKey(rest, e[0].0);
        InsertByCountDistinct(e[0], rest);
      }
    }
  }

  /** Insertion of `p` into a list kept in ascending key order. */
  function InsertByKey(p: (int, nat), s: seq<(int, nat)>): (r: seq<(int, nat)>)
    ensures |r| == |s| + 1
    ensures multiset(r) == multiset(s) + multiset{p}
    ensures forall i :: 0 <= i < |r| ==> r[i] == p || r[i] in s
    decreases |s|
  {
    if |s| == 0 then [p]
    else if p.0 < s[0].0 then [p] + s
    else
      assert s == [s[0]] + s[1..];
      [s[0]] + InsertByKey(p, s[1..])
  }

  /** An entry whose key is below every key of an ascending list can go in front. */
  lemma ConsAscending(x: (int, nat), s: seq<(int, nat)>)
    requires StrictlyAscending(s) && forall i :: 0 <= i < |s| ==> x.0 < s[i].0
    ensures StrictlyAscending([x] + s)
  {
    var r := [x] + s;
    forall i, j | 0 <= i < j < |r|
      ensures r[i].0 < r[j].0
    {
      assert r[j] == s[j - 1];
      if i > 0 {
        assert r[i] == s[i - 1];
      }
    }
  }

  /** Inserting an entry with a key above `b` into entries with keys above `b` gives entries with keys above `b`. */
  lemma InsertByKeyAbove(p: (int, nat), s: seq<(int, nat)>, b: int)
    requires b < p.0 && forall i :: 0 <= i < |s| ==> b < s[i].0
    ensures forall i :: 0 <= i < |s| + 1 ==> b < InsertByKey(p, s)[i].0
  {
    var r := InsertByKey(p, s);
    forall i | 0 <= i < |r|
      ensures b < r[i].0
    {
      if r[i] != p {
        var k :| 0 <= k < |s| && s[k] == r[i];
      }
    }
  }

  lemma {:induction false} InsertByKeyOrdered(p: (int, nat), s: seq<(int, nat)>)
    requires StrictlyAscending(s) && !HasKey(s, p.0)
    ensures StrictlyAscending(InsertByKey(p, s))
    decreases |s|
  {
    if |s| == 0 {
      ConsAscending(p, s);
    } else if p.0 < s[0].0 {
      assert forall i :: 0 <= i < |s| ==> p.0 < s[i].0 by {
        forall i | 0 <= i < |s| ensures p.0 < s[i].0 {
          if i > 0 {
            assert s[0].0 < s[i].0;
          }
        }
      }
      ConsAscending(p, s);
    } else {
      assert p.0 != s[0].0;
      HasKeyTail(s, p.0);
      var rest := InsertByKey(p, s[1..]);
      InsertByKeyOrdered(p, s[1..]);
      assert forall i :: 0 <= i < |s| - 1 ==> s[0].0 < s[1..][i].0 by {
        forall i | 0 <= i < |s| - 1 ensures s[0].0 < s[1..][i].0 {
          assert s[1..][i] == s[i + 1];
        }
      }
      InsertByKeyAbove(p, s[1..], s[0].0);
      ConsAscending(s[0], rest);
      assert InsertByKey(p, s) == [s[0]] + rest;
    }
  }

  /** A sort by ascending key. */
  function SortByKey(e: seq<(int, nat)>): (r: seq<(int, nat)>)
    ensures |r| == |e|
    ensures multiset(r) == multiset(e)
    ensures forall i :: 0 <= i < |r| ==> r[i] in e
    decreases |e|
  {
    if |e| == 0 then []
    else
      assert e == [e[0]] + e[1..];
      InsertByKey(e[0], SortByKey(e[1..]))
  }

  lemma {:induction false} SortByKeyOrdered(e: seq<(int, nat)>)
    requires DistinctKeys(e)
    ensures StrictlyAscending(SortByKey(e))
    decreases |e|
  {
    if |e| > 0 {
      var rest := SortByKey(e[1..]);
      DistinctKeysTail(e);
      SortByKeyOrdered(e[1..]);
      assert !HasKey(rest, e[0].0);
      InsertByKeyOrdered(e[0], rest);
    }
  }

  /** `head(n)`: the first `n` entries, or all of them when there are fewer. */
  function Take<T>(s: seq<T>, n: nat): (r: seq<T>)
    ensures |r| <= n && |r| <= |s|
    ensures |s| > n ==> |r| == n
    ensures |s| <= n ==> r == s
    ensures forall i :: 0 <= i < |r| ==> r[i] == s[i]
  {
    if |s| <= n then s else s[..n]
  }

  /**
   * `value_counts().head(n)`: at most `n` distinct values with their number
   * of occurrences, by non-increasing count; a value left out occurs no
   * more often than any value listed, and is left out only when the list is full.
   */
  function TopN<K(==)>(xs: seq<K>, n: nat): (r: seq<(K, nat)>)
    ensures |r| <= n
    ensures NonIncreasing(r)
    ensures DistinctKeys(r)
    ensures forall i :: 0 <= i < |r| ==> r[i].0 in xs && r[i].1 == multiset(xs)[r[i].0]
    ensures forall i :: 0 <= i < |xs| && !HasKey(r, xs[i]) ==>
      |r| == n && forall j :: 0 <= j < |r| ==> multiset(xs)[xs[i]] <= r[j].1
    ensures |xs| == 0 ==> r == []
  {
    TakeOfSorted(xs, n);
    UnlistedAreSmaller(xs, n);
    Take(SortByCount(Tally(xs)), n)
  }

  /** The value at position `k`, when `TopN` leaves it out, occurs no more often than any listed value. */
  lemma UnlistedInTopN<K>(xs: seq<K>, n: nat, k: nat)
    requires k < |xs| && !HasKey(TopN(xs, n), xs[k])
    ensures |TopN(xs, n)| == n
    ensures forall j :: 0 <= j < |TopN(xs, n)| ==> multiset(xs)[xs[k]] <= TopN(xs, n)[j].1
  {
  }

  lemma UnlistedAreSmaller<K>(xs: seq<K>, n: nat)
    ensures var r := Take(SortByCount(Tally(xs)), n);
      forall i :: 0 <= i < |xs| && !HasKey(r, xs[i]) ==>
        |r| == n && forall j :: 0 <= j < |r| ==> multiset(xs)[xs[i]] <= r[j].1
  {
    forall i | 0 <= i < |xs| && !HasKey(Take(SortByCount(Tally(xs)), n), xs[i])
      ensures var r := Take(SortByCount(Tally(xs)), n);
        |r| == n && forall j :: 0 <= j < |r| ==> multiset(xs)[xs[i]] <= r[j].1
    {
      UnlistedIsSmaller(xs, n, i);
    }
  }

  lemma TakeOfSorted<K>(xs: seq<K>, n: nat)
    ensures var r := Take(SortByCount(Tally(xs)), n);
      && NonIncreasing(r)
      && DistinctKeys(r)
      && (forall i :: 0 <= i < |r| ==> r[i].0 in xs && r[i].1 == multiset(xs)[r[i].0])
  {
    var tally := Tally(xs);
    var sorted := SortByCount(tally);
    SortByCountOrdered(tally);
    var r := Take(sorted, n);
    forall i | 0 <= i < |r|
      ensures r[i].0 in xs && r[i].1 == multiset(xs)[r[i].0]
    {
      assert r[i] == sorted[i] && sorted[i] in tally;
    }
  }

  lemma UnlistedIsSmaller<K>(xs: seq<K>, n: nat, i: nat)
    requires i < |xs|
    requires !HasKey(Take(SortByCount(Tally(xs)), n), xs[i])
    ensures var r := Take(SortByCount(Tally(xs)), n);
      |r| == n && forall j :: 0 <= j < |r| ==> multiset(xs)[xs[i]] <= r[j].1
  {
    var p := TallyEntry(xs, i);
    SortByCountOrdered(Tally(xs));
    OmittedEntryIsSmaller(Tally(xs), SortByCount(Tally(xs)), n, p);
  }

  /** The tally entry of the value at position `i`. */
  lemma TallyEntry<K>(xs: seq<K>, i: nat) returns (p: (K, nat))
    requires i < |xs|
    ensures p in Tally(xs) && p.0 == xs[i] && p.1 == multiset(xs)[xs[i]]
  {
    var tally := Tally(xs);
    assert HasKey(tally, xs[i]);
    var t :| 0 <= t < |tally| && tally[t].0 == xs[i];
    p := tally[t];
  }

  /** An entry of a list sorted by non-increasing count that `Take` leaves out is no larger than any entry kept. */
  lemma OmittedEntryIsSmaller<K>(e: seq<(K, nat)>, sorted: seq<(K, nat)>, n: nat, p: (K, nat))
    requires multiset(sorted) == multiset(e) && NonIncreasing(sorted)
    requires p in e && !HasKey(Take(sorted, n), p.0)
    ensures |Take(sorted, n)| == n
    ensures forall j :: 0 <= j < |Take(sorted, n)| ==> p.1 <= Take(sorted, n)[j].1
  {
    var r := Take(sorted, n);
    assert p in multiset(sorted);
    var q :| 0 <= q < |sorted| && sorted[q] == p;
    assert q >= |r|;
    forall j | 0 <= j < |r|
      ensures p.1 <= r[j].1
    {
      assert r[j] == sorted[j];
    }
  }
}
