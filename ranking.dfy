/**
 * Summary tables as sequences of (label, value) entries, the descending sort
 * `sort_values(ascending=False)` and the prefix `head(n)`.
 */
module Ranking {
  import opened Wrappers

  /** The labels of a summary table. */
  function Keys<V(==)>(s: seq<(string, V)>): set<string>
  {
    set e | e in s :: e.0
  }

  /** Every label occurs at most once. */
  predicate DistinctKeys<V>(s: seq<(string, V)>)
  {
    forall i, j :: 0 <= i < j < |s| ==> s[i].0 != s[j].0
  }

  /** Values never increase along the table, as measured by `rank`. */
  predicate SortedDesc<V>(s: seq<(string, V)>, rank: V -> real)
  {
    forall i, j :: 0 <= i < j < |s| ==> rank(s[i].1) >= rank(s[j].1)
  }

  lemma KeysCons<V(!new)>(x: (string, V), t: seq<(string, V)>)
    ensures Keys([x] + t) == {x.0} + Keys(t)
  {
    assert forall y :: y in [x] + t <==> y == x || y in t;
  }

  /** Labels in a non-empty table are distinct iff the first is new to the rest and the rest are distinct. */
  lemma DistinctKeysCons<V(!new)>(x: (string, V), t: seq<(string, V)>)
    ensures DistinctKeys([x] + t) <==> x.0 !in Keys(t) && DistinctKeys(t)
  {
    var s := [x] + t;
    assert forall j :: 0 <= j < |t| ==> s[j + 1] == t[j];
    if DistinctKeys(s) {
      forall y | y in t ensures y.0 != x.0 {
        var j :| 0 <= j < |t| && t[j] == y;
        assert s[0] == x && s[j + 1] == y;
      }
    }
  }

  /** A sorted table's first entry ranks at least as high as every entry. */
  lemma SortedFirstIsMax<V(!new)>(s: seq<(string, V)>, rank: V -> real)
    requires SortedDesc(s, rank)
    ensures forall y :: y in s ==> rank(y.1) <= rank(s[0].1)
  {
    forall y | y in s ensures rank(y.1) <= rank(s[0].1) {
      var j :| 0 <= j < |s| && s[j] == y;
    }
  }

  /** Putting an entry that ranks above every entry in front of a sorted table keeps it sorted. */
  lemma SortedCons<V(!new)>(x: (string, V), t: seq<(string, V)>, rank: V -> real)
    requires SortedDesc(t, rank)
    requires forall y :: y in t ==> rank(y.1) <= rank(x.1)
    ensures SortedDesc([x] + t, rank)
  {
    var s := [x] + t;
    forall i, j | 0 <= i < j < |s| ensures rank(s[i].1) >= rank(s[j].1) {
      if i == 0 {
        assert s[j] in t;
      } else {
        assert s[i] == t[i - 1] && s[j] == t[j - 1];
      }
    }
  }

  /** With distinct labels there are exactly as many labels as entries. */
  lemma {:induction false} DistinctKeysCount<V(!new)>(s: seq<(string, V)>)
    requires DistinctKeys(s)
    ensures |Keys(s)| == |s|
  {
    if s != [] {
      assert s == [s[0]] + s[1..];
      DistinctKeysCons(s[0], s[1..]);
      KeysCons(s[0], s[1..]);
      DistinctKeysCount(s[1..]);
    }
  }

  /** A table listing the keys of `ks` in order has exactly those labels, distinct when the keys are. */
  lemma TableOfKeys<V(!new)>(ks: seq<string>, r: seq<(string, V)>)
    requires |r| == |ks| && forall i :: 0 <= i < |r| ==> r[i].0 == ks[i]
    ensures forall k :: k in Keys(r) <==> k in ks
    ensures (forall i, j :: 0 <= i < j < |ks| ==> ks[i] != ks[j]) ==> DistinctKeys(r)
  {
    forall k | k in ks ensures k in Keys(r) {
      var i :| 0 <= i < |ks| && ks[i] == k;
      assert r[i] in r;
    }
  }

  /** In InsertDesc, an entry that ranks below the first stays behind it and the table stays sorted. */
  lemma InsertBehindSorted<V(!new)>(e: (string, V), s: seq<(string, V)>, rank: V -> real, rest: seq<(string, V)>)
    requires SortedDesc(s, rank) && s != [] && rank(e.1) < rank(s[0].1)
    requires SortedDesc(rest, rank)
    requires multiset(rest) == multiset(s[1..]) + multiset{e}
    ensures SortedDesc([s[0]] + rest, rank)
  {
    SortedFirstIsMax(s, rank);
    forall y | y in rest ensures rank(y.1) <= rank(s[0].1) {
      assert y in multiset(rest);
      assert y == e || y in s[1..];
    }
    SortedCons(s[0], rest, rank);
  }

  /** In InsertDesc, placing the first entry in front of the insertion into the rest keeps the labels right. */
  lemma InsertBehindKeys<V(!new)>(e: (string, V), s: seq<(string, V)>, rest: seq<(string, V)>)
    requires s != []
    requires Keys(rest) == Keys(s[1..]) + {e.0}
    requires DistinctKeys(s[1..]) && e.0 !in Keys(s[1..]) ==> DistinctKeys(rest)
    ensures Keys([s[0]] + rest) == Keys(s) + {e.0}
    ensures DistinctKeys(s) && e.0 !in Keys(s) ==> DistinctKeys([s[0]] + rest)
  {
    assert s == [s[0]] + s[1..];
    KeysCons(s[0], s[1..]);
    KeysCons(s[0], rest);
    DistinctKeysCons(s[0], s[1..]);
    DistinctKeysCons(s[0], rest);
  }

  /** Sequences with the same multiset of elements have the same elements. */
  lemma SameMembers<T>(a: seq<T>, b: seq<T>)
    requires multiset(a) == multiset(b)
    ensures forall x :: x in a <==> x in b
  {
    assert forall x :: x in a <==> x in multiset(a);
    assert forall x :: x in b <==> x in multiset(b);
  }

  /** In InsertDesc, an entry ranked at least as high as the first goes in front. */
  lemma InsertInFront<V(!new)>(e: (string, V), s: seq<(string, V)>, rank: V -> real)
    requires SortedDesc(s, rank) && (s == [] || rank(s[0].1) <= rank(e.1))
    ensures SortedDesc([e] + s, rank)
    ensures multiset([e] + s) == multiset(s) + multiset{e}
    ensures Keys([e] + s) == Keys(s) + {e.0}
    ensures DistinctKeys(s) && e.0 !in Keys(s) ==> DistinctKeys([e] + s)
  {
    KeysCons(e, s);
    DistinctKeysCons(e, s);
    if s != [] {
      SortedFirstIsMax(s, rank);
    }
    SortedCons(e, s, rank);
  }

  /** In InsertDesc, an entry ranked below the first goes into the rest. */
  lemma InsertBehind<V(!new)>(e: (string, V), s: seq<(string, V)>, rank: V -> real, rest: seq<(string, V)>)
    requires SortedDesc(s, rank) && s != [] && rank(e.1) < rank(s[0].1)
    requires SortedDesc(rest, rank)
    requires multiset(rest) == multiset(s[1..]) + multiset{e}
    requires Keys(rest) == Keys(s[1..]) + {e.0}
    requires DistinctKeys(s[1..]) && e.0 !in Keys(s[1..]) ==> DistinctKeys(rest)
    ensures SortedDesc([s[0]] + rest, rank)
    ensures multiset([s[0]] + rest) == multiset(s) + multiset{e}
    ensures Keys([s[0]] + rest) == Keys(s) + {e.0}
    ensures DistinctKeys(s) && e.0 !in Keys(s) ==> DistinctKeys([s[0]] + rest)
  {
    InsertBehindSorted(e, s, rank, rest);
    InsertBehindKeys(e, s, rest);
    assert s == [s[0]] + s[1..];
  }

  /** Places `e` into a table sorted in descending order, before the entries it ties with. */
  function InsertDesc<V(==,!new)>(e: (string, V), s: seq<(string, V)>, rank: V -> real): (r: seq<(string, V)>)
    requires SortedDesc(s, rank)
    ensures SortedDesc(r, rank)
    ensures multiset(r) == multiset(s) + multiset{e}
    ensures Keys(r) == Keys(s) + {e.0}
    ensures DistinctKeys(s) && e.0 !in Keys(s) ==> DistinctKeys(r)
  {
    if s == [] || rank(s[0].1) <= rank(e.1) then
      InsertInFront(e, s, rank);
      [e] + s
    else
      var rest := InsertDesc(e, s[1..], rank);
      InsertBehind(e, s, rank, rest);
      [s[0]] + rest
  }

  /** In SortDesc, inserting the first entry into the sorted rest sorts the whole table. */
  lemma SortStep<V(!new)>(s: seq<(string, V)>, rank: V -> real, rest: seq<(string, V)>, r: seq<(string, V)>)
    requires s != []
    requires multiset(rest) == multiset(s[1..]) && Keys(rest) == Keys(s[1..])
    requires DistinctKeys(s[1..]) ==> DistinctKeys(rest)
    requires multiset(r) == multiset(rest) + multiset{s[0]} && Keys(r) == Keys(rest) + {s[0].0}
    requires DistinctKeys(rest) && s[0].0 !in Keys(rest) ==> DistinctKeys(r)
    ensures multiset(r) == multiset(s)
    ensures Keys(r) == Keys(s)
    ensures DistinctKeys(s) ==> DistinctKeys(r)
  {
    assert s == [s[0]] + s[1..];
    KeysCons(s[0], s[1..]);
    DistinctKeysCons(s[0], s[1..]);
  }

  /**
   * `sort_values(ascending=False)`: the same entries, values non-increasing.
   * The order among equal values is left open.
   */
  function SortDesc<V(==,!new)>(s: seq<(string, V)>, rank: V -> real): (r: seq<(string, V)>)
    ensures SortedDesc(r, rank)
    ensures multiset(r) == multiset(s)
    ensures Keys(r) == Keys(s)
    ensures DistinctKeys(s) ==> DistinctKeys(r)
  {
    if s == [] then []
    else
      var rest := SortDesc(s[1..], rank);
      var r := InsertDesc(s[0], rest, rank);
      SortStep(s, rank, rest, r);
      r
  }

  /**
   * `head(n)`, that is `iloc[:n]`: the first `n` entries, or for a negative
   * `n` all but the last `-n`.
   */
  function Head<T>(s: seq<T>, n: int): (r: seq<T>)
    ensures |r| == if n >= 0 then Min(n, |s|) else Max(0, |s| + n)
    ensures r == s[..|r|]
  {
    s[..if n >= 0 then Min(n, |s|) else Max(0, |s| + n)]
  }

  /**
   * The first entries of a sorted table with distinct labels are sorted, have
   * distinct labels, and rank at least as high as every entry cut off.
   */
  lemma HeadOfSorted<V(!new)>(s: seq<(string, V)>, n: int, rank: V -> real)
    requires SortedDesc(s, rank) && DistinctKeys(s)
    ensures SortedDesc(Head(s, n), rank)
    ensures DistinctKeys(Head(s, n))
    ensures forall e :: e in Head(s, n) ==> e in s
    ensures Keys(Head(s, n)) <= Keys(s)
    ensures forall i, e :: 0 <= i < |Head(s, n)| && e in s && e.0 !in Keys(Head(s, n)) ==>
              rank(e.1) <= rank(Head(s, n)[i].1)
  {
    var r := Head(s, n);
    assert forall j :: 0 <= j < |r| ==> r[j] == s[j];
    forall i, e | 0 <= i < |r| && e in s && e.0 !in Keys(r) ensures rank(e.1) <= rank(r[i].1) {
      var j :| 0 <= j < |s| && s[j] == e;
    }
  }
}
