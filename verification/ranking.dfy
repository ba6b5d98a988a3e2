/**
 * Ranking the completed exposures by exposure time
 * (`ProcessXMM/filter_reduction_results.py`, lines 96-97): the pairs
 * (exposure time, identifier) are sorted ascending in Python's tuple order and
 * the result is reversed, so the longest exposure comes first and equal times
 * are ordered by identifier, the larger first.
 */
module Ranking {
  import opened Text

  /** One ranked item: the stored exposure time and its identifier. */
  type Entry = (real, string)

  /** Python's `a <= b` on two (time, identifier) tuples. */
  predicate EntryLe(a: Entry, b: Entry) {
    a.0 < b.0 || (a.0 == b.0 && LexLe(a.1, b.1))
  }

  lemma EntryLeTotal(a: Entry, b: Entry)
    ensures EntryLe(a, b) || EntryLe(b, a)
  {
    LexLeTotal(a.1, b.1);
  }

  lemma EntryLeAntisymmetric(a: Entry, b: Entry)
    requires EntryLe(a, b) && EntryLe(b, a)
    ensures a == b
  {
    LexLeAntisymmetric(a.1, b.1);
  }

  lemma EntryLeTransitive(a: Entry, b: Entry, c: Entry)
    requires EntryLe(a, b) && EntryLe(b, c)
    ensures EntryLe(a, c)
  {
    if a.0 == b.0 && b.0 == c.0 {
      LexLeTransitive(a.1, b.1, c.1);
    }
  }

  ghost predicate Ascending(s: seq<Entry>) {
    forall i, j :: 0 <= i < j < |s| ==> EntryLe(s[i], s[j])
  }

  /** Longest exposure first; equal exposure times by identifier, the larger first. */
  ghost predicate Descending(s: seq<Entry>) {
    forall i, j :: 0 <= i < j < |s| ==> EntryLe(s[j], s[i])
  }

  /** The identifiers of a sequence of entries, in order. */
  function Ids(s: seq<Entry>): (r: seq<string>)
    ensures |r| == |s|
    ensures forall i :: 0 <= i < |s| ==> r[i] == s[i].1
  {
    seq(|s|, i requires 0 <= i < |s| => s[i].1)
  }

  /** Python's `zip(exps, ids)`: pairs up to the shorter of the two. */
  function Zip(exps: seq<real>, ids: seq<string>): (r: seq<Entry>)
    ensures |r| == if |exps| <= |ids| then |exps| else |ids|
    ensures forall i :: 0 <= i < |r| ==> r[i] == (exps[i], ids[i])
  {
    var n := if |exps| <= |ids| then |exps| else |ids|;
    seq(n, i requires 0 <= i < n => (exps[i], ids[i]))
  }

  /** With as many times as identifiers, `zip` loses no identifier: they come back out in order. */
  lemma ZipIds(exps: seq<real>, ids: seq<string>)
    requires |exps| == |ids|
    ensures |Zip(exps, ids)| == |ids|
    ensures Ids(Zip(exps, ids)) == ids
  {
  }

  /** Inserting one entry into an ascending sequence keeps it ascending and adds just that entry. */
  function Insert(e: Entry, s: seq<Entry>): (r: seq<Entry>)
    requires Ascending(s)
    ensures Ascending(r)
    ensures multiset(r) == multiset(s) + multiset{e}
    decreases |s|
  {
    if s == [] then [e]
    else if EntryLe(e, s[0]) then
      InsertFrontAscending(e, s);
      [e] + s
    else
      EntryLeTotal(e, s[0]);
      var t := Insert(e, s[1..]);
      InsertBehindAscending(e, s, t);
      assert s == [s[0]] + s[1..];
      [s[0]] + t
  }

  lemma InsertFrontAscending(e: Entry, s: seq<Entry>)
    requires Ascending(s) && s != [] && EntryLe(e, s[0])
    ensures Ascending([e] + s)
  {
    var r := [e] + s;
    forall i, j | 0 <= i < j < |r| ensures EntryLe(r[i], r[j]) {
      if i == 0 && j > 1 {
        EntryLeTransitive(e, s[0], s[j - 1]);
      }
    }
  }

  lemma InsertBehindAscending(e: Entry, s: seq<Entry>, t: seq<Entry>)
    requires Ascending(s) && s != [] && EntryLe(s[0], e)
    requires Ascending(t) && multiset(t) == multiset(s[1..]) + multiset{e}
    ensures Ascending([s[0]] + t)
  {
    var r := [s[0]] + t;
    forall i, j | 0 <= i < j < |r| ensures EntryLe(r[i], r[j]) {
      if i == 0 {
        var x := t[j - 1];
        assert x in multiset(t);
        if x != e {
          assert x in multiset(s[1..]);
          var k :| 0 <= k < |s[1..]| && s[1..][k] == x;
          assert s[k + 1] == x;
        }
      }
    }
  }

  /** Python's `sorted` on the entries: ascending in tuple order, the same entries. */
  function SortAscending(s: seq<Entry>): (r: seq<Entry>)
    ensures Ascending(r)
    ensures multiset(r) == multiset(s)
    decreases |s|
  {
    if s == [] then []
    else
      var t := SortAscending(s[1..]);
      assert s == [s[0]] + s[1..];
      Insert(s[0], t)
  }

  /** Entries that are a permutation of each other carry identifiers that are a permutation of each other. */
  lemma {:induction false} IdsOfPermutation(a: seq<Entry>, b: seq<Entry>)
    requires multiset(a) == multiset(b)
    ensures multiset(Ids(a)) == multiset(Ids(b))
    decreases |a|
  {
    if a == [] {
      assert |b| == 0 by { assert |multiset(b)| == 0; }
    } else {
      assert a[0] in multiset(b);
      var k :| 0 <= k < |b| && b[k] == a[0];
      var rest := b[..k] + b[k + 1..];
      RemoveAt(b, k);
      RemoveAt(a, 0);
      assert a[..0] + a[1..] == a[1..];
      IdsOfPermutation(a[1..], rest);
      IdsStep(a, b, k);
    }
  }

  /** The inductive step of `IdsOfPermutation`: match `a[0]` with `b[k]` and compare the rest. */
  lemma IdsStep(a: seq<Entry>, b: seq<Entry>, k: nat)
    requires a != [] && k < |b| && b[k] == a[0]
    requires multiset(Ids(a[1..])) == multiset(Ids(b[..k] + b[k + 1..]))
    ensures multiset(Ids(a)) == multiset(Ids(b))
  {
    var ia, ib := Ids(a), Ids(b);
    assert Ids(b[..k] + b[k + 1..]) == ib[..k] + ib[k + 1..];
    assert Ids(a[1..]) == ia[1..];
    RemoveAt(ib, k);
    assert ia == [ia[0]] + ia[1..];
    assert multiset(ia) == multiset{ia[0]} + multiset(ia[1..]);
    assert multiset(ia[1..]) == multiset(ia) - multiset{ia[0]};
    MultisetCancel(multiset(ia), multiset(ib), ia[0]);
  }

  /** Removing the element at `k` removes one copy of it from the multiset. */
  lemma RemoveAt<T>(s: seq<T>, k: nat)
    requires k < |s|
    ensures multiset(s[..k] + s[k + 1..]) == multiset(s) - multiset{s[k]}
  {
    assert s == s[..k] + [s[k]] + s[k + 1..];
  }

  lemma MultisetCancel<T>(m1: multiset<T>, m2: multiset<T>, x: T)
    requires x in m1 && x in m2
    requires m1 - multiset{x} == m2 - multiset{x}
    ensures m1 == m2
  {
    assert forall y :: m1[y] == (m1 - multiset{x})[y] + (if y == x then 1 else 0);
    assert forall y :: m2[y] == (m2 - multiset{x})[y] + (if y == x then 1 else 0);
  }

  /** `l[::-1]`. */
  function Reverse<T>(s: seq<T>): (r: seq<T>)
    ensures |r| == |s|
    ensures forall i :: 0 <= i < |s| ==> r[i] == s[|s| - 1 - i]
  {
    seq(|s|, i requires 0 <= i < |s| => s[|s| - 1 - i])
  }

  /** Reversing twice gives the sequence back. */
  lemma ReverseInvolutive<T>(s: seq<T>)
    ensures Reverse(Reverse(s)) == s
  {
  }

  lemma ReverseKeepsMultiset<T>(s: seq<T>)
    ensures multiset(Reverse(s)) == multiset(s)
    decreases |s|
  {
    if s != [] {
      var n := |s|;
      ReverseKeepsMultiset(s[1..]);
      assert Reverse(s) == Reverse(s[1..]) + [s[0]];
      assert s == [s[0]] + s[1..];
    }
  }

  /**
   * The ranked (time, identifier) pairs: the zipped pairs, longest exposure
   * first, equal times by identifier from the larger down.
   */
  function RankedEntries(exps: seq<real>, ids: seq<string>): (r: seq<Entry>)
    ensures Descending(r)
    ensures multiset(r) == multiset(Zip(exps, ids))
  {
    var sorted := SortAscending(Zip(exps, ids));
    ReverseKeepsMultiset(sorted);
    Reverse(sorted)
  }

  /**
   * `ranked_obsdetpref_list`: the identifiers in ranked order. With as many
   * times as identifiers, it is a permutation of the identifiers, and the
   * times attached along it never increase.
   */
  function Ranked(exps: seq<real>, ids: seq<string>): (r: seq<string>)
    ensures |r| == |RankedEntries(exps, ids)|
    ensures |exps| == |ids| ==> multiset(r) == multiset(ids)
    ensures forall i, j :: 0 <= i < j < |r| ==> RankedEntries(exps, ids)[j].0 <= RankedEntries(exps, ids)[i].0
    ensures forall i :: 0 <= i < |r| ==> r[i] == RankedEntries(exps, ids)[i].1
  {
    var entries := RankedEntries(exps, ids);
    IdsOfPermutation(entries, Zip(exps, ids));
    assert |entries| == |Zip(exps, ids)| by {
      assert |multiset(entries)| == |multiset(Zip(exps, ids))|;
    }
    assert |exps| == |ids| ==> Ids(Zip(exps, ids)) == ids by {
      if |exps| == |ids| {
        ZipIds(exps, ids);
      }
    }
    Ids(entries)
  }

  /** Two descending sequences holding the same entries are equal: the ranking is fully determined. */
  lemma {:induction false} DescendingUnique(a: seq<Entry>, b: seq<Entry>)
    requires Descending(a) && Descending(b)
    requires multiset(a) == multiset(b)
    ensures a == b
    decreases |a|
  {
    if a != [] {
      assert |b| == |a| by {
        assert |multiset(a)| == |a| && |multiset(b)| == |b|;
      }
      assert a[0] in multiset(b);
      assert b[0] in multiset(a);
      var ka :| 0 <= ka < |b| && b[ka] == a[0];
      var kb :| 0 <= kb < |a| && a[kb] == b[0];
      assert EntryLe(a[0], b[0]) by {
        if ka > 0 { assert EntryLe(b[ka], b[0]); } else { LexLeReflexive(a[0].1); }
      }
      assert EntryLe(b[0], a[0]) by {
        if kb > 0 { assert EntryLe(a[kb], a[0]); } else { LexLeReflexive(b[0].1); }
      }
      EntryLeAntisymmetric(a[0], b[0]);
      assert a == [a[0]] + a[1..];
      assert b == [b[0]] + b[1..];
      assert multiset(a) == multiset{a[0]} + multiset(a[1..]);
      assert multiset(b) == multiset{b[0]} + multiset(b[1..]);
      assert multiset(a[1..]) == multiset(a) - multiset{a[0]};
      assert multiset(b[1..]) == multiset(b) - multiset{b[0]};
      DescendingTail(a);
      DescendingTail(b);
      DescendingUnique(a[1..], b[1..]);
    }
  }

  lemma DescendingTail(s: seq<Entry>)
    requires Descending(s) && s != []
    ensures Descending(s[1..])
  {
    forall i, j | 0 <= i < j < |s| - 1 ensures EntryLe(s[1..][j], s[1..][i]) {
      assert s[1..][j] == s[j + 1] && s[1..][i] == s[i + 1];
    }
  }

  /** Any ordering of the zipped pairs that is descending in tuple order is the script's ranking. */
  lemma RankingIsTheDescendingOrder(exps: seq<real>, ids: seq<string>, other: seq<Entry>)
    requires Descending(other)
    requires multiset(other) == multiset(Zip(exps, ids))
    ensures other == RankedEntries(exps, ids)
  {
    DescendingUnique(other, RankedEntries(exps, ids));
  }
}
