/** The newest-first order by `createdAt` of the repository queries,
    and the subsequence relation between a filtered and an unfiltered answer. */
module Ordering {
  import opened PromptEntity

  /** Newest first: `createdAt` never increases along `s`. */
  predicate SortedDesc(s: seq<Prompt>) {
    forall i, j :: 0 <= i < j < |s| ==> s[i].createdAt >= s[j].createdAt
  }

  /** Places `p` into the newest-first sequence `s`, before every record that
      is not newer than it. */
  function InsertDesc(p: Prompt, s: seq<Prompt>): (r: seq<Prompt>)
    requires SortedDesc(s)
    ensures SortedDesc(r)
    ensures multiset(r) == multiset(s) + multiset{p}
    ensures forall x :: x in r <==> x == p || x in s
  {
    if s == [] || p.createdAt >= s[0].createdAt then
      [p] + s
    else
      var rest := InsertDesc(p, s[1..]);
      assert s == [s[0]] + s[1..];
      NewestHeadStaysFirst(s[0], p, s[1..], rest);
      ConsKeepsSorted(s[0], rest);
      [s[0]] + rest
  }

  /** Putting a record in front of a newest-first sequence keeps it newest
      first when the record is at least as new as every element. */
  lemma ConsKeepsSorted(h: Prompt, rest: seq<Prompt>)
    requires SortedDesc(rest)
    requires forall j :: 0 <= j < |rest| ==> h.createdAt >= rest[j].createdAt
    ensures SortedDesc([h] + rest)
  {
    var r := [h] + rest;
    forall i, j | 0 <= i < j < |r| ensures r[i].createdAt >= r[j].createdAt {
      assert r[j] == rest[j - 1];
      if i > 0 { assert r[i] == rest[i - 1]; }
    }
  }

  /** A record at least as new as `p` and as every record of `s` stays ahead
      of any sequence made of `p` and the records of `s`. */
  lemma NewestHeadStaysFirst(h: Prompt, p: Prompt, s: seq<Prompt>, rest: seq<Prompt>)
    requires h.createdAt >= p.createdAt
    requires forall x :: x in s ==> h.createdAt >= x.createdAt
    requires forall x :: x in rest ==> x == p || x in s
    ensures forall j :: 0 <= j < |rest| ==> h.createdAt >= rest[j].createdAt
  {
    forall j | 0 <= j < |rest| ensures h.createdAt >= rest[j].createdAt {
      assert rest[j] in rest;
    }
  }

  /** The store's records newest first. Records with equal `createdAt` come
      out in one fixed order here; the database promises no order for them,
      and two queries may order them differently. */
  function SortDesc(s: seq<Prompt>): (r: seq<Prompt>)
    ensures SortedDesc(r)
    ensures multiset(r) == multiset(s)
  {
    if s == [] then []
    else
      assert s == [s[0]] + s[1..];
      InsertDesc(s[0], SortDesc(s[1..]))
  }

  /** `a` is obtained from `b` by deleting elements, without reordering. */
  ghost predicate IsSubsequence(a: seq<Prompt>, b: seq<Prompt>)
    decreases |b|
  {
    if a == [] then true
    else if b == [] then false
    else (a[0] == b[0] && IsSubsequence(a[1..], b[1..])) || IsSubsequence(a, b[1..])
  }

  /** A subsequence takes no record more often than the original holds it. */
  lemma {:induction false} SubsequenceIsSubMultiset(a: seq<Prompt>, b: seq<Prompt>)
    requires IsSubsequence(a, b)
    ensures multiset(a) <= multiset(b)
    decreases |b|
  {
    if a != [] {
      assert b == [b[0]] + b[1..];
      if a[0] == b[0] && IsSubsequence(a[1..], b[1..]) {
        SubsequenceIsSubMultiset(a[1..], b[1..]);
        assert a == [a[0]] + a[1..];
      } else {
        SubsequenceIsSubMultiset(a, b[1..]);
      }
    }
  }

  /** Deleting records from a newest-first sequence keeps it newest first. */
  lemma {:induction false} SubsequenceKeepsOrder(a: seq<Prompt>, b: seq<Prompt>)
    requires IsSubsequence(a, b) && SortedDesc(b)
    ensures SortedDesc(a)
    decreases |b|
  {
    if a != [] {
      if a[0] == b[0] && IsSubsequence(a[1..], b[1..]) {
        SubsequenceKeepsOrder(a[1..], b[1..]);
        SubsequenceIsSubMultiset(a[1..], b[1..]);
        forall j | 1 <= j < |a| ensures a[0].createdAt >= a[j].createdAt {
          assert a[j] in multiset(a[1..]);
          assert a[j] in b[1..];
        }
      } else {
        SubsequenceKeepsOrder(a, b[1..]);
      }
    }
  }
}
