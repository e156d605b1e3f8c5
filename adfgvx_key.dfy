/** The transposition key of `adfgvxCipher` (src/lib/ciphers/adfgvx.ts:26-33): the
    key's letters are numbered by position and sorted by letter, ties kept in
    position order. `sortedKey[p].i` is modelled as `SortedKey(k)[p]`. */
module AdfgvxKey {
  import opened JsText

  /** The comparator of lines 29-33: by letter, then by original position. */
  predicate Before(k: string, i: int, j: int)
  {
    0 <= i < |k| && 0 <= j < |k| && (k[i] < k[j] || (k[i] == k[j] && i < j))
  }

  /** The comparator is total on distinct positions. */
  lemma BeforeTotal(k: string, i: int, j: int)
    requires 0 <= i < |k| && 0 <= j < |k| && i != j
    ensures Before(k, i, j) || Before(k, j, i)
  {
  }

  predicate Ordered(k: string, s: seq<int>)
  {
    forall p, q :: 0 <= p < q < |s| ==> Before(k, s[p], s[q])
  }

  /** The positions 0 .. n-1, each exactly once. */
  predicate IsOrderOf(s: seq<int>, n: int)
  {
    && |s| == n
    && (forall p :: 0 <= p < |s| ==> 0 <= s[p] < n)
    && (forall p, q :: 0 <= p < q < |s| ==> s[p] != s[q])
    && (forall i :: 0 <= i < n ==> i in s)
  }

  function Insert(k: string, x: int, s: seq<int>): (r: seq<int>)
    ensures |r| == |s| + 1
    ensures forall y :: y in r <==> y == x || y in s
  {
    if s == [] then [x]
    else if Before(k, x, s[0]) then [x] + s
    else [s[0]] + Insert(k, x, s[1..])
  }

  /** Inserting a new position keeps a sequence ordered. */
  lemma {:induction false} InsertOrdered(k: string, x: int, s: seq<int>)
    requires 0 <= x < |k| && Ordered(k, s)
    requires forall p :: 0 <= p < |s| ==> 0 <= s[p] < |k| && s[p] != x
    ensures Ordered(k, Insert(k, x, s))
  {
    if s != [] && !Before(k, x, s[0]) {
      var rest := s[1..];
      InsertOrdered(k, x, rest);
      BeforeTotal(k, x, s[0]);
      var r' := Insert(k, x, rest);
      forall q | 0 <= q < |r'| ensures Before(k, s[0], r'[q]) {
        assert r'[q] in r';
        if r'[q] != x {
          assert r'[q] in rest;
          var j :| 0 <= j < |rest| && rest[j] == r'[q];
          assert Before(k, s[0], s[j + 1]);
        }
      }
    }
  }

  /** The first m positions in the sorted order. */
  function SortPrefix(k: string, m: nat): (r: seq<int>)
    requires m <= |k|
    ensures |r| == m && forall y :: y in r <==> 0 <= y < m
  {
    if m == 0 then [] else Insert(k, m - 1, SortPrefix(k, m - 1))
  }

  /** `sortedKey`, as the original positions in sorted order. */
  function SortedKey(k: string): (order: seq<int>)
    ensures |order| == |k|
  {
    SortPrefix(k, |k|)
  }

  lemma {:induction false} SortPrefixOrdered(k: string, m: nat)
    requires m <= |k|
    ensures Ordered(k, SortPrefix(k, m))
  {
    if m > 0 {
      SortPrefixOrdered(k, m - 1);
      var s := SortPrefix(k, m - 1);
      forall p | 0 <= p < |s| ensures 0 <= s[p] < |k| && s[p] != m - 1 {
        assert s[p] in s;
      }
      InsertOrdered(k, m - 1, s);
    }
  }

  /** `sortedKey` puts every position 0 .. n-1 exactly once, ordered by
      (letter, position). */
  lemma SortedKeyIsSorted(k: string)
    ensures IsOrderOf(SortedKey(k), |k|) && Ordered(k, SortedKey(k))
  {
    var order := SortedKey(k);
    SortPrefixOrdered(k, |k|);
    forall p | 0 <= p < |order| ensures 0 <= order[p] < |k| {
      assert order[p] in order;
    }
  }

  /** The positions 0, 1, ..., n-1 in order. */
  function Positions(n: nat): (s: seq<int>)
    ensures |s| == n && forall p :: 0 <= p < n ==> s[p] == p
  {
    seq(n, p => p)
  }

  lemma {:induction false} InsertLast(k: string, x: int, s: seq<int>)
    requires forall p :: 0 <= p < |s| ==> Before(k, s[p], x)
    ensures Insert(k, x, s) == s + [x]
  {
    if s != [] {
      assert !Before(k, x, s[0]);
      InsertLast(k, x, s[1..]);
    }
  }

  /** A key whose letters are already in order keeps its columns in place. */
  lemma SortedKeyOfOrderedKey(k: string)
    requires forall i, j :: 0 <= i < j < |k| ==> k[i] <= k[j]
    ensures SortedKey(k) == Positions(|k|)
  {
    SortPrefixIdentity(k, |k|);
  }

  lemma {:induction false} SortPrefixIdentity(k: string, m: nat)
    requires m <= |k| && forall i, j :: 0 <= i < j < |k| ==> k[i] <= k[j]
    ensures SortPrefix(k, m) == Positions(m)
  {
    if m > 0 {
      SortPrefixIdentity(k, m - 1);
      InsertLast(k, m - 1, Positions(m - 1));
      assert Positions(m - 1) + [m - 1] == Positions(m);
    }
  }
}
